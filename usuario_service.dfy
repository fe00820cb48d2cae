/**
 * UsuarioServiceImpl: authentication by e-mail and password, registration
 * guarded by e-mail uniqueness, and lookup by id, over the user repository.
 */
module UsuarioService {
  import opened Wrappers
  import opened Entities
  import opened Store

  const MsgEmailNaoEncontrado := "Usuário não encontrado para o email informado"
  const MsgSenhaIncorreta := "Senha incorreta"
  const MsgEmailJaCadastrado := "Já existe um usuario cadastrado com esse email"
  const MsgUsuarioNaoEncontrado := "Usuário não encontrado"

  /** `existsByEmail`: some stored user has exactly this e-mail. */
  predicate ExistsByEmail(repository: map<int, Usuario>, email: string) {
    exists k | k in repository :: repository[k].email == email
  }

  /** The keys of the users stored with this e-mail. */
  function ComEmail(repository: map<int, Usuario>, email: string): (ks: set<int>)
    ensures forall k :: k in ks <==> k in repository && repository[k].email == email
  {
    set k | k in repository && repository[k].email == email
  }

  /**
   * `findByEmail`: the user stored with this e-mail, if any (the one with the
   * least id if, against the invariant below, there were several).
   */
  function FindByEmail(repository: map<int, Usuario>, email: string): (r: Option<Usuario>)
    ensures r.None? <==> !ExistsByEmail(repository, email)
    ensures r.Some? ==> exists k | k in repository :: repository[k] == r.value && r.value.email == email
  {
    if ExistsByEmail(repository, email) then
      var k := Least(ComEmail(repository, email));
      Some(repository[k])
    else
      None
  }

  /** No two stored users share an e-mail. */
  predicate EmailsUnicos(repository: map<int, Usuario>) {
    forall j, k | j in repository && k in repository && repository[j].email == repository[k].email :: j == k
  }

  /** With unique e-mails, `findByEmail` returns exactly the user stored with that e-mail. */
  lemma FindByEmailUnique(repository: map<int, Usuario>, k: int)
    requires EmailsUnicos(repository)
    requires k in repository
    ensures FindByEmail(repository, repository[k].email) == Some(repository[k])
  {
    var email := repository[k].email;
    assert k in ComEmail(repository, email);
    var m := Least(ComEmail(repository, email));
    assert m == k;
  }

  /**
   * `autenticar`: an unknown e-mail and a wrong password are told apart; a
   * success returns a stored user whose e-mail and password are the ones given.
   */
  function Autenticar(repository: map<int, Usuario>, email: string, senha: string): (r: Result<Usuario, Error>)
    ensures !ExistsByEmail(repository, email) ==> r == Failure(ErroAutentificacaoException(MsgEmailNaoEncontrado))
    ensures ExistsByEmail(repository, email) && r.Failure? ==> r == Failure(ErroAutentificacaoException(MsgSenhaIncorreta))
    ensures r.Success? ==> exists k | k in repository :: repository[k] == r.value && r.value.email == email && r.value.senha == senha
  {
    var usuario := FindByEmail(repository, email);
    if usuario.None? then
      Failure(ErroAutentificacaoException(MsgEmailNaoEncontrado))
    else if usuario.value.senha != senha then
      Failure(ErroAutentificacaoException(MsgSenhaIncorreta))
    else
      Success(usuario.value)
  }

  /**
   * With unique e-mails, authentication succeeds exactly for a stored user's
   * e-mail and password, and returns that user.
   */
  lemma AutenticarIff(repository: map<int, Usuario>, email: string, senha: string)
    requires EmailsUnicos(repository)
    ensures Autenticar(repository, email, senha).Success? <==>
      exists k | k in repository :: repository[k].email == email && repository[k].senha == senha
    ensures forall k | k in repository && repository[k].email == email && repository[k].senha == senha ::
      Autenticar(repository, email, senha) == Success(repository[k])
  {
    forall k | k in repository && repository[k].email == email
      ensures Autenticar(repository, email, senha) ==
        (if repository[k].senha == senha then Success(repository[k])
         else Failure(ErroAutentificacaoException(MsgSenhaIncorreta)))
    {
      FindByEmailUnique(repository, k);
    }
  }

  /** `validarEmail`: throws when the e-mail is already taken. */
  function ValidarEmail(repository: map<int, Usuario>, email: string): (r: Outcome<Error>)
    ensures r.Pass? <==> forall k | k in repository :: repository[k].email != email
    ensures r.Fail? ==> r.error == BusinessRuleException(MsgEmailJaCadastrado)
  {
    if ExistsByEmail(repository, email) then Fail(BusinessRuleException(MsgEmailJaCadastrado)) else Pass
  }

  /** `obterPorId`: the stored user, or a BusinessRuleException when there is none. */
  function ObterPorId(repository: map<int, Usuario>, id: int): (r: Result<Usuario, Error>)
    ensures r.Success? <==> id in repository
    ensures r.Success? ==> r.value == repository[id]
    ensures r.Failure? ==> r.error == BusinessRuleException(MsgUsuarioNaoEncontrado)
  {
    if id in repository then Success(repository[id]) else Failure(BusinessRuleException(MsgUsuarioNaoEncontrado))
  }

  class UsuarioServiceImpl {
    /** The rows of the user repository, keyed by id. */
    var repository: map<int, Usuario>
    /** The repository's id generator: the id the next inserted row gets. */
    var nextId: int

    /** Every row is stored under its own id, below the generator, and e-mails are unique. */
    ghost predicate Valid()
      reads this
    {
      && 0 <= nextId
      && (forall k | k in repository :: 0 <= k < nextId && repository[k].id == Some(k))
      && EmailsUnicos(repository)
    }

    constructor ()
      ensures Valid()
      ensures repository == map[] && nextId == 0
    {
      repository := map[];
      nextId := 0;
    }

    /**
     * `cadastrar`: a taken e-mail throws and nothing is written; otherwise the
     * user is saved (overwriting the row its id names, or under a fresh id)
     * and can then authenticate with the e-mail and password it was given.
     */
    method Cadastrar(usuario: Usuario) returns (r: Result<Usuario, Error>)
      requires Valid()
      modifies this
      ensures Valid()
      ensures ExistsByEmail(old(repository), usuario.email) ==>
        r == Failure(BusinessRuleException(MsgEmailJaCadastrado)) && repository == old(repository) && nextId == old(nextId)
      ensures !ExistsByEmail(old(repository), usuario.email) ==>
        var k := AssignedId(old(repository), old(nextId), usuario.id);
        && r == Success(usuario.(id := Some(k)))
        && repository == old(repository)[k := r.value]
        && nextId == (if k == old(nextId) then old(nextId) + 1 else old(nextId))
      ensures r.Success? ==> Autenticar(repository, usuario.email, usuario.senha) == Success(r.value)
    {
      var v := ValidarEmail(repository, usuario.email);
      if v.Fail? {
        return Failure(v.error);
      }
      var k := AssignedId(repository, nextId, usuario.id);
      var saved := usuario.(id := Some(k));
      repository := repository[k := saved];
      if k == nextId {
        nextId := nextId + 1;
      }
      FindByEmailUnique(repository, k);
      r := Success(saved);
    }
  }
}
