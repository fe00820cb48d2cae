/**
 * The REST controller for entries, reduced to what it decides itself: how a
 * request body becomes an entity, the checks it makes before calling the
 * services, and the order of those calls. An HTTP response is modelled as
 * the `Result` the handler builds it from.
 */
module LancamentoController {
  import opened Wrappers
  import opened Entities
  import LancamentoRules
  import opened LancamentoService
  import UsuarioService

  const MsgTipoInvalido := "Tipo inválido"
  const MsgStatusInvalido := "Não foi possivel atualizar o status do lançamento, envie um status válido"

  /**
   * `toEntity`: copies the plain fields, resolves the user by id through the
   * user service and the type and status by name. The first of these to fail
   * decides the error: an unknown user, then an unknown type, then an unknown
   * status name (the last two are `valueOf`'s IllegalArgumentException).
   */
  function ToEntity(usuarios: map<int, Usuario>, dto: LancamentoDTO): (r: Result<Lancamento, Error>)
    ensures dto.usuario.Some? && dto.usuario.value !in usuarios ==>
      r == Failure(BusinessRuleException(UsuarioService.MsgUsuarioNaoEncontrado))
    ensures
      && (dto.usuario.None? || dto.usuario.value in usuarios)
      && dto.tipo.Some? && TipoValueOf(dto.tipo.value).None?
      ==> r == Failure(IllegalArgumentException)
    ensures
      && (dto.usuario.None? || dto.usuario.value in usuarios)
      && (dto.tipo.None? || TipoValueOf(dto.tipo.value).Some?)
      && dto.status.Some? && StatusValueOf(dto.status.value).None?
      ==> r == Failure(IllegalArgumentException)
    ensures r.Success? <==>
      && (dto.usuario.None? || dto.usuario.value in usuarios)
      && (dto.tipo.None? || TipoValueOf(dto.tipo.value).Some?)
      && (dto.status.None? || StatusValueOf(dto.status.value).Some?)
    ensures r.Success? ==>
      && r.value.id == dto.id && r.value.descricao == dto.descricao
      && r.value.mes == dto.mes && r.value.ano == dto.ano && r.value.valor == dto.valor
      && (r.value.usuario.Some? <==> dto.usuario.Some?)
      && (dto.usuario.Some? ==> r.value.usuario.value == usuarios[dto.usuario.value])
      && (r.value.tipo.Some? <==> dto.tipo.Some?)
      && (dto.tipo.Some? ==> TipoName(r.value.tipo.value) == dto.tipo.value)
      && (r.value.status.Some? <==> dto.status.Some?)
      && (dto.status.Some? ==> StatusName(r.value.status.value) == dto.status.value)
  {
    var usuario: Result<Option<Usuario>, Error> :=
      if dto.usuario.None? then Success(None)
      else match UsuarioService.ObterPorId(usuarios, dto.usuario.value)
        case Success(u) => Success(Some(u))
        case Failure(e) => Failure(e);
    var tipo: Result<Option<TipoLancamento>, Error> :=
      if dto.tipo.None? then Success(None)
      else match TipoValueOf(dto.tipo.value)
        case Some(t) => Success(Some(t))
        case None => Failure(IllegalArgumentException);
    var status: Result<Option<StatusLancamento>, Error> :=
      if dto.status.None? then Success(None)
      else match StatusValueOf(dto.status.value)
        case Some(st) => Success(Some(st))
        case None => Failure(IllegalArgumentException);
    if usuario.Failure? then Failure(usuario.error)
    else if tipo.Failure? then Failure(tipo.error)
    else if status.Failure? then Failure(status.error)
    else Success(Lancamento(dto.id, dto.descricao, dto.mes, dto.ano, usuario.value, dto.valor, tipo.value, status.value))
  }

  /**
   * `toModel`: the response body for an entity. The user is sent by id and
   * the type and status by name; a null user, type or status makes the
   * dereference throw.
   */
  function ToModel(l: Lancamento): (r: Result<LancamentoDTO, Error>)
    ensures r.Failure? <==> l.usuario.None? || l.tipo.None? || l.status.None?
    ensures r.Failure? ==> r.error == NullPointerException
    ensures r.Success? ==>
      && r.value.id == l.id && r.value.descricao == l.descricao
      && r.value.mes == l.mes && r.value.ano == l.ano && r.value.valor == l.valor
      && r.value.usuario == l.usuario.value.id
      && r.value.tipo == Some(TipoName(l.tipo.value))
      && r.value.status == Some(StatusName(l.status.value))
  {
    if l.status.None? || l.tipo.None? || l.usuario.None? then
      Failure(NullPointerException)
    else
      Success(LancamentoDTO(
        l.id, l.descricao, l.mes, l.ano, l.valor,
        l.usuario.value.id, Some(TipoName(l.tipo.value)), Some(StatusName(l.status.value))))
  }

  /**
   * An entity whose user is stored under its id survives the trip to a
   * response body and back.
   */
  lemma ToEntityOfToModel(usuarios: map<int, Usuario>, l: Lancamento)
    requires l.usuario.Some? && l.tipo.Some? && l.status.Some?
    requires l.usuario.value.id.Some? && l.usuario.value.id.value in usuarios
    requires usuarios[l.usuario.value.id.value] == l.usuario.value
    ensures ToModel(l).Success? && ToEntity(usuarios, ToModel(l).value) == Success(l)
  {
    var dto := ToModel(l).value;
    var e := ToEntity(usuarios, dto).value;
    assert e.tipo == l.tipo && e.status == l.status;
  }

  /**
   * A request body naming a user, a type and a status, whose users are stored
   * under their ids, converts to an entity that converts back to it.
   */
  lemma ToModelOfToEntity(usuarios: map<int, Usuario>, dto: LancamentoDTO)
    requires forall k | k in usuarios :: usuarios[k].id == Some(k)
    requires dto.usuario.Some? && dto.tipo.Some? && dto.status.Some?
    requires ToEntity(usuarios, dto).Success?
    ensures ToModel(ToEntity(usuarios, dto).value) == Success(dto)
  {
  }

  class LancamentoController {
    /** The entry service the handlers call. */
    const service: LancamentoServiceImpl
    /** The user service `toEntity` resolves users with. */
    const usuarioService: UsuarioService.UsuarioServiceImpl

    constructor (service: LancamentoServiceImpl, usuarioService: UsuarioService.UsuarioServiceImpl)
      ensures this.service == service && this.usuarioService == usuarioService
    {
      this.service := service;
      this.usuarioService := usuarioService;
    }

    /**
     * `buscar`: a type name other than RECEITA and DESPESA is rejected before
     * anything else, so the search only ever fails with a BusinessRuleException
     * (an unknown type or an unknown user). It returns the user's entries that
     * match the optional description, month, year and type.
     */
    method Buscar(idUsuario: int, descricao: Option<string>, mes: Option<int32>, ano: Option<int32>, tipo: Option<string>)
      returns (r: Result<map<int, Lancamento>, Error>)
      requires usuarioService.Valid()
      ensures tipo.Some? && TipoValueOf(tipo.value).None? ==> r == Failure(BusinessRuleException(MsgTipoInvalido))
      ensures (tipo.None? || TipoValueOf(tipo.value).Some?) && idUsuario !in usuarioService.repository ==>
        r == Failure(BusinessRuleException(UsuarioService.MsgUsuarioNaoEncontrado))
      ensures r.Success? <==> (tipo.None? || TipoValueOf(tipo.value).Some?) && idUsuario in usuarioService.repository
      ensures r.Failure? ==> r.error.BusinessRuleException?
      ensures r.Success? ==> forall k | k in r.value :: k in service.repository && r.value[k] == service.repository[k]
      ensures r.Success? ==> forall k | k in service.repository :: k in r.value <==>
        var l := service.repository[k];
        && l.usuario.Some? && l.usuario.value.id == Some(idUsuario)
        && (descricao.Some? ==> l.descricao.Some? && LancamentoRules.DescricaoContem(l.descricao.value, descricao.value))
        && (mes.Some? ==> l.mes == mes)
        && (ano.Some? ==> l.ano == ano)
        && (tipo.Some? ==> l.tipo.Some? && TipoName(l.tipo.value) == tipo.value)
    {
      if tipo.Some? && tipo.value != TipoName(DESPESA) && tipo.value != TipoName(RECEITA) {
        return Failure(BusinessRuleException(MsgTipoInvalido));
      }
      var filtro := LancamentoDTO(None, descricao, mes, ano, None, Some(idUsuario), tipo, None);
      var entity := ToEntity(usuarioService.repository, filtro);
      if entity.Failure? {
        return Failure(entity.error);
      }
      r := Success(LancamentoRules.Buscar(service.repository, entity.value));
    }

    /**
     * `atualizar`: the id must name a stored entry before the body is even
     * converted; the entry is then replaced in place (same id, no new row).
     */
    method Atualizar(id: int, dto: LancamentoDTO) returns (r: Result<Lancamento, Error>)
      requires service.Valid()
      modifies service
      ensures service.Valid()
      ensures id !in old(service.repository) ==> r == Failure(BusinessRuleException(LancamentoRules.MsgNaoEncontrado))
      ensures r.Failure? ==> service.repository == old(service.repository) && service.nextId == old(service.nextId)
      ensures r.Success? <==>
        && id in old(service.repository)
        && ToEntity(usuarioService.repository, dto).Success?
        && LancamentoRules.Validar(ToEntity(usuarioService.repository, dto).value).Pass?
      ensures r.Success? ==>
        && r.value == ToEntity(usuarioService.repository, dto).value.(id := Some(id))
        && service.repository == old(service.repository)[id := r.value]
        && service.nextId == old(service.nextId)
    {
      var found := LancamentoRules.ObterPorId(service.repository, id);
      if found.Failure? {
        return Failure(found.error);
      }
      var atualizado := ToEntity(usuarioService.repository, dto);
      if atualizado.Failure? {
        return Failure(atualizado.error);
      }
      LancamentoRules.ValidarIgnoresIdAndStatus(atualizado.value, Some(id), atualizado.value.status);
      var comId := atualizado.value.(id := Some(id));
      assert comId.(status := atualizado.value.status) == comId;
      r := service.Atualizar(comId);
    }

    /**
     * `atualizarStatusLancamento`: look the entry up, reject a missing status
     * (the null dereference) and a name that is not a status, then change the
     * status through the service and answer with the stored entry.
     */
    method AtualizarStatusLancamento(id: int, status: Option<string>) returns (r: Result<Lancamento, Error>)
      requires service.Valid()
      modifies service
      ensures service.Valid()
      ensures id !in old(service.repository) ==> r == Failure(BusinessRuleException(LancamentoRules.MsgNaoEncontrado))
      ensures id in old(service.repository) && status.None? ==> r == Failure(NullPointerException)
      ensures id in old(service.repository) && status.Some? && StatusValueOf(status.value).None? ==>
        r == Failure(BusinessRuleException(MsgStatusInvalido))
      ensures r.Success? <==> id in old(service.repository) && status.Some? && StatusValueOf(status.value).Some?
      ensures r.Failure? ==> service.repository == old(service.repository) && service.nextId == old(service.nextId)
      ensures r.Success? ==>
        && r.value == old(service.repository)[id].(status := StatusValueOf(status.value))
        && service.repository == old(service.repository)[id := r.value]
        && service.nextId == old(service.nextId)
    {
      var lancamento := LancamentoRules.ObterPorId(service.repository, id);
      if lancamento.Failure? {
        return Failure(lancamento.error);
      }
      if status.None? {
        return Failure(NullPointerException);
      }
      if status.value != StatusName(EFETIVADO) && status.value != StatusName(CANCELADO) && status.value != StatusName(PENDENTE) {
        return Failure(BusinessRuleException(MsgStatusInvalido));
      }
      var novo := StatusValueOf(status.value).value;
      // A stored entry passes validation whatever its status, so the update
      // inside `atualizarStatus` cannot throw here.
      LancamentoRules.ValidarIgnoresIdAndStatus(lancamento.value, lancamento.value.id, Some(novo));
      var _ := service.AtualizarStatus(lancamento.value, novo);
      r := LancamentoRules.ObterPorId(service.repository, id);
    }

    /** `deletar`: the id must name a stored entry, which is then removed. */
    method Deletar(id: int) returns (r: Outcome<Error>)
      requires service.Valid()
      modifies service
      ensures service.Valid()
      ensures service.nextId == old(service.nextId)
      ensures id !in old(service.repository) ==>
        r == Fail(BusinessRuleException(LancamentoRules.MsgNaoEncontrado)) && service.repository == old(service.repository)
      ensures id in old(service.repository) ==> r == Pass && service.repository == old(service.repository) - {id}
    {
      var lancamento := LancamentoRules.ObterPorId(service.repository, id);
      if lancamento.Failure? {
        return Fail(lancamento.error);
      }
      r := service.Deletar(lancamento.value);
    }
  }
}
