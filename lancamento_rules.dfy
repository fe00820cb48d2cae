/**
 * The read-only part of LancamentoServiceImpl: the validator, the lookup by
 * id, the example-based search and the balance, each taking the contents of
 * the entry repository (rows keyed by id) explicitly.
 */
module LancamentoRules {
  import opened Wrappers
  import opened Entities
  import opened JavaText
  import opened Store

  const MsgDescricao := "Informe uma Descricao válida"
  const MsgMes := "Informe um Mês válido"
  const MsgAno := "Informe um Ano válido"
  const MsgUsuario := "Informe um usuário"
  const MsgValor := "Informe um valor Válido"
  const MsgTipo := "Informe um tipo de lancamento"
  const MsgNaoEncontrado := "Lançamento não encontrado"

  // ---------------------------------------------------------------------------
  // Validation

  predicate DescricaoValida(d: Option<string>) { d.Some? && Trim(d.value) != "" }
  predicate MesValido(m: Option<int32>) { m.Some? && 1 <= m.value <= 12 }
  /** The year is checked by the length of its decimal text, not by a range. */
  predicate AnoValido(a: Option<int32>) { a.Some? && |IntegerToString(a.value)| == 4 }
  predicate UsuarioInformado(u: Option<Usuario>) { u.Some? && u.value.id.Some? }
  predicate ValorValido(v: Option<real>) { v.Some? && v.value > 0.0 }
  predicate TipoInformado(t: Option<TipoLancamento>) { t.Some? }

  /** One guard of the validator: whether it holds, and the message it fails with. */
  datatype Check = Check(ok: bool, message: string)

  /** The validator's guards, in the order it runs them. */
  function Checks(l: Lancamento): (cs: seq<Check>)
    ensures |cs| == 6
  {
    [ Check(DescricaoValida(l.descricao), MsgDescricao),
      Check(MesValido(l.mes), MsgMes),
      Check(AnoValido(l.ano), MsgAno),
      Check(UsuarioInformado(l.usuario), MsgUsuario),
      Check(ValorValido(l.valor), MsgValor),
      Check(TipoInformado(l.tipo), MsgTipo) ]
  }

  /** Guard `i` is the first one that fails. */
  predicate FirstFailing(cs: seq<Check>, i: int) {
    0 <= i < |cs| && !cs[i].ok && forall j | 0 <= j < i :: cs[j].ok
  }

  /**
   * `validar`: passes when every guard holds; otherwise throws a
   * BusinessRuleException carrying the message of the first guard that fails.
   */
  function Validar(l: Lancamento): (r: Outcome<Error>)
    ensures r.Pass? <==> forall i | 0 <= i < |Checks(l)| :: Checks(l)[i].ok
    ensures r.Fail? ==> exists i :: FirstFailing(Checks(l), i) && r.error == BusinessRuleException(Checks(l)[i].message)
  {
    var cs := Checks(l);
    if !DescricaoValida(l.descricao) then
      assert FirstFailing(cs, 0);
      Fail(BusinessRuleException(MsgDescricao))
    else if !MesValido(l.mes) then
      assert FirstFailing(cs, 1);
      Fail(BusinessRuleException(MsgMes))
    else if !AnoValido(l.ano) then
      assert FirstFailing(cs, 2);
      Fail(BusinessRuleException(MsgAno))
    else if !UsuarioInformado(l.usuario) then
      assert FirstFailing(cs, 3);
      Fail(BusinessRuleException(MsgUsuario))
    else if !ValorValido(l.valor) then
      assert FirstFailing(cs, 4);
      Fail(BusinessRuleException(MsgValor))
    else if !TipoInformado(l.tipo) then
      assert FirstFailing(cs, 5);
      Fail(BusinessRuleException(MsgTipo))
    else
      Pass
  }

  /** The guards have pairwise distinct messages, so a message names its guard. */
  lemma MessagesDistinct(l: Lancamento)
    ensures forall i, j | 0 <= i < j < |Checks(l)| :: Checks(l)[i].message != Checks(l)[j].message
  {
  }

  /**
   * What the validator accepts, stated on values: a description with a
   * non-blank character, a month in 1..12, a year in 1000..9999 or -999..-100,
   * a user with an id, a positive amount and a type.
   */
  lemma ValidarAcceptsExactly(l: Lancamento)
    ensures Validar(l).Pass? <==>
      && l.descricao.Some? && (exists i | 0 <= i < |l.descricao.value| :: !IsTrimmable(l.descricao.value[i]))
      && l.mes.Some? && 1 <= l.mes.value <= 12
      && l.ano.Some? && (1000 <= l.ano.value <= 9999 || -999 <= l.ano.value <= -100)
      && l.usuario.Some? && l.usuario.value.id.Some?
      && l.valor.Some? && l.valor.value > 0.0
      && l.tipo.Some?
  {
    if l.descricao.Some? {
      TrimIsEmptyIff(l.descricao.value);
    }
    if l.ano.Some? {
      IntegerToStringHasLengthFour(l.ano.value);
    }
  }

  /** A null or blank description fails first, whatever the other fields hold. */
  lemma DescricaoFailsFirst(l: Lancamento)
    requires l.descricao.None? || forall i | 0 <= i < |l.descricao.value| :: IsTrimmable(l.descricao.value[i])
    ensures Validar(l) == Fail(BusinessRuleException(MsgDescricao))
  {
    if l.descricao.Some? {
      TrimIsEmptyIff(l.descricao.value);
    }
  }

  /** `new Lancamento()` is rejected for its description, not for any later field. */
  lemma NovoLancamentoFailsOnDescricao()
    ensures Validar(NovoLancamento) == Fail(BusinessRuleException(MsgDescricao))
  {
  }

  /**
   * With a valid description, a month that is null or outside 1..12 fails
   * before the year, user, amount and type are looked at.
   */
  lemma MesFailsSecond(l: Lancamento)
    requires DescricaoValida(l.descricao)
    requires l.mes.None? || l.mes.value < 1 || l.mes.value > 12
    ensures Validar(l) == Fail(BusinessRuleException(MsgMes))
  {
  }

  /** With valid description and month, a year whose text is not 4 long fails. */
  lemma AnoFailsThird(l: Lancamento)
    requires DescricaoValida(l.descricao) && MesValido(l.mes)
    requires l.ano.None? || !(1000 <= l.ano.value <= 9999 || -999 <= l.ano.value <= -100)
    ensures Validar(l) == Fail(BusinessRuleException(MsgAno))
  {
    if l.ano.Some? {
      IntegerToStringHasLengthFour(l.ano.value);
    }
  }

  /** 999 is rejected and 2020 accepted as a year; so is -100, since the sign counts. */
  lemma AnoExamples()
    ensures !AnoValido(Some(999)) && AnoValido(Some(2020)) && AnoValido(Some(-100))
    ensures !AnoValido(Some(10000)) && !AnoValido(Some(-1000))
  {
    IntegerToStringHasLengthFour(999);
    IntegerToStringHasLengthFour(2020);
    IntegerToStringHasLengthFour(-100);
    IntegerToStringHasLengthFour(10000);
    IntegerToStringHasLengthFour(-1000);
  }

  /**
   * With the first three guards passing, a null user or a user without id
   * fails, then a null or non-positive amount, then a null type.
   */
  lemma LaterGuardsInOrder(l: Lancamento)
    requires DescricaoValida(l.descricao) && MesValido(l.mes) && AnoValido(l.ano)
    ensures !UsuarioInformado(l.usuario) ==> Validar(l) == Fail(BusinessRuleException(MsgUsuario))
    ensures UsuarioInformado(l.usuario) && (l.valor.None? || l.valor.value <= 0.0) ==>
      Validar(l) == Fail(BusinessRuleException(MsgValor))
    ensures UsuarioInformado(l.usuario) && ValorValido(l.valor) && l.tipo.None? ==>
      Validar(l) == Fail(BusinessRuleException(MsgTipo))
  {
  }

  // The entries of the service's validation test, each filling in the field
  // the previous one failed on.
  const SemId := Usuario(None, "", "", "")
  const Salario := NovoLancamento.(descricao := Some("Salário"))
  const Janeiro := Salario.(mes := Some(1))
  const Em2020 := Janeiro.(ano := Some(2020))
  const ComUsuario := Em2020.(usuario := Some(SemId.(id := Some(1))))
  const ComValor := ComUsuario.(valor := Some(200.0))

  /** A blank description, then a null, negative or too large month. */
  lemma ValidarTestDescricaoEMes()
    ensures Validar(NovoLancamento.(descricao := Some(""))) == Fail(BusinessRuleException(MsgDescricao))
    ensures Validar(Salario) == Fail(BusinessRuleException(MsgMes))
    ensures Validar(Salario.(mes := Some(-1))) == Fail(BusinessRuleException(MsgMes))
    ensures Validar(Salario.(mes := Some(13))) == Fail(BusinessRuleException(MsgMes))
  {
    assert Trim("Salário") == "Salário";
  }

  /** A null or three-digit year, then a null user or one without id. */
  lemma ValidarTestAnoEUsuario()
    ensures Validar(Janeiro) == Fail(BusinessRuleException(MsgAno))
    ensures Validar(Janeiro.(ano := Some(999))) == Fail(BusinessRuleException(MsgAno))
    ensures Validar(Em2020) == Fail(BusinessRuleException(MsgUsuario))
    ensures Validar(Em2020.(usuario := Some(SemId))) == Fail(BusinessRuleException(MsgUsuario))
  {
    assert Trim("Salário") == "Salário";
    AnoExamples();
  }

  /** A null or zero amount, then a null type; with a type the entry passes. */
  lemma ValidarTestValorETipo()
    ensures Validar(ComUsuario) == Fail(BusinessRuleException(MsgValor))
    ensures Validar(ComUsuario.(valor := Some(0.0))) == Fail(BusinessRuleException(MsgValor))
    ensures Validar(ComValor) == Fail(BusinessRuleException(MsgTipo))
    ensures Validar(ComValor.(tipo := Some(RECEITA))) == Pass
  {
    assert Trim("Salário") == "Salário";
    AnoExamples();
  }

  /** Validation reads neither the id nor the status. */
  lemma ValidarIgnoresIdAndStatus(l: Lancamento, id: Option<int>, s: Option<StatusLancamento>)
    ensures Validar(l.(id := id, status := s)) == Validar(l)
  {
    var l' := l.(id := id, status := s);
    assert l'.descricao == l.descricao && l'.mes == l.mes && l'.ano == l.ano;
    assert l'.usuario == l.usuario && l'.valor == l.valor && l'.tipo == l.tipo;
  }

  // ---------------------------------------------------------------------------
  // Lookup

  /** `obterPorId`: the stored entry, or a BusinessRuleException when there is none. */
  function ObterPorId(repository: map<int, Lancamento>, id: int): (r: Result<Lancamento, Error>)
    ensures r.Success? <==> id in repository
    ensures r.Success? ==> r.value == repository[id]
    ensures r.Failure? ==> r.error == BusinessRuleException(MsgNaoEncontrado)
  {
    if id in repository then Success(repository[id]) else Failure(BusinessRuleException(MsgNaoEncontrado))
  }

  // ---------------------------------------------------------------------------
  // Search by example (ignore case, strings matched by containment)

  /** The description filter: case-insensitive containment. */
  predicate DescricaoContem(descricao: string, trecho: string) {
    Contains(ToLower(descricao), ToLower(trecho))
  }

  /**
   * The example matcher: every non-null field of `filtro` must match; strings
   * by case-insensitive containment, the rest by equality, the user by id.
   */
  predicate Matches(filtro: Lancamento, l: Lancamento) {
    && (filtro.id.Some? ==> l.id == filtro.id)
    && (filtro.descricao.Some? ==> l.descricao.Some? && DescricaoContem(l.descricao.value, filtro.descricao.value))
    && (filtro.mes.Some? ==> l.mes == filtro.mes)
    && (filtro.ano.Some? ==> l.ano == filtro.ano)
    && (filtro.usuario.Some? ==>
          l.usuario.Some? && (filtro.usuario.value.id.Some? ==> l.usuario.value.id == filtro.usuario.value.id))
    && (filtro.valor.Some? ==> l.valor == filtro.valor)
    && (filtro.tipo.Some? ==> l.tipo == filtro.tipo)
    && (filtro.status.Some? ==> l.status == filtro.status)
  }

  /** `buscar`: the stored entries (with their ids) that match the example. */
  function Buscar(repository: map<int, Lancamento>, filtro: Lancamento): (r: map<int, Lancamento>)
    ensures forall k | k in r :: k in repository && r[k] == repository[k]
    ensures forall k | k in repository :: k in r <==> Matches(filtro, repository[k])
  {
    map k | k in repository && Matches(filtro, repository[k]) :: repository[k]
  }

  /** The description filter holds exactly when the lower-cased text occurs in the lower-cased description. */
  lemma DescricaoContemIff(descricao: string, trecho: string)
    ensures DescricaoContem(descricao, trecho) <==> exists i :: OccursAt(ToLower(descricao), ToLower(trecho), i)
  {
    ContainsIff(ToLower(descricao), ToLower(trecho));
  }

  /** An all-null example filters nothing out. */
  lemma BuscarSemFiltro(repository: map<int, Lancamento>)
    ensures Buscar(repository, NovoLancamento) == repository
  {
  }

  /** Filling in one more field of the example can only narrow the result. */
  lemma BuscarNarrows(repository: map<int, Lancamento>, filtro: Lancamento, mais: Lancamento)
    requires filtro.id.Some? ==> mais.id == filtro.id
    requires filtro.descricao.Some? ==> mais.descricao == filtro.descricao
    requires filtro.mes.Some? ==> mais.mes == filtro.mes
    requires filtro.ano.Some? ==> mais.ano == filtro.ano
    requires filtro.usuario.Some? ==> mais.usuario == filtro.usuario
    requires filtro.valor.Some? ==> mais.valor == filtro.valor
    requires filtro.tipo.Some? ==> mais.tipo == filtro.tipo
    requires filtro.status.Some? ==> mais.status == filtro.status
    ensures Buscar(repository, mais).Keys <= Buscar(repository, filtro).Keys
  {
  }

  // ---------------------------------------------------------------------------
  // Balance

  /**
   * A row the repository's sum query adds up: owned by the user (through an
   * inner join on the user), of the given kind and status, with an amount
   * (SQL `sum` skips nulls).
   */
  predicate Somado(l: Lancamento, idUsuario: int, tipo: TipoLancamento, status: StatusLancamento) {
    l.usuario.Some? && l.usuario.value.id == Some(idUsuario) && l.tipo == Some(tipo) && l.status == Some(status) && l.valor.Some?
  }

  /** The amount of row `k`, as a function over keys. */
  function Valores(repository: map<int, Lancamento>): int -> real {
    k => if k in repository && repository[k].valor.Some? then repository[k].valor.value else 0.0
  }

  /** The keys of the rows the sum query adds up. */
  function Somados(repository: map<int, Lancamento>, idUsuario: int, tipo: TipoLancamento, status: StatusLancamento): set<int>
  {
    set k | k in repository && Somado(repository[k], idUsuario, tipo, status)
  }

  /**
   * `obterSaldoPorTipoLancamentoEUsuario(id, tipo, status)`, the repository's
   * `select sum(l.valor)`: null (None) when no row qualifies.
   *
   * The service calls this query with three arguments (user, kind, status),
   * while the repository declares it with two parameters (user, kind) and a
   * JPQL text without a status condition. This model follows the call: the
   * sum is restricted to rows with the requested status.
   */
  function SomaValor(repository: map<int, Lancamento>, idUsuario: int, tipo: TipoLancamento, status: StatusLancamento): (r: Option<real>)
    ensures r.None? <==> forall k | k in repository :: !Somado(repository[k], idUsuario, tipo, status)
    ensures r.Some? ==> r.value == SumBy(Somados(repository, idUsuario, tipo, status), Valores(repository))
  {
    if exists k | k in repository :: Somado(repository[k], idUsuario, tipo, status) then
      Some(SumBy(Somados(repository, idUsuario, tipo, status), Valores(repository)))
    else
      None
  }

  /** `obterSaldoPorUsuario`: settled income minus settled expense, a missing sum counting as zero. */
  function ObterSaldoPorUsuario(repository: map<int, Lancamento>, idUsuario: int): real {
    var receitas := SomaValor(repository, idUsuario, RECEITA, EFETIVADO);
    var despesas := SomaValor(repository, idUsuario, DESPESA, EFETIVADO);
    var receitas := if receitas.None? then 0.0 else receitas.value;
    var despesas := if despesas.None? then 0.0 else despesas.value;
    receitas - despesas
  }

  // ---------------------------------------------------------------------------
  // The sum query as the repository declares it

  /** A row the declared JPQL text adds up: the user's, of the given kind, with an amount, in any status. */
  predicate SomadoDeclarado(l: Lancamento, idUsuario: int, tipo: TipoLancamento) {
    l.usuario.Some? && l.usuario.value.id == Some(idUsuario) && l.tipo == Some(tipo) && l.valor.Some?
  }

  /** The keys of the rows the declared query adds up. */
  function SomadosDeclarados(repository: map<int, Lancamento>, idUsuario: int, tipo: TipoLancamento): set<int>
  {
    set k | k in repository && SomadoDeclarado(repository[k], idUsuario, tipo)
  }

  /**
   * `obterSaldoPorTipoLancamentoEUsuario(idUsuario, tipo)` as declared: its
   * JPQL text has no condition on the status.
   */
  function SomaValorDeclarada(repository: map<int, Lancamento>, idUsuario: int, tipo: TipoLancamento): (r: Option<real>)
    ensures r.None? <==> forall k | k in repository :: !SomadoDeclarado(repository[k], idUsuario, tipo)
    ensures r.Some? ==> r.value == SumBy(SomadosDeclarados(repository, idUsuario, tipo), Valores(repository))
  {
    if exists k | k in repository :: SomadoDeclarado(repository[k], idUsuario, tipo) then
      Some(SumBy(SomadosDeclarados(repository, idUsuario, tipo), Valores(repository)))
    else
      None
  }

  /**
   * The declared query counts a pending income of 100 that the service, which
   * asks for settled entries only, must not count.
   */
  lemma SomaValorDeclaradaContaPendente()
    ensures
      var pendente := Lancamento(Some(0), Some("Salário"), Some(1), Some(2020),
        Some(Usuario(Some(1), "usuario", "email@email.com", "senha")), Some(100.0), Some(RECEITA), Some(PENDENTE));
      var repository := map[0 := pendente];
      && SomaValorDeclarada(repository, 1, RECEITA) == Some(100.0)
      && SomaValor(repository, 1, RECEITA, EFETIVADO) == None
  {
    var pendente := Lancamento(Some(0), Some("Salário"), Some(1), Some(2020),
      Some(Usuario(Some(1), "usuario", "email@email.com", "senha")), Some(100.0), Some(RECEITA), Some(PENDENTE));
    var repository := map[0 := pendente];
    assert SomadoDeclarado(repository[0], 1, RECEITA);
    assert SomadosDeclarados(repository, 1, RECEITA) == {0};
    SumByRemove({0}, Valores(repository), 0);
    assert {0} - {0} == {};
  }
}
