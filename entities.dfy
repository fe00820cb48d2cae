/**
 * The entities the core works on: a financial entry ("lançamento"), its user,
 * the request body the REST layer receives, and the exceptions the services
 * throw. Java references that may be `null` are `Option`s.
 */
module Entities {
  import opened Wrappers

  /** Java's `Integer`, a 32-bit two's-complement integer. */
  type int32 = x: int | -0x8000_0000 <= x < 0x8000_0000

  /** Life-cycle state of an entry. */
  datatype StatusLancamento = PENDENTE | CANCELADO | EFETIVADO

  /** Income (RECEITA) or expense (DESPESA). */
  datatype TipoLancamento = RECEITA | DESPESA

  /** `StatusLancamento.name()`. */
  function StatusName(s: StatusLancamento): string {
    match s
    case PENDENTE => "PENDENTE"
    case CANCELADO => "CANCELADO"
    case EFETIVADO => "EFETIVADO"
  }

  /** `StatusLancamento.valueOf`: `None` where Java throws IllegalArgumentException. */
  function StatusValueOf(name: string): (r: Option<StatusLancamento>)
    ensures r.Some? <==> name == "PENDENTE" || name == "CANCELADO" || name == "EFETIVADO"
    ensures r.Some? ==> StatusName(r.value) == name
    ensures forall s :: name == StatusName(s) ==> r == Some(s)
  {
    if name == "PENDENTE" then Some(PENDENTE)
    else if name == "CANCELADO" then Some(CANCELADO)
    else if name == "EFETIVADO" then Some(EFETIVADO)
    else None
  }

  /** `TipoLancamento.name()`, which is also its `toString()`. */
  function TipoName(t: TipoLancamento): string {
    match t
    case RECEITA => "RECEITA"
    case DESPESA => "DESPESA"
  }

  /** `TipoLancamento.valueOf`: `None` where Java throws IllegalArgumentException. */
  function TipoValueOf(name: string): (r: Option<TipoLancamento>)
    ensures r.Some? <==> name == "RECEITA" || name == "DESPESA"
    ensures r.Some? ==> TipoName(r.value) == name
    ensures forall t :: name == TipoName(t) ==> r == Some(t)
  {
    if name == "RECEITA" then Some(RECEITA)
    else if name == "DESPESA" then Some(DESPESA)
    else None
  }

  /** A registered user. */
  datatype Usuario = Usuario(id: Option<int>, nome: string, email: string, senha: string)

  /** A financial entry; `valor` is a `BigDecimal`, an exact decimal. */
  datatype Lancamento = Lancamento(
    id: Option<int>,
    descricao: Option<string>,
    mes: Option<int32>,
    ano: Option<int32>,
    usuario: Option<Usuario>,
    valor: Option<real>,
    tipo: Option<TipoLancamento>,
    status: Option<StatusLancamento>)

  /** `new Lancamento()`: every field null. */
  const NovoLancamento: Lancamento :=
    Lancamento(None, None, None, None, None, None, None, None)

  /** The request body for an entry: the user by id, type and status by name. */
  datatype LancamentoDTO = LancamentoDTO(
    id: Option<int>,
    descricao: Option<string>,
    mes: Option<int32>,
    ano: Option<int32>,
    valor: Option<real>,
    usuario: Option<int>,
    tipo: Option<string>,
    status: Option<string>)

  /** The exceptions the core throws. */
  datatype Error =
    | BusinessRuleException(message: string)
    | ErroAutentificacaoException(message: string)
    | NullPointerException
    | IllegalArgumentException
}
