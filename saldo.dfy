/**
 * An independent definition of a user's balance, as the sum over all stored
 * entries of each entry's signed contribution, and the facts that connect it
 * to `obterSaldoPorUsuario` and to the writes the ledger makes.
 */
module Saldo {
  import opened Wrappers
  import opened Entities
  import opened Store
  import opened LancamentoRules

  /**
   * What one entry adds to a user's balance: its amount if it is settled
   * income of that user, minus its amount if it is a settled expense, else 0.
   */
  function Contribuicao(l: Lancamento, idUsuario: int): real {
    if l.status == Some(EFETIVADO) && l.usuario.Some? && l.usuario.value.id == Some(idUsuario) && l.valor.Some? then
      if l.tipo == Some(RECEITA) then l.valor.value
      else if l.tipo == Some(DESPESA) then -l.valor.value
      else 0.0
    else 0.0
  }

  /** The contribution of row `k`, as a function over keys. */
  function Contribuicoes(repository: map<int, Lancamento>, idUsuario: int): int -> real {
    k => if k in repository then Contribuicao(repository[k], idUsuario) else 0.0
  }

  /** The contribution of row `k`, or 0 when there is no such row. */
  function ContribuicaoEm(repository: map<int, Lancamento>, k: int, idUsuario: int): real {
    Contribuicoes(repository, idUsuario)(k)
  }

  /** The balance, as the sum of every stored entry's contribution. */
  function SaldoReferencia(repository: map<int, Lancamento>, idUsuario: int): real {
    SumBy(repository.Keys, Contribuicoes(repository, idUsuario))
  }

  /** A pending or cancelled entry never moves a balance. */
  lemma NaoEfetivadoNaoConta(l: Lancamento, idUsuario: int)
    requires l.status != Some(EFETIVADO)
    ensures Contribuicao(l, idUsuario) == 0.0
  {
  }

  /** The sum query, with a missing result read as zero, adds up the amounts of the qualifying rows. */
  lemma {:induction false} SomaValorOrZero(repository: map<int, Lancamento>, idUsuario: int, tipo: TipoLancamento)
    ensures SomaValor(repository, idUsuario, tipo, EFETIVADO).GetOr(0.0) ==
      SumBy(repository.Keys, k => if k in repository && Somado(repository[k], idUsuario, tipo, EFETIVADO) then repository[k].valor.value else 0.0)
  {
    var g := k => if k in repository && Somado(repository[k], idUsuario, tipo, EFETIVADO) then repository[k].valor.value else 0.0;
    var part := Somados(repository, idUsuario, tipo, EFETIVADO);
    SumBySubset(repository.Keys, part, Valores(repository), g);
    if SomaValor(repository, idUsuario, tipo, EFETIVADO).None? {
      assert part == {};
    }
  }

  /** `obterSaldoPorUsuario` equals the reference balance. */
  lemma {:induction false} SaldoIsReferencia(repository: map<int, Lancamento>, idUsuario: int)
    ensures ObterSaldoPorUsuario(repository, idUsuario) == SaldoReferencia(repository, idUsuario)
  {
    var gR := k => if k in repository && Somado(repository[k], idUsuario, RECEITA, EFETIVADO) then repository[k].valor.value else 0.0;
    var gD := k => if k in repository && Somado(repository[k], idUsuario, DESPESA, EFETIVADO) then repository[k].valor.value else 0.0;
    SomaValorOrZero(repository, idUsuario, RECEITA);
    SomaValorOrZero(repository, idUsuario, DESPESA);
    SumByDifference(repository.Keys, gR, gD, Contribuicoes(repository, idUsuario));
  }

  /** A user without settled entries (in particular, without entries) has balance 0. */
  lemma SaldoZeroSemEfetivados(repository: map<int, Lancamento>, idUsuario: int)
    requires forall k | k in repository :: Contribuicao(repository[k], idUsuario) == 0.0
    ensures ObterSaldoPorUsuario(repository, idUsuario) == 0.0
  {
    SaldoIsReferencia(repository, idUsuario);
    SumBySubset(repository.Keys, {}, Contribuicoes(repository, idUsuario), Contribuicoes(repository, idUsuario));
  }

  /** Writing entry `l` under key `k` changes a balance by exactly what `l` replaces. */
  lemma {:induction false} SaldoAfterWrite(repository: map<int, Lancamento>, k: int, l: Lancamento, idUsuario: int)
    ensures ObterSaldoPorUsuario(repository[k := l], idUsuario) ==
      ObterSaldoPorUsuario(repository, idUsuario) - ContribuicaoEm(repository, k, idUsuario) + Contribuicao(l, idUsuario)
  {
    var after := repository[k := l];
    SaldoIsReferencia(repository, idUsuario);
    SaldoIsReferencia(after, idUsuario);
    var f := Contribuicoes(repository, idUsuario);
    var f' := Contribuicoes(after, idUsuario);
    SumByRemove(after.Keys, f', k);
    assert after.Keys - {k} == repository.Keys - {k};
    SumByAgree(repository.Keys - {k}, f', f);
    if k in repository {
      SumByRemove(repository.Keys, f, k);
    } else {
      assert repository.Keys - {k} == repository.Keys;
    }
  }

  /** Removing key `k` takes exactly that row's contribution out of a balance. */
  lemma {:induction false} SaldoAfterRemove(repository: map<int, Lancamento>, k: int, idUsuario: int)
    ensures ObterSaldoPorUsuario(repository - {k}, idUsuario) ==
      ObterSaldoPorUsuario(repository, idUsuario) - ContribuicaoEm(repository, k, idUsuario)
  {
    var after := repository - {k};
    SaldoIsReferencia(repository, idUsuario);
    SaldoIsReferencia(after, idUsuario);
    var f := Contribuicoes(repository, idUsuario);
    var f' := Contribuicoes(after, idUsuario);
    assert after.Keys == repository.Keys - {k};
    SumByAgree(after.Keys, f', f);
    if k in repository {
      SumByRemove(repository.Keys, f, k);
    } else {
      assert repository.Keys - {k} == repository.Keys;
    }
  }
}
