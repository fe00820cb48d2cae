/**
 * The writing part of LancamentoServiceImpl, over the entry repository it
 * owns: create, update, delete and status change.
 */
module LancamentoService {
  import opened Wrappers
  import opened Entities
  import opened Store
  import opened LancamentoRules
  import opened Saldo

  /**
   * What a repository `save` of `l` does: `saved` is `l` under the id the store
   * assigns, written into the rows, and the id generator moved past a new id.
   */
  ghost predicate Saved(
    rows: map<int, Lancamento>, nextId: int, l: Lancamento,
    saved: Lancamento, rows': map<int, Lancamento>, nextId': int)
    requires nextId !in rows
  {
    var k := AssignedId(rows, nextId, l.id);
    && saved == l.(id := Some(k))
    && rows' == rows[k := saved]
    && nextId' == (if k == nextId then nextId + 1 else nextId)
  }

  /**
   * What `atualizar(l)` does: a null id throws before anything else; an entry
   * failing validation throws with the validator's message; otherwise the
   * entry is saved as it is, status included. A failure writes nothing.
   */
  ghost predicate Updated(
    rows: map<int, Lancamento>, nextId: int, l: Lancamento,
    r: Result<Lancamento, Error>, rows': map<int, Lancamento>, nextId': int)
    requires nextId !in rows
  {
    && (l.id.None? ==> r == Failure(NullPointerException))
    && (l.id.Some? && Validar(l).Fail? ==> r == Failure(Validar(l).error))
    && (r.Failure? ==> rows' == rows && nextId' == nextId)
    && (l.id.Some? && Validar(l).Pass? ==> r.Success? && Saved(rows, nextId, l, r.value, rows', nextId'))
  }

  class LancamentoServiceImpl {
    /** The rows of the entry repository, keyed by id. */
    var repository: map<int, Lancamento>
    /** The repository's id generator: the id the next inserted row gets. */
    var nextId: int

    /** Every row is stored under its own id, below the generator, and passed validation. */
    ghost predicate Valid()
      reads this
    {
      && 0 <= nextId
      && (forall k | k in repository :: 0 <= k < nextId)
      && (forall k | k in repository :: repository[k].id == Some(k) && Validar(repository[k]).Pass?)
    }

    constructor ()
      ensures Valid()
      ensures repository == map[] && nextId == 0
    {
      repository := map[];
      nextId := 0;
    }

    /** `repository.save`: overwrite the row the entity's id names, or insert it under a fresh id. */
    method Save(l: Lancamento) returns (saved: Lancamento)
      requires Valid()
      requires Validar(l).Pass?
      modifies this
      ensures Valid()
      ensures Saved(old(repository), old(nextId), l, saved, repository, nextId)
    {
      var k := AssignedId(repository, nextId, l.id);
      saved := l.(id := Some(k));
      ValidarIgnoresIdAndStatus(l, Some(k), l.status);
      repository := repository[k := saved];
      if k == nextId {
        nextId := nextId + 1;
      }
    }

    /**
     * `salvar`: validate, force the status to PENDENTE, save. A fresh entry
     * leaves every balance as it was; one that overwrites an existing row
     * removes that row's contribution.
     */
    method Salvar(l: Lancamento) returns (r: Result<Lancamento, Error>)
      requires Valid()
      modifies this
      ensures Valid()
      ensures Validar(l).Fail? ==>
        r == Failure(Validar(l).error) && repository == old(repository) && nextId == old(nextId)
      ensures Validar(l).Pass? ==>
        && r.Success? && r.value.status == Some(PENDENTE)
        && Saved(old(repository), old(nextId), l.(status := Some(PENDENTE)), r.value, repository, nextId)
      ensures r.Success? ==>
        forall u :: ObterSaldoPorUsuario(repository, u) ==
          ObterSaldoPorUsuario(old(repository), u) - ContribuicaoEm(old(repository), r.value.id.value, u)
    {
      var v := Validar(l);
      if v.Fail? {
        return Failure(v.error);
      }
      var pendente := l.(status := Some(PENDENTE));
      ValidarIgnoresIdAndStatus(l, l.id, Some(PENDENTE));
      ghost var before := repository;
      var saved := Save(pendente);
      forall u
        ensures ObterSaldoPorUsuario(repository, u) ==
          ObterSaldoPorUsuario(before, u) - ContribuicaoEm(before, saved.id.value, u)
      {
        SaldoAfterWrite(before, saved.id.value, saved, u);
      }
      r := Success(saved);
    }

    /**
     * `atualizar`: the id must be present, the entry must validate, then it is
     * saved with whatever status it carries. Balances move by the difference
     * between the new entry's contribution and the one it replaces.
     */
    method Atualizar(l: Lancamento) returns (r: Result<Lancamento, Error>)
      requires Valid()
      modifies this
      ensures Valid()
      ensures Updated(old(repository), old(nextId), l, r, repository, nextId)
      ensures r.Success? ==>
        forall u :: ObterSaldoPorUsuario(repository, u) ==
          ObterSaldoPorUsuario(old(repository), u) - ContribuicaoEm(old(repository), r.value.id.value, u) + Contribuicao(r.value, u)
    {
      if l.id.None? {
        return Failure(NullPointerException);
      }
      var v := Validar(l);
      if v.Fail? {
        return Failure(v.error);
      }
      ghost var before := repository;
      var saved := Save(l);
      forall u
        ensures ObterSaldoPorUsuario(repository, u) ==
          ObterSaldoPorUsuario(before, u) - ContribuicaoEm(before, saved.id.value, u) + Contribuicao(saved, u)
      {
        SaldoAfterWrite(before, saved.id.value, saved, u);
      }
      r := Success(saved);
    }

    /** `deletar`: the id must be present; the row it names is removed (none is a no-op). */
    method Deletar(l: Lancamento) returns (r: Outcome<Error>)
      requires Valid()
      modifies this
      ensures Valid()
      ensures nextId == old(nextId)
      ensures l.id.None? ==> r == Fail(NullPointerException) && repository == old(repository)
      ensures l.id.Some? ==> r == Pass && repository == old(repository) - {l.id.value}
      ensures l.id.Some? ==>
        forall u :: ObterSaldoPorUsuario(repository, u) ==
          ObterSaldoPorUsuario(old(repository), u) - ContribuicaoEm(old(repository), l.id.value, u)
    {
      if l.id.None? {
        return Fail(NullPointerException);
      }
      ghost var before := repository;
      repository := repository - {l.id.value};
      forall u
        ensures ObterSaldoPorUsuario(repository, u) ==
          ObterSaldoPorUsuario(before, u) - ContribuicaoEm(before, l.id.value, u)
      {
        SaldoAfterRemove(before, l.id.value, u);
      }
      r := Pass;
    }

    /**
     * `atualizarStatus`: set the status, then go through `atualizar` once.
     * Any status may follow any other.
     */
    method AtualizarStatus(l: Lancamento, status: StatusLancamento) returns (r: Result<Lancamento, Error>)
      requires Valid()
      modifies this
      ensures Valid()
      ensures Updated(old(repository), old(nextId), l.(status := Some(status)), r, repository, nextId)
      ensures r.Success? ==> r.value.status == Some(status) && repository[r.value.id.value].status == Some(status)
      ensures r.Success? ==>
        forall u :: ObterSaldoPorUsuario(repository, u) ==
          ObterSaldoPorUsuario(old(repository), u) - ContribuicaoEm(old(repository), r.value.id.value, u) + Contribuicao(r.value, u)
    {
      var comStatus := l.(status := Some(status));
      r := Atualizar(comStatus);
    }
  }
}
