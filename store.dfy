/**
 * The in-memory stand-in for the JPA repositories: rows keyed by their id,
 * the id generator used when a row is inserted, and sums over a set of keys
 * (the aggregate the repositories compute with SQL `sum`).
 */
module Store {
  import opened Wrappers

  /** A non-empty set has an element. */
  lemma HasElement(s: set<int>)
    requires s != {}
    ensures exists x :: x in s
  {
    if forall x :: x !in s {
      assert false;
    }
  }

  /** Every finite non-empty set of integers has a least element. */
  lemma {:induction false} LeastExists(s: set<int>)
    requires s != {}
    ensures exists m :: m in s && forall j | j in s :: m <= j
    decreases s
  {
    HasElement(s);
    var x :| x in s;
    var rest := s - {x};
    if rest == {} {
      forall j | j in s
        ensures x <= j
      {
        assert j !in rest;
      }
    } else {
      LeastExists(rest);
      var m :| m in rest && forall j | j in rest :: m <= j;
      var least := if x < m then x else m;
      forall j | j in s
        ensures least <= j
      {
        if j != x {
          assert j in rest;
        }
      }
    }
  }

  /** The least key of a non-empty key set, so that sums visit keys in a fixed order. */
  function Least(s: set<int>): (m: int)
    requires s != {}
    ensures m in s
    ensures forall j | j in s :: m <= j
  {
    LeastExists(s);
    var m :| m in s && forall j | j in s :: m <= j;
    m
  }

  /**
   * The id a JPA `save` gives to an entity whose id is `id`: an id that names
   * an existing row is kept (the row is overwritten); a missing id, or one that
   * names no row, makes the store insert a new row under the next generated id.
   */
  function AssignedId<T>(rows: map<int, T>, nextId: int, id: Option<int>): (k: int)
    requires nextId !in rows
    ensures k in rows || k == nextId
    ensures id.Some? && id.value in rows <==> k in rows
    ensures k in rows ==> id == Some(k)
  {
    if id.Some? && id.value in rows then id.value else nextId
  }

  /** `f(k)` summed over all `k` in `keys`. */
  function SumBy(keys: set<int>, f: int -> real): real
    decreases keys
  {
    if keys == {} then 0.0
    else
      var k := Least(keys);
      f(k) + SumBy(keys - {k}, f)
  }

  /** Any key can be taken out of a sum, not only the one the definition visits first. */
  lemma {:induction false} SumByRemove(keys: set<int>, f: int -> real, k: int)
    requires k in keys
    ensures SumBy(keys, f) == f(k) + SumBy(keys - {k}, f)
    decreases keys
  {
    var m := Least(keys);
    if m != k {
      SumByRemove(keys - {m}, f, k);
      SumByRemove(keys - {k}, f, m);
      assert keys - {m} - {k} == keys - {k} - {m};
    }
  }

  /** Sums of two functions that agree on the keys are equal. */
  lemma {:induction false} SumByAgree(keys: set<int>, f: int -> real, g: int -> real)
    requires forall k | k in keys :: f(k) == g(k)
    ensures SumBy(keys, f) == SumBy(keys, g)
    decreases keys
  {
    if keys != {} {
      var m := Least(keys);
      SumByAgree(keys - {m}, f, g);
    }
  }

  /**
   * Summing `f` over a subset `part` is the same as summing, over a superset
   * `all`, a function `g` that equals `f` on `part` and is zero elsewhere.
   */
  lemma {:induction false} SumBySubset(all: set<int>, part: set<int>, f: int -> real, g: int -> real)
    requires part <= all
    requires forall k | k in part :: g(k) == f(k)
    requires forall k | k in all && k !in part :: g(k) == 0.0
    ensures SumBy(part, f) == SumBy(all, g)
    decreases all
  {
    if all != {} {
      var m := Least(all);
      if m in part {
        SumByRemove(part, f, m);
        SumBySubset(all - {m}, part - {m}, f, g);
      } else {
        SumBySubset(all - {m}, part, f, g);
      }
    }
  }

  /** The sum of a pointwise difference is the difference of the sums. */
  lemma {:induction false} SumByDifference(keys: set<int>, f: int -> real, g: int -> real, h: int -> real)
    requires forall k | k in keys :: h(k) == f(k) - g(k)
    ensures SumBy(keys, h) == SumBy(keys, f) - SumBy(keys, g)
    decreases keys
  {
    if keys != {} {
      var m := Least(keys);
      SumByDifference(keys - {m}, f, g, h);
    }
  }
}
