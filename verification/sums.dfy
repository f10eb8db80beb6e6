/**
 Finite sums of real values attached to integer keys: the model of Python's
 `sum(table[k] for k in keys)` over a set of keys, and the total of a mapping's
 values. Addition of reals is associative and commutative, so the order in
 which Python visits the set does not matter; the sum here visits the least
 key first, which makes it a deterministic function.
 */
module Sums {

  /** `m` is the least element of `s`. */
  predicate IsLeast(m: int, s: set<int>)
  {
    m in s && forall y :: y in s ==> m <= y
  }

  /** A non-empty finite set of integers has a least element. */
  lemma {:induction false} LeastExists(s: set<int>)
    requires s != {}
    ensures exists m :: IsLeast(m, s)
    decreases s
  {
    assert (forall y :: y !in s) ==> s == {};
    var x :| x in s;
    if s == {x} {
      assert IsLeast(x, s);
    } else {
      var rest := s - {x};
      LeastExists(rest);
      var m :| IsLeast(m, rest);
      var least := if x < m then x else m;
      forall y | y in s
        ensures least <= y
      {
        if y != x {
          assert y in rest;
        }
      }
      assert IsLeast(least, s);
    }
  }

  /** The least element of a non-empty finite set of integers. */
  function Least(s: set<int>): (m: int)
    requires s != {}
    ensures IsLeast(m, s)
  {
    LeastExists(s);
    var m :| IsLeast(m, s);
    m
  }

  /** The sum of `table[k]` over the keys `k` in `keys`. */
  function SumOver(table: map<int, real>, keys: set<int>): (r: real)
    requires keys <= table.Keys
    decreases keys
  {
    if keys == {} then 0.0
    else
      var m := Least(keys);
      table[m] + SumOver(table, keys - {m})
  }

  /** The total of all values of a mapping. */
  function Total(table: map<int, real>): (r: real)
  {
    SumOver(table, table.Keys)
  }

  /** Any key can be taken out of a sum first: the order of summation is irrelevant. */
  lemma {:induction false} SumOverRemove(table: map<int, real>, keys: set<int>, k: int)
    requires keys <= table.Keys && k in keys
    ensures SumOver(table, keys) == table[k] + SumOver(table, keys - {k})
    decreases keys
  {
    var m := Least(keys);
    if k != m {
      SumOverRemove(table, keys - {m}, k);
      assert m in keys - {k};
      assert Least(keys - {k}) == m by {
        var l := Least(keys - {k});
        assert IsLeast(l, keys - {k}) && IsLeast(m, keys);
      }
      assert keys - {m} - {k} == keys - {k} - {m};
    }
  }

  /** Sums over the same keys of two tables that agree on those keys are equal. */
  lemma {:induction false} SumOverAgree(t1: map<int, real>, t2: map<int, real>, keys: set<int>)
    requires keys <= t1.Keys && keys <= t2.Keys
    requires forall k :: k in keys ==> t1[k] == t2[k]
    ensures SumOver(t1, keys) == SumOver(t2, keys)
    decreases keys
  {
    if keys != {} {
      SumOverAgree(t1, t2, keys - {Least(keys)});
    }
  }

  /** `x` added up `k` times. */
  function Times(k: nat, x: real): (r: real)
  {
    if k == 0 then 0.0 else Times(k - 1, x) + x
  }

  /** Adding `x` up `k` times is multiplying it by `k`. */
  lemma {:induction false} TimesIsProduct(k: nat, x: real)
    ensures Times(k, x) == (k as real) * x
  {
    if k > 0 {
      TimesIsProduct(k - 1, x);
    }
  }

  /** The average of `k` copies of `x` is `x`. */
  lemma TimesMean(k: nat, x: real)
    requires k > 0
    ensures Times(k, x) / (k as real) == x
  {
  }

  /** Division distributes over a sum of two reals. Kept as a lemma of its
      own: stated inline in `SumOverDivide` it makes that proof several times
      costlier. */
  lemma DivideAdd(a: real, b: real, d: real)
    requires d != 0.0
    ensures a / d + b / d == (a + b) / d
  {
  }

  /** Dividing every summand by `d` divides the sum by `d`. */
  lemma {:induction false} SumOverDivide(t1: map<int, real>, t2: map<int, real>, keys: set<int>, d: real)
    requires d != 0.0
    requires keys <= t1.Keys && keys <= t2.Keys
    requires forall k :: k in keys ==> t2[k] == t1[k] / d
    ensures SumOver(t2, keys) == SumOver(t1, keys) / d
    decreases keys
  {
    if keys != {} {
      var m := Least(keys);
      SumOverDivide(t1, t2, keys - {m}, d);
      DivideAdd(t1[m], SumOver(t1, keys - {m}), d);
    }
  }

  /** The entry for `k`; a missing entry reads as 0.0, as in a
      `defaultdict(float)`. */
  function Get(table: map<int, real>, k: int): (r: real)
  {
    if k in table then table[k] else 0.0
  }

  /** `table[k] += x` on a `defaultdict(float)`. */
  function Credit(table: map<int, real>, k: int, x: real): (r: map<int, real>)
  {
    table[k := Get(table, k) + x]
  }

  /** `table[k] += x` on a `defaultdict(float)` adds `x` to the total. */
  lemma TotalAfterAdd(table: map<int, real>, k: int, x: real)
    ensures Total(Credit(table, k, x)) == Total(table) + x
  {
    var updated := Credit(table, k, x);
    SumOverRemove(updated, updated.Keys, k);
    SumOverAgree(updated, table, updated.Keys - {k});
    if k in table {
      SumOverRemove(table, table.Keys, k);
      assert updated.Keys - {k} == table.Keys - {k};
    } else {
      assert updated.Keys - {k} == table.Keys;
    }
  }
}
