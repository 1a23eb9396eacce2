/**
 * A table keyed by strings and kept in ascending key order, one row per key.
 * This is the shape of a pandas frame after `groupby(key)` or after
 * `merge(..., on=key, how="outer")`: both emit each key once, sorted.
 */
module SortedTable {
  import opened Wrappers
  import Lex

  type Table<V> = seq<(string, V)>

  /** Keys strictly ascending, hence each key at most once. */
  ghost predicate Sorted<V>(m: Table<V>)
  {
    forall i, j :: 0 <= i < j < |m| ==> Lex.Less(m[i].0, m[j].0)
  }

  function Keys<V>(m: Table<V>): set<string>
  {
    set i | 0 <= i < |m| :: m[i].0
  }

  /** The value stored under `k`, if any. */
  function Get<V>(m: Table<V>, k: string): (r: Option<V>)
    ensures r.Some? <==> k in Keys(m)
    ensures r.Some? ==> exists i :: 0 <= i < |m| && m[i] == (k, r.value)
  {
    if m == [] then None
    else if m[0].0 == k then Some(m[0].1)
    else
      var r := Get(m[1..], k);
      assert Keys(m) == {m[0].0} + Keys(m[1..]) by {
        forall x | x in Keys(m) ensures x in {m[0].0} + Keys(m[1..]) {
          var i :| 0 <= i < |m| && m[i].0 == x;
          if i > 0 { assert m[1..][i - 1].0 == x; }
        }
      }
      assert r.Some? ==> exists i :: 0 <= i < |m| && m[i] == (k, r.value) by {
        if r.Some? {
          var i :| 0 <= i < |m[1..]| && m[1..][i] == (k, r.value);
          assert m[i + 1] == (k, r.value);
        }
      }
      r
  }

  /** In a sorted table the row at position `i` is the one `Get` finds for its key. */
  lemma {:induction false} GetAt<V>(m: Table<V>, i: int)
    requires Sorted(m) && 0 <= i < |m|
    ensures Get(m, m[i].0) == Some(m[i].1)
  {
    if i > 0 {
      assert Lex.Less(m[0].0, m[i].0);
      Lex.Irreflexive(m[i].0);
      assert m[1..][i - 1] == m[i];
      GetAt(m[1..], i - 1);
    }
  }

  /** A key smaller than the first key of a sorted table is smaller than every key in it. */
  lemma BelowAll<V>(m: Table<V>, k: string)
    requires Sorted(m) && |m| > 0 && Lex.Less(k, m[0].0)
    ensures forall i :: 0 <= i < |m| ==> Lex.Less(k, m[i].0)
    ensures k !in Keys(m)
  {
    forall i | 0 <= i < |m| ensures Lex.Less(k, m[i].0) {
      if i > 0 { Lex.Transitive(k, m[0].0, m[i].0); }
    }
    if k in Keys(m) {
      var i :| 0 <= i < |m| && m[i].0 == k;
      Lex.Irreflexive(k);
    }
  }

  lemma KeysCons<V>(x: (string, V), m: Table<V>)
    ensures Keys([x] + m) == {x.0} + Keys(m)
  {
    var r := [x] + m;
    forall y | y in Keys(r) ensures y in {x.0} + Keys(m) {
      var i :| 0 <= i < |r| && r[i].0 == y;
      if i > 0 { assert m[i - 1].0 == y; }
    }
    forall y | y in Keys(m) ensures y in Keys(r) {
      var i :| 0 <= i < |m| && m[i].0 == y;
      assert r[i + 1].0 == y;
    }
    assert r[0].0 == x.0;
  }

  lemma GetCons<V>(x: (string, V), m: Table<V>, j: string)
    ensures Get([x] + m, j) == if x.0 == j then Some(x.1) else Get(m, j)
  {
    assert ([x] + m)[1..] == m;
  }

  /** Sorted after putting `x` in front exactly when `x`'s key is below all of `m`'s. */
  lemma SortedCons<V>(x: (string, V), m: Table<V>)
    requires Sorted(m)
    requires forall y :: y in Keys(m) ==> Lex.Less(x.0, y)
    ensures Sorted([x] + m)
  {
    var r := [x] + m;
    forall i, j | 0 <= i < j < |r| ensures Lex.Less(r[i].0, r[j].0) {
      assert r[j] == m[j - 1];
      assert m[j - 1].0 in Keys(m);
      if i > 0 { assert r[i] == m[i - 1]; }
    }
  }

  /**
   * Insert-or-update: the row for `k` becomes `f` of its previous value (None when `k`
   * was absent); every other row is kept, and the table stays sorted.
   */
  function Upsert<V>(m: Table<V>, k: string, f: Option<V> -> V): (r: Table<V>)
    requires Sorted(m)
    ensures Sorted(r)
    ensures Keys(r) == Keys(m) + {k}
    ensures forall j :: Get(r, j) == if j == k then Some(f(Get(m, k))) else Get(m, j)
  {
    if m == [] then
      KeysCons((k, f(None)), m);
      assert [(k, f(None))] + m == [(k, f(None))];
      [(k, f(None))]
    else
      var x, rest := m[0], m[1..];
      assert m == [x] + rest;
      KeysCons(x, rest);
      assert Sorted(rest);
      assert forall y :: y in Keys(rest) ==> Lex.Less(x.0, y);
      if x.0 == k then
        var r := [(k, f(Some(x.1)))] + rest;
        KeysCons((k, f(Some(x.1))), rest);
        SortedCons((k, f(Some(x.1))), rest);
        forall j ensures Get(r, j) == if j == k then Some(f(Get(m, k))) else Get(m, j) {
          GetCons((k, f(Some(x.1))), rest, j);
          GetCons(x, rest, j);
        }
        r
      else if Lex.Less(k, x.0) then
        BelowAll(m, k);
        var r := [(k, f(None))] + m;
        KeysCons((k, f(None)), m);
        forall y | y in Keys(m) ensures Lex.Less(k, y) {
          var i :| 0 <= i < |m| && m[i].0 == y;
        }
        SortedCons((k, f(None)), m);
        forall j ensures Get(r, j) == if j == k then Some(f(Get(m, k))) else Get(m, j) {
          GetCons((k, f(None)), m, j);
        }
        r
      else
        Lex.Total(k, x.0);
        var tail := Upsert(rest, k, f);
        var r := [x] + tail;
        KeysCons(x, tail);
        SortedCons(x, tail);
        forall j ensures Get(r, j) == if j == k then Some(f(Get(m, k))) else Get(m, j) {
          GetCons(x, tail, j);
          GetCons(x, rest, j);
          GetCons(x, rest, k);
        }
        r
  }
}
