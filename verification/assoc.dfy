/** Go's `map[string]T`, modelled as an association list in first-insertion
    order. This fixes only how the entries are stored: the order in which a
    walk visits them is a separate parameter (`Traversal.Order`). */
module Assoc {
  import opened Wrappers

  /** The value bound to `k`: the first entry with that key. */
  function Lookup<V>(m: seq<(string, V)>, k: string): Option<V>
  {
    if |m| == 0 then None
    else if m[0].0 == k then Some(m[0].1)
    else Lookup(m[1..], k)
  }

  function Keys<V>(m: seq<(string, V)>): set<string>
  {
    set i | 0 <= i < |m| :: m[i].0
  }

  /** No key is bound twice, as in a real Go map. */
  predicate DistinctKeys<V>(m: seq<(string, V)>)
  {
    forall i, j :: 0 <= i < j < |m| ==> m[i].0 != m[j].0
  }

  /** `m[k] = v`: rebinds `k` where it already is, or appends a new entry.
      Every other binding, and the size of a map without `k`, is kept. */
  function Put<V>(m: seq<(string, V)>, k: string, v: V): (r: seq<(string, V)>)
    ensures Lookup(r, k) == Some(v)
    ensures forall k' :: k' != k ==> Lookup(r, k') == Lookup(m, k')
    ensures Keys(r) == Keys(m) + {k}
    ensures DistinctKeys(m) ==> DistinctKeys(r)
    ensures |r| == if k in Keys(m) then |m| else |m| + 1
  {
    if |m| == 0 then [(k, v)]
    else if m[0].0 == k then
      KeysCons(m[0], m[1..]);
      KeysCons((k, v), m[1..]);
      assert [m[0]] + m[1..] == m;
      DistinctSplit(m);
      DistinctCons((k, v), m[1..]);
      [(k, v)] + m[1..]
    else
      var rest := Put(m[1..], k, v);
      KeysCons(m[0], m[1..]);
      KeysCons(m[0], rest);
      assert [m[0]] + m[1..] == m;
      DistinctSplit(m);
      DistinctCons(m[0], rest);
      [m[0]] + rest
  }

  /** A map without duplicates: its first key is not among the rest, and the
      rest has no duplicates either. */
  lemma DistinctSplit<V>(m: seq<(string, V)>)
    requires |m| > 0
    ensures DistinctKeys(m) ==> m[0].0 !in Keys(m[1..]) && DistinctKeys(m[1..])
  {
    if DistinctKeys(m) {
      forall i | 0 <= i < |m[1..]|
        ensures m[1..][i].0 != m[0].0
      {
        assert m[1..][i] == m[i + 1];
      }
    }
  }

  lemma DistinctCons<V>(e: (string, V), m: seq<(string, V)>)
    ensures DistinctKeys(m) && e.0 !in Keys(m) ==> DistinctKeys([e] + m)
  {
    if DistinctKeys(m) && e.0 !in Keys(m) {
      var c := [e] + m;
      forall i, j | 0 <= i < j < |c|
        ensures c[i].0 != c[j].0
      {
        assert c[j] == m[j - 1];
        if i > 0 {
          assert c[i] == m[i - 1];
        }
      }
    }
  }

  lemma KeysCons<V>(e: (string, V), m: seq<(string, V)>)
    ensures Keys([e] + m) == {e.0} + Keys(m)
  {
    var c := [e] + m;
    forall k | k in Keys(c) ensures k in {e.0} + Keys(m) {
      var i :| 0 <= i < |c| && c[i].0 == k;
      if i > 0 { assert m[i - 1].0 == k; }
    }
    forall k | k in Keys(m) ensures k in Keys(c) {
      var i :| 0 <= i < |m| && m[i].0 == k;
      assert c[i + 1].0 == k;
    }
    assert c[0].0 == e.0;
  }

  /** A key is bound exactly when it is among the keys. */
  lemma {:induction false} LookupKeys<V>(m: seq<(string, V)>, k: string)
    ensures Lookup(m, k).Some? <==> k in Keys(m)
    decreases |m|
  {
    if |m| > 0 {
      LookupKeys(m[1..], k);
      KeysCons(m[0], m[1..]);
      assert [m[0]] + m[1..] == m;
    }
  }

  /** `P` holds of every bound value. */
  predicate AllValues<V>(m: seq<(string, V)>, P: V -> bool)
  {
    forall i :: 0 <= i < |m| ==> P(m[i].1)
  }

  /** `Put` binds nothing but `v` and values already bound. */
  lemma {:induction false} PutValues<V>(m: seq<(string, V)>, k: string, v: V, P: V -> bool)
    requires AllValues(m, P)
    requires P(v)
    ensures AllValues(Put(m, k, v), P)
    decreases |m|
  {
    if |m| > 0 && m[0].0 != k {
      PutValues(m[1..], k, v, P);
      var rest := Put(m[1..], k, v);
      assert Put(m, k, v) == [m[0]] + rest;
    }
  }
}
