/** The record flattener: `traverse`, `ToCSVHeader` and `ToCSVRecord`
    (export.go). A record's map is walked depth-first in field order; every
    value that is not a map is a leaf and is reported once, under the
    colon-joined names of the maps above it. Lists are leaves: the walk never
    enters them. */
module Traversal {
  import opened Wrappers
  import opened Values
  import opened Assoc
  import Strings
  import Seqs

  /** The path reported for a leaf found under key `parent` at path `child`
      below it: the child path is appended after a colon, and an empty child
      path collapses to the parent key. */
  function Join(parent: string, child: string): string
  {
    if child == "" then parent else parent + ":" + child
  }

  /** The order in which one `range` visits a Go map's entries, given for
      every map a walk meets. Go fixes no order and picks a fresh one for every
      `range`, so two walks of the same record may visit it differently. */
  type Order = Fields -> Fields

  /** An order only rearranges the entries it is given. */
  ghost predicate Rearranges(ord: Order)
  {
    forall fs :: multiset(ord(fs)) == multiset(fs)
  }

  /** Visiting the entries in the order they were stored. */
  const InOrder: Order := (fs: Fields) => fs

  /** `traverse(v, fn)` with maps visited in order `ord`, as the sequence of
      `(path, leaf)` calls made to `fn`. */
  function Traverse(v: Val, ord: Order): seq<(string, Val)>
    decreases v, 1, 0
  {
    if v.Map? then TraverseEntries(v, ord(v.fields), ord) else [("", v)]
  }

  /** The calls made for the entries `es` of map `v`, visited in turn. */
  function TraverseEntries(v: Val, es: Fields, ord: Order): seq<(string, Val)>
    requires v.Map?
    decreases v, 0, |es|
  {
    if |es| == 0 then []
    else
      (if es[0] in v.fields then Prefixed(es[0].0, Traverse(es[0].1, ord)) else [])
      + TraverseEntries(v, es[1..], ord)
  }

  /** The calls reported through the callback for key `k`: the key joined in
      front of each path. */
  function Prefixed(k: string, below: seq<(string, Val)>): seq<(string, Val)>
  {
    Seqs.MapSeq(JoinUnder(k), below)
  }

  function JoinUnder(k: string): ((string, Val)) -> (string, Val)
  {
    (e: (string, Val)) => (Join(k, e.0), e.1)
  }

  const PathOf := (e: (string, Val)) => e.0
  const LeafOf := (e: (string, Val)) => e.1

  /** `ToCSVHeader`: the path of every leaf of the record, in walk order. */
  function ToCSVHeader(record: Fields, ord: Order): seq<string>
  {
    Seqs.MapSeq(PathOf, Traverse(Map(record), ord))
  }

  /** The leaves of the record, in walk order. */
  function RowLeaves(record: Fields, ord: Order): seq<Val>
  {
    Seqs.MapSeq(LeafOf, Traverse(Map(record), ord))
  }

  /** `ToCSVRecord`: the text of every leaf of the record, in walk order.
      `cell` stands for the rendering Go applies: `MarshalText` for values
      that implement `encoding.TextMarshaler`, `fmt`'s `%v` for the rest. */
  function ToCSVRecord(record: Fields, cell: Val -> string, ord: Order): seq<string>
  {
    Seqs.MapSeq(cell, RowLeaves(record, ord))
  }

  /* ---------- Reference definition: leaves by their key sequence ---------- */

  /** The leaves of `v` with the sequence of keys leading to each. */
  function Paths(v: Val): seq<(seq<string>, Val)>
    decreases v, 1, 0
  {
    if v.Map? then PathsFields(v, 0) else [([], v)]
  }

  function PathsFields(v: Val, i: nat): seq<(seq<string>, Val)>
    requires v.Map? && i <= |v.fields|
    decreases v, 0, |v.fields| - i
  {
    if i == |v.fields| then []
    else Under(v.fields[i].0, Paths(v.fields[i].1)) + PathsFields(v, i + 1)
  }

  /** Puts key `k` in front of every key sequence. */
  function Under(k: string, ps: seq<(seq<string>, Val)>): (r: seq<(seq<string>, Val)>)
    ensures |r| == |ps|
    ensures forall j :: 0 <= j < |ps| ==> r[j] == ([k] + ps[j].0, ps[j].1)
  {
    seq(|ps|, j requires 0 <= j < |ps| => ([k] + ps[j].0, ps[j].1))
  }

  /** The path text `traverse` builds for a key sequence. */
  function Render(segs: seq<string>): string
  {
    if |segs| == 0 then "" else Join(segs[0], Render(segs[1..]))
  }

  /** The value found by following the keys `segs` down through maps. */
  function Reach(v: Val, segs: seq<string>): Option<Val>
    decreases |segs|
  {
    if |segs| == 0 then Some(v)
    else if v.Map? && Lookup(v.fields, segs[0]).Some? then Reach(Lookup(v.fields, segs[0]).value, segs[1..])
    else None
  }

  /** No key sequence is reported twice. */
  predicate UniquePaths(ps: seq<(seq<string>, Val)>)
  {
    forall i, j :: 0 <= i < j < |ps| ==> ps[i].0 != ps[j].0
  }

  /* ---------- traverse agrees with the reference ---------- */

  function Rendered(ps: seq<(seq<string>, Val)>): (r: seq<(string, Val)>)
    ensures |r| == |ps|
    ensures forall j :: 0 <= j < |ps| ==> r[j] == (Render(ps[j].0), ps[j].1)
  {
    seq(|ps|, j requires 0 <= j < |ps| => (Render(ps[j].0), ps[j].1))
  }

  /** Walking maps in stored order, `traverse` reports exactly the leaves of
      the reference walk, in the same order, each under the rendering of its
      key sequence. */
  lemma {:induction false} TraverseInOrder(v: Val)
    ensures Traverse(v, InOrder) == Rendered(Paths(v))
    decreases v, 1, 0
  {
    if v.Map? {
      assert v.fields[0..] == v.fields;
      TraverseEntriesInOrder(v, 0);
    } else {
      assert Render([]) == "";
    }
  }

  lemma {:induction false} TraverseEntriesInOrder(v: Val, i: nat)
    requires v.Map? && i <= |v.fields|
    ensures TraverseEntries(v, v.fields[i..], InOrder) == Rendered(PathsFields(v, i))
    decreases v, 0, |v.fields| - i
  {
    var es := v.fields[i..];
    if i < |v.fields| {
      var k := v.fields[i].0;
      var child := v.fields[i].1;
      assert es[0] == v.fields[i] && es[0] in v.fields;
      assert es[1..] == v.fields[i + 1..];
      TraverseInOrder(child);
      TraverseEntriesInOrder(v, i + 1);
      var ps := Paths(child);
      var left := Prefixed(k, Traverse(child, InOrder));
      forall j | 0 <= j < |ps|
        ensures left[j] == Rendered(Under(k, ps))[j]
      {
        assert ([k] + ps[j].0)[1..] == ps[j].0;
      }
      assert left == Rendered(Under(k, ps));
      RenderedAppend(Under(k, ps), PathsFields(v, i + 1));
    } else {
      assert es == [];
    }
  }

  lemma {:induction false} TraverseEntriesAppend(v: Val, a: Fields, b: Fields, ord: Order)
    requires v.Map?
    ensures TraverseEntries(v, a + b, ord) == TraverseEntries(v, a, ord) + TraverseEntries(v, b, ord)
    decreases |a|
  {
    if |a| == 0 {
      assert a + b == b;
    } else {
      assert (a + b)[0] == a[0];
      assert (a + b)[1..] == a[1..] + b;
      TraverseEntriesAppend(v, a[1..], b, ord);
    }
  }

  /** Taking entry `i` out of `b` takes its calls out of the walk. */
  lemma EntriesSplit(v: Val, b: Fields, i: nat, ord: Order)
    requires v.Map? && i < |b|
    ensures multiset(TraverseEntries(v, b, ord))
         == multiset(TraverseEntries(v, [b[i]], ord)) + multiset(TraverseEntries(v, b[..i] + b[i + 1..], ord))
  {
    assert b == b[..i] + [b[i]] + b[i + 1..];
    TraverseEntriesAppend(v, b[..i] + [b[i]], b[i + 1..], ord);
    TraverseEntriesAppend(v, b[..i], [b[i]], ord);
    TraverseEntriesAppend(v, b[..i], b[i + 1..], ord);
  }

  /** Visiting the same entries in another order reports the same calls,
      rearranged. */
  lemma {:induction false} EntriesRearranged(v: Val, a: Fields, b: Fields, ord: Order)
    requires v.Map?
    requires multiset(a) == multiset(b)
    ensures multiset(TraverseEntries(v, a, ord)) == multiset(TraverseEntries(v, b, ord))
    decreases |a|
  {
    if |a| > 0 {
      var x := a[0];
      assert x in multiset(b);
      var i :| 0 <= i < |b| && b[i] == x;
      var rest := b[..i] + b[i + 1..];
      Seqs.RemoveMatching(a, b, i);
      EntriesRearranged(v, a[1..], rest, ord);
      EntriesSplit(v, b, i, ord);
      EntriesSplit(v, a, 0, ord);
      assert a[..0] + a[1..] == a[1..];
    }
  }

  /** Whatever orders Go picks for the maps, `traverse` reports the same calls
      as the stored-order walk, rearranged. */
  lemma {:induction false} TraversePermutes(v: Val, ord: Order)
    requires Rearranges(ord)
    ensures multiset(Traverse(v, ord)) == multiset(Traverse(v, InOrder))
    decreases v, 1, 0
  {
    if v.Map? {
      EntriesUnderOrder(v, ord(v.fields), ord);
      EntriesRearranged(v, ord(v.fields), v.fields, InOrder);
      assert InOrder(v.fields) == v.fields;
    }
  }

  lemma {:induction false} EntriesUnderOrder(v: Val, es: Fields, ord: Order)
    requires v.Map? && Rearranges(ord)
    ensures multiset(TraverseEntries(v, es, ord)) == multiset(TraverseEntries(v, es, InOrder))
    decreases v, 0, |es|
  {
    if |es| > 0 {
      EntriesUnderOrder(v, es[1..], ord);
      if es[0] in v.fields {
        TraversePermutes(es[0].1, ord);
        Seqs.MapSeqRearranged(JoinUnder(es[0].0), Traverse(es[0].1, ord), Traverse(es[0].1, InOrder));
      }
    }
  }

  /** In any order, the walk reports the leaves of the reference walk, each
      once per occurrence there. */
  lemma WalkIsLeaves(record: Fields, ord: Order)
    requires Rearranges(ord)
    ensures multiset(Traverse(Map(record), ord)) == multiset(Rendered(Paths(Map(record))))
  {
    TraversePermutes(Map(record), ord);
    TraverseInOrder(Map(record));
  }

  lemma RenderedAppend(a: seq<(seq<string>, Val)>, b: seq<(seq<string>, Val)>)
    ensures Rendered(a + b) == Rendered(a) + Rendered(b)
  {
  }

  /** With no empty key, the path is the keys joined by colons; an empty key
      is what makes `traverse` collapse a level. */
  lemma {:induction false} RenderNonEmpty(segs: seq<string>)
    requires forall j :: 0 <= j < |segs| ==> segs[j] != ""
    ensures Render(segs) == Strings.JoinWith(segs, ":")
    decreases |segs|
  {
    if |segs| > 1 {
      RenderNonEmpty(segs[1..]);
      JoinWithCons(segs[0], segs[1..], ":");
      assert [segs[0]] + segs[1..] == segs;
      assert Render(segs[1..]) != "" by {
        JoinWithNonEmpty(segs[1..], ":");
      }
    }
  }

  lemma {:induction false} JoinWithCons(a: string, rest: seq<string>, sep: string)
    requires |rest| > 0
    ensures Strings.JoinWith([a] + rest, sep) == a + sep + Strings.JoinWith(rest, sep)
    decreases |rest|
  {
    var all := [a] + rest;
    if |rest| > 1 {
      var front := rest[..|rest| - 1];
      JoinWithCons(a, front, sep);
      assert all[..|all| - 1] == [a] + front;
    } else {
      assert all[..|all| - 1] == [a];
    }
  }

  lemma {:induction false} JoinWithNonEmpty(parts: seq<string>, sep: string)
    requires |parts| > 0 && parts[|parts| - 1] != ""
    ensures Strings.JoinWith(parts, sep) != ""
  {
  }

  /* ---------- Reference walk: sound, complete, each leaf once ---------- */

  lemma {:induction false} LookupAt(fs: seq<(string, Val)>, f: nat)
    requires f < |fs|
    requires forall a, b :: 0 <= a < b < |fs| ==> fs[a].0 != fs[b].0
    ensures Lookup(fs, fs[f].0) == Some(fs[f].1)
    decreases f
  {
    if f > 0 {
      LookupAt(fs[1..], f - 1);
    }
  }

  /** Every reported leaf is a non-map value found at its key sequence. */
  lemma {:induction false} PathsSound(v: Val)
    requires DeepDistinct(v)
    ensures forall e :: e in Paths(v) ==> Reach(v, e.0) == Some(e.1) && !e.1.Map?
    decreases v, 1, 0
  {
    if v.Map? {
      PathsFieldsSound(v, 0);
    }
  }

  lemma {:induction false} PathsFieldsSound(v: Val, i: nat)
    requires v.Map? && i <= |v.fields|
    requires DeepDistinct(v)
    ensures forall e :: e in PathsFields(v, i) ==> Reach(v, e.0) == Some(e.1) && !e.1.Map?
    decreases v, 0, |v.fields| - i
  {
    if i < |v.fields| {
      var k := v.fields[i].0;
      var child := v.fields[i].1;
      PathsSound(child);
      PathsFieldsSound(v, i + 1);
      LookupAt(v.fields, i);
      var u := Under(k, Paths(child));
      forall e | e in u
        ensures Reach(v, e.0) == Some(e.1) && !e.1.Map?
      {
        var j :| 0 <= j < |u| && u[j] == e;
        var p := Paths(child)[j];
        assert p in Paths(child);
        assert e.0[1..] == p.0;
      }
    }
  }

  /** Every non-map value found at some key sequence is reported under it. */
  lemma {:induction false} PathsComplete(v: Val, segs: seq<string>)
    requires Reach(v, segs).Some? && !Reach(v, segs).value.Map?
    ensures (segs, Reach(v, segs).value) in Paths(v)
    decreases v, 1, 0
  {
    if |segs| == 0 {
      assert Paths(v) == [([], v)];
    } else {
      var f := FindKey(v.fields, segs[0]);
      PathsFieldsComplete(v, 0, f, segs);
    }
  }

  /** The position of the first entry with key `k`. */
  function FindKey(fs: seq<(string, Val)>, k: string): (f: nat)
    requires Lookup(fs, k).Some?
    ensures f < |fs| && fs[f].0 == k && Lookup(fs, k) == Some(fs[f].1)
  {
    if fs[0].0 == k then 0 else 1 + FindKey(fs[1..], k)
  }

  lemma {:induction false} PathsFieldsComplete(v: Val, i: nat, f: nat, segs: seq<string>)
    requires v.Map? && i <= f < |v.fields|
    requires |segs| > 0 && v.fields[f].0 == segs[0]
    requires Reach(v.fields[f].1, segs[1..]).Some? && !Reach(v.fields[f].1, segs[1..]).value.Map?
    ensures (segs, Reach(v.fields[f].1, segs[1..]).value) in PathsFields(v, i)
    decreases v, 0, |v.fields| - i
  {
    var x := Reach(v.fields[f].1, segs[1..]).value;
    if i == f {
      var child := v.fields[f].1;
      PathsComplete(child, segs[1..]);
      var j :| 0 <= j < |Paths(child)| && Paths(child)[j] == (segs[1..], x);
      var u := Under(v.fields[f].0, Paths(child));
      assert [segs[0]] + segs[1..] == segs;
      assert u[j] == (segs, x);
      assert (segs, x) in u;
    } else {
      PathsFieldsComplete(v, i + 1, f, segs);
    }
  }

  /** Every key sequence reported from fields `i..` starts with one of their keys. */
  lemma {:induction false} PathsFieldsHeads(v: Val, i: nat)
    requires v.Map? && i <= |v.fields|
    ensures forall e :: e in PathsFields(v, i) ==>
              |e.0| > 0 && exists f :: i <= f < |v.fields| && v.fields[f].0 == e.0[0]
    decreases |v.fields| - i
  {
    if i < |v.fields| {
      PathsFieldsHeads(v, i + 1);
      var u := Under(v.fields[i].0, Paths(v.fields[i].1));
      forall e | e in u
        ensures |e.0| > 0 && e.0[0] == v.fields[i].0
      {
        var j :| 0 <= j < |u| && u[j] == e;
      }
    }
  }

  /** Under distinct keys at every depth, no key sequence is reported twice:
      `traverse` calls back exactly once per leaf. */
  lemma {:induction false} PathsUnique(v: Val)
    requires DeepDistinct(v)
    ensures UniquePaths(Paths(v))
    decreases v, 1, 0
  {
    if v.Map? {
      PathsFieldsUnique(v, 0);
    }
  }

  lemma {:induction false} PathsFieldsUnique(v: Val, i: nat)
    requires v.Map? && i <= |v.fields|
    requires DeepDistinct(v)
    ensures UniquePaths(PathsFields(v, i))
    decreases v, 0, |v.fields| - i
  {
    if i < |v.fields| {
      var k := v.fields[i].0;
      var child := v.fields[i].1;
      PathsUnique(child);
      PathsFieldsUnique(v, i + 1);
      PathsFieldsHeads(v, i + 1);
      var u := Under(k, Paths(child));
      var rest := PathsFields(v, i + 1);
      var all := u + rest;
      forall a, b | 0 <= a < b < |all|
        ensures all[a].0 != all[b].0
      {
        if b < |u| {
          assert all[a].0[1..] == Paths(child)[a].0;
          assert all[b].0[1..] == Paths(child)[b].0;
        } else if a >= |u| {
          assert all[a] == rest[a - |u|];
          assert all[b] == rest[b - |u|];
        } else {
          assert all[b] in rest;
          var f :| i + 1 <= f < |v.fields| && v.fields[f].0 == all[b].0[0];
          assert all[a].0[0] == k;
        }
      }
    }
  }

  /* ---------- CSV header and row ---------- */

  /** The rendered key sequences of the leaves. */
  function Names(ps: seq<(seq<string>, Val)>): (r: seq<string>)
    ensures |r| == |ps|
    ensures forall j :: 0 <= j < |ps| ==> r[j] == Render(ps[j].0)
  {
    seq(|ps|, j requires 0 <= j < |ps| => Render(ps[j].0))
  }

  /** The cell texts of the leaves. */
  function Texts(ps: seq<(seq<string>, Val)>, cell: Val -> string): (r: seq<string>)
    ensures |r| == |ps|
    ensures forall j :: 0 <= j < |ps| ==> r[j] == cell(ps[j].1)
  {
    seq(|ps|, j requires 0 <= j < |ps| => cell(ps[j].1))
  }

  /** Whatever map orders the header walk and the row walk each get, the
      header has one column per leaf and names every leaf path, and the row
      has one column per leaf and holds every leaf's text. Which leaf ends up
      in which column depends on the order of each walk on its own. */
  lemma CsvColumns(record: Fields, cell: Val -> string, headerOrder: Order, rowOrder: Order)
    requires Rearranges(headerOrder) && Rearranges(rowOrder)
    ensures |ToCSVHeader(record, headerOrder)| == |ToCSVRecord(record, cell, rowOrder)| == |Paths(Map(record))|
    ensures multiset(ToCSVHeader(record, headerOrder)) == multiset(Names(Paths(Map(record))))
    ensures multiset(ToCSVRecord(record, cell, rowOrder)) == multiset(Texts(Paths(Map(record)), cell))
  {
    var ps := Paths(Map(record));
    var all := Rendered(ps);
    WalkIsLeaves(record, headerOrder);
    WalkIsLeaves(record, rowOrder);
    assert |Traverse(Map(record), headerOrder)| == |multiset(all)| == |ps|;
    assert |Traverse(Map(record), rowOrder)| == |multiset(all)|;
    Seqs.MapSeqRearranged(PathOf, Traverse(Map(record), headerOrder), all);
    assert Seqs.MapSeq(PathOf, all) == Names(ps);
    Seqs.MapSeqRearranged(LeafOf, Traverse(Map(record), rowOrder), all);
    Seqs.MapSeqRearranged(cell, RowLeaves(record, rowOrder), Seqs.MapSeq(LeafOf, all));
    assert Seqs.MapSeq(cell, Seqs.MapSeq(LeafOf, all)) == Texts(ps, cell);
  }

  /** The order that swaps the two entries of a two-entry map. */
  const Swapped: Order := (fs: Fields) => if |fs| == 2 then [fs[1], fs[0]] else fs

  /** Two entries of `v` holding plain values are reported under their own
      keys, in the order visited. */
  lemma TwoLeafEntries(v: Val, e1: (string, Val), e2: (string, Val), ord: Order)
    requires v.Map? && e1 in v.fields && e2 in v.fields
    requires e1.1.Leaf? && e2.1.Leaf?
    ensures TraverseEntries(v, [e1, e2], ord) == [e1, e2]
  {
    assert [e1, e2][1..] == [e2];
    assert [e2][1..] == [];
    assert Traverse(e1.1, ord) == [("", e1.1)];
    assert Traverse(e2.1, ord) == [("", e2.1)];
    assert Prefixed(e1.0, [("", e1.1)]) == [e1];
    assert Prefixed(e2.0, [("", e2.1)]) == [e2];
    assert TraverseEntries(v, [e2], ord) == [e2] + TraverseEntries(v, [], ord);
    assert TraverseEntries(v, [e1, e2], ord) == [e1] + TraverseEntries(v, [e2], ord);
  }

  lemma SwapTwo(fs: Fields)
    ensures multiset(Swapped(fs)) == multiset(fs)
  {
    if |fs| == 2 {
      assert Swapped(fs) == [fs[1], fs[0]];
      assert fs == [fs[0], fs[1]];
    } else {
      assert Swapped(fs) == fs;
    }
  }

  lemma SwappedRearranges()
    ensures Rearranges(Swapped)
  {
    forall fs: Fields ensures multiset(Swapped(fs)) == multiset(fs) {
      SwapTwo(fs);
    }
  }

  /** The two-field record of the example below. */
  const Pair: Fields := [("a", Leaf(Int(1))), ("b", Leaf(Int(2)))]

  lemma PairWalks()
    ensures Traverse(Map(Pair), InOrder) == Pair
    ensures Traverse(Map(Pair), Swapped) == [Pair[1], Pair[0]]
  {
    assert InOrder(Pair) == [Pair[0], Pair[1]];
    assert Swapped(Pair) == [Pair[1], Pair[0]];
    TwoLeafEntries(Map(Pair), Pair[0], Pair[1], InOrder);
    TwoLeafEntries(Map(Pair), Pair[1], Pair[0], Swapped);
  }

  /** Two walks of one record can disagree: with the header walk visiting
      `a` before `b` and the row walk visiting `b` first, the column headed
      `a` holds the text of `b`'s value. */
  lemma ColumnsMisaligned(cell: Val -> string)
    ensures Rearranges(Swapped)
    ensures && Reach(Map(Pair), ["a"]) == Some(Leaf(Int(1)))
            && Reach(Map(Pair), ["b"]) == Some(Leaf(Int(2)))
            && ToCSVHeader(Pair, InOrder) == ["a", "b"]
            && RowLeaves(Pair, Swapped) == [Leaf(Int(2)), Leaf(Int(1))]
            && ToCSVRecord(Pair, cell, Swapped) == [cell(Leaf(Int(2))), cell(Leaf(Int(1)))]
  {
    SwappedRearranges();
    PairReaches();
    PairColumns(cell);
  }

  lemma PairReaches()
    ensures Reach(Map(Pair), ["a"]) == Some(Leaf(Int(1)))
    ensures Reach(Map(Pair), ["b"]) == Some(Leaf(Int(2)))
  {
    assert ["a"][1..] == [] && ["b"][1..] == [];
  }

  lemma PairColumns(cell: Val -> string)
    ensures ToCSVHeader(Pair, InOrder) == ["a", "b"]
    ensures RowLeaves(Pair, Swapped) == [Leaf(Int(2)), Leaf(Int(1))]
    ensures ToCSVRecord(Pair, cell, Swapped) == [cell(Leaf(Int(2))), cell(Leaf(Int(1)))]
  {
    PairHeader();
    PairRow();
  }

  lemma PairHeader()
    ensures ToCSVHeader(Pair, InOrder) == ["a", "b"]
  {
    PairWalks();
    var h := ToCSVHeader(Pair, InOrder);
    assert h[0] == PathOf(Pair[0]) && h[1] == PathOf(Pair[1]);
  }

  lemma PairRow()
    ensures RowLeaves(Pair, Swapped) == [Leaf(Int(2)), Leaf(Int(1))]
  {
    PairWalks();
    var l := RowLeaves(Pair, Swapped);
    assert l[0] == LeafOf(Pair[1]) && l[1] == LeafOf(Pair[0]);
  }

  /** The key sequence behind column `j` of a walk in any order. */
  lemma ColumnLeaf(record: Fields, ord: Order, j: nat) returns (segs: seq<string>)
    requires Rearranges(ord) && DeepDistinct(Map(record))
    requires j < |Traverse(Map(record), ord)|
    ensures Reach(Map(record), segs) == Some(Traverse(Map(record), ord)[j].1)
    ensures !Traverse(Map(record), ord)[j].1.Map?
    ensures Traverse(Map(record), ord)[j].0 == Render(segs)
  {
    var t := Traverse(Map(record), ord);
    var ps := Paths(Map(record));
    WalkIsLeaves(record, ord);
    PathsSound(Map(record));
    assert t[j] in multiset(t);
    assert t[j] in Rendered(ps);
    var k :| 0 <= k < |ps| && Rendered(ps)[k] == t[j];
    assert ps[k] in ps;
    segs := ps[k].0;
  }

  /** A column named `name` holding `text` is one leaf of the record: the
      name renders a key sequence that reaches a non-map value whose text is
      `text`. */
  ghost predicate LeafColumn(record: Fields, cell: Val -> string, name: string, text: string)
  {
    exists segs :: && Reach(Map(record), segs).Some?
                   && !Reach(Map(record), segs).value.Map?
                   && name == Render(segs)
                   && text == cell(Reach(Map(record), segs).value)
  }

  /** With one order for both walks (the fix: walk each map in a fixed order,
      or build header and row in one walk), every column is one leaf: its
      header names a key sequence that reaches a non-map value, and its cell
      holds that value's text. */
  lemma CsvColumnsAligned(record: Fields, cell: Val -> string, ord: Order)
    requires Rearranges(ord) && DeepDistinct(Map(record))
    ensures |ToCSVHeader(record, ord)| == |ToCSVRecord(record, cell, ord)|
    ensures forall j :: 0 <= j < |ToCSVHeader(record, ord)| ==>
              LeafColumn(record, cell, ToCSVHeader(record, ord)[j], ToCSVRecord(record, cell, ord)[j])
  {
    var t := Traverse(Map(record), ord);
    forall j | 0 <= j < |ToCSVHeader(record, ord)|
      ensures LeafColumn(record, cell, ToCSVHeader(record, ord)[j], ToCSVRecord(record, cell, ord)[j])
    {
      var segs := ColumnLeaf(record, ord, j);
      assert ToCSVHeader(record, ord)[j] == t[j].0;
      assert RowLeaves(record, ord)[j] == t[j].1;
      assert ToCSVRecord(record, cell, ord)[j] == cell(t[j].1);
      assert && Reach(Map(record), segs).Some?
             && !Reach(Map(record), segs).value.Map?
             && ToCSVHeader(record, ord)[j] == Render(segs)
             && ToCSVRecord(record, cell, ord)[j] == cell(Reach(Map(record), segs).value);
    }
  }

  /** For a record whose maps bind each key once, the columns are exactly its
      leaves: each non-map value reachable through maps appears in exactly one
      column, and nothing else does. */
  lemma CsvColumnsAreLeaves(record: Fields)
    requires DeepDistinct(Map(record))
    ensures forall e :: e in Paths(Map(record)) ==> Reach(Map(record), e.0) == Some(e.1) && !e.1.Map?
    ensures forall segs :: Reach(Map(record), segs).Some? && !Reach(Map(record), segs).value.Map? ==>
              (segs, Reach(Map(record), segs).value) in Paths(Map(record))
    ensures UniquePaths(Paths(Map(record)))
  {
    PathsSound(Map(record));
    PathsUnique(Map(record));
    forall segs | Reach(Map(record), segs).Some? && !Reach(Map(record), segs).value.Map?
      ensures (segs, Reach(Map(record), segs).value) in Paths(Map(record))
    {
      PathsComplete(Map(record), segs);
    }
  }
}
