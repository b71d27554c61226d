/** The value normalizer `toExportValue` and the record loader
    `dynamicEntity.Load` (export.go; main.go carries an identical copy of both). */
module Normalize {
  import opened Wrappers
  import opened Values
  import opened Assoc
  import Decimal

  /** `toExportValue`: nested entities become maps of their non-nil
      properties, keys become their name (or their ID when the name is empty),
      slices lose their nil elements, a property unwraps to its value, and
      anything else passes through. */
  function ToExportValue(r: Raw): Val
    decreases r, 1
  {
    match r
    case Plain(s) => Leaf(s)
    case Ref(k) => Leaf(Text(KeyText(k)))
    case Entity(_) => Map(Store([], EntityEntries(r)))
    case Slice(_) => List(Present(SliceItems(r)))
    case Prop(p) => if p.value.Some? then ToExportValue(p.value.value) else Nil
  }

  /** The string a key is exported as. */
  function KeyText(k: Key): string
  {
    if |k.name| == 0 then Decimal.Show(k.id as int) else k.name
  }

  /** The normalized value of a possibly nil value; nil stays nil. */
  function NormalizeOpt(o: Option<Raw>): Option<Val>
    decreases o, 2
  {
    if o.Some? then Some(ToExportValue(o.value)) else None
  }

  /** A nested entity's properties as (name, normalized value) entries, in order. */
  function EntityEntries(r: Raw): seq<(string, Option<Val>)>
    requires r.Entity?
    decreases r, 0
  {
    seq(|r.props|, i requires 0 <= i < |r.props| => (r.props[i].name, NormalizeOpt(r.props[i].value)))
  }

  /** A slice's elements, each normalized; nil elements stay nil. */
  function SliceItems(r: Raw): seq<Option<Val>>
    requires r.Slice?
    decreases r, 0
  {
    seq(|r.items|, i requires 0 <= i < |r.items| => NormalizeOpt(r.items[i]))
  }

  /** The non-nil elements, in order. */
  function Present<T>(xs: seq<Option<T>>): seq<T>
  {
    if |xs| == 0 then []
    else if xs[0].None? then Present(xs[1..])
    else [xs[0].value] + Present(xs[1..])
  }

  /** Stores each entry with a non-nil value into `acc`, in order, under its
      name, so that a later entry of the same name overwrites an earlier one.
      Written as a left fold: the last entry is stored last. */
  function Store(acc: Fields, entries: seq<(string, Option<Val>)>): Fields
  {
    if |entries| == 0 then acc
    else
      var before := Store(acc, entries[..|entries| - 1]);
      var e := entries[|entries| - 1];
      if e.1.Some? then Put(before, e.0, e.1.value) else before
  }

  /** `dynamicEntity.Load`: a nil record value starts out empty; every property
      with a non-nil value is stored as `toExportValue(p)`, and nothing already
      present is cleared. */
  function Load(current: Option<Fields>, ps: seq<Property>): Fields
  {
    Store(current.GetOr([]), LoadEntries(ps))
  }

  /** The entries `Load` stores: each property is normalized whole. */
  function LoadEntries(ps: seq<Property>): seq<(string, Option<Val>)>
  {
    seq(|ps|, i requires 0 <= i < |ps| =>
      (ps[i].name, if ps[i].value.Some? then Some(ToExportValue(Prop(ps[i]))) else None))
  }

  /* ---------- Reference definitions ---------- */

  /** The (name, normalized value) entries of a property list, in order. */
  function Entries(ps: seq<Property>): seq<(string, Option<Val>)>
  {
    EntityEntries(Entity(ps))
  }

  /** Entry `i` carries property `i`'s name and its normalized value, which is
      present exactly when the property's value is. */
  lemma EntriesAt(ps: seq<Property>)
    ensures |Entries(ps)| == |ps|
    ensures forall i :: 0 <= i < |ps| ==> Entries(ps)[i].0 == ps[i].name
    ensures forall i :: 0 <= i < |ps| ==> (Entries(ps)[i].1.Some? <==> ps[i].value.Some?)
    ensures forall i :: 0 <= i < |ps| && ps[i].value.Some? ==>
              Entries(ps)[i].1.value == ToExportValue(ps[i].value.value)
  {
    var e := Entries(ps);
    forall i | 0 <= i < |ps|
      ensures e[i] == (ps[i].name, NormalizeOpt(ps[i].value))
    {
    }
  }

  /** Element `i` of a slice's normalized items is present exactly when
      element `i` of the slice is, and is then its normalized value. */
  lemma SliceItemsAt(items: seq<Option<Raw>>)
    ensures |SliceItems(Slice(items))| == |items|
    ensures forall i :: 0 <= i < |items| ==> (SliceItems(Slice(items))[i].Some? <==> items[i].Some?)
    ensures forall i :: 0 <= i < |items| && items[i].Some? ==>
              SliceItems(Slice(items))[i].value == ToExportValue(items[i].value)
  {
    var ns := SliceItems(Slice(items));
    forall i | 0 <= i < |items|
      ensures ns[i] == NormalizeOpt(items[i])
    {
    }
  }

  /** Normalizing a property whole is normalizing its value. */
  lemma LoadEntriesAgree(ps: seq<Property>)
    ensures LoadEntries(ps) == Entries(ps)
  {
    EntriesAt(ps);
    forall i | 0 <= i < |ps|
      ensures LoadEntries(ps)[i] == Entries(ps)[i]
    {
      if ps[i].value.Some? {
        assert ToExportValue(Prop(ps[i])) == ToExportValue(ps[i].value.value);
      }
    }
  }

  /** The value of the last property named `k` whose value is not nil. */
  function LastValue(ps: seq<Property>, k: string): Option<Raw>
  {
    if |ps| == 0 then None
    else
      var p := ps[|ps| - 1];
      if p.name == k && p.value.Some? then p.value else LastValue(ps[..|ps| - 1], k)
  }

  /** The names of the properties whose value is not nil. */
  function NonNilNames(ps: seq<Property>): set<string>
  {
    set i | 0 <= i < |ps| && ps[i].value.Some? :: ps[i].name
  }

  /** The value of the last non-nil entry named `k`. */
  function LastSet(entries: seq<(string, Option<Val>)>, k: string): Option<Val>
  {
    if |entries| == 0 then None
    else
      var e := entries[|entries| - 1];
      if e.0 == k && e.1.Some? then e.1 else LastSet(entries[..|entries| - 1], k)
  }

  /* ---------- Store ---------- */

  /** A stored key is bound to the last non-nil entry of that name; keys with
      no such entry keep what `acc` had. */
  lemma {:induction false} StoreLookup(acc: Fields, entries: seq<(string, Option<Val>)>, k: string)
    ensures Lookup(Store(acc, entries), k)
         == if LastSet(entries, k).Some? then LastSet(entries, k) else Lookup(acc, k)
    decreases |entries|
  {
    if |entries| > 0 {
      StoreLookup(acc, entries[..|entries| - 1], k);
    }
  }

  /** Storing adds exactly the names of the non-nil entries and keeps keys distinct. */
  lemma {:induction false} StoreKeys(acc: Fields, entries: seq<(string, Option<Val>)>)
    ensures Keys(Store(acc, entries))
         == Keys(acc) + (set i | 0 <= i < |entries| && entries[i].1.Some? :: entries[i].0)
    ensures DistinctKeys(acc) ==> DistinctKeys(Store(acc, entries))
    decreases |entries|
  {
    if |entries| > 0 {
      var n := |entries| - 1;
      var init := entries[..n];
      StoreKeys(acc, init);
      var a := set i | 0 <= i < |init| && init[i].1.Some? :: init[i].0;
      var b := set i | 0 <= i < |entries| && entries[i].1.Some? :: entries[i].0;
      if entries[n].1.Some? {
        assert b == a + {entries[n].0};
      } else {
        assert b == a;
      }
    }
  }

  /** Every stored value is one of `acc`'s or one of the entries' values, so a
      property of all of those holds of every stored value. */
  lemma {:induction false} StoreValues(acc: Fields, entries: seq<(string, Option<Val>)>, P: Val -> bool)
    requires AllValues(acc, P)
    requires forall i :: 0 <= i < |entries| && entries[i].1.Some? ==> P(entries[i].1.value)
    ensures AllValues(Store(acc, entries), P)
    decreases |entries|
  {
    if |entries| > 0 {
      var n := |entries| - 1;
      var init := entries[..n];
      assert forall i :: 0 <= i < |init| ==> init[i] == entries[i];
      StoreValues(acc, init, P);
      if entries[n].1.Some? {
        PutValues(Store(acc, init), entries[n].0, entries[n].1.value, P);
      }
    }
  }

  /* ---------- Properties of the normalizer ---------- */

  /** A key becomes a string: its name when that is non-empty, otherwise the
      canonical decimal text of its ID, which reads back as that ID. */
  lemma KeyNormalization(k: Key)
    ensures ToExportValue(Ref(k)).Leaf? && ToExportValue(Ref(k)).scalar.Text?
    ensures |k.name| > 0 ==> ToExportValue(Ref(k)).scalar.s == k.name
    ensures |k.name| == 0 ==> Decimal.IsCanonical(ToExportValue(Ref(k)).scalar.s)
    ensures |k.name| == 0 ==> Decimal.Parse(ToExportValue(Ref(k)).scalar.s) == Some(k.id as int)
  {
    Decimal.ParseShow(k.id as int);
  }

  /** Two unnamed keys export to the same string only when their IDs agree. */
  lemma UnnamedKeysDistinct(k1: Key, k2: Key)
    requires |k1.name| == 0 && |k2.name| == 0
    requires ToExportValue(Ref(k1)) == ToExportValue(Ref(k2))
    ensures k1.id == k2.id
  {
    Decimal.ShowInjective(k1.id as int, k2.id as int);
  }

  /** An unnamed key with ID 42 exports as the string "42". */
  lemma UnnamedKeyExample()
    ensures ToExportValue(Ref(Key("", 42))) == Leaf(Text("42"))
  {
    assert Decimal.ShowNat(4) == "4";
    assert Decimal.ShowNat(42) == Decimal.ShowNat(4) + ['2'];
    assert KeyText(Key("", 42)) == "42";
  }

  lemma {:induction false} EntriesLast(ps: seq<Property>, k: string)
    ensures LastSet(Entries(ps), k) == NormalizeOpt(LastValue(ps, k))
    decreases |ps|
  {
    if |ps| > 0 {
      var n := |ps| - 1;
      EntriesAt(ps);
      EntriesAt(ps[..n]);
      assert Entries(ps)[..n] == Entries(ps[..n]);
      EntriesLast(ps[..n], k);
    }
  }

  lemma EntriesNames(ps: seq<Property>)
    ensures (set i | 0 <= i < |Entries(ps)| && Entries(ps)[i].1.Some? :: Entries(ps)[i].0) == NonNilNames(ps)
  {
    EntriesAt(ps);
  }

  /** A nested entity becomes a map whose keys are exactly the names of its
      non-nil properties, each bound once, to the normalized value of the last
      non-nil property of that name. */
  lemma EntityNormalization(props: seq<Property>)
    ensures ToExportValue(Entity(props)).Map?
    ensures DistinctKeys(ToExportValue(Entity(props)).fields)
    ensures Keys(ToExportValue(Entity(props)).fields) == NonNilNames(props)
    ensures forall k :: Lookup(ToExportValue(Entity(props)).fields, k) == NormalizeOpt(LastValue(props, k))
  {
    var e := Entries(props);
    StoreKeys([], e);
    EntriesNames(props);
    assert Keys<Val>([]) == {};
    forall k ensures Lookup(Store([], e), k) == NormalizeOpt(LastValue(props, k)) {
      StoreLookup([], e, k);
      EntriesLast(props, k);
    }
  }

  lemma {:induction false} PresentMap(items: seq<Option<Raw>>)
    ensures Present(seq(|items|, i requires 0 <= i < |items| => NormalizeOpt(items[i])))
         == seq(|Present(items)|, j requires 0 <= j < |Present(items)| => ToExportValue(Present(items)[j]))
    decreases |items|
  {
    if |items| > 0 {
      var ns := seq(|items|, i requires 0 <= i < |items| => NormalizeOpt(items[i]));
      var tail := items[1..];
      assert ns[1..] == seq(|tail|, i requires 0 <= i < |tail| => NormalizeOpt(tail[i]));
      PresentMap(tail);
    }
  }

  lemma {:induction false} PresentLength<T>(xs: seq<Option<T>>)
    ensures |Present(xs)| <= |xs|
    ensures |Present(xs)| == |xs| <==> forall i :: 0 <= i < |xs| ==> xs[i].Some?
    decreases |xs|
  {
    if |xs| > 0 {
      PresentLength(xs[1..]);
      assert forall i :: 1 <= i < |xs| ==> xs[i] == xs[1..][i - 1];
    }
  }

  /** A slice becomes the list of its non-nil elements, each normalized, in
      their original order; it never grows, and shrinks exactly when some
      element is nil. */
  lemma SliceNormalization(items: seq<Option<Raw>>)
    ensures ToExportValue(Slice(items)).List?
    ensures ToExportValue(Slice(items)).items
         == seq(|Present(items)|, j requires 0 <= j < |Present(items)| => ToExportValue(Present(items)[j]))
    ensures |ToExportValue(Slice(items)).items| <= |items|
    ensures |ToExportValue(Slice(items)).items| == |items| <==> forall i :: 0 <= i < |items| ==> items[i].Some?
  {
    assert SliceItems(Slice(items)) == seq(|items|, i requires 0 <= i < |items| => NormalizeOpt(items[i]));
    PresentMap(items);
    PresentLength(items);
  }

  lemma {:induction false} PresentIn<T>(xs: seq<Option<T>>, j: nat)
    requires j < |Present(xs)|
    ensures exists i :: 0 <= i < |xs| && xs[i] == Some(Present(xs)[j])
    decreases |xs|
  {
    if xs[0].None? {
      PresentIn(xs[1..], j);
      var i :| 0 <= i < |xs[1..]| && xs[1..][i] == Some(Present(xs[1..])[j]);
      assert xs[i + 1] == xs[1..][i];
    } else if j > 0 {
      PresentIn(xs[1..], j - 1);
      var i :| 0 <= i < |xs[1..]| && xs[1..][i] == Some(Present(xs[1..])[j - 1]);
      assert xs[i + 1] == xs[1..][i];
    }
  }

  /** When every property inside carries a value, as the datastore client
      guarantees, the normalized value contains no nil at any depth. */
  lemma {:induction false} NormalizedNilFree(r: Raw)
    requires PropsHaveValues(r)
    ensures NilFree(ToExportValue(r))
    decreases r
  {
    match r
    case Entity(props) =>
      var e := EntityEntries(r);
      EntriesAt(props);
      forall i | 0 <= i < |e| && e[i].1.Some?
        ensures NilFree(e[i].1.value)
      {
        NormalizedNilFree(props[i].value.value);
      }
      StoreValues([], e, NilFree);
    case Slice(items) =>
      var ns := SliceItems(r);
      SliceItemsAt(items);
      forall j | 0 <= j < |Present(ns)| ensures NilFree(Present(ns)[j]) {
        PresentIn(ns, j);
        var i :| 0 <= i < |ns| && ns[i] == Some(Present(ns)[j]);
        NormalizedNilFree(items[i].value);
      }
    case Prop(p) =>
      NormalizedNilFree(p.value.value);
    case _ =>
  }

  /** Every map produced by normalization binds each key once, at every depth. */
  lemma {:induction false} NormalizedDistinct(r: Raw)
    ensures DeepDistinct(ToExportValue(r))
    decreases r
  {
    match r
    case Entity(props) =>
      var e := EntityEntries(r);
      EntriesAt(props);
      forall i | 0 <= i < |e| && e[i].1.Some?
        ensures DeepDistinct(e[i].1.value)
      {
        NormalizedDistinct(props[i].value.value);
      }
      StoreValues([], e, DeepDistinct);
      StoreKeys([], e);
    case Slice(items) =>
      var ns := SliceItems(r);
      SliceItemsAt(items);
      forall j | 0 <= j < |Present(ns)| ensures DeepDistinct(Present(ns)[j]) {
        PresentIn(ns, j);
        var i :| 0 <= i < |ns| && ns[i] == Some(Present(ns)[j]);
        NormalizedDistinct(items[i].value);
      }
    case Prop(p) =>
      if p.value.Some? {
        NormalizedDistinct(p.value.value);
      }
    case _ =>
  }

  /* ---------- Properties of Load ---------- */

  /** After `Load`, a name is bound to the normalized value of the last
      non-nil property of that name; names without one keep their previous
      binding, so nothing present is cleared. The keys are the previous keys
      plus the non-nil property names, each bound once. */
  lemma LoadSemantics(current: Option<Fields>, ps: seq<Property>)
    ensures forall k ::
              Lookup(Load(current, ps), k)
              == if LastValue(ps, k).Some? then NormalizeOpt(LastValue(ps, k)) else Lookup(current.GetOr([]), k)
    ensures Keys(Load(current, ps)) == Keys(current.GetOr([])) + NonNilNames(ps)
    ensures DistinctKeys(current.GetOr([])) ==> DistinctKeys(Load(current, ps))
  {
    var e := Entries(ps);
    LoadEntriesAgree(ps);
    forall k ensures Lookup(Load(current, ps), k)
         == if LastValue(ps, k).Some? then NormalizeOpt(LastValue(ps, k)) else Lookup(current.GetOr([]), k)
    {
      StoreLookup(current.GetOr([]), e, k);
      EntriesLast(ps, k);
    }
    StoreKeys(current.GetOr([]), e);
    EntriesNames(ps);
  }

  /** A freshly loaded record of client-delivered properties has distinct keys
      and holds no nil and no repeated key at any depth. */
  lemma LoadedRecordWellFormed(ps: seq<Property>)
    requires forall i :: 0 <= i < |ps| && ps[i].value.Some? ==> PropsHaveValues(ps[i].value.value)
    ensures DistinctKeys(Load(None, ps))
    ensures forall i :: 0 <= i < |Load(None, ps)| ==> NilFree(Load(None, ps)[i].1)
    ensures forall i :: 0 <= i < |Load(None, ps)| ==> DeepDistinct(Load(None, ps)[i].1)
  {
    var e := Entries(ps);
    LoadEntriesAgree(ps);
    StoreKeys([], e);
    EntriesAt(ps);
    forall i | 0 <= i < |e| && e[i].1.Some?
      ensures NilFree(e[i].1.value) && DeepDistinct(e[i].1.value)
    {
      NormalizedNilFree(ps[i].value.value);
      NormalizedDistinct(ps[i].value.value);
    }
    StoreValues([], e, NilFree);
    StoreValues([], e, DeepDistinct);
  }
}
