/** The data handled by the export: raw datastore property values as the
    client library hands them over, and the plain values the export writes. */
module Values {
  import opened Wrappers
  import Decimal

  /** A datastore key. Only its name and numeric ID matter to the export;
      kind, namespace and parent are not read. */
  datatype Key = Key(name: string, id: Decimal.int64)

  /** A value with no further structure as far as the export is concerned.
      Floats, times, byte blobs and geo points pass through unexamined and are
      carried by an opaque rendering. */
  datatype Scalar = Bool(b: bool) | Int(i: Decimal.int64) | Text(s: string) | Other(repr: string)

  /** `datastore.Property`: a name and a possibly nil value. */
  datatype Property = Property(name: string, value: Option<Raw>)

  /** A non-nil value as the datastore client delivers it. */
  datatype Raw =
    | Plain(scalar: Scalar)        // anything not listed below
    | Ref(key: Key)                // *datastore.Key
    | Entity(props: seq<Property>) // *datastore.Entity, a nested entity
    | Slice(items: seq<Option<Raw>>) // []interface{}, elements may be nil
    | Prop(prop: Property)         // a datastore.Property handed over whole

  /** A value after export normalization. `Nil` is the nil that a property
      with a nil value normalizes to. A key resolves to a Go string, the same
      `Leaf(Text(...))` a string property gives. */
  datatype Val =
    | Leaf(scalar: Scalar)
    | Nil
    | List(items: seq<Val>)
    | Map(fields: seq<(string, Val)>)

  /** The contents of one exported record: Go's `map[string]interface{}`. */
  type Fields = seq<(string, Val)>

  /** No nil anywhere inside the value. */
  predicate NilFree(v: Val)
  {
    match v
    case Nil => false
    case List(items) => forall i :: 0 <= i < |items| ==> NilFree(items[i])
    case Map(fields) => forall i :: 0 <= i < |fields| ==> NilFree(fields[i].1)
    case _ => true
  }

  /** Every map inside the value binds each key at most once. */
  predicate DeepDistinct(v: Val)
  {
    match v
    case List(items) => forall i :: 0 <= i < |items| ==> DeepDistinct(items[i])
    case Map(fields) =>
      && (forall i, j :: 0 <= i < j < |fields| ==> fields[i].0 != fields[j].0)
      && (forall i :: 0 <= i < |fields| ==> DeepDistinct(fields[i].1))
    case _ => true
  }

  /** Every property nested anywhere in the value carries a non-nil value,
      which holds of everything the datastore client hands over: it never
      nests a `datastore.Property` inside another value. */
  predicate PropsHaveValues(r: Raw)
  {
    match r
    case Entity(props) =>
      forall i :: 0 <= i < |props| && props[i].value.Some? ==> PropsHaveValues(props[i].value.value)
    case Slice(items) =>
      forall i :: 0 <= i < |items| && items[i].Some? ==> PropsHaveValues(items[i].value)
    case Prop(p) => p.value.Some? && PropsHaveValues(p.value.value)
    case _ => true
  }
}
