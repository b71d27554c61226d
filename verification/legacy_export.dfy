/** The older `ExportKindCmd.Execute` in main.go: the whole kind is read with
    one `GetAll` and written as a JSON array, a `first` flag deciding where a
    `,\n` goes. A record that fails to marshal is skipped and leaves no
    separator behind. */
module LegacyExport {
  import opened Wrappers
  import opened Values
  import Strings
  import Export
  import opened Writers

  /** The JSON texts of the records that marshal, in record order. */
  function Marshalled(recs: seq<Fields>, marshal: Fields -> Option<string>): (texts: seq<string>)
    ensures |texts| <= |recs|
  {
    if |recs| == 0 then []
    else
      var last := marshal(recs[|recs| - 1]);
      Marshalled(recs[..|recs| - 1], marshal) + (if last.Some? then [last.value] else [])
  }

  /** The file written for `recs`: `[`, the marshalled records joined by
      `,\n`, `]`. A separator precedes every emitted record except the first,
      and a skipped record writes nothing. */
  method WriteArray(recs: seq<Fields>, marshal: Fields -> Option<string>) returns (out: string)
    ensures out == "[" + Strings.JoinWith(Marshalled(recs, marshal), ",\n") + "]"
  {
    out := "[";
    var first := true;
    var i := 0;
    while i < |recs|
      invariant i <= |recs|
      invariant first <==> |Marshalled(recs[..i], marshal)| == 0
      invariant out == "[" + Strings.JoinWith(Marshalled(recs[..i], marshal), ",\n")
    {
      assert recs[..i + 1][..i] == recs[..i];
      var b := marshal(recs[i]);
      if b.None? {
        assert Marshalled(recs[..i + 1], marshal) == Marshalled(recs[..i], marshal);
        i := i + 1;
        continue;
      }
      ghost var done := Marshalled(recs[..i], marshal);
      assert Marshalled(recs[..i + 1], marshal) == done + [b.value];
      assert (done + [b.value])[..|done|] == done;
      if !first {
        assert Strings.JoinWith(done + [b.value], ",\n") == Strings.JoinWith(done, ",\n") + ",\n" + b.value;
        out := out + ",\n";
      }
      out := out + b.value;
      first := false;
      i := i + 1;
    }
    assert recs[..i] == recs;
    out := out + "]";
  }

  /** The command after the client is opened: a failing `GetAll` (its error
      `failure`) returns before any file is written; otherwise the loaded
      entities are written as one array. */
  method ExportAll(src: seq<seq<Property>>, failure: Option<string>, marshal: Fields -> Option<string>)
      returns (file: Option<string>, err: Option<string>)
    ensures failure.Some? ==> file.None? && err == failure
    ensures failure.None? ==>
              && err.None?
              && file == Some("[" + Strings.JoinWith(Marshalled(Export.Records(src), marshal), ",\n") + "]")
  {
    if failure.Some? {
      return None, failure;
    }
    var out := WriteArray(Export.Records(src), marshal);
    return Some(out), None;
  }

  /** When every record marshals, the older command writes the same array
      as the paged export with the corrected page loop. */
  lemma {:induction false} AgreesWithCorrected(recs: seq<Fields>, codecs: Codecs)
    requires forall i :: 0 <= i < |recs| ==> codecs.marshal(recs[i]).Some?
    ensures "[" + Strings.JoinWith(Marshalled(recs, codecs.marshal), ",\n") + "]"
         == Run(JsonWriter(""), [Header] + Export.Alternate(recs) + [Footer], codecs).out
  {
    AllMarshalled(recs, codecs);
    Export.CorrectedJson(recs, codecs);
  }

  lemma {:induction false} AllMarshalled(recs: seq<Fields>, codecs: Codecs)
    requires forall i :: 0 <= i < |recs| ==> codecs.marshal(recs[i]).Some?
    ensures Marshalled(recs, codecs.marshal) == Export.Objs(recs, codecs)
    decreases |recs|
  {
    if |recs| > 0 {
      var init := recs[..|recs| - 1];
      AllMarshalled(init, codecs);
      assert Export.Objs(recs, codecs) == Export.Objs(init, codecs) + [Export.Obj(recs[|recs| - 1], codecs)];
    }
  }
}
