/** The two `exportWriter` implementations (export.go) and `newExportWriter`,
    which picks one by format name. The JSON writer writes straight to the
    file. The CSV writer hands rows to an `encoding/csv` writer, which sits on
    a 4096-byte `bufio` buffer in front of the file and is never flushed. */
module Writers {
  import opened Wrappers
  import opened Values
  import Traversal
  import Seqs

  /** The calls the export driver makes on its writer. */
  datatype Call = Header | LineBreak | Record(record: Fields) | Footer

  /** The library encoders the writers call, left uninterpreted, and the
      order Go happens to pick for the map walks behind each CSV header and
      each CSV data row. */
  datatype Codecs = Codecs(
    marshal: Fields -> Option<string>, // json.Marshal of a record; None when it fails
    cell: Val -> string,               // the text of a CSV cell
    line: seq<string> -> string,       // a CSV row, quoted and comma-separated, without its line end
    headerOrder: Traversal.Order,      // the map order of the walk that builds the header
    rowOrder: Traversal.Order)         // the map order of the walks that build data rows

  /* ---------- Bytes ---------- */

  /** A byte of the file. */
  type Byte = b: int | 0 <= b < 0x100

  /** The UTF-8 encoding of one character: the bytes a Go string holds for it. */
  function Utf8Char(c: char): (r: seq<Byte>)
    ensures 1 <= |r| <= 4
    ensures |r| == 1 <==> (c as int) < 0x80
  {
    var n := c as int;
    if n < 0x80 then [n]
    else if n < 0x800 then [0xC0 + n / 0x40, 0x80 + n % 0x40]
    else if n < 0x1_0000 then [0xE0 + n / 0x1000, 0x80 + n / 0x40 % 0x40, 0x80 + n % 0x40]
    else [0xF0 + n / 0x4_0000, 0x80 + n / 0x1000 % 0x40, 0x80 + n / 0x40 % 0x40, 0x80 + n % 0x40]
  }

  /** The bytes of a string. */
  function Utf8(s: string): seq<Byte>
  {
    if |s| == 0 then [] else Utf8(s[..|s| - 1]) + Utf8Char(s[|s| - 1])
  }

  lemma {:induction false} Utf8Append(a: string, b: string)
    ensures Utf8(a + b) == Utf8(a) + Utf8(b)
    decreases |b|
  {
    if |b| > 0 {
      var front := b[..|b| - 1];
      assert (a + b)[..|a + b| - 1] == a + front;
      Utf8Append(a, front);
    } else {
      assert a + b == a;
    }
  }

  /** A string takes at least one and at most four bytes per character, and
      exactly one per character precisely when it is all ASCII. */
  lemma {:induction false} Utf8Length(s: string)
    ensures |s| <= |Utf8(s)| <= 4 * |s|
    ensures |Utf8(s)| == |s| <==> forall i :: 0 <= i < |s| ==> (s[i] as int) < 0x80
    decreases |s|
  {
    if |s| > 0 {
      var front := s[..|s| - 1];
      Utf8Length(front);
      if |Utf8(s)| == |s| {
        forall i | 0 <= i < |s| ensures (s[i] as int) < 0x80 {
          if i < |front| {
            assert s[i] == front[i];
          }
        }
      }
      if forall i :: 0 <= i < |s| ==> (s[i] as int) < 0x80 {
        assert forall i :: 0 <= i < |front| ==> front[i] == s[i];
      }
    }
  }

  /* ---------- The bufio buffer in front of the CSV file ---------- */

  /** The size of the buffer `csv.NewWriter` puts in front of the file, in bytes. */
  const BufferSize: nat := 4096

  /** The bytes that have reached the file, and those still in the buffer. */
  datatype Sink = Sink(file: seq<Byte>, buf: seq<Byte>)

  /** Every byte handed to the buffered writer so far. */
  function Content(s: Sink): seq<Byte>
  {
    s.file + s.buf
  }

  predicate Fits(s: Sink)
  {
    |s.buf| <= BufferSize
  }

  /** `bufio.Writer.Write`: bytes that fit are buffered; otherwise the buffer
      is topped up and flushed, or, when it is empty, the bytes go to the file
      directly. Nothing is lost or reordered, and the file only grows. */
  function WriteBytes(s: Sink, p: seq<Byte>): (r: Sink)
    requires Fits(s)
    ensures Fits(r)
    ensures Content(r) == Content(s) + p
    ensures s.file <= r.file
    ensures |s.buf| + |p| <= BufferSize ==> r.file == s.file
    decreases |p|, |s.buf|
  {
    if |p| <= BufferSize - |s.buf| then Sink(s.file, s.buf + p)
    else if |s.buf| == 0 then Sink(s.file + p, [])
    else
      var n := BufferSize - |s.buf|;
      WriteBytes(Sink(s.file + s.buf + p[..n], []), p[n..])
  }

  /** `bufio.Writer.WriteString`: the same as writing the string's UTF-8
      bytes, so a character may be split between the file and the buffer. */
  function WriteString(s: Sink, p: string): (r: Sink)
    requires Fits(s)
    ensures Fits(r)
    ensures Content(r) == Content(s) + Utf8(p)
    ensures s.file <= r.file
    ensures |s.buf| + |Utf8(p)| <= BufferSize ==> r.file == s.file
  {
    WriteBytes(s, Utf8(p))
  }

  /** `bufio.Writer.WriteByte`: flushes a full buffer first, then buffers the
      byte, so the byte just written is never in the file yet. */
  function WriteByte(s: Sink, c: Byte): (r: Sink)
    requires Fits(s)
    ensures Fits(r)
    ensures Content(r) == Content(s) + [c]
    ensures |r.buf| > 0 && r.buf[|r.buf| - 1] == c
    ensures s.file <= r.file
  {
    if |s.buf| >= BufferSize then Sink(Content(s), [c]) else Sink(s.file, s.buf + [c])
  }

  /** `bufio.Writer.Flush`. */
  function Flush(s: Sink): (r: Sink)
    ensures r.file == Content(s) && r.buf == []
  {
    Sink(Content(s), [])
  }

  /** `csv.Writer.Write` of one row: its text, then the line end as one byte. */
  function WriteRow(s: Sink, text: string): (r: Sink)
    requires Fits(s)
    ensures Fits(r)
    ensures Content(r) == Content(s) + Utf8(text + "\n")
    ensures |r.buf| > 0
  {
    Utf8Append(text, "\n");
    WriteByte(WriteString(s, text), 10)
  }

  /* ---------- The writers ---------- */

  /** A JSON writer with what it has written, or a CSV writer with its
      `headed` flag and its buffered file. */
  datatype Writer = JsonWriter(out: string) | CsvWriter(headed: bool, sink: Sink)

  predicate Valid(w: Writer)
  {
    w.CsvWriter? ==> Fits(w.sink)
  }

  /** `newExportWriter`: "csv" and "json" give a fresh writer of that format;
      any other name is refused with the message the source panics with. */
  function NewWriter(format: string): (r: Result<Writer>)
    ensures r.Ok? <==> format == "csv" || format == "json"
    ensures r.Ok? ==> Valid(r.value) && (r.value.CsvWriter? <==> format == "csv")
    ensures r.Ok? && r.value.CsvWriter? ==> !r.value.headed && Content(r.value.sink) == []
    ensures r.Ok? && r.value.JsonWriter? ==> r.value.out == ""
    ensures r.Err? ==> r.error == "Unsupported format: " + format
  {
    if format == "csv" then Ok(CsvWriter(false, Sink([], [])))
    else if format == "json" then Ok(JsonWriter(""))
    else Err("Unsupported format: " + format)
  }

  /** One writer call. JSON: `[`, the marshalled record (nothing when
      marshalling fails), `,\n`, `]`. CSV: only records write; the first one
      writes its header row before its data row. */
  function Step(w: Writer, c: Call, codecs: Codecs): (r: Writer)
    requires Valid(w)
    ensures Valid(r)
    ensures w.JsonWriter? <==> r.JsonWriter?
  {
    match w
    case JsonWriter(out) =>
      (match c
       case Header => JsonWriter(out + "[")
       case LineBreak => JsonWriter(out + ",\n")
       case Record(f) => JsonWriter(out + codecs.marshal(f).GetOr(""))
       case Footer => JsonWriter(out + "]"))
    case CsvWriter(headed, sink) =>
      if !c.Record? then w
      else
        var s := if headed then sink else WriteRow(sink, codecs.line(Traversal.ToCSVHeader(c.record, codecs.headerOrder)));
        CsvWriter(true, WriteRow(s, codecs.line(Traversal.ToCSVRecord(c.record, codecs.cell, codecs.rowOrder))))
  }

  /** The writer after a sequence of calls, first call first. */
  function Run(w: Writer, calls: seq<Call>, codecs: Codecs): (r: Writer)
    requires Valid(w)
    ensures Valid(r)
    ensures w.JsonWriter? <==> r.JsonWriter?
  {
    if |calls| == 0 then w
    else Step(Run(w, calls[..|calls| - 1], codecs), calls[|calls| - 1], codecs)
  }

  /** A CSV writer whose footer flushes the buffer; otherwise as `Step`. */
  function StepFlushing(w: Writer, c: Call, codecs: Codecs): (r: Writer)
    requires Valid(w)
    ensures Valid(r)
    ensures w.JsonWriter? <==> r.JsonWriter?
  {
    if w.CsvWriter? && c.Footer? then CsvWriter(w.headed, Flush(w.sink)) else Step(w, c, codecs)
  }

  function RunFlushing(w: Writer, calls: seq<Call>, codecs: Codecs): (r: Writer)
    requires Valid(w)
    ensures Valid(r)
    ensures w.JsonWriter? <==> r.JsonWriter?
  {
    if |calls| == 0 then w
    else StepFlushing(RunFlushing(w, calls[..|calls| - 1], codecs), calls[|calls| - 1], codecs)
  }

  /* ---------- Reference definitions ---------- */

  /** The records passed to `WriterRecord`, in call order. */
  function RecordsIn(calls: seq<Call>): seq<Fields>
  {
    if |calls| == 0 then []
    else
      var c := calls[|calls| - 1];
      RecordsIn(calls[..|calls| - 1]) + if c.Record? then [c.record] else []
  }

  /** The rows a CSV export of `recs` holds: the header of the first record,
      then one data row per record, each walked in the order `codecs` picks. */
  function CsvRows(recs: seq<Fields>, codecs: Codecs): (rows: seq<seq<string>>)
    ensures |rows| == if |recs| == 0 then 0 else |recs| + 1
  {
    if |recs| == 0 then []
    else [Traversal.ToCSVHeader(recs[0], codecs.headerOrder)]
         + seq(|recs|, i requires 0 <= i < |recs| => Traversal.ToCSVRecord(recs[i], codecs.cell, codecs.rowOrder))
  }

  /** The text of the rows, each ended by a newline. */
  function RowsText(rows: seq<seq<string>>, line: seq<string> -> string): string
  {
    if |rows| == 0 then "" else RowsText(rows[..|rows| - 1], line) + line(rows[|rows| - 1]) + "\n"
  }

  /** The bytes of the rows of `recs`: what a complete CSV export holds. */
  function CsvBytes(recs: seq<Fields>, codecs: Codecs): seq<Byte>
  {
    Utf8(RowsText(CsvRows(recs, codecs), codecs.line))
  }

  lemma CsvRowsSnoc(recs: seq<Fields>, f: Fields, codecs: Codecs)
    requires |recs| > 0
    ensures CsvRows(recs + [f], codecs) == CsvRows(recs, codecs) + [Traversal.ToCSVRecord(f, codecs.cell, codecs.rowOrder)]
  {
    var a := CsvRows(recs + [f], codecs);
    var b := CsvRows(recs, codecs) + [Traversal.ToCSVRecord(f, codecs.cell, codecs.rowOrder)];
    assert |a| == |b|;
    forall i | 0 <= i < |a| ensures a[i] == b[i] {
      if i > 0 && i <= |recs| {
        assert (recs + [f])[i - 1] == recs[i - 1];
      }
    }
  }

  /** Appending a row appends its bytes and a line end. */
  lemma RowsBytesSnoc(rows: seq<seq<string>>, r: seq<string>, line: seq<string> -> string)
    ensures Utf8(RowsText(rows + [r], line)) == Utf8(RowsText(rows, line)) + Utf8(line(r) + "\n")
  {
    assert (rows + [r])[..|rows|] == rows;
    assert RowsText(rows + [r], line) == RowsText(rows, line) + (line(r) + "\n");
    Utf8Append(RowsText(rows, line), line(r) + "\n");
  }

  lemma RecordsInSnoc(calls: seq<Call>, c: Call)
    ensures RecordsIn(calls + [c]) == RecordsIn(calls) + if c.Record? then [c.record] else []
  {
    assert (calls + [c])[..|calls|] == calls;
  }

  /* ---------- CSV output ---------- */

  /** A CSV export: `WriteHeader`, `WriteLineBreak` and `WriteFooter` write
      nothing; what is handed to the buffered writer is the bytes of the header
      row of the first record followed by one data row per record, so `k >= 1`
      records give `k + 1` rows and none give none. */
  lemma {:induction false} CsvOutput(calls: seq<Call>, codecs: Codecs)
    ensures var w := Run(CsvWriter(false, Sink([], [])), calls, codecs);
            && w.CsvWriter?
            && (w.headed <==> |RecordsIn(calls)| > 0)
            && Content(w.sink) == CsvBytes(RecordsIn(calls), codecs)
            && (|RecordsIn(calls)| > 0 ==> |w.sink.buf| > 0)
  {
    CsvRun(calls, codecs);
  }

  lemma {:induction false} CsvRun(calls: seq<Call>, codecs: Codecs)
    ensures HoldsRows(Run(CsvWriter(false, Sink([], [])), calls, codecs), RecordsIn(calls), codecs)
    decreases |calls|
  {
    if |calls| > 0 {
      CsvRun(calls[..|calls| - 1], codecs);
      CsvRunStep(calls, codecs);
    }
  }

  /** A CSV writer holding the bytes of `recs`, with a non-empty buffer once
      a record is written. */
  predicate HoldsRows(w: Writer, recs: seq<Fields>, codecs: Codecs)
  {
    && w.CsvWriter? && Fits(w.sink)
    && (w.headed <==> |recs| > 0)
    && Content(w.sink) == CsvBytes(recs, codecs)
    && (|recs| > 0 ==> |w.sink.buf| > 0)
  }

  lemma CsvRunStep(calls: seq<Call>, codecs: Codecs)
    requires |calls| > 0
    requires HoldsRows(Run(CsvWriter(false, Sink([], [])), calls[..|calls| - 1], codecs),
                       RecordsIn(calls[..|calls| - 1]), codecs)
    ensures HoldsRows(Run(CsvWriter(false, Sink([], [])), calls, codecs), RecordsIn(calls), codecs)
  {
    var init := calls[..|calls| - 1];
    var c := calls[|calls| - 1];
    var w0 := Run(CsvWriter(false, Sink([], [])), init, codecs);
    assert Run(CsvWriter(false, Sink([], [])), calls, codecs) == Step(w0, c, codecs);
    assert RecordsIn(calls) == RecordsIn(init) + if c.Record? then [c.record] else [];
    CsvStep(w0, c, RecordsIn(init), codecs);
  }

  /** One call keeps a CSV writer holding the bytes of the records so far. */
  lemma CsvStep(w0: Writer, c: Call, recs: seq<Fields>, codecs: Codecs)
    requires HoldsRows(w0, recs, codecs)
    ensures HoldsRows(Step(w0, c, codecs), recs + if c.Record? then [c.record] else [], codecs)
  {
    if c.Record? && |recs| == 0 {
      CsvBytesNone(codecs);
      CsvFirstRecord(w0, c.record, codecs);
      assert recs + [c.record] == [c.record];
    } else if c.Record? {
      CsvNextRecord(w0, c.record, recs, codecs);
    } else {
      assert recs + [] == recs;
    }
  }

  /** The first record: its header row and its data row. */
  lemma CsvFirstRecord(w0: Writer, f: Fields, codecs: Codecs)
    requires w0.CsvWriter? && Fits(w0.sink) && !w0.headed && Content(w0.sink) == []
    ensures var r := Step(w0, Record(f), codecs);
            && r.CsvWriter? && r.headed && |r.sink.buf| > 0
            && Content(r.sink) == CsvBytes([f], codecs)
  {
    WriteRecord(w0, f, codecs);
    CsvBytesFirst(f, codecs);
  }

  /** A later record: its data row after the bytes of the records before. */
  lemma CsvNextRecord(w0: Writer, f: Fields, recs: seq<Fields>, codecs: Codecs)
    requires w0.CsvWriter? && Fits(w0.sink) && w0.headed && |recs| > 0
    requires Content(w0.sink) == CsvBytes(recs, codecs)
    ensures var r := Step(w0, Record(f), codecs);
            && r.CsvWriter? && r.headed && |r.sink.buf| > 0
            && Content(r.sink) == CsvBytes(recs + [f], codecs)
  {
    WriteRecord(w0, f, codecs);
    CsvBytesSnoc(recs, f, codecs);
  }

  lemma CsvBytesNone(codecs: Codecs)
    ensures CsvBytes([], codecs) == []
  {
  }

  /** What a CSV writer hands to its buffer for one record. */
  lemma WriteRecord(w0: Writer, f: Fields, codecs: Codecs)
    requires w0.CsvWriter? && Fits(w0.sink)
    ensures var r := Step(w0, Record(f), codecs);
            && r.CsvWriter? && r.headed && |r.sink.buf| > 0
            && Content(r.sink)
               == Content(w0.sink)
                  + (if w0.headed then [] else Utf8(codecs.line(Traversal.ToCSVHeader(f, codecs.headerOrder)) + "\n"))
                  + Utf8(codecs.line(Traversal.ToCSVRecord(f, codecs.cell, codecs.rowOrder)) + "\n")
  {
    var hdr := codecs.line(Traversal.ToCSVHeader(f, codecs.headerOrder));
    var row := codecs.line(Traversal.ToCSVRecord(f, codecs.cell, codecs.rowOrder));
    var s := if w0.headed then w0.sink else WriteRow(w0.sink, hdr);
    assert Content(s) == Content(w0.sink) + (if w0.headed then [] else Utf8(hdr + "\n"));
    assert Step(w0, Record(f), codecs) == CsvWriter(true, WriteRow(s, row));
  }

  /** The bytes of one more record: its data row, after the header row of
      its own fields when it is the first. */
  lemma CsvBytesSnoc(recs: seq<Fields>, f: Fields, codecs: Codecs)
    ensures CsvBytes(recs + [f], codecs)
         == (if |recs| == 0 then Utf8(codecs.line(Traversal.ToCSVHeader(f, codecs.headerOrder)) + "\n")
             else CsvBytes(recs, codecs))
            + Utf8(codecs.line(Traversal.ToCSVRecord(f, codecs.cell, codecs.rowOrder)) + "\n")
  {
    if |recs| == 0 {
      CsvBytesFirst(f, codecs);
      assert recs + [f] == [f];
    } else {
      CsvRowsSnoc(recs, f, codecs);
      RowsBytesSnoc(CsvRows(recs, codecs), Traversal.ToCSVRecord(f, codecs.cell, codecs.rowOrder), codecs.line);
    }
  }

  lemma CsvBytesFirst(f: Fields, codecs: Codecs)
    ensures CsvBytes([f], codecs)
         == Utf8(codecs.line(Traversal.ToCSVHeader(f, codecs.headerOrder)) + "\n")
            + Utf8(codecs.line(Traversal.ToCSVRecord(f, codecs.cell, codecs.rowOrder)) + "\n")
  {
    var hdr := Traversal.ToCSVHeader(f, codecs.headerOrder);
    var row := Traversal.ToCSVRecord(f, codecs.cell, codecs.rowOrder);
    var rows := CsvRows([f], codecs);
    assert rows == [hdr, row];
    var line := codecs.line;
    assert [hdr, row][..1] == [hdr] && [hdr][..0] == [];
    assert RowsText([hdr], line) == "" + line(hdr) + "\n";
    assert RowsText(rows, line) == (line(hdr) + "\n") + (line(row) + "\n");
    Utf8Append(line(hdr) + "\n", line(row) + "\n");
  }

  /** The source never flushes the CSV writer, so the file misses the tail of
      the export: once a record is written the file is a strict prefix of the
      rows' bytes, and an export of at most 4096 bytes leaves the file empty. */
  lemma CsvFileIncomplete(calls: seq<Call>, codecs: Codecs)
    requires |RecordsIn(calls)| > 0
    ensures var w := Run(CsvWriter(false, Sink([], [])), calls, codecs);
            var rows := CsvBytes(RecordsIn(calls), codecs);
            && w.CsvWriter?
            && w.sink.file < rows
            && (|rows| <= BufferSize ==> w.sink.file == [])
  {
    CsvOutput(calls, codecs);
    var rows := CsvBytes(RecordsIn(calls), codecs);
    if |rows| <= BufferSize {
      CsvFileStaysEmpty(calls, codecs, |rows|);
    }
  }

  /** While at most `n <= BufferSize` bytes have been handed over, none of
      them has reached the file. */
  lemma {:induction false} CsvFileStaysEmpty(calls: seq<Call>, codecs: Codecs, n: nat)
    requires n <= BufferSize
    requires |Content(Run(CsvWriter(false, Sink([], [])), calls, codecs).sink)| <= n
    ensures Run(CsvWriter(false, Sink([], [])), calls, codecs).sink.file == []
    decreases |calls|
  {
    if |calls| > 0 {
      var init := calls[..|calls| - 1];
      var c := calls[|calls| - 1];
      var w := Run(CsvWriter(false, Sink([], [])), init, codecs);
      var r := Step(w, c, codecs);
      assert |Content(w.sink)| <= |Content(r.sink)|;
      CsvFileStaysEmpty(init, codecs, n);
      if c.Record? {
        var h := codecs.line(Traversal.ToCSVHeader(c.record, codecs.headerOrder));
        var s := if w.headed then w.sink else WriteRow(w.sink, h);
        var t := codecs.line(Traversal.ToCSVRecord(c.record, codecs.cell, codecs.rowOrder));
        assert |Content(s)| <= |Content(r.sink)|;
        if !w.headed {
          SmallWriteRow(w.sink, h);
        }
        SmallWriteRow(s, t);
      }
    }
  }

  /** A row that still fits in the buffer leaves the file alone. */
  lemma SmallWriteRow(s: Sink, text: string)
    requires Fits(s)
    requires |Content(s)| + |Utf8(text + "\n")| <= BufferSize
    ensures WriteRow(s, text).file == s.file
  {
    Utf8Append(text, "\n");
    var t := WriteString(s, text);
    assert |t.buf| <= |Content(t)| - |t.file|;
  }

  /** With a footer that flushes, an export that ends with `WriteFooter` leaves
      exactly the header row and the data rows in the file. */
  lemma {:induction false} CsvOutputFlushed(calls: seq<Call>, codecs: Codecs)
    requires |calls| > 0 && calls[|calls| - 1] == Footer
    requires forall i :: 0 <= i < |calls| - 1 ==> !calls[i].Footer?
    ensures var w := RunFlushing(CsvWriter(false, Sink([], [])), calls, codecs);
            && w.CsvWriter?
            && w.sink.file == CsvBytes(RecordsIn(calls), codecs)
            && w.sink.buf == []
  {
    var init := calls[..|calls| - 1];
    FlushingAgrees(init, codecs);
    CsvOutput(init, codecs);
    RecordsInSnoc(init, Footer);
    assert init + [Footer] == calls;
    assert RecordsIn(calls) == RecordsIn(init);
    var w0 := Run(CsvWriter(false, Sink([], [])), init, codecs);
    assert RunFlushing(CsvWriter(false, Sink([], [])), calls, codecs) == CsvWriter(w0.headed, Flush(w0.sink));
  }

  /** Without a footer, the flushing writer makes the same buffered writes. */
  lemma {:induction false} FlushingAgrees(calls: seq<Call>, codecs: Codecs)
    requires forall i :: 0 <= i < |calls| ==> !calls[i].Footer?
    ensures RunFlushing(CsvWriter(false, Sink([], [])), calls, codecs)
         == Run(CsvWriter(false, Sink([], [])), calls, codecs)
    decreases |calls|
  {
    if |calls| > 0 {
      FlushingAgrees(calls[..|calls| - 1], codecs);
    }
  }

  /* ---------- What `newExportWriter` gives ---------- */

  /** The text the JSON writer puts out for one call. */
  function JsonPiece(codecs: Codecs): Call -> string
  {
    (c: Call) =>
      match c
      case Header => "["
      case LineBreak => ",\n"
      case Record(f) => codecs.marshal(f).GetOr("")
      case Footer => "]"
  }

  /** The JSON text of a run of calls: the piece of each call, glued in call
      order. */
  function JsonText(calls: seq<Call>, codecs: Codecs): string
  {
    Seqs.Flatten(Seqs.MapSeq(JsonPiece(codecs), calls))
  }

  lemma JsonTextSnoc(a: seq<Call>, c: Call, codecs: Codecs)
    ensures JsonText(a + [c], codecs) == JsonText(a, codecs) + JsonPiece(codecs)(c)
  {
    var f := JsonPiece(codecs);
    Seqs.MapSeqAppend(f, a, [c]);
    assert Seqs.MapSeq(f, [c]) == [f(c)];
    Seqs.FlattenAppend(Seqs.MapSeq(f, a), [f(c)]);
    assert [f(c)][1..] == [];
  }

  /** A fresh JSON writer puts out exactly the JSON text of the calls. */
  lemma {:induction false} JsonRun(calls: seq<Call>, codecs: Codecs)
    ensures Run(JsonWriter(""), calls, codecs).out == JsonText(calls, codecs)
    decreases |calls|
  {
    if |calls| == 0 {
      assert Seqs.MapSeq(JsonPiece(codecs), calls) == [];
    } else {
      var init := calls[..|calls| - 1];
      var c := calls[|calls| - 1];
      JsonRun(init, codecs);
      JsonTextSnoc(init, c, codecs);
      assert init + [c] == calls;
    }
  }

  /** Whichever writer `newExportWriter` picks turns the driver's calls into
      its format. The CSV writer holds the UTF-8 rows of the records. The
      JSON writer puts out the text of every call in call order: "[" for the
      header, ",\n" for a line break, the marshalled record, "]" for the
      footer. */
  lemma NewWriterOutput(format: string, calls: seq<Call>, codecs: Codecs)
    requires NewWriter(format).Ok?
    ensures format == "csv" ==>
              Content(Run(NewWriter(format).value, calls, codecs).sink) == CsvBytes(RecordsIn(calls), codecs)
    ensures format == "json" ==> Run(NewWriter(format).value, calls, codecs).out == JsonText(calls, codecs)
  {
    if format == "csv" {
      CsvOutput(calls, codecs);
    } else {
      JsonRun(calls, codecs);
    }
  }
}
