/** The `export-kind` driver (export.go `ExportKindCmd.Execute`): the kind is
    read page by page with `Offset(offset).Limit(1000)` until a page comes back
    empty, and every record is handed to the writer followed by a line break,
    with one more line break before every page after the first. */
module Export {
  import opened Wrappers
  import opened Values
  import opened Seqs
  import Strings
  import Normalize
  import opened Writers
  import opened Client

  /** The query limit of one page. */
  const PageSize: nat := 1000

  /** The records of a page as `GetAll` delivers them: each entity's
      properties loaded into a fresh record. */
  function Records(src: seq<seq<Property>>): (recs: seq<Fields>)
    ensures |recs| == |src|
  {
    seq(|src|, i requires 0 <= i < |src| => Normalize.Load(None, src[i]))
  }

  lemma RecordsSlice(src: seq<seq<Property>>, lo: nat, hi: nat)
    requires lo <= hi <= |src|
    ensures Records(src[lo..hi]) == Records(src)[lo..hi]
  {
  }

  /** `GetAll` with `Offset(offset)` and `Limit(PageSize)`: the records of
      the entities from `offset` on, at most a page of them. */
  method Fetch(src: seq<seq<Property>>, offset: nat) returns (batch: seq<Fields>)
    requires offset <= |src|
    ensures batch == Records(src)[offset..Min(offset + PageSize, |src|)]
  {
    batch := Records(src[offset..Min(offset + PageSize, |src|)]);
    RecordsSlice(src, offset, Min(offset + PageSize, |src|));
  }

  /* ---------- The call trace the source produces ---------- */

  /** The calls for one page: every record is followed by a line break. */
  function PageCalls(page: seq<Fields>): seq<Call>
  {
    if |page| == 0 then []
    else PageCalls(page[..|page| - 1]) + [Record(page[|page| - 1])] + [LineBreak]
  }

  /** The calls for a run of pages: each page after the first is preceded
      by an extra line break. */
  function Body(pages: seq<seq<Fields>>): seq<Call>
  {
    if |pages| == 0 then []
    else
      Body(pages[..|pages| - 1]) + (if |pages| > 1 then [LineBreak] else [])
      + PageCalls(pages[|pages| - 1])
  }

  /** The calls of a complete export of `recs`, pages of `PageSize` records. */
  function Planned(recs: seq<Fields>): seq<Call>
  {
    [Header] + Body(Chunks(recs, PageSize)) + [Footer]
  }

  /** The loop over one fetched page (export.go, the inner `for`): the test
      `i != len(batch)` always holds, so every record gets a line break. */
  method WritePage(page: seq<Fields>) returns (calls: seq<Call>)
    ensures calls == PageCalls(page)
  {
    calls := [];
    var i := 0;
    while i < |page|
      invariant i <= |page|
      invariant calls == PageCalls(page[..i])
    {
      calls := calls + [Record(page[i])];
      if i != |page| {
        calls := calls + [LineBreak];
      }
      assert page[..i + 1][..i] == page[..i];
      i := i + 1;
    }
    assert page[..|page|] == page;
  }

  /** One more fetched page extends the trace by its calls, after a line
      break unless it is the first page. */
  lemma {:induction false} AdvanceAsWritten(recs: seq<Fields>, offset: nat, m: nat, page: seq<Fields>)
    requires offset == m * PageSize
    requires 0 < |page| <= PageSize && offset + |page| <= |recs|
    requires page == recs[offset..offset + |page|]
    ensures Body(Chunks(recs[..offset + |page|], PageSize))
         == Body(Chunks(recs[..offset], PageSize)) + (if offset > 0 then [LineBreak] else [])
            + PageCalls(page)
  {
    ChunksSnoc(recs, PageSize, m, |page|);
    var pages := Chunks(recs[..offset], PageSize);
    BodySnoc(pages, page);
    ChunksNone(recs[..offset], PageSize);
  }

  /** One more page is one more block of calls, after a line break unless
      it is the first. */
  lemma BodySnoc(pages: seq<seq<Fields>>, page: seq<Fields>)
    ensures Body(pages + [page])
         == Body(pages) + (if |pages| > 0 then [LineBreak] else []) + PageCalls(page)
  {
    assert (pages + [page])[..|pages|] == pages;
  }

  /** What one fetch at `offset` tells the loop: an empty page only at the
      end; otherwise a page that starts at a whole number of pages, after
      which the page count and the offset advance together. */
  lemma FetchStep(n: nat, offset: nat, fetches: nat)
    requires offset <= n && fetches == CeilDiv(offset, PageSize)
    requires offset == fetches * PageSize || offset == n
    ensures fetches <= CeilDiv(n, PageSize)
    ensures var b := Min(offset + PageSize, n) - offset;
            && 0 <= b <= PageSize
            && (b == 0 <==> offset == n)
            && (b > 0 ==> offset == fetches * PageSize
                          && fetches + 1 == CeilDiv(offset + b, PageSize)
                          && (offset + b == (fetches + 1) * PageSize || offset + b == n))
  {
    CeilDivMono(offset, n, PageSize);
    var b := Min(offset + PageSize, n) - offset;
    if b > 0 {
      CeilDivStep(fetches, PageSize, b);
    }
  }

  /** The loop body for a page fetched at `offset`: a line break unless it
      is the first page, then the page. It hands over the page's records in
      order, with one line break per record plus one before every page but
      the first, and no header or footer. */
  method WriteFetched(batch: seq<Fields>, offset: nat) returns (calls: seq<Call>)
    ensures calls == (if offset != 0 then [LineBreak] else []) + PageCalls(batch)
    ensures RecordsIn(calls) == batch
    ensures Counts(calls, 0, |batch| + (if offset != 0 then 1 else 0), 0)
  {
    calls := [];
    if offset != 0 {
      calls := [LineBreak];
    }
    SepContents(offset != 0);
    var page := WritePage(batch);
    PageContents(batch);
    RecordsInAppend(calls, page);
    CountsAppend(calls, page);
    calls := calls + page;
  }

  /** Where the loop stands before a fetch: `offset` of the `n` entities
      read, a whole number `fetches` of pages unless all of them. */
  predicate Paged(n: nat, fetches: nat, offset: nat)
  {
    && offset <= n
    && fetches == CeilDiv(offset, PageSize)
    && (offset == fetches * PageSize || offset == n)
  }

  /** A non-empty page read at `offset` keeps the paging. */
  lemma PagedStep(n: nat, fetches: nat, offset: nat, b: nat)
    requires Paged(n, fetches, offset)
    requires 0 < b && b == Min(offset + PageSize, n) - offset
    ensures offset == fetches * PageSize
    ensures Paged(n, fetches + 1, offset + b)
  {
    FetchStep(n, offset, fetches);
  }

  /** The loop state of the source's export: besides the paging, the calls
      so far are those of the records read. */
  ghost predicate Progress(recs: seq<Fields>, calls: seq<Call>, fetches: nat, offset: nat)
  {
    && Paged(|recs|, fetches, offset)
    && calls == [Header] + Body(Chunks(recs[..offset], PageSize))
  }

  /** The trace part of the loop state after a non-empty page. */
  lemma {:induction false} TraceAdvance(recs: seq<Fields>, calls: seq<Call>, offset: nat, m: nat, batch: seq<Fields>, more: seq<Call>)
    requires offset == m * PageSize
    requires 0 < |batch| <= PageSize && offset + |batch| <= |recs| && batch == recs[offset..offset + |batch|]
    requires calls == [Header] + Body(Chunks(recs[..offset], PageSize))
    requires more == (if offset != 0 then [LineBreak] else []) + PageCalls(batch)
    ensures calls + more == [Header] + Body(Chunks(recs[..offset + |batch|], PageSize))
  {
    var sep: seq<Call> := if offset != 0 then [LineBreak] else [];
    AdvanceAsWritten(recs, offset, m, batch);
    Associate([Header], Body(Chunks(recs[..offset], PageSize)), sep, PageCalls(batch));
  }

  /** A non-empty fetched page keeps the loop state: the trace becomes the
      trace of the longer prefix. */
  lemma AdvanceExport(recs: seq<Fields>, calls: seq<Call>, fetches: nat, offset: nat,
                      batch: seq<Fields>, more: seq<Call>)
    requires Progress(recs, calls, fetches, offset)
    requires batch == recs[offset..Min(offset + PageSize, |recs|)] && |batch| > 0
    requires more == (if offset != 0 then [LineBreak] else []) + PageCalls(batch)
    ensures Progress(recs, calls + more, fetches + 1, offset + |batch|)
  {
    PagedStep(|recs|, fetches, offset, |batch|);
    TraceAdvance(recs, calls, offset, fetches, batch, more);
  }

  /** One pass of the paging loop in `ExportKindCmd.Execute`: the fetch of
      the page at `offset`, which either fails, comes back empty (the state
      stays) or delivers the next records, which are written after a line
      break unless they are the first page. */
  method ExportStep(src: seq<seq<Property>>, failure: Option<Failure>,
                    calls: seq<Call>, fetches: nat, offset: nat)
      returns (calls': seq<Call>, fetches': nat, offset': nat, read: nat, err: Option<string>)
    requires Progress(Records(src), calls, fetches, offset)
    ensures err.Some? <==> failure.Some? && failure.value.at == fetches
    ensures err.Some? ==>
              err.value == failure.value.error && calls' == calls && fetches' == fetches && offset' == offset
    ensures err.None? ==>
              && fetches' == fetches + 1
              && (read == 0 <==> offset == |src|)
              && offset' == offset + read
              && (read == 0 ==> calls' == calls)
              && (read > 0 ==> Progress(Records(src), calls', fetches', offset'))
  {
    if failure.Some? && failure.value.at == fetches {
      return calls, fetches, offset, 0, Some(failure.value.error);
    }
    calls', offset', read := ReadPage(src, calls, fetches, offset);
    fetches' := fetches + 1;
    err := None;
  }

  /** The successful fetch of the page at `offset` and the writing of what
      it delivered. */
  method ReadPage(src: seq<seq<Property>>, calls: seq<Call>, fetches: nat, offset: nat)
      returns (calls': seq<Call>, offset': nat, read: nat)
    requires Progress(Records(src), calls, fetches, offset)
    ensures read == 0 <==> offset == |src|
    ensures offset' == offset + read
    ensures read == 0 ==> calls' == calls
    ensures read > 0 ==> Progress(Records(src), calls', fetches + 1, offset')
  {
    FetchStep(|src|, offset, fetches);
    var batch := Fetch(src, offset);
    read := |batch|;
    calls', offset' := calls, offset;
    if read != 0 {
      calls' := WriteBatch(Records(src), calls, fetches, offset, batch);
      offset' := offset + read;
    }
  }

  /** Writing a non-empty page keeps the loop state. */
  method WriteBatch(recs: seq<Fields>, calls: seq<Call>, fetches: nat, offset: nat, batch: seq<Fields>)
      returns (calls': seq<Call>)
    requires Progress(recs, calls, fetches, offset)
    requires batch == recs[offset..Min(offset + PageSize, |recs|)] && |batch| > 0
    ensures Progress(recs, calls', fetches + 1, offset + |batch|)
  {
    var more := WriteFetched(batch, offset);
    AdvanceExport(recs, calls, fetches, offset, batch, more);
    calls' := calls + more;
  }

  /** `ExportKindCmd.Execute` from `WriteHeader` to `WriteFooter`, over the
      entities `src` of the kind in query order. `failure` names the
      `GetAll` call that fails, if any; the export then stops at once, without
      a footer. On success the writer gets the planned calls, the offset ends
      at the number of entities and one fetch more than there are pages is
      made: the loop stops on an empty page, not on a short one. */
  method ExportKind(src: seq<seq<Property>>, failure: Option<Failure>)
      returns (calls: seq<Call>, fetches: nat, offset: nat, err: Option<string>)
    ensures err.None? <==> failure.None? || failure.value.at > CeilDiv(|src|, PageSize)
    ensures err.None? ==>
              && calls == Planned(Records(src))
              && offset == |src|
              && fetches == CeilDiv(|src|, PageSize) + 1
    ensures err.Some? ==>
              && err.value == failure.value.error
              && fetches == failure.value.at
              && offset <= |src|
              && fetches == CeilDiv(offset, PageSize)
              && calls == [Header] + Body(Chunks(Records(src)[..offset], PageSize))
  {
    calls := [Header];
    err := None;
    var read: int := -1;
    offset := 0;
    fetches := 0;
    while read != 0
      invariant read != 0 ==> Progress(Records(src), calls, fetches, offset)
      invariant read == 0 ==> fetches > 0 && offset == |src| && Progress(Records(src), calls, fetches - 1, offset)
      invariant err.None?
      invariant failure.None? || failure.value.at >= fetches
      decreases |src| - offset, if read == 0 then 0 else 1
    {
      FetchStep(|src|, offset, fetches);
      var n: nat;
      calls, fetches, offset, n, err := ExportStep(src, failure, calls, fetches, offset);
      if err.Some? {
        return;
      }
      read := n;
    }
    ghost var recs := Records(src);
    assert calls + [Footer] == Planned(recs) by {
      assert recs[..offset] == recs;
    }
    calls := calls + [Footer];
  }

  lemma Associate(h: seq<Call>, a: seq<Call>, b: seq<Call>, c: seq<Call>)
    ensures (h + a) + (b + c) == h + (a + b + c)
  {
  }

  /* ---------- What the trace contains ---------- */

  /** How many times call `c` occurs. */
  function Count(calls: seq<Call>, c: Call): nat
  {
    if |calls| == 0 then 0
    else Count(calls[..|calls| - 1], c) + if calls[|calls| - 1] == c then 1 else 0
  }

  lemma {:induction false} CountAppend(a: seq<Call>, b: seq<Call>, c: Call)
    ensures Count(a + b, c) == Count(a, c) + Count(b, c)
    decreases |b|
  {
    if |b| == 0 {
      assert a + b == a;
    } else {
      CountAppend(a, b[..|b| - 1], c);
      assert (a + b)[..|a + b| - 1] == a + b[..|b| - 1];
    }
  }

  lemma {:induction false} RecordsInAppend(a: seq<Call>, b: seq<Call>)
    ensures RecordsIn(a + b) == RecordsIn(a) + RecordsIn(b)
    decreases |b|
  {
    if |b| == 0 {
      assert a + b == a;
    } else {
      RecordsInAppend(a, b[..|b| - 1]);
      assert (a + b)[..|a + b| - 1] == a + b[..|b| - 1];
    }
  }

  /** A single call: a record hands over its record, and it counts once. */
  lemma OneCall(c: Call)
    ensures RecordsIn([c]) == if c.Record? then [c.record] else []
    ensures Count([c], Header) == if c == Header then 1 else 0
    ensures Count([c], LineBreak) == if c == LineBreak then 1 else 0
    ensures Count([c], Footer) == if c == Footer then 1 else 0
  {
    assert [c][..0] == [];
  }

  /** The three counts a trace is checked for. */
  predicate Counts(calls: seq<Call>, headers: nat, breaks: nat, footers: nat)
  {
    Count(calls, Header) == headers && Count(calls, LineBreak) == breaks && Count(calls, Footer) == footers
  }

  lemma CountsAppend(a: seq<Call>, b: seq<Call>)
    ensures Count(a + b, Header) == Count(a, Header) + Count(b, Header)
    ensures Count(a + b, LineBreak) == Count(a, LineBreak) + Count(b, LineBreak)
    ensures Count(a + b, Footer) == Count(a, Footer) + Count(b, Footer)
  {
    CountAppend(a, b, Header);
    CountAppend(a, b, LineBreak);
    CountAppend(a, b, Footer);
  }

  /** A page hands over its records in order, with one line break each and
      no header or footer. */
  lemma {:induction false} PageContents(page: seq<Fields>)
    ensures RecordsIn(PageCalls(page)) == page
    ensures Counts(PageCalls(page), 0, |page|, 0)
  {
    PageRecords(page);
    PageCounts(page);
  }

  lemma {:induction false} PageRecords(page: seq<Fields>)
    ensures RecordsIn(PageCalls(page)) == page
    decreases |page|
  {
    if |page| > 0 {
      var init := page[..|page| - 1];
      var r := page[|page| - 1];
      var a := PageCalls(init);
      PageRecords(init);
      RecordThenBreak(a, r);
      assert init + [r] == page;
    }
  }

  /** A record followed by a line break adds just that record. */
  lemma RecordThenBreak(a: seq<Call>, r: Fields)
    ensures RecordsIn(a + [Record(r)] + [LineBreak]) == RecordsIn(a) + [r]
  {
    var b := a + [Record(r)];
    assert (b + [LineBreak])[..|b|] == b;
    assert b[..|a|] == a;
  }

  lemma {:induction false} PageCounts(page: seq<Fields>)
    ensures Counts(PageCalls(page), 0, |page|, 0)
    decreases |page|
  {
    if |page| > 0 {
      var init := page[..|page| - 1];
      var r := page[|page| - 1];
      var a := PageCalls(init);
      PageCounts(init);
      OneCall(Record(r));
      OneCall(LineBreak);
      CountsAppend(a, [Record(r)]);
      CountsAppend(a + [Record(r)], [LineBreak]);
    }
  }

  /** A run of pages hands over the concatenated records in order, with one
      line break per record plus one between pages. */
  lemma BodyContents(pages: seq<seq<Fields>>)
    ensures RecordsIn(Body(pages)) == Flatten(pages)
    ensures Counts(Body(pages), 0, |Flatten(pages)| + (if |pages| == 0 then 0 else |pages| - 1), 0)
  {
    BodyRecords(pages);
    BodyCounts(pages);
  }

  lemma {:induction false} BodyRecords(pages: seq<seq<Fields>>)
    ensures RecordsIn(Body(pages)) == Flatten(pages)
    decreases |pages|
  {
    if |pages| > 0 {
      var init := pages[..|pages| - 1];
      var last := pages[|pages| - 1];
      var sep: seq<Call> := if |pages| > 1 then [LineBreak] else [];
      assert Body(pages) == Body(init) + sep + PageCalls(last);
      BodyRecords(init);
      PageContents(last);
      FlattenSnoc(pages);
      RecordsInAppend(Body(init) + sep, PageCalls(last));
      RecordsInAppend(Body(init), sep);
      SepContents(|pages| > 1);
    }
  }

  lemma {:induction false} BodyCounts(pages: seq<seq<Fields>>)
    ensures Counts(Body(pages), 0, |Flatten(pages)| + (if |pages| == 0 then 0 else |pages| - 1), 0)
    decreases |pages|
  {
    if |pages| > 0 {
      var init := pages[..|pages| - 1];
      var last := pages[|pages| - 1];
      var sep: seq<Call> := if |pages| > 1 then [LineBreak] else [];
      assert Body(pages) == Body(init) + sep + PageCalls(last);
      BodyCounts(init);
      PageContents(last);
      FlattenSnoc(pages);
      CountsAppend(Body(init) + sep, PageCalls(last));
      CountsAppend(Body(init), sep);
      SepContents(|pages| > 1);
    }
  }

  lemma {:induction false} FlattenSnoc(pages: seq<seq<Fields>>)
    requires |pages| > 0
    ensures Flatten(pages) == Flatten(pages[..|pages| - 1]) + pages[|pages| - 1]
  {
    var init := pages[..|pages| - 1];
    var last := pages[|pages| - 1];
    assert init + [last] == pages;
    FlattenAppend(init, [last]);
    assert Flatten([last]) == last;
  }

  lemma SepContents(b: bool)
    ensures var sep: seq<Call> := if b then [LineBreak] else [];
            RecordsIn(sep) == [] && Counts(sep, 0, if b then 1 else 0, 0)
  {
    OneCall(LineBreak);
  }

  /** A complete export hands every record to the writer exactly once, in
      source order; `WriteHeader` opens and `WriteFooter` closes the trace,
      once each; `WriteLineBreak` is called once per record plus once per page
      boundary: `n + ceil(n / 1000) - 1` times for `n > 0` records, never for
      none. */
  lemma PlannedContents(recs: seq<Fields>)
    ensures RecordsIn(Planned(recs)) == recs
    ensures Planned(recs)[0] == Header && Planned(recs)[|Planned(recs)| - 1] == Footer
    ensures Counts(Planned(recs), 1, if |recs| == 0 then 0 else |recs| + CeilDiv(|recs|, PageSize) - 1, 1)
  {
    var pages := Chunks(recs, PageSize);
    var body := Body(pages);
    var breaks := if |recs| == 0 then 0 else |recs| + CeilDiv(|recs|, PageSize) - 1;
    assert RecordsIn(body) == recs && Counts(body, 0, breaks, 0) by {
      ChunksShape(recs, PageSize);
      BodyContents(pages);
    }
    Framed(body);
  }

  /** A header and a footer around a body add no record and count once each. */
  lemma Framed(body: seq<Call>)
    ensures RecordsIn([Header] + body + [Footer]) == RecordsIn(body)
    ensures Count([Header] + body + [Footer], Header) == Count(body, Header) + 1
    ensures Count([Header] + body + [Footer], LineBreak) == Count(body, LineBreak)
    ensures Count([Header] + body + [Footer], Footer) == Count(body, Footer) + 1
  {
    RecordsInAppend([Header], body);
    RecordsInAppend([Header] + body, [Footer]);
    CountsAppend([Header], body);
    CountsAppend([Header] + body, [Footer]);
    OneCall(Header);
    OneCall(Footer);
  }

  /* ---------- JSON output ---------- */

  /** The text a record contributes: its JSON, or nothing when marshalling
      fails. */
  function Obj(r: Fields, codecs: Codecs): string
  {
    codecs.marshal(r).GetOr("")
  }

  function Objs(recs: seq<Fields>, codecs: Codecs): (objs: seq<string>)
    ensures |objs| == |recs|
  {
    seq(|recs|, i requires 0 <= i < |recs| => Obj(recs[i], codecs))
  }

  /** The text of a page as written: every record's JSON followed by `,\n`. */
  function Terminated(page: seq<Fields>, codecs: Codecs): string
  {
    if |page| == 0 then ""
    else Terminated(page[..|page| - 1], codecs) + Obj(page[|page| - 1], codecs) + ",\n"
  }

  function PageTexts(pages: seq<seq<Fields>>, codecs: Codecs): (texts: seq<string>)
    ensures |texts| == |pages|
  {
    seq(|pages|, i requires 0 <= i < |pages| => Terminated(pages[i], codecs))
  }

  lemma {:induction false} RunAppend(w: Writer, a: seq<Call>, b: seq<Call>, codecs: Codecs)
    requires Valid(w)
    ensures Run(w, a + b, codecs) == Run(Run(w, a, codecs), b, codecs)
    decreases |b|
  {
    if |b| == 0 {
      assert a + b == a;
    } else {
      var front := b[..|b| - 1];
      var c := b[|b| - 1];
      RunAppend(w, a, front, codecs);
      assert b == front + [c];
      assert a + b == (a + front) + [c];
      RunSnoc(w, a + front, c, codecs);
      RunSnoc(Run(w, a, codecs), front, c, codecs);
    }
  }

  lemma RunSnoc(w: Writer, a: seq<Call>, c: Call, codecs: Codecs)
    requires Valid(w)
    ensures Run(w, a + [c], codecs) == Step(Run(w, a, codecs), c, codecs)
  {
    assert (a + [c])[..|a|] == a;
  }

  /** The JSON text of one page. */
  lemma {:induction false} JsonPage(out: string, page: seq<Fields>, codecs: Codecs)
    ensures Run(JsonWriter(out), PageCalls(page), codecs) == JsonWriter(out + Terminated(page, codecs))
    decreases |page|
  {
    if |page| > 0 {
      var init := page[..|page| - 1];
      var r := page[|page| - 1];
      JsonPage(out, init, codecs);
      RunSnoc(JsonWriter(out), PageCalls(init), Record(r), codecs);
      RunSnoc(JsonWriter(out), PageCalls(init) + [Record(r)], LineBreak, codecs);
    }
  }

  /** The JSON text of a run of pages: the page texts joined by `,\n`. */
  lemma {:induction false} JsonBody(out: string, pages: seq<seq<Fields>>, codecs: Codecs)
    ensures Run(JsonWriter(out), Body(pages), codecs)
         == JsonWriter(out + Strings.JoinWith(PageTexts(pages, codecs), ",\n"))
    decreases |pages|, 0
  {
    if |pages| > 0 {
      var init := pages[..|pages| - 1];
      var last := pages[|pages| - 1];
      var sep: seq<Call> := if |pages| > 1 then [LineBreak] else [];
      var prefix := if |pages| > 1 then Strings.JoinWith(PageTexts(init, codecs), ",\n") + ",\n" else "";
      assert Strings.JoinWith(PageTexts(pages, codecs), ",\n") == prefix + Terminated(last, codecs) by {
        var texts := PageTexts(pages, codecs);
        assert texts[..|texts| - 1] == PageTexts(init, codecs);
      }
      assert Run(JsonWriter(out), Body(init) + sep, codecs) == JsonWriter(out + prefix) by {
        JsonSep(out, init, sep, codecs);
      }
      assert Run(JsonWriter(out), Body(pages), codecs) == Run(JsonWriter(out + prefix), PageCalls(last), codecs) by {
        assert Body(pages) == Body(init) + sep + PageCalls(last);
        RunAppend(JsonWriter(out), Body(init) + sep, PageCalls(last), codecs);
      }
      JsonPage(out + prefix, last, codecs);
      Strings.Regroup(out, prefix, Terminated(last, codecs));
    }
  }

  /** The text before a page: the earlier pages, then a separator unless
      there are none. */
  lemma JsonSep(out: string, init: seq<seq<Fields>>, sep: seq<Call>, codecs: Codecs)
    requires sep == if |init| > 0 then [LineBreak] else []
    ensures Run(JsonWriter(out), Body(init) + sep, codecs)
         == if |init| > 0 then JsonWriter(out + Strings.JoinWith(PageTexts(init, codecs), ",\n") + ",\n")
            else JsonWriter(out)
    decreases |init|, 1
  {
    if |init| > 0 {
      JsonBody(out, init, codecs);
      RunSnoc(JsonWriter(out), Body(init), LineBreak, codecs);
    } else {
      assert Body(init) + sep == [];
    }
  }

  /** The JSON file of a complete export: `[`, the page texts joined by
      `,\n`, `]`, where every record's JSON is followed by `,\n`, a record
      whose marshalling fails leaves only its separator, and consecutive pages
      are joined by one more separator. */
  lemma JsonOutput(recs: seq<Fields>, codecs: Codecs)
    ensures Run(JsonWriter(""), Planned(recs), codecs).out
         == "[" + Strings.JoinWith(PageTexts(Chunks(recs, PageSize), codecs), ",\n") + "]"
  {
    var pages := Chunks(recs, PageSize);
    assert Planned(recs) == [Header] + Body(pages) + [Footer];
    JsonFramed("", Body(pages), codecs);
    assert "" + "[" == "[";
    JsonBody("[", pages, codecs);
  }

  /** Header and footer put `[` and `]` around the text of the calls between. */
  lemma JsonFramed(out: string, body: seq<Call>, codecs: Codecs)
    ensures Run(JsonWriter(out), [Header] + body + [Footer], codecs)
         == JsonWriter(Run(JsonWriter(out + "["), body, codecs).out + "]")
  {
    assert [] + [Header] == [Header];
    RunSnoc(JsonWriter(out), [], Header, codecs);
    RunAppend(JsonWriter(out), [Header], body, codecs);
    RunSnoc(JsonWriter(out), [Header] + body, Footer, codecs);
  }

  lemma TerminatedEnds(page: seq<Fields>, codecs: Codecs)
    requires |page| > 0
    ensures Strings.HasSuffix(Terminated(page, codecs), ",\n")
  {
  }

  /** A join ends with its last part. */
  lemma JoinWithLast(parts: seq<string>, sep: string)
    requires |parts| > 0
    ensures Strings.HasSuffix(Strings.JoinWith(parts, sep), parts[|parts| - 1])
  {
  }

  lemma SuffixTrans(a: string, b: string, c: string)
    requires Strings.HasSuffix(a, b) && Strings.HasSuffix(b, c)
    ensures Strings.HasSuffix(a, c)
  {
    assert a[|a| - |c|..] == b[|b| - |c|..];
  }

  lemma JoinedEnds(pages: seq<seq<Fields>>, codecs: Codecs)
    requires |pages| > 0 && |pages[|pages| - 1]| > 0
    ensures Strings.HasSuffix(Strings.JoinWith(PageTexts(pages, codecs), ",\n"), ",\n")
  {
    var texts := PageTexts(pages, codecs);
    TerminatedEnds(pages[|pages| - 1], codecs);
    JoinWithLast(texts, ",\n");
    SuffixTrans(Strings.JoinWith(texts, ",\n"), texts[|texts| - 1], ",\n");
  }

  lemma Bracketed(joined: string)
    requires Strings.HasSuffix(joined, ",\n")
    ensures Strings.HasSuffix("[" + joined + "]", ",\n]")
  {
    var out := "[" + joined + "]";
    assert out[|out| - 3..] == joined[|joined| - 2..] + "]";
  }

  /** Hence the JSON file of an empty kind is `[]`, and that of a non-empty
      kind ends in `,\n]`: a separator right before the closing bracket. */
  lemma JsonEnds(recs: seq<Fields>, codecs: Codecs)
    ensures |recs| == 0 ==> Run(JsonWriter(""), Planned(recs), codecs).out == "[]"
    ensures |recs| > 0 ==> Strings.HasSuffix(Run(JsonWriter(""), Planned(recs), codecs).out, ",\n]")
  {
    JsonOutput(recs, codecs);
    var pages := Chunks(recs, PageSize);
    var texts := PageTexts(pages, codecs);
    var joined := Strings.JoinWith(texts, ",\n");
    if |recs| > 0 {
      assert |pages| > 0 && |pages[|pages| - 1]| > 0 by {
        ChunksShape(recs, PageSize);
      }
      JoinedEnds(pages, codecs);
      Bracketed(joined);
    } else {
      assert pages == [];
      assert joined == "";
    }
  }

  /* ---------- The corrected loop ---------- */

  /** The calls with a line break between consecutive records only. */
  function Alternate(recs: seq<Fields>): seq<Call>
  {
    if |recs| == 0 then []
    else
      Alternate(recs[..|recs| - 1]) + (if |recs| > 1 then [LineBreak] else [])
      + [Record(recs[|recs| - 1])]
  }

  /** The page loop with the evidently intended test `i != len(batch)-1`:
      no line break after the page's last record. */
  method WritePageCorrected(page: seq<Fields>) returns (calls: seq<Call>)
    ensures calls == Alternate(page)
  {
    calls := [];
    var i := 0;
    while i < |page|
      invariant i <= |page|
      invariant calls == Alternate(page[..i]) + (if 0 < i < |page| then [LineBreak] else [])
    {
      calls := calls + [Record(page[i])];
      if i != |page| - 1 {
        calls := calls + [LineBreak];
      }
      assert page[..i + 1][..i] == page[..i];
      i := i + 1;
    }
    assert page[..|page|] == page;
  }

  /** Alternating runs join with a single line break. */
  lemma {:induction false} AlternateAppend(a: seq<Fields>, b: seq<Fields>)
    requires |a| > 0 && |b| > 0
    ensures Alternate(a + b) == Alternate(a) + [LineBreak] + Alternate(b)
    decreases |b|
  {
    var ab := a + b;
    assert ab[..|ab| - 1] == a + b[..|b| - 1];
    assert ab[|ab| - 1] == b[|b| - 1];
    if |b| == 1 {
      assert ab[..|ab| - 1] == a;
      assert b[..0] == [];
    } else {
      AlternateAppend(a, b[..|b| - 1]);
    }
  }

  lemma {:induction false} AdvanceCorrected(recs: seq<Fields>, offset: nat, page: seq<Fields>)
    requires 0 < |page| && offset + |page| <= |recs|
    requires page == recs[offset..offset + |page|]
    ensures Alternate(recs[..offset + |page|])
         == Alternate(recs[..offset]) + (if offset > 0 then [LineBreak] else [])
            + Alternate(page)
  {
    assert recs[..offset + |page|] == recs[..offset] + page;
    if offset > 0 {
      AlternateAppend(recs[..offset], page);
    } else {
      assert recs[..offset] == [];
    }
  }

  /** Alternating calls hand over the records in order, with one line break
      fewer than records and no header or footer. */
  lemma {:induction false} AlternateContents(recs: seq<Fields>)
    ensures RecordsIn(Alternate(recs)) == recs
    ensures Counts(Alternate(recs), 0, if |recs| == 0 then 0 else |recs| - 1, 0)
    decreases |recs|
  {
    if |recs| > 0 {
      var init := recs[..|recs| - 1];
      var r := recs[|recs| - 1];
      var a := Alternate(init);
      var sep: seq<Call> := if |recs| > 1 then [LineBreak] else [];
      AlternateContents(init);
      SepContents(|recs| > 1);
      OneCall(Record(r));
      RecordsInAppend(a, sep);
      RecordsInAppend(a + sep, [Record(r)]);
      CountsAppend(a, sep);
      CountsAppend(a + sep, [Record(r)]);
      assert init + [r] == recs;
    }
  }

  /** The corrected loop body for a page fetched at `offset`: its records in
      order, a line break between consecutive records and one before every
      page but the first. */
  method WriteFetchedCorrected(batch: seq<Fields>, offset: nat) returns (calls: seq<Call>)
    ensures calls == (if offset != 0 then [LineBreak] else []) + Alternate(batch)
    ensures RecordsIn(calls) == batch
    ensures Counts(calls, 0, (if |batch| == 0 then 0 else |batch| - 1) + (if offset != 0 then 1 else 0), 0)
  {
    calls := [];
    if offset != 0 {
      calls := [LineBreak];
    }
    SepContents(offset != 0);
    var page := WritePageCorrected(batch);
    AlternateContents(batch);
    RecordsInAppend(calls, page);
    CountsAppend(calls, page);
    calls := calls + page;
  }

  /** The loop state of the corrected export. */
  ghost predicate ProgressCorrected(recs: seq<Fields>, calls: seq<Call>, fetches: nat, offset: nat)
  {
    && Paged(|recs|, fetches, offset)
    && calls == [Header] + Alternate(recs[..offset])
  }

  /** The trace part of the corrected loop state after a non-empty page. */
  lemma {:induction false} TraceAdvanceCorrected(recs: seq<Fields>, calls: seq<Call>, offset: nat, batch: seq<Fields>, more: seq<Call>)
    requires 0 < |batch| && offset + |batch| <= |recs| && batch == recs[offset..offset + |batch|]
    requires calls == [Header] + Alternate(recs[..offset])
    requires more == (if offset != 0 then [LineBreak] else []) + Alternate(batch)
    ensures calls + more == [Header] + Alternate(recs[..offset + |batch|])
  {
    var sep: seq<Call> := if offset != 0 then [LineBreak] else [];
    AdvanceCorrected(recs, offset, batch);
    Associate([Header], Alternate(recs[..offset]), sep, Alternate(batch));
  }

  /** A non-empty fetched page keeps the corrected loop state. */
  lemma AdvanceExportCorrected(recs: seq<Fields>, calls: seq<Call>, fetches: nat, offset: nat,
                               batch: seq<Fields>, more: seq<Call>)
    requires ProgressCorrected(recs, calls, fetches, offset)
    requires batch == recs[offset..Min(offset + PageSize, |recs|)] && |batch| > 0
    requires more == (if offset != 0 then [LineBreak] else []) + Alternate(batch)
    ensures ProgressCorrected(recs, calls + more, fetches + 1, offset + |batch|)
  {
    PagedStep(|recs|, fetches, offset, |batch|);
    TraceAdvanceCorrected(recs, calls, offset, batch, more);
  }

  /** One pass of the corrected paging loop. */
  method ExportStepCorrected(src: seq<seq<Property>>, failure: Option<Failure>,
                             calls: seq<Call>, fetches: nat, offset: nat)
      returns (calls': seq<Call>, fetches': nat, offset': nat, read: nat, err: Option<string>)
    requires ProgressCorrected(Records(src), calls, fetches, offset)
    ensures err.Some? <==> failure.Some? && failure.value.at == fetches
    ensures err.Some? ==>
              err.value == failure.value.error && calls' == calls && fetches' == fetches && offset' == offset
    ensures err.None? ==>
              && fetches' == fetches + 1
              && (read == 0 <==> offset == |src|)
              && offset' == offset + read
              && (read == 0 ==> calls' == calls)
              && (read > 0 ==> ProgressCorrected(Records(src), calls', fetches', offset'))
  {
    if failure.Some? && failure.value.at == fetches {
      return calls, fetches, offset, 0, Some(failure.value.error);
    }
    calls', offset', read := ReadPageCorrected(src, calls, fetches, offset);
    fetches' := fetches + 1;
    err := None;
  }

  /** The successful fetch of the page at `offset` and the writing of what
      it delivered. */
  method ReadPageCorrected(src: seq<seq<Property>>, calls: seq<Call>, fetches: nat, offset: nat)
      returns (calls': seq<Call>, offset': nat, read: nat)
    requires ProgressCorrected(Records(src), calls, fetches, offset)
    ensures read == 0 <==> offset == |src|
    ensures offset' == offset + read
    ensures read == 0 ==> calls' == calls
    ensures read > 0 ==> ProgressCorrected(Records(src), calls', fetches + 1, offset')
  {
    FetchStep(|src|, offset, fetches);
    var batch := Fetch(src, offset);
    read := |batch|;
    calls', offset' := calls, offset;
    if read != 0 {
      calls' := WriteBatchCorrected(Records(src), calls, fetches, offset, batch);
      offset' := offset + read;
    }
  }

  /** Writing a non-empty page keeps the loop state. */
  method WriteBatchCorrected(recs: seq<Fields>, calls: seq<Call>, fetches: nat, offset: nat, batch: seq<Fields>)
      returns (calls': seq<Call>)
    requires ProgressCorrected(recs, calls, fetches, offset)
    requires batch == recs[offset..Min(offset + PageSize, |recs|)] && |batch| > 0
    ensures ProgressCorrected(recs, calls', fetches + 1, offset + |batch|)
  {
    var more := WriteFetchedCorrected(batch, offset);
    AdvanceExportCorrected(recs, calls, fetches, offset, batch, more);
    calls' := calls + more;
  }

  /** The export with the corrected page loop. Page boundaries keep their
      single line break, so the writer sees the records separated by exactly
      one line break each, whatever the paging. */
  method ExportKindCorrected(src: seq<seq<Property>>, failure: Option<Failure>)
      returns (calls: seq<Call>, fetches: nat, offset: nat, err: Option<string>)
    ensures err.None? <==> failure.None? || failure.value.at > CeilDiv(|src|, PageSize)
    ensures err.None? ==>
              && calls == [Header] + Alternate(Records(src)) + [Footer]
              && offset == |src|
              && fetches == CeilDiv(|src|, PageSize) + 1
    ensures err.Some? ==>
              && err.value == failure.value.error
              && fetches == failure.value.at
              && offset <= |src|
              && calls == [Header] + Alternate(Records(src)[..offset])
  {
    calls := [Header];
    err := None;
    var read: int := -1;
    offset := 0;
    fetches := 0;
    while read != 0
      invariant read != 0 ==> ProgressCorrected(Records(src), calls, fetches, offset)
      invariant read == 0 ==> fetches > 0 && offset == |src| && ProgressCorrected(Records(src), calls, fetches - 1, offset)
      invariant err.None?
      invariant failure.None? || failure.value.at >= fetches
      decreases |src| - offset, if read == 0 then 0 else 1
    {
      FetchStep(|src|, offset, fetches);
      var n: nat;
      calls, fetches, offset, n, err := ExportStepCorrected(src, failure, calls, fetches, offset);
      if err.Some? {
        return;
      }
      read := n;
    }
    ghost var recs := Records(src);
    assert calls == [Header] + Alternate(recs) by {
      assert recs[..offset] == recs;
    }
    calls := calls + [Footer];
  }

  /** With the corrected loop, the JSON file is `[`, the records' JSON joined
      by `,\n`, `]`: a JSON array whenever every record marshals. */
  lemma CorrectedJson(recs: seq<Fields>, codecs: Codecs)
    ensures Run(JsonWriter(""), [Header] + Alternate(recs) + [Footer], codecs).out
         == "[" + Strings.JoinWith(Objs(recs, codecs), ",\n") + "]"
  {
    JsonFramed("", Alternate(recs), codecs);
    assert "" + "[" == "[";
    JsonAlternate("[", recs, codecs);
  }

  lemma {:induction false} JsonAlternate(out: string, recs: seq<Fields>, codecs: Codecs)
    ensures Run(JsonWriter(out), Alternate(recs), codecs)
         == JsonWriter(out + Strings.JoinWith(Objs(recs, codecs), ",\n"))
    decreases |recs|
  {
    if |recs| == 0 {
      assert out + "" == out;
    } else if |recs| == 1 {
      assert Alternate(recs) == [] + [Record(recs[0])];
      RunSnoc(JsonWriter(out), [], Record(recs[0]), codecs);
      assert Strings.JoinWith(Objs(recs, codecs), ",\n") == Obj(recs[0], codecs);
    } else {
      var init := recs[..|recs| - 1];
      var r := recs[|recs| - 1];
      var prev := Strings.JoinWith(Objs(init, codecs), ",\n");
      var calls := Alternate(init) + [LineBreak];
      assert Alternate(recs) == calls + [Record(r)];
      assert Run(JsonWriter(out), calls + [Record(r)], codecs) == JsonWriter(out + prev + ",\n" + Obj(r, codecs)) by {
        JsonAlternate(out, init, codecs);
        RunSnoc(JsonWriter(out), Alternate(init), LineBreak, codecs);
        RunSnoc(JsonWriter(out), calls, Record(r), codecs);
      }
      JoinObjs(recs, codecs);
      Strings.Associate(out, prev, ",\n", Obj(r, codecs));
    }
  }

  /** The joined texts of `recs`: those of all but the last, a separator,
      the last one. */
  lemma JoinObjs(recs: seq<Fields>, codecs: Codecs)
    requires |recs| > 1
    ensures Strings.JoinWith(Objs(recs, codecs), ",\n")
         == Strings.JoinWith(Objs(recs[..|recs| - 1], codecs), ",\n") + ",\n" + Obj(recs[|recs| - 1], codecs)
  {
    var objs := Objs(recs, codecs);
    assert objs[..|objs| - 1] == Objs(recs[..|recs| - 1], codecs);
  }

  /** The source's trailing separator, shown on one record whose JSON is
      `{}`: the loop as written produces `[{},\n]`, which is not JSON, where
      the corrected loop produces `[{}]`. */
  lemma TrailingSeparator(r: Fields, codecs: Codecs)
    requires codecs.marshal(r) == Some("{}")
    ensures Run(JsonWriter(""), Planned([r]), codecs).out == "[{},\n]"
    ensures Run(JsonWriter(""), [Header] + Alternate([r]) + [Footer], codecs).out == "[{}]"
  {
    JsonOutput([r], codecs);
    assert Chunks([r], PageSize) == [[r]];
    assert [r][..0] == [];
    assert Terminated([r], codecs) == "{},\n";
    assert PageTexts([[r]], codecs) == ["{},\n"];
    CorrectedJson([r], codecs);
    assert Objs([r], codecs) == ["{}"];
  }
}
