/** Printed indexes that point at colons: one that reads right, and two whose slices answer with what no record of
    the file says. */
module SliceInputs {
  import opened Ascii
  import opened Sorting
  import opened Snapshots
  import opened Records
  import opened RecordText
  import opened Merging
  import opened IdxSearch
  import opened Lookup
  import opened LookupTheorems
  import opened Heads
  import opened Pieces
  import opened Publication
  import opened IndexPublication
  import opened Provenance
  import opened DatScan
  import Cipher
  import Framing
  import IdxText

  // ---- books of a DAT and a printed index -----------------------------------------------------

  type Lines = seq<(IdxText.Entry, nat)>

  function Files(plain: Bytes, lines: Lines): Shard {
    var buf := IdxText.PrintedFile(lines);
    Shard(IdxFile(buf, IdxText.TableFrom(buf, 0)), Cipher.DecodeAt(0, plain), None, None, None, None)
  }

  function Book(plain: Bytes, lines: Lines): CallBook { CallBook(Some(Files(plain, lines))) }

  ghost predicate InOrder(plain: Bytes, lines: Lines) {
    && IdxText.PrintableLines(lines) && |IdxText.PrintedFile(lines)| <= 0x1_0000_0000
    && (forall i | 0 <= i < |lines| :: IdxText.ShortKey(lines[i].0))
    && KeysStrictlyAscend(IdxText.EntriesOf(lines)) && OffsetsAscend(IdxText.EntriesOf(lines))
    && |plain| < Cipher.TWO63
  }

  lemma BookOpens(plain: Bytes, lines: Lines)
    requires InOrder(plain, lines)
    ensures var db := Book(plain, lines);
            && OpenedBook(db) && PrintedIndex(db.v2.value.idx, lines)
            && Rows(db.v2.value.idx) == IdxText.EntriesOf(lines)
  {
    hide IdxText.PrintedFile, IdxText.TableFrom, IdxText.PrintableLines, IdxText.ShortKey, OffsetsAscend,
      Cipher.DecodeByte, Le;
    IdxText.PrintedRoundTrip(lines);
    forall i, j | 0 <= i < j < |lines|
      ensures Le(IdxText.EntriesOf(lines)[i].key, IdxText.EntriesOf(lines)[j].key)
    {
      assert Lt(IdxText.EntriesOf(lines)[i].key, IdxText.EntriesOf(lines)[j].key);
    }
  }

  /** When one entry names the query, what is merged is what that entry answers. */
  lemma OneEntryNames(plain: Bytes, lines: Lines, q: Bytes, e: IdxText.Entry)
    requires InOrder(plain, lines) && IsQuery(q)
    requires Filter((e: IdxText.Entry) => NamesCall(e, q), IdxText.EntriesOf(lines)) == [e]
    ensures var db := Book(plain, lines);
            && OpenedBook(db) && UsCurrent(db, q).None?
            && Arrivals(db, q) == EntrySnapshots(db.v2.value, q, e)
  {
    hide InOrder, EntrySnapshots, KeysStrictlyAscend, NamesCall, Filter, BareRun, ColonRun, IdxText.PrintedFile,
      IdxText.TableFrom, AllCallBytes, Valid, Rows, KeysAscend;
    BookOpens(plain, lines);
    BookIsPlain(plain, lines, q);
    NoColon(q);
    var s := Files(plain, lines);
    FindCallsignStrict(Rows(s.idx), q);
    assert [e][1..] == [];
    assert EntriesSnapshots(s, q, [e]) == EntrySnapshots(s, q, e) + [];
  }

  lemma BookIsPlain(plain: Bytes, lines: Lines, q: Bytes)
    ensures var db := Book(plain, lines);
            db.v2.Some? && UsCurrent(db, q).None? && HciSnapshots(db.v2.value, q) == []
  {
    hide IdxText.PrintedFile, IdxText.TableFrom, Cipher.DecodeByte;
  }

  lemma SlicePlain(plain: Bytes, lo: nat, hi: nat)
    requires lo <= hi <= |plain|
    ensures var dat := Cipher.DecodeAt(0, plain);
            |dat| == |plain| && Cipher.DecodeAt(lo, dat[lo..hi]) == plain[lo..hi]
  {
    hide Cipher.DecodeByte;
    Cipher.DecodeAtInvolution(0, plain);
    Cipher.DecodeSlice(0, Cipher.DecodeAt(0, plain), lo, hi);
  }

  /** The slice of line `k`, decoded. */
  lemma LineAnswers(plain: Bytes, lines: Lines, q: Bytes, k: nat)
    requires InOrder(plain, lines) && k < |lines| && lines[k].0.datOffset < |plain|
    ensures var db, e := Book(plain, lines), lines[k].0;
            var end := SliceEnd(IdxText.EntriesOf(lines), |plain|, k);
            && OpenedBook(db) && e.datOffset < end <= |plain|
            && EntrySnapshots(db.v2.value, q, e)
               == Matched(Segments(plain[e.datOffset..end]), q, IdxContext(db.v2.value, e.key))
  {
    hide InOrder, KeysStrictlyAscend, OffsetsAscend, RawSlice, Cipher.DecodeAt, IdxText.PrintedFile, IdxText.TableFrom,
      Matched, SegmentsFrom, Valid, KeysAscend, Rows;
    BookOpens(plain, lines);
    var es := IdxText.EntriesOf(lines);
    assert es[k] == lines[k].0;
    InOrderKeys(plain, lines);
    SliceExact(es, |plain|, k);
    SlicePlain(plain, lines[k].0.datOffset, SliceEnd(es, |plain|, k));
  }

  lemma InOrderKeys(plain: Bytes, lines: Lines)
    requires InOrder(plain, lines)
    ensures KeysStrictlyAscend(IdxText.EntriesOf(lines)) && OffsetsAscend(IdxText.EntriesOf(lines))
  {
  }

  // ---- short lines ----------------------------------------------------------------------------

  lemma DecimalOfWord(n: nat)
    requires n < 100000
    ensures |Decimal(n)| <= 5
  {
    assert |Decimal(n / 10000)| == 1;
    assert |Decimal(n / 1000)| <= 2;
    assert |Decimal(n / 100)| <= 3;
    assert |Decimal(n / 10)| <= 4;
  }

  /** A call with or without a year makes a printable line with a short key. */
  lemma KeyLine(call: Bytes, year: Option<nat>, offset: nat)
    requires PrintableCall(call) && (year.Some? ==> year.value <= 65535) && offset < 100000
    ensures var e := IdxText.Entry(KeyText(call, year), offset);
            && |e.key| <= 18 && IdxText.Printable(e) && IdxText.ShortKey(e) && |IdxText.PrintedLine(e, 1)| <= 25
  {
    hide Decimal;
    var key := KeyText(call, year);
    KeyTextShape(call, year);
    DecimalOfWord(offset);
    if year.Some? {
      DecimalOfWord(year.value);
    }
    forall i | 0 <= i < |key| ensures key[i] != CR {
      assert IsPrintable(key[i]);
    }
  }

  lemma OneLine(e: IdxText.Entry, plain: Bytes)
    requires IdxText.Printable(e) && IdxText.ShortKey(e) && |IdxText.PrintedLine(e, 1)| <= 25
    requires |plain| < Cipher.TWO63
    ensures InOrder(plain, [(e, 1)]) && IdxText.EntriesOf([(e, 1)]) == [e]
  {
    hide IdxText.PrintedLine, IdxText.Printable, IdxText.ShortKey;
    var lines := [(e, 1)];
    assert lines[1..] == [];
    assert |IdxText.PrintedFile(lines)| <= 27;
  }

  lemma TwoLines(a: IdxText.Entry, b: IdxText.Entry, plain: Bytes)
    requires IdxText.Printable(a) && IdxText.ShortKey(a) && |IdxText.PrintedLine(a, 1)| <= 25
    requires IdxText.Printable(b) && IdxText.ShortKey(b) && |IdxText.PrintedLine(b, 1)| <= 25
    requires Lt(a.key, b.key) && a.datOffset < b.datOffset && |plain| < Cipher.TWO63
    ensures InOrder(plain, [(a, 1), (b, 1)]) && IdxText.EntriesOf([(a, 1), (b, 1)]) == [a, b]
  {
    hide IdxText.PrintedLine, IdxText.Printable, IdxText.ShortKey, Le;
    OneLine(b, plain);
    var lines := [(a, 1), (b, 1)];
    assert lines[1..] == [(b, 1)] && [(b, 1)][1..] == [];
    assert |IdxText.PrintedFile([(b, 1)])| <= 27;
    assert |IdxText.PrintedFile(lines)| <= 54;
  }

  // ---- segments of the slices -------------------------------------------------------------------

  lemma OneSegment(a: Bytes)
    requires a != [] && forall k | 1 <= k < |a| :: a[k] != MARK
    ensures Segments(a) == [a]
  {
    NextMarkUnique(a, 1, |a|);
    assert a[0..|a|] == a && SegmentsFrom(a, |a|) == [];
  }

  lemma TwoSegments(a: Bytes, b: Bytes)
    requires a != [] && (forall k | 1 <= k < |a| :: a[k] != MARK) && IsFramed(b)
    ensures Segments(a + b) == [a, b]
  {
    hide SegmentsFrom, NextMark, IsFramed;
    FramedMarks(b);
    forall k | 1 <= k < |a| ensures (a + b)[k] != MARK {
      assert (a + b)[k] == a[k];
    }
    NextMarkUnique(a + b, 1, |a|);
    SegmentsStep(a + b, 0);
    assert (a + b)[0..|a|] == a;
    SegmentsShift(a + b, b, |a|, 0);
    OneSegment(b);
  }

  lemma FramedMarks(b: Bytes)
    requires IsFramed(b)
    ensures b != [] && b[0] == MARK && forall k | 1 <= k < |b| :: b[k] != MARK
  {
  }

  /** What a slice reads of a record from its colon on, under the call of the index key. */
  lemma SuffixMatches(call: Bytes, keyYear: Option<nat>, year: nat, fields: seq<(Byte, Bytes)>, ctx: Context)
    requires PrintableCall(call) && PrintableFields(fields) && year <= 65535
    requires ctx.defaultKey == Some(KeyText(call, keyYear))
    ensures var rest := SuffixBytes(year, fields)[1..];
            && rest != [] && (forall k | 0 <= k < |rest| :: rest[k] != MARK)
            && MatchedSegment(rest, call, ctx) == [Printed(call, Some(year), fields, ctx)]
  {
    hide PrintableCall, PrintableFields, ParsedSegment, MatchedSegment, SuffixBytes, Printed, KeyText;
    var suffix := SuffixBytes(year, fields);
    SuffixFramed(year, fields);
    SuffixIsRecord(call, Some(year), fields);
    RestParses(suffix, 1, call, keyYear, Some(year), fields, ctx);
    PrintedValues(call, Some(year), fields, ctx, LastName);
    MatchedSegmentFilters(suffix[1..], call, ctx);
  }

  lemma RecordMatches(call: Bytes, ctx: Context)
    requires PrintableCall(call)
    ensures IsFramed(RecordBytes(call, None, []))
    ensures MatchedSegment(RecordBytes(call, None, []), call, ctx) == [Printed(call, None, [], ctx)]
  {
    hide PrintableCall, ParsedSegment, MatchedSegment, RecordBytes, Enrich, AppliedTags;
    NoMarkInside(call, None, []);
    RecordStart(call, None, []);
    PrintedRecordParses(call, None, [], ctx);
    PrintedValues(call, None, [], ctx, LastName);
    MatchedSegmentFilters(RecordBytes(call, None, []), call, ctx);
  }

  // ---- a head that is read under another call ------------------------------------------------------

  function HeadLines(call: Bytes, other: Bytes, year: nat): Lines {
    [(IdxText.Entry(KeyText(other, Some(year)), 1 + |call|), 1)]
  }

  /** A file of one record, `CALL:YYYY` with any fields, and an index of one line that names another call and
      points at the colon of that record. */
  function HeadFiles(call: Bytes, other: Bytes, year: nat, fields: seq<(Byte, Bytes)>): Shard {
    Files(RecordBytes(call, Some(year), fields), HeadLines(call, other, year))
  }

  /** `x` is what some whole record of the file parses to. */
  ghost predicate OnSomeRecord(s: Shard, ctx: Context, p: Span, x: Snapshot) {
    Framing.IsRecord(s.dat, p.start, p.end) && ParsedSegment(Plain(s.dat, p), ctx) == Some(x)
  }

  lemma HeadAnswers(call: Bytes, other: Bytes, year: nat, fields: seq<(Byte, Bytes)>)
    requires PrintableCall(call) && PrintableCall(other) && PrintableFields(fields) && year <= 65535
    requires |RecordBytes(call, Some(year), fields)| < Cipher.TWO63
    ensures var s := HeadFiles(call, other, year, fields);
            && OpenedBook(CallBook(Some(s))) && PrintedIndex(s.idx, HeadLines(call, other, year))
            && UsCurrent(CallBook(Some(s)), other).None?
            && Arrivals(CallBook(Some(s)), other)
               == [Printed(other, Some(year), fields, IdxContext(s, KeyText(other, Some(year))))]
  {
    hide PrintableFields, RecordBytes, SuffixBytes, Printed, KeyText, Files, MatchedSegment, Matched, SegmentsFrom,
      EntrySnapshots, Arrivals, UsCurrent, InOrder, Opened, PrintedIndex, NamesCall, AllCallBytes;
    var plain, lines := RecordBytes(call, Some(year), fields), HeadLines(call, other, year);
    var e := IdxText.Entry(KeyText(other, Some(year)), 1 + |call|);
    KeyLine(other, Some(year), 1 + |call|);
    OneLine(e, plain);
    BookOpens(plain, lines);
    RestIsSuffix(call, year, fields);
    KeyNamesCall(e, other, Some(year));
    assert [e][1..] == [];
    OneEntryNames(plain, lines, other, e);
    LineAnswers(plain, lines, other, 0);
    var ctx, rest := IdxContext(Files(plain, lines), e.key), plain[1 + |call|..];
    assert plain[1 + |call|..|plain|] == rest;
    SuffixMatches(other, Some(year), year, fields, ctx);
    OneSegment(rest);
    MatchedCons(rest, [], other, ctx);
    MatchedNone(other, ctx);
    assert [rest] + [] == [rest];
  }

  lemma OneDated(db: CallBook, q: Bytes, x: Snapshot)
    requires db.v2.Some? ==> Valid(db.v2.value.idx)
    requires UsCurrent(db, q).None? && Arrivals(db, q) == [x] && x.vintage.Some?
    ensures ReportFor(db, q) == LookupResult(q, ArchiveOnly, None, [x])
  {
    hide UsCurrent, Arrivals, Valid;
    var start := Acc(None, []);
    assert [x][..0] == [] && [x][1..] == [];
    assert MergeAll(start, [x][..0]) == start;
    assert MergeStep(start, x).history == [x];
    SortOne(x);
  }

  lemma SortOne(x: Snapshot)
    ensures Sort(HistoryLe, [x]) == [x]
  {
    assert [x][1..] == [];
  }

  /** One record parses to its own call, whatever the context. */
  lemma PrintedOwn(call: Bytes, vintage: Option<nat>, fields: seq<(Byte, Bytes)>, ctx: Context)
    requires PrintableCall(call) && PrintableFields(fields) && (vintage.Some? ==> vintage.value <= 65535)
    ensures var x := ParsedSegment(RecordBytes(call, vintage, fields), ctx);
            x.Some? && x.value.callsign == call && x.value.vintage == vintage
  {
    hide PrintableCall, PrintableFields, ParsedSegment, RecordBytes, Enrich, AppliedTags;
    PrintedRecordParses(call, vintage, fields, ctx);
    PrintedValues(call, vintage, fields, ctx, LastName);
  }

  /** The slice starts in a record of one call and is read under the call of its key: a lookup of that call
      reports the record's vintage and fields as its own, and no record of the file is its. */
  lemma HeadReported(call: Bytes, other: Bytes, year: nat, fields: seq<(Byte, Bytes)>)
    requires PrintableCall(call) && PrintableCall(other) && PrintableFields(fields) && year <= 65535
    requires |RecordBytes(call, Some(year), fields)| < Cipher.TWO63 && call != other
    ensures var s := HeadFiles(call, other, year, fields);
            && OpenedBook(CallBook(Some(s))) && PrintedIndex(s.idx, HeadLines(call, other, year))
            && ReportFor(CallBook(Some(s)), other)
               == LookupResult(other, ArchiveOnly, None,
                               [Printed(other, Some(year), fields, IdxContext(s, KeyText(other, Some(year))))])
            && forall ctx, p, x | OnSomeRecord(s, ctx, p, x) :: x.callsign == call
  {
    hide PrintableFields, RecordBytes, Printed, KeyText, Files, HeadLines, ReportFor, Arrivals, UsCurrent, Opened,
      PrintedIndex, OnSomeRecord, PrintableCall;
    var s := HeadFiles(call, other, year, fields);
    HeadAnswers(call, other, year, fields);
    var x := Printed(other, Some(year), fields, IdxContext(s, KeyText(other, Some(year))));
    PrintedValues(other, Some(year), fields, IdxContext(s, KeyText(other, Some(year))), LastName);
    TableIsValid(CallBook(Some(s)));
    OneDated(CallBook(Some(s)), other, x);
    forall ctx, p, y | OnSomeRecord(s, ctx, p, y) ensures y.callsign == call {
      HeadRecords(call, other, year, fields, ctx, p, y);
    }
  }

  lemma TableIsValid(db: CallBook)
    requires OpenedBook(db)
    ensures db.v2.Some? ==> Valid(db.v2.value.idx)
  {
  }

  lemma HeadRecords(call: Bytes, other: Bytes, year: nat, fields: seq<(Byte, Bytes)>, ctx: Context, p: Span,
                    x: Snapshot)
    requires PrintableCall(call) && PrintableFields(fields) && year <= 65535
    requires OnSomeRecord(HeadFiles(call, other, year, fields), ctx, p, x)
    ensures x.callsign == call
  {
    hide PrintableCall, PrintableFields, ParsedSegment, RecordBytes, HeadLines, Cipher.DecodeAt, Framing.IsSentinel,
      IdxText.TableFrom, IdxText.PrintedFile;
    var r := RecordBytes(call, Some(year), fields);
    EncodedRecordFramed([], call, Some(year), fields, []);
    assert [] + r + [] == r;
    PrintedOwn(call, Some(year), fields, ctx);
    Framing.RecordUnique(HeadFiles(call, other, year, fields).dat, p.start, p.start, p.end, 0, |r|);
  }

  // ---- a head that is read under its own call ---------------------------------------------------------

  lemma PrintedColon(call: Bytes, year: nat, fields: seq<(Byte, Bytes)>)
    requires PrintableCall(call) && PrintableFields(fields)
    ensures var r := RecordBytes(call, Some(year), fields);
            && ColonAt(r) == |call| && HasCallAndColon(r)
  {
    hide PrintableFields, FieldsText, Decimal, IndexOf, PrintableCall, KeyEnd, Trim, AllPrintable;
    var key, r := KeyText(call, Some(year)), RecordBytes(call, Some(year), fields);
    KeyTextShape(call, Some(year));
    PrintedBody(key, fields);
    assert Body(r) == key + FieldsText(fields);
    assert Body(r)[..|key|] == key;
    KeyIsKept(key);
    assert key[|call|] == COLON && forall i | 0 <= i < |call| :: key[i] == call[i];
    NoColonInCall(call);
    forall i | 0 <= i < |call| ensures Body(r)[i] != COLON {
      assert Body(r)[i] == call[i];
    }
    IndexOfUnique(Body(r), COLON, |call|);
  }

  lemma NoColonInCall(call: Bytes)
    requires PrintableCall(call)
    ensures forall i | 0 <= i < |call| :: call[i] != COLON
  {
    CallPrintable(call);
  }

  lemma KeyIsKept(key: Bytes)
    requires AllPrintable(key) && Trimmed(key, {SPACE})
    ensures Trim(key, BLANK) == key
  {
    hide Trim;
    CleanIsIdentity(key);
  }

  /** The one record of the file, and what its line reads of it. */
  lemma OwnHead(call: Bytes, year: nat, fields: seq<(Byte, Bytes)>)
    requires PrintableCall(call) && PrintableFields(fields) && year <= 65535
    requires |RecordBytes(call, Some(year), fields)| < Cipher.TWO63
    ensures var s, e := HeadFiles(call, call, year, fields), HeadLines(call, call, year)[0].0;
            var r := Span(0, |s.dat|);
            && OpenedBook(CallBook(Some(s))) && Rows(s.idx) == [e] && NamesCall(e, call)
            && KeysStrictlyAscend(Rows(s.idx))
            && RawSlice(Rows(s.idx), |s.dat|, e) == Some((1 + |call|, |s.dat|))
            && Framing.IsRecord(s.dat, 0, |s.dat|) && ReadsRecord(s, IdxContext(s, e.key), Span(1 + |call|, |s.dat|))
            && FirstCut(s.dat, 1 + |call|, |s.dat|) == Span(1 + |call|, |s.dat|)
  {
    hide PrintableFields, RecordBytes, KeyText, PrintableCall, InOrder, Opened, NamesCall, RawSlice, ReadsRecord,
      KeysStrictlyAscend, Cipher.DecodeAt, IdxText.TableFrom, IdxText.PrintedFile, ParsedSegment, HasCallAndColon,
      ColonAt, DefaultCall, Framing.IsSentinel, FirstCut, Valid, Rows;
    var plain, lines := RecordBytes(call, Some(year), fields), HeadLines(call, call, year);
    var s, e := HeadFiles(call, call, year, fields), lines[0].0;
    KeyShort(call);
    KeyLine(call, Some(year), 1 + |call|);
    OneLine(e, plain);
    BookOpens(plain, lines);
    InOrderKeys(plain, lines);
    KeyNamesCall(e, call, Some(year));
    RestIsSuffix(call, year, fields);
    assert IdxText.EntriesOf(lines)[0] == e;
    SliceExact([e], |plain|, 0);
    EncodedRecordFramed([], call, Some(year), fields, []);
    assert [] + plain + [] == plain;
    PrintedColon(call, year, fields);
    PrintedOwn(call, Some(year), fields, IdxContext(s, e.key));
    OwnDefault(s, call, year);
    ColonHead(s, IdxContext(s, e.key), 1 + |call|, |s.dat|, Span(0, |s.dat|));
  }

  lemma KeyShort(call: Bytes)
    requires PrintableCall(call)
    ensures 1 <= |call| <= 12
  {
  }

  lemma OwnDefault(s: Shard, call: Bytes, year: nat)
    requires PrintableCall(call)
    ensures DefaultCall(IdxContext(s, KeyText(call, Some(year)))) == Some(call)
  {
    hide KeyText, Before, AllPrintable, Trimmed;
    KeyTextShape(call, Some(year));
    CleanIsIdentity(KeyText(call, Some(year)));
  }

  /** When the line names the record's own call, nothing reads astray and the record is reached: a lookup of the
      call is a scan of the file. */
  lemma OwnHeadIsScanned(call: Bytes, year: nat, fields: seq<(Byte, Bytes)>)
    requires PrintableCall(call) && PrintableFields(fields) && year <= 65535
    requires |RecordBytes(call, Some(year), fields)| < Cipher.TWO63
    ensures var s := HeadFiles(call, call, year, fields);
            && OpenedBook(CallBook(Some(s))) && KeysStrictlyAscend(Rows(s.idx))
            && NothingStrayFor(s, call) && AllReached(s, call)
  {
    hide PrintableFields, RecordBytes, PrintableCall, Opened, NamesCall, RawSlice, ReadsRecord, HeadFiles, KeyText,
      KeysStrictlyAscend, CutAtStart, Framing.IsSentinel, OwnRecord;
    var s, e := HeadFiles(call, call, year, fields), HeadLines(call, call, year)[0].0;
    OwnHead(call, year, fields);
    TableIsValid(CallBook(Some(s)));
    HeadHasNoPostings(call, year, fields);
    assert EntryReads(s, call, e);
    var p := Span(1 + |call|, |s.dat|);
    forall r, x | OwnRecord(s, call, r, x) ensures Reached(s, call, r) {
      OwnIsWhole(s, call, r, x);
      HeadPiece(s, e, p);
      assert ReadBy(s, e, r, p);
    }
  }

  lemma HeadHasNoPostings(call: Bytes, year: nat, fields: seq<(Byte, Bytes)>)
    ensures HeadFiles(call, call, year, fields).hci.None?
  {
  }

  lemma OwnIsWhole(s: Shard, q: Bytes, r: Span, x: Snapshot)
    requires OwnRecord(s, q, r, x) && Framing.IsRecord(s.dat, 0, |s.dat|)
    ensures r == Span(0, |s.dat|)
  {
    hide Framing.IsSentinel, ParsedSegment;
    Framing.RecordUnique(s.dat, r.start, r.start, r.end, 0, |s.dat|);
  }

  lemma HeadPiece(s: Shard, e: IdxText.Entry, p: Span)
    requires Valid(s.idx) && RawSlice(Rows(s.idx), |s.dat|, e) == Some((p.start, p.end)) && p.end == |s.dat|
    requires Framing.IsRecord(s.dat, 0, |s.dat|)
    ensures PieceOf(s, e, p)
  {
    hide Framing.IsSentinel, RawSlice;
  }

  // ---- a tail that is read as an undated record -------------------------------------------------------

  /** `CALL:YYYY`, and a record of a longer call. */
  function Neighbours(call: Bytes, year: nat, more: Bytes): Bytes {
    RecordBytes(call, Some(year), []) + RecordBytes(call + more, None, [])
  }

  /** Each line points as far behind its sentinel as the colon of the first record lies. */
  function TailLines(call: Bytes, year: nat, more: Bytes): Lines {
    var first := |RecordBytes(call, Some(year), [])|;
    [(IdxText.Entry(KeyText(call, Some(year)), 1 + |call|), 1),
     (IdxText.Entry(KeyText(call + more, None), first + 1 + |call|), 1)]
  }

  function TailFiles(call: Bytes, year: nat, more: Bytes): Shard {
    Files(Neighbours(call, year, more), TailLines(call, year, more))
  }

  ghost predicate LongerCall(call: Bytes, more: Bytes) {
    PrintableCall(call) && PrintableCall(call + more) && more != [] && IsUpper(more[0])
  }

  lemma LeCons(x: Byte, s: Bytes, t: Bytes)
    requires Le(s, t)
    ensures Le([x] + s, [x] + t)
  {
    assert ([x] + s)[1..] == s && ([x] + t)[1..] == t;
  }

  lemma {:induction false} ColonBelow(call: Bytes, a: Bytes, b: Bytes)
    requires a != [] && b != [] && a[0] < b[0]
    ensures Le(call + a, call + b)
  {
    hide Le;
    if call == [] {
      LeByFirst(a, b);
      assert call + a == a && call + b == b;
    } else {
      ColonBelow(call[1..], a, b);
      LeCons(call[0], call[1..] + a, call[1..] + b);
      assert call + a == [call[0]] + (call[1..] + a) && call + b == [call[0]] + (call[1..] + b);
    }
  }

  lemma LeByFirst(a: Bytes, b: Bytes)
    requires a != [] && b != [] && a[0] < b[0]
    ensures Le(a, b)
  {
  }

  lemma ColonStrictlyBelow(call: Bytes, a: Bytes, b: Bytes)
    requires a != [] && b != [] && a[0] < b[0]
    ensures Lt(call + a, call + b)
  {
    hide Le;
    ColonBelow(call, a, b);
    assert (call + a)[|call|] == a[0] && (call + b)[|call|] == b[0];
  }

  lemma LengthOfNeighbours(call: Bytes, year: nat, more: Bytes)
    requires LongerCall(call, more) && year <= 65535
    ensures var first := |RecordBytes(call, Some(year), [])|;
            && 2 + |call| < first <= 19
            && first + 2 + |call| <= |Neighbours(call, year, more)| <= 40
    ensures RecordBytes(call, Some(year), [])[1 + |call|..] == SuffixBytes(year, [])[1..]
    ensures RecordBytes(call + more, None, [])[..1 + |call|] == RecordBytes(call, None, [])
  {
    hide Decimal;
    DecimalOfWord(year);
    RestIsSuffix(call, year, []);
  }

  lemma TailBook(call: Bytes, year: nat, more: Bytes)
    requires LongerCall(call, more) && year <= 65535
    ensures InOrder(Neighbours(call, year, more), TailLines(call, year, more))
    ensures IsQuery(call)
    ensures Filter((e: IdxText.Entry) => NamesCall(e, call), IdxText.EntriesOf(TailLines(call, year, more)))
            == [TailLines(call, year, more)[0].0]
  {
    hide RecordBytes, Decimal, InOrder, Neighbours, Lt, NamesCall;
    var lines := TailLines(call, year, more);
    var a, b := lines[0].0, lines[1].0;
    LengthOfNeighbours(call, year, more);
    KeyLine(call, Some(year), a.datOffset);
    KeyLine(call + more, None, b.datOffset);
    ColonStrictlyBelow(call, [COLON] + Decimal(year), more);
    assert KeyText(call + more, None) == call + more;
    TwoLines(a, b, Neighbours(call, year, more));
    KeyNamesCall(a, call, Some(year));
    OtherName(call, more, b);
    var p := (e: IdxText.Entry) => NamesCall(e, call);
    assert [a, b][1..] == [b] && [b][1..] == [];
    FilterCons(p, a, [b]);
    FilterCons(p, b, []);
    assert [a] + [b] == [a, b] && [b] + [] == [b];
    assert Filter(p, []) == [];
  }

  lemma OtherName(call: Bytes, more: Bytes, e: IdxText.Entry)
    requires LongerCall(call, more) && e.key == KeyText(call + more, None)
    ensures !NamesCall(e, call)
  {
    KeyTextShape(call + more, None);
  }

  /** The first slice is the rest of the first record and the first bytes of the second. */
  lemma TailSlice(call: Bytes, year: nat, more: Bytes)
    requires LongerCall(call, more) && year <= 65535
    ensures var plain, first := Neighbours(call, year, more), |RecordBytes(call, Some(year), [])|;
            && first + 1 + |call| < |plain|
            && plain[1 + |call|..first + 1 + |call|] == SuffixBytes(year, [])[1..] + RecordBytes(call, None, [])
  {
    hide RecordBytes, SuffixBytes;
    LengthOfNeighbours(call, year, more);
    var a, b := RecordBytes(call, Some(year), []), RecordBytes(call + more, None, []);
    assert (a + b)[1 + |call|..|a| + 1 + |call|] == a[1 + |call|..] + b[..1 + |call|];
  }

  lemma TailAnswers(call: Bytes, year: nat, more: Bytes)
    requires LongerCall(call, more) && year <= 65535
    ensures var s := TailFiles(call, year, more);
            var ctx := IdxContext(s, KeyText(call, Some(year)));
            && OpenedBook(CallBook(Some(s))) && PrintedIndex(s.idx, TailLines(call, year, more))
            && UsCurrent(CallBook(Some(s)), call).None?
            && Arrivals(CallBook(Some(s)), call)
               == [Printed(call, Some(year), [], ctx), Printed(call, None, [], ctx)]
  {
    hide RecordBytes, SuffixBytes, Printed, KeyText, Files, MatchedSegment, Matched, SegmentsFrom, Filter,
      EntrySnapshots, Arrivals, UsCurrent, InOrder, Opened, PrintedIndex, NamesCall, IsQuery, Neighbours, PrintableCall;
    var plain, lines := Neighbours(call, year, more), TailLines(call, year, more);
    var e := lines[0].0;
    TailBook(call, year, more);
    BookOpens(plain, lines);
    OneEntryNames(plain, lines, call, e);
    TailSlice(call, year, more);
    LineAnswers(plain, lines, call, 0);
    var ctx := IdxContext(Files(plain, lines), e.key);
    SuffixMatches(call, Some(year), year, [], ctx);
    RecordMatches(call, ctx);
    RestIsSuffix(call, year, []);
    var a, b := SuffixBytes(year, [])[1..], RecordBytes(call, None, []);
    TwoSegments(a, b);
    MatchedCons(a, [b], call, ctx);
    MatchedCons(b, [], call, ctx);
    MatchedNone(call, ctx);
    assert [a] + [b] == [a, b] && [b] + [] == [b];
  }

  lemma DatedThenUndated(db: CallBook, q: Bytes, x: Snapshot, y: Snapshot)
    requires db.v2.Some? ==> Valid(db.v2.value.idx)
    requires UsCurrent(db, q).None? && Arrivals(db, q) == [x, y] && x.vintage.Some? && y.vintage.None?
    ensures ReportFor(db, q) == LookupResult(q, Current, Some(y), [x])
  {
    hide UsCurrent, Arrivals, Valid;
    var start := Acc(None, []);
    assert [x, y][..1] == [x] && [x][..0] == [] && [x][1..] == [];
    assert MergeAll(start, [x][..0]) == start;
    assert MergeStep(start, x).history == [x];
    assert MergeAll(start, [x]) == Acc(None, [x]);
    SortOne(x);
  }

  /** The slice of `CALL:YYYY` ends inside the record of a longer call, and what it holds of that one reads as
      the shorter call, undated: a lookup of the shorter call has a current record, is reported as current,
      and no undated record of the file is its. */
  lemma TailReported(call: Bytes, year: nat, more: Bytes)
    requires LongerCall(call, more) && year <= 65535
    ensures var s := TailFiles(call, year, more);
            var ctx := IdxContext(s, KeyText(call, Some(year)));
            && OpenedBook(CallBook(Some(s))) && PrintedIndex(s.idx, TailLines(call, year, more))
            && ReportFor(CallBook(Some(s)), call)
               == LookupResult(call, Current, Some(Printed(call, None, [], ctx)), [Printed(call, Some(year), [], ctx)])
            && forall c, p, x | OnSomeRecord(s, c, p, x) :: x.callsign == call ==> x.vintage == Some(year)
  {
    hide Printed, KeyText, Files, TailLines, ReportFor, Arrivals, UsCurrent, Opened, PrintedIndex, OnSomeRecord,
      LongerCall;
    var s := TailFiles(call, year, more);
    var ctx := IdxContext(s, KeyText(call, Some(year)));
    TailAnswers(call, year, more);
    PrintedValues(call, Some(year), [], ctx, LastName);
    PrintedValues(call, None, [], ctx, LastName);
    TableIsValid(CallBook(Some(s)));
    DatedThenUndated(CallBook(Some(s)), call, Printed(call, Some(year), [], ctx), Printed(call, None, [], ctx));
    forall c, p, x | OnSomeRecord(s, c, p, x) ensures x.callsign == call ==> x.vintage == Some(year) {
      TailRecords(call, year, more, c, p, x);
    }
  }

  lemma TailRecords(call: Bytes, year: nat, more: Bytes, ctx: Context, p: Span, x: Snapshot)
    requires LongerCall(call, more) && year <= 65535 && OnSomeRecord(TailFiles(call, year, more), ctx, p, x)
    ensures x.callsign == call ==> x.vintage == Some(year)
  {
    hide PrintableCall, ParsedSegment, RecordBytes, Cipher.DecodeAt, Framing.IsRecord, Neighbours, TailLines,
      IdxText.TableFrom, IdxText.PrintedFile;
    var dat := TailFiles(call, year, more).dat;
    var a, b := RecordBytes(call, Some(year), []), RecordBytes(call + more, None, []);
    NeighboursFramed(call, year, more);
    PrintedOwn(call, Some(year), [], ctx);
    PrintedOwn(call + more, None, [], ctx);
    WhichOfTwo(dat, |a|, |a| + |b|, p);
  }

  lemma NeighboursFramed(call: Bytes, year: nat, more: Bytes)
    requires LongerCall(call, more)
    ensures var dat := Cipher.DecodeAt(0, Neighbours(call, year, more));
            var a, b := RecordBytes(call, Some(year), []), RecordBytes(call + more, None, []);
            && Framing.IsRecord(dat, 0, |a|) && Cipher.DecodeAt(0, dat[0..|a|]) == a
            && Framing.IsRecord(dat, |a|, |a| + |b|) && Cipher.DecodeAt(|a|, dat[|a|..|a| + |b|]) == b
            && |dat| == |a| + |b|
  {
    hide PrintableCall, RecordBytes, Cipher.DecodeAt, Framing.IsRecord;
    var a, b := RecordBytes(call, Some(year), []), RecordBytes(call + more, None, []);
    RecordStart(call + more, None, []);
    EncodedRecordFramed([], call, Some(year), [], b);
    assert [] + a + b == a + b;
    EncodedRecordFramed(a, call + more, None, [], []);
    assert a + b + [] == a + b;
  }

  lemma WhichOfTwo(dat: Bytes, n: nat, end: nat, p: Span)
    requires Framing.IsRecord(dat, 0, n) && Framing.IsRecord(dat, n, end) && |dat| == end
    requires Framing.IsRecord(dat, p.start, p.end)
    ensures p == Span(0, n) || p == Span(n, end)
  {
    hide Framing.IsSentinel;
    if p.start < n {
      Framing.RecordUnique(dat, p.start, p.start, p.end, 0, n);
    } else {
      Framing.RecordUnique(dat, p.start, p.start, p.end, n, end);
    }
  }
}
