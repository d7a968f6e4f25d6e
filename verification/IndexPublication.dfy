/** From a printed index line and a DAT record in its slice to the report of a lookup. */
module IndexPublication {
  import opened Ascii
  import opened Snapshots
  import opened Records
  import opened RecordText
  import opened IdxSearch
  import opened Lookup
  import opened LookupTheorems
  import opened Merging
  import opened Heads
  import opened Pieces
  import opened Provenance
  import opened Publication
  import Cipher
  import Framing
  import Hci
  import IdxText

  // ---- records whose key is a suffix ------------------------------------------------------

  /** `:YYYY` and its fields; the call is that of the index key. */
  function SuffixBytes(year: nat, fields: seq<(Byte, Bytes)>): Bytes {
    [MARK] + ([COLON] + Decimal(year)) + FieldsText(fields)
  }

  lemma SuffixText(year: nat)
    ensures var key := [COLON] + Decimal(year);
            key[0] == COLON && AllPrintable(key) && Trimmed(key, {SPACE}) && CleanAscii(key) == Some(key)
  {
    hide Decimal, CleanAscii, AllPrintable, AllDigits;
    var key := [COLON] + Decimal(year);
    DigitsPrintable(Decimal(year));
    ColonPrintable();
    PrintableJoin([COLON], Decimal(year));
    LastDigit(Decimal(year));
    CleanIsIdentity(key);
  }

  lemma LastDigit(s: Bytes)
    requires s != [] && AllDigits(s)
    ensures s[|s| - 1] != SPACE
  {
    assert IsDigit(s[|s| - 1]);
  }

  lemma SuffixFramed(year: nat, fields: seq<(Byte, Bytes)>)
    requires PrintableFields(fields)
    ensures IsFramed(SuffixBytes(year, fields))
  {
    hide Decimal, FieldsText, PrintableFields, AllPrintable;
    var key, text := [COLON] + Decimal(year), FieldsText(fields);
    SuffixText(year);
    FieldsHaveNoMark(fields);
    PrintableHasNoMark(key);
    var r := SuffixBytes(year, fields);
    forall k | 1 <= k < |r| ensures r[k] != MARK {
      if k <= |key| {
        assert r[k] == key[k - 1];
      } else {
        assert r[k] == text[k - 1 - |key|];
      }
    }
  }

  lemma PrintableHasNoMark(s: Bytes)
    requires AllPrintable(s)
    ensures forall i | 0 <= i < |s| :: s[i] != MARK
  {
    assert forall i | 0 <= i < |s| :: IsPrintable(s[i]);
  }

  /** A suffix record is read under the call of the index key, whatever year that key has. */
  lemma SuffixRecordParses(call: Bytes, keyYear: Option<nat>, year: nat, fields: seq<(Byte, Bytes)>, ctx: Context)
    requires PrintableCall(call) && PrintableFields(fields) && year <= 65535
    requires ctx.defaultKey == Some(KeyText(call, keyYear))
    ensures ParsedSegment(SuffixBytes(year, fields), ctx) == Some(Printed(call, Some(year), fields, ctx))
  {
    hide Enrich, LooksLikeKey, SplitKey, KeyText, FieldsText, CleanAscii, ApplyFields, PrintableFields, Decimal, Before,
      AllPrintable, Trimmed;
    var key := [COLON] + Decimal(year);
    var body := key + FieldsText(fields);
    assert Body(SuffixBytes(year, fields)) == body;
    SuffixText(year);
    KeyTextShape(call, keyYear);
    CleanIsIdentity(KeyText(call, keyYear));
    PrintedBody(key, fields);
    assert body[..|key|] == key;
    WholeKey(call, year);
    KeyTextSplits(call, Some(year));
    FieldsRoundTrip(NewSnapshot(call, Some(year), ctx.source), key, fields);
    PrintedIs(call, Some(year), fields, ctx);
  }

  lemma WholeKey(call: Bytes, year: nat)
    ensures call + ([COLON] + Decimal(year)) == KeyText(call, Some(year))
  {
    hide Decimal;
  }

  // ---- from the slice to the report -----------------------------------------------------------

  /** A piece of the slice of an entry that names the query, when it parses to the query, is in the report: in
      the record of its vintage, which names the index source and keeps the snapshot. */
  lemma SlicedRecordIsReported(db: CallBook, q: Bytes, e: IdxText.Entry, p: Span, x: Snapshot)
    requires OpenedBook(db) && IsQuery(q) && db.v2.Some? && KeysStrictlyAscend(Rows(db.v2.value.idx))
    requires e in Rows(db.v2.value.idx) && NamesCall(e, q) && PieceOf(db.v2.value, e, p)
    requires ParsedSegment(Plain(db.v2.value.dat, p), IdxContext(db.v2.value, e.key)) == Some(x) && x.callsign == q
    ensures exists m :: Reports(ReportFor(db, q), m) && Keeps(m, x) && HamCallDatIdx in m.sources
                        && TakesFirst(m, Parts(db, q, x.vintage))
  {
    hide TakesFirst, Parts, ParsedSegment, Framing.IsSentinel, EntrySnapshots, ReportFor, KeysAscend,
      KeysStrictlyAscend, Hci.Built,
      IsQuery, Reports, PostingSnapshots, UsCurrent, NonEmpty, Get, NamesCall, PieceOf;
    var s := db.v2.value;
    PieceAnswersEntry(s, q, e, p, x);
    ParsedShape(Plain(s.dat, p), IdxContext(s, e.key));
    NothingLost(db, q, x);
  }

  // ---- printed indexes -----------------------------------------------------------------------

  /** An index file as the documented format prints it, in key order. */
  ghost predicate PrintedIndex(f: IdxFile, lines: seq<(IdxText.Entry, nat)>) {
    && IdxText.PrintableLines(lines) && f.buf == IdxText.PrintedFile(lines) && |f.buf| <= 0x1_0000_0000
    && (forall i | 0 <= i < |lines| :: IdxText.ShortKey(lines[i].0))
    && KeysStrictlyAscend(IdxText.EntriesOf(lines)) && OffsetsAscend(IdxText.EntriesOf(lines))
  }

  lemma PrintedRows(f: IdxFile, lines: seq<(IdxText.Entry, nat)>)
    requires PrintedIndex(f, lines) && f.table == IdxText.TableFrom(f.buf, 0) && Valid(f)
    ensures Rows(f) == IdxText.EntriesOf(lines)
  {
    hide IdxText.PrintedFile, IdxText.TableFrom, IdxText.PrintableLines, IdxText.ShortKey, KeysStrictlyAscend,
      OffsetsAscend;
    IdxText.PrintedRoundTrip(lines);
  }

  /** A record in plain: under its own key, or as a suffix of the index key. */
  ghost predicate RecordOf(r: Bytes, call: Bytes, vintage: Option<nat>, fields: seq<(Byte, Bytes)>) {
    || r == RecordBytes(call, vintage, fields)
    || (vintage.Some? && r == SuffixBytes(vintage.value, fields))
  }

  lemma RecordOfParses(r: Bytes, call: Bytes, keyYear: Option<nat>, vintage: Option<nat>, fields: seq<(Byte, Bytes)>,
                       ctx: Context)
    requires PrintableCall(call) && PrintableFields(fields) && (vintage.Some? ==> vintage.value <= 65535)
    requires ctx.defaultKey == Some(KeyText(call, keyYear)) && RecordOf(r, call, vintage, fields)
    ensures IsFramed(r) && ParsedSegment(r, ctx) == Some(Printed(call, vintage, fields, ctx))
  {
    hide PrintableCall, PrintableFields, ParsedSegment, RecordBytes, SuffixBytes, Printed, KeyText;
    if r == RecordBytes(call, vintage, fields) {
      NoMarkInside(call, vintage, fields);
      RecordStart(call, vintage, fields);
      PrintedRecordParses(call, vintage, fields, ctx);
      PrintedIs(call, vintage, fields, ctx);
    } else {
      SuffixFramed(vintage.value, fields);
      SuffixRecordParses(call, keyYear, vintage.value, fields, ctx);
    }
  }

  /** Where a slice may start and still read the record: in front of it, behind its sentinel, or at the colon
      between its call and its vintage. */
  ghost predicate ReadableFrom(r: Bytes, j: nat, call: Bytes, vintage: Option<nat>, fields: seq<(Byte, Bytes)>) {
    || j <= 1
    || (vintage.Some? && j == 1 + |call| && r == RecordBytes(call, vintage, fields))
  }

  lemma RestParses(r: Bytes, j: nat, call: Bytes, keyYear: Option<nat>, vintage: Option<nat>,
                   fields: seq<(Byte, Bytes)>, ctx: Context)
    requires PrintableCall(call) && PrintableFields(fields) && (vintage.Some? ==> vintage.value <= 65535)
    requires ctx.defaultKey == Some(KeyText(call, keyYear)) && RecordOf(r, call, vintage, fields)
    requires ReadableFrom(r, j, call, vintage, fields)
    ensures IsFramed(r) && j < |r| && ParsedSegment(r[j..], ctx) == Some(Printed(call, vintage, fields, ctx))
  {
    hide PrintableCall, PrintableFields, ParsedSegment, RecordBytes, SuffixBytes, Printed, RecordOf, IsFramed, KeyText;
    RecordOfParses(r, call, keyYear, vintage, fields, ctx);
    RecordLength(r, call, vintage, fields);
    if j == 0 {
      assert r[0..] == r;
    } else if j == 1 {
      BehindSentinel(r, ctx);
    } else {
      RestOfKeyParses(call, keyYear, vintage.value, fields, ctx);
    }
  }

  lemma RestOfKeyParses(call: Bytes, keyYear: Option<nat>, year: nat, fields: seq<(Byte, Bytes)>, ctx: Context)
    requires PrintableCall(call) && PrintableFields(fields) && year <= 65535
    requires ctx.defaultKey == Some(KeyText(call, keyYear))
    ensures 1 + |call| < |RecordBytes(call, Some(year), fields)|
    ensures ParsedSegment(RecordBytes(call, Some(year), fields)[1 + |call|..], ctx)
            == Some(Printed(call, Some(year), fields, ctx))
  {
    hide PrintableCall, PrintableFields, ParsedSegment, RecordBytes, SuffixBytes, Printed, IsFramed, KeyText;
    RestIsSuffix(call, year, fields);
    SuffixFramed(year, fields);
    SuffixRecordParses(call, keyYear, year, fields, ctx);
    BehindSentinel(SuffixBytes(year, fields), ctx);
  }

  lemma SuffixIsRecord(call: Bytes, vintage: Option<nat>, fields: seq<(Byte, Bytes)>)
    requires vintage.Some?
    ensures RecordOf(SuffixBytes(vintage.value, fields), call, vintage, fields)
  {
  }

  lemma RecordLength(r: Bytes, call: Bytes, vintage: Option<nat>, fields: seq<(Byte, Bytes)>)
    requires PrintableCall(call) && RecordOf(r, call, vintage, fields)
    ensures |r| > 1
    ensures vintage.Some? && r == RecordBytes(call, vintage, fields) ==> |r| > 1 + |call|
  {
    hide Decimal, FieldsText;
  }

  /** From its colon on a record is the suffix record of its year. */
  lemma RestIsSuffix(call: Bytes, year: nat, fields: seq<(Byte, Bytes)>)
    ensures var r, suffix := RecordBytes(call, Some(year), fields), SuffixBytes(year, fields);
            |suffix| > 1 && |r| > 1 + |call| && r[1 + |call|..] == suffix[1..]
  {
    hide Decimal, FieldsText;
  }

  /** End to end through the index: a line of a printed index names the call, and a record encoded in its
      slice, under the call's own key or as a suffix of the index key, is reported by a lookup of the call:
      the report has a record of its vintage, names the index source, and shows the fields the record
      gives. The slice starts anywhere in front of the record, or behind its sentinel, or at its colon. */
  lemma IndexedRecordIsReported(db: CallBook, lines: seq<(IdxText.Entry, nat)>, k: nat, keyYear: Option<nat>,
                                before: Bytes, r: Bytes, after: Bytes, j: nat,
                                call: Bytes, vintage: Option<nat>, fields: seq<(Byte, Bytes)>)
    requires OpenedBook(db) && db.v2.Some? && PrintedIndex(db.v2.value.idx, lines)
    requires k < |lines| && lines[k].0.key == KeyText(call, keyYear)
    requires PrintableCall(call) && PrintableFields(fields) && (vintage.Some? ==> vintage.value <= 65535)
    requires RecordOf(r, call, vintage, fields) && ReadableFrom(r, j, call, vintage, fields)
    requires db.v2.value.dat == Cipher.DecodeAt(0, before + r + after) && (after != [] ==> after[0] == MARK)
    requires lines[k].0.datOffset == |before| + j || (j == 0 && lines[k].0.datOffset < |before|)
    requires |before| + |r| <= SliceEnd(IdxText.EntriesOf(lines), |db.v2.value.dat|, k)
    ensures exists m :: Reports(ReportFor(db, call), m) && m.vintage == vintage && HamCallDatIdx in m.sources
                        && Shows(m, Parts(db, call, vintage),
                                 Printed(call, vintage, fields,
                                         Context(Some(lines[k].0.key), HamCallDatIdx, db.v2.value.countries,
                                                 db.v2.value.interests)), fields)
  {
    hide TakesFirst, Shows, Parts, KeyText, PrintableFields, Printed, ParsedSegment, RecordOf, Reports, ReportFor,
      KeysAscend, Hci.Built, ReadableFrom,
      Framing.IsSentinel, IsFramed, PieceOf, NamesCall, Keeps, Cipher.DecodeByte, IdxText.TableFrom,
      IdxText.PrintedFile;
    var s, e := db.v2.value, lines[k].0;
    var ctx, p := IdxContext(s, e.key), Span(|before| + j, |before| + |r|);
    PrintedRows(s.idx, lines);
    RestParses(r, j, call, keyYear, vintage, fields, ctx);
    EncodedRest(s.dat, before, r, after, j);
    InLine(s, lines, k, |before|, |before| + |r|, j);
    KeyNamesCall(e, call, keyYear);
    var x := Printed(call, vintage, fields, ctx);
    PrintedValues(call, vintage, fields, ctx, LastName);
    assert Rows(s.idx)[k] == e;
    SlicedRecordIsReported(db, call, e, p, x);
    var m :| Reports(ReportFor(db, call), m) && Keeps(m, x) && HamCallDatIdx in m.sources
             && TakesFirst(m, Parts(db, call, x.vintage));
    KeptIsShown(m, Parts(db, call, vintage), call, vintage, fields, ctx);
    KeptVintage(m, x);
  }

  lemma EncodedRest(dat: Bytes, before: Bytes, r: Bytes, after: Bytes, j: nat)
    requires dat == Cipher.DecodeAt(0, before + r + after) && IsFramed(r) && (after != [] ==> after[0] == MARK)
    requires j < |r|
    ensures var end := |before| + |r|;
            && Framing.IsRecord(dat, |before|, end) && end <= |dat|
            && Plain(dat, Span(|before| + j, end)) == r[j..]
  {
    hide Cipher.DecodeByte, Framing.IsRecord, IsFramed, Cipher.DecodeAt;
    EncodedFramed(before, r, after);
    RecordEnds(dat, |before|, |before| + |r|);
    PlainSlice(dat, |before|, |before| + j, |before| + |r|, |before| + |r|);
  }

  lemma RecordEnds(dat: Bytes, start: nat, end: nat)
    requires Framing.IsRecord(dat, start, end)
    ensures start < end <= |dat|
  {
  }

  lemma KeptVintage(m: Snapshot, x: Snapshot)
    requires Keeps(m, x)
    ensures m.vintage == x.vintage
  {
  }

  /** A record that ends in the slice of line `k` and, unless the slice starts at its byte `j`, begins there. */
  lemma InLine(s: Shard, lines: seq<(IdxText.Entry, nat)>, k: nat, start: nat, end: nat, j: nat)
    requires Valid(s.idx) && Rows(s.idx) == IdxText.EntriesOf(lines) && k < |lines|
    requires KeysStrictlyAscend(Rows(s.idx)) && OffsetsAscend(Rows(s.idx))
    requires Framing.IsRecord(s.dat, start, end) && end <= SliceEnd(Rows(s.idx), |s.dat|, k) && start + j < end
    requires lines[k].0.datOffset == start + j || (j == 0 && lines[k].0.datOffset < start)
    ensures PieceOf(s, lines[k].0, Span(start + j, end))
  {
    hide KeysStrictlyAscend, OffsetsAscend, RawSlice, Framing.IsSentinel;
    assert Rows(s.idx)[k] == lines[k].0;
    SliceExact(Rows(s.idx), |s.dat|, k);
  }

  lemma KeyNamesCall(e: IdxText.Entry, call: Bytes, keyYear: Option<nat>)
    requires PrintableCall(call) && e.key == KeyText(call, keyYear)
    ensures NamesCall(e, call) && IsQuery(call)
  {
    hide KeyText;
    KeyTextShape(call, keyYear);
  }
}
