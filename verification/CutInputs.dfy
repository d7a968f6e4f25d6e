/** Two files in which a posting answers with a record that is not in the file. */
module CutInputs {
  import opened Ascii
  import opened Snapshots
  import opened Records
  import opened RecordText
  import opened Merging
  import opened Sorting
  import opened Lookup
  import opened LookupTheorems
  import opened Pieces
  import opened Publication
  import Cipher
  import Framing
  import Hci
  import HciKeys
  import HciText
  import IdxSearch

  const CITY_TAG: Byte := 0xbf

  function As(n: nat): (s: Bytes)
    ensures |s| == n
  {
    seq(n, _ => 0x41)
  }

  function CityField(n: nat): seq<(Byte, Bytes)> { [(CITY_TAG, As(n))] }

  function First(): Bytes { RecordBytes(W1AA, None, []) }
  function Second(n: nat): Bytes { RecordBytes(K1AA, None, CityField(n)) }

  /** A record of `W1AA`, and one of `K1AA` with a city of `n` letters. */
  function TwoRecords(n: nat): Bytes { First() + Second(n) }

  lemma Layout(n: nat)
    requires n > 0
    ensures First() == [MARK] + W1AA && |First()| == 5
    ensures Second(n) == [MARK] + K1AA + [CITY_TAG] + As(n) && |Second(n)| == n + 6
    ensures PrintableCall(W1AA) && PrintableCall(K1AA) && PrintableFields(CityField(n)) && PrintableFields([])
  {
    var fields := CityField(n);
    assert fields[1..] == [];
    assert FieldsText(fields) == [CITY_TAG] + As(n) + [];
    assert W1AA + [] == W1AA && K1AA + [] == K1AA;
  }

  /** The two records are the only ones in the encoded file. */
  lemma Framed(n: nat)
    requires n > 0
    ensures var dat := Cipher.DecodeAt(0, TwoRecords(n));
            && |dat| == n + 11
            && Framing.IsRecord(dat, 0, 5) && Cipher.DecodeAt(0, dat[0..5]) == First()
            && Framing.IsRecord(dat, 5, n + 11) && Cipher.DecodeAt(5, dat[5..n + 11]) == Second(n)
  {
    hide RecordBytes, PrintableCall, PrintableFields, Cipher.DecodeByte, Framing.IsRecord;
    Layout(n);
    EncodedRecordFramed([], W1AA, None, [], Second(n));
    assert [] + First() + Second(n) == TwoRecords(n);
    EncodedRecordFramed(First(), K1AA, None, CityField(n), []);
    assert First() + Second(n) + [] == TwoRecords(n);
  }

  lemma SecondParses(n: nat, ctx: Context)
    requires n > 0
    ensures ParsedSegment(Second(n), ctx) == Some(Printed(K1AA, None, CityField(n), ctx))
    ensures MatchedSegment(Second(n), K1AA, ctx) == [Printed(K1AA, None, CityField(n), ctx)]
    ensures Get(Printed(K1AA, None, CityField(n), ctx).text, City) == Some(As(n))
  {
    hide ParsedSegment, MatchedSegment, RecordBytes, Enrich, AppliedTags, PrintableFields, LastValue, As;
    Layout(n);
    PrintedRecordParses(K1AA, None, CityField(n), ctx);
    PrintedValues(K1AA, None, CityField(n), ctx, City);
    OneValue(n);
    MatchedSegmentFilters(Second(n), K1AA, ctx);
  }

  lemma OneValue(n: nat)
    ensures LastValue(CityField(n), City) == Some(As(n))
  {
    assert CityField(n)[1..] == [];
  }

  lemma FirstIsSilent(ctx: Context)
    ensures MatchedSegment(First(), K1AA, ctx) == []
  {
    hide ParsedSegment, MatchedSegment, RecordBytes, Enrich, AppliedTags, PrintableFields, LastValue;
    Layout(1);
    PrintedRecordParses(W1AA, None, [], ctx);
    PrintedValues(W1AA, None, [], ctx, City);
    MatchedSegmentFilters(First(), K1AA, ctx);
    assert Upper(W1AA)[0] != Upper(K1AA)[0];
  }

  lemma CutsOfTwo(dat: Bytes, n: nat, end: nat)
    requires n > 0 && |dat| == n + 11 && Framing.IsRecord(dat, 0, 5) && Framing.IsRecord(dat, 5, n + 11)
    requires 5 < end <= n + 11
    ensures ClosedCuts(dat, 0, end) == [Span(0, 5)]
    ensures Cuts(dat, 0, end) == [Span(0, 5), Span(5, end)]
  {
    hide Framing.IsSentinel;
    assert CutEnd(dat, 0, end) == 5 && CutEnd(dat, 5, end) == end;
    assert Cuts(dat, end, end) == [];
  }

  /** What the last window holds of the second record is itself a printed record, with a shorter city. */
  lemma CutSecond(n: nat)
    requires n > 8181
    ensures var dat := Cipher.DecodeAt(0, TwoRecords(n));
            Cipher.DecodeAt(5, dat[5..8192]) == Second(8181)
  {
    hide First, Second, Cipher.DecodeAt;
    var plain := TwoRecords(n);
    var dat := Cipher.DecodeAt(0, plain);
    Layout(n);
    Layout(8181);
    Cipher.DecodeAtInvolution(0, plain);
    Cipher.DecodeSlice(0, dat, 5, 8192);
    assert plain[5..8192] == Second(8181);
  }

  lemma QuietSpan(s: Shard, n: nat)
    requires n > 8181 && s.dat == Cipher.DecodeAt(0, TwoRecords(n))
    ensures |s.dat| == n + 11 && !Speaks(s, K1AA, HciContext(s), Span(0, 5))
  {
    hide MatchedSegment, Cipher.DecodeAt, Framing.IsRecord, TwoRecords, First, Second;
    Framed(n);
    FirstIsSilent(HciContext(s));
    assert Plain(s.dat, Span(0, 5)) == First();
  }

  lemma QuietRecord(s: Shard, n: nat)
    requires n > 8181 && s.dat == Cipher.DecodeAt(0, TwoRecords(n))
    ensures !RecordSpeaks(s, K1AA, 0)
  {
    hide Cipher.DecodeAt, Framing.IsRecord, TwoRecords, First, Second, Framing.RecordAt, Speaks, Speaking;
    Framed(n);
    QuietSpan(s, n);
    Framing.RecordAtExact(s.dat, 0, 0, 5);
    assert RecordSpans(s.dat, 0) == [Span(0, 5)];
    SilentAlone(s, HciContext(s), Span(0, 5));
  }

  lemma SilentAlone(s: Shard, ctx: Context, p: Span)
    requires InFile(s.dat, p) && !Speaks(s, K1AA, ctx, p)
    ensures Speaking(s, K1AA, ctx, [p]) == []
  {
    hide Speaks;
    assert [p][1..] == [];
  }

  lemma QuietWindow(s: Shard, n: nat, size: nat)
    requires n > 8181 && s.dat == Cipher.DecodeAt(0, TwoRecords(n)) && 5 < size <= 8192
    ensures Speaking(s, K1AA, HciContext(s), ClosedCuts(s.dat, 0, WindowEnd(s.dat, 0, size))) == []
  {
    hide Cipher.DecodeAt, Framing.IsRecord, TwoRecords, First, Second, ClosedCuts, Speaks, Speaking;
    Framed(n);
    QuietSpan(s, n);
    CutsOfTwo(s.dat, n, size);
    SilentAlone(s, HciContext(s), Span(0, 5));
  }

  lemma LoudWindow(s: Shard, n: nat)
    requires n > 8181 && s.dat == Cipher.DecodeAt(0, TwoRecords(n))
    ensures WindowSpans(s, K1AA, 0, []) == [Span(5, 8192)]
  {
    hide MatchedSegment, Cipher.DecodeAt, Framing.IsRecord, TwoRecords, First, Second, Cuts;
    var ctx := HciContext(s);
    Framed(n);
    QuietSpan(s, n);
    SecondParses(8181, ctx);
    CutSecond(n);
    CutsOfTwo(s.dat, n, 8192);
    assert Plain(s.dat, Span(5, 8192)) == Second(8181);
    OneOfTwo(s, ctx, Span(0, 5), Span(5, 8192));
  }

  lemma {:induction false} LastWindowDecides(s: Shard, n: nat, sizes: seq<nat>)
    requires n > 8181 && s.dat == Cipher.DecodeAt(0, TwoRecords(n))
    requires forall i | 0 <= i < |sizes| :: 5 < sizes[i] <= 8192
    ensures |s.dat| == n + 11 && WindowSpans(s, K1AA, 0, sizes) == [Span(5, 8192)]
  {
    hide Cipher.DecodeAt, TwoRecords, ClosedCuts, Cuts, Speaking, WindowEnd;
    QuietSpan(s, n);
    if sizes == [] {
      LoudWindow(s, n);
    } else {
      QuietWindow(s, n, sizes[0]);
      LastWindowDecides(s, n, sizes[1..]);
    }
  }

  lemma WindowsOfTwo(s: Shard, n: nat)
    requires n > 8181 && s.dat == Cipher.DecodeAt(0, TwoRecords(n))
    ensures |s.dat| == n + 11
    ensures PostingSpans(s, K1AA, 0) == [Span(5, 8192)]
    ensures !PostingUncut(s, K1AA, 0)
  {
    hide Cipher.DecodeAt, TwoRecords, Speaking, RecordSpans, PostingUncut, WindowSpans, Framing.IsRecord;
    QuietRecord(s, n);
    LastWindowDecides(s, n, WINDOWS);
    NotARecord(s, n);
    PostingWhole(s, K1AA, 0);
    assert Span(5, 8192) in [Span(5, 8192)];
  }

  lemma NotARecord(s: Shard, n: nat)
    requires n > 8181 && s.dat == Cipher.DecodeAt(0, TwoRecords(n))
    ensures !Framing.IsRecord(s.dat, 5, 8192)
  {
    hide Cipher.DecodeAt, TwoRecords, Framing.IsSentinel;
    Framed(n);
  }

  lemma SpeaksAlone(s: Shard, ctx: Context, p: Span)
    requires InFile(s.dat, p) && Speaks(s, K1AA, ctx, p)
    ensures Speaking(s, K1AA, ctx, [p]) == [p]
  {
    hide Speaks;
    assert [p][1..] == [];
  }

  lemma OneOfTwo(s: Shard, ctx: Context, a: Span, b: Span)
    requires InFile(s.dat, a) && InFile(s.dat, b) && !Speaks(s, K1AA, ctx, a) && Speaks(s, K1AA, ctx, b)
    ensures Speaking(s, K1AA, ctx, [a, b]) == [b]
  {
    hide Speaks;
    SpeaksAlone(s, ctx, b);
    assert [a, b][1..] == [b];
  }

  /** A posting at the first record answers for the second with a city cut to 8181 letters, whatever its
      length, and no record of the file has that city. */
  lemma CutRecordAnswers(s: Shard, n: nat)
    requires n > 8181 && s.dat == Cipher.DecodeAt(0, TwoRecords(n))
    ensures PostingSnapshots(s, K1AA, 0) == [Printed(K1AA, None, CityField(8181), HciContext(s))]
    ensures Get(PostingSnapshots(s, K1AA, 0)[0].text, City) == Some(As(8181))
    ensures forall p, x | OnRecordOf(s, p, x) :: Get(x.text, City) != Some(As(8181))
  {
    hide MatchedSegment, ParsedSegment, Cipher.DecodeAt, Framing.IsRecord, TwoRecords, First, Second, As,
      PostingSpans, Printed,
      PostingSnapshots, CityField;
    var ctx := HciContext(s);
    WindowsOfTwo(s, n);
    SpansAnswer(s, K1AA, 0);
    Framed(n);
    CutSecond(n);
    SecondParses(8181, ctx);
    assert Plains(s.dat, [Span(5, 8192)]) == [Second(8181)];
    MatchedCons(Second(8181), [], K1AA, ctx);
    assert [Second(8181)] + [] == [Second(8181)];
    forall p, x | OnRecordOf(s, p, x) ensures Get(x.text, City) != Some(As(8181)) {
      CitiesOfTwo(s, n, p, x);
    }
  }

  /** `x` is what some whole record of the file parses to. */
  ghost predicate OnRecordOf(s: Shard, p: Span, x: Snapshot) {
    Framing.IsRecord(s.dat, p.start, p.end) && ParsedSegment(Plain(s.dat, p), HciContext(s)) == Some(x)
  }

  lemma CitiesOfTwo(s: Shard, n: nat, p: Span, x: Snapshot)
    requires n > 8181 && s.dat == Cipher.DecodeAt(0, TwoRecords(n)) && OnRecordOf(s, p, x)
    ensures Get(x.text, City) != Some(As(8181))
  {
    hide ParsedSegment, Cipher.DecodeAt, TwoRecords, First, Second, As, Printed, CityField, Framing.IsSentinel;
    var ctx := HciContext(s);
    Framed(n);
    if p.start < 5 {
      Framing.RecordUnique(s.dat, p.start, p.start, p.end, 0, 5);
      FirstHasNoCity(ctx);
    } else {
      Framing.RecordUnique(s.dat, p.start, p.start, p.end, 5, n + 11);
      SecondParses(n, ctx);
      assert |As(n)| != |As(8181)|;
    }
  }

  lemma FirstHasNoCity(ctx: Context)
    ensures ParsedSegment(First(), ctx).Some? ==> City !in ParsedSegment(First(), ctx).value.text
  {
    hide ParsedSegment, RecordBytes, Enrich, PrintableFields;
    var bare := NewSnapshot(W1AA, None, ctx.source);
    Layout(1);
    PrintedRecordParses(W1AA, None, [], ctx);
    EnrichOnlyAdds(bare, ctx, City);
    assert Get(Enrich(bare, ctx).text, City) == Get(bare.text, City) == None;
  }

  /** The cut city reaches the report: with a suffix posting at the first record the lookup of `K1AA` shows it. */
  lemma CutRecordReported(db: CallBook, n: nat)
    requires OpenedBook(db) && db.v2.Some? && db.v2.value.hci.Some?
    requires db.v2.value.idx.table == [] && db.v2.value.usCsv.None?
    requires n > 8181 && db.v2.value.dat == Cipher.DecodeAt(0, TwoRecords(n))
    requires var es := [HciText.Entry(K1AA[1..], [Hci.Posting(0, 0)], 0)];
             HciText.AllWritable(0, es) && HciText.Holds(db.v2.value.hci.value, es)
    ensures ReportFor(db, K1AA).current == Some(Printed(K1AA, None, CityField(8181), HciContext(db.v2.value)))
    ensures ReportFor(db, K1AA).history == []
  {
    hide PostingSnapshots, HciOffsets, Printed, Hci.Built, IdxSearch.KeysAscend, HciText.Holds, HciText.AllWritable,
      AllCallBytes,
      TwoRecords, CityField;
    var s := db.v2.value;
    var x := Printed(K1AA, None, CityField(8181), HciContext(s));
    CutRecordAnswers(s, n);
    OnlyOffsetZero(s.hci.value);
    assert [0][..0] == [];
    assert OffsetsSnapshots(s, K1AA, [0]) == [] + [x];
    NoEntries(s);
    PrintedValues(K1AA, None, CityField(8181), HciContext(s), City);
    OneArrival(db, x);
  }

  lemma OnlyOffsetZero(h: Hci.HciFile)
    requires Hci.Built(h)
    requires var es := [HciText.Entry(K1AA[1..], [Hci.Posting(0, 0)], 0)];
             HciText.AllWritable(0, es) && HciText.Holds(h, es)
    ensures HciOffsets(h, K1AA) == [0]
  {
    hide Hci.Built, HciText.Holds, HciText.AllWritable, HciOffsets, FamilyPostsAt;
    var es := [HciText.Entry(K1AA[1..], [Hci.Posting(0, 0)], 0)];
    var os := HciOffsets(h, K1AA);
    assert HciKeys.InFamily(K1AA, es[0].key) by {
      assert K1AA == [K1AA[0]] + K1AA[1..];
      assert HciKeys.IsStem(K1AA, K1AA[1..]);
    }
    forall o: nat ensures o in os <==> o == 0 {
      OffsetsOnce(h, K1AA, o);
      WrittenPosts(h, es, K1AA, o);
      if o == 0 {
        assert es[0].postings[0] == Hci.Posting(0, 0) && Hci.Posting(0, 0) in es[0].postings;
      }
    }
    OffsetsOnce(h, K1AA, 0);
    JustZero(os);
  }

  lemma JustZero(os: seq<nat>)
    requires Distinct(os) && forall o: nat :: o in os <==> o == 0
    ensures os == [0]
  {
    forall i | 0 <= i < |os| ensures os[i] == 0 {
      assert os[i] in os;
    }
    AscendingUnique((a: nat, b: nat) => a <= b, os, [0]);
  }

  lemma NoEntries(s: Shard)
    requires IdxSearch.Valid(s.idx) && s.idx.table == []
    ensures IdxSnapshots(s, K1AA) == []
  {
    assert IdxSearch.Rows(s.idx) == [];
  }

  lemma OneArrival(db: CallBook, x: Snapshot)
    requires db.v2.Some? && IdxSearch.Valid(db.v2.value.idx)
    requires UsCurrent(db, K1AA).None? && Arrivals(db, K1AA) == [x] && x.vintage.None?
    ensures ReportFor(db, K1AA).current == Some(x) && ReportFor(db, K1AA).history == []
  {
    assert [x][..0] == [];
    assert MergeAll(Acc(None, []), [x][..0]) == Acc(None, []);
  }

  // ---- a posting inside a record -----------------------------------------------------------

  const CLASS_TAG: Byte := 0xb6

  function ClassField(): seq<(Byte, Bytes)> { [(CLASS_TAG, K1AA)] }

  /** One record of `W1AA` whose licence class reads like a callsign. */
  function OneRecord(): Bytes { RecordBytes(W1AA, None, ClassField()) }

  lemma OneLayout()
    ensures OneRecord() == [MARK] + W1AA + [CLASS_TAG] + K1AA && |OneRecord()| == 10
    ensures PrintableFields(ClassField())
  {
    Layout(1);
    var fields := ClassField();
    assert fields[1..] == [];
    assert FieldsText(fields) == [CLASS_TAG] + K1AA + [];
    assert W1AA + [] == W1AA;
    forall i | 0 <= i < |K1AA| ensures IsPrintable(K1AA[i]) {}
  }

  lemma OneFramed()
    ensures var dat := Cipher.DecodeAt(0, OneRecord());
            && |dat| == 10 && Framing.IsRecord(dat, 0, 10)
            && Plain(dat, Span(0, 10)) == OneRecord() && Plain(dat, Span(6, 10)) == K1AA
  {
    hide PrintableCall, PrintableFields, RecordBytes, Cipher.DecodeByte, Framing.IsRecord;
    OneLayout();
    Layout(1);
    EncodedRecordFramed([], W1AA, None, ClassField(), []);
    assert [] + OneRecord() + [] == OneRecord();
    var dat := Cipher.DecodeAt(0, OneRecord());
    Cipher.DecodeAtInvolution(0, OneRecord());
    Cipher.DecodeSlice(0, dat, 6, 10);
  }

  lemma OneRecordIsSilent(ctx: Context)
    ensures MatchedSegment(OneRecord(), K1AA, ctx) == []
  {
    hide ParsedSegment, MatchedSegment, RecordBytes, Enrich, AppliedTags, PrintableFields, LastValue;
    Layout(1);
    OneLayout();
    PrintedRecordParses(W1AA, None, ClassField(), ctx);
    PrintedValues(W1AA, None, ClassField(), ctx, City);
    MatchedSegmentFilters(OneRecord(), K1AA, ctx);
    assert Upper(W1AA)[0] != Upper(K1AA)[0];
  }

  lemma BareCallParses(ctx: Context)
    ensures ParsedSegment(K1AA, ctx) == Some(Printed(K1AA, None, [], ctx))
    ensures MatchedSegment(K1AA, K1AA, ctx) == [Printed(K1AA, None, [], ctx)]
  {
    hide MatchedSegment, Enrich, AppliedTags, PrintableFields, FullKey, LooksLikeKey, SplitKey, ApplyFields;
    Layout(1);
    PrintedRecordParses(K1AA, None, [], ctx);
    PrintedValues(K1AA, None, [], ctx, City);
    assert Body(RecordBytes(K1AA, None, [])) == Body(K1AA) by {
      assert K1AA + [] + [] == K1AA;
    }
    MatchedSegmentFilters(K1AA, K1AA, ctx);
  }

  lemma InnerCuts(s: Shard, size: nat)
    requires s.dat == Cipher.DecodeAt(0, OneRecord()) && size >= 4
    ensures |s.dat| == 10 && WindowEnd(s.dat, 6, size) == 10
    ensures ClosedCuts(s.dat, 6, 10) == [] && Cuts(s.dat, 6, 10) == [Span(6, 10)]
  {
    hide Cipher.DecodeAt, RecordBytes, Framing.IsSentinel;
    OneFramed();
    assert CutEnd(s.dat, 6, 10) == 10;
    assert Cuts(s.dat, 10, 10) == [];
  }

  lemma InnerLast(s: Shard)
    requires s.dat == Cipher.DecodeAt(0, OneRecord())
    ensures |s.dat| == 10 && WindowSpans(s, K1AA, 6, []) == [Span(6, 10)]
  {
    hide Cipher.DecodeAt, OneRecord, Cuts, WindowEnd, MatchedSegment, ParsedSegment, Speaking, Framing.IsRecord,
      Printed;
    OneFramed();
    InnerCuts(s, LAST_WINDOW);
    BareCallParses(HciContext(s));
    SpeaksAlone(s, HciContext(s), Span(6, 10));
  }

  lemma {:induction false} InnerWindows(s: Shard, sizes: seq<nat>)
    requires s.dat == Cipher.DecodeAt(0, OneRecord()) && forall i | 0 <= i < |sizes| :: sizes[i] >= 4
    ensures |s.dat| == 10 && WindowSpans(s, K1AA, 6, sizes) == [Span(6, 10)]
  {
    hide Cipher.DecodeAt, OneRecord, ClosedCuts, Cuts, WindowEnd, Speaks;
    InnerLast(s);
    if sizes != [] {
      InnerCuts(s, sizes[0]);
      InnerWindows(s, sizes[1..]);
    }
  }

  lemma InnerPosting(s: Shard)
    requires s.dat == Cipher.DecodeAt(0, OneRecord())
    ensures |s.dat| == 10 && PostingSpans(s, K1AA, 6) == [Span(6, 10)]
  {
    hide Cipher.DecodeAt, OneRecord, WindowSpans, RecordSpans, Framing.IsRecord, Speaking;
    OneFramed();
    InnerRecord(s);
    InnerWindows(s, WINDOWS);
  }

  lemma InnerRecord(s: Shard)
    requires s.dat == Cipher.DecodeAt(0, OneRecord())
    ensures Speaking(s, K1AA, HciContext(s), RecordSpans(s.dat, 6)) == []
  {
    hide Cipher.DecodeAt, OneRecord, MatchedSegment, Framing.IsRecord, Framing.RecordAt, Speaking;
    OneFramed();
    OneRecordIsSilent(HciContext(s));
    Framing.RecordAtExact(s.dat, 6, 0, 10);
    assert RecordSpans(s.dat, 6) == [Span(0, 10)];
    SilentAlone(s, HciContext(s), Span(0, 10));
  }

  lemma OnlyTheOther(s: Shard, p: Span, x: Snapshot)
    requires s.dat == Cipher.DecodeAt(0, OneRecord()) && OnRecordOf(s, p, x)
    ensures x.callsign != K1AA
  {
    hide Cipher.DecodeAt, OneRecord, MatchedSegment, ParsedSegment, Framing.IsSentinel;
    OneFramed();
    OneRecordIsSilent(HciContext(s));
    Framing.RecordUnique(s.dat, p.start, p.start, p.end, 0, 10);
    MatchedSegmentFilters(OneRecord(), K1AA, HciContext(s));
  }

  /** A posting inside that record answers with a snapshot of `K1AA`, which has no record in the file. */
  lemma CutHeadAnswers(s: Shard)
    requires s.dat == Cipher.DecodeAt(0, OneRecord())
    ensures PostingSnapshots(s, K1AA, 6) == [Printed(K1AA, None, [], HciContext(s))]
    ensures forall p, x | OnRecordOf(s, p, x) :: x.callsign != K1AA
  {
    hide Cipher.DecodeAt, OneRecord, PostingSpans, PostingSnapshots, MatchedSegment, ParsedSegment, Printed, OnRecordOf,
      Framing.IsRecord;
    InnerPosting(s);
    SpansAnswer(s, K1AA, 6);
    OneFramed();
    BareCallParses(HciContext(s));
    assert Plains(s.dat, [Span(6, 10)]) == [K1AA];
    MatchedCons(K1AA, [], K1AA, HciContext(s));
    assert [K1AA] + [] == [K1AA];
    NothingMatched(K1AA, HciContext(s));
    forall p, x | OnRecordOf(s, p, x) ensures x.callsign != K1AA {
      OnlyTheOther(s, p, x);
    }
  }
}
