/** A lookup is a scan of the DAT: when nothing reads astray and the indexes reach every record of the query, the
    report says what the records say. */
module DatScan {
  import opened Ascii
  import opened Snapshots
  import opened Records
  import opened Merging
  import opened IdxSearch
  import opened Lookup
  import opened LookupTheorems
  import opened Pieces
  import opened Provenance
  import Cipher
  import Country
  import Framing
  import Hci
  import IdxText
  import Interests

  // ---- one record, read under any key ---------------------------------------------------------

  lemma {:induction false} FieldsOfSource(s: Snapshot, body: Bytes, i: nat, sources: seq<Source>)
    requires i <= |body|
    ensures ApplyFields(s.(sources := sources), body, i) == ApplyFields(s, body, i).(sources := sources)
    decreases |body| - i
  {
    hide CleanAscii;
    if i < |body| {
      if !IsTag(body[i]) {
        FieldsOfSource(s, body, i + 1, sources);
      } else {
        var end := ValueEnd(body, i + 1);
        var value := CleanAscii(body[i + 1..end]);
        if value.Some? && value.value != [] {
          TagOfSource(s, body[i], value.value, sources);
          FieldsOfSource(ApplyTag(s, body[i], value.value), body, end, sources);
        } else {
          FieldsOfSource(s, body, end, sources);
        }
      }
    }
  }

  lemma TagOfSource(s: Snapshot, tag: Byte, value: Bytes, sources: seq<Source>)
    ensures ApplyTag(s.(sources := sources), tag, value) == ApplyTag(s, tag, value).(sources := sources)
  {
    hide FieldOf;
  }

  lemma CountryOfSource(s: Snapshot, sources: seq<Source>, countries: Option<Country.CountryTable>)
    ensures ApplyCountry(s.(sources := sources), countries) == ApplyCountry(s, countries).(sources := sources)
  {
    hide Country.CountryOf, JurisdictionOf;
  }

  lemma InterestsOfSource(s: Snapshot, sources: seq<Source>, interests: Option<Interests.Catalog>)
    ensures ApplyInterests(s.(sources := sources), interests) == ApplyInterests(s, interests).(sources := sources)
  {
    hide Interests.Codes, Interests.ResolveRaw;
  }

  lemma EnrichedOfSource(s: Snapshot, sources: seq<Source>, a: Context, b: Context)
    requires a.countries == b.countries && a.interests == b.interests
    ensures Enrich(s.(sources := sources), b) == Enrich(s, a).(sources := sources)
  {
    hide ApplyCountry, ApplyInterests;
    CountryOfSource(s, sources, a.countries);
    InterestsOfSource(ApplyCountry(s, a.countries), sources, a.interests);
  }

  /** A key without a leading colon is read alike whatever the default key is. */
  lemma OwnKeyIsFree(segment: Bytes, a: Context, b: Context)
    requires !SuffixKey(segment)
    ensures KeyRead(segment, a) == KeyRead(segment, b)
  {
    hide Trim, AllPrintable, LooksLikeKey, SplitKey, KeyEnd;
  }

  /** One with a leading colon is not read without a default key. */
  lemma SuffixNeedsDefault(segment: Bytes, ctx: Context)
    requires SuffixKey(segment) && ctx.defaultKey.None?
    ensures ParsedSegment(segment, ctx) == None
  {
    hide Trim, AllPrintable, LooksLikeKey, SplitKey, KeyEnd;
  }

  /** A record under its own key reads alike through both indexes, but for the source it names. */
  lemma OwnRecordReads(s: Shard, segment: Bytes, key: Bytes)
    requires !SuffixKey(segment)
    ensures ParsedSegment(segment, IdxContext(s, key))
            == match ParsedSegment(segment, HciContext(s))
               case None => None
               case Some(x) => Some(x.(sources := [HamCallDatIdx]))
  {
    hide KeyRead, ApplyFields, Enrich, KeyEnd, Body, SuffixKey;
    var a, b := HciContext(s), IdxContext(s, key);
    OwnKeyIsFree(segment, a, b);
    if KeyRead(segment, a).Some? {
      var (call, vintage) := KeyRead(segment, a).value;
      var bare, body := NewSnapshot(call, vintage, a.source), Body(segment);
      FieldsOfSource(bare, body, KeyEnd(body), [HamCallDatIdx]);
      EnrichedOfSource(ApplyFields(bare, body, KeyEnd(body)), [HamCallDatIdx], a, b);
      assert NewSnapshot(call, vintage, b.source) == bare.(sources := [HamCallDatIdx]);
    }
  }

  // ---- what a scan finds ------------------------------------------------------------------------

  /** A whole record of the DAT that parses to the query under its own key. */
  ghost predicate OwnRecord(s: Shard, q: Bytes, r: Span, x: Snapshot) {
    && Framing.IsRecord(s.dat, r.start, r.end)
    && ParsedSegment(Plain(s.dat, r), HciContext(s)) == Some(x) && x.callsign == q
  }

  /** A whole record with a suffix key, read by an index entry that names the query. */
  ghost predicate SuffixRecord(s: Shard, q: Bytes, r: Span, x: Snapshot)
    requires Valid(s.idx)
  {
    && Framing.IsRecord(s.dat, r.start, r.end) && SuffixKey(Plain(s.dat, r))
    && exists e, p ::
         && e in Rows(s.idx) && NamesCall(e, q) && ReadBy(s, e, r, p)
         && ParsedSegment(Plain(s.dat, r), IdxContext(s, e.key)) == Some(x) && x.callsign == q
  }

  /** The records of the query, and its catalog row. */
  ghost predicate Scanned(db: CallBook, q: Bytes, x: Snapshot)
    requires db.v2.Some? && Valid(db.v2.value.idx)
  {
    || UsCurrent(db, q) == Some(x)
    || exists r :: OwnRecord(db.v2.value, q, r, x) || SuffixRecord(db.v2.value, q, r, x)
  }

  /** A posting of the query's key family lies in the record, or an entry that names the query reads it. */
  ghost predicate Reached(s: Shard, q: Bytes, r: Span)
    requires Valid(s.idx)
  {
    || (s.hci.Some? && exists o: nat :: FamilyPostsAt(s.hci.value, q, o) && r.start <= o < r.end)
    || exists e, p :: e in Rows(s.idx) && NamesCall(e, q) && ReadBy(s, e, r, p)
  }

  ghost predicate AllReached(s: Shard, q: Bytes)
    requires Valid(s.idx)
  {
    forall r, x | OwnRecord(s, q, r, x) :: Reached(s, q, r)
  }

  predicate SameData(x: Snapshot, y: Snapshot) { x == y.(sources := x.sources) }

  lemma CallIsQuery(s: Shard, q: Bytes, ctx: Context, r: Span, x: Snapshot)
    requires OnRecord(s, q, ctx, r, x) && AllCallBytes(q)
    ensures ParsedSegment(Plain(s.dat, r), ctx) == Some(x) && x.callsign == q
  {
    hide ParsedSegment, Plain, Framing.IsRecord;
    ParsedShape(Plain(s.dat, r), ctx);
    UpperIsIdentity(q);
    UpperIsIdentity(x.callsign);
  }

  /** What is held is scanned, unless something reads astray. */
  lemma HeldIsScanned(db: CallBook, q: Bytes, x: Snapshot) returns (y: Snapshot)
    requires OpenedBook(db) && db.v2.Some? && IsQuery(q) && Held(db, q, x) && NothingStrayFor(db.v2.value, q)
    ensures Scanned(db, q, y) && SameData(x, y)
  {
    hide UsCurrent, Held, NothingStrayFor, OnRecord, FamilyPostsAt, NamesCall, Near, ReadBy, ParsedSegment, Plain,
      SuffixKey, Framing.IsRecord, KeysAscend, Hci.Built, AllCallBytes;
    HeldIsRecorded(db, q, x);
    y := x;
    var s := db.v2.value;
    if UsCurrent(db, q) != Some(x) {
      if RecordedPosting(s, q, x) {
        var o: nat, r :| FamilyPostsAt(s.hci.value, q, o) && Near(o, r) && OnRecord(s, q, HciContext(s), r, x);
        OnRecordFramed(s, q, HciContext(s), r, x);
        CallIsQuery(s, q, HciContext(s), r, x);
        assert OwnRecord(s, q, r, x);
      } else {
        var e, r, p :| e in Rows(s.idx) && NamesCall(e, q) && ReadBy(s, e, r, p)
                       && OnRecord(s, q, IdxContext(s, e.key), r, x);
        OnRecordFramed(s, q, IdxContext(s, e.key), r, x);
        CallIsQuery(s, q, IdxContext(s, e.key), r, x);
        if SuffixKey(Plain(s.dat, r)) {
          assert SuffixRecord(s, q, r, x);
        } else {
          OwnRecordReads(s, Plain(s.dat, r), e.key);
          y := ParsedSegment(Plain(s.dat, r), HciContext(s)).value;
          assert OwnRecord(s, q, r, y);
        }
      }
    }
  }

  lemma OnRecordFramed(s: Shard, q: Bytes, ctx: Context, r: Span, x: Snapshot)
    requires OnRecord(s, q, ctx, r, x)
    ensures Framing.IsRecord(s.dat, r.start, r.end) && InFile(s.dat, r)
  {
    hide Framing.IsSentinel, ParsedSegment, Plain;
  }

  /** A record that an entry reads answers that entry. */
  lemma ReadIsHeld(s: Shard, q: Bytes, e: IdxText.Entry, r: Span, p: Span, x: Snapshot)
    requires Valid(s.idx) && ReadBy(s, e, r, p) && Framing.IsRecord(s.dat, r.start, r.end)
    requires ParsedSegment(Plain(s.dat, r), IdxContext(s, e.key)) == Some(x) && x.callsign == q
    ensures x in EntrySnapshots(s, q, e)
  {
    hide ParsedSegment, Plain, Framing.IsSentinel, EntrySnapshots, Framing.RecordAt, PieceOf;
    Framing.RecordAtExact(s.dat, p.start, r.start, r.end);
    PieceAnswersEntry(s, q, e, p, x);
  }

  /** What is scanned is held, when the indexes reach it. */
  lemma ScannedIsHeld(db: CallBook, q: Bytes, y: Snapshot) returns (x: Snapshot)
    requires OpenedBook(db) && db.v2.Some? && IsQuery(q) && Scanned(db, q, y) && AllReached(db.v2.value, q)
    ensures Held(db, q, x) && SameData(x, y)
  {
    hide UsCurrent, OwnRecord, SuffixRecord, AllReached, KeysAscend, Hci.Built, AllCallBytes, LedTo;
    x := y;
    if UsCurrent(db, q) != Some(y) {
      var s := db.v2.value;
      var r :| OwnRecord(s, q, r, y) || SuffixRecord(s, q, r, y);
      if OwnRecord(s, q, r, y) {
        OwnReached(s, q, r, y);
        x := OwnIsLedTo(s, q, r, y);
      } else {
        SuffixIsLedTo(s, q, r, y);
      }
    }
  }

  lemma OwnReached(s: Shard, q: Bytes, r: Span, y: Snapshot)
    requires Valid(s.idx) && AllReached(s, q) && OwnRecord(s, q, r, y)
    ensures Reached(s, q, r)
  {
    hide OwnRecord, Reached;
  }

  lemma OwnIsLedTo(s: Shard, q: Bytes, r: Span, y: Snapshot) returns (x: Snapshot)
    requires Valid(s.idx) && IsQuery(q) && OwnRecord(s, q, r, y) && Reached(s, q, r)
    ensures LedTo(s, q, x) && SameData(x, y)
  {
    hide ParsedSegment, FamilyPostsAt, NamesCall, ReadBy, EntrySnapshots, PostingSnapshots, SuffixKey, AllCallBytes,
      Framing.IsRecord, Cipher.DecodeAt;
    RecordIsInFile(s.dat, r);
    if s.hci.Some? && exists o: nat :: FamilyPostsAt(s.hci.value, q, o) && r.start <= o < r.end {
      var o: nat :| FamilyPostsAt(s.hci.value, q, o) && r.start <= o < r.end;
      PostingDecodesRecord(s, q, o, r.start, r.end, y);
      x := y;
      assert x in PostingSnapshots(s, q, o);
    } else {
      var e, p :| e in Rows(s.idx) && NamesCall(e, q) && ReadBy(s, e, r, p);
      if SuffixKey(Plain(s.dat, r)) {
        SuffixNeedsDefault(Plain(s.dat, r), HciContext(s));
      }
      OwnRecordReads(s, Plain(s.dat, r), e.key);
      x := y.(sources := [HamCallDatIdx]);
      ReadIsHeld(s, q, e, r, p, x);
    }
  }

  lemma RecordIsInFile(dat: Bytes, r: Span)
    requires Framing.IsRecord(dat, r.start, r.end)
    ensures InFile(dat, r) && r.start < r.end
  {
  }

  lemma SuffixIsLedTo(s: Shard, q: Bytes, r: Span, y: Snapshot)
    requires Valid(s.idx) && SuffixRecord(s, q, r, y)
    ensures LedTo(s, q, y)
  {
    hide ParsedSegment, FamilyPostsAt, NamesCall, ReadBy, EntrySnapshots, PostingSnapshots, SuffixKey, Plain,
      Framing.IsRecord;
    RecordIsInFile(s.dat, r);
    var e, p :|
      && e in Rows(s.idx) && NamesCall(e, q) && ReadBy(s, e, r, p)
      && ParsedSegment(Plain(s.dat, r), IdxContext(s, e.key)) == Some(y) && y.callsign == q;
    ReadIsHeld(s, q, e, r, p, y);
  }

  // ---- the report ---------------------------------------------------------------------------------

  lemma ReportedIsScanned(db: CallBook, q: Bytes, m: Snapshot, f: Field) returns (y: Snapshot)
    requires OpenedBook(db) && db.v2.Some? && IsQuery(q) && KeysStrictlyAscend(Rows(db.v2.value.idx))
    requires NothingStrayFor(db.v2.value, q) && Reports(ReportFor(db, q), m)
    ensures Scanned(db, q, y) && y.vintage == m.vintage && Get(y.text, f) == Get(m.text, f)
  {
    hide Scanned, Held, NothingStrayFor, ReportFor, Reports, Get, KeysAscend, KeysStrictlyAscend, Hci.Built, IsQuery;
    NothingInvented(db, q, m, f, UsCsv);
    var x :| Held(db, q, x) && x.vintage == m.vintage && Get(x.text, f) == Get(m.text, f);
    y := HeldIsScanned(db, q, x);
  }

  lemma ScannedIsReported(db: CallBook, q: Bytes, y: Snapshot, f: Field) returns (m: Snapshot)
    requires OpenedBook(db) && db.v2.Some? && IsQuery(q) && KeysStrictlyAscend(Rows(db.v2.value.idx))
    requires AllReached(db.v2.value, q) && Scanned(db, q, y)
    ensures Reports(ReportFor(db, q), m) && m.vintage == y.vintage
    ensures NonEmpty(Get(y.text, f)) ==> NonEmpty(Get(m.text, f))
  {
    hide Scanned, Held, AllReached, ReportFor, Reports, Get, NonEmpty, KeysAscend, KeysStrictlyAscend, Hci.Built,
      IsQuery, TakesFirst, Parts;
    var x := ScannedIsHeld(db, q, y);
    NothingLost(db, q, x);
    m :| Reports(ReportFor(db, q), m) && Keeps(m, x);
    DataHasText(x, y);
  }

  lemma DataHasText(x: Snapshot, y: Snapshot)
    requires SameData(x, y)
    ensures x.text == y.text && x.vintage == y.vintage
  {
  }

  lemma VintageOnce(db: CallBook, q: Bytes, m: Snapshot, n: Snapshot)
    requires OpenedBook(db) && IsQuery(q)
    requires Reports(ReportFor(db, q), m) && Reports(ReportFor(db, q), n) && m.vintage == n.vintage
    ensures m == n
  {
    hide ReportFor, Reports, Parts, FoldMerge, KeysAscend, Hci.Built, IsQuery;
    ReportIsFolds(db, q, m);
    ReportIsFolds(db, q, n);
  }

  /** A lookup is a scan. Unless something reads astray for the query, and when the indexes reach every record of
      it, the vintages of the report are exactly those of the query's records and of its catalog row, a field of a
      reported record has a value exactly when one of those of its vintage has, and that value is one of theirs. */
  lemma LookupIsScan(db: CallBook, q: Bytes, v: Option<nat>, f: Field)
    requires OpenedBook(db) && db.v2.Some? && IsQuery(q) && KeysStrictlyAscend(Rows(db.v2.value.idx))
    requires NothingStrayFor(db.v2.value, q) && AllReached(db.v2.value, q)
    ensures (exists m :: Reports(ReportFor(db, q), m) && m.vintage == v)
            <==> exists x :: Scanned(db, q, x) && x.vintage == v
    ensures forall m | Reports(ReportFor(db, q), m) && m.vintage == v ::
              && (NonEmpty(Get(m.text, f))
                  <==> exists x :: Scanned(db, q, x) && x.vintage == v && NonEmpty(Get(x.text, f)))
              && (exists x :: Scanned(db, q, x) && x.vintage == v && Get(x.text, f) == Get(m.text, f))
  {
    hide Scanned, NothingStrayFor, AllReached, ReportFor, Reports, Get, NonEmpty, KeysAscend, KeysStrictlyAscend,
      Hci.Built, IsQuery;
    if m :| Reports(ReportFor(db, q), m) && m.vintage == v {
      var y := ReportedIsScanned(db, q, m, f);
    }
    if x :| Scanned(db, q, x) && x.vintage == v {
      var m := ScannedIsReported(db, q, x, f);
    }
    forall m | Reports(ReportFor(db, q), m) && m.vintage == v
      ensures NonEmpty(Get(m.text, f))
              <==> exists x :: Scanned(db, q, x) && x.vintage == v && NonEmpty(Get(x.text, f))
      ensures exists x :: Scanned(db, q, x) && x.vintage == v && Get(x.text, f) == Get(m.text, f)
    {
      var y := ReportedIsScanned(db, q, m, f);
      if x :| Scanned(db, q, x) && x.vintage == v && NonEmpty(Get(x.text, f)) {
        var n := ScannedIsReported(db, q, x, f);
        VintageOnce(db, q, m, n);
      }
    }
  }
}
