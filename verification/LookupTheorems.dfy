/** What lookup reports guarantee. */
module LookupTheorems {
  import opened Ascii
  import opened Sorting
  import opened Snapshots
  import opened Records
  import opened Merging
  import opened Folds
  import opened IdxSearch
  import opened Lookup
  import Callsigns
  import Cipher
  import Country
  import Framing
  import Hci
  import HciKeys
  import IdxText
  import Interests

  predicate IsQuery(q: Bytes) { 1 <= |q| <= Callsigns.KEY_LEN && AllCallBytes(q) }

  // ---- arrivals -------------------------------------------------------------------

  /** A decoded snapshot that answers `q`: the call is `q` itself, not just up to letter case. */
  predicate Answers(s: Snapshot, q: Bytes, source: Source) {
    && s.callsign == q
    && s.sources == [source]
    && (s.vintage.Some? ==> s.vintage.value <= 65535)
    && ProperText(s.text) && Interests.CodesFit(s)
  }

  lemma {:induction false} MatchedAnswer(segments: seq<Bytes>, q: Bytes, ctx: Context)
    requires AllCallBytes(q)
    ensures forall i | 0 <= i < |Matched(segments, q, ctx)| :: Answers(Matched(segments, q, ctx)[i], q, ctx.source)
  {
    hide ParsedSegment, MatchedSegment;
    if segments != [] {
      MatchedAnswer(segments[1..], q, ctx);
      SegmentAnswers(segments[0], q, ctx);
    }
  }

  lemma SegmentAnswers(segment: Bytes, q: Bytes, ctx: Context)
    requires AllCallBytes(q)
    ensures forall i | 0 <= i < |MatchedSegment(segment, q, ctx)| ::
              Answers(MatchedSegment(segment, q, ctx)[i], q, ctx.source)
  {
    hide ParsedSegment, MatchedSegment;
    MatchedSegmentFilters(segment, q, ctx);
    if ParsedSegment(segment, ctx).Some? {
      ParsedShape(segment, ctx);
      UpperIsIdentity(q);
      UpperIsIdentity(ParsedSegment(segment, ctx).value.callsign);
    }
  }

  ghost predicate AllAnswer(ss: seq<Snapshot>, q: Bytes, source: Source) {
    forall i | 0 <= i < |ss| :: Answers(ss[i], q, source)
  }

  lemma EntryAnswers(s: Shard, q: Bytes, e: IdxText.Entry)
    requires Valid(s.idx) && AllCallBytes(q)
    ensures AllAnswer(EntrySnapshots(s, q, e), q, HamCallDatIdx)
  {
    hide Answers, Segments, Matched, RawSlice;
    var slice := RawSlice(Rows(s.idx), |s.dat|, e);
    if slice.Some? {
      var decoded := Cipher.DecodeAt(slice.value.0, s.dat[slice.value.0..slice.value.1]);
      MatchedAnswer(Segments(decoded), q, IdxContext(s, e.key));
    }
  }

  lemma {:induction false} EntriesAnswer(s: Shard, q: Bytes, es: seq<IdxText.Entry>)
    requires Valid(s.idx) && AllCallBytes(q)
    ensures AllAnswer(EntriesSnapshots(s, q, es), q, HamCallDatIdx)
  {
    hide Answers, EntrySnapshots;
    if es != [] {
      EntryAnswers(s, q, es[0]);
      EntriesAnswer(s, q, es[1..]);
    }
  }

  lemma {:induction false} WindowsAnswer(s: Shard, q: Bytes, offset: nat, sizes: seq<nat>)
    requires AllCallBytes(q)
    ensures AllAnswer(WindowSnapshots(s, q, offset, sizes), q, HamCallHci)
  {
    hide Answers, Segments, CompleteSegments, Matched, Window;
    if sizes == [] {
      MatchedAnswer(Segments(Window(s.dat, offset, LAST_WINDOW)), q, HciContext(s));
    } else {
      MatchedAnswer(CompleteSegments(Window(s.dat, offset, sizes[0])), q, HciContext(s));
      WindowsAnswer(s, q, offset, sizes[1..]);
    }
  }

  lemma PostingAnswers(s: Shard, q: Bytes, offset: nat)
    requires AllCallBytes(q)
    ensures AllAnswer(PostingSnapshots(s, q, offset), q, HamCallHci)
  {
    hide Answers, Segments, Matched, WindowSnapshots, PostingRecord;
    MatchedAnswer(Segments(PostingRecord(s.dat, offset)), q, HciContext(s));
    WindowsAnswer(s, q, offset, WINDOWS);
  }

  lemma {:induction false} OffsetsAnswer(s: Shard, q: Bytes, offsets: seq<nat>)
    requires AllCallBytes(q)
    ensures AllAnswer(OffsetsSnapshots(s, q, offsets), q, HamCallHci)
  {
    hide Answers, PostingSnapshots;
    if offsets != [] {
      OffsetsAnswer(s, q, offsets[..|offsets| - 1]);
      PostingAnswers(s, q, offsets[|offsets| - 1]);
    }
  }

  predicate Arrival(s: Snapshot, q: Bytes) {
    Answers(s, q, HamCallDatIdx) || Answers(s, q, HamCallHci)
  }

  lemma ArrivalsAnswer(db: CallBook, q: Bytes)
    requires OpenedBook(db) && AllCallBytes(q)
    ensures forall i | 0 <= i < |Arrivals(db, q)| :: Arrival(Arrivals(db, q)[i], q)
  {
    hide Answers, EntriesSnapshots, OffsetsSnapshots, HciOffsets, KeysAscend, BareRun, ColonRun, Hci.Built;
    if db.v2.Some? {
      var s := db.v2.value;
      EntriesAnswer(s, q, FirstOf(BareRun(Rows(s.idx), q)) + ColonRun(Rows(s.idx), q));
      if s.hci.Some? {
        OffsetsAnswer(s, q, HciOffsets(s.hci.value, q));
      }
    }
  }

  // ---- the current record ------------------------------------------------------------

  lemma UsCurrentShape(db: CallBook, q: Bytes)
    requires LoadedBook(db) && IsQuery(q) && UsCurrent(db, q).Some?
    ensures var us := UsCurrent(db, q).value;
            us.vintage.None? && us.sources == [UsCsv] && EqIgnoreCase(us.callsign, q)
  {
    hide PutAll, KeysAscend, Hci.Built;
    Country.NormalizedCall(q);
    UpperIsIdentity(q);
  }

  lemma {:induction false} PutAllNonEmpty(values: seq<(Field, Bytes)>)
    ensures forall f | f in PutAll(values) :: PutAll(values)[f] != []
  {
    if values != [] {
      PutAllNonEmpty(values[..|values| - 1]);
    }
  }

  lemma UsCurrentName(db: CallBook, q: Bytes)
    requires UsCurrent(db, q).Some?
    ensures ProperText(UsCurrent(db, q).value.text)
  {
    hide PutAll, UsValues;
    var r := UsGet(db.v2.value.usCsv.value.records, q).value;
    PutAllNonEmpty(UsValues(r));
  }

  lemma UsCurrentCodes(db: CallBook, q: Bytes)
    requires UsCurrent(db, q).Some?
    ensures Interests.CodesFit(UsCurrent(db, q).value)
  {
    hide PutAll, Trim;
    var r := UsGet(db.v2.value.usCsv.value.records, q).value;
    if InterestCodesRaw in PutAll(UsValues(r)) {
      PutAllOnly(UsValues(r), InterestCodesRaw);
    }
  }

  lemma {:induction false} PutAllOnly(values: seq<(Field, Bytes)>, f: Field)
    requires f in PutAll(values)
    ensures exists k :: 0 <= k < |values| && values[k].0 == f
  {
    hide Trim;
    var n := |values| - 1;
    if f != values[n].0 {
      PutAllOnly(values[..n], f);
      var k :| 0 <= k < |values[..n]| && values[..n][k].0 == f;
      assert values[k].0 == f;
    }
  }

  lemma {:induction false} PutAllKeeps(values: seq<(Field, Bytes)>, i: nat)
    requires i < |values| && forall j, k | 0 <= j < k < |values| :: values[j].0 != values[k].0
    ensures Get(PutAll(values), values[i].0)
            == var t := Trim(values[i].1, STR_SPACE); if t == [] then None else Some(t)
  {
    hide Trim;
    var n := |values| - 1;
    if i < n {
      PutAllKeeps(values[..n], i);
    } else if values[n].0 in PutAll(values[..n]) {
      PutAllOnly(values[..n], values[n].0);
      assert false;
    }
  }

  lemma CatalogHas(db: CallBook, q: Bytes)
    requires OpenedBook(db) && IsQuery(q)
    ensures UsCurrent(db, q).Some? <==>
              db.v2.Some? && db.v2.value.usCsv.Some? && q in db.v2.value.usCsv.value.callsigns
    ensures UsCurrent(db, q).Some? ==>
              && q in db.v2.value.usCsv.value.records
              && UsCurrent(db, q).value == FromUsCsv(db.v2.value.usCsv.value.records[q])
  {
    hide FromUsCsv, Trim, KeysAscend, Hci.Built, Country.NormalCall, Country.Indexed, IdxText.TableFrom, Valid, Upper;
    Country.NormalizedCall(q);
    NoColon(q);
  }

  /** The catalog has no rows for archive keys, and none for nothing. */
  lemma NoDatedRow(catalog: UsCatalog, callsign: Bytes)
    ensures COLON in callsign || (forall b | b in callsign :: b in STR_SPACE) ==> UsGet(catalog, callsign) == None
  {
    hide Trim;
    if COLON in callsign {
      TrimKeeps(callsign, STR_SPACE, COLON);
      var t := Trim(callsign, STR_SPACE);
      var i :| 0 <= i < |t| && t[i] == COLON;
      assert Upper(t)[i] == COLON;
    }
    TrimNothing(callsign, STR_SPACE);
  }

  /** What a column leaves of its field: the trimmed text, or nothing when it is blank. */
  function Column(value: Bytes): Option<Bytes> {
    var t := Trim(value, STR_SPACE);
    if t == [] then None else Some(t)
  }

  lemma NoFieldTwice(r: UsRecord)
    ensures |UsValues(r)| == 9
    ensures forall j, k | 0 <= j < k < 9 :: UsValues(r)[j].0 != UsValues(r)[k].0
    ensures forall k | 0 <= k < 9 :: UsValues(r)[k].0 != Field.Country
  {
  }

  lemma ColumnShown(r: UsRecord, i: nat, f: Field, value: Bytes)
    requires i < |UsValues(r)| && UsValues(r)[i] == (f, value)
    ensures Get(FromUsCsv(r).text, f) == Column(value)
  {
    hide PutAll, Trim, UsValues;
    NoFieldTwice(r);
    PutAllKeeps(UsValues(r), i);
  }

  /** `s` shows every column of the row under the column's own field, in the country `United States`; besides the
      source it has no other text, no codes, no interests and no raw tags. */
  predicate ShowsRow(s: Snapshot, r: UsRecord) {
    && s == Snapshot(r.callsign, None, [UsCsv], UnitedStates, s.text, [], [], map[])
    && Get(s.text, LicenseClass) == Column(r.class_)
    && Get(s.text, LastName) == Column(r.name)
    && Get(s.text, Address) == Column(r.address)
    && Get(s.text, City) == Column(r.city)
    && Get(s.text, StateOrProvince) == Column(r.state)
    && Get(s.text, PostalCode) == Column(r.zip)
    && Get(s.text, County) == Column(r.county)
    && Get(s.text, FirstIssued) == Column(r.issued)
    && Get(s.text, FccTransactionType) == Column(r.transaction)
    && Get(s.text, Field.Country) == Some(Text("United States"))
    && s.text.Keys <= {LicenseClass, LastName, Address, City, StateOrProvince, PostalCode, County, FirstIssued,
                       FccTransactionType, Field.Country}
  }

  lemma RowShown(r: UsRecord)
    ensures ShowsRow(FromUsCsv(r), r)
  {
    hide Get, Column, PutAll;
    ColumnShown(r, 0, LicenseClass, r.class_);
    ColumnShown(r, 1, LastName, r.name);
    ColumnShown(r, 2, Address, r.address);
    ColumnShown(r, 3, City, r.city);
    ColumnShown(r, 4, StateOrProvince, r.state);
    ColumnShown(r, 5, PostalCode, r.zip);
    ColumnShown(r, 6, County, r.county);
    ColumnShown(r, 7, FirstIssued, r.issued);
    ColumnShown(r, 8, FccTransactionType, r.transaction);
    RowRest(r);
  }

  /** Besides its columns the row brings the country, the jurisdiction and the source, and nothing else. */
  lemma RowRest(r: UsRecord)
    ensures var s := FromUsCsv(r);
            && s == Snapshot(r.callsign, None, [UsCsv], UnitedStates, s.text, [], [], map[])
            && Get(s.text, Field.Country) == Some(Text("United States"))
            && s.text.Keys <= {LicenseClass, LastName, Address, City, StateOrProvince, PostalCode, County,
                               FirstIssued, FccTransactionType, Field.Country}
  {
    hide PutAll, Trim;
    forall f | f in PutAll(UsValues(r)) ensures exists k :: 0 <= k < |UsValues(r)| && UsValues(r)[k].0 == f {
      PutAllOnly(UsValues(r), f);
    }
  }

  /** The catalog gives a current record exactly for the callsigns it lists, and that record shows the row. */
  lemma CatalogRowShown(db: CallBook, q: Bytes)
    requires OpenedBook(db) && IsQuery(q)
    ensures UsCurrent(db, q).Some? <==>
              db.v2.Some? && db.v2.value.usCsv.Some? && q in db.v2.value.usCsv.value.callsigns
    ensures UsCurrent(db, q).Some? ==> ShowsRow(UsCurrent(db, q).value, db.v2.value.usCsv.value.records[q])
  {
    hide UsCurrent, UsValues, FromUsCsv, OpenedBook, IsQuery, ShowsRow;
    CatalogHas(db, q);
    if UsCurrent(db, q).Some? {
      RowShown(db.v2.value.usCsv.value.records[q]);
    }
  }

  /** The records folded into `current`: the catalog row first, then the undated arrivals. */
  function CurrentParts(db: CallBook, q: Bytes): seq<Snapshot>
    requires db.v2.Some? ==> Valid(db.v2.value.idx)
  {
    var us := UsCurrent(db, q);
    (if us.Some? then [us.value] else []) + Filter((s: Snapshot) => s.vintage.None?, Arrivals(db, q))
  }

  lemma CurrentIsTheFold(db: CallBook, q: Bytes)
    requires OpenedBook(db) && IsQuery(q)
    ensures var parts := CurrentParts(db, q);
            ReportFor(db, q).current == if parts == [] then None else Some(FoldMerge(parts))
  {
    hide Arrivals, UsCurrent, FoldMerge, Filter, KeysAscend, Hci.Built, MergeAll, Sort;
    CurrentIsFold(UsCurrent(db, q), Arrivals(db, q));
    var undated := Filter((s: Snapshot) => s.vintage.None?, Arrivals(db, q));
    assert [] + undated == undated;
  }

  lemma CurrentShape(db: CallBook, q: Bytes)
    requires OpenedBook(db) && IsQuery(q) && ReportFor(db, q).current.Some?
    ensures var c := ReportFor(db, q).current.value; c.vintage.None? && EqIgnoreCase(c.callsign, q)
  {
    hide Arrivals, UsCurrent, FoldMerge, Filter, ReportFor, KeysAscend, Hci.Built, Answers;
    CurrentIsTheFold(db, q);
    var us, parts := UsCurrent(db, q), CurrentParts(db, q);
    var first := parts[0];
    FoldKeepsKey(parts, KeyOf(first));
    if us.Some? {
      UsCurrentShape(db, q);
    } else {
      ArrivalsAnswer(db, q);
      var p := (s: Snapshot) => s.vintage.None?;
      FilterMembers(p, Arrivals(db, q));
      assert first in Filter(p, Arrivals(db, q));
      ArrivalCall(first, q);
    }
  }

  lemma ArrivalCall(s: Snapshot, q: Bytes)
    requires Arrival(s, q)
    ensures s.callsign == q
  {
  }

  // ---- the history ---------------------------------------------------------------------

  lemma HistoryOrder()
    ensures TotalPreorder(HistoryLe)
  {
    hide Le;
    forall x: Snapshot, y: Snapshot ensures HistoryLe(x, y) || HistoryLe(y, x) {
      LeTotal(x.callsign, y.callsign);
    }
    forall x: Snapshot, y: Snapshot, z: Snapshot | HistoryLe(x, y) && HistoryLe(y, z) ensures HistoryLe(x, z) {
      if x.vintage == y.vintage == z.vintage {
        LeTransitive(x.callsign, y.callsign, z.callsign);
      }
    }
  }

  function VintageGroup(db: CallBook, q: Bytes, y: nat): seq<Snapshot>
    requires db.v2.Some? ==> Valid(db.v2.value.idx)
  {
    Group(Arrivals(db, q), Key(q, Some(y)))
  }

  function Merged(db: CallBook, q: Bytes): seq<Snapshot>
    requires db.v2.Some? ==> Valid(db.v2.value.idx)
  {
    MergeAll(Acc(UsCurrent(db, q), []), Arrivals(db, q)).history
  }

  lemma ReportHistory(db: CallBook, q: Bytes)
    requires OpenedBook(db)
    ensures ReportFor(db, q).history == Sort(HistoryLe, Merged(db, q))
  {
    hide MergeAll, Sort, Arrivals, UsCurrent, KeysAscend, Hci.Built;
  }

  lemma KeysOfArrivals(arrivals: seq<Snapshot>, q: Bytes, k: Key)
    requires forall i | 0 <= i < |arrivals| :: arrivals[i].callsign == q
    ensures k in HistoryKeys(arrivals) <==> k.callsign == q && k.vintage.Some? && Group(arrivals, k) != []
  {
    hide Dedup, Filter;
    var dated := Dated(arrivals);
    DedupMeaning(Keys(dated));
    FilterMembers((s: Snapshot) => s.vintage.Some?, arrivals);
    FilterMembers((s: Snapshot) => KeyOf(s) == k, arrivals);
    if k in HistoryKeys(arrivals) {
      var i :| 0 <= i < |Keys(dated)| && Keys(dated)[i] == k;
      assert dated[i] in dated;
      assert dated[i] in Group(arrivals, k);
    }
    if k.vintage.Some? && Group(arrivals, k) != [] {
      var s := Group(arrivals, k)[0];
      assert s in Group(arrivals, k);
      assert s in dated;
      var i :| 0 <= i < |dated| && dated[i] == s;
      assert Keys(dated)[i] == k;
    }
  }

  /** One record per vintage that occurs among the arrivals, the fold of that vintage. */
  ghost predicate OnePerVintage(m: seq<Snapshot>, arrivals: seq<Snapshot>, q: Bytes) {
    && (forall i | 0 <= i < |m| ::
          && m[i].callsign == q && m[i].vintage.Some?
          && Group(arrivals, Key(q, Some(m[i].vintage.value))) != []
          && m[i] == FoldMerge(Group(arrivals, Key(q, Some(m[i].vintage.value)))))
    && (forall i, j | 0 <= i < j < |m| :: m[i].vintage != m[j].vintage)
    && (forall y: nat :: Group(arrivals, Key(q, Some(y))) != []
          ==> exists i :: 0 <= i < |m| && m[i].vintage == Some(y))
  }

  /** So is the merged history, before sorting. */
  lemma MergedVintages(us: Option<Snapshot>, arrivals: seq<Snapshot>, q: Bytes, m: seq<Snapshot>)
    requires forall i | 0 <= i < |arrivals| :: arrivals[i].callsign == q
    requires m == MergeAll(Acc(us, []), arrivals).history
    ensures OnePerVintage(m, arrivals, q)
  {
    hide MergeAll, FoldMerge, HistoryKeys, Group;
    HistoryIsGroupedFold(us, arrivals);
    KeyListDistinct(arrivals);
    var ks := HistoryKeys(arrivals);
    forall i | 0 <= i < |m| ensures KeyOf(m[i]) == ks[i] && ks[i].callsign == q && ks[i].vintage.Some? {
      KeysOfArrivals(arrivals, q, ks[i]);
    }
    forall i | 0 <= i < |m| ensures m[i].vintage.Some? && Key(q, Some(m[i].vintage.value)) == ks[i] {
      assert KeyOf(m[i]) == ks[i];
    }
    forall y: nat | Group(arrivals, Key(q, Some(y))) != []
      ensures exists i :: 0 <= i < |m| && m[i].vintage == Some(y)
    {
      KeysOfArrivals(arrivals, q, Key(q, Some(y)));
      var i :| 0 <= i < |ks| && ks[i] == Key(q, Some(y));
      assert m[i].vintage == Some(y);
    }
  }

  lemma MergedHistory(db: CallBook, q: Bytes)
    requires OpenedBook(db) && IsQuery(q)
    ensures OnePerVintage(Merged(db, q), Arrivals(db, q), q)
  {
    hide MergeAll, Arrivals, UsCurrent, Answers, OnePerVintage, KeysAscend, Hci.Built;
    ArrivalsAnswer(db, q);
    forall i | 0 <= i < |Arrivals(db, q)| ensures Arrivals(db, q)[i].callsign == q {
      ArrivalCall(Arrivals(db, q)[i], q);
    }
    MergedVintages(UsCurrent(db, q), Arrivals(db, q), q, Merged(db, q));
  }

  ghost predicate VintagesAscend(history: seq<Snapshot>) {
    && (forall i | 0 <= i < |history| :: history[i].vintage.Some?)
    && (forall i, j | 0 <= i < j < |history| :: history[i].vintage.value < history[j].vintage.value)
  }

  lemma SortedVintages(m: seq<Snapshot>)
    requires forall i | 0 <= i < |m| :: m[i].vintage.Some?
    requires forall i, j | 0 <= i < j < |m| :: m[i].vintage != m[j].vintage
    ensures VintagesAscend(Sort(HistoryLe, m))
  {
    hide Sort, HistoryLe;
    var r := Sort(HistoryLe, m);
    HistoryOrder();
    SortSorts(HistoryLe, m);
    SortMembers(HistoryLe, m);
    forall i | 0 <= i < |r| ensures r[i].vintage.Some? {
      assert r[i] in m;
    }
    forall i, j | 0 <= i < j < |r| ensures r[i].vintage.value < r[j].vintage.value {
      assert HistoryLe(r[i], r[j]);
      OneEach(m, r, i, j);
      LaterVintage(r[i], r[j]);
    }
  }

  lemma LaterVintage(a: Snapshot, b: Snapshot)
    requires HistoryLe(a, b) && a.vintage.Some? && b.vintage.Some? && a.vintage != b.vintage
    ensures a.vintage.value < b.vintage.value
  {
    hide Le;
  }

  lemma OneEach(m: seq<Snapshot>, r: seq<Snapshot>, i: nat, j: nat)
    requires multiset(m) == multiset(r)
    requires forall a, b | 0 <= a < b < |m| :: m[a].vintage != m[b].vintage
    requires i < j < |r|
    ensures r[i].vintage != r[j].vintage
  {
    SameMultisetDistinct(m, r);
    assert r[i] in multiset(m) && r[j] in multiset(m);
    var a :| 0 <= a < |m| && m[a] == r[i];
    var b :| 0 <= b < |m| && m[b] == r[j];
    assert a != b;
    assert m[if a < b then a else b].vintage != m[if a < b then b else a].vintage;
  }

  /** The history holds, per vintage that occurs among the arrivals, the fold of its arrivals. */
  lemma HistoryExact(db: CallBook, q: Bytes, h: Snapshot)
    requires OpenedBook(db) && IsQuery(q)
    ensures h in ReportFor(db, q).history
            <==> && h.callsign == q && h.vintage.Some? && VintageGroup(db, q, h.vintage.value) != []
                 && h == FoldMerge(VintageGroup(db, q, h.vintage.value))
    ensures VintagesAscend(ReportFor(db, q).history)
  {
    hide Sort, Merged, Group, FoldMerge, ReportFor, KeysAscend, Hci.Built, IsQuery, Arrivals;
    var m := Merged(db, q);
    MergedHistory(db, q);
    ReportHistory(db, q);
    SortedVintages(m);
    SortMembers(HistoryLe, m);
    if h.vintage.Some? && VintageGroup(db, q, h.vintage.value) != []
       && h == FoldMerge(VintageGroup(db, q, h.vintage.value)) {
      var i :| 0 <= i < |m| && m[i].vintage == Some(h.vintage.value);
      assert m[i] == h;
    }
  }

  // ---- the report as a whole ---------------------------------------------------------------

  /** History records carry the query's call and a vintage, strictly ascending; the current record is undated
      and names the query up to letter case; and the status says exactly which of the two exist. */
  ghost predicate Shaped(r: LookupResult) {
    && (forall h | h in r.history :: h.callsign == r.query && h.vintage.Some?)
    && VintagesAscend(r.history)
    && (r.current.Some? ==> r.current.value.vintage.None? && EqIgnoreCase(r.current.value.callsign, r.query))
    && (r.status == Current <==> r.current.Some?)
    && (r.status == ArchiveOnly <==> r.current.None? && r.history != [])
    && (r.status == NotFound <==> r.current.None? && r.history == [])
  }

  lemma ReportIsShaped(q: Bytes, us: Option<Snapshot>, arrivals: seq<Snapshot>)
    requires us.Some? ==> us.value.vintage.None? && EqIgnoreCase(us.value.callsign, q)
    requires forall i | 0 <= i < |arrivals| :: arrivals[i].callsign == q
    ensures ReportOf(q, us, arrivals).query == q && Shaped(ReportOf(q, us, arrivals))
  {
    hide VintagesAscend, Upper, MergeAll, Sort, Group, FoldMerge;
    var m, r := MergeAll(Acc(us, []), arrivals).history, ReportOf(q, us, arrivals);
    MergedVintages(us, arrivals, q, m);
    SortedVintages(m);
    SortMembers(HistoryLe, m);
    forall h | h in r.history ensures h.callsign == q && h.vintage.Some? {
      var i :| 0 <= i < |m| && m[i] == h;
    }
    CurrentOfQuery(q, us, arrivals);
  }

  lemma CurrentOfQuery(q: Bytes, us: Option<Snapshot>, arrivals: seq<Snapshot>)
    requires us.Some? ==> us.value.vintage.None? && EqIgnoreCase(us.value.callsign, q)
    requires forall i | 0 <= i < |arrivals| :: arrivals[i].callsign == q
    ensures var c := MergeAll(Acc(us, []), arrivals).current;
            c.Some? ==> c.value.vintage.None? && EqIgnoreCase(c.value.callsign, q)
  {
    hide MergeAll, FoldMerge, Filter;
    var p := (s: Snapshot) => s.vintage.None?;
    var undated := Filter(p, arrivals);
    CurrentIsFold(us, arrivals);
    if us.Some? {
      FoldKeepsKey([us.value] + undated, KeyOf(us.value));
    } else if undated != [] {
      FilterMembers(p, arrivals);
      assert undated[0] in undated;
      FoldKeepsKey(undated, KeyOf(undated[0]));
    }
  }

  /** A slice of the DAT that the index search found, and the key it was found under. */
  datatype Found = Found(start: nat, end: nat, key: Bytes)

  predicate AllFound(dat: Bytes, found: seq<Found>) {
    forall i | 0 <= i < |found| :: found[i].start <= found[i].end <= |dat|
  }

  function FoundSnapshots(s: Shard, q: Bytes, found: seq<Found>): seq<Snapshot>
    requires AllFound(s.dat, found)
  {
    if found == [] then []
    else
      var f := found[0];
      Matched(Segments(Cipher.DecodeAt(f.start, s.dat[f.start..f.end])), q, IdxContext(s, f.key))
      + FoundSnapshots(s, q, found[1..])
  }

  /** What a lookup answers when its index search finds these slices. */
  function LookupReportOn(db: CallBook, callsign: Bytes, found: seq<Found>): Result<LookupResult>
    requires db.v2.Some? ==> AllFound(db.v2.value.dat, found)
  {
    match Callsigns.Normalize(callsign)
    case None => InvalidCallsign(callsign)
    case Some(q) =>
      var s := db.v2;
      var arrivals := if s.None? then [] else FoundSnapshots(s.value, q, found) + HciSnapshots(s.value, q);
      Ok(ReportOf(q, UsCurrent(db, q), arrivals))
  }

  /** Every report has its shape, whatever slices the index search finds, on keys in no order too; and only
      invalid callsigns are refused. */
  lemma WholeLookup(db: CallBook, callsign: Bytes, found: seq<Found>)
    requires LoadedBook(db) && (db.v2.Some? ==> AllFound(db.v2.value.dat, found))
    ensures LookupReportOn(db, callsign, found).InvalidCallsign? <==> Callsigns.Normalize(callsign).None?
    ensures LookupReportOn(db, callsign, found).Ok? ==>
              var r := LookupReportOn(db, callsign, found).value;
              Callsigns.Normalize(callsign) == Some(r.query) && Shaped(r)
  {
    hide Callsigns.Normalize, UsCurrent, HciSnapshots, FoundSnapshots, ReportOf, Shaped, Hci.Built, HciOffsets,
      OffsetsSnapshots, Answers, AllCallBytes;
    var normal := Callsigns.Normalize(callsign);
    if normal.Some? {
      var q := normal.value;
      NormalIsQuery(callsign);
      if UsCurrent(db, q).Some? {
        UsCurrentShape(db, q);
      }
      if db.v2.Some? {
        FoundAnswers(db.v2.value, q, found);
        HciAnswers(db.v2.value, q);
        ReportIsShaped(q, UsCurrent(db, q), FoundSnapshots(db.v2.value, q, found) + HciSnapshots(db.v2.value, q));
      } else {
        ReportIsShaped(q, UsCurrent(db, q), []);
      }
    }
  }

  lemma NormalIsQuery(callsign: Bytes)
    requires Callsigns.Normalize(callsign).Some?
    ensures IsQuery(Callsigns.Normalize(callsign).value)
  {
  }

  lemma {:induction false} FoundAnswers(s: Shard, q: Bytes, found: seq<Found>)
    requires AllFound(s.dat, found) && AllCallBytes(q)
    ensures forall i | 0 <= i < |FoundSnapshots(s, q, found)| :: FoundSnapshots(s, q, found)[i].callsign == q
  {
    hide Matched, SegmentsFrom, Cipher.DecodeAt;
    if found != [] {
      var f := found[0];
      MatchedAnswer(Segments(Cipher.DecodeAt(f.start, s.dat[f.start..f.end])), q, IdxContext(s, f.key));
      FoundAnswers(s, q, found[1..]);
    }
  }

  lemma HciAnswers(s: Shard, q: Bytes)
    requires AllCallBytes(q)
    ensures forall i | 0 <= i < |HciSnapshots(s, q)| :: HciSnapshots(s, q)[i].callsign == q
  {
    hide OffsetsSnapshots, HciOffsets;
    if s.hci.Some? {
      OffsetsAnswer(s, q, HciOffsets(s.hci.value, q));
    }
  }

  /** The slices behind a list of index entries. */
  function FoundFor(s: Shard, es: seq<IdxText.Entry>): (found: seq<Found>)
    requires Valid(s.idx)
    ensures AllFound(s.dat, found)
  {
    if es == [] then []
    else
      var slice := RawSlice(Rows(s.idx), |s.dat|, es[0]);
      (if slice.Some? then [Found(slice.value.0, slice.value.1, es[0].key)] else []) + FoundFor(s, es[1..])
  }

  lemma {:induction false} EntriesAreFound(s: Shard, q: Bytes, es: seq<IdxText.Entry>)
    requires Valid(s.idx)
    ensures EntriesSnapshots(s, q, es) == FoundSnapshots(s, q, FoundFor(s, es))
  {
    hide Matched, SegmentsFrom, Cipher.DecodeAt, RawSlice;
    if es != [] {
      EntriesAreFound(s, q, es[1..]);
      var slice, rest := RawSlice(Rows(s.idx), |s.dat|, es[0]), FoundFor(s, es[1..]);
      if slice.Some? {
        assert FoundFor(s, es) == [Found(slice.value.0, slice.value.1, es[0].key)] + rest;
        assert FoundFor(s, es)[1..] == rest;
      } else {
        assert FoundFor(s, es) == rest;
      }
    }
  }

  /** The lookup of an opened book is the one whose search finds the slices of the two-pass entries. */
  lemma LookupIsOn(db: CallBook, callsign: Bytes)
    requires OpenedBook(db)
    ensures Callsigns.Normalize(callsign).Some? ==>
              var q := Callsigns.Normalize(callsign).value;
              var found := if db.v2.None? then []
                           else var s := db.v2.value;
                                FoundFor(s, FirstOf(BareRun(Rows(s.idx), q)) + ColonRun(Rows(s.idx), q));
              LookupReport(db, callsign) == LookupReportOn(db, callsign, found)
  {
    hide Callsigns.Normalize, UsCurrent, HciSnapshots, FoundSnapshots, FoundFor, ReportOf, Hci.Built, KeysAscend,
      EntriesSnapshots, BareRun, ColonRun;
    var normal := Callsigns.Normalize(callsign);
    if normal.Some? && db.v2.Some? {
      var s, q := db.v2.value, normal.value;
      EntriesAreFound(s, q, FirstOf(BareRun(Rows(s.idx), q)) + ColonRun(Rows(s.idx), q));
    }
  }

  // ---- growing windows -------------------------------------------------------------------

  lemma WindowExtends(dat: Bytes, offset: nat, a: nat, b: nat)
    requires a <= b
    ensures Window(dat, offset, a) <= Window(dat, offset, b)
  {
    hide Cipher.DecodeByte;
  }

  lemma WindowStep(s: Shard, q: Bytes, offset: nat, size: nat)
    requires size <= LAST_WINDOW
    ensures Matched(CompleteSegments(Window(s.dat, offset, size)), q, HciContext(s))
         <= Matched(Segments(Window(s.dat, offset, LAST_WINDOW)), q, HciContext(s))
  {
    hide Window, Matched, Segments, CompleteSegments;
    var a, b := Window(s.dat, offset, size), Window(s.dat, offset, LAST_WINDOW);
    WindowExtends(s.dat, offset, size, LAST_WINDOW);
    assert b == a + b[|a|..];
    WindowGrows(a, b[|a|..], q, HciContext(s));
  }

  /** Stopping at an early window never changes an answer, it can only shorten it: the result is a
      prefix of what the last window alone reports, and is empty only when that is. */
  lemma {:induction false} WindowAnswer(s: Shard, q: Bytes, offset: nat, sizes: seq<nat>)
    requires forall i | 0 <= i < |sizes| :: sizes[i] <= LAST_WINDOW
    ensures var all := Matched(Segments(Window(s.dat, offset, LAST_WINDOW)), q, HciContext(s));
            && WindowSnapshots(s, q, offset, sizes) <= all
            && (WindowSnapshots(s, q, offset, sizes) == [] <==> all == [])
  {
    hide Window, Matched, Segments, CompleteSegments;
    if sizes != [] {
      WindowStep(s, q, offset, sizes[0]);
      WindowAnswer(s, q, offset, sizes[1..]);
    }
  }

  // ---- where arrivals come from ---------------------------------------------------------------

  lemma {:induction false} OffsetsMembers(s: Shard, q: Bytes, offsets: seq<nat>, x: Snapshot)
    ensures x in OffsetsSnapshots(s, q, offsets) <==> exists o :: o in offsets && x in PostingSnapshots(s, q, o)
  {
    hide PostingSnapshots;
    if offsets != [] {
      var init := offsets[..|offsets| - 1];
      OffsetsMembers(s, q, init, x);
      assert offsets == init + [offsets[|offsets| - 1]];
    }
  }

  lemma {:induction false} EntriesMembers(s: Shard, q: Bytes, es: seq<IdxText.Entry>, x: Snapshot)
    requires Valid(s.idx)
    ensures x in EntriesSnapshots(s, q, es) <==> exists e :: e in es && x in EntrySnapshots(s, q, e)
  {
    hide EntrySnapshots;
    if es != [] {
      EntriesMembers(s, q, es[1..], x);
      assert es == [es[0]] + es[1..];
    }
  }

  /** Some record of the inverted file, keyed in the family of `q`, has a posting at `o`. */
  ghost predicate FamilyPostsAt(h: Hci.HciFile, q: Bytes, o: nat) {
    exists i: nat, p: Hci.Posting :: i < Hci.Reachable(h) && HciKeys.FamilyRecordHas(h, q, i, p) && p.datOffset == o
  }

  /** One lookup decodes each DAT offset once, and exactly the offsets its key family posts. */
  lemma OffsetsOnce(h: Hci.HciFile, q: Bytes, o: nat)
    requires Hci.Built(h) && IsQuery(q)
    ensures Distinct(HciOffsets(h, q))
    ensures o in HciOffsets(h, q) <==> FamilyPostsAt(h, q, o)
  {
    hide Hci.Built, HciKeys.FamilyPostings, HciKeys.LookupKeys,
      HciKeys.FamilyRecordHas, Dedup, Hci.Reachable, AllCallBytes;
    var ps := HciKeys.FamilyPostings(h, HciKeys.LookupKeys(q, h.years));
    var os := OffsetsOf(ps);
    DedupMeaning(os);
    if o in os {
      var k :| 0 <= k < |os| && os[k] == o;
      assert ps[k] in ps;
      HciKeys.LookupVisitsFamily(h, q, ps[k]);
    }
    if i: nat, p: Hci.Posting :| i < Hci.Reachable(h) && HciKeys.FamilyRecordHas(h, q, i, p) && p.datOffset == o {
      HciKeys.LookupVisitsFamily(h, q, p);
      var k :| 0 <= k < |ps| && ps[k] == p;
      assert os[k] == o;
    }
  }

  /** `x` is decoded from a DAT slice or record that one of the two indexes gives for `q`. */
  ghost predicate LedTo(s: Shard, q: Bytes, x: Snapshot)
    requires Valid(s.idx)
  {
    || (exists e :: e in Rows(s.idx) && IdxSearch.NamesCall(e, q) && x in EntrySnapshots(s, q, e))
    || (s.hci.Some? && exists o: nat :: FamilyPostsAt(s.hci.value, q, o) && x in PostingSnapshots(s, q, o))
  }

  lemma NoColon(q: Bytes)
    requires AllCallBytes(q)
    ensures COLON !in q
  {
  }

  lemma IdxArrivals(s: Shard, q: Bytes, x: Snapshot)
    requires Opened(s) && KeysStrictlyAscend(Rows(s.idx)) && IsQuery(q)
    ensures x in IdxSnapshots(s, q)
            <==> exists e :: e in Rows(s.idx) && IdxSearch.NamesCall(e, q) && x in EntrySnapshots(s, q, e)
  {
    hide EntrySnapshots, EntriesSnapshots, KeysAscend, KeysStrictlyAscend,
      BareRun, ColonRun, Filter, IdxSearch.NamesCall, Hci.Built;
    var rows := Rows(s.idx);
    var es := FirstOf(BareRun(rows, q)) + ColonRun(rows, q);
    NoColon(q);
    FindCallsignStrict(rows, q);
    FilterMembers((e: IdxText.Entry) => IdxSearch.NamesCall(e, q), rows);
    EntriesMembers(s, q, es, x);
  }

  lemma HciArrivals(s: Shard, q: Bytes, x: Snapshot)
    requires Opened(s) && IsQuery(q)
    ensures x in HciSnapshots(s, q)
            <==> s.hci.Some? && exists o: nat :: FamilyPostsAt(s.hci.value, q, o) && x in PostingSnapshots(s, q, o)
  {
    hide PostingSnapshots, OffsetsSnapshots, HciOffsets, FamilyPostsAt, KeysAscend, Hci.Built, AllCallBytes;
    if s.hci.Some? {
      var h := s.hci.value;
      OffsetsMembers(s, q, HciOffsets(h, q), x);
      forall o: nat ensures o in HciOffsets(h, q) <==> FamilyPostsAt(h, q, o) {
        OffsetsOnce(h, q, o);
      }
    }
  }

  /** What is merged into a report is exactly what a full scan of both indexes finds for the query. */
  lemma ArrivalsComplete(db: CallBook, q: Bytes, x: Snapshot)
    requires OpenedBook(db) && IsQuery(q)
    requires db.v2.Some? ==> KeysStrictlyAscend(Rows(db.v2.value.idx))
    ensures x in Arrivals(db, q) <==> db.v2.Some? && LedTo(db.v2.value, q, x)
  {
    hide IdxSnapshots, HciSnapshots, EntrySnapshots, PostingSnapshots, FamilyPostsAt,
      KeysAscend, KeysStrictlyAscend, Hci.Built, IsQuery, IdxSearch.NamesCall;
    if db.v2.Some? {
      IdxArrivals(db.v2.value, q, x);
      HciArrivals(db.v2.value, q, x);
    }
  }

  lemma GroupMember(arrivals: seq<Snapshot>, k: Key)
    ensures Group(arrivals, k) != [] <==> exists x :: x in arrivals && KeyOf(x) == k
  {
    var p := (s: Snapshot) => KeyOf(s) == k;
    FilterMembers(p, arrivals);
    if Group(arrivals, k) != [] {
      assert Group(arrivals, k)[0] in Group(arrivals, k);
    }
  }

  /** A vintage is in the history exactly when some indexed snapshot of the query has it. */
  lemma VintageReported(db: CallBook, q: Bytes, y: nat)
    requires OpenedBook(db) && IsQuery(q)
    requires db.v2.Some? ==> KeysStrictlyAscend(Rows(db.v2.value.idx))
    ensures (exists h :: h in ReportFor(db, q).history && h.vintage == Some(y))
            <==> db.v2.Some? && exists x :: LedTo(db.v2.value, q, x) && x.vintage == Some(y)
  {
    hide LedTo, ReportFor, Arrivals, Answers, Group,
      FoldMerge, KeysStrictlyAscend, IsQuery, AllCallBytes, KeysAscend, Hci.Built;
    var arrivals, k := Arrivals(db, q), Key(q, Some(y));
    GroupMember(arrivals, k);
    ArrivalsKeyed(db, q);
    forall x ensures x in arrivals <==> db.v2.Some? && LedTo(db.v2.value, q, x) {
      ArrivalsComplete(db, q, x);
    }
    if h :| h in ReportFor(db, q).history && h.vintage == Some(y) {
      HistoryExact(db, q, h);
    }
    if x :| x in arrivals && x.vintage == Some(y) {
      assert KeyOf(x) == k;
      var h := FoldMerge(VintageGroup(db, q, y));
      GroupFoldKey(arrivals, k);
      HistoryExact(db, q, h);
    }
  }

  lemma ArrivalsKeyed(db: CallBook, q: Bytes)
    requires OpenedBook(db) && IsQuery(q)
    ensures forall x :: x in Arrivals(db, q) ==> x.callsign == q
  {
    hide Arrivals, Answers, KeysAscend, Hci.Built;
    ArrivalsAnswer(db, q);
    forall x | x in Arrivals(db, q) ensures x.callsign == q {
      ArrivalCall(x, q);
    }
  }

  lemma GroupFoldKey(arrivals: seq<Snapshot>, k: Key)
    requires Group(arrivals, k) != []
    ensures KeyOf(FoldMerge(Group(arrivals, k))) == k
  {
    var g := Group(arrivals, k);
    FilterMembers((s: Snapshot) => KeyOf(s) == k, arrivals);
    assert g[0] in g;
    FoldKeepsKey(g, k);
  }

  /** There is a current record exactly when the catalog or an undated indexed snapshot gives one. */
  lemma CurrentReported(db: CallBook, q: Bytes)
    requires OpenedBook(db) && IsQuery(q)
    requires db.v2.Some? ==> KeysStrictlyAscend(Rows(db.v2.value.idx))
    ensures ReportFor(db, q).current.Some?
            <==> || UsCurrent(db, q).Some?
                 || (db.v2.Some? && exists x :: LedTo(db.v2.value, q, x) && x.vintage.None?)
  {
    hide LedTo, ReportFor, Arrivals, FoldMerge, KeysStrictlyAscend,
      IsQuery, AllCallBytes, KeysAscend, Hci.Built, UsCurrent, Filter;
    var arrivals, p := Arrivals(db, q), (s: Snapshot) => s.vintage.None?;
    CurrentIsTheFold(db, q);
    FilterMembers(p, arrivals);
    forall x ensures x in arrivals <==> db.v2.Some? && LedTo(db.v2.value, q, x) {
      ArrivalsComplete(db, q, x);
    }
    if Filter(p, arrivals) != [] {
      assert Filter(p, arrivals)[0] in arrivals;
    }
  }

  // ---- conservation: nothing lost, nothing invented ----------------------------------------------

  predicate Reports(r: LookupResult, m: Snapshot) { m in r.history || r.current == Some(m) }

  /** The snapshots whose fold is the reported record with vintage `v`. */
  function Parts(db: CallBook, q: Bytes, v: Option<nat>): seq<Snapshot>
    requires db.v2.Some? ==> Valid(db.v2.value.idx)
  {
    if v.None? then CurrentParts(db, q) else VintageGroup(db, q, v.value)
  }

  /** The report is exactly the folds of its non-empty parts, one per vintage and one undated. */
  lemma ReportIsFolds(db: CallBook, q: Bytes, m: Snapshot)
    requires OpenedBook(db) && IsQuery(q)
    ensures Reports(ReportFor(db, q), m)
            <==> Parts(db, q, m.vintage) != [] && m == FoldMerge(Parts(db, q, m.vintage))
  {
    hide ReportFor, FoldMerge, CurrentParts, VintageGroup, KeysAscend, Hci.Built, IsQuery, EqIgnoreCase;
    HistoryExact(db, q, m);
    CurrentIsTheFold(db, q);
    if ReportFor(db, q).current.Some? {
      CurrentShape(db, q);
    }
    if m.vintage.Some? && VintageGroup(db, q, m.vintage.value) != [] {
      VintageFoldKey(db, q, m.vintage.value);
    }
  }

  lemma VintageFoldKey(db: CallBook, q: Bytes, y: nat)
    requires OpenedBook(db) && VintageGroup(db, q, y) != []
    ensures FoldMerge(VintageGroup(db, q, y)).callsign == q
  {
    hide Group, FoldMerge, Arrivals, KeysAscend, Hci.Built;
    GroupFoldKey(Arrivals(db, q), Key(q, Some(y)));
  }

  /** What the sources hold for `q`: the catalog row, and what the two indexes lead to. */
  ghost predicate Held(db: CallBook, q: Bytes, x: Snapshot)
    requires db.v2.Some? ==> Valid(db.v2.value.idx)
  {
    UsCurrent(db, q) == Some(x) || (db.v2.Some? && LedTo(db.v2.value, q, x))
  }

  lemma PartsAreHeld(db: CallBook, q: Bytes, v: Option<nat>, x: Snapshot)
    requires OpenedBook(db) && IsQuery(q)
    requires db.v2.Some? ==> KeysStrictlyAscend(Rows(db.v2.value.idx))
    ensures x in Parts(db, q, v) <==> Held(db, q, x) && x.vintage == v
  {
    hide LedTo, Arrivals, UsCurrent, Filter, KeysAscend, KeysStrictlyAscend, Hci.Built, IsQuery, EqIgnoreCase;
    var arrivals := Arrivals(db, q);
    ArrivalsComplete(db, q, x);
    ArrivalsKeyed(db, q);
    if UsCurrent(db, q).Some? {
      UsCurrentShape(db, q);
    }
    if v.None? {
      FilterMembers((s: Snapshot) => s.vintage.None?, arrivals);
    } else {
      FilterMembers((s: Snapshot) => Merging.KeyOf(s) == Key(q, v), arrivals);
    }
  }

  /** What every held snapshot has: one source, and no empty last name. */
  lemma HeldShape(db: CallBook, q: Bytes, x: Snapshot)
    requires OpenedBook(db) && IsQuery(q) && Held(db, q, x)
    requires db.v2.Some? ==> KeysStrictlyAscend(Rows(db.v2.value.idx))
    ensures |x.sources| == 1 && ProperText(x.text)
  {
    hide LedTo, Arrivals, UsCurrent, KeysAscend, KeysStrictlyAscend, Hci.Built, EqIgnoreCase, AllCallBytes;
    if UsCurrent(db, q) == Some(x) {
      UsCurrentShape(db, q);
      UsCurrentName(db, q);
    } else {
      ArrivalsComplete(db, q, x);
      ArrivalsAnswer(db, q);
    }
  }

  /** Nothing is lost: whatever the sources hold for the query is in the report, in the record of its
      vintage, with its source named and every one of its texts filled. */
  lemma NothingLost(db: CallBook, q: Bytes, x: Snapshot)
    requires OpenedBook(db) && IsQuery(q) && Held(db, q, x)
    requires db.v2.Some? ==> KeysStrictlyAscend(Rows(db.v2.value.idx))
    ensures exists m :: Reports(ReportFor(db, q), m) && Keeps(m, x) && TakesFirst(m, Parts(db, q, x.vintage))
  {
    hide TakesFirst, Held, Parts, ReportFor, FoldMerge, KeysAscend, KeysStrictlyAscend, Hci.Built, IsQuery, Keeps;
    var parts := Parts(db, q, x.vintage);
    PartsAreHeld(db, q, x.vintage, x);
    var m := FoldMerge(parts);
    FoldVintage(db, q, x.vintage);
    ReportIsFolds(db, q, m);
    PartsShape(db, q, x.vintage);
    FoldKeeps(parts, x);
    FoldTakesFirst(parts);
  }

  /** `m` has the vintage of `x`, names its sources, and has a value wherever `x` has one. */
  ghost predicate Keeps(m: Snapshot, x: Snapshot) {
    && m.vintage == x.vintage
    && (forall src :: src in x.sources ==> src in m.sources)
    && (forall f :: NonEmpty(Get(x.text, f)) ==> NonEmpty(Get(m.text, f)))
  }

  /** Every text of `m` but the last name is the first non-empty one in the order of arrival. */
  ghost predicate TakesFirst(m: Snapshot, parts: seq<Snapshot>) {
    forall f | f != LastName && (NonEmpty(Get(m.text, f)) || FirstText(parts, f).Some?) ::
      Get(m.text, f) == FirstText(parts, f)
  }

  lemma FoldTakesFirst(parts: seq<Snapshot>)
    requires parts != []
    ensures TakesFirst(FoldMerge(parts), parts)
  {
    hide FoldMerge, FirstText, NonEmpty, Get;
    var m := FoldMerge(parts);
    forall f | f != LastName && (NonEmpty(Get(m.text, f)) || FirstText(parts, f).Some?)
      ensures Get(m.text, f) == FirstText(parts, f)
    {
      FoldFirstText(parts, f);
    }
  }

  /** Which text is reported: the first non-empty one in the order of arrival, the catalog's before the
      index's before the postings'. */
  lemma ReportedTexts(db: CallBook, q: Bytes, m: Snapshot)
    requires OpenedBook(db) && IsQuery(q) && Reports(ReportFor(db, q), m)
    ensures TakesFirst(m, Parts(db, q, m.vintage))
  {
    hide TakesFirst, Parts, ReportFor, FoldMerge, KeysAscend, Hci.Built, IsQuery, Reports;
    ReportIsFolds(db, q, m);
    FoldTakesFirst(Parts(db, q, m.vintage));
  }

  lemma PartsAnswer(db: CallBook, q: Bytes, v: Option<nat>)
    requires OpenedBook(db) && IsQuery(q)
    ensures AllProper(Parts(db, q, v))
    ensures forall k | 0 <= k < |Parts(db, q, v)| :: Interests.CodesFit(Parts(db, q, v)[k])
  {
    hide ProperText, Interests.CodesFit, Arrivals, UsCurrent, Filter, KeysAscend, Hci.Built, AllCallBytes;
    var parts, arrivals := Parts(db, q, v), Arrivals(db, q);
    ArrivalsAnswer(db, q);
    FilterMembers((s: Snapshot) => s.vintage.None?, arrivals);
    FilterMembers((s: Snapshot) => Merging.KeyOf(s) == Key(q, v), arrivals);
    if UsCurrent(db, q).Some? {
      UsCurrentName(db, q);
      UsCurrentCodes(db, q);
    }
    forall k | 0 <= k < |parts| ensures ProperText(parts[k].text) && Interests.CodesFit(parts[k]) {
      assert parts[k] in parts;
      assert UsCurrent(db, q) == Some(parts[k]) || parts[k] in arrivals;
    }
  }

  /** Everything else a report says of a vintage, from its parts in the order of arrival: the first known
      jurisdiction, the first codes and the first interests, the last value of every raw tag, and the last name by
      the rule of split names. */
  lemma ReportedRest(db: CallBook, q: Bytes, m: Snapshot, t: Byte)
    requires OpenedBook(db) && IsQuery(q) && Reports(ReportFor(db, q), m)
    ensures var parts := Parts(db, q, m.vintage);
            && m.jurisdiction == FirstOther(Each(parts, JURISDICTION), Unknown)
            && m.interestCodes == FirstOther(Each(parts, CODES), [])
            && m.interests == FirstOther(Each(parts, INTERESTS), [])
            && (t in m.rawTags <==> exists k :: 0 <= k < |parts| && t in parts[k].rawTags)
            && (forall k | 0 <= k < |parts| && t in parts[k].rawTags
                           && (forall j | k < j < |parts| :: t !in parts[j].rawTags) ::
                  t in m.rawTags && m.rawTags[t] == parts[k].rawTags[t])
            && Get(m.text, LastName)
               == match LastOverride(parts, |parts|)
                  case Some(k) => Get(parts[k].text, LastName)
                  case None => FirstText(parts, LastName)
  {
    hide Parts, ReportFor, FoldMerge, KeysAscend, Hci.Built, IsQuery, Reports, LastOverride, FirstText;
    var parts := Parts(db, q, m.vintage);
    ReportIsFolds(db, q, m);
    PartsAnswer(db, q, m.vintage);
    FoldFirsts(parts);
    FoldRawTag(parts, t);
    FoldLastName(parts);
  }

  /** Reported codes are those of the reported interest text if and only if the first interest text that arrives
      has codes, or nothing that arrives has any. */
  lemma ReportedCodes(db: CallBook, q: Bytes, m: Snapshot)
    requires OpenedBook(db) && IsQuery(q) && Reports(ReportFor(db, q), m)
    ensures var parts := Parts(db, q, m.vintage);
            Interests.CodesFit(m)
            <==> var t := FirstText(parts, InterestCodesRaw);
                 || (t.Some? && Interests.Codes(t.value) != [])
                 || forall k | 0 <= k < |parts| :: parts[k].interestCodes == []
  {
    hide Parts, ReportFor, FoldMerge, KeysAscend, Hci.Built, IsQuery, Reports, FirstText, Interests.CodesFit,
      Interests.Codes;
    ReportIsFolds(db, q, m);
    PartsAnswer(db, q, m.vintage);
    CodesFitExactly(Parts(db, q, m.vintage));
  }

  lemma FoldVintage(db: CallBook, q: Bytes, v: Option<nat>)
    requires OpenedBook(db) && IsQuery(q) && Parts(db, q, v) != []
    requires db.v2.Some? ==> KeysStrictlyAscend(Rows(db.v2.value.idx))
    ensures FoldMerge(Parts(db, q, v)).vintage == v
  {
    hide Held, Parts, FoldMerge, KeysAscend, KeysStrictlyAscend, Hci.Built, IsQuery;
    var parts := Parts(db, q, v);
    PartsAreHeld(db, q, v, parts[0]);
    FoldKeepsKey(parts, Merging.KeyOf(parts[0]));
  }

  lemma PartsShape(db: CallBook, q: Bytes, v: Option<nat>)
    requires OpenedBook(db) && IsQuery(q)
    requires db.v2.Some? ==> KeysStrictlyAscend(Rows(db.v2.value.idx))
    ensures forall i | 0 <= i < |Parts(db, q, v)| :: AscendingBy(SourceLe, Parts(db, q, v)[i].sources)
    ensures forall i | 0 <= i < |Parts(db, q, v)| :: ProperText(Parts(db, q, v)[i].text)
  {
    hide ProperText, Held, Parts, KeysAscend, KeysStrictlyAscend, Hci.Built, IsQuery;
    var parts := Parts(db, q, v);
    forall i | 0 <= i < |parts|
      ensures AscendingBy(SourceLe, parts[i].sources) && ProperText(parts[i].text)
    {
      PartsAreHeld(db, q, v, parts[i]);
      HeldShape(db, q, parts[i]);
    }
  }

  lemma FoldKeeps(parts: seq<Snapshot>, x: Snapshot)
    requires x in parts && FoldMerge(parts).vintage == x.vintage
    requires forall i | 0 <= i < |parts| :: AscendingBy(SourceLe, parts[i].sources)
    requires forall i | 0 <= i < |parts| :: ProperText(parts[i].text)
    ensures Keeps(FoldMerge(parts), x)
  {
    hide FoldMerge, AscendingBy, NonEmpty, Get, ProperText;
    var i :| 0 <= i < |parts| && parts[i] == x;
    forall src | src in x.sources ensures src in FoldMerge(parts).sources {
      FoldSources(parts, src);
    }
    forall f | NonEmpty(Get(x.text, f)) ensures NonEmpty(Get(FoldMerge(parts).text, f)) {
      FoldFills(parts, i, f);
    }
  }

  /** Nothing is invented: a reported record names exactly the sources of what is held for its
      vintage, and each of its texts is the text of one held snapshot, unchanged. */
  lemma NothingInvented(db: CallBook, q: Bytes, m: Snapshot, f: Field, src: Source)
    requires OpenedBook(db) && IsQuery(q) && Reports(ReportFor(db, q), m)
    requires db.v2.Some? ==> KeysStrictlyAscend(Rows(db.v2.value.idx))
    ensures exists x :: Held(db, q, x) && x.vintage == m.vintage && Get(x.text, f) == Get(m.text, f)
    ensures src in m.sources <==> exists x :: Held(db, q, x) && x.vintage == m.vintage && src in x.sources
    ensures AscendingBy(SourceLe, m.sources)
  {
    hide Held, Parts, ReportFor, FoldMerge, KeysAscend, KeysStrictlyAscend, Hci.Built, IsQuery, Get, AscendingBy;
    var parts := Parts(db, q, m.vintage);
    ReportIsFolds(db, q, m);
    PartsShape(db, q, m.vintage);
    FoldInventsNothing(parts, f);
    FoldSources(parts, src);
    forall x ensures x in parts <==> Held(db, q, x) && x.vintage == m.vintage {
      PartsAreHeld(db, q, m.vintage, x);
    }
    var i :| 0 <= i < |parts| && Get(parts[i].text, f) == Get(m.text, f);
    assert parts[i] in parts;
  }

  // ---- from the encoded record to the report ----------------------------------------------------

  /** A posting anywhere inside a record decodes to that record and to nothing else. */
  lemma PostingDecodesRecord(s: Shard, q: Bytes, offset: nat, start: nat, end: nat, x: Snapshot)
    requires IsQuery(q) && Framing.IsRecord(s.dat, start, end) && start <= offset < end
    requires ParsedSegment(Cipher.DecodeAt(start, s.dat[start..end]), HciContext(s)) == Some(x) && x.callsign == q
    ensures PostingSnapshots(s, q, offset) == [x]
  {
    hide ParsedSegment, Framing.IsSentinel, Framing.RecordAt,
      MatchedSegment, Segments, WindowSnapshots, Cipher.DecodeByte;
    var d := Cipher.DecodeAt(start, s.dat[start..end]);
    Framing.RecordAtExact(s.dat, offset, start, end);
    assert PostingRecord(s.dat, offset) == d;
    RecordIsOneSegment(s.dat, start, end);
    MatchedSegmentFilters(d, q, HciContext(s));
    MatchedCons(d, [], q, HciContext(s));
    assert [d] + [] == [d];
  }

  /** End to end: when a record of the inverted file keyed in the query's family has a posting inside
      an encoded DAT record, and that record decodes and parses to a snapshot of the query, then the
      report holds a record of that vintage which names the HCI source and keeps the snapshot. */
  lemma PostedRecordIsReported(db: CallBook, q: Bytes, offset: nat, start: nat, end: nat, x: Snapshot)
    requires OpenedBook(db) && IsQuery(q)
    requires db.v2.Some? && db.v2.value.hci.Some? && KeysStrictlyAscend(Rows(db.v2.value.idx))
    requires FamilyPostsAt(db.v2.value.hci.value, q, offset)
    requires Framing.IsRecord(db.v2.value.dat, start, end) && start <= offset < end
    requires ParsedSegment(Cipher.DecodeAt(start, db.v2.value.dat[start..end]), HciContext(db.v2.value)) == Some(x)
    requires x.callsign == q
    ensures exists m :: Reports(ReportFor(db, q), m) && Keeps(m, x) && HamCallHci in m.sources
                        && TakesFirst(m, Parts(db, q, x.vintage))
  {
    hide TakesFirst, Parts, ParsedSegment, Framing.IsSentinel, FamilyPostsAt,
      PostingSnapshots, ReportFor, KeysAscend, KeysStrictlyAscend,
      Hci.Built, IsQuery, EntrySnapshots, UsCurrent, Reports, NonEmpty, Get;
    PostingDecodesRecord(db.v2.value, q, offset, start, end, x);
    ParsedShape(Cipher.DecodeAt(start, db.v2.value.dat[start..end]), HciContext(db.v2.value));
    NothingLost(db, q, x);
  }
}
