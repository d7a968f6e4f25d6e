/** The lookup pipeline: three sources, one merged report. */
module Lookup {
  import opened Ascii
  import opened Sorting
  import opened Snapshots
  import opened Records
  import opened Merging
  import opened Cipher
  import opened IdxSearch
  import Callsigns
  import Country
  import Framing
  import Hci
  import HciKeys
  import IdxText
  import Interests

  /** One row of the current-US catalog. */
  datatype UsRecord = UsRecord(
    callsign: Bytes, class_: Bytes, name: Bytes, address: Bytes, city: Bytes, state: Bytes,
    zip: Bytes, county: Bytes, issued: Bytes, transaction: Bytes)

  /** The catalog, keyed by upper-case callsign. */
  type UsCatalog = map<Bytes, UsRecord>

  /** The catalog with its sorted callsigns. */
  datatype UsCsvFile = UsCsvFile(records: UsCatalog, callsigns: seq<Bytes>)

  /** Rows are filed under their own callsign, upper-cased, and every one is listed. */
  ghost predicate Catalogued(file: UsCsvFile) {
    && (forall k | k in file.records :: Upper(file.records[k].callsign) == k)
    && (forall k :: k in file.callsigns <==> k in file.records)
    && AscendingBy(Le, file.callsigns)
  }

  datatype Shard = Shard(
    idx: IdxFile,
    dat: Bytes,
    hci: Option<Hci.HciFile>,
    usCsv: Option<UsCsvFile>,
    countries: Option<Country.CountryTable>,
    interests: Option<Interests.Catalog>)

  datatype CallBook = CallBook(v2: Option<Shard>)

  /** What opening builds, with a DAT below 2^63 bytes. */
  ghost predicate Loaded(s: Shard) {
    && |s.dat| < TWO63
    && s.idx.table == IdxText.TableFrom(s.idx.buf, 0) && Valid(s.idx)
    && (s.hci.Some? ==> Hci.Built(s.hci.value))
    && (s.usCsv.Some? ==> Catalogued(s.usCsv.value))
    && (s.countries.Some? ==> Country.Indexed(s.countries.value))
  }

  /** The index keys are in order too, which opening does not check. */
  ghost predicate Opened(s: Shard) { Loaded(s) && KeysAscend(Rows(s.idx)) }

  ghost predicate LoadedBook(db: CallBook) { db.v2.Some? ==> Loaded(db.v2.value) }

  ghost predicate OpenedBook(db: CallBook) { db.v2.Some? ==> Opened(db.v2.value) }

  datatype Status = Current | ArchiveOnly | NotFound

  datatype LookupResult = LookupResult(query: Bytes, status: Status, current: Option<Snapshot>, history: seq<Snapshot>)

  datatype Result<+T> = Ok(value: T) | InvalidCallsign(input: Bytes)

  // ---- specification ------------------------------------------------------------------

  function Put(text: map<Field, Bytes>, f: Field, value: Bytes): map<Field, Bytes> {
    var trimmed := Trim(value, STR_SPACE);
    if trimmed == [] then text else text[f := trimmed]
  }

  function PutAll(values: seq<(Field, Bytes)>): map<Field, Bytes> {
    if values == [] then map[]
    else Put(PutAll(values[..|values| - 1]), values[|values| - 1].0, values[|values| - 1].1)
  }

  function UsValues(r: UsRecord): seq<(Field, Bytes)> {
    [(LicenseClass, r.class_), (LastName, r.name), (Address, r.address), (City, r.city),
     (StateOrProvince, r.state), (PostalCode, r.zip), (County, r.county),
     (FirstIssued, r.issued), (FccTransactionType, r.transaction)]
  }

  function FromUsCsv(r: UsRecord): Snapshot {
    var text := PutAll(UsValues(r));
    NewSnapshot(r.callsign, None, UsCsv).(
      jurisdiction := UnitedStates, text := text[Field.Country := Text("United States")])
  }

  function UsGet(catalog: UsCatalog, callsign: Bytes): Option<UsRecord> {
    var target := Country.NormalCall(callsign);
    if target == [] || COLON in target || target !in catalog then None else Some(catalog[target])
  }

  function UsCurrent(db: CallBook, q: Bytes): Option<Snapshot> {
    if db.v2.None? || db.v2.value.usCsv.None? then None
    else
      match UsGet(db.v2.value.usCsv.value.records, q)
      case None => None
      case Some(r) => Some(FromUsCsv(r))
  }

  function IdxContext(s: Shard, key: Bytes): Context {
    Context(Some(key), HamCallDatIdx, s.countries, s.interests)
  }

  function HciContext(s: Shard): Context { Context(None, HamCallHci, s.countries, s.interests) }

  /** The snapshots behind one index entry. */
  function EntrySnapshots(s: Shard, q: Bytes, e: IdxText.Entry): seq<Snapshot>
    requires Valid(s.idx)
  {
    match RawSlice(Rows(s.idx), |s.dat|, e)
    case None => []
    case Some(slice) => Matched(Segments(DecodeAt(slice.0, s.dat[slice.0..slice.1])), q, IdxContext(s, e.key))
  }

  function EntriesSnapshots(s: Shard, q: Bytes, es: seq<IdxText.Entry>): seq<Snapshot>
    requires Valid(s.idx)
  {
    if es == [] then [] else EntrySnapshots(s, q, es[0]) + EntriesSnapshots(s, q, es[1..])
  }

  function IdxSnapshots(s: Shard, q: Bytes): seq<Snapshot>
    requires Valid(s.idx)
  {
    EntriesSnapshots(s, q, FirstOf(BareRun(Rows(s.idx), q)) + ColonRun(Rows(s.idx), q))
  }

  /** The decoded record around a posting, or nothing. */
  function PostingRecord(dat: Bytes, offset: nat): Bytes {
    match Framing.RecordAt(dat, offset)
    case None => []
    case Some(r) => DecodeAt(r.0, dat[r.0..r.1])
  }

  /** At most `maxLen` decoded bytes from `offset` on. */
  function Window(dat: Bytes, offset: nat, maxLen: nat): Bytes {
    if offset >= |dat| then [] else DecodeAt(offset, dat[offset..Min(offset + maxLen, |dat|)])
  }

  const WINDOWS: seq<nat> := [1024, 2048, 4096]
  const LAST_WINDOW: nat := 8192

  /** Growing windows: complete segments only, until the last one takes everything. */
  function WindowSnapshots(s: Shard, q: Bytes, offset: nat, sizes: seq<nat>): seq<Snapshot> {
    if sizes == [] then Matched(Segments(Window(s.dat, offset, LAST_WINDOW)), q, HciContext(s))
    else
      var found := Matched(CompleteSegments(Window(s.dat, offset, sizes[0])), q, HciContext(s));
      if found != [] then found else WindowSnapshots(s, q, offset, sizes[1..])
  }

  /** The snapshots behind one posting. */
  function PostingSnapshots(s: Shard, q: Bytes, offset: nat): seq<Snapshot> {
    var found := Matched(Segments(PostingRecord(s.dat, offset)), q, HciContext(s));
    if found != [] then found else WindowSnapshots(s, q, offset, WINDOWS)
  }

  function OffsetsSnapshots(s: Shard, q: Bytes, offsets: seq<nat>): seq<Snapshot> {
    if offsets == [] then []
    else OffsetsSnapshots(s, q, offsets[..|offsets| - 1]) + PostingSnapshots(s, q, offsets[|offsets| - 1])
  }

  function OffsetsOf(ps: seq<Hci.Posting>): (os: seq<nat>)
    ensures |os| == |ps|
    ensures forall i | 0 <= i < |os| :: os[i] == ps[i].datOffset
  {
    seq(|ps|, i requires 0 <= i < |ps| => ps[i].datOffset)
  }

  /** The DAT offsets of a lookup, each once, in the order of their first posting. */
  function HciOffsets(h: Hci.HciFile, q: Bytes): seq<nat> {
    Dedup(OffsetsOf(HciKeys.FamilyPostings(h, HciKeys.LookupKeys(q, h.years))))
  }

  /** What one lookup decodes: each offset of its key family once, in the order of first postings. */
  function Decodes(s: Shard, q: Bytes): seq<nat> { if s.hci.None? then [] else HciOffsets(s.hci.value, q) }

  function HciSnapshots(s: Shard, q: Bytes): seq<Snapshot> {
    if s.hci.None? then [] else OffsetsSnapshots(s, q, HciOffsets(s.hci.value, q))
  }

  /** Everything that is merged into a report, in order of arrival. */
  function Arrivals(db: CallBook, q: Bytes): seq<Snapshot>
    requires db.v2.Some? ==> Valid(db.v2.value.idx)
  {
    if db.v2.None? then [] else IdxSnapshots(db.v2.value, q) + HciSnapshots(db.v2.value, q)
  }

  predicate HistoryLe(a: Snapshot, b: Snapshot) {
    if a.vintage == b.vintage then Le(a.callsign, b.callsign) else OptionLe(a.vintage, b.vintage)
  }

  function StatusOf(current: Option<Snapshot>, history: seq<Snapshot>): Status {
    if current.Some? then Current else if history == [] then NotFound else ArchiveOnly
  }

  /** The report of a query, from its catalog record and what arrives for it. */
  function ReportOf(q: Bytes, us: Option<Snapshot>, arrivals: seq<Snapshot>): LookupResult {
    var acc := MergeAll(Acc(us, []), arrivals);
    var history := Sort(HistoryLe, acc.history);
    LookupResult(q, StatusOf(acc.current, history), acc.current, history)
  }

  function ReportFor(db: CallBook, q: Bytes): LookupResult
    requires db.v2.Some? ==> Valid(db.v2.value.idx)
  {
    ReportOf(q, UsCurrent(db, q), Arrivals(db, q))
  }

  /** What a lookup answers. */
  function LookupReport(db: CallBook, callsign: Bytes): Result<LookupResult>
    requires db.v2.Some? ==> Valid(db.v2.value.idx)
  {
    match Callsigns.Normalize(callsign)
    case None => InvalidCallsign(callsign)
    case Some(q) => Ok(ReportFor(db, q))
  }

  /** The offsets a lookup decodes; an invalid callsign decodes none. */
  function LookupDecodes(db: CallBook, callsign: Bytes): seq<nat> {
    match Callsigns.Normalize(callsign)
    case None => []
    case Some(q) => if db.v2.None? then [] else Decodes(db.v2.value, q)
  }

  // ---- decoding into buffers ------------------------------------------------------------

  method DecodeBoundsInto(dat: Bytes, start: nat, end: nat, out: ByteBuffer)
    requires start <= end <= |dat| < TWO63
    modifies out
    ensures out.bytes == DecodeAt(start, dat[start..end])
  {
    hide DecodeByte, Unmask;
    DecodeWithDerivedPhase(start, dat[start..end]);
    DecodePhaseInto(start, dat[start..end], PhaseFor(start), out);
  }

  method DecodeFromOffsetInto(dat: Bytes, offset: nat, maxLen: nat, out: ByteBuffer)
    requires |dat| < TWO63
    modifies out
    ensures out.bytes == Window(dat, offset, maxLen)
  {
    hide DecodeByte;
    out.bytes := [];
    if offset >= |dat| {
      return;
    }
    DecodeBoundsInto(dat, offset, Min(offset + maxLen, |dat|), out);
  }

  method DecodeHciPostingRecordInto(dat: Bytes, offset: nat, out: ByteBuffer)
    requires |dat| < TWO63
    modifies out
    ensures out.bytes == PostingRecord(dat, offset)
  {
    hide DecodeByte, Framing.IsRecord;
    out.bytes := [];
    var bounds := Framing.RecordBoundsForHciPosting(dat, offset);
    if bounds.Some? {
      assert bounds.value.start <= bounds.value.end <= |dat| by { BoundsInFile(dat, offset); }
      DecodeBoundsInto(dat, bounds.value.start, bounds.value.end, out);
    }
  }

  lemma BoundsInFile(dat: Bytes, offset: nat)
    ensures var r := Framing.RecordAt(dat, offset); r.Some? ==> r.value.0 <= r.value.1 <= |dat|
  {
  }

  /** Decode and parse what an offset points at; every call is entered in the scratch log. */
  method DecodeAndParseHciOffset(s: Shard, offset: nat, q: Bytes, scratch: LookupScratch)
    returns (out: seq<Snapshot>)
    requires Opened(s)
    modifies scratch`decodedOffsets, scratch.hciDecoded
    ensures out == PostingSnapshots(s, q, offset)
    ensures scratch.decodedOffsets == old(scratch.decodedOffsets) + [offset]
  {
    hide PostingRecord, Segments, Matched, KeysAscend;
    scratch.decodedOffsets := scratch.decodedOffsets + [offset];
    DecodeHciPostingRecordInto(s.dat, offset, scratch.hciDecoded);
    out := ParseMatchingSnapshots(scratch.hciDecoded.bytes, q, HciContext(s));
    if out != [] {
      return;
    }
    out := DecodeAndParseWithWindows(s, offset, q, scratch.hciDecoded);
  }

  method DecodeAndParseWithWindows(s: Shard, offset: nat, q: Bytes, decoded: ByteBuffer)
    returns (out: seq<Snapshot>)
    requires Opened(s)
    modifies decoded
    ensures out == WindowSnapshots(s, q, offset, WINDOWS)
  {
    hide Window, Segments, CompleteSegments, Matched, KeysAscend;
    for i := 0 to |WINDOWS|
      invariant WindowSnapshots(s, q, offset, WINDOWS) == WindowSnapshots(s, q, offset, WINDOWS[i..])
    {
      DecodeFromOffsetInto(s.dat, offset, WINDOWS[i], decoded);
      out := ParseCompleteMatchingSnapshots(decoded.bytes, q, HciContext(s));
      assert WINDOWS[i..][1..] == WINDOWS[i + 1..];
      if out != [] {
        return;
      }
    }
    DecodeFromOffsetInto(s.dat, offset, LAST_WINDOW, decoded);
    out := ParseMatchingSnapshots(decoded.bytes, q, HciContext(s));
  }

  // ---- the two DAT sources ----------------------------------------------------------------

  method LookupDatIdx(s: Shard, q: Bytes) returns (out: seq<Snapshot>)
    requires Opened(s)
    ensures out == IdxSnapshots(s, q)
  {
    hide EntrySnapshots, BareRun, ColonRun, KeysAscend, Hci.Built, Rows, Valid, Catalogued, IdxText.TableFrom,
      Country.Indexed;
    out := [];
    var entries := FindCallsignAll(s.idx, q);
    for i := 0 to |entries|
      invariant out + EntriesSnapshots(s, q, entries[i..]) == EntriesSnapshots(s, q, entries)
    {
      assert entries[i..][1..] == entries[i + 1..];
      var found := LookupEntry(s, q, entries[i]);
      out := out + found;
    }
  }

  method LookupEntry(s: Shard, q: Bytes, entry: IdxText.Entry) returns (out: seq<Snapshot>)
    requires Opened(s)
    ensures out == EntrySnapshots(s, q, entry)
  {
    hide Segments, Matched, KeysAscend, DecodeByte, NextEntryAfterKey;
    var slice := RawRecordFor(s.idx, |s.dat|, entry);
    if slice.None? {
      return [];
    }
    var decoded := new ByteBuffer();
    DecodeBoundsInto(s.dat, slice.value.0, slice.value.1, decoded);
    out := ParseMatchingSnapshots(decoded.bytes, q, IdxContext(s, entry.key));
  }

  /** Buffers that a batch of lookups clears and refills. */
  class LookupScratch {
    const hciDecoded: ByteBuffer
    var hciSeenOffsets: set<nat>
    var hciSnapshots: seq<Snapshot>
    /** Every offset that was decoded and parsed through these buffers, in order. */
    ghost var decodedOffsets: seq<nat>

    constructor ()
      ensures fresh(hciDecoded) && decodedOffsets == []
    {
      hciDecoded := new ByteBuffer();
      hciSeenOffsets, hciSnapshots, decodedOffsets := {}, [], [];
    }
  }

  /** Visit the postings of every lookup key; each DAT offset is decoded and parsed once. */
  method LookupHciInto(s: Shard, q: Bytes, scratch: LookupScratch)
    requires Opened(s) && 1 <= |q| <= Callsigns.KEY_LEN && AllCallBytes(q)
    modifies scratch, scratch.hciDecoded
    ensures scratch.hciSnapshots == HciSnapshots(s, q)
    ensures scratch.decodedOffsets == old(scratch.decodedOffsets) + Decodes(s, q)
  {
    hide KeysAscend, Hci.Built, Dedup, OffsetsSnapshots, OffsetsOf;
    hide HciKeys.LookupKeys, HciKeys.InFamily, HciKeys.FamilyPostings, Hci.ScanPostings, Hci.AllPostings;
    scratch.hciSeenOffsets := {};
    scratch.hciSnapshots := [];
    NothingVisited(s, q);
    ghost var logged := scratch.decodedOffsets;
    if s.hci.None? {
      return;
    }
    var h := s.hci.value;
    YearsFit(h);
    var keys := HciKeys.VisitHciLookupKeys(q, h.years);
    ghost var visited: seq<nat> := [];
    for i := 0 to |keys|
      invariant visited + OffsetsOf(HciKeys.FamilyPostings(h, keys[i..])) == OffsetsOf(HciKeys.FamilyPostings(h, keys))
      invariant Visited(s, q, scratch, visited, logged)
    {
      assert keys[i..][1..] == keys[i + 1..];
      FamilyStep(h, keys[i..]);
      HciKeys.KeyIsFamily(q, h.years, keys[i]);
      var postings := Hci.VisitPostingsForKey(h, keys[i]);
      VisitOffsets(s, q, postings, scratch, visited, logged);
      visited := visited + OffsetsOf(postings);
    }
    NoKeysLeft(h, keys[|keys|..]);
    assert visited == OffsetsOf(HciKeys.FamilyPostings(h, keys));
  }

  lemma NothingVisited(s: Shard, q: Bytes)
    ensures OffsetsSnapshots(s, q, Dedup([])) == [] && Dedup<nat>([]) == []
  {
  }

  lemma FamilyStep(h: Hci.HciFile, keys: seq<Bytes>)
    requires keys != []
    ensures OffsetsOf(HciKeys.FamilyPostings(h, keys))
            == OffsetsOf(Hci.ScanPostings(h, keys[0], Hci.Reachable(h)))
               + OffsetsOf(HciKeys.FamilyPostings(h, keys[1..]))
  {
    hide Hci.ScanPostings;
  }

  lemma NoKeysLeft(h: Hci.HciFile, keys: seq<Bytes>)
    requires keys == []
    ensures OffsetsOf(HciKeys.FamilyPostings(h, keys)) == []
  {
  }

  lemma YearsFit(h: Hci.HciFile)
    requires Hci.Built(h)
    ensures forall i | 0 <= i < |h.years| :: h.years[i] <= 65535
  {
    hide Hci.Built;
    forall i | 0 <= i < |h.years| ensures h.years[i] <= 65535 {
      HciKeys.YearsHaveFourDigits(h, h.years[i]);
    }
  }

  /** What the scratch holds once the offsets in `visited` were visited. */
  ghost predicate Visited(s: Shard, q: Bytes, scratch: LookupScratch, visited: seq<nat>, logged: seq<nat>)
    reads scratch
  {
    && (forall o :: o in scratch.hciSeenOffsets <==> o in visited)
    && scratch.hciSnapshots == OffsetsSnapshots(s, q, Dedup(visited))
    && scratch.decodedOffsets == logged + Dedup(visited)
  }

  /** The posting callback: skip what was seen, decode and collect the rest. */
  method VisitOffset(s: Shard, q: Bytes, offset: nat, scratch: LookupScratch, ghost visited: seq<nat>,
                     ghost logged: seq<nat>)
    requires Opened(s) && Visited(s, q, scratch, visited, logged)
    modifies scratch, scratch.hciDecoded
    ensures Visited(s, q, scratch, visited + [offset], logged)
  {
    hide Opened, PostingSnapshots, Dedup, OffsetsSnapshots;
    DedupSnoc(visited, offset);
    if offset !in scratch.hciSeenOffsets {
      scratch.hciSeenOffsets := scratch.hciSeenOffsets + {offset};
      var found := DecodeAndParseHciOffset(s, offset, q, scratch);
      scratch.hciSnapshots := scratch.hciSnapshots + found;
      OffsetsSnoc(s, q, Dedup(visited), offset);
    }
  }

  method VisitOffsets(s: Shard, q: Bytes, postings: seq<Hci.Posting>, scratch: LookupScratch,
                      ghost visited: seq<nat>, ghost logged: seq<nat>)
    requires Opened(s) && Visited(s, q, scratch, visited, logged)
    modifies scratch, scratch.hciDecoded
    ensures Visited(s, q, scratch, visited + OffsetsOf(postings), logged)
  {
    hide Opened, Visited;
    ghost var offsets := OffsetsOf(postings);
    assert visited + offsets[..0] == visited;
    for i := 0 to |postings|
      invariant Visited(s, q, scratch, visited + offsets[..i], logged)
    {
      assert visited + offsets[..i + 1] == visited + offsets[..i] + [postings[i].datOffset];
      VisitOffset(s, q, postings[i].datOffset, scratch, visited + offsets[..i], logged);
    }
    assert offsets[..|postings|] == offsets;
  }

  lemma OffsetsSnoc(s: Shard, q: Bytes, offsets: seq<nat>, o: nat)
    ensures OffsetsSnapshots(s, q, offsets + [o]) == OffsetsSnapshots(s, q, offsets) + PostingSnapshots(s, q, o)
  {
    hide PostingSnapshots;
    assert (offsets + [o])[..|offsets|] == offsets;
  }

  // ---- the report -----------------------------------------------------------------------------

  /** Merge a list of arrivals into the records under construction. */
  method MergeSnapshots(current: CallSnapshot?, history: seq<CallSnapshot>, arrivals: seq<Snapshot>,
                        ghost start: Acc, ghost before: seq<Snapshot>)
    returns (current': CallSnapshot?, history': seq<CallSnapshot>)
    requires Separate(current, history)
    requires AccOf(current, history) == MergeAll(start, before)
    modifies current, history
    ensures Separate(current', history')
    ensures AccOf(current', history') == MergeAll(start, before + arrivals)
    ensures current' != null ==> current' == current || fresh(current')
    ensures forall i | 0 <= i < |history'| :: history'[i] in history || fresh(history'[i])
  {
    hide MergeStep, MergeAll;
    current', history' := current, history;
    assert before + arrivals[..0] == before;
    for i := 0 to |arrivals|
      invariant Separate(current', history')
      invariant AccOf(current', history') == MergeAll(start, before + arrivals[..i])
      invariant current' != null ==> current' == current || fresh(current')
      invariant forall i | 0 <= i < |history'| :: history'[i] in history || fresh(history'[i])
    {
      MergeAllSnoc(start, before + arrivals[..i], arrivals[i]);
      assert before + arrivals[..i + 1] == before + arrivals[..i] + [arrivals[i]];
      current', history' := MergeSnapshot(current', history', arrivals[i]);
    }
    assert arrivals[..|arrivals|] == arrivals;
  }

  lemma MergeAllSnoc(start: Acc, arrivals: seq<Snapshot>, s: Snapshot)
    ensures MergeAll(start, arrivals + [s]) == MergeStep(MergeAll(start, arrivals), s)
  {
    hide MergeStep;
    assert (arrivals + [s])[..|arrivals|] == arrivals;
  }

  method CollectValues(history: seq<CallSnapshot>) returns (values: seq<Snapshot>)
    ensures values == Values(history)
  {
    values := [];
    for i := 0 to |history|
      invariant values == Values(history)[..i]
    {
      values := values + [history[i].Value()];
    }
  }

  method LookupReportWithScratch(db: CallBook, callsign: Bytes, scratch: LookupScratch)
    returns (r: Result<LookupResult>)
    requires OpenedBook(db)
    modifies scratch, scratch.hciDecoded
    ensures r == LookupReport(db, callsign)
    ensures scratch.decodedOffsets == old(scratch.decodedOffsets) + LookupDecodes(db, callsign)
  {
    hide ReportFor, Decodes, KeysAscend, Hci.Built, Catalogued, Country.Indexed, IdxText.TableFrom, Callsigns.Normalize,
      Callsigns.AsStr;
    var key := Callsigns.Parse(callsign);
    if key.None? {
      return InvalidCallsign(callsign);
    }
    var query := Callsigns.AsStr(key.value);
    Callsigns.AsStrOfPadded(Callsigns.Normalize(callsign).value);
    var report := Report(db, query, scratch);
    return Ok(report);
  }

  method Report(db: CallBook, query: Bytes, scratch: LookupScratch) returns (r: LookupResult)
    requires OpenedBook(db) && 1 <= |query| <= Callsigns.KEY_LEN && AllCallBytes(query)
    modifies scratch, scratch.hciDecoded
    ensures r == ReportFor(db, query)
    ensures scratch.decodedOffsets
            == old(scratch.decodedOffsets) + if db.v2.None? then [] else Decodes(db.v2.value, query)
  {
    hide Decodes, IdxSnapshots, HciSnapshots, MergeAll, Sort, KeysAscend, UsCurrent, AllCallBytes, HistoryLe, Hci.Built;
    var current: CallSnapshot? := null;
    var us := UsCurrent(db, query);
    if us.Some? {
      current := new CallSnapshot(us.value);
    }
    var history: seq<CallSnapshot> := [];
    ghost var start := Acc(us, []);
    EmptyHistory(start);
    if db.v2.Some? {
      current, history := MergeSources(db.v2.value, query, current, history, start, scratch);
    }
    var values := CollectValues(history);
    var sorted := Sort(HistoryLe, values);
    var currentValue := if current == null then None else Some(current.Value());
    var status := if currentValue.Some? then Current else if sorted == [] then NotFound else ArchiveOnly;
    return LookupResult(query, status, currentValue, sorted);
  }

  /** Index entries first, then HCI postings, drained from the buffer they were collected in. */
  method MergeSources(v2: Shard, query: Bytes, current: CallSnapshot?, history: seq<CallSnapshot>,
                      ghost start: Acc, scratch: LookupScratch)
    returns (current': CallSnapshot?, history': seq<CallSnapshot>)
    requires Opened(v2) && 1 <= |query| <= Callsigns.KEY_LEN && AllCallBytes(query)
    requires Separate(current, history) && AccOf(current, history) == start
    modifies scratch, scratch.hciDecoded, current, history
    ensures AccOf(current', history') == MergeAll(start, IdxSnapshots(v2, query) + HciSnapshots(v2, query))
    ensures Separate(current', history')
    ensures scratch.decodedOffsets == old(scratch.decodedOffsets) + Decodes(v2, query)
  {
    hide Opened, IdxSnapshots, HciSnapshots, MergeAll, MergeStep, KeysAscend, AllCallBytes, Hci.Built, Decodes;
    IdxIsValid(v2);
    EmptyHistory(start);
    var fromIdx := LookupDatIdx(v2, query);
    current', history' := MergeSnapshots(current, history, fromIdx, start, []);
    assert [] + fromIdx == fromIdx;
    var fromHci := DrainHci(v2, query, scratch);
    current', history' := MergeSnapshots(current', history', fromHci, start, fromIdx);
  }

  method DrainHci(v2: Shard, query: Bytes, scratch: LookupScratch) returns (fromHci: seq<Snapshot>)
    requires Opened(v2) && 1 <= |query| <= Callsigns.KEY_LEN && AllCallBytes(query)
    modifies scratch, scratch.hciDecoded
    ensures fromHci == HciSnapshots(v2, query)
    ensures scratch.decodedOffsets == old(scratch.decodedOffsets) + Decodes(v2, query)
  {
    hide Opened, HciSnapshots, AllCallBytes, Decodes;
    LookupHciInto(v2, query, scratch);
    fromHci := scratch.hciSnapshots;
    scratch.hciSnapshots := [];
  }

  lemma IdxIsValid(s: Shard)
    requires Opened(s)
    ensures Valid(s.idx)
  {
  }

  lemma EmptyHistory(start: Acc)
    ensures Values([]) == []
    ensures MergeAll(start, []) == start
  {
  }

  /** A fresh lookup. */
  method LookupOnce(db: CallBook, callsign: Bytes) returns (r: Result<LookupResult>)
    requires OpenedBook(db)
    ensures r == LookupReport(db, callsign)
  {
    var scratch := new LookupScratch();
    r := LookupReportWithScratch(db, callsign, scratch);
  }

  /** Many lookups through one set of buffers. */
  class BatchLookup {
    const db: CallBook
    const scratch: LookupScratch

    constructor (db: CallBook)
      ensures this.db == db && fresh(scratch) && fresh(scratch.hciDecoded)
    {
      this.db := db;
      this.scratch := new LookupScratch();
    }

    /** Whatever earlier calls left in the buffers, the answer is that of a fresh lookup. */
    method Lookup(callsign: Bytes) returns (r: Result<LookupResult>)
      requires OpenedBook(db)
      modifies scratch, scratch.hciDecoded
      ensures r == LookupReport(db, callsign)
      ensures scratch.decodedOffsets == old(scratch.decodedOffsets) + LookupDecodes(db, callsign)
    {
      r := LookupReportWithScratch(db, callsign, scratch);
    }
  }
}
