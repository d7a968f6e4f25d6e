/** Iterating over every entry: index keys first, then the catalog, each callsign looked up once. */
module Entries {
  import opened Ascii
  import opened Lookup
  import opened LookupTheorems
  import opened IdxSearch
  import opened RecordText
  import Callsigns
  import Hci
  import IdxText

  datatype Phase = ModernIdx | UsCatalogue | Done

  // ---- specification ------------------------------------------------------------------

  predicate IsYear(s: Bytes) { |s| == 4 && AllDigits(s) && 1900 <= DecimalValue(s) <= 2099 }

  predicate Placeholder(key: Bytes) {
    key == [] || key == [0x21, 0x21, 0x21] || key == [0x5a, 0x5a, 0x5a, 0x5a, 0x5a, 0x5a, 0x5a, 0x5a]
  }

  /** The call part of an index key, as written, and its vintage. */
  function StatKeyParts(raw: Bytes): (r: Option<(Bytes, Option<nat>)>)
  {
    var key := Trim(raw, STR_SPACE);
    if Placeholder(key) then None
    else
      var call, colon := Before(key, COLON), IndexOf(key, COLON);
      if colon < |key| && !IsYear(key[colon + 1..]) then None
      else if Callsigns.Normalize(call).None? then None
      else Some((call, if colon < |key| then Some(DecimalValue(key[colon + 1..])) else None))
  }

  function EntryCall(key: Bytes, includeHistory: bool): seq<Bytes> {
    var parts := StatKeyParts(key);
    if parts.None? || (!includeHistory && parts.value.1.Some?) then [] else [parts.value.0]
  }

  function EntryCalls(es: seq<IdxText.Entry>, includeHistory: bool): seq<Bytes> {
    if es == [] then [] else EntryCall(es[0].key, includeHistory) + EntryCalls(es[1..], includeHistory)
  }

  /** The candidate callsigns of a whole run, in order, repetitions included. */
  function AllCalls(db: CallBook, includeHistory: bool): seq<Bytes> {
    if db.v2.None? then []
    else EntryCalls(IdxText.ParsedFrom(db.v2.value.idx.buf, 0), includeHistory) + CsvCalls(db.v2.value)
  }

  function CsvCalls(s: Shard): seq<Bytes> { if s.usCsv.None? then [] else s.usCsv.value.callsigns }

  /** What one looked-up callsign contributes. Without history only current records are entries. */
  function Shown(found: Result<LookupResult>, includeHistory: bool): seq<Result<LookupResult>> {
    match found
    case InvalidCallsign(_) => [found]
    case Ok(r) =>
      if includeHistory then [found]
      else if r.current.None? then []
      else [Ok(r.(history := []))]
  }

  /** The results for some candidates when those in `seen` were already looked up. */
  function Results(db: CallBook, calls: seq<Bytes>, seen: set<Bytes>, includeHistory: bool): seq<Result<LookupResult>>
    requires OpenedBook(db)
  {
    if calls == [] then []
    else if calls[0] in seen then Results(db, calls[1..], seen, includeHistory)
    else Shown(LookupReport(db, calls[0]), includeHistory)
         + Results(db, calls[1..], seen + {calls[0]}, includeHistory)
  }

  // ---- the iterator -----------------------------------------------------------------------

  class EntryIter {
    const db: CallBook
    const includeHistory: bool
    var phase: Phase
    var seen: set<Bytes>
    const modernIdx: IdxText.TextIdxIter?
    var usCsvCallsigns: Option<seq<Bytes>>

    ghost predicate Valid()
      reads this, modernIdx
    {
      && OpenedBook(db)
      && (modernIdx != null ==> modernIdx.Valid())
    }

    /** The candidate callsigns still to come. */
    ghost function Calls(): seq<Bytes>
      requires Valid()
      reads this, modernIdx
    {
      var csv := if usCsvCallsigns.Some? then usCsvCallsigns.value else [];
      match phase
      case ModernIdx => (if modernIdx == null then [] else EntryCalls(modernIdx.Remaining(), includeHistory)) + csv
      case UsCatalogue => csv
      case Done => []
    }

    /** The results still to come. */
    ghost function Pending(): seq<Result<LookupResult>>
      requires Valid()
      reads this, modernIdx
    {
      Results(db, Calls(), seen, includeHistory)
    }

    constructor (db: CallBook, includeHistory: bool)
      requires OpenedBook(db)
      ensures Valid() && (modernIdx != null ==> fresh(modernIdx))
      ensures this.db == db && this.includeHistory == includeHistory
      ensures seen == {} && Calls() == AllCalls(db, includeHistory)
      ensures Pending() == Results(db, AllCalls(db, includeHistory), {}, includeHistory)
    {
      hide EntryCalls, Results, IdxText.ParsedFrom, KeysAscend, Hci.Built;
      this.db, this.includeHistory := db, includeHistory;
      phase, seen, usCsvCallsigns := ModernIdx, {}, None;
      var it: IdxText.TextIdxIter? := null;
      if db.v2.Some? {
        it := new IdxText.TextIdxIter(db.v2.value.idx.buf);
        if db.v2.value.usCsv.Some? {
          usCsvCallsigns := Some(db.v2.value.usCsv.value.callsigns);
        }
      }
      modernIdx := it;
    }

    /** The next candidate of the index, skipping keys that are not entries. */
    method NextIdxCallsign() returns (r: Option<Bytes>)
      requires Valid() && modernIdx != null
      modifies modernIdx
      ensures Valid()
      ensures old(EntryCalls(modernIdx.Remaining(), includeHistory))
              == if r.Some? then [r.value] + EntryCalls(modernIdx.Remaining(), includeHistory) else []
      ensures r.None? ==> modernIdx.Remaining() == []
    {
      hide StatKeyParts, IdxText.ParsedFrom;
      var entry := modernIdx.Next();
      while entry.Some?
        invariant Valid()
        invariant old(EntryCalls(modernIdx.Remaining(), includeHistory))
               == EntryCalls((if entry.Some? then [entry.value] else []) + modernIdx.Remaining(), includeHistory)
        invariant entry.None? ==> modernIdx.Remaining() == []
        decreases entry.Some?, |modernIdx.buf| - modernIdx.pos
      {
        EntryCallsCons(entry.value, modernIdx.Remaining(), includeHistory);
        var parts := StatKeyParts(entry.value.key);
        if parts.Some? && (includeHistory || parts.value.1.None?) {
          return Some(parts.value.0);
        }
        ghost var rest := modernIdx.Remaining();
        entry := modernIdx.Next();
        assert rest == (if entry.Some? then [entry.value] else []) + modernIdx.Remaining();
      }
      return None;
    }

    method NextCallsign() returns (r: Option<Bytes>)
      requires Valid()
      modifies this`phase, this`usCsvCallsigns, modernIdx
      ensures Valid()
      ensures old(Calls()) == if r.Some? then [r.value] + Calls() else []
      ensures r.None? ==> phase == Done && Calls() == []
      ensures old(phase) == Done ==> r.None?
    {
      hide EntryCalls, OpenedBook, IdxText.ParsedFrom;
      while phase != Done
        invariant Valid() && Calls() == old(Calls())
        invariant old(phase) == Done ==> phase == Done
        decreases if phase == ModernIdx then 2 else if phase == UsCatalogue then 1 else 0
      {
        if phase == ModernIdx {
          if modernIdx != null {
            var callsign := NextIdxCallsign();
            if callsign.Some? {
              return callsign;
            }
          }
          phase := UsCatalogue;
        } else {
          if usCsvCallsigns.Some? && usCsvCallsigns.value != [] {
            var callsign := usCsvCallsigns.value[0];
            usCsvCallsigns := Some(usCsvCallsigns.value[1..]);
            return Some(callsign);
          }
          phase := Done;
        }
      }
      return None;
    }

    /** Yield the next result; once the iterator is done it stays done. */
    method Next() returns (r: Option<Result<LookupResult>>)
      requires Valid()
      modifies this, modernIdx
      ensures Valid()
      ensures old(Pending()) == if r.Some? then [r.value] + Pending() else []
      ensures r.None? ==> phase == Done && Pending() == []
      ensures old(phase) == Done ==> r.None? && seen == old(seen)
      ensures |Calls()| <= old(|Calls()|) && (r.Some? ==> |Calls()| < old(|Calls()|))
    {
      hide OpenedBook, LookupReport, Shown, Results, EntryCalls;
      while true
        invariant Valid() && Pending() == old(Pending())
        invariant old(phase) == Done ==> phase == Done && seen == old(seen)
        invariant |Calls()| <= old(|Calls()|)
        decreases |Calls()|
      {
        var next := NextCallsign();
        if next.None? {
          NoResults(db, seen, includeHistory);
          return None;
        }
        var callsign := next.value;
        ResultsCons(db, callsign, Calls(), seen, includeHistory);
        if callsign in seen {
          continue;
        }
        seen := seen + {callsign};
        r := LookupShown(callsign);
        if r.Some? {
          return r;
        }
      }
    }

    /** Take results until there are none left. */
    method Exhaust() returns (out: seq<Result<LookupResult>>)
      requires Valid()
      modifies this, modernIdx
      ensures Valid() && phase == Done
      ensures out == old(Pending())
    {
      hide OpenedBook, Results, EntryCalls, Calls, Pending;
      ghost var all := Pending();
      out := [];
      var r := Next();
      while r.Some?
        invariant Valid()
        invariant all == out + (if r.Some? then [r.value] else []) + Pending()
        invariant r.None? ==> phase == Done && Pending() == []
        decreases r.Some?, |Calls()|
      {
        out := out + [r.value];
        r := Next();
      }
    }

    /** Look one callsign up; without history, drop it and skip what has no current record. */
    method LookupShown(callsign: Bytes) returns (r: Option<Result<LookupResult>>)
      requires OpenedBook(db)
      ensures Shown(LookupReport(db, callsign), includeHistory) == if r.Some? then [r.value] else []
    {
      hide OpenedBook, LookupReport;
      var found := LookupOnce(db, callsign);
      if found.InvalidCallsign? {
        return Some(found);
      }
      var report := found.value;
      if !includeHistory {
        report := report.(history := []);
        if report.current.None? {
          return None;
        }
      }
      return Some(Ok(report));
    }
  }

  lemma ResultsCons(db: CallBook, c: Bytes, calls: seq<Bytes>, seen: set<Bytes>, includeHistory: bool)
    requires OpenedBook(db)
    ensures Results(db, [c] + calls, seen, includeHistory)
            == if c in seen then Results(db, calls, seen, includeHistory)
               else Shown(LookupReport(db, c), includeHistory) + Results(db, calls, seen + {c}, includeHistory)
  {
    hide OpenedBook, LookupReport, Shown;
    assert ([c] + calls)[1..] == calls;
  }

  lemma NoResults(db: CallBook, seen: set<Bytes>, includeHistory: bool)
    requires OpenedBook(db)
    ensures Results(db, [], seen, includeHistory) == []
  {
    hide OpenedBook;
  }

  lemma EntryCallsCons(e: IdxText.Entry, es: seq<IdxText.Entry>, includeHistory: bool)
    ensures EntryCalls([e] + es, includeHistory) == EntryCall(e.key, includeHistory) + EntryCalls(es, includeHistory)
  {
    assert ([e] + es)[1..] == es;
  }

  // ---- running to the end -----------------------------------------------------------------------

  /** Exhaust a fresh iterator. */
  method CollectAll(db: CallBook, includeHistory: bool) returns (out: seq<Result<LookupResult>>)
    requires OpenedBook(db)
    ensures out == ShownAll(db, Dedup(AllCalls(db, includeHistory)), includeHistory)
  {
    hide OpenedBook, AllCalls, Results, ShownAll, Dedup, EntryCalls, EntryIter.Calls, EntryIter.Pending;
    var it := new EntryIter(db, includeHistory);
    RunIsDedup(db, AllCalls(db, includeHistory), includeHistory);
    out := it.Exhaust();
  }

  function ShownAll(db: CallBook, calls: seq<Bytes>, includeHistory: bool): seq<Result<LookupResult>>
    requires OpenedBook(db)
  {
    if calls == [] then []
    else ShownAll(db, calls[..|calls| - 1], includeHistory)
         + Shown(LookupReport(db, calls[|calls| - 1]), includeHistory)
  }

  lemma ShownSnoc(db: CallBook, calls: seq<Bytes>, c: Bytes, includeHistory: bool)
    requires OpenedBook(db)
    ensures ShownAll(db, calls + [c], includeHistory)
            == ShownAll(db, calls, includeHistory) + Shown(LookupReport(db, c), includeHistory)
  {
    hide KeysAscend, Hci.Built, Shown, LookupReport;
    assert (calls + [c])[..|calls|] == calls;
  }

  lemma {:induction false} ResultsFollow(db: CallBook, before: seq<Bytes>, calls: seq<Bytes>, seen: set<Bytes>,
                                         includeHistory: bool)
    requires OpenedBook(db)
    requires forall c :: c in seen <==> c in before
    ensures ShownAll(db, Dedup(before + calls), includeHistory)
            == ShownAll(db, Dedup(before), includeHistory) + Results(db, calls, seen, includeHistory)
    decreases |calls|
  {
    hide OpenedBook, Dedup, Shown, LookupReport, ShownAll;
    if calls == [] {
      assert before + calls == before;
    } else {
      var c, rest := calls[0], calls[1..];
      assert before + calls == before + [c] + rest;
      DedupSnoc(before, c);
      ResultsFollow(db, before + [c], rest, seen + {c}, includeHistory);
      if c in seen {
        assert seen + {c} == seen;
      } else {
        ShownSnoc(db, Dedup(before), c, includeHistory);
      }
    }
  }

  /** A run looks up exactly the distinct candidates, once each, in order of first occurrence. */
  lemma RunIsDedup(db: CallBook, calls: seq<Bytes>, includeHistory: bool)
    requires OpenedBook(db)
    ensures Results(db, calls, {}, includeHistory) == ShownAll(db, Dedup(calls), includeHistory)
  {
    hide OpenedBook, Dedup, Shown, LookupReport, Results;
    ResultsFollow(db, [], calls, {}, includeHistory);
    assert [] + calls == calls;
    NothingShown(db, includeHistory);
  }

  lemma NothingShown(db: CallBook, includeHistory: bool)
    requires OpenedBook(db)
    ensures ShownAll(db, Dedup([]), includeHistory) == []
  {
    hide OpenedBook;
  }

  // ---- what a run contains -------------------------------------------------------------------------

  /** The candidates are exactly the call parts of the index keys, undated ones only when history is
      left out, and the callsigns of the catalog. */
  lemma CandidatesExact(db: CallBook, c: Bytes, includeHistory: bool)
    requires OpenedBook(db)
    ensures c in AllCalls(db, includeHistory)
            <==> && db.v2.Some?
                 && (|| (db.v2.value.usCsv.Some? && c in db.v2.value.usCsv.value.records)
                     || exists e, v: Option<nat> :: e in IdxText.ParsedFrom(db.v2.value.idx.buf, 0)
                                       && StatKeyParts(e.key) == Some((c, v)) && (includeHistory || v.None?))
  {
    hide StatKeyParts, IdxText.ParsedFrom, KeysAscend, Hci.Built;
    if db.v2.Some? {
      EntryCallsMembers(IdxText.ParsedFrom(db.v2.value.idx.buf, 0), c, includeHistory);
    }
  }

  lemma {:induction false} EntryCallsMembers(es: seq<IdxText.Entry>, c: Bytes, includeHistory: bool)
    ensures c in EntryCalls(es, includeHistory)
            <==> exists e, v: Option<nat> ::
                   e in es && StatKeyParts(e.key) == Some((c, v)) && (includeHistory || v.None?)
  {
    hide StatKeyParts;
    if es != [] {
      EntryCallsMembers(es[1..], c, includeHistory);
      assert es == [es[0]] + es[1..];
    }
  }

  /** A bare callsign is its own entry, except for the one that marks the end of the index. */
  lemma BareKeyIsEntry(q: Bytes)
    requires IsQuery(q)
    ensures StatKeyParts(q) == if q == Text("ZZZZZZZZ") then None else Some((q, None))
  {
    hide Trim, Before, IndexOf, Placeholder, Callsigns.Normalize;
    TrimCall(q, STR_SPACE);
    Callsigns.NormalizeFixpoint(q);
    NoColon(q);
    NoColonBefore(q);
    EndKey(q);
  }

  lemma EndKey(q: Bytes)
    requires IsQuery(q)
    ensures Placeholder(q) <==> q == Text("ZZZZZZZZ")
  {
    var z := Text("ZZZZZZZZ");
    assert IsCallByte(q[0]);
    assert z == [0x5a, 0x5a, 0x5a, 0x5a, 0x5a, 0x5a, 0x5a, 0x5a];
  }

  /** A key with something behind a colon is an entry of its call exactly for the four-digit years 1900 to 2099. */
  lemma ArchiveKeyIsEntry(q: Bytes, d: Bytes)
    requires IsQuery(q) && (d != [] ==> d[|d| - 1] !in STR_SPACE)
    ensures StatKeyParts(q + [COLON] + d)
            == if |d| == 4 && AllDigits(d) && 1900 <= DecimalValue(d) <= 2099 then Some((q, Some(DecimalValue(d))))
               else None
  {
    hide DecimalValue, Trim, Before, IndexOf, Placeholder, Callsigns.Normalize, AllDigits;
    ArchiveKeySplits(q, d);
    Callsigns.NormalizeFixpoint(q);
  }

  lemma ArchiveKeySplits(q: Bytes, d: Bytes)
    requires IsQuery(q) && (d != [] ==> d[|d| - 1] !in STR_SPACE)
    ensures var key := q + [COLON] + d;
            && Trim(key, STR_SPACE) == key && !Placeholder(key)
            && Before(key, COLON) == q && IndexOf(key, COLON) == |q| && key[|q| + 1..] == d
  {
    hide Trim, Before, IndexOf;
    var key := q + [COLON] + d;
    assert IsCallByte(q[0]) && key[0] == q[0];
    assert key[|q|] == COLON;
    assert d != [] ==> key[|key| - 1] == d[|d| - 1];
    TrimIdentity(key, STR_SPACE);
    NoColon(q);
    assert key == q + ([COLON] + d);
    BeforeOfJoin(q, COLON, [COLON] + d);
  }

  /** With history every distinct candidate is answered by its own lookup, once, and only a catalog
      callsign can be refused. */
  lemma {:induction false} HistoryRun(db: CallBook, calls: seq<Bytes>)
    requires OpenedBook(db)
    ensures |ShownAll(db, calls, true)| == |calls|
    ensures forall i | 0 <= i < |calls| :: ShownAll(db, calls, true)[i] == LookupReport(db, calls[i])
  {
    hide OpenedBook, LookupReport;
    if calls != [] {
      HistoryRun(db, calls[..|calls| - 1]);
    }
  }

  lemma OnlyCatalogRefused(db: CallBook, c: Bytes)
    requires OpenedBook(db) && c in AllCalls(db, true) && LookupReport(db, c).InvalidCallsign?
    ensures db.v2.value.usCsv.Some? && c in db.v2.value.usCsv.value.records
  {
    hide IdxText.ParsedFrom, KeysAscend, Hci.Built, Callsigns.Normalize, ReportFor;
    CandidatesExact(db, c, true);
  }

  /** Without history a run shows exactly the current records among the candidates, stripped of
      their history. */
  lemma {:induction false} CurrentRun(db: CallBook, calls: seq<Bytes>, r: LookupResult)
    requires OpenedBook(db)
    ensures Ok(r) in ShownAll(db, calls, false)
            <==> exists c, full :: c in calls && LookupReport(db, c) == Ok(full) && full.status == Current
                                   && r == full.(history := [])
  {
    hide OpenedBook, LookupReport;
    if calls != [] {
      var init, c := calls[..|calls| - 1], calls[|calls| - 1];
      CurrentRun(db, init, r);
      CurrentStatus(db, c);
      assert calls == init + [c];
    }
  }

  lemma CurrentStatus(db: CallBook, c: Bytes)
    requires OpenedBook(db)
    ensures LookupReport(db, c).Ok? ==>
              (LookupReport(db, c).value.status == Current <==> LookupReport(db, c).value.current.Some?)
  {
    hide KeysAscend, Hci.Built, Callsigns.Normalize, Arrivals, UsCurrent;
  }

  // ---- candidates that normalise alike -----------------------------------------------------------------

  /** The candidate is shown as a report. */
  predicate IsShown(db: CallBook, c: Bytes, includeHistory: bool)
    requires OpenedBook(db)
  {
    var found := LookupReport(db, c);
    found.Ok? && (includeHistory || found.value.current.Some?)
  }

  /** What the candidate contributes. */
  function ShownFor(db: CallBook, c: Bytes, includeHistory: bool): seq<Result<LookupResult>>
    requires OpenedBook(db)
  {
    Shown(LookupReport(db, c), includeHistory)
  }

  /** No two reports of the list answer the same query. */
  ghost predicate DistinctQueries(rs: seq<Result<LookupResult>>) {
    forall i, j | 0 <= i < j < |rs| && rs[i].Ok? && rs[j].Ok? :: rs[i].value.query != rs[j].value.query
  }

  /** No two candidates that are shown have the same normal form. */
  ghost predicate DistinctNormals(db: CallBook, calls: seq<Bytes>, includeHistory: bool)
    requires OpenedBook(db)
  {
    forall i, j | 0 <= i < j < |calls|
                  && IsShown(db, calls[i], includeHistory) && IsShown(db, calls[j], includeHistory) ::
      Callsigns.Normalize(calls[i]) != Callsigns.Normalize(calls[j])
  }

  lemma ShownQuery(db: CallBook, c: Bytes, includeHistory: bool)
    requires OpenedBook(db)
    ensures var rs := ShownFor(db, c, includeHistory);
            && |rs| <= 1
            && (IsShown(db, c, includeHistory) ==>
                  |rs| == 1 && rs[0].Ok? && Callsigns.Normalize(c) == Some(rs[0].value.query))
            && (!IsShown(db, c, includeHistory) ==> forall i | 0 <= i < |rs| :: rs[i].InvalidCallsign?)
  {
    hide KeysAscend, Hci.Built, Callsigns.Normalize, Arrivals, UsCurrent;
  }

  ghost predicate Answered(rs: seq<Result<LookupResult>>, q: Bytes) {
    exists i :: 0 <= i < |rs| && rs[i].Ok? && rs[i].value.query == q
  }

  ghost predicate Named(db: CallBook, calls: seq<Bytes>, includeHistory: bool, q: Bytes)
    requires OpenedBook(db)
  {
    exists k :: 0 <= k < |calls| && IsShown(db, calls[k], includeHistory) && Callsigns.Normalize(calls[k]) == Some(q)
  }

  lemma AnsweredJoin(a: seq<Result<LookupResult>>, b: seq<Result<LookupResult>>, q: Bytes)
    ensures Answered(a + b, q) <==> Answered(a, q) || Answered(b, q)
  {
    assert forall i | 0 <= i < |a| :: (a + b)[i] == a[i];
    assert forall i | 0 <= i < |b| :: (a + b)[|a| + i] == b[i];
  }

  lemma AnsweredByOne(rs: seq<Result<LookupResult>>, q: Bytes)
    requires |rs| <= 1
    ensures Answered(rs, q) <==> |rs| == 1 && rs[0].Ok? && rs[0].value.query == q
  {
  }

  lemma NamedSnoc(db: CallBook, calls: seq<Bytes>, includeHistory: bool, q: Bytes)
    requires OpenedBook(db) && calls != []
    ensures var n := |calls| - 1;
            Named(db, calls, includeHistory, q)
            <==> || Named(db, calls[..n], includeHistory, q)
                 || (IsShown(db, calls[n], includeHistory) && Callsigns.Normalize(calls[n]) == Some(q))
  {
    hide OpenedBook, IsShown, Callsigns.Normalize;
    var n := |calls| - 1;
    assert forall k | 0 <= k < n :: calls[..n][k] == calls[k];
  }

  lemma {:induction false} QueriesShown(db: CallBook, calls: seq<Bytes>, includeHistory: bool, q: Bytes)
    requires OpenedBook(db)
    ensures Answered(ShownAll(db, calls, includeHistory), q) <==> Named(db, calls, includeHistory, q)
  {
    hide OpenedBook, LookupReport, IsShown, Callsigns.Normalize, ShownAll, Named, Shown, Answered;
    if calls == [] {
      NothingToTell(db, includeHistory);
      NothingNamed(db, includeHistory, q);
      AnsweredByOne([], q);
    } else {
      var init, c := calls[..|calls| - 1], calls[|calls| - 1];
      QueriesShown(db, init, includeHistory, q);
      ShownQuery(db, c, includeHistory);
      assert init + [c] == calls;
      ShownSnoc(db, init, c, includeHistory);
      AnsweredJoin(ShownAll(db, init, includeHistory), ShownFor(db, c, includeHistory), q);
      AnsweredByOne(ShownFor(db, c, includeHistory), q);
      NamedSnoc(db, calls, includeHistory, q);
    }
  }

  lemma NothingNamed(db: CallBook, includeHistory: bool, q: Bytes)
    requires OpenedBook(db)
    ensures !Named(db, [], includeHistory, q)
  {
  }

  lemma DistinctSnoc(a: seq<Result<LookupResult>>, b: seq<Result<LookupResult>>)
    requires |b| <= 1
    ensures DistinctQueries(a + b)
            <==> DistinctQueries(a) && (b != [] && b[0].Ok? ==> !Answered(a, b[0].value.query))
  {
    var s := a + b;
    assert forall i | 0 <= i < |a| :: s[i] == a[i];
    if b != [] {
      assert s[|a|] == b[0];
    }
    if DistinctQueries(s) {
      forall i, j | 0 <= i < j < |a| && a[i].Ok? && a[j].Ok? ensures a[i].value.query != a[j].value.query {
        assert s[i].value.query != s[j].value.query;
      }
    }
  }

  lemma NormalsSnoc(db: CallBook, calls: seq<Bytes>, includeHistory: bool, q: Bytes)
    requires OpenedBook(db) && calls != []
    requires IsShown(db, calls[|calls| - 1], includeHistory) ==> Callsigns.Normalize(calls[|calls| - 1]) == Some(q)
    ensures var n := |calls| - 1;
            DistinctNormals(db, calls, includeHistory)
            <==> && DistinctNormals(db, calls[..n], includeHistory)
                 && (IsShown(db, calls[n], includeHistory) ==> !Named(db, calls[..n], includeHistory, q))
  {
    hide OpenedBook, IsShown, Callsigns.Normalize;
    var n := |calls| - 1;
    var init := calls[..n];
    assert forall k | 0 <= k < n :: init[k] == calls[k];
    if DistinctNormals(db, calls, includeHistory) {
      forall i, j | 0 <= i < j < n && IsShown(db, init[i], includeHistory) && IsShown(db, init[j], includeHistory)
        ensures Callsigns.Normalize(init[i]) != Callsigns.Normalize(init[j])
      {
        assert Callsigns.Normalize(calls[i]) != Callsigns.Normalize(calls[j]);
      }
    }
  }

  /** The reports of a run answer different queries if and only if no two candidates that it shows normalise
      alike: candidates are told apart as they are written. */
  lemma {:induction false} QueriesDistinct(db: CallBook, calls: seq<Bytes>, includeHistory: bool)
    requires OpenedBook(db)
    ensures DistinctQueries(ShownAll(db, calls, includeHistory)) <==> DistinctNormals(db, calls, includeHistory)
  {
    hide OpenedBook, LookupReport, IsShown, Callsigns.Normalize, DistinctQueries, DistinctNormals, ShownAll, Named,
      Answered, Shown;
    NothingToTell(db, includeHistory);
    if calls != [] {
      var init, c := calls[..|calls| - 1], calls[|calls| - 1];
      var a, b := ShownAll(db, init, includeHistory), ShownFor(db, c, includeHistory);
      ShownQuery(db, c, includeHistory);
      var q := if IsShown(db, c, includeHistory) then b[0].value.query else [];
      QueriesDistinct(db, init, includeHistory);
      NormalsSnoc(db, calls, includeHistory, q);
      assert init + [c] == calls;
      ShownSnoc(db, init, c, includeHistory);
      DistinctSnoc(a, b);
      QueriesShown(db, init, includeHistory, q);
    }
  }

  lemma NothingToTell(db: CallBook, includeHistory: bool)
    requires OpenedBook(db)
    ensures ShownAll(db, [], includeHistory) == []
    ensures DistinctQueries(ShownAll(db, [], includeHistory)) && DistinctNormals(db, [], includeHistory)
  {
  }

  lemma CallIsEntry(c: Bytes)
    requires Callsigns.Normalize(c).Some? && COLON !in c && !Placeholder(c) && Trimmed(c, STR_SPACE)
    ensures StatKeyParts(c) == Some((c, None))
  {
    hide Trim, Before, IndexOf, Placeholder, Callsigns.Normalize;
    TrimIdentity(c, STR_SPACE);
    NoColonBefore(c);
  }

  /** Two index keys that differ in letter case only, `K1AA` and `k1aa`: the run shows the same report twice. */
  lemma SameReportTwice(db: CallBook, a: nat, b: nat)
    requires OpenedBook(db) && db.v2.Some? && db.v2.value.usCsv.None?
    requires IdxText.ParsedFrom(db.v2.value.idx.buf, 0) == [IdxText.Entry(K1AA, a), IdxText.Entry(LOWER, b)]
    ensures AllCalls(db, true) == [K1AA, LOWER]
    ensures LookupReport(db, K1AA).Ok? && LookupReport(db, LOWER) == LookupReport(db, K1AA)
    ensures Results(db, AllCalls(db, true), {}, true) == [LookupReport(db, K1AA), LookupReport(db, K1AA)]
  {
    hide OpenedBook, Callsigns.Normalize, StatKeyParts, IdxText.ParsedFrom, LookupReport;
    TwoEntries(a, b);
    SameReport(db);
    assert K1AA[0] != LOWER[0];
    TwoResults(db);
  }

  lemma TwoEntries(a: nat, b: nat)
    ensures EntryCalls([IdxText.Entry(K1AA, a), IdxText.Entry(LOWER, b)], true) == [K1AA, LOWER]
  {
    hide Callsigns.Normalize, StatKeyParts, EntryCalls;
    BothNormal();
    CallIsEntry(K1AA);
    CallIsEntry(LOWER);
    var x, y := IdxText.Entry(K1AA, a), IdxText.Entry(LOWER, b);
    assert [x] + [y] == [x, y] && [y] + [] == [y] && [K1AA] + [LOWER] == [K1AA, LOWER] && [LOWER] + [] == [LOWER];
    EntryCallsCons(x, [y], true);
    EntryCallsCons(y, [], true);
    NoCalls();
  }

  lemma NoCalls()
    ensures EntryCalls([], true) == []
  {
  }

  lemma TwoResults(db: CallBook)
    requires OpenedBook(db) && LookupReport(db, K1AA).Ok? && LookupReport(db, LOWER) == LookupReport(db, K1AA)
    ensures Results(db, [K1AA, LOWER], {}, true) == [LookupReport(db, K1AA), LookupReport(db, K1AA)]
  {
    hide KeysAscend, Hci.Built, LookupReport, Results;
    assert [K1AA] + [LOWER] == [K1AA, LOWER] && [LOWER] + [] == [LOWER];
    assert K1AA[0] != LOWER[0];
    ResultsCons(db, K1AA, [LOWER], {}, true);
    ResultsCons(db, LOWER, [], {} + {K1AA}, true);
    NoResults(db, {} + {K1AA} + {LOWER}, true);
  }

  lemma SameReport(db: CallBook)
    requires OpenedBook(db)
    ensures LookupReport(db, K1AA).Ok? && LookupReport(db, LOWER) == LookupReport(db, K1AA)
  {
    hide KeysAscend, Hci.Built, Callsigns.Normalize, ReportFor;
    BothNormal();
  }

  lemma BothNormal()
    ensures Callsigns.Normalize(K1AA) == Some(K1AA) && Callsigns.Normalize(LOWER) == Some(K1AA)
    ensures COLON !in K1AA && !Placeholder(K1AA) && Trimmed(K1AA, STR_SPACE)
    ensures COLON !in LOWER && !Placeholder(LOWER) && Trimmed(LOWER, STR_SPACE)
  {
    hide Callsigns.Normalize;
    assert IsCallByte(K1AA[0]) && IsCallByte(K1AA[1]) && IsCallByte(K1AA[2]) && IsCallByte(K1AA[3]);
    Callsigns.NormalizeFixpoint(K1AA);
    Callsigns.NormalizeIgnoresCase(LOWER);
    assert Upper(LOWER) == K1AA;
  }
}
