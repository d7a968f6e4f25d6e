/** In which order snapshots arrive: what decides between several texts of one field. */
module Order {
  import opened Ascii
  import opened Sorting
  import opened Snapshots
  import opened Lookup
  import opened LookupTheorems
  import opened IdxSearch
  import Merging
  import Hci
  import HciKeys
  import IdxText

  predicate AllFrom(source: Source, ss: seq<Snapshot>) { forall k | 0 <= k < |ss| :: ss[k].sources == [source] }

  /** The catalog's snapshots come first, then the index's, then those behind postings. */
  ghost predicate BySource(ss: seq<Snapshot>) {
    exists us, idx, hci :: Sourced(us, idx, hci) && ss == us + idx + hci
  }

  predicate Sourced(us: seq<Snapshot>, idx: seq<Snapshot>, hci: seq<Snapshot>) {
    |us| <= 1 && AllFrom(UsCsv, us) && AllFrom(HamCallDatIdx, idx) && AllFrom(HamCallHci, hci)
  }

  lemma EntriesAreIndexed(s: Shard, q: Bytes, es: seq<IdxText.Entry>)
    requires Valid(s.idx) && AllCallBytes(q)
    ensures AllFrom(HamCallDatIdx, EntriesSnapshots(s, q, es))
  {
    EntriesAnswer(s, q, es);
  }

  lemma OffsetsArePosted(s: Shard, q: Bytes, offsets: seq<nat>)
    requires AllCallBytes(q)
    ensures AllFrom(HamCallHci, OffsetsSnapshots(s, q, offsets))
  {
    OffsetsAnswer(s, q, offsets);
  }

  lemma FilterFrom(source: Source, p: Snapshot -> bool, ss: seq<Snapshot>)
    requires AllFrom(source, ss)
    ensures AllFrom(source, Filter(p, ss))
  {
    FilterMembers(p, ss);
    forall k | 0 <= k < |Filter(p, ss)| ensures Filter(p, ss)[k].sources == [source] {
      assert Filter(p, ss)[k] in ss;
    }
  }

  /** What arrives splits into what the index leads to and what the postings lead to, in this order. */
  lemma ArrivalsSplit(db: CallBook, q: Bytes) returns (idx: seq<Snapshot>, hci: seq<Snapshot>)
    requires OpenedBook(db) && IsQuery(q)
    ensures Arrivals(db, q) == idx + hci && AllFrom(HamCallDatIdx, idx) && AllFrom(HamCallHci, hci)
  {
    hide EntriesSnapshots, OffsetsSnapshots, HciOffsets, BareRun, ColonRun, KeysAscend, Hci.Built;
    idx, hci := [], [];
    if db.v2.Some? {
      var s := db.v2.value;
      idx := IdxSnapshots(s, q);
      hci := HciSnapshots(s, q);
      EntriesAreIndexed(s, q, FirstOf(BareRun(Rows(s.idx), q)) + ColonRun(Rows(s.idx), q));
      if s.hci.Some? {
        OffsetsArePosted(s, q, HciOffsets(s.hci.value, q));
      }
    }
  }

  lemma FilteredBySource(us: seq<Snapshot>, p: Snapshot -> bool, idx: seq<Snapshot>, hci: seq<Snapshot>)
    requires |us| <= 1 && AllFrom(UsCsv, us) && AllFrom(HamCallDatIdx, idx) && AllFrom(HamCallHci, hci)
    ensures BySource(us + Filter(p, idx + hci))
  {
    hide AllFrom, Filter;
    FilterAppend(p, idx, hci);
    FilterFrom(HamCallDatIdx, p, idx);
    FilterFrom(HamCallHci, p, hci);
    assert Sourced(us, Filter(p, idx), Filter(p, hci));
    assert us + Filter(p, idx + hci) == us + Filter(p, idx) + Filter(p, hci);
  }

  /** A report folds, for every vintage, what the catalog has, then what the index leads to, then what the postings
      lead to. */
  lemma PartsBySource(db: CallBook, q: Bytes, v: Option<nat>)
    requires OpenedBook(db) && IsQuery(q)
    ensures BySource(Parts(db, q, v))
  {
    hide Arrivals, Filter, UsCurrent, KeysAscend, Hci.Built, IsQuery, BySource;
    var idx, hci := ArrivalsSplit(db, q);
    if v.None? {
      var us := UsCurrent(db, q);
      CatalogFirst(db, q);
      FilteredBySource(if us.Some? then [us.value] else [], (s: Snapshot) => s.vintage.None?, idx, hci);
    } else {
      var k := Merging.Key(q, v);
      FilteredBySource([], (s: Snapshot) => Merging.KeyOf(s) == k, idx, hci);
      var group := VintageGroup(db, q, v.value);
      assert [] + group == group;
    }
  }

  lemma CatalogFirst(db: CallBook, q: Bytes)
    requires OpenedBook(db) && IsQuery(q)
    ensures AllFrom(UsCsv, if UsCurrent(db, q).Some? then [UsCurrent(db, q).value] else [])
  {
    hide UsCurrent, KeysAscend, Hci.Built;
    if UsCurrent(db, q).Some? {
      UsCurrentShape(db, q);
    }
  }

  // ---- within one source --------------------------------------------------------------------------

  /** Index entries one after the other, in the order in which the search finds them. */
  lemma {:induction false} EntryInOrder(s: Shard, q: Bytes, a: seq<IdxText.Entry>, e: IdxText.Entry,
                                        b: seq<IdxText.Entry>)
    requires Valid(s.idx)
    ensures EntriesSnapshots(s, q, a + [e] + b)
            == EntriesSnapshots(s, q, a) + EntrySnapshots(s, q, e) + EntriesSnapshots(s, q, b)
  {
    hide EntrySnapshots;
    var all := a + [e] + b;
    if a == [] {
      assert all[0] == e && all[1..] == b;
    } else {
      EntryInOrder(s, q, a[1..], e, b);
      assert all[0] == a[0] && all[1..] == a[1..] + [e] + b;
    }
  }

  /** Offsets one after the other. */
  lemma {:induction false} OffsetInOrder(s: Shard, q: Bytes, a: seq<nat>, o: nat, b: seq<nat>)
    ensures OffsetsSnapshots(s, q, a + [o] + b)
            == OffsetsSnapshots(s, q, a) + PostingSnapshots(s, q, o) + OffsetsSnapshots(s, q, b)
    decreases |b|
  {
    hide PostingSnapshots;
    var all, n := a + [o] + b, |b| - 1;
    if b == [] {
      assert all[|all| - 1] == o && all[..|all| - 1] == a;
    } else {
      OffsetInOrder(s, q, a, o, b[..n]);
      assert all[|all| - 1] == b[n] && all[..|all| - 1] == a + [o] + b[..n];
    }
  }

  /** Keys one after the other, each with the postings of its records in the order of the file. */
  lemma {:induction false} KeyInOrder(h: Hci.HciFile, a: seq<Bytes>, key: Bytes, b: seq<Bytes>)
    ensures HciKeys.FamilyPostings(h, a + [key] + b)
            == HciKeys.FamilyPostings(h, a) + Hci.ScanPostings(h, key, Hci.Reachable(h)) + HciKeys.FamilyPostings(h, b)
  {
    hide Hci.ScanPostings, Hci.Reachable;
    var all := a + [key] + b;
    if a == [] {
      assert all[0] == key && all[1..] == b;
    } else {
      KeyInOrder(h, a[1..], key, b);
      assert all[0] == a[0] && all[1..] == a[1..] + [key] + b;
    }
  }

  lemma KeptIsListed<T>(s: seq<T>, x: T)
    requires x in Dedup(s)
    ensures exists p :: 0 <= p < |s| && s[p] == x
  {
    DedupMeaning(s);
    assert x in s;
  }

  /** What is kept of a list without repetitions is in the order of first occurrence. */
  lemma {:induction false} DedupInOrder<T>(s: seq<T>, i: nat, j: nat)
    requires i < j < |Dedup(s)|
    ensures exists p :: 0 <= p < |s| && s[p] == Dedup(s)[i] && Dedup(s)[j] !in s[..p + 1]
  {
    var init := s[..|s| - 1];
    DedupMeaning(init);
    DedupMeaning(s);
    if j < |Dedup(init)| {
      DedupInOrder(init, i, j);
      var p :| 0 <= p < |init| && init[p] == Dedup(init)[i] && Dedup(init)[j] !in init[..p + 1];
      assert init[..p + 1] == s[..p + 1];
      assert s[p] == Dedup(s)[i];
    } else {
      var x := Dedup(s)[i];
      assert x == Dedup(init)[i] && x in Dedup(init);
      KeptIsListed(init, x);
      var p :| 0 <= p < |init| && init[p] == x;
      assert s[..p + 1] == init[..p + 1];
      assert Dedup(s)[j] == s[|s| - 1] && s[|s| - 1] !in init;
      assert forall y | y in init[..p + 1] :: y in init;
      assert s[p] == x;
    }
  }

  /** Posting `p` is at `a`, and none up to it is at `b`. */
  predicate PostsFirst(ps: seq<Hci.Posting>, p: nat, a: nat, b: nat) {
    p < |ps| && ps[p].datOffset == a && forall k | 0 <= k <= p :: ps[k].datOffset != b
  }

  /** Offsets are decoded in the order in which the key family first posts them. */
  lemma OffsetsInOrder(h: Hci.HciFile, q: Bytes, i: nat, j: nat)
    requires i < j < |HciOffsets(h, q)|
    ensures exists p :: PostsFirst(HciKeys.FamilyPostings(h, HciKeys.LookupKeys(q, h.years)), p,
                                   HciOffsets(h, q)[i], HciOffsets(h, q)[j])
  {
    hide HciKeys.FamilyPostings, HciKeys.LookupKeys, Dedup;
    var ps := HciKeys.FamilyPostings(h, HciKeys.LookupKeys(q, h.years));
    var os := OffsetsOf(ps);
    DedupInOrder(os, i, j);
    var p :| 0 <= p < |os| && os[p] == Dedup(os)[i] && Dedup(os)[j] !in os[..p + 1];
    forall k | 0 <= k <= p ensures ps[k].datOffset != HciOffsets(h, q)[j] {
      assert os[..p + 1][k] == ps[k].datOffset;
    }
    assert PostsFirst(ps, p, HciOffsets(h, q)[i], HciOffsets(h, q)[j]);
  }
}
