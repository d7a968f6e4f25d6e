/** Searching the parsed index, and the DAT slices its entries stand for. */
module IdxSearch {
  import opened Ascii
  import opened Sorting
  import opened IdxText

  datatype IdxFile = IdxFile(buf: Bytes, table: seq<IndexEntry>)

  predicate Valid(f: IdxFile) { TableInFile(f.buf, f.table) }

  function Rows(f: IdxFile): (es: seq<Entry>)
    requires Valid(f)
    ensures |es| == |f.table|
  {
    View(f.buf, f.table)
  }

  /** Keys never go backwards: what binary search needs, and what the format promises. */
  ghost predicate KeysAscend(es: seq<Entry>) {
    forall i, j | 0 <= i < j < |es| :: Le(es[i].key, es[j].key)
  }

  ghost predicate KeysStrictlyAscend(es: seq<Entry>) {
    forall i, j | 0 <= i < j < |es| :: Lt(es[i].key, es[j].key)
  }

  ghost predicate OffsetsAscend(es: seq<Entry>) {
    forall i, j | 0 <= i < j < |es| :: es[i].datOffset < es[j].datOffset
  }

  /** The first entry whose key is not below `target`. */
  function IndexGe(es: seq<Entry>, target: Bytes): (n: nat)
    ensures n <= |es|
  {
    PartitionPoint((e: Entry) => Lt(e.key, target), es)
  }

  /** The first entry whose key is above `target`. */
  function IndexGt(es: seq<Entry>, target: Bytes): (n: nat)
    ensures n <= |es|
  {
    PartitionPoint((e: Entry) => Le(e.key, target), es)
  }

  /** Entries whose key is the bare callsign. */
  function BareRun(es: seq<Entry>, callsign: Bytes): seq<Entry> {
    Filter((e: Entry) => e.key == callsign, es)
  }

  /** Entries whose key is the callsign, a colon, and anything. */
  function ColonRun(es: seq<Entry>, callsign: Bytes): seq<Entry> {
    Filter((e: Entry) => StartsWith(e.key, callsign + [COLON]), es)
  }

  function FirstOf(es: seq<Entry>): seq<Entry> { if es == [] then [] else [es[0]] }

  /** Pass one: the lower bound of the bare key, if it is that key. */
  method BareEntry(rows: seq<Entry>, callsign: Bytes) returns (out: seq<Entry>)
    requires KeysAscend(rows)
    ensures out == FirstOf(BareRun(rows, callsign))
  {
    hide Lt, Le, KeysAscend, BareRun, PartitionPoint;
    out := [];
    BelowPartitions(rows, callsign);
    BareFirst(rows, callsign);
    var index := HalvingSearch((e: Entry) => Lt(e.key, callsign), rows);
    if index < |rows| {
      var entry := rows[index];
      if entry.key == callsign {
        out := [entry];
      }
    }
  }

  /** Pass two: from the lower bound of the suffix prefix on, as long as it is a prefix. */
  method SuffixedEntries(rows: seq<Entry>, callsign: Bytes) returns (out: seq<Entry>)
    requires KeysAscend(rows)
    ensures out == ColonRun(rows, callsign)
  {
    hide Lt, Le, KeysAscend, ColonRun, PartitionPoint, StartsWith;
    var suffixPrefix := callsign + [COLON];
    BelowPartitions(rows, suffixPrefix);
    var index := HalvingSearch((e: Entry) => Lt(e.key, suffixPrefix), rows);
    ghost var start := index;
    out := [];
    while index < |rows|
      invariant start <= index <= |rows|
      invariant out == rows[start..index]
      invariant forall i | start <= i < index :: StartsWith(rows[i].key, suffixPrefix)
    {
      var entry := rows[index];
      if !StartsWith(entry.key, suffixPrefix) {
        break;
      }
      out := out + [entry];
      index := index + 1;
    }
    SuffixedRun(rows, callsign, start, index);
  }

  /** The two passes: at most one bare entry, then the run of suffixed ones. */
  method FindCallsignAll(f: IdxFile, callsign: Bytes) returns (out: seq<Entry>)
    requires Valid(f) && KeysAscend(Rows(f))
    ensures out == FirstOf(BareRun(Rows(f), callsign)) + ColonRun(Rows(f), callsign)
  {
    hide KeysAscend, BareRun, ColonRun, View;
    var bare := BareEntry(Rows(f), callsign);
    var suffixed := SuffixedEntries(Rows(f), callsign);
    out := bare + suffixed;
  }

  /** The first entry whose key sorts strictly after `key`. */
  function NextEntryAfterKey(es: seq<Entry>, key: Bytes): Option<Entry> {
    var index := IndexGt(es, key);
    if index < |es| then Some(es[index]) else None
  }

  /** The DAT interval of an entry: up to the next entry's offset, clamped to the file. */
  function RawSlice(es: seq<Entry>, datSize: nat, entry: Entry): (r: Option<(nat, nat)>)
    ensures r.Some? ==> r.value.0 == entry.datOffset && r.value.0 <= r.value.1 <= datSize && r.value.0 < datSize
  {
    var next := NextEntryAfterKey(es, entry.key);
    var nextOff := if next.Some? && next.value.datOffset < datSize then next.value.datOffset else datSize;
    if entry.datOffset >= datSize || nextOff < entry.datOffset then None
    else Some((entry.datOffset, nextOff))
  }

  /** The slice, found with one more binary search. */
  method RawRecordFor(f: IdxFile, datSize: nat, entry: Entry) returns (r: Option<(nat, nat)>)
    requires Valid(f) && KeysAscend(Rows(f))
    ensures r == RawSlice(Rows(f), datSize, entry)
  {
    hide Le, KeysAscend, View, PartitionPoint;
    var rows := Rows(f);
    UpToPartitions(rows, entry.key);
    var index := HalvingSearch((e: Entry) => Le(e.key, entry.key), rows);
    var nextOff := datSize;
    if index < |rows| && rows[index].datOffset < datSize {
      nextOff := rows[index].datOffset;
    }
    if entry.datOffset >= datSize || nextOff < entry.datOffset {
      return None;
    }
    return Some((entry.datOffset, nextOff));
  }

  /** Ascending keys are what a binary search needs: the keys below a target come first, */
  lemma BelowPartitions(es: seq<Entry>, target: Bytes)
    requires KeysAscend(es)
    ensures Partitioned((e: Entry) => Lt(e.key, target), es)
  {
    hide Le;
    forall i, j | 0 <= i < j < |es| && Lt(es[j].key, target) ensures Lt(es[i].key, target) {
      LeTransitive(es[i].key, es[j].key, target);
      if es[i].key == target {
        LeAntisymmetric(es[j].key, target);
      }
    }
  }

  /** and so do the keys up to a target. */
  lemma UpToPartitions(es: seq<Entry>, target: Bytes)
    requires KeysAscend(es)
    ensures Partitioned((e: Entry) => Le(e.key, target), es)
  {
    hide Le;
    forall i, j | 0 <= i < j < |es| && Le(es[j].key, target) ensures Le(es[i].key, target) {
      LeTransitive(es[i].key, es[j].key, target);
    }
  }

  // ---- the two-pass search is exact -------------------------------------------------

  lemma {:induction false} FilterNone(p: Entry -> bool, es: seq<Entry>)
    requires forall i | 0 <= i < |es| :: !p(es[i])
    ensures Filter(p, es) == []
  {
    if es != [] {
      FilterNone(p, es[1..]);
    }
  }

  lemma FilterRun(p: Entry -> bool, es: seq<Entry>, lo: nat, hi: nat)
    requires lo <= hi <= |es|
    requires forall i | 0 <= i < lo :: !p(es[i])
    requires forall i | lo <= i < hi :: p(es[i])
    requires forall i | hi <= i < |es| :: !p(es[i])
    ensures Filter(p, es) == es[lo..hi]
  {
    hide Filter;
    assert es == es[..hi] + es[hi..];
    FilterAppend(p, es[..hi], es[hi..]);
    FilterNone(p, es[hi..]);
    FilterTail(p, es[..hi], lo);
    assert es[..hi][lo..] == es[lo..hi];
  }

  lemma FilterTail(p: Entry -> bool, es: seq<Entry>, lo: nat)
    requires lo <= |es|
    requires forall i | 0 <= i < lo :: !p(es[i])
    requires forall i | lo <= i < |es| :: p(es[i])
    ensures Filter(p, es) == es[lo..]
  {
    hide Filter;
    assert es == es[..lo] + es[lo..];
    FilterAppend(p, es[..lo], es[lo..]);
    FilterNone(p, es[..lo]);
    FilterAll(p, es[lo..]);
  }

  lemma {:induction false} FilterFirst(p: Entry -> bool, es: seq<Entry>, k: nat)
    requires k < |es| && p(es[k])
    requires forall i | 0 <= i < k :: !p(es[i])
    ensures Filter(p, es) != [] && Filter(p, es)[0] == es[k]
  {
    if k > 0 {
      FilterFirst(p, es[1..], k - 1);
    }
  }

  /** Pass one finds the first bare entry, if there is any. */
  lemma BareFirst(es: seq<Entry>, callsign: Bytes)
    requires KeysAscend(es)
    ensures var k := IndexGe(es, callsign);
            FirstOf(BareRun(es, callsign)) == if k < |es| && es[k].key == callsign then [es[k]] else []
  {
    hide Filter, PartitionPoint, Le;
    var p := (e: Entry) => e.key == callsign;
    var k := IndexGe(es, callsign);
    forall i | 0 <= i < k ensures !p(es[i]) {
      assert Lt(es[i].key, callsign);
    }
    if k < |es| && es[k].key == callsign {
      FilterFirst(p, es, k);
    } else {
      forall i | 0 <= i < |es| ensures !p(es[i]) {
        if k <= i {
          KeyBeyond(es, callsign, k, i);
        }
      }
      FilterNone(p, es);
    }
  }

  lemma KeyBeyond(es: seq<Entry>, callsign: Bytes, k: nat, i: nat)
    requires KeysAscend(es) && k <= i < |es|
    requires !Lt(es[k].key, callsign) && es[k].key != callsign
    ensures es[i].key != callsign
  {
    hide Le;
    assert k < i ==> Le(es[k].key, es[i].key);
  }

  /** Pass two walks exactly the suffixed entries: they are one run that starts at the prefix. */
  lemma SuffixedRun(es: seq<Entry>, callsign: Bytes, start: nat, end: nat)
    requires KeysAscend(es)
    requires start == IndexGe(es, callsign + [COLON]) && start <= end <= |es|
    requires forall i | start <= i < end :: StartsWith(es[i].key, callsign + [COLON])
    requires end < |es| ==> !StartsWith(es[end].key, callsign + [COLON])
    ensures ColonRun(es, callsign) == es[start..end]
  {
    hide Filter, PartitionPoint, Le, StartsWith;
    var prefix := callsign + [COLON];
    var p := (e: Entry) => StartsWith(e.key, prefix);
    forall i | 0 <= i < start ensures !p(es[i]) {
      assert Lt(es[i].key, prefix);
      BelowPrefix(es[i].key, prefix);
    }
    forall i | end <= i < |es| ensures !p(es[i]) {
      BeyondRun(es, prefix, start, end, i);
    }
    FilterRun(p, es, start, end);
  }

  lemma BelowPrefix(key: Bytes, prefix: Bytes)
    requires Lt(key, prefix)
    ensures !StartsWith(key, prefix)
  {
    if StartsWith(key, prefix) {
      PrefixLe(prefix, key);
      LeAntisymmetric(prefix, key);
    }
  }

  lemma BeyondRun(es: seq<Entry>, prefix: Bytes, start: nat, end: nat, i: nat)
    requires KeysAscend(es) && start <= end <= i < |es|
    requires !Lt(es[start].key, prefix)
    requires !StartsWith(es[end].key, prefix)
    ensures !StartsWith(es[i].key, prefix)
  {
    hide Le, StartsWith;
    LeTotal(es[start].key, prefix);
    LeReflexive(es[start].key);
    LeReflexive(es[end].key);
    assert Le(es[start].key, es[end].key) && Le(es[end].key, es[i].key);
    LeTransitive(prefix, es[start].key, es[end].key);
    if StartsWith(es[i].key, prefix) {
      PrefixRunConvex(prefix, es[end].key, es[i].key);
    }
  }

  /** A key belongs to a callsign when the text before its first colon is that callsign. */
  predicate NamesCall(e: Entry, callsign: Bytes) { Before(e.key, COLON) == callsign }

  lemma NamesCallSplits(e: Entry, callsign: Bytes)
    requires COLON !in callsign
    ensures NamesCall(e, callsign) <==> e.key == callsign || StartsWith(e.key, callsign + [COLON])
    ensures !(e.key == callsign && StartsWith(e.key, callsign + [COLON]))
  {
    var key := e.key;
    if StartsWith(key, callsign + [COLON]) {
      var rest := key[|callsign|..];
      assert key[..|callsign| + 1] == callsign + [COLON];
      assert key[..|callsign|] == callsign && rest[0] == COLON;
      assert key == callsign + rest;
      BeforeOfJoin(callsign, COLON, rest);
    }
    if key == callsign {
      BeforeOfJoin(callsign, COLON, []);
      assert callsign + [] == callsign;
    }
    if NamesCall(e, callsign) {
      var n := IndexOf(key, COLON);
      if n < |key| {
        assert key[..n + 1] == callsign + [COLON];
      } else {
        assert key[..n] == key;
      }
    }
  }

  /** When no element of the second kind precedes one of the first, filtering by either is filtering
      by one and then by the other. */
  lemma {:induction false} FilterSplit(p: Entry -> bool, a: Entry -> bool, b: Entry -> bool, es: seq<Entry>)
    requires forall i | 0 <= i < |es| :: (p(es[i]) <==> a(es[i]) || b(es[i])) && !(a(es[i]) && b(es[i]))
    requires forall i, j | 0 <= i < j < |es| :: !(b(es[i]) && a(es[j]))
    ensures Filter(p, es) == Filter(a, es) + Filter(b, es)
  {
    if es != [] {
      FilterSplit(p, a, b, es[1..]);
      if b(es[0]) {
        FilterNone(a, es[1..]);
      }
    }
  }

  lemma BareBeforeSuffixed(x: Bytes, y: Bytes, callsign: Bytes)
    requires Le(x, y) && y == callsign
    ensures !StartsWith(x, callsign + [COLON])
  {
    if StartsWith(x, callsign + [COLON]) {
      assert x[..|callsign| + 1] == callsign + [COLON];
      assert x[..|callsign|] == callsign;
      PrefixLe(callsign, x);
      LeAntisymmetric(x, y);
    }
  }

  /** On ascending keys the entries of a callsign are its bare entries followed by its suffixed ones;
      the two-pass search returns exactly these if and only if at most one bare entry exists. */
  lemma FindCallsignExact(es: seq<Entry>, callsign: Bytes)
    requires KeysAscend(es) && COLON !in callsign
    ensures Filter((e: Entry) => NamesCall(e, callsign), es) == BareRun(es, callsign) + ColonRun(es, callsign)
    ensures FirstOf(BareRun(es, callsign)) + ColonRun(es, callsign)
            == Filter((e: Entry) => NamesCall(e, callsign), es)
            <==> |BareRun(es, callsign)| <= 1
  {
    hide Filter, Le, StartsWith, Before;
    var p := (e: Entry) => NamesCall(e, callsign);
    var a := (e: Entry) => e.key == callsign;
    var b := (e: Entry) => StartsWith(e.key, callsign + [COLON]);
    forall i | 0 <= i < |es| ensures (p(es[i]) <==> a(es[i]) || b(es[i])) && !(a(es[i]) && b(es[i])) {
      NamesCallSplits(es[i], callsign);
    }
    forall i, j | 0 <= i < j < |es| ensures !(b(es[i]) && a(es[j])) {
      if a(es[j]) {
        BareBeforeSuffixed(es[i].key, es[j].key, callsign);
      }
    }
    FilterSplit(p, a, b, es);
    if |BareRun(es, callsign)| <= 1 {
      assert FirstOf(BareRun(es, callsign)) == BareRun(es, callsign);
    } else {
      assert |FirstOf(BareRun(es, callsign)) + ColonRun(es, callsign)|
          < |BareRun(es, callsign) + ColonRun(es, callsign)|;
    }
  }

  lemma {:induction false} FilterAtMostOne(p: Entry -> bool, es: seq<Entry>)
    requires forall i, j | 0 <= i < j < |es| :: !(p(es[i]) && p(es[j]))
    ensures |Filter(p, es)| <= 1
  {
    if es != [] {
      FilterAtMostOne(p, es[1..]);
      if p(es[0]) {
        FilterNone(p, es[1..]);
      }
    }
  }

  /** Strictly ascending keys have at most one bare entry, so there the search is exact. */
  lemma FindCallsignStrict(es: seq<Entry>, callsign: Bytes)
    requires KeysStrictlyAscend(es) && COLON !in callsign
    ensures FirstOf(BareRun(es, callsign)) + ColonRun(es, callsign)
            == Filter((e: Entry) => NamesCall(e, callsign), es)
  {
    hide Le, Filter;
    FilterAtMostOne((e: Entry) => e.key == callsign, es);
    FindCallsignExact(es, callsign);
  }

  // ---- raw slices tile the file -------------------------------------------------------

  lemma NextIsSuccessor(es: seq<Entry>, i: nat)
    requires KeysStrictlyAscend(es) && i < |es|
    ensures IndexGt(es, es[i].key) == i + 1
  {
    hide PartitionPoint, Le;
    var n := IndexGt(es, es[i].key);
    LeReflexive(es[i].key);
    if n < |es| {
      assert !Le(es[n].key, es[i].key);
      assert n > i;
    }
    if n > i + 1 {
      assert Le(es[i + 1].key, es[i].key) && Lt(es[i].key, es[i + 1].key);
      LeAntisymmetric(es[i].key, es[i + 1].key);
    }
  }

  function Clamp(offset: nat, datSize: nat): nat { if offset < datSize then offset else datSize }

  /** Where the slice of entry `i` ends: at the next offset or at the end of the file. */
  function SliceEnd(es: seq<Entry>, datSize: nat, i: nat): nat
    requires i < |es|
  {
    if i + 1 < |es| then Clamp(es[i + 1].datOffset, datSize) else datSize
  }

  /** Inside the file, every slice is non-empty and ends where the next one starts. */
  lemma SliceExact(es: seq<Entry>, datSize: nat, i: nat)
    requires KeysStrictlyAscend(es) && OffsetsAscend(es) && i < |es|
    ensures RawSlice(es, datSize, es[i])
            == if es[i].datOffset < datSize then Some((es[i].datOffset, SliceEnd(es, datSize, i))) else None
    ensures es[i].datOffset < datSize ==> es[i].datOffset < SliceEnd(es, datSize, i)
  {
    hide IndexGt, Le;
    NextIsSuccessor(es, i);
    assert i + 1 < |es| ==> es[i].datOffset < es[i + 1].datOffset;
  }

  /** The raw slices of the entries from `i` on, end to end. */
  function SlicesFrom(es: seq<Entry>, dat: Bytes, i: nat): Bytes
    requires i <= |es|
    decreases |es| - i
  {
    if i == |es| then []
    else
      var slice := RawSlice(es, |dat|, es[i]);
      (if slice.Some? then dat[slice.value.0..slice.value.1] else []) + SlicesFrom(es, dat, i + 1)
  }

  /** The slices tile the file from the first offset on: in key order they are non-empty, disjoint and
      leave no gap, even when trailing entries point past the end of the file. */
  lemma {:induction false} SlicesTile(es: seq<Entry>, dat: Bytes, i: nat)
    requires KeysStrictlyAscend(es) && OffsetsAscend(es) && i < |es|
    ensures SlicesFrom(es, dat, i) == dat[Clamp(es[i].datOffset, |dat|)..]
    decreases |es| - i
  {
    hide RawSlice, Le;
    SliceExact(es, |dat|, i);
    if i + 1 < |es| {
      SlicesTile(es, dat, i + 1);
      assert es[i].datOffset < es[i + 1].datOffset;
      if es[i].datOffset < |dat| {
        var start, end := es[i].datOffset, SliceEnd(es, |dat|, i);
        assert dat[start..] == dat[start..end] + dat[end..];
      }
    } else {
      assert SlicesFrom(es, dat, i + 1) == [];
    }
  }
}
