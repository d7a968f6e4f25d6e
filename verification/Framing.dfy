/** How the encoded DAT is cut into records: a record runs from one decoded 0xb5 to the next. */
module Framing {
  import opened Ascii
  import opened Cipher

  const SENTINEL: Byte := 0xb5

  predicate IsSentinel(dat: Bytes, i: nat)
    requires i < |dat|
  {
    DecodeByte(i, dat[i]) == SENTINEL
  }

  /** `[start, end)` starts at a sentinel, holds no other one, and cannot be extended. */
  ghost predicate IsRecord(dat: Bytes, start: nat, end: nat) {
    && start < end <= |dat|
    && IsSentinel(dat, start)
    && (forall k | start < k < end :: !IsSentinel(dat, k))
    && (end < |dat| ==> IsSentinel(dat, end))
  }

  datatype BoundarySource = HciPostingStart | ScanFallback

  datatype Bounds = Bounds(
    start: nat,
    end: nat,
    source: BoundarySource,
    backwardScanBytes: Option<nat>,
    forwardScanBytes: Option<nat>)

  // ---- specification -----------------------------------------------------

  /** The last sentinel at or before `i`. */
  function SentinelBefore(dat: Bytes, i: nat): (r: Option<nat>)
    requires i < |dat|
    ensures r.Some? ==> r.value <= i && IsSentinel(dat, r.value)
    ensures r.Some? ==> forall k | r.value < k <= i :: !IsSentinel(dat, k)
    ensures r.None? ==> forall k | 0 <= k <= i :: !IsSentinel(dat, k)
  {
    if IsSentinel(dat, i) then Some(i)
    else if i == 0 then None
    else SentinelBefore(dat, i - 1)
  }

  /** The first sentinel at or after `i`, or the end of the file. */
  function SentinelFrom(dat: Bytes, i: nat): (n: nat)
    requires i <= |dat|
    ensures i <= n <= |dat|
    ensures forall k | i <= k < n :: !IsSentinel(dat, k)
    ensures n < |dat| ==> IsSentinel(dat, n)
    decreases |dat| - i
  {
    if i == |dat| || IsSentinel(dat, i) then i else SentinelFrom(dat, i + 1)
  }

  /** The record that contains `offset`. */
  function RecordAt(dat: Bytes, offset: nat): (r: Option<(nat, nat)>)
    ensures r.Some? ==> IsRecord(dat, r.value.0, r.value.1) && r.value.0 <= offset < r.value.1
    ensures r.None? <==> offset >= |dat| || forall k | 0 <= k <= offset :: !IsSentinel(dat, k)
  {
    if offset >= |dat| then None
    else
      match SentinelBefore(dat, offset)
      case None => None
      case Some(start) => Some((start, SentinelFrom(dat, start + 1)))
  }

  // ---- the scans ---------------------------------------------------------

  method RecordBoundsContainingOffset(dat: Bytes, offset: nat) returns (r: Option<Bounds>)
    ensures r.None? <==> offset >= |dat| || forall k | 0 <= k <= offset :: !IsSentinel(dat, k)
    ensures r.Some? ==>
              && IsRecord(dat, r.value.start, r.value.end)
              && r.value.start <= offset < r.value.end
              && r.value.source == ScanFallback
              && r.value.backwardScanBytes == Some(offset - r.value.start)
              && r.value.forwardScanBytes == Some(r.value.end - offset)
  {
    if offset >= |dat| {
      return None;
    }
    var position: nat := offset;
    while position > 0 && DecodeByte(position, dat[position]) != 0xb5
      invariant position <= offset
      invariant forall k | position < k <= offset :: !IsSentinel(dat, k)
    {
      position := position - 1;
    }
    if DecodeByte(position, dat[position]) != 0xb5 {
      assert !IsSentinel(dat, 0);
      return None;
    }
    var start := position;
    assert IsSentinel(dat, start);
    position := position + 1;
    while position < |dat| && DecodeByte(position, dat[position]) != 0xb5
      invariant start < position <= |dat|
      invariant forall k | start < k < position :: !IsSentinel(dat, k)
    {
      position := position + 1;
    }
    var forward := if position >= offset then position - offset else 0;
    return Some(Bounds(start, position, ScanFallback, Some(offset - start), Some(forward)));
  }

  method RecordBoundsFromHciPostingStart(dat: Bytes, offset: nat) returns (r: Option<Bounds>)
    ensures r.Some? <==> offset < |dat| && IsSentinel(dat, offset)
    ensures r.Some? ==>
              && r.value.start == offset
              && IsRecord(dat, r.value.start, r.value.end)
              && r.value.source == HciPostingStart
              && r.value.backwardScanBytes.None? && r.value.forwardScanBytes.None?
  {
    if offset >= |dat| || DecodeByte(offset, dat[offset]) != 0xb5 {
      return None;
    }
    var end := offset + 1;
    while end < |dat| && DecodeByte(end, dat[end]) != 0xb5
      invariant offset < end <= |dat|
      invariant forall k | offset < k < end :: !IsSentinel(dat, k)
    {
      end := end + 1;
    }
    return Some(Bounds(offset, end, HciPostingStart, None, None));
  }

  /** A posting normally points at a record start; the scan is the fallback. */
  method RecordBoundsForHciPosting(dat: Bytes, offset: nat) returns (r: Option<Bounds>)
    ensures r.Some? <==> RecordAt(dat, offset).Some?
    ensures r.Some? ==> RecordAt(dat, offset) == Some((r.value.start, r.value.end))
    ensures r.Some? ==> (r.value.source == HciPostingStart <==> r.value.start == offset)
  {
    r := RecordBoundsFromHciPostingStart(dat, offset);
    if r.None? {
      r := RecordBoundsContainingOffset(dat, offset);
    }
    if r.Some? {
      var found := RecordAt(dat, offset).value;
      RecordUnique(dat, offset, r.value.start, r.value.end, found.0, found.1);
    }
  }

  // ---- properties --------------------------------------------------------

  /** At most one record contains a given offset. */
  lemma RecordUnique(dat: Bytes, offset: nat, s: nat, e: nat, s': nat, e': nat)
    requires IsRecord(dat, s, e) && s <= offset < e
    requires IsRecord(dat, s', e') && s' <= offset < e'
    ensures s == s' && e == e'
  {
  }

  /** The record found is the only one around the offset, and a sentinel is its own start. */
  lemma RecordAtExact(dat: Bytes, offset: nat, s: nat, e: nat)
    ensures RecordAt(dat, offset) == Some((s, e)) <==> IsRecord(dat, s, e) && s <= offset < e
    ensures offset < |dat| && IsSentinel(dat, offset)
            ==> RecordAt(dat, offset) == Some((offset, SentinelFrom(dat, offset + 1)))
  {
    hide RecordAt, SentinelFrom, IsSentinel;
    if IsRecord(dat, s, e) && s <= offset < e {
      var found := RecordAt(dat, offset).value;
      RecordUnique(dat, offset, s, e, found.0, found.1);
    }
    if offset < |dat| && IsSentinel(dat, offset) {
      SentinelStarts(dat, offset);
    }
  }

  lemma SentinelStarts(dat: Bytes, offset: nat)
    requires offset < |dat| && IsSentinel(dat, offset)
    ensures RecordAt(dat, offset) == Some((offset, SentinelFrom(dat, offset + 1)))
  {
    hide RecordAt, IsSentinel, SentinelFrom;
    var found := RecordAt(dat, offset).value;
    RecordUnique(dat, offset, found.0, found.1, offset, SentinelFrom(dat, offset + 1));
  }

  /** The records from the sentinel at `from` to the end of the file. */
  function RecordsFrom(dat: Bytes, from: nat): (rs: seq<(nat, nat)>)
    requires from <= |dat| && (from < |dat| ==> IsSentinel(dat, from))
    decreases |dat| - from
  {
    if from == |dat| then []
    else
      var end := SentinelFrom(dat, from + 1);
      [(from, end)] + RecordsFrom(dat, end)
  }

  /** All records of the file; bytes before the first sentinel belong to none. */
  function Records(dat: Bytes): seq<(nat, nat)> {
    RecordsFrom(dat, SentinelFrom(dat, 0))
  }

  lemma {:induction false} RecordsFromComplete(dat: Bytes, from: nat, s: nat, e: nat)
    requires from <= |dat| && (from < |dat| ==> IsSentinel(dat, from))
    ensures (s, e) in RecordsFrom(dat, from) <==> IsRecord(dat, s, e) && from <= s
    decreases |dat| - from
  {
    if from < |dat| {
      var end := SentinelFrom(dat, from + 1);
      RecordsFromComplete(dat, end, s, e);
      if IsRecord(dat, s, e) && from <= s < end {
        assert s == from;
        RecordUnique(dat, from, s, e, from, end);
      }
    }
  }

  /** The listed records are exactly the record intervals of the file. */
  lemma RecordsComplete(dat: Bytes, s: nat, e: nat)
    ensures (s, e) in Records(dat) <==> IsRecord(dat, s, e)
  {
    RecordsFromComplete(dat, SentinelFrom(dat, 0), s, e);
  }

  function Slices(dat: Bytes, rs: seq<(nat, nat)>): Bytes
    requires forall i | 0 <= i < |rs| :: rs[i].0 <= rs[i].1 <= |dat|
  {
    if rs == [] then [] else dat[rs[0].0..rs[0].1] + Slices(dat, rs[1..])
  }

  /** The records tile the file from its first sentinel on: no byte is lost or read twice. */
  lemma {:induction false} RecordsTile(dat: Bytes, from: nat)
    requires from <= |dat| && (from < |dat| ==> IsSentinel(dat, from))
    ensures forall i | 0 <= i < |RecordsFrom(dat, from)| ::
              RecordsFrom(dat, from)[i].0 < RecordsFrom(dat, from)[i].1 <= |dat|
    ensures Slices(dat, RecordsFrom(dat, from)) == dat[from..]
    decreases |dat| - from
  {
    if from < |dat| {
      var end := SentinelFrom(dat, from + 1);
      RecordsTile(dat, end);
      var rs := RecordsFrom(dat, from);
      assert rs[1..] == RecordsFrom(dat, end);
      assert dat[from..] == dat[from..end] + dat[end..];
    }
  }
}
