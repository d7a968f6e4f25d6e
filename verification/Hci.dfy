/** The inverted file `hci.dat`, its big-endian offset table, and the hashed exact-key index over it. */
module Hci {
  import opened Ascii
  import opened Sorting
  import opened Cipher
  import Bits

  const HEADER_MAX: nat := 100
  const TERMINATOR: Byte := 0xb5
  const MAX_ORDINAL: nat := 0x1_0000_0000
  const FNV_BASIS: nat := 0xcbf29ce484222325
  const FNV_PRIME: nat := 0x100000001b3

  datatype KeyRef = KeyRef(hash: nat, index: nat)

  /** Where one posting points, and its extra position byte. */
  datatype Posting = Posting(datOffset: nat, position: Byte)

  /** One still-encoded record. */
  datatype RawRecord = RawRecord(start: nat, bytes: Bytes)

  datatype HciFile = HciFile(index: Bytes, dat: Bytes, keyIndex: seq<KeyRef>, years: seq<nat>)

  datatype HeaderKey = HeaderKey(hash: nat, key: Bytes, year: Option<nat>, headerLen: nat)

  // ---- the files ---------------------------------------------------------

  function Be32(b: Bytes): (n: nat)
    requires |b| == 4
    ensures n < MAX_ORDINAL
  {
    (((b[0] as int) * 256 + b[1]) * 256 + b[2]) * 256 + b[3]
  }

  function Count(index: Bytes): nat { |index| / 4 }

  function Offset(index: Bytes, i: nat): Option<nat> {
    if 4 * i + 4 <= |index| then Some(Be32(index[4 * i..4 * i + 4])) else None
  }

  /** The slice between two offsets, unless they are out of bounds or out of order. */
  function Slice(dat: Bytes, start: nat, end: nat): Option<RawRecord> {
    if start > |dat| || end > |dat| || end < start then None else Some(RawRecord(start, dat[start..end]))
  }

  /** The record with ordinal `i`; the last one ends with the file. */
  function Raw(index: Bytes, dat: Bytes, i: nat): Option<RawRecord> {
    if Offset(index, i).None? then None
    else
      var end := if Offset(index, i + 1).Some? then Offset(index, i + 1).value else |dat|;
      Slice(dat, Offset(index, i).value, end)
  }

  // ---- headers and postings -----------------------------------------------

  function Decoded(raw: RawRecord, i: nat): Byte
    requires i < |raw.bytes|
  {
    DecodeByte(raw.start + i, raw.bytes[i])
  }

  /** The record starts with exactly `key`, encoded, and the terminator. */
  predicate HeaderIs(raw: RawRecord, key: Bytes) {
    && |key| < HEADER_MAX && |key| < |raw.bytes|
    && (forall i | 0 <= i < |key| :: Decoded(raw, i) == key[i])
    && Decoded(raw, |key|) == TERMINATOR
  }

  /** The length of a record's printable header, scanning from `i`. */
  function HeaderEnd(raw: RawRecord, i: nat): (r: Option<nat>)
    ensures r.Some? ==> i <= r.value < |raw.bytes| && r.value < HEADER_MAX && r.value > 0
    ensures r.Some? ==> Decoded(raw, r.value) == TERMINATOR
    ensures r.Some? ==> forall k | i <= k < r.value :: IsPrintable(Decoded(raw, k))
    decreases HEADER_MAX - i
  {
    if i >= HEADER_MAX || i >= |raw.bytes| then None
    else if Decoded(raw, i) == TERMINATOR then (if i == 0 then None else Some(i))
    else if !IsPrintable(Decoded(raw, i)) then None
    else HeaderEnd(raw, i + 1)
  }

  /** The decoded search key of a record, if its header is a printable non-empty key. */
  function Header(raw: RawRecord): (r: Option<Bytes>)
    ensures r.Some? ==> HeaderIs(raw, r.value) && r.value != [] && AllPrintable(r.value)
  {
    match HeaderEnd(raw, 0)
    case None => None
    case Some(n) => Some(seq(n, i requires 0 <= i < n => Decoded(raw, i)))
  }

  function ChunkPostings(b: Bytes): seq<Posting> {
    if |b| < 5 then [] else [Posting(Be32(b[..4]), b[4])] + ChunkPostings(b[5..])
  }

  /** Five bytes a posting; the last byte of a record is never part of one. */
  function Postings(b: Bytes): seq<Posting> {
    if b == [] then [] else ChunkPostings(b[..|b| - 1])
  }

  // ---- hashing and archive years --------------------------------------------

  function FnvStep(h: nat, b: Byte): nat { (Bits.Xor(h, b) * FNV_PRIME) % TWO64 }

  /** FNV-1a. */
  function HashKey(key: Bytes): nat {
    if key == [] then FNV_BASIS else FnvStep(HashKey(key[..|key| - 1]), key[|key| - 1])
  }

  /** The archive year: exactly four digits, and nothing else, behind the last colon. */
  function YearOf(key: Bytes): Option<nat> {
    if |key| >= 5 && key[|key| - 5] == COLON && AllDigits(key[|key| - 4..])
    then Some(DecimalValue(key[|key| - 4..])) else None
  }

  /** The digits since the last colon, while there are only digits and at most four of them. */
  function LiveDigits(key: Bytes): (r: Option<Bytes>)
    ensures r.Some? ==> AllDigits(r.value) && |r.value| <= 4
    ensures r.Some? ==> |r.value| < |key| && key[|key| - |r.value| - 1] == COLON && key[|key| - |r.value|..] == r.value
  {
    if key == [] then None
    else if key[|key| - 1] == COLON then Some([])
    else
      match LiveDigits(key[..|key| - 1])
      case None => None
      case Some(t) => if !IsDigit(key[|key| - 1]) || |t| >= 4 then None else Some(t + [key[|key| - 1]])
  }

  lemma {:induction false} LiveDigitsComplete(key: Bytes, n: nat)
    requires n <= 4 && n < |key| && key[|key| - n - 1] == COLON && AllDigits(key[|key| - n..])
    ensures LiveDigits(key) == Some(key[|key| - n..])
  {
    hide IsDigit;
    if n == 0 {
      assert key[|key|..] == [];
    } else {
      var init, t := key[..|key| - 1], key[|key| - n..];
      assert |init| - (n - 1) == |key| - n;
      assert init[|key| - n..] == key[|key| - n..|key| - 1] == t[..n - 1];
      LiveDigitsComplete(init, n - 1);
      DigitNoColon(t, n - 1);
      assert t == t[..n - 1] + [key[|key| - 1]];
    }
  }

  lemma DigitNoColon(t: Bytes, i: nat)
    requires AllDigits(t) && i < |t|
    ensures IsDigit(t[i]) && t[i] != COLON
  {
  }

  /** Four live digits are exactly an archive year. */
  lemma YearIsLive(key: Bytes)
    ensures YearOf(key).Some? <==> LiveDigits(key).Some? && |LiveDigits(key).value| == 4
    ensures YearOf(key).Some? ==> YearOf(key).value == DecimalValue(LiveDigits(key).value)
  {
    hide DecimalValue, AllDigits, LiveDigits;
    if YearOf(key).Some? {
      LiveDigitsComplete(key, 4);
    }
  }

  // ---- the fused header decoder ----------------------------------------------

  /** What the decoder's colon and digit counters say about the key read so far. */
  ghost predicate Tracks(key: Bytes, live: bool, year: nat, digits: nat) {
    match LiveDigits(key)
    case None => !live && digits == 0
    case Some(t) => live && digits == |t| && year == DecimalValue(t)
  }

  lemma TrackColon(before: Bytes)
    ensures Tracks(before + [COLON], true, 0, 0)
  {
    assert DecimalValue([]) == 0;
  }

  lemma TrackOther(before: Bytes, d: Byte, live: bool, year: nat, digits: nat)
    requires d != COLON && Tracks(before, live, year, digits)
    ensures live && IsDigit(d) && digits < 4 ==> Tracks(before + [d], true, year * 10 + (d - 0x30), digits + 1)
    ensures !(live && IsDigit(d) && digits < 4) ==> Tracks(before + [d], false, year, 0)
  {
    var key := before + [d];
    assert key[..|key| - 1] == before;
    if live && IsDigit(d) && digits < 4 {
      var t := LiveDigits(before).value;
      assert (t + [d])[..|t|] == t;
    }
  }

  /** One pass decodes the key, hashes it and tracks the colon and the digits behind it. */
  method DecodeHeaderKey(raw: RawRecord) returns (r: Option<HeaderKey>)
    ensures r.Some? <==> Header(raw).Some?
    ensures r.Some? ==>
              && r.value.key == Header(raw).value
              && r.value.hash == HashKey(r.value.key)
              && r.value.year == YearOf(r.value.key)
              && r.value.headerLen == |r.value.key| + 1
  {
    hide FnvStep, DecodeByte, DecimalValue, LiveDigits, YearOf, Tracks, HashKey, HeaderEnd;
    var hash, key: Bytes := FNV_BASIS, [];
    var colonAt: Option<nat> := None;
    var year: nat, yearDigits: nat := 0, 0;
    var n := if |raw.bytes| < HEADER_MAX then |raw.bytes| else HEADER_MAX;
    TrackNothing();
    NothingHashed();
    for zeroBased := 0 to n
      invariant |key| == zeroBased
      invariant forall k | 0 <= k < zeroBased :: key[k] == Decoded(raw, k)
      invariant HeaderEnd(raw, 0) == HeaderEnd(raw, zeroBased)
      invariant hash == HashKey(key)
      invariant Tracks(key, colonAt.Some?, year, yearDigits)
    {
      var decoded := DecodeByte(raw.start + zeroBased, raw.bytes[zeroBased]);
      HeaderStep(raw, zeroBased);
      if decoded == 0xb5 {
        if zeroBased == 0 {
          return None;
        }
        TrackedYear(key, colonAt.Some?, year, yearDigits);
        return Some(HeaderKey(hash, key, if yearDigits == 4 then Some(year) else None, zeroBased + 1));
      }
      if decoded > 0xb4 || !IsPrintable(decoded) {
        return None;
      }
      HashAppend(key, decoded);
      hash := FnvStep(hash, decoded);
      colonAt, year, yearDigits := TrackByte(key, decoded, colonAt, year, yearDigits);
      key := key + [decoded];
    }
    HeaderStep(raw, n);
    return None;
  }

  /** The colon, year and digit counters, one byte further. */
  method TrackByte(key: Bytes, decoded: Byte, colonAt: Option<nat>, year: nat, yearDigits: nat)
    returns (colonAt': Option<nat>, year': nat, yearDigits': nat)
    requires Tracks(key, colonAt.Some?, year, yearDigits)
    ensures Tracks(key + [decoded], colonAt'.Some?, year', yearDigits')
  {
    hide Tracks;
    colonAt', year', yearDigits' := colonAt, year, yearDigits;
    if decoded == COLON {
      TrackColon(key);
      colonAt' := Some(|key|);
      year' := 0;
      yearDigits' := 0;
    } else {
      TrackOther(key, decoded, colonAt.Some?, year, yearDigits);
      NotLive(key, colonAt.Some?, year, yearDigits);
      if colonAt.Some? {
        if !IsDigit(decoded) || yearDigits >= 4 {
          colonAt' := None;
          yearDigits' := 0;
        } else {
          year' := year * 10 + (decoded - 0x30);
          yearDigits' := yearDigits + 1;
        }
      }
    }
  }

  lemma HeaderStep(raw: RawRecord, i: nat)
    ensures HeaderEnd(raw, i)
            == if i >= HEADER_MAX || i >= |raw.bytes| then None
               else if Decoded(raw, i) == TERMINATOR then (if i == 0 then None else Some(i))
               else if !IsPrintable(Decoded(raw, i)) then None
               else HeaderEnd(raw, i + 1)
  {
    hide DecodeByte;
  }

  lemma NothingHashed()
    ensures HashKey([]) == FNV_BASIS
  {
  }

  lemma TrackNothing()
    ensures Tracks([], false, 0, 0)
  {
  }

  lemma NotLive(key: Bytes, live: bool, year: nat, digits: nat)
    requires Tracks(key, live, year, digits)
    ensures !live ==> digits == 0
  {
  }

  lemma TrackedYear(key: Bytes, live: bool, year: nat, digits: nat)
    requires Tracks(key, live, year, digits)
    ensures YearOf(key) == if digits == 4 then Some(year) else None
  {
    hide YearOf;
    YearIsLive(key);
  }

  lemma HashAppend(key: Bytes, b: Byte)
    ensures HashKey(key + [b]) == FnvStep(HashKey(key), b)
  {
    assert (key + [b])[..|key|] == key;
  }

  method DecodedHeaderMatches(raw: RawRecord, key: Bytes) returns (r: Option<nat>)
    ensures r.Some? <==> HeaderIs(raw, key)
    ensures r.Some? <==>
              && |key| < 100 && |key| < |raw.bytes|
              && (forall i | 0 <= i < |key| :: DecodeByte(raw.start + i, raw.bytes[i]) == key[i])
              && DecodeByte(raw.start + |key|, raw.bytes[|key|]) == 0xb5
    ensures r.Some? ==> r.value == |key| + 1
  {
    hide DecodeByte;
    var n := if |raw.bytes| < HEADER_MAX then |raw.bytes| else HEADER_MAX;
    for zeroBased := 0 to n
      invariant zeroBased <= |key|
      invariant forall k | 0 <= k < zeroBased :: Decoded(raw, k) == key[k]
    {
      var decoded := DecodeByte(raw.start + zeroBased, raw.bytes[zeroBased]);
      if zeroBased < |key| {
        if decoded != key[zeroBased] {
          assert Decoded(raw, zeroBased) != key[zeroBased];
          return None;
        }
      } else if decoded == 0xb5 {
        return Some(zeroBased + 1);
      } else {
        return None;
      }
    }
    return None;
  }

  /** The hash starts at the 64-bit basis, and each byte is mixed in before the multiplication by the prime. */
  lemma HashSteps(key: Bytes, b: Byte)
    ensures HashKey([]) == 0xcbf29ce484222325
    ensures HashKey(key + [b]) == Bits.Xor(HashKey(key), b) * 0x1000_00001b3 % 0x1_0000_0000_0000_0000
  {
    hide Bits.Xor;
    HashAppend(key, b);
  }

  method HashOf(key: Bytes) returns (hash: nat)
    ensures hash == HashKey(key)
  {
    hide FnvStep;
    hash := FNV_BASIS;
    for i := 0 to |key|
      invariant hash == HashKey(key[..i])
    {
      assert key[..i + 1][..i] == key[..i];
      hash := FnvStep(hash, key[i]);
    }
    assert key[..|key|] == key;
  }

  /** A record has the header `key` exactly when `key` matches it, for every non-empty printable key. */
  lemma HeaderIffMatch(raw: RawRecord, key: Bytes)
    requires key != [] && AllPrintable(key)
    ensures Header(raw) == Some(key) <==> HeaderIs(raw, key)
  {
    hide DecodeByte;
    if HeaderIs(raw, key) {
      HeaderEndReaches(raw, key, 0);
      assert Header(raw).value == key;
    }
  }

  lemma {:induction false} HeaderEndReaches(raw: RawRecord, key: Bytes, i: nat)
    requires key != [] && AllPrintable(key) && HeaderIs(raw, key) && i <= |key|
    ensures HeaderEnd(raw, i) == Some(|key|)
    decreases |key| - i
  {
    hide DecodeByte;
    if i < |key| {
      assert IsPrintable(key[i]) && Decoded(raw, i) == key[i];
      HeaderEndReaches(raw, key, i + 1);
    }
  }

  // ---- the key index ---------------------------------------------------------

  predicate RefLe(a: KeyRef, b: KeyRef) {
    a.hash < b.hash || (a.hash == b.hash && a.index <= b.index)
  }

  predicate NatLe(a: nat, b: nat) { a <= b }

  /** The index entry of one record, if it has a printable header and a 32-bit ordinal. */
  function SliceRef(raw: Option<RawRecord>, i: nat): seq<KeyRef> {
    if raw.None? || Header(raw.value).None? || i >= MAX_ORDINAL then []
    else [KeyRef(HashKey(Header(raw.value).value), i)]
  }

  function SliceYear(raw: Option<RawRecord>, i: nat): seq<nat> {
    if raw.None? || Header(raw.value).None? || i >= MAX_ORDINAL || YearOf(Header(raw.value).value).None? then []
    else [YearOf(Header(raw.value).value).value]
  }

  function RefOf(index: Bytes, dat: Bytes, i: nat): seq<KeyRef> { SliceRef(Raw(index, dat, i), i) }

  function YearsAt(index: Bytes, dat: Bytes, i: nat): seq<nat> { SliceYear(Raw(index, dat, i), i) }

  /** The entries of the first `n` records, in ordinal order. */
  function Refs(index: Bytes, dat: Bytes, n: nat): seq<KeyRef> {
    if n == 0 then [] else Refs(index, dat, n - 1) + RefOf(index, dat, n - 1)
  }

  function Years(index: Bytes, dat: Bytes, n: nat): seq<nat> {
    if n == 0 then [] else Years(index, dat, n - 1) + YearsAt(index, dat, n - 1)
  }

  predicate Built(h: HciFile) {
    && |h.index| % 4 == 0
    && h.keyIndex == Sort(RefLe, Refs(h.index, h.dat, Count(h.index)))
    && h.years == DedupAdjacent(Sort(NatLe, Years(h.index, h.dat, Count(h.index))))
  }

  method PushHciKeyRef(dat: Bytes, index: nat, start: nat, end: nat, entries: seq<KeyRef>, years: seq<nat>)
    returns (entries': seq<KeyRef>, years': seq<nat>)
    ensures entries' == entries + SliceRef(Slice(dat, start, end), index)
    ensures years' == years + SliceYear(Slice(dat, start, end), index)
  {
    hide Header, HashKey, YearOf;
    entries', years' := entries, years;
    if start > |dat| || end > |dat| || end < start {
      return;
    }
    var header := DecodeHeaderKey(RawRecord(start, dat[start..end]));
    if header.None? || index >= MAX_ORDINAL {
      return;
    }
    entries' := entries' + [KeyRef(header.value.hash, index)];
    if header.value.year.Some? {
      years' := years' + [header.value.year.value];
    }
  }

  /** One pass over the offset table; each offset closes the record before it. */
  method BuildKeyIndex(index: Bytes, dat: Bytes) returns (keyIndex: seq<KeyRef>, years: seq<nat>)
    ensures keyIndex == Sort(RefLe, Refs(index, dat, Count(index)))
    ensures years == DedupAdjacent(Sort(NatLe, Years(index, dat, Count(index))))
  {
    hide SliceRef, SliceYear, Be32, Sort, DedupAdjacent, Slice;
    var entries: seq<KeyRef> := [];
    years := [];
    var previous: Option<(nat, nat)> := None;
    for i := 0 to Count(index)
      invariant previous == if i == 0 then None else Some((i - 1, Offset(index, i - 1).value))
      invariant entries == Refs(index, dat, if i == 0 then 0 else i - 1)
      invariant years == Years(index, dat, if i == 0 then 0 else i - 1)
    {
      var current := Be32(index[4 * i..4 * i + 4]);
      assert Offset(index, i) == Some(current);
      if previous.Some? {
        entries, years := PushHciKeyRef(dat, previous.value.0, previous.value.1, current, entries, years);
      }
      previous := Some((i, current));
    }
    if previous.Some? {
      entries, years := PushHciKeyRef(dat, previous.value.0, previous.value.1, |dat|, entries, years);
    }
    keyIndex := Sort(RefLe, entries);
    years := DedupAdjacent(Sort(NatLe, years));
  }

  /** Open a pair: the table must be a non-empty whole number of offsets. */
  method Open(index: Bytes, dat: Bytes) returns (r: Option<HciFile>)
    ensures r.Some? <==> index != [] && |index| % 4 == 0
    ensures r.Some? ==> r.value.index == index && r.value.dat == dat && Built(r.value)
  {
    if |index| % 4 != 0 || index == [] {
      return None;
    }
    var keyIndex, years := BuildKeyIndex(index, dat);
    return Some(HciFile(index, dat, keyIndex, years));
  }

  // ---- lookup by key ----------------------------------------------------------

  /** The postings of one candidate, once its header is checked against the key. */
  function RefPostings(h: HciFile, key: Bytes, ref: KeyRef): seq<Posting> {
    var raw := Raw(h.index, h.dat, ref.index);
    if raw.Some? && HeaderIs(raw.value, key) then Postings(raw.value.bytes[|key| + 1..]) else []
  }

  function AllPostings(h: HciFile, key: Bytes, refs: seq<KeyRef>): seq<Posting> {
    if refs == [] then [] else RefPostings(h, key, refs[0]) + AllPostings(h, key, refs[1..])
  }

  /** The postings of the record with ordinal `i`, if its decoded header is `key`. */
  function RecordPostings(h: HciFile, key: Bytes, i: nat): seq<Posting> {
    var raw := Raw(h.index, h.dat, i);
    if raw.Some? && Header(raw.value) == Some(key) then Postings(raw.value.bytes[|key| + 1..]) else []
  }

  /** The full scan: the postings of the first `n` records keyed `key`, in ordinal order. */
  function ScanPostings(h: HciFile, key: Bytes, n: nat): seq<Posting> {
    if n == 0 then [] else ScanPostings(h, key, n - 1) + RecordPostings(h, key, n - 1)
  }

  /** The ordinals an index entry can hold. */
  function Reachable(h: HciFile): nat {
    if Count(h.index) < MAX_ORDINAL then Count(h.index) else MAX_ORDINAL
  }

  method VisitPostings(bytes: Bytes) returns (out: seq<Posting>)
    ensures out == Postings(bytes)
  {
    hide Be32;
    out := [];
    var usable := if |bytes| == 0 then 0 else |bytes| - 1;
    var at := 0;
    while at + 5 <= usable
      invariant 0 <= at <= usable
      invariant out + ChunkPostings(bytes[..usable][at..]) == ChunkPostings(bytes[..usable])
    {
      var chunk := bytes[at..at + 5];
      var rest := bytes[..usable][at..];
      assert rest[..4] == chunk[0..4] && rest[4] == chunk[4] && rest[5..] == bytes[..usable][at + 5..];
      out := out + [Posting(Be32(chunk[0..4]), chunk[4])];
      at := at + 5;
    }
  }

  /** Two binary searches bound the candidates; each one is checked against the key itself. */
  method VisitPostingsForKey(h: HciFile, key: Bytes) returns (out: seq<Posting>)
    requires Built(h)
    ensures out
            == AllPostings(h, key, Filter((e: KeyRef) => e.hash == HashKey(key), Refs(h.index, h.dat, Count(h.index))))
    ensures key != [] && AllPrintable(key) ==> out == ScanPostings(h, key, Reachable(h))
    ensures key == [] ==> out == []
  {
    hide HashKey, AllPrintable, Sort, PartitionPoint, Refs, AllPostings, ScanPostings, Filter;
    var hash := HashOf(key);
    IndexPartitions(h, hash);
    var start := HalvingSearch((e: KeyRef) => e.hash < hash, h.keyIndex);
    var end := HalvingSearch((e: KeyRef) => e.hash <= hash, h.keyIndex);
    ghost var refs := Refs(h.index, h.dat, Count(h.index));
    CandidateRun(h, hash);
    out := VisitCandidates(h, key, h.keyIndex[start..end]);
    if key != [] && AllPrintable(key) {
      FilteredScan(h, key, Count(h.index));
      UnreachableScan(h, key, Count(h.index));
    }
    if key == [] {
      EmptyKeyScan(h, Count(h.index));
    }
  }

  method VisitCandidates(h: HciFile, key: Bytes, candidates: seq<KeyRef>) returns (out: seq<Posting>)
    ensures out == AllPostings(h, key, candidates)
  {
    hide RefPostings;
    out := [];
    for i := 0 to |candidates|
      invariant out + AllPostings(h, key, candidates[i..]) == AllPostings(h, key, candidates)
    {
      assert candidates[i..][1..] == candidates[i + 1..];
      var found := CandidatePostings(h, key, candidates[i]);
      out := out + found;
    }
  }

  method CandidatePostings(h: HciFile, key: Bytes, ref: KeyRef) returns (out: seq<Posting>)
    ensures out == RefPostings(h, key, ref)
  {
    out := [];
    var raw := Raw(h.index, h.dat, ref.index);
    if raw.Some? {
      var headerLen := DecodedHeaderMatches(raw.value, key);
      if headerLen.Some? {
        out := VisitPostings(raw.value.bytes[headerLen.value..]);
      }
    }
  }

  // ---- properties -------------------------------------------------------------

  lemma RefOrder()
    ensures TotalPreorder(RefLe)
  {
  }

  lemma {:induction false} RefsAscend(index: Bytes, dat: Bytes, n: nat)
    ensures forall i | 0 <= i < |Refs(index, dat, n)| :: Refs(index, dat, n)[i].index < n
    ensures forall i, j | 0 <= i < j < |Refs(index, dat, n)| ::
              Refs(index, dat, n)[i].index < Refs(index, dat, n)[j].index
  {
    hide Header, HashKey, Raw;
    if n > 0 {
      RefsAscend(index, dat, n - 1);
    }
  }

  lemma DistinctSortAscends(refs: seq<KeyRef>)
    requires forall i, j | 0 <= i < j < |refs| :: refs[i].index < refs[j].index
    ensures AscendingBy(RefLe, Sort(RefLe, refs))
  {
    hide Sort;
    RefOrder();
    SortSorts(RefLe, refs);
    var s := Sort(RefLe, refs);
    forall i, j | 0 <= i < j < |refs| ensures refs[i] != refs[j] {
    }
    SameMultisetDistinct(refs, s);
  }

  /** The sorted references are partitioned by every hash. */
  lemma IndexPartitions(h: HciFile, hash: nat)
    requires Built(h)
    ensures Partitioned((e: KeyRef) => e.hash < hash, h.keyIndex)
    ensures Partitioned((e: KeyRef) => e.hash <= hash, h.keyIndex)
  {
    hide Sort, Refs;
    RefOrder();
    SortSorts(RefLe, Refs(h.index, h.dat, Count(h.index)));
    forall i, j | 0 <= i < j < |h.keyIndex| ensures h.keyIndex[i].hash <= h.keyIndex[j].hash {
      assert RefLe(h.keyIndex[i], h.keyIndex[j]);
    }
  }

  /** Between the two partition points lie exactly the entries with the hash, in ordinal order. */
  lemma CandidateRun(h: HciFile, hash: nat)
    requires Built(h)
    ensures var start := PartitionPoint((e: KeyRef) => e.hash < hash, h.keyIndex);
            var end := PartitionPoint((e: KeyRef) => e.hash <= hash, h.keyIndex);
            && start <= end
            && h.keyIndex[start..end]
               == Filter((e: KeyRef) => e.hash == hash, Refs(h.index, h.dat, Count(h.index)))
  {
    hide Refs, Sort;
    var refs := Refs(h.index, h.dat, Count(h.index));
    RefsAscend(h.index, h.dat, Count(h.index));
    DistinctSortAscends(refs);
    SortMembers(RefLe, refs);
    SortedRun(refs, h.keyIndex, hash);
  }

  /** In a sorted index the entries with a given hash are one run. */
  lemma RunMembers(sorted: seq<KeyRef>, hash: nat, start: nat, end: nat, x: KeyRef)
    requires AscendingBy(RefLe, sorted)
    requires start == PartitionPoint((e: KeyRef) => e.hash < hash, sorted)
    requires end == PartitionPoint((e: KeyRef) => e.hash <= hash, sorted)
    ensures start <= end
    ensures x in sorted[start..end] <==> x in sorted && x.hash == hash
  {
    hide PartitionPoint;
    if x in sorted {
      var i :| 0 <= i < |sorted| && sorted[i] == x;
      if start <= i {
        assert i == start || RefLe(sorted[start], sorted[i]);
      }
      if end <= i {
        assert i == end || RefLe(sorted[end], sorted[i]);
      } else if start <= i {
        assert sorted[start..end][i - start] == x;
      }
    }
  }

  lemma SortedRun(refs: seq<KeyRef>, sorted: seq<KeyRef>, hash: nat)
    requires forall i, j | 0 <= i < j < |refs| :: refs[i].index < refs[j].index
    requires AscendingBy(RefLe, sorted)
    requires forall x :: x in sorted <==> x in refs
    ensures var start := PartitionPoint((e: KeyRef) => e.hash < hash, sorted);
            var end := PartitionPoint((e: KeyRef) => e.hash <= hash, sorted);
            && start <= end
            && sorted[start..end] == Filter((e: KeyRef) => e.hash == hash, refs)
  {
    hide Filter, PartitionPoint;
    var p := (e: KeyRef) => e.hash == hash;
    var start := PartitionPoint((e: KeyRef) => e.hash < hash, sorted);
    var end := PartitionPoint((e: KeyRef) => e.hash <= hash, sorted);
    forall x: KeyRef ensures start <= end && (x in sorted[start..end] <==> x in sorted && x.hash == hash) {
      RunMembers(sorted, hash, start, end, x);
    }
    RunMembers(sorted, hash, start, end, KeyRef(0, 0));
    var run, want := sorted[start..end], Filter(p, refs);
    FilterMembers(p, refs);
    FilterIndexAscends(p, refs);
    SameHashAscends(hash, want);
    AscendingUnique(RefLe, run, want);
  }

  lemma SameHashAscends(hash: nat, refs: seq<KeyRef>)
    requires forall i, j | 0 <= i < j < |refs| :: refs[i].index < refs[j].index
    requires forall i | 0 <= i < |refs| :: refs[i].hash == hash
    ensures AscendingBy(RefLe, refs)
  {
  }

  lemma {:induction false} FilterIndexAscends(p: KeyRef -> bool, refs: seq<KeyRef>)
    requires forall i, j | 0 <= i < j < |refs| :: refs[i].index < refs[j].index
    ensures forall i, j | 0 <= i < j < |Filter(p, refs)| :: Filter(p, refs)[i].index < Filter(p, refs)[j].index
  {
    var le := (a: KeyRef, b: KeyRef) => a.index <= b.index;
    FilterAscends(le, p, refs);
  }

  lemma {:induction false} AllPostingsAppend(h: HciFile, key: Bytes, a: seq<KeyRef>, b: seq<KeyRef>)
    ensures AllPostings(h, key, a + b) == AllPostings(h, key, a) + AllPostings(h, key, b)
  {
    hide RefPostings;
    if a == [] {
      assert a + b == b;
    } else {
      assert (a + b)[1..] == a[1..] + b;
      AllPostingsAppend(h, key, a[1..], b);
    }
  }

  /** The postings behind one ordinal's index entry, whatever else shares its hash. */
  lemma FilteredRef(h: HciFile, key: Bytes, i: nat)
    ensures key != [] && AllPrintable(key) ==>
              AllPostings(h, key, Filter((e: KeyRef) => e.hash == HashKey(key), RefOf(h.index, h.dat, i)))
              == if i < MAX_ORDINAL then RecordPostings(h, key, i) else []
    ensures key == [] ==>
              AllPostings(h, key, Filter((e: KeyRef) => e.hash == HashKey(key), RefOf(h.index, h.dat, i))) == []
  {
    hide HashKey, Header, HeaderIs, Postings, Raw;
    var raw := Raw(h.index, h.dat, i);
    if raw.Some? {
      if key != [] && AllPrintable(key) {
        HeaderIffMatch(raw.value, key);
      }
      if key == [] && Header(raw.value).Some? {
        NoEmptyHeader(raw.value);
      }
    }
  }

  lemma NoEmptyHeader(raw: RawRecord)
    requires Header(raw).Some?
    ensures !HeaderIs(raw, [])
  {
    assert Decoded(raw, 0) == Header(raw).value[0];
    assert IsPrintable(Header(raw).value[0]);
  }

  lemma NoRefs(h: HciFile, key: Bytes, p: KeyRef -> bool)
    ensures AllPostings(h, key, Filter(p, [])) == []
  {
  }

  /** The hashed visit is the full scan. */
  lemma {:induction false} FilteredScan(h: HciFile, key: Bytes, n: nat)
    requires key != [] && AllPrintable(key)
    ensures AllPostings(h, key, Filter((e: KeyRef) => e.hash == HashKey(key), Refs(h.index, h.dat, n)))
            == ScanPostings(h, key, if n < MAX_ORDINAL then n else MAX_ORDINAL)
  {
    hide HashKey, RecordPostings, RefOf, AllPostings, Filter;
    var p := (e: KeyRef) => e.hash == HashKey(key);
    if n == 0 {
      NoRefs(h, key, p);
    } else {
      var before, last := Refs(h.index, h.dat, n - 1), RefOf(h.index, h.dat, n - 1);
      FilteredScan(h, key, n - 1);
      FilterAppend(p, before, last);
      AllPostingsAppend(h, key, Filter(p, before), Filter(p, last));
      FilteredRef(h, key, n - 1);
    }
  }

  lemma {:induction false} EmptyKeyScan(h: HciFile, n: nat)
    ensures AllPostings(h, [], Filter((e: KeyRef) => e.hash == HashKey([]), Refs(h.index, h.dat, n))) == []
  {
    hide HashKey, RefOf, AllPostings, Filter;
    var p := (e: KeyRef) => e.hash == HashKey([]);
    if n == 0 {
      NoRefs(h, [], p);
    } else {
      var before, last := Refs(h.index, h.dat, n - 1), RefOf(h.index, h.dat, n - 1);
      EmptyKeyScan(h, n - 1);
      FilterAppend(p, before, last);
      AllPostingsAppend(h, [], Filter(p, before), Filter(p, last));
      FilteredRef(h, [], n - 1);
    }
  }

  lemma UnreachableScan(h: HciFile, key: Bytes, n: nat)
    requires n == Count(h.index)
    ensures ScanPostings(h, key, if n < MAX_ORDINAL then n else MAX_ORDINAL) == ScanPostings(h, key, Reachable(h))
  {
  }

  lemma {:induction false} ScanMembers(h: HciFile, key: Bytes, n: nat, p: Posting)
    ensures p in ScanPostings(h, key, n) <==> exists i :: 0 <= i < n && p in RecordPostings(h, key, i)
  {
    hide RecordPostings;
    if n > 0 {
      ScanMembers(h, key, n - 1, p);
    }
  }

  lemma {:induction false} YearsMembers(index: Bytes, dat: Bytes, n: nat, y: nat)
    ensures y in Years(index, dat, n) <==> exists i :: 0 <= i < n && y in YearsAt(index, dat, i)
  {
    hide YearsAt;
    if n > 0 {
      YearsMembers(index, dat, n - 1, y);
    }
  }

  /** The published years are strictly ascending, and exactly the years of the indexed headers. */
  lemma PublicationYears(h: HciFile, y: nat)
    requires Built(h)
    ensures AscendingBy(NatLe, h.years)
    ensures y in h.years <==>
              exists i :: 0 <= i < Reachable(h) && y in YearsAt(h.index, h.dat, i)
  {
    hide YearsAt, Sort, DedupAdjacent;
    var years := Years(h.index, h.dat, Count(h.index));
    SortSorts(NatLe, years);
    SortMembers(NatLe, years);
    DedupAscends(NatLe, Sort(NatLe, years));
    YearsMembers(h.index, h.dat, Count(h.index), y);
    forall i | MAX_ORDINAL <= i ensures YearsAt(h.index, h.dat, i) == [] {
      NoYearBeyond(h, i);
    }
  }

  lemma NoYearBeyond(h: HciFile, i: nat)
    requires MAX_ORDINAL <= i
    ensures YearsAt(h.index, h.dat, i) == []
  {
  }

  // ---- printing postings --------------------------------------------------------

  /** Most significant byte first. */
  function Word(b: Bytes, i: nat): int
    requires i + 4 <= |b|
  {
    var (x: int, y: int, z: int) := (b[i], b[i + 1], b[i + 2]);
    16777216 * x + 65536 * y + 256 * z + b[i + 3]
  }

  lemma BigEndian(b: Bytes)
    requires |b| == 4
    ensures Be32(b) == Word(b, 0)
  {
  }

  /** Posting `i` is the five bytes from `5 * i` on: four of offset and one of position. What is left of the record,
      at least its last byte, belongs to none. */
  lemma {:induction false} PostingAt(b: Bytes, i: nat)
    requires b != []
    ensures |Postings(b)| == (|b| - 1) / 5
    ensures i < |Postings(b)| ==>
              Postings(b)[i].datOffset == Word(b, 5 * i) && Postings(b)[i].position == b[5 * i + 4]
  {
    ChunkAt(b[..|b| - 1], i);
  }

  lemma {:induction false} ChunkAt(b: Bytes, i: nat)
    ensures |ChunkPostings(b)| == |b| / 5
    ensures i < |b| / 5 ==>
              ChunkPostings(b)[i].datOffset == Word(b, 5 * i) && ChunkPostings(b)[i].position == b[5 * i + 4]
  {
    hide Be32;
    if |b| >= 5 {
      BigEndian(b[..4]);
      ChunkAt(b[5..], if i > 0 then i - 1 else 0);
    }
  }

  function Be32Bytes(n: nat): (b: Bytes)
    requires n < MAX_ORDINAL
    ensures |b| == 4
  {
    var hi, lo := n / 0x1_0000, n % 0x1_0000;
    [hi / 256, hi % 256, lo / 256, lo % 256]
  }

  lemma Be32RoundTrip(n: nat)
    requires n < MAX_ORDINAL
    ensures Be32(Be32Bytes(n)) == n
  {
    var b := Be32Bytes(n);
    var hi, lo := n / 0x1_0000, n % 0x1_0000;
    assert (b[0] as int) * 256 + b[1] == hi && (b[2] as int) * 256 + b[3] == lo;
  }

  function PostingBytes(ps: seq<Posting>): Bytes
    requires forall i | 0 <= i < |ps| :: ps[i].datOffset < MAX_ORDINAL
  {
    if ps == [] then [] else Be32Bytes(ps[0].datOffset) + [ps[0].position] + PostingBytes(ps[1..])
  }

  /** A printed posting list is read back, whatever its closing byte. */
  lemma {:induction false} PostingsRoundTrip(ps: seq<Posting>, last: Byte)
    requires forall i | 0 <= i < |ps| :: ps[i].datOffset < MAX_ORDINAL
    ensures Postings(PostingBytes(ps) + [last]) == ps
  {
    hide Be32Bytes, Be32;
    assert ps != [] ==> Be32(Be32Bytes(ps[0].datOffset)) == ps[0].datOffset by {
      if ps != [] { Be32RoundTrip(ps[0].datOffset); }
    }
    var b := PostingBytes(ps) + [last];
    assert b[..|b| - 1] == PostingBytes(ps);
    if ps != [] {
      var rest := PostingBytes(ps[1..]);
      PostingsRoundTrip(ps[1..], last);
      assert (rest + [last])[..|rest|] == rest;
      assert PostingBytes(ps)[..4] == Be32Bytes(ps[0].datOffset);
      assert PostingBytes(ps)[5..] == rest;
    }
  }
}
