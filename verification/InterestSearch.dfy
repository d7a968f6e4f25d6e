/** The streaming search of the whole DAT for one interest code. */
module InterestSearch {
  import opened Ascii
  import opened Sorting
  import opened Cipher
  import opened Framing
  import opened Utf8
  import Callsigns
  import Interests
  import opened Records

  const INTEREST_TAG: Byte := 0xd5

  datatype Match = Match(callsign: Bytes, vintage: Option<nat>)

  predicate MatchLe(a: Match, b: Match) {
    Lt(a.callsign, b.callsign) || (a.callsign == b.callsign && OptionLe(a.vintage, b.vintage))
  }

  /** The call and vintage that a key text names; the call is kept as written. */
  function KeyNames(key: Bytes): Option<Match> {
    if COLON in key then
      var year := ParseUnsigned(key[IndexOf(key, COLON) + 1..], 65535);
      if year.None? || Callsigns.Normalize(Before(key, COLON)).None? then None
      else Some(Match(Before(key, COLON), year))
    else if Callsigns.Normalize(key).None? then None
    else Some(Match(key, None))
  }

  /** What is kept of a raw value: trimmed, and made text. */
  function TrimmedText(bytes: Bytes): Bytes { Lossy(Trim(bytes, BLANK)) }

  function RecordKey(bytes: Bytes): Option<Match> { KeyNames(TrimmedText(bytes)) }

  /** The codes in a raw interest value. */
  function CodesRead(value: Bytes): seq<Bytes> { Interests.Codes(TrimmedText(value)) }

  lemma NormalIsAscii(s: Bytes)
    requires Callsigns.Normalize(s).Some?
    ensures IsAscii(s)
  {
    hide LeadCount, KeepCount;
    var a := LeadCount(s, WHITESPACE);
    var t := s[a..];
    var k := KeepCount(t, WHITESPACE);
    forall i | 0 <= i < |s| ensures s[i] < 0x80 {
      if a <= i < a + k {
        assert t[..k][i - a] == s[i];
        assert IsCallByte(Upper(t[..k])[i - a]);
      } else if a + k <= i {
        assert t[i - a] == s[i];
      }
    }
  }

  lemma NumberIsAscii(s: Bytes, limit: nat)
    requires ParseUnsigned(s, limit).Some?
    ensures IsAscii(s)
  {
    hide DecimalValue;
    var digits := if |s| > 1 && s[0] == PLUS then s[1..] else s;
    forall i | 0 <= i < |s| ensures s[i] < 0x80 {
      if |digits| == |s| {
        assert IsDigit(digits[i]);
      } else if i > 0 {
        assert digits[i - 1] == s[i] && IsDigit(digits[i - 1]);
      }
    }
  }

  lemma NamingKeyIsAscii(key: Bytes)
    requires KeyNames(key).Some?
    ensures IsAscii(key)
  {
    hide ParseUnsigned, Callsigns.Normalize, IndexOf;
    if COLON in key {
      var n := IndexOf(key, COLON);
      NormalIsAscii(key[..n]);
      NumberIsAscii(key[n + 1..], 65535);
      forall i | 0 <= i < |key| ensures key[i] < 0x80 {
        if i < n {
          assert key[..n][i] == key[i];
        } else if i > n {
          assert key[n + 1..][i - n - 1] == key[i];
        }
      }
    } else {
      NormalIsAscii(key);
    }
  }

  /** For keys the conversion makes no difference: what is not ASCII names nothing before and after it. */
  lemma RecordKeyIsRaw(bytes: Bytes)
    ensures RecordKey(bytes) == KeyNames(Trim(bytes, BLANK))
  {
    hide KeyNames, Trim, Lossy;
    var key := Trim(bytes, BLANK);
    LossyAscii(key);
    if IsAscii(key) {
      AsciiStays(key);
    } else {
      NamesNothing(key);
      NamesNothing(Lossy(key));
    }
  }

  lemma NamesNothing(key: Bytes)
    requires !IsAscii(key)
    ensures KeyNames(key) == None
  {
    hide KeyNames;
    if KeyNames(key).Some? {
      NamingKeyIsAscii(key);
    }
  }

  // ---- one record, as a whole --------------------------------------------------------

  /** The last tag of the record behind its sentinel, or zero. */
  function LastTag(r: Bytes): (n: nat)
    ensures 0 < n ==> n < |r| && IsTag(r[n])
    ensures forall k | n < k < |r| :: !IsTag(r[k])
    decreases |r|
  {
    if |r| <= 1 then 0 else if IsTag(r[|r| - 1]) then |r| - 1 else LastTag(r[..|r| - 1])
  }

  /** The last interest tag of the record, or zero. */
  function LastInterest(r: Bytes): (n: nat)
    ensures 0 < n ==> n < |r| && r[n] == INTEREST_TAG
    ensures forall k | n < k < |r| :: r[k] != INTEREST_TAG
    decreases |r|
  {
    if |r| <= 1 then 0 else if r[|r| - 1] == INTEREST_TAG then |r| - 1 else LastInterest(r[..|r| - 1])
  }

  function KeyPart(r: Bytes): Bytes
    requires r != []
  {
    r[1..FirstTag(r, 1)]
  }

  /** The value of the last interest field. */
  function InterestPart(r: Bytes): Bytes {
    var n := LastInterest(r);
    if n == 0 then [] else r[n + 1..FirstTag(r, n + 1)]
  }

  /** The match a whole record contributes. */
  function Hit(r: Bytes, target: Bytes): Option<Match>
    requires r != []
  {
    if target in CodesRead(InterestPart(r)) then RecordKey(KeyPart(r)) else None
  }

  function RecordHit(dat: Bytes, start: nat, end: nat, target: Bytes): Option<Match>
    requires start < end <= |dat|
  {
    Hit(DecodeAt(start, dat[start..end]), target)
  }

  /** The matches of the records from the sentinel at `from` on. */
  function HitsFrom(dat: Bytes, from: nat, target: Bytes): seq<Match>
    requires from <= |dat| && (from < |dat| ==> IsSentinel(dat, from))
    decreases |dat| - from
  {
    if from == |dat| then []
    else
      var end := SentinelFrom(dat, from + 1);
      Listed(RecordHit(dat, from, end, target)) + HitsFrom(dat, end, target)
  }

  lemma NothingRead()
    ensures CodesRead([]) == []
  {
    assert Trim([], BLANK) == [];
    LossyNothing();
  }

  // ---- the scanner ---------------------------------------------------------------------

  class InterestSearchScan {
    const target: Bytes
    var key: Bytes
    var interestRaw: Bytes
    var currentTag: Option<Byte>
    var inRecord: bool
    var keyComplete: bool
    var matches: seq<Match>

    constructor (target: Bytes)
      ensures this.target == target && !inRecord && matches == [] && key == [] && interestRaw == []
    {
      this.target := target;
      key, interestRaw, currentTag := [], [], None;
      inRecord, keyComplete, matches := false, false, [];
    }

    /** The fields hold what the record read so far, sentinel included, says. */
    ghost predicate Holds(r: Bytes)
      reads this
    {
      && inRecord && r != []
      && key == KeyPart(r)
      && keyComplete == (FirstTag(r, 1) < |r|)
      && currentTag == (if LastTag(r) == 0 then None else Some(r[LastTag(r)]))
      && interestRaw == InterestPart(r)
    }

    method StartRecord()
      modifies this`inRecord, this`keyComplete, this`currentTag, this`key, this`interestRaw
      ensures inRecord && forall r: Bytes | |r| == 1 :: Holds(r)
    {
      inRecord, keyComplete, currentTag := true, false, None;
      key, interestRaw := [], [];
    }

    method FinishRecord(ghost r: Bytes)
      requires inRecord ==> Holds(r)
      modifies this`matches
      ensures matches == old(matches) + (if inRecord then Listed(Hit(r, target)) else [])
    {
      hide RecordKey, KeyPart, InterestPart, CodesRead;
      if !inRecord || interestRaw == [] {
        NothingRead();
        return;
      }
      var found := RecordKey(key);
      if found.None? {
        return;
      }
      if target in CodesRead(interestRaw) {
        matches := matches + [found.value];
      }
    }

    /** One decoded byte inside a record. */
    method Feed(decoded: Byte, ghost r: Bytes)
      requires decoded != SENTINEL && Holds(r)
      modifies this`keyComplete, this`currentTag, this`key, this`interestRaw
      ensures Holds(r + [decoded])
    {
      hide KeyPart, InterestPart, FirstTag, LastTag;
      NextByte(r, decoded);
      if 0xb6 <= decoded <= 0xdf {
        keyComplete := true;
        currentTag := Some(decoded);
        if decoded == 0xd5 {
          interestRaw := [];
        }
      } else if !keyComplete {
        key := key + [decoded];
      } else if currentTag == Some(0xd5) {
        interestRaw := interestRaw + [decoded];
      }
    }

    /** How far the scan is: the matches of the closed records, and the open one. */
    ghost predicate Scanned(encoded: Bytes, start: nat, offset: nat)
      requires offset <= |encoded|
      reads this
    {
      && (!inRecord ==> matches == [] && forall k | 0 <= k < offset :: !IsSentinel(encoded, k))
      && (inRecord ==>
            && start < offset && IsSentinel(encoded, start)
            && (forall k | start < k < offset :: !IsSentinel(encoded, k))
            && Holds(DecodeAt(start, encoded[start..offset]))
            && matches + HitsFrom(encoded, start, target) == HitsFrom(encoded, SentinelFrom(encoded, 0), target))
    }

    /** A sentinel closes the open record, if any, and opens the next. */
    method Sentinel(encoded: Bytes, offset: nat, ghost start: nat)
      requires offset < |encoded| && IsSentinel(encoded, offset) && Scanned(encoded, start, offset)
      modifies this
      ensures Scanned(encoded, offset, offset + 1)
    {
      hide DecodeByte, Holds, HitsFrom, Hit, KeyPart, InterestPart, FirstTag, LastTag, SentinelFrom;
      ghost var r := if inRecord then DecodeAt(start, encoded[start..offset]) else [];
      RecordCloses(encoded, start, offset, target, inRecord);
      FinishRecord(r);
      StartRecord();
      assert |DecodeAt(offset, encoded[offset..offset + 1])| == 1;
    }

    /** Any other byte goes to the open record; outside of records it is skipped. */
    method OtherByte(encoded: Bytes, offset: nat, ghost start: nat)
      requires offset < |encoded| && !IsSentinel(encoded, offset) && Scanned(encoded, start, offset)
      modifies this
      ensures Scanned(encoded, start, offset + 1)
    {
      hide DecodeByte, Holds, HitsFrom, Hit, KeyPart, InterestPart, FirstTag, LastTag, SentinelFrom;
      if inRecord {
        DecodedGrows(encoded, start, offset);
        Feed(DecodeByte(offset, encoded[offset]), DecodeAt(start, encoded[start..offset]));
      }
    }

    /** The whole file, byte by byte. */
    method ScanDat(encoded: Bytes)
      requires !inRecord && matches == []
      modifies this
      ensures matches == HitsFrom(encoded, SentinelFrom(encoded, 0), target)
    {
      hide DecodeByte, Holds, HitsFrom, Hit, SentinelFrom;
      ghost var start := 0;
      for offset := 0 to |encoded|
        invariant Scanned(encoded, start, offset)
      {
        hide Scanned;
        if DecodeByte(offset, encoded[offset]) == 0xb5 {
          Sentinel(encoded, offset, start);
          start := offset;
        } else {
          OtherByte(encoded, offset, start);
        }
      }
      RecordCloses(encoded, start, |encoded|, target, inRecord);
      FinishRecord(if inRecord then DecodeAt(start, encoded[start..|encoded|]) else []);
    }

    method Finish() returns (out: seq<Match>)
      ensures AscendingBy(MatchLe, out) && InOrder(out)
      ensures forall m :: m in out <==> m in matches
    {
      hide MatchLe, Sort, DedupAdjacent;
      SortedSet(matches);
      out := DedupAdjacent(Sort(MatchLe, matches));
      OrderOfMatches(out);
    }
  }

  lemma DecodedGrows(dat: Bytes, start: nat, offset: nat)
    requires start < offset < |dat|
    ensures DecodeAt(start, dat[start..offset + 1])
            == DecodeAt(start, dat[start..offset]) + [DecodeByte(offset, dat[offset])]
  {
    hide DecodeByte;
  }

  /** A sentinel at `offset`, or the end of the file, closes the open record. */
  lemma RecordCloses(dat: Bytes, start: nat, offset: nat, target: Bytes, open: bool)
    requires offset <= |dat| && (offset < |dat| ==> IsSentinel(dat, offset))
    requires open ==> start < offset && IsSentinel(dat, start)
    requires forall k | (if open then start + 1 else 0) <= k < offset :: !IsSentinel(dat, k)
    ensures !open ==> SentinelFrom(dat, 0) == offset
    ensures open ==> HitsFrom(dat, start, target)
                     == Listed(Hit(DecodeAt(start, dat[start..offset]), target)) + HitsFrom(dat, offset, target)
    ensures offset == |dat| ==> HitsFrom(dat, offset, target) == []
  {
    hide Hit, IsSentinel;
    if open {
      assert SentinelFrom(dat, start + 1) == offset;
    }
  }

  /** Reading one more byte moves the first tag only when there was none. */
  lemma FirstTagGrows(r: Bytes, b: Byte, from: nat)
    requires from <= |r|
    ensures FirstTag(r + [b], from)
            == if FirstTag(r, from) < |r| then FirstTag(r, from) else if IsTag(b) then |r| else |r| + 1
  {
    hide FirstTag;
    var n, s := FirstTag(r, from), r + [b];
    assert forall k | 0 <= k < |r| :: s[k] == r[k];
    if n < |r| {
      FirstTagUnique(s, from, n);
    } else {
      FirstTagUnique(s, from, if IsTag(b) then |r| else |r| + 1);
    }
  }

  lemma LastGrows(r: Bytes, b: Byte)
    requires r != []
    ensures LastTag(r + [b]) == if IsTag(b) then |r| else LastTag(r)
    ensures LastInterest(r + [b]) == if b == INTEREST_TAG then |r| else LastInterest(r)
  {
    assert (r + [b])[..|r|] == r;
  }

  /** After the last interest tag, the value runs to the end exactly while that tag is the last one. */
  lemma ValueOpen(r: Bytes)
    requires LastInterest(r) > 0
    ensures FirstTag(r, LastInterest(r) + 1) == |r| <==> LastTag(r) == LastInterest(r)
  {
    hide FirstTag, LastTag, LastInterest;
    var n, f := LastInterest(r), FirstTag(r, LastInterest(r) + 1);
    assert IsTag(r[n]);
    assert LastTag(r) >= n;
  }

  lemma NextKey(r: Bytes, b: Byte)
    requires r != []
    ensures var s, done := r + [b], FirstTag(r, 1) < |r|;
            && (FirstTag(s, 1) < |s| <==> done || IsTag(b))
            && KeyPart(s) == (if done || IsTag(b) then KeyPart(r) else KeyPart(r) + [b])
  {
    hide FirstTag;
    FirstTagGrows(r, b, 1);
  }

  /** The value behind position `i` grows with a byte that is no tag, while it is open. */
  lemma ValueGrows(r: Bytes, b: Byte, i: nat)
    requires i <= |r|
    ensures (r + [b])[i..FirstTag(r + [b], i)]
            == if FirstTag(r, i) == |r| && !IsTag(b) then r[i..FirstTag(r, i)] + [b] else r[i..FirstTag(r, i)]
  {
    hide FirstTag, IsTag;
    FirstTagGrows(r, b, i);
    SliceGrows(r, b, i, FirstTag(r, i));
  }

  lemma NextInterest(r: Bytes, b: Byte)
    requires r != []
    ensures InterestPart(r + [b])
            == if b == INTEREST_TAG then []
               else if !IsTag(b) && LastInterest(r) > 0 && LastTag(r) == LastInterest(r) then InterestPart(r) + [b]
               else InterestPart(r)
  {
    hide FirstTag, LastTag, LastInterest, IsTag;
    LastGrows(r, b);
    if b == INTEREST_TAG {
      FirstTagUnique(r + [b], |r| + 1, |r| + 1);
    } else if LastInterest(r) > 0 {
      ValueGrows(r, b, LastInterest(r) + 1);
      ValueOpen(r);
    }
  }

  lemma SliceGrows(r: Bytes, b: Byte, i: nat, e: nat)
    requires i <= e <= |r|
    ensures (r + [b])[i..e] == r[i..e]
    ensures (r + [b])[i..|r| + 1] == r[i..|r|] + [b]
  {
  }

  lemma InterestIsLast(r: Bytes)
    ensures LastTag(r) > 0 && r[LastTag(r)] == INTEREST_TAG <==> LastInterest(r) > 0 && LastTag(r) == LastInterest(r)
    ensures LastTag(r) > 0 && r != [] ==> FirstTag(r, 1) < |r|
  {
    hide FirstTag, LastTag, LastInterest;
    var n, t := LastInterest(r), LastTag(r);
    if n > 0 {
      assert IsTag(r[n]);
      assert t >= n;
    }
  }

  /** How key, tag and interest value of a record change with its next byte. */
  lemma NextByte(r: Bytes, b: Byte)
    requires r != [] && b != SENTINEL
    ensures var s, done := r + [b], FirstTag(r, 1) < |r|;
            && (FirstTag(s, 1) < |s| <==> done || IsTag(b))
            && KeyPart(s) == (if done || IsTag(b) then KeyPart(r) else KeyPart(r) + [b])
            && LastTag(s) == (if IsTag(b) then |r| else LastTag(r))
            && InterestPart(s) == (if b == INTEREST_TAG then []
                                   else if !IsTag(b) && done && LastTag(r) > 0 && r[LastTag(r)] == INTEREST_TAG
                                   then InterestPart(r) + [b] else InterestPart(r))
  {
    hide FirstTag, LastTag, LastInterest, KeyPart, InterestPart;
    NextKey(r, b);
    LastGrows(r, b);
    NextInterest(r, b);
    InterestIsLast(r);
  }

  // ---- the search ------------------------------------------------------------------------

  /** Scan the encoded DAT for one code. */
  method ScanInterestCode(encoded: Bytes, target: Bytes) returns (out: seq<Match>)
    ensures AscendingBy(MatchLe, out) && InOrder(out)
    ensures forall m :: m in out <==>
              exists start, end :: IsRecord(encoded, start, end) && RecordHit(encoded, start, end, target) == Some(m)
  {
    hide RecordHit, IsSentinel, HitsFrom, Sort, DedupAdjacent, SentinelFrom;
    var scan := new InterestSearchScan(target);
    scan.ScanDat(encoded);
    out := scan.Finish();
    forall m ensures m in out <==>
              exists start, end :: IsRecord(encoded, start, end) && RecordHit(encoded, start, end, target) == Some(m) {
      HitsAreRecordHits(encoded, target, m);
    }
  }

  /** By call, and for one call the undated match first, then the years upwards; no match twice. */
  ghost predicate InOrder(ms: seq<Match>) {
    forall i, j | 0 <= i < j < |ms| ::
      var (a, b) := (ms[i], ms[j]);
      || Lt(a.callsign, b.callsign)
      || (a.callsign == b.callsign && b.vintage.Some? && (a.vintage.None? || a.vintage.value < b.vintage.value))
  }

  lemma OrderOfMatches(ms: seq<Match>)
    requires AscendingBy(MatchLe, ms)
    ensures InOrder(ms)
  {
    hide Le;
    forall i, j | 0 <= i < j < |ms|
      ensures Lt(ms[i].callsign, ms[j].callsign)
              || (&& ms[i].callsign == ms[j].callsign && ms[j].vintage.Some?
                  && (ms[i].vintage.None? || ms[i].vintage.value < ms[j].vintage.value))
    {
      assert !MatchLe(ms[j], ms[i]);
      LeTotal(ms[i].callsign, ms[j].callsign);
    }
  }

  lemma MatchOrder()
    ensures TotalPreorder(MatchLe)
    ensures forall x, y :: MatchLe(x, y) && MatchLe(y, x) ==> x == y
  {
    hide Le;
    forall x, y ensures MatchLe(x, y) || MatchLe(y, x) {
      LeTotal(x.callsign, y.callsign);
    }
    forall x, y, z | MatchLe(x, y) && MatchLe(y, z) ensures MatchLe(x, z) {
      if Lt(x.callsign, y.callsign) && Lt(y.callsign, z.callsign) {
        LtTransitive(x.callsign, y.callsign, z.callsign);
      }
    }
    forall x, y | MatchLe(x, y) && MatchLe(y, x) ensures x == y {
      if Lt(x.callsign, y.callsign) && Lt(y.callsign, x.callsign) {
        LeAntisymmetric(x.callsign, y.callsign);
      }
    }
  }

  lemma SortedSet(matches: seq<Match>)
    ensures AscendingBy(MatchLe, DedupAdjacent(Sort(MatchLe, matches)))
    ensures forall m :: m in DedupAdjacent(Sort(MatchLe, matches)) <==> m in matches
  {
    hide MatchLe, Sort, DedupAdjacent;
    MatchOrder();
    SortSorts(MatchLe, matches);
    SortMembers(MatchLe, matches);
    DedupAscends(MatchLe, Sort(MatchLe, matches));
    DedupMembers(Sort(MatchLe, matches));
  }

  lemma DedupMembers(s: seq<Match>)
    ensures forall m :: m in DedupAdjacent(s) <==> m in s
  {
  }

  lemma {:induction false} HitsFromMembers(dat: Bytes, from: nat, target: Bytes, m: Match)
    requires from <= |dat| && (from < |dat| ==> IsSentinel(dat, from))
    ensures m in HitsFrom(dat, from, target) <==>
              exists start, end ::
                from <= start && IsRecord(dat, start, end) && RecordHit(dat, start, end, target) == Some(m)
    decreases |dat| - from
  {
    hide RecordHit, SentinelFrom, IsSentinel;
    if from < |dat| {
      var next := SentinelFrom(dat, from + 1);
      HitsFromMembers(dat, next, target, m);
      assert IsRecord(dat, from, next);
      if start, end :| from <= start && IsRecord(dat, start, end) && RecordHit(dat, start, end, target) == Some(m) {
        if start < next {
          RecordUnique(dat, start, start, end, from, next);
        }
      }
    }
  }

  lemma HitsAreRecordHits(dat: Bytes, target: Bytes, m: Match)
    ensures m in HitsFrom(dat, SentinelFrom(dat, 0), target) <==>
              exists start, end :: IsRecord(dat, start, end) && RecordHit(dat, start, end, target) == Some(m)
  {
    hide RecordHit, HitsFrom, DecodeByte;
    var first := SentinelFrom(dat, 0);
    HitsFromMembers(dat, first, target, m);
    if start, end :| IsRecord(dat, start, end) && RecordHit(dat, start, end, target) == Some(m) {
      assert first <= start;
    }
  }
}
