/** Which search keys an HCI lookup tries: the call, its suffix, and both in every archive year. */
module HciKeys {
  import opened Ascii
  import opened Sorting
  import opened Hci
  import Callsigns
  import Country

  const KEY_BUFFER: nat := 32

  function YearDigits(year: nat): (d: Bytes)
    ensures |d| == 4 && AllDigits(d)
  {
    [0x30 + year / 1000 % 10, 0x30 + year / 100 % 10, 0x30 + year / 10 % 10, 0x30 + year % 10]
  }

  /** `CALL:YYYY`. */
  function ArchiveText(call: Bytes, year: nat): Bytes { call + [COLON] + YearDigits(year) }

  /** The archive key, composed in the caller's 32-byte buffer. */
  method HciArchiveKey(call: Bytes, year: nat, buf: array<Byte>) returns (r: Option<Bytes>)
    requires buf.Length == KEY_BUFFER && year <= 65535
    modifies buf
    ensures r.Some? <==> |call| + 5 <= 32
    ensures r.Some? ==> r.value == ArchiveText(call, year)
    ensures r.Some? ==> buf[..|call| + 5] == r.value && buf[|call| + 5..] == old(buf[|call| + 5..])
  {
    hide YearDigits;
    var len := |call| + 5;
    if len > buf.Length {
      return None;
    }
    forall i | 0 <= i < |call| {
      buf[i] := call[i];
    }
    buf[|call|] := COLON;
    var digits := YearDigits(year);
    buf[|call| + 1] := digits[0];
    buf[|call| + 2] := digits[1];
    buf[|call| + 3] := digits[2];
    buf[|call| + 4] := digits[3];
    assert buf[..len] == ArchiveText(call, year);
    return Some(buf[..len]);
  }

  function SuffixOf(call: Bytes): Bytes { if |call| > 1 then call[1..] else call }

  function YearKeys(call: Bytes, year: nat): seq<Bytes> {
    if |call| + 5 > KEY_BUFFER then []
    else [ArchiveText(call, year)] + (if SuffixOf(call) != call then [ArchiveText(SuffixOf(call), year)] else [])
  }

  function AllYearKeys(call: Bytes, years: seq<nat>): seq<Bytes> {
    if years == [] then [] else YearKeys(call, years[0]) + AllYearKeys(call, years[1..])
  }

  /** The keys a lookup visits, in order. */
  function LookupKeys(callsign: Bytes, years: seq<nat>): seq<Bytes> {
    var call := Country.NormalCall(callsign);
    [call] + (if SuffixOf(call) != call then [SuffixOf(call)] else []) + AllYearKeys(call, years)
  }

  method VisitHciLookupKeys(callsign: Bytes, years: seq<nat>) returns (keys: seq<Bytes>)
    requires forall i | 0 <= i < |years| :: years[i] <= 65535
    ensures keys == LookupKeys(callsign, years)
  {
    hide YearKeys, AllYearKeys;
    var call := Country.NormalCall(callsign);
    var suffix := if |call| > 1 then call[1..] else call;
    keys := [call];
    if suffix != call {
      keys := keys + [suffix];
    }
    ghost var base := keys;
    assert base == [call] + (if suffix != call then [suffix] else []);
    assert years[0..] == years;
    for i := 0 to |years|
      invariant keys + AllYearKeys(call, years[i..]) == base + AllYearKeys(call, years)
    {
      var found := VisitYear(call, suffix, years[i]);
      NextYear(call, years, i);
      assert keys + (found + AllYearKeys(call, years[i + 1..])) == keys + found + AllYearKeys(call, years[i + 1..]);
      keys := keys + found;
    }
    NoYearsLeft(call);
    assert years[|years|..] == [] && keys + [] == keys;
    assert keys == base + AllYearKeys(call, years);
  }

  lemma NextYear(call: Bytes, years: seq<nat>, i: nat)
    requires i < |years|
    ensures AllYearKeys(call, years[i..]) == YearKeys(call, years[i]) + AllYearKeys(call, years[i + 1..])
  {
    hide YearKeys;
    assert years[i..][1..] == years[i + 1..];
  }

  lemma NoYearsLeft(call: Bytes)
    ensures AllYearKeys(call, []) == []
  {
  }

  method VisitYear(call: Bytes, suffix: Bytes, year: nat) returns (keys: seq<Bytes>)
    requires year <= 65535 && suffix == SuffixOf(call)
    ensures keys == YearKeys(call, year)
  {
    hide ArchiveText;
    keys := [];
    var buf := new Byte[KEY_BUFFER](_ => 0);
    var key := HciArchiveKey(call, year, buf);
    if key.Some? {
      keys := [key.value];
      if suffix != call {
        var other := new Byte[KEY_BUFFER](_ => 0);
        key := HciArchiveKey(suffix, year, other);
        if key.Some? {
          keys := keys + [key.value];
        }
      }
    }
  }

  // ---- properties --------------------------------------------------------------

  /** `stem` is `q`, or `q` without its first byte if that leaves something. */
  ghost predicate IsStem(q: Bytes, stem: Bytes) { stem == q || (stem != [] && |q| > 1 && q == [q[0]] + stem) }

  /** `key` is a stem of `q`, alone or with any four digits behind a colon. */
  ghost predicate InFamily(q: Bytes, key: Bytes) {
    exists stem :: IsStem(q, stem) && (key == stem || exists d: Bytes :: ArchiveForm(stem, d, key))
  }

  predicate ArchiveForm(stem: Bytes, d: Bytes, key: Bytes) {
    |d| == 4 && AllDigits(d) && key == stem + [COLON] + d
  }

  /** The suffix a lookup tries is the other stem. */
  lemma SuffixIsStem(q: Bytes, stem: Bytes)
    ensures IsStem(q, stem) <==> stem == q || stem == SuffixOf(q)
    ensures |q| <= 1 ==> SuffixOf(q) == q
  {
    if |q| > 1 {
      assert q == [q[0]] + q[1..];
      assert stem != q && IsStem(q, stem) ==> ([q[0]] + stem)[1..] == stem;
    }
  }

  lemma DigitsValue(d: Bytes)
    requires |d| == 4 && AllDigits(d)
    ensures DecimalValue(d) == 1000 * Digit(d[0]) + 100 * Digit(d[1]) + 10 * Digit(d[2]) + Digit(d[3])
  {
    hide DecimalValue;
    ValueStep(d, 3);
    ValueStep(d[..3], 2);
    ValueStep(d[..3][..2], 1);
    ValueStep(d[..3][..2][..1], 0);
    EmptyValueIsZero(d[..3][..2][..1][..0]);
  }

  function Digit(b: Byte): int { b - 0x30 }

  lemma ValueStep(d: Bytes, n: nat)
    requires |d| == n + 1 && AllDigits(d)
    ensures DecimalValue(d) == 10 * DecimalValue(d[..n]) + Digit(d[n])
  {
  }

  lemma EmptyValueIsZero(d: Bytes)
    requires d == []
    ensures DecimalValue(d) == 0
  {
  }

  lemma Mod10(x: nat, q: nat, r: nat)
    requires x == 10 * q + r && r < 10
    ensures x % 10 == r
  {
  }

  lemma DigitsOfDecimal(a: nat, b: nat, c: nat, e: nat)
    requires a < 10 && b < 10 && c < 10 && e < 10
    ensures YearDigits(1000 * a + 100 * b + 10 * c + e) == [0x30 + a, 0x30 + b, 0x30 + c, 0x30 + e]
  {
    var n := 1000 * a + 100 * b + 10 * c + e;
    assert n / 1000 == a && n / 100 == 10 * a + b && n / 10 == 100 * a + 10 * b + c;
    Mod10(a, 0, a);
    Mod10(10 * a + b, a, b);
    Mod10(100 * a + 10 * b + c, 10 * a + b, c);
    Mod10(n, 100 * a + 10 * b + c, e);
  }

  /** The four digits of a key and the year they spell determine each other. */
  lemma DigitsRoundTrip(d: Bytes)
    requires |d| == 4 && AllDigits(d)
    ensures DecimalValue(d) < 10000 && YearDigits(DecimalValue(d)) == d
  {
    hide YearDigits;
    DigitsValue(d);
    assert forall i | 0 <= i < 4 :: IsDigit(d[i]);
    DigitsOfDecimal(Digit(d[0]), Digit(d[1]), Digit(d[2]), Digit(d[3]));
    assert d == [d[0], d[1], d[2], d[3]];
  }

  /** Composing an archive key undoes the year parse of the index, for every four-digit key. */
  lemma ArchiveTextUndoesYear(call: Bytes, d: Bytes)
    requires |d| == 4 && AllDigits(d)
    ensures YearOf(call + [COLON] + d).Some? && YearOf(call + [COLON] + d).value < 10000
    ensures ArchiveText(call, YearOf(call + [COLON] + d).value) == call + [COLON] + d
  {
    hide DecimalValue, YearDigits, AllDigits;
    var key := call + [COLON] + d;
    assert key[|key| - 4..] == d;
    DigitsRoundTrip(d);
  }

  lemma {:induction false} AllYearKeysMembers(call: Bytes, years: seq<nat>, key: Bytes)
    requires |call| + 5 <= KEY_BUFFER
    ensures key in AllYearKeys(call, years) <==>
              exists y :: y in years && (key == ArchiveText(call, y) || key == ArchiveText(SuffixOf(call), y))
  {
    hide ArchiveText, SuffixOf;
    if years != [] {
      AllYearKeysMembers(call, years[1..], key);
      assert years == [years[0]] + years[1..];
    }
  }

  /** The postings an HCI lookup visits, key after key. */
  function FamilyPostings(h: HciFile, keys: seq<Bytes>): seq<Posting> {
    if keys == [] then [] else ScanPostings(h, keys[0], Reachable(h)) + FamilyPostings(h, keys[1..])
  }

  lemma {:induction false} FamilyMembers(h: HciFile, keys: seq<Bytes>, p: Posting)
    ensures p in FamilyPostings(h, keys) <==> exists key :: key in keys && p in ScanPostings(h, key, Reachable(h))
  {
    hide ScanPostings, Reachable;
    if keys != [] {
      FamilyMembers(h, keys[1..], p);
      if key :| key in keys && p in ScanPostings(h, key, Reachable(h)) {
        assert key == keys[0] || key in keys[1..];
      }
    }
  }

  /** The posting list of the record with ordinal `i`, when its key belongs to the family of `q`. */
  ghost predicate FamilyRecordHas(h: HciFile, q: Bytes, i: nat, p: Posting) {
    var raw := Raw(h.index, h.dat, i);
    && raw.Some? && Header(raw.value).Some?
    && InFamily(q, Header(raw.value).value)
    && p in RecordPostings(h, Header(raw.value).value, i)
  }

  lemma ArchivePrintable(call: Bytes, d: Bytes)
    requires AllCallBytes(call) && AllDigits(d)
    ensures AllPrintable(call + [COLON] + d)
  {
  }

  lemma KeyIsFamily(q: Bytes, years: seq<nat>, key: Bytes)
    requires 1 <= |q| <= Callsigns.KEY_LEN && AllCallBytes(q)
    requires key in LookupKeys(q, years)
    ensures InFamily(q, key) && key != [] && AllPrintable(key)
  {
    hide YearDigits, AllPrintable, SuffixOf, AllYearKeys, AllCallBytes, IsStem;
    Country.NormalizedCall(q);
    SuffixShape(q);
    SuffixIsStem(q, q);
    SuffixIsStem(q, SuffixOf(q));
    CallsPrint(q);
    CallsPrint(SuffixOf(q));
    if key != q && key != SuffixOf(q) {
      assert key in AllYearKeys(q, years);
      AllYearKeysMembers(q, years, key);
      var y :| y in years && (key == ArchiveText(q, y) || key == ArchiveText(SuffixOf(q), y));
      var stem := if key == ArchiveText(q, y) then q else SuffixOf(q);
      assert ArchiveForm(stem, YearDigits(y), key);
      ArchivePrintable(stem, YearDigits(y));
    }
  }

  lemma SuffixShape(q: Bytes)
    requires q != [] && AllCallBytes(q)
    ensures SuffixOf(q) != [] && AllCallBytes(SuffixOf(q))
  {
  }

  lemma CallsPrint(q: Bytes)
    requires AllCallBytes(q)
    ensures AllPrintable(q)
  {
  }

  lemma FamilyIsKey(h: HciFile, q: Bytes, i: nat)
    requires Built(h) && 1 <= |q| <= Callsigns.KEY_LEN && AllCallBytes(q)
    requires i < Reachable(h) && Raw(h.index, h.dat, i).Some? && Header(Raw(h.index, h.dat, i).value).Some?
    requires InFamily(q, Header(Raw(h.index, h.dat, i).value).value)
    ensures Header(Raw(h.index, h.dat, i).value).value in LookupKeys(q, h.years)
  {
    hide Raw, Header, Built, YearDigits, ArchiveText, SuffixOf, YearOf, IsStem;
    var key := Header(Raw(h.index, h.dat, i).value).value;
    Country.NormalizedCall(q);
    var stem :| IsStem(q, stem) && (key == stem || exists d: Bytes :: ArchiveForm(stem, d, key));
    SuffixIsStem(q, stem);
    if key != stem {
      var d: Bytes :| ArchiveForm(stem, d, key);
      ArchiveTextUndoesYear(stem, d);
      var y := YearOf(key).value;
      assert YearsAt(h.index, h.dat, i) == [y];
      PublicationYears(h, y);
      AllYearKeysMembers(q, h.years, key);
    }
  }

  /** The keys a lookup tries, one by one: the call and what is left without its first byte, then both in every
      published year, in ascending order of the years. */
  lemma KeysInOrder(q: Bytes, years: seq<nat>, suffix: Bytes)
    requires 1 < |q| && |q| + 5 <= 32 && AllCallBytes(q) && q == [q[0]] + suffix
    ensures |LookupKeys(q, years)| == 2 + 2 * |years|
    ensures LookupKeys(q, years)[0] == q && LookupKeys(q, years)[1] == suffix
    ensures forall i | 0 <= i < |years| ::
              && LookupKeys(q, years)[2 + 2 * i] == q + [COLON] + YearDigits(years[i])
              && LookupKeys(q, years)[3 + 2 * i] == suffix + [COLON] + YearDigits(years[i])
  {
    hide YearDigits, AllYearKeys, AllCallBytes, LookupKeys, SuffixOf;
    SuffixIs(q, suffix);
    YearKeysInOrder(q, years, suffix);
    KeysSplit(q, years, suffix);
    var keys, later := LookupKeys(q, years), AllYearKeys(q, years);
    forall i | 0 <= i < |years|
      ensures keys[2 + 2 * i] == later[2 * i] && keys[3 + 2 * i] == later[2 * i + 1]
    {
      assert 2 * i + 1 < |later|;
    }
  }

  lemma SuffixIs(q: Bytes, suffix: Bytes)
    requires 1 < |q| && q == [q[0]] + suffix
    ensures SuffixOf(q) == suffix != q
  {
    assert |suffix| < |q|;
    assert ([q[0]] + suffix)[1..] == suffix;
  }

  lemma KeysSplit(q: Bytes, years: seq<nat>, suffix: Bytes)
    requires AllCallBytes(q) && SuffixOf(q) == suffix != q
    ensures LookupKeys(q, years) == [q, suffix] + AllYearKeys(q, years)
  {
    hide AllYearKeys, SuffixOf;
    Country.NormalizedCall(q);
    assert [q] + [suffix] == [q, suffix];
  }

  lemma {:induction false} YearKeysInOrder(q: Bytes, years: seq<nat>, suffix: Bytes)
    requires |q| + 5 <= 32 && SuffixOf(q) == suffix != q
    ensures |AllYearKeys(q, years)| == 2 * |years|
    ensures forall i | 0 <= i < |years| ::
              && AllYearKeys(q, years)[2 * i] == q + [COLON] + YearDigits(years[i])
              && AllYearKeys(q, years)[2 * i + 1] == suffix + [COLON] + YearDigits(years[i])
  {
    hide YearDigits, SuffixOf;
    if years != [] {
      var rest := AllYearKeys(q, years[1..]);
      YearKeysInOrder(q, years[1..], suffix);
      assert AllYearKeys(q, years) == [ArchiveText(q, years[0]), ArchiveText(suffix, years[0])] + rest;
      forall i | 0 < i < |years|
        ensures AllYearKeys(q, years)[2 * i] == q + [COLON] + YearDigits(years[i])
        ensures AllYearKeys(q, years)[2 * i + 1] == suffix + [COLON] + YearDigits(years[i])
      {
        assert years[i] == years[1..][i - 1];
        assert AllYearKeys(q, years)[2 * i] == rest[2 * (i - 1)];
        assert AllYearKeys(q, years)[2 * i + 1] == rest[2 * (i - 1) + 1];
      }
    }
  }

  /** A call of one byte has no suffix to try. */
  lemma OneByteKeys(q: Bytes)
    requires |q| == 1 && AllCallBytes(q)
    ensures LookupKeys(q, []) == [q]
  {
    Country.NormalizedCall(q);
  }

  /** The digits of an archive key spell its year. */
  lemma YearDigitsValue(y: nat)
    requires y < 10000
    ensures DecimalValue(YearDigits(y)) == y
  {
    hide DecimalValue;
    var d := YearDigits(y);
    DigitsValue(d);
    FourDigits(y);
    assert Digit(d[0]) == y / 1000 % 10 && Digit(d[1]) == y / 100 % 10;
    assert Digit(d[2]) == y / 10 % 10 && Digit(d[3]) == y % 10;
  }

  lemma FourDigits(y: nat)
    requires y < 10000
    ensures 1000 * (y / 1000 % 10) + 100 * (y / 100 % 10) + 10 * (y / 10 % 10) + y % 10 == y
  {
    assert y / 1000 % 10 == y / 1000;
    assert y / 100 == 10 * (y / 1000) + y / 100 % 10;
    assert y / 10 == 10 * (y / 100) + y / 10 % 10;
  }

  /** HCI lookup is complete over archive years and finds nothing else: the postings visited for a
      normalised call are exactly those of the records keyed by the call, by its suffix, or by
      either with any four digits behind a colon. */
  lemma LookupVisitsFamily(h: HciFile, q: Bytes, p: Posting)
    requires Built(h) && 1 <= |q| <= Callsigns.KEY_LEN && AllCallBytes(q)
    ensures p in FamilyPostings(h, LookupKeys(q, h.years))
            <==> exists i :: 0 <= i < Reachable(h) && FamilyRecordHas(h, q, i, p)
  {
    hide Built, LookupKeys, InFamily, RecordPostings, ScanPostings, Reachable;
    var keys := LookupKeys(q, h.years);
    FamilyMembers(h, keys, p);
    if p in FamilyPostings(h, keys) {
      var key :| key in keys && p in ScanPostings(h, key, Reachable(h));
      ScanMembers(h, key, Reachable(h), p);
      var i :| 0 <= i < Reachable(h) && p in RecordPostings(h, key, i);
      KeyIsFamily(q, h.years, key);
      RecordKeyed(h, key, i, p);
      assert FamilyRecordHas(h, q, i, p);
    }
    if i :| 0 <= i < Reachable(h) && FamilyRecordHas(h, q, i, p) {
      var key := Header(Raw(h.index, h.dat, i).value).value;
      FamilyIsKey(h, q, i);
      ScanMembers(h, key, Reachable(h), p);
    }
  }

  lemma RecordKeyed(h: HciFile, key: Bytes, i: nat, p: Posting)
    requires p in RecordPostings(h, key, i)
    ensures Raw(h.index, h.dat, i).Some? && Header(Raw(h.index, h.dat, i).value) == Some(key)
  {
  }

  /** The published years fit the four digits of an archive key. */
  lemma YearsHaveFourDigits(h: HciFile, y: nat)
    requires Built(h) && y in h.years
    ensures y < 10000
  {
    hide Header, Built, DecimalValue, Raw, Reachable;
    PublicationYears(h, y);
    var i :| 0 <= i < Reachable(h) && y in YearsAt(h.index, h.dat, i);
    var key := Header(Raw(h.index, h.dat, i).value).value;
    DigitsRoundTrip(key[|key| - 4..]);
  }
}
