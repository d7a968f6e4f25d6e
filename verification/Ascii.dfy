/** Byte strings and the ASCII helpers shared by every reader of the `ham0` files. */
module Ascii {

  type Byte = b: int | 0 <= b < 256
  type Bytes = seq<Byte>

  datatype Option<+T> = None | Some(value: T)

  const COLON: Byte := 0x3a
  const SPACE: Byte := 0x20
  const PLUS: Byte := 0x2b
  const SLASH: Byte := 0x2f
  const CR: Byte := 0x0d
  const LF: Byte := 0x0a

  /** `u8::is_ascii_whitespace`: the vertical tab 0x0b is not in it. */
  const WHITESPACE: set<Byte> := {0x09, 0x0a, 0x0c, 0x0d, 0x20}
  /** What the record readers strip: ASCII whitespace and NUL. */
  const BLANK: set<Byte> := {0x00, 0x09, 0x0a, 0x0c, 0x0d, 0x20}
  /** What `str::trim` strips, restricted to ASCII. */
  const STR_SPACE: set<Byte> := {0x09, 0x0a, 0x0b, 0x0c, 0x0d, 0x20}

  function Text(s: string): (t: Bytes)
    requires forall i | 0 <= i < |s| :: s[i] as int < 128
    ensures |t| == |s| && forall i | 0 <= i < |t| :: t[i] == s[i] as int
  {
    seq(|s|, i requires 0 <= i < |s| => s[i] as int)
  }

  function Min(a: nat, b: nat): nat { if a < b then a else b }
  function Max(a: nat, b: nat): nat { if a < b then b else a }

  function Spaces(n: nat): Bytes { seq(n, _ => SPACE) }

  predicate IsDigit(b: Byte) { 0x30 <= b <= 0x39 }
  predicate IsUpper(b: Byte) { 0x41 <= b <= 0x5a }
  predicate IsLower(b: Byte) { 0x61 <= b <= 0x7a }
  /** `is_ascii_graphic` or a space. */
  predicate IsPrintable(b: Byte) { 0x20 <= b <= 0x7e }
  /** The normalised callsign alphabet `[A-Z0-9/]`. */
  predicate IsCallByte(b: Byte) { IsUpper(b) || IsDigit(b) || b == SLASH }

  predicate AllDigits(s: Bytes) { forall i | 0 <= i < |s| :: IsDigit(s[i]) }
  predicate AllPrintable(s: Bytes) { forall i | 0 <= i < |s| :: IsPrintable(s[i]) }
  predicate AllCallBytes(s: Bytes) { forall i | 0 <= i < |s| :: IsCallByte(s[i]) }

  function UpperByte(b: Byte): (u: Byte) { if IsLower(b) then b - 0x20 else b }

  function Upper(s: Bytes): (u: Bytes)
    ensures |u| == |s|
  {
    seq(|s|, i requires 0 <= i < |s| => UpperByte(s[i]))
  }

  predicate EqIgnoreCase(a: Bytes, b: Bytes) { Upper(a) == Upper(b) }

  lemma UpperIsIdentity(s: Bytes)
    requires AllCallBytes(s)
    ensures Upper(s) == s
  {
    assert forall i | 0 <= i < |s| :: Upper(s)[i] == s[i];
  }

  /** Printable bytes run from the space to the tilde. */
  lemma ByteClasses(b: Byte)
    ensures IsPrintable(b) <==> ' ' <= b as char <= '~'
    ensures IsDigit(b) <==> '0' <= b as char <= '9'
    ensures IsUpper(b) <==> 'A' <= b as char <= 'Z'
  {
  }

  /** The callsign alphabet: capitals, digits and the slash. */
  lemma CallAlphabet(b: Byte)
    ensures IsCallByte(b) <==> 'A' <= b as char <= 'Z' || '0' <= b as char <= '9' || b as char == '/'
  {
  }

  /** Upper case replaces small letters by their capitals, and leaves every other byte. */
  lemma UpperCase(b: Byte)
    ensures UpperByte(b) == if 'a' <= b as char <= 'z' then b - 'a' as int + 'A' as int else b
  {
  }

  /** The three sets of white space: `STR_SPACE` alone has the vertical tab, `BLANK` alone has NUL. */
  lemma SpaceSets(b: Byte)
    ensures b in STR_SPACE <==> b as char == ' ' || 9 <= b <= 13
    ensures b in WHITESPACE <==> b in STR_SPACE && b != 11
    ensures b in BLANK <==> b in WHITESPACE || b == 0
  {
  }

  // ---- first occurrence -------------------------------------------------

  /** The position of the first `b`, or the length when there is none. */
  function IndexOf(s: Bytes, b: Byte): (n: nat)
    ensures n <= |s|
    ensures forall i | 0 <= i < n :: s[i] != b
    ensures n < |s| ==> s[n] == b
  {
    if s == [] then 0
    else if s[0] == b then 0
    else 1 + IndexOf(s[1..], b)
  }

  /** The text before the first `b`; the whole text when there is none. */
  function Before(s: Bytes, b: Byte): (r: Bytes)
    ensures b !in r
  {
    s[..IndexOf(s, b)]
  }

  lemma IndexOfUnique(s: Bytes, b: Byte, n: nat)
    requires n <= |s|
    requires forall i | 0 <= i < n :: s[i] != b
    requires n == |s| || s[n] == b
    ensures IndexOf(s, b) == n
  {
  }

  lemma BeforeOfJoin(a: Bytes, b: Byte, rest: Bytes)
    requires b !in a
    requires rest == [] || rest[0] == b
    ensures Before(a + rest, b) == a
    ensures IndexOf(a + rest, b) == |a|
  {
    var s := a + rest;
    assert forall i | 0 <= i < |a| :: s[i] == a[i];
    IndexOfUnique(s, b, |a|);
  }

  lemma NoColonBefore(s: Bytes)
    requires COLON !in s
    ensures IndexOf(s, COLON) == |s| && Before(s, COLON) == s
  {
    hide IndexOf;
    IndexOfUnique(s, COLON, |s|);
  }

  predicate StartsWith(s: Bytes, p: Bytes) { |p| <= |s| && s[..|p|] == p }

  // ---- trimming ----------------------------------------------------------

  /** How many leading bytes are in `ws`. */
  function LeadCount(s: Bytes, ws: set<Byte>): (n: nat)
    ensures n <= |s|
    ensures forall i | 0 <= i < n :: s[i] in ws
    ensures n < |s| ==> s[n] !in ws
  {
    if s != [] && s[0] in ws then 1 + LeadCount(s[1..], ws) else 0
  }

  /** The length left once trailing bytes in `ws` are dropped. */
  function KeepCount(s: Bytes, ws: set<Byte>): (n: nat)
    ensures n <= |s|
    ensures forall i | n <= i < |s| :: s[i] in ws
    ensures n > 0 ==> s[n - 1] !in ws
  {
    if s != [] && s[|s| - 1] in ws then KeepCount(s[..|s| - 1], ws) else |s|
  }

  lemma {:induction false} KeepUnique(s: Bytes, ws: set<Byte>, n: nat)
    requires n <= |s| && (n > 0 ==> s[n - 1] !in ws) && forall i | n <= i < |s| :: s[i] in ws
    ensures KeepCount(s, ws) == n
  {
  }

  function TrimStart(s: Bytes, ws: set<Byte>): Bytes { s[LeadCount(s, ws)..] }

  function TrimEnd(s: Bytes, ws: set<Byte>): Bytes { s[..KeepCount(s, ws)] }

  function Trim(s: Bytes, ws: set<Byte>): (r: Bytes)
    ensures |r| <= |s|
    ensures r != [] ==> r[0] !in ws && r[|r| - 1] !in ws
    ensures forall i | 0 <= i < |r| :: r[i] in s
  {
    TrimEnd(TrimStart(s, ws), ws)
  }

  predicate Trimmed(s: Bytes, ws: set<Byte>) {
    s != [] ==> s[0] !in ws && s[|s| - 1] !in ws
  }

  lemma TrimIdentity(s: Bytes, ws: set<Byte>)
    requires Trimmed(s, ws)
    ensures Trim(s, ws) == s
  {
  }

  /** Trimming removes exactly the white space around a text that neither starts nor ends with any. */
  lemma TrimAround(pre: Bytes, t: Bytes, post: Bytes, ws: set<Byte>)
    requires Trimmed(t, ws) && t != []
    requires (forall b | b in pre :: b in ws) && forall b | b in post :: b in ws
    ensures Trim(pre + t + post, ws) == t
  {
    hide LeadCount, KeepCount;
    var s := pre + t + post;
    assert s[|pre|] == t[0];
    assert forall i | 0 <= i < |pre| :: s[i] == pre[i];
    var n := LeadCount(s, ws);
    assert n == |pre|;
    var rest := s[n..];
    assert rest == t + post && rest[|t| - 1] == t[|t| - 1];
    assert forall i | |t| <= i < |rest| :: rest[i] == post[i - |t|];
    assert rest[..|t|] == t;
  }

  /** Nothing but white space leaves nothing. */
  lemma TrimNothing(s: Bytes, ws: set<Byte>)
    ensures Trim(s, ws) == [] <==> forall b | b in s :: b in ws
  {
    hide LeadCount, KeepCount;
    var n := LeadCount(s, ws);
    assert n < |s| ==> s[n..][0] == s[n];
    if Trim(s, ws) == [] {
      assert KeepCount(s[n..], ws) == 0;
      forall b | b in s ensures b in ws {
        var i :| 0 <= i < |s| && s[i] == b;
      }
    }
  }

  /** Trimming loses no other byte. */
  lemma TrimKeeps(s: Bytes, ws: set<Byte>, b: Byte)
    requires b in s && b !in ws
    ensures b in Trim(s, ws)
  {
    hide LeadCount, KeepCount;
    var i :| 0 <= i < |s| && s[i] == b;
    var n := LeadCount(s, ws);
    var rest := s[n..];
    assert rest[i - n] == b;
    assert rest[..KeepCount(rest, ws)][i - n] == b;
  }

  /** Callsign bytes are never trimmed away, whichever of the three sets is in use. */
  lemma TrimCall(s: Bytes, ws: set<Byte>)
    requires AllCallBytes(s)
    requires ws <= BLANK + STR_SPACE
    ensures Trim(s, ws) == s
  {
    if s != [] {
      assert IsCallByte(s[0]) && IsCallByte(s[|s| - 1]);
    }
    TrimIdentity(s, ws);
  }

  // ---- decimal numbers ---------------------------------------------------

  function DecimalValue(s: Bytes): (n: nat)
    requires AllDigits(s)
  {
    if s == [] then 0 else 10 * DecimalValue(s[..|s| - 1]) + (s[|s| - 1] - 0x30)
  }

  /** Canonical decimal digits, as the IDX writer prints them. */
  function Decimal(n: nat): (s: Bytes)
    ensures s != [] && AllDigits(s)
  {
    if n < 10 then [n + 0x30] else Decimal(n / 10) + [n % 10 + 0x30]
  }

  lemma {:induction false} DecimalRoundTrip(n: nat)
    ensures DecimalValue(Decimal(n)) == n
  {
    if n < 10 {
      assert Decimal(n) == [n + 0x30];
      assert DecimalValue([]) == 0;
      assert [n + 0x30][..0] == [];
    } else {
      DecimalRoundTrip(n / 10);
      var s := Decimal(n);
      assert s[..|s| - 1] == Decimal(n / 10);
    }
  }

  /** A prefix of a digit string is never worth more than the whole. */
  lemma {:induction false} DecimalPrefix(s: Bytes, k: nat)
    requires AllDigits(s) && k <= |s|
    ensures DecimalValue(s[..k]) <= DecimalValue(s)
    decreases |s|
  {
    if k == |s| {
      assert s[..k] == s;
    } else {
      var t := s[..|s| - 1];
      DecimalPrefix(t, k);
      assert t[..k] == s[..k];
    }
  }

  /** `str::parse` for an unsigned type with largest value `limit`: one leading `+` is accepted. */
  function ParseUnsigned(s: Bytes, limit: nat): (r: Option<nat>)
  {
    var digits := if |s| > 1 && s[0] == PLUS then s[1..] else s;
    if digits == [] || !AllDigits(digits) || DecimalValue(digits) > limit then None
    else Some(DecimalValue(digits))
  }

  /** A printed number is read back, with or without a plus sign, up to the limit; a sign alone is none. */
  lemma NumberRead(n: nat, limit: nat)
    ensures ParseUnsigned(Decimal(n), limit) == if n <= limit then Some(n) else None
    ensures ParseUnsigned([PLUS] + Decimal(n), limit) == if n <= limit then Some(n) else None
    ensures ParseUnsigned([PLUS], limit) == None && ParseUnsigned([], limit) == None
  {
    hide Decimal, DecimalValue;
    var digits := Decimal(n);
    DecimalRoundTrip(n);
    assert IsDigit(digits[0]);
    assert ([PLUS] + digits)[1..] == digits;
    assert !IsDigit([PLUS][0]);
  }

  /** Whatever else it reads is nothing but digits, behind at most one plus sign. */
  lemma NumberIsDigits(s: Bytes, limit: nat)
    requires ParseUnsigned(s, limit).Some?
    ensures s != [] && AllDigits(s[1..]) && (IsDigit(s[0]) || (s[0] == PLUS && |s| > 1))
    ensures ParseUnsigned(s, limit).value <= limit
  {
  }

  // ---- lexicographic order -----------------------------------------------

  predicate Le(a: Bytes, b: Bytes) {
    a == [] || (b != [] && (a[0] < b[0] || (a[0] == b[0] && Le(a[1..], b[1..]))))
  }

  /** The order of `Option`: nothing comes first. */
  predicate OptionLe(a: Option<nat>, b: Option<nat>) { a.None? || (b.Some? && a.value <= b.value) }

  predicate Lt(a: Bytes, b: Bytes) { Le(a, b) && a != b }

  lemma {:induction false} LeTransitive(a: Bytes, b: Bytes, c: Bytes)
    requires Le(a, b) && Le(b, c)
    ensures Le(a, c)
  {
    if a != [] && a[0] == b[0] && b[0] == c[0] {
      LeTransitive(a[1..], b[1..], c[1..]);
    }
  }

  lemma {:induction false} LeTotal(a: Bytes, b: Bytes)
    ensures Le(a, b) || Le(b, a)
  {
    if a != [] && b != [] && a[0] == b[0] {
      LeTotal(a[1..], b[1..]);
    }
  }

  lemma {:induction false} LeAntisymmetric(a: Bytes, b: Bytes)
    requires Le(a, b) && Le(b, a)
    ensures a == b
  {
    if a != [] {
      LeAntisymmetric(a[1..], b[1..]);
      assert a == [a[0]] + a[1..] && b == [b[0]] + b[1..];
    }
  }

  lemma {:induction false} LeReflexive(a: Bytes)
    ensures Le(a, a)
  {
    if a != [] {
      LeReflexive(a[1..]);
    }
  }

  /** The first byte in which both differ decides. */
  ghost predicate SmallerAt(a: Bytes, b: Bytes, k: nat) {
    k < |a| && k < |b| && a[..k] == b[..k] && a[k] < b[k]
  }

  /** `Le` is dictionary order: a prefix comes first, otherwise the first different byte decides. */
  lemma {:induction false} LeMeaning(a: Bytes, b: Bytes)
    ensures Le(a, b) <==> StartsWith(b, a) || exists k: nat :: SmallerAt(a, b, k)
  {
    hide SmallerAt, StartsWith;
    if a == [] || b == [] {
      NothingToCompare(a, b);
    } else if a[0] == b[0] {
      LeMeaning(a[1..], b[1..]);
      SameFirst(a, b);
    } else {
      DifferentFirst(a, b);
    }
  }

  lemma NothingToCompare(a: Bytes, b: Bytes)
    requires a == [] || b == []
    ensures StartsWith(b, a) <==> a == []
    ensures forall k: nat :: !SmallerAt(a, b, k)
  {
  }

  lemma SameFirst(a: Bytes, b: Bytes)
    requires a != [] && b != [] && a[0] == b[0]
    ensures StartsWith(b, a) <==> StartsWith(b[1..], a[1..])
    ensures (exists k: nat :: SmallerAt(a, b, k)) <==> exists k: nat :: SmallerAt(a[1..], b[1..], k)
  {
    var x, y := a[1..], b[1..];
    assert a == [a[0]] + x && b == [b[0]] + y;
    if |a| <= |b| {
      assert b[..|a|] == [b[0]] + y[..|x|];
    }
    if k: nat :| SmallerAt(x, y, k) {
      assert a[..k + 1] == [a[0]] + x[..k] && b[..k + 1] == [b[0]] + y[..k];
      assert SmallerAt(a, b, k + 1);
    }
    if k: nat :| SmallerAt(a, b, k) {
      assert k > 0;
      assert x[..k - 1] == a[..k][1..] && y[..k - 1] == b[..k][1..];
      assert SmallerAt(x, y, k - 1);
    }
  }

  lemma SameBefore(a: Bytes, b: Bytes, k: nat)
    requires SmallerAt(a, b, k) && k > 0
    ensures a[0] == b[0]
  {
    assert a[..k][0] == b[..k][0];
  }

  lemma DifferentFirst(a: Bytes, b: Bytes)
    requires a != [] && b != [] && a[0] != b[0]
    ensures !StartsWith(b, a)
    ensures (exists k: nat :: SmallerAt(a, b, k)) <==> a[0] < b[0]
  {
    if a[0] < b[0] {
      assert SmallerAt(a, b, 0);
    }
    if k: nat :| SmallerAt(a, b, k) {
      if k > 0 {
        SameBefore(a, b, k);
      }
    }
    assert |a| <= |b| ==> b[..|a|][0] == b[0];
  }

  lemma LtTransitive(a: Bytes, b: Bytes, c: Bytes)
    requires Lt(a, b) && Lt(b, c)
    ensures Lt(a, c)
  {
    LeTransitive(a, b, c);
    if a == c {
      LeAntisymmetric(a, b);
    }
  }

  /** A prefix sorts no later than any of its extensions. */
  lemma {:induction false} PrefixLe(p: Bytes, s: Bytes)
    requires StartsWith(s, p)
    ensures Le(p, s)
  {
    if p != [] {
      assert s[0] == s[..|p|][0] == p[0];
      assert s[1..][..|p| - 1] == s[..|p|][1..] == p[1..];
      PrefixLe(p[1..], s[1..]);
    }
  }

  /** Cutting both sides at the same length keeps their order. */
  lemma {:induction false} LePrefix(a: Bytes, b: Bytes, n: nat)
    requires Le(a, b) && n <= |a| && n <= |b|
    ensures Le(a[..n], b[..n])
  {
    if n > 0 && a[0] == b[0] {
      LePrefix(a[1..], b[1..], n - 1);
      assert a[..n][1..] == a[1..][..n - 1] && b[..n][1..] == b[1..][..n - 1];
    }
  }

  /** Extensions of a prefix form one contiguous run that starts at the prefix itself. */
  lemma {:induction false} PrefixRunConvex(p: Bytes, a: Bytes, b: Bytes)
    requires Le(p, a) && Le(a, b) && StartsWith(b, p)
    ensures StartsWith(a, p)
  {
    if p != [] {
      assert b[0] == b[..|p|][0] == p[0];
      assert a[0] == p[0];
      assert b[1..][..|p| - 1] == b[..|p|][1..] == p[1..];
      PrefixRunConvex(p[1..], a[1..], b[1..]);
      assert a[..|p|] == [a[0]] + a[1..][..|p| - 1];
    }
  }

  // ---- small sequence combinators ----------------------------------------

  /** Nothing, or one element. */
  function Listed<T>(x: Option<T>): seq<T> { if x.Some? then [x.value] else [] }

  /** The concatenation of a list of lists. */
  function Flatten<T>(ss: seq<seq<T>>): (r: seq<T>)
  {
    if ss == [] then [] else ss[0] + Flatten(ss[1..])
  }

  lemma {:induction false} FlattenAppend<T>(a: seq<seq<T>>, b: seq<seq<T>>)
    ensures Flatten(a + b) == Flatten(a) + Flatten(b)
  {
    if a == [] {
      assert a + b == b;
    } else {
      var c := a + b;
      FlattenAppend(a[1..], b);
      assert c[1..] == a[1..] + b && c[0] == a[0];
      assert Flatten(c) == a[0] + (Flatten(a[1..]) + Flatten(b));
    }
  }

  lemma {:induction false} FlattenContains<T>(ss: seq<seq<T>>, x: T)
    ensures x in Flatten(ss) <==> exists i :: 0 <= i < |ss| && x in ss[i]
  {
    if ss != [] {
      FlattenContains(ss[1..], x);
      forall i | 0 <= i < |ss[1..]| ensures ss[1..][i] == ss[i + 1] {}
      if x in Flatten(ss[1..]) {
        var i :| 0 <= i < |ss[1..]| && x in ss[1..][i];
        assert x in ss[i + 1];
      }
      if exists i :: 0 <= i < |ss| && x in ss[i] {
        var i :| 0 <= i < |ss| && x in ss[i];
        if i > 0 { assert x in ss[1..][i - 1]; }
      }
    }
  }

  predicate Distinct<T(==)>(s: seq<T>) {
    forall i, j | 0 <= i < j < |s| :: s[i] != s[j]
  }

  /** First occurrences, in order: what a loop with a `seen` set lets through. */
  function Dedup<T(==)>(s: seq<T>): (r: seq<T>)
  {
    if s == [] then []
    else
      var r := Dedup(s[..|s| - 1]);
      if s[|s| - 1] in r then r else r + [s[|s| - 1]]
  }

  lemma {:induction false} DedupMeaning<T>(s: seq<T>)
    ensures Distinct(Dedup(s))
    ensures forall x :: x in Dedup(s) <==> x in s
  {
    if s != [] {
      DedupMeaning(s[..|s| - 1]);
      assert s == s[..|s| - 1] + [s[|s| - 1]];
    }
  }

  lemma DedupSnoc<T>(s: seq<T>, x: T)
    ensures Dedup(s + [x]) == if x in s then Dedup(s) else Dedup(s) + [x]
  {
    assert (s + [x])[..|s|] == s;
    DedupMeaning(s);
  }
}
