/** `String::from_utf8_lossy`, on bytes: ill-formed stretches become U+FFFD. */
module Utf8 {
  import opened Ascii

  const REPLACEMENT: Bytes := [0xef, 0xbf, 0xbd]

  /** How many bytes a character with this first byte has; zero when none starts so. */
  function Width(b: Byte): nat {
    if b < 0x80 then 1
    else if 0xc2 <= b <= 0xdf then 2
    else if 0xe0 <= b <= 0xef then 3
    else if 0xf0 <= b <= 0xf4 then 4
    else 0
  }

  /** What may follow a first byte of a longer character. */
  predicate IsSecond(first: Byte, b: Byte) {
    if first == 0xe0 then 0xa0 <= b <= 0xbf
    else if first == 0xed then 0x80 <= b <= 0x9f
    else if first == 0xf0 then 0x90 <= b <= 0xbf
    else if first == 0xf4 then 0x80 <= b <= 0x8f
    else 0x80 <= b <= 0xbf
  }

  predicate IsRest(b: Byte) { 0x80 <= b <= 0xbf }

  /** How many bytes at the front belong together: a character, or as much of one as there is. */
  function Step(s: Bytes): (n: nat)
    requires s != []
    ensures 1 <= n <= |s| && n <= 4
  {
    var w := Width(s[0]);
    if w <= 1 || |s| < 2 || !IsSecond(s[0], s[1]) then 1
    else if w == 2 || |s| < 3 || !IsRest(s[2]) then 2
    else if w == 3 || |s| < 4 || !IsRest(s[3]) then 3
    else 4
  }

  /** They are a whole character. */
  predicate Whole(s: Bytes)
    requires s != []
  {
    Step(s) == Width(s[0])
  }

  function Lossy(s: Bytes): (t: Bytes) {
    if s == [] then []
    else (if Whole(s) then s[..Step(s)] else REPLACEMENT) + Lossy(s[Step(s)..])
  }

  predicate WellFormed(s: Bytes) { s == [] || (Whole(s) && WellFormed(s[Step(s)..])) }

  predicate IsAscii(s: Bytes) { forall i | 0 <= i < |s| :: s[i] < 0x80 }

  // ---- properties ---------------------------------------------------------------------------

  lemma LossyStep(s: Bytes)
    requires s != []
    ensures Lossy(s) == (if Whole(s) then s[..Step(s)] else REPLACEMENT) + Lossy(s[Step(s)..])
  {
  }

  /** A character and what follows are cut apart again. */
  lemma StepOfJoin(c: Bytes, t: Bytes)
    requires c != [] && Whole(c) && Step(c) == |c|
    ensures Whole(c + t) && Step(c + t) == |c| && (c + t)[..|c|] == c && (c + t)[|c|..] == t
  {
    var s := c + t;
    assert forall i | 0 <= i < |c| :: s[i] == c[i];
  }

  lemma ReplacementIsWhole()
    ensures Whole(REPLACEMENT) && Step(REPLACEMENT) == 3
  {
  }

  lemma CharIsWhole(s: Bytes)
    requires s != [] && Whole(s)
    ensures Whole(s[..Step(s)]) && Step(s[..Step(s)]) == Step(s)
  {
    var c := s[..Step(s)];
    assert forall i | 0 <= i < |c| :: s[i] == c[i];
  }

  /** The result is always well-formed text. */
  lemma {:induction false} LossyWellFormed(s: Bytes)
    ensures WellFormed(Lossy(s))
  {
    hide Whole, Step;
    if s != [] {
      var c := if Whole(s) then s[..Step(s)] else REPLACEMENT;
      LossyWellFormed(s[Step(s)..]);
      if Whole(s) {
        CharIsWhole(s);
      } else {
        ReplacementIsWhole();
      }
      StepOfJoin(c, Lossy(s[Step(s)..]));
    }
  }

  /** An ill-formed start never reads like the character that replaces it. */
  lemma NotReplacement(s: Bytes, t: Bytes)
    requires s != [] && !Whole(s)
    ensures REPLACEMENT + t != s
  {
    var u := REPLACEMENT + t;
    assert |u| >= 3 && u[0] == 0xef && u[1] == 0xbf && u[2] == 0xbd;
  }

  /** Exactly well-formed text stays as it is. */
  lemma {:induction false} LossyKeepsExactly(s: Bytes)
    ensures Lossy(s) == s <==> WellFormed(s)
  {
    hide Whole, Step;
    if s != [] {
      var n := Step(s);
      LossyKeepsExactly(s[n..]);
      if Whole(s) {
        assert s == s[..n] + s[n..];
        if Lossy(s) == s {
          assert Lossy(s)[n..] == Lossy(s[n..]);
        }
      } else {
        NotReplacement(s, Lossy(s[n..]));
      }
    }
  }

  lemma {:induction false} AsciiWellFormed(s: Bytes)
    requires IsAscii(s)
    ensures WellFormed(s)
  {
    if s != [] {
      AsciiWellFormed(s[1..]);
    }
  }

  lemma AsciiStays(s: Bytes)
    requires IsAscii(s)
    ensures Lossy(s) == s
  {
    hide WellFormed, Lossy;
    AsciiWellFormed(s);
    LossyKeepsExactly(s);
  }

  lemma LossyNothing()
    ensures Lossy([]) == []
  {
  }

  /** Nothing but ASCII comes from ASCII. */
  lemma {:induction false} LossyAscii(s: Bytes)
    ensures IsAscii(Lossy(s)) <==> IsAscii(s)
  {
    hide Lossy;
    LossyNothing();
    if s != [] {
      LossyStep(s);
      LossyAscii(s[Step(s)..]);
      FrontAscii(s);
      var c := if Whole(s) then s[..Step(s)] else REPLACEMENT;
      JoinAscii(c, Lossy(s[Step(s)..]));
      JoinAscii(s[..Step(s)], s[Step(s)..]);
      assert s == s[..Step(s)] + s[Step(s)..];
    }
  }

  lemma JoinAscii(a: Bytes, b: Bytes)
    ensures IsAscii(a + b) <==> IsAscii(a) && IsAscii(b)
  {
    var s := a + b;
    assert forall i | 0 <= i < |a| :: a[i] == s[i];
    assert forall i | 0 <= i < |b| :: b[i] == s[|a| + i];
  }

  lemma FrontAscii(s: Bytes)
    requires s != []
    ensures IsAscii(if Whole(s) then s[..Step(s)] else REPLACEMENT) <==> IsAscii(s[..Step(s)])
  {
    if s[0] >= 0x80 {
      assert !IsAscii(s[..Step(s)]) by { assert s[..Step(s)][0] == s[0]; }
    }
    assert !IsAscii(REPLACEMENT) by { assert REPLACEMENT[0] == 0xef; }
  }

  // ---- what the characters are ------------------------------------------------------------------

  /** The values that have an encoding: all up to 0x10ffff but the surrogates. */
  predicate Scalar(c: nat) { c < 0xd800 || 0xe000 <= c < 0x11_0000 }

  function Encode(c: nat): (s: Bytes)
    requires Scalar(c)
  {
    if c < 0x80 then [c]
    else if c < 0x800 then [0xc0 + c / 64, Rest(c)]
    else if c < 0x1_0000 then [0xe0 + c / 64 / 64, Rest(c / 64), Rest(c)]
    else [0xf0 + c / 64 / 64 / 64, Rest(c / 64 / 64), Rest(c / 64), Rest(c)]
  }

  /** The last six bits, marked. */
  function Rest(n: nat): (b: Byte) { 0x80 + n % 64 }

  /** Six more bits. */
  function More(n: int, b: Byte): int { 64 * n + b - 0x80 }

  function Decode(s: Bytes): int
    requires 1 <= |s| <= 4
  {
    var a: int := s[0];
    if |s| == 1 then a
    else if |s| == 2 then More(a - 0xc0, s[1])
    else if |s| == 3 then More(More(a - 0xe0, s[1]), s[2])
    else More(More(More(a - 0xf0, s[1]), s[2]), s[3])
  }

  lemma MoreRest(n: nat, b: Byte)
    requires IsRest(b)
    ensures 64 * n <= More(n, b) < 64 * n + 64 && More(n, b) / 64 == n && Rest(More(n, b)) == b
  {
  }

  lemma RestIsRest(n: nat)
    ensures IsRest(Rest(n)) && More(n / 64, Rest(n)) == n
  {
  }

  /** Every encoding is a whole character, and gives its value back. */
  lemma EncodedIsWhole(c: nat)
    requires Scalar(c)
    ensures var s := Encode(c); s != [] && Whole(s) && Step(s) == |s| && Decode(s) == c
  {
    hide Rest, More;
    RestIsRest(c);
    RestIsRest(c / 64);
    RestIsRest(c / 64 / 64);
    if c >= 0x80 {
      SecondByte(c);
    }
  }

  /** Only the second byte has rules of its own: no encoding is too long, no surrogate, nothing too large. */
  lemma SecondByte(c: nat)
    requires Scalar(c) && c >= 0x80
    ensures IsSecond(Encode(c)[0], Encode(c)[1])
  {
  }

  /** Every whole character is the encoding of a value. */
  lemma WholeIsEncoded(s: Bytes)
    requires s != [] && Whole(s) && Step(s) == |s|
    ensures Decode(s) >= 0 && Scalar(Decode(s)) && Encode(Decode(s)) == s
  {
    hide Rest;
    if |s| == 2 {
      MoreRest(s[0] - 0xc0, s[1]);
    } else if |s| == 3 {
      var n := More(s[0] - 0xe0, s[1]);
      MoreRest(s[0] - 0xe0, s[1]);
      MoreRest(n, s[2]);
    } else if |s| == 4 {
      var n := More(s[0] - 0xf0, s[1]);
      MoreRest(s[0] - 0xf0, s[1]);
      MoreRest(n, s[2]);
      MoreRest(More(n, s[2]), s[3]);
    }
  }

  predicate Scalars(cs: seq<nat>) { forall i | 0 <= i < |cs| :: Scalar(cs[i]) }

  function EncodeAll(cs: seq<nat>): Bytes
    requires Scalars(cs)
  {
    if cs == [] then [] else Encode(cs[0]) + EncodeAll(cs[1..])
  }

  /** Encoded text is well-formed, so the conversion leaves it alone. */
  lemma {:induction false} EncodedStays(cs: seq<nat>)
    requires Scalars(cs)
    ensures WellFormed(EncodeAll(cs)) && Lossy(EncodeAll(cs)) == EncodeAll(cs)
  {
    hide Encode, Whole, Step, Lossy;
    if cs != [] {
      EncodedStays(cs[1..]);
      EncodedIsWhole(cs[0]);
      StepOfJoin(Encode(cs[0]), EncodeAll(cs[1..]));
    }
    LossyKeepsExactly(EncodeAll(cs));
  }

  /** And nothing else is: what the conversion returns, for any bytes, is the encoding of some characters. */
  lemma {:induction false} LossyIsEncoded(s: Bytes) returns (cs: seq<nat>)
    ensures Scalars(cs) && EncodeAll(cs) == Lossy(s)
  {
    hide Encode, Decode, Whole, Step, Lossy;
    LossyNothing();
    cs := [];
    if s != [] {
      LossyStep(s);
      var rest := LossyIsEncoded(s[Step(s)..]);
      var c := if Whole(s) then s[..Step(s)] else REPLACEMENT;
      FrontIsWhole(s);
      WholeIsEncoded(c);
      cs := [Decode(c)] + rest;
    }
  }

  lemma FrontIsWhole(s: Bytes)
    requires s != []
    ensures var c := if Whole(s) then s[..Step(s)] else REPLACEMENT; Whole(c) && Step(c) == |c|
  {
    hide Whole, Step;
    if Whole(s) {
      CharIsWhole(s);
    } else {
      ReplacementIsWhole();
    }
  }

  /** What replaces an ill-formed stretch is U+FFFD, and the stretch is as long as it can be: it is one byte, or the
      beginning of a character, and with one more byte it is not the beginning of any. */
  lemma ReplacedStretch(s: Bytes)
    requires s != [] && !Whole(s)
    ensures REPLACEMENT == Encode(0xfffd)
    ensures Step(s) > 1 ==> exists c: nat :: Scalar(c) && s[..Step(s)] < Encode(c)
    ensures Step(s) < |s| ==> forall c: nat | Scalar(c) :: !(s[..Step(s) + 1] <= Encode(c))
  {
    hide Encode;
    assert REPLACEMENT == Encode(0xfffd) by { WholeIsEncoded(REPLACEMENT); }
    var n := Step(s);
    if n > 1 {
      CompletedStretch(s);
    }
    if n < |s| {
      forall c: nat | Scalar(c) ensures !(s[..n + 1] <= Encode(c)) {
        EncodedIsWhole(c);
        if s[..n + 1] <= Encode(c) {
          NoLonger(s, Encode(c));
        }
      }
    }
  }

  lemma CompletedStretch(s: Bytes)
    requires s != [] && !Whole(s) && Step(s) > 1
    ensures exists c: nat :: Scalar(c) && s[..Step(s)] < Encode(c)
  {
    hide Encode, Decode;
    var n, w := Step(s), Width(s[0]);
    var t := s[..n] + (if w - n == 1 then [0x80] else [0x80, 0x80]);
    assert t[0] == s[0] && t[1] == s[1] && (n == 3 ==> t[2] == s[2]);
    WholeIsEncoded(t);
    assert t[..n] == s[..n];
  }

  lemma NoLonger(s: Bytes, e: Bytes)
    requires s != [] && !Whole(s) && Step(s) < |s| && s[..Step(s) + 1] <= e && e != []
    ensures !(Whole(e) && Step(e) == |e|)
  {
    var n := Step(s);
    assert forall i | 0 <= i <= n :: e[i] == s[..n + 1][i] == s[i];
  }
}
