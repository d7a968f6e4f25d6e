/** Callsign normalisation: upper case, `[A-Z0-9/]`, at most 26 bytes, padded with spaces. */
module Callsigns {
  import opened Ascii

  const KEY_LEN: nat := 26

  type Key = k: Bytes | |k| == 26 witness seq(26, _ => 0x20)

  /** The normalised text of a callsign, or `None` for an invalid one. */
  function Normalize(input: Bytes): (r: Option<Bytes>)
    ensures r.Some? ==> 1 <= |r.value| <= KEY_LEN && AllCallBytes(r.value)
  {
    var t := Upper(Trim(input, WHITESPACE));
    if 1 <= |t| <= KEY_LEN && AllCallBytes(t) then Some(t) else None
  }

  method StripAsciiWhitespace(s: Bytes) returns (r: Bytes)
    ensures r == Trim(s, WHITESPACE)
  {
    r := s;
    while r != [] && r[0] in WHITESPACE
      invariant TrimStart(r, WHITESPACE) == TrimStart(s, WHITESPACE)
      decreases |r|
    {
      r := r[1..];
    }
    ghost var t := r;
    while r != [] && r[|r| - 1] in WHITESPACE
      invariant TrimEnd(r, WHITESPACE) == TrimEnd(t, WHITESPACE)
      decreases |r|
    {
      assert KeepCount(r, WHITESPACE) == KeepCount(r[..|r| - 1], WHITESPACE);
      r := r[..|r| - 1];
    }
  }

  method Parse(input: Bytes) returns (r: Option<Key>)
    ensures r.Some? <==> Normalize(input).Some?
    ensures r.Some? ==> r.value == Normalize(input).value + Spaces(KEY_LEN - |Normalize(input).value|)
  {
    var trimmed := StripAsciiWhitespace(input);
    if trimmed == [] || |trimmed| > KEY_LEN {
      return None;
    }
    hide UpperByte, IsCallByte;
    ghost var upper := Upper(trimmed);
    var out := new Byte[KEY_LEN](_ => SPACE);
    for i := 0 to |trimmed|
      invariant forall k | 0 <= k < i :: out[k] == upper[k] && IsCallByte(upper[k])
      invariant forall k | i <= k < KEY_LEN :: out[k] == SPACE
    {
      var c := UpperByte(trimmed[i]);
      assert c == upper[i];
      if !IsCallByte(c) {
        return None;
      }
      out[i] := c;
    }
    assert out[..] == upper + Spaces(KEY_LEN - |trimmed|);
    return Some(out[..]);
  }

  /** The key without its padding. */
  function AsStr(key: Key): Bytes { TrimEnd(key, {SPACE}) }

  lemma {:induction false} KeepBeforePadding(t: Bytes, n: nat)
    requires t != [] ==> t[|t| - 1] != SPACE
    ensures TrimEnd(t + Spaces(n), {SPACE}) == t
  {
    if n == 0 {
      assert t + Spaces(0) == t;
    } else {
      var s := t + Spaces(n);
      assert s[..|s| - 1] == t + Spaces(n - 1);
      KeepBeforePadding(t, n - 1);
    }
  }

  /** Padding is undone: the rendered key is the normalised text. */
  lemma AsStrOfPadded(t: Bytes)
    requires 1 <= |t| <= KEY_LEN && AllCallBytes(t)
    ensures AsStr(t + Spaces(KEY_LEN - |t|)) == t
  {
    assert IsCallByte(t[|t| - 1]);
    KeepBeforePadding(t, KEY_LEN - |t|);
  }

  /** Normalising is idempotent, and it is the identity on everything it returns: calls of one to 26 capitals,
      digits and slashes. */
  lemma NormalizeFixpoint(q: Bytes)
    ensures Normalize(q) == Some(q)
            <==> && 1 <= |q| <= 26
                 && forall b | b in q :: 'A' <= b as char <= 'Z' || '0' <= b as char <= '9' || b as char == '/'
  {
    hide IsCallByte;
    forall b: Byte
      ensures IsCallByte(b) <==> 'A' <= b as char <= 'Z' || '0' <= b as char <= '9' || b as char == '/'
    {
      CallAlphabet(b);
    }
    if AllCallBytes(q) {
      TrimCall(q, WHITESPACE);
      UpperIsIdentity(q);
    }
    assert AllCallBytes(q) <==> forall b | b in q :: IsCallByte(b);
  }

  /** What is around a call in white space, and the case of its letters, do not matter; a call that is too long or has
      any other byte is refused, and so is nothing but white space. */
  lemma NormalizeExact(pre: Bytes, t: Bytes, post: Bytes)
    requires (forall b | b in pre + post :: b in {9, 10, 12, 13, 32})
    requires t != [] && t[0] !in {9, 10, 12, 13, 32} && t[|t| - 1] !in {9, 10, 12, 13, 32}
    ensures Normalize(pre + t + post)
            == if |t| <= 26 && AllCallBytes(Upper(t)) then Some(Upper(t)) else None
    ensures Normalize(pre) == None
  {
    hide Trim;
    assert forall b | b in pre :: b in pre + post;
    assert forall b | b in post :: b in pre + post;
    TrimAround(pre, t, post, WHITESPACE);
    TrimNothing(pre, WHITESPACE);
  }

  /** Letter case never decides a lookup. */
  lemma NormalizeIgnoresCase(input: Bytes)
    ensures Normalize(Upper(input)) == Normalize(input)
  {
    TrimUpper(input);
    var t := Trim(input, WHITESPACE);
    assert Upper(Upper(t)) == Upper(t);
  }

  lemma {:induction false} LeadUpper(s: Bytes)
    ensures LeadCount(Upper(s), WHITESPACE) == LeadCount(s, WHITESPACE)
  {
    hide Upper, LeadCount, UpperByte;
    LeadStep(s);
    LeadStep(Upper(s));
    if s != [] {
      LeadUpper(s[1..]);
      UpperDrop(s, 1);
      UpperAt(s, 0);
    }
  }

  lemma {:induction false} KeepUpper(s: Bytes)
    ensures KeepCount(Upper(s), WHITESPACE) == KeepCount(s, WHITESPACE)
  {
    hide Upper, KeepCount, UpperByte;
    KeepStep(s);
    KeepStep(Upper(s));
    if s != [] {
      KeepUpper(s[..|s| - 1]);
      UpperTake(s, |s| - 1);
      UpperAt(s, |s| - 1);
    }
  }

  lemma KeepStep(s: Bytes)
    ensures KeepCount(s, WHITESPACE)
            == if s == [] then 0 else if s[|s| - 1] in WHITESPACE then KeepCount(s[..|s| - 1], WHITESPACE) else |s|
  {
  }

  lemma LeadStep(s: Bytes)
    ensures LeadCount(s, WHITESPACE)
            == if s == [] then 0 else if s[0] in WHITESPACE then 1 + LeadCount(s[1..], WHITESPACE) else 0
  {
  }

  /** Changing the case of a byte does not make it white space. */
  lemma UpperAt(s: Bytes, i: nat)
    requires i < |s|
    ensures Upper(s)[i] in WHITESPACE <==> s[i] in WHITESPACE
  {
  }

  lemma TrimUpper(s: Bytes)
    ensures Trim(Upper(s), WHITESPACE) == Upper(Trim(s, WHITESPACE))
  {
    hide LeadCount, KeepCount, Upper;
    var t := TrimStart(s, WHITESPACE);
    LeadUpper(s);
    UpperDrop(s, LeadCount(s, WHITESPACE));
    KeepUpper(t);
    UpperTake(t, KeepCount(t, WHITESPACE));
  }

  lemma UpperDrop(s: Bytes, n: nat)
    requires n <= |s|
    ensures Upper(s)[n..] == Upper(s[n..])
  {
    hide UpperByte;
  }

  lemma UpperTake(s: Bytes, n: nat)
    requires n <= |s|
    ensures Upper(s)[..n] == Upper(s[..n])
  {
    hide UpperByte;
  }
}
