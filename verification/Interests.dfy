/** Interest-profile codes: a raw field is a run of four-digit codes. */
module Interests {
  import opened Ascii
  import Snapshots

  /** The four-byte chunks that are all digits; a short tail is ignored. */
  function Codes(raw: Bytes): (codes: seq<Bytes>)
    ensures forall i | 0 <= i < |codes| :: |codes[i]| == 4 && AllDigits(codes[i])
  {
    if |raw| < 4 then []
    else (if AllDigits(raw[..4]) then [raw[..4]] else []) + Codes(raw[4..])
  }

  function Chunk(raw: Bytes, k: nat): Bytes
    requires 4 * k + 4 <= |raw|
  {
    raw[4 * k..4 * k + 4]
  }

  lemma ChunkShift(raw: Bytes, k: nat)
    requires 4 * k + 8 <= |raw|
    ensures Chunk(raw, k + 1) == Chunk(raw[4..], k)
  {
  }

  /** A code is listed exactly when one of the aligned four-byte chunks is that code. */
  lemma {:induction false} CodesExact(raw: Bytes, code: Bytes)
    ensures code in Codes(raw) <==>
              AllDigits(code) && exists k: nat :: 4 * k + 4 <= |raw| && Chunk(raw, k) == code
  {
    hide AllDigits, Chunk;
    if |raw| >= 4 {
      var rest := raw[4..];
      CodesExact(rest, code);
      FirstChunk(raw);
      if k: nat :| 4 * k + 4 <= |raw| && Chunk(raw, k) == code && k > 0 {
        ChunkShift(raw, k - 1);
      }
      if k: nat :| 4 * k + 4 <= |rest| && Chunk(rest, k) == code {
        ChunkShift(raw, k);
      }
    }
  }

  lemma FirstChunk(raw: Bytes)
    requires |raw| >= 4
    ensures Chunk(raw, 0) == raw[..4]
  {
  }

  predicate AllCodes(codes: seq<Bytes>) { forall i | 0 <= i < |codes| :: |codes[i]| == 4 && AllDigits(codes[i]) }

  /** Codes written one after the other are read back in order; a short tail changes nothing. */
  lemma {:induction false} CodesRoundTrip(codes: seq<Bytes>, tail: Bytes)
    requires AllCodes(codes) && |tail| < 4
    ensures Codes(Flatten(codes) + tail) == codes
  {
    hide AllDigits;
    if codes == [] {
      assert Flatten<Byte>([]) + tail == tail;
    } else {
      var raw := Flatten(codes) + tail;
      CodesRoundTrip(codes[1..], tail);
      assert raw[..4] == codes[0] && raw[4..] == Flatten(codes[1..]) + tail;
    }
  }

  /** The codes of the snapshot are those in its interest text. */
  predicate CodesFit(s: Snapshots.Snapshot) {
    s.interestCodes == if Snapshots.InterestCodesRaw in s.text then Codes(s.text[Snapshots.InterestCodesRaw]) else []
  }

  type Catalog = map<Bytes, Snapshots.Interest>

  /** The catalogued codes of a list, in order. */
  function Known(catalog: Catalog, codes: seq<Bytes>): seq<Snapshots.Interest> {
    if codes == [] then []
    else (if codes[0] in catalog then [catalog[codes[0]]] else []) + Known(catalog, codes[1..])
  }

  function ResolveRaw(catalog: Catalog, raw: Bytes): seq<Snapshots.Interest> {
    Known(catalog, Codes(raw))
  }

  lemma KnownStep(catalog: Catalog, codes: seq<Bytes>)
    ensures Known(catalog, []) == []
    ensures codes != [] ==>
              Known(catalog, codes)
              == (if codes[0] in catalog then [catalog[codes[0]]] else []) + Known(catalog, codes[1..])
  {
  }

  lemma {:induction false} KnownAppend(catalog: Catalog, a: seq<Bytes>, b: seq<Bytes>)
    ensures Known(catalog, a + b) == Known(catalog, a) + Known(catalog, b)
  {
    hide Known;
    KnownStep(catalog, a);
    if a == [] {
      assert a + b == b;
    } else {
      KnownAppend(catalog, a[1..], b);
      KnownStep(catalog, a + b);
      assert (a + b)[1..] == a[1..] + b;
    }
  }

  /** Codes are resolved one by one, in order; a code without an entry gives nothing. */
  lemma KnownInOrder(catalog: Catalog, a: seq<Bytes>, code: Bytes, b: seq<Bytes>)
    ensures Known(catalog, []) == []
    ensures Known(catalog, a + [code] + b)
            == Known(catalog, a) + (if code in catalog then [catalog[code]] else []) + Known(catalog, b)
  {
    hide Known;
    KnownAppend(catalog, a + [code], b);
    KnownAppend(catalog, a, [code]);
    KnownStep(catalog, [code]);
    assert [code][1..] == [];
  }
}
