/** The position-keyed XOR stream of `hamcall.dat`, `hci.dat` and `counts.dat`. */
module Cipher {
  import opened Ascii
  import Bits

  const PERIOD: nat := 101
  const TWO63: nat := 0x8000_0000_0000_0000
  const TWO64: nat := 0x1_0000_0000_0000_0000

  type StreamKey = k: int | 0 <= k < 101

  function Xor(a: Byte, b: Byte): Byte {
    Bits.XorByte(a, b);
    Bits.Xor(a, b)
  }

  function Unmask(encoded: Byte, key: StreamKey): Byte { Xor(Xor(encoded, 7), key) }

  /** One byte at its absolute file offset. */
  function DecodeByte(offset: nat, encoded: Byte): Byte { Unmask(encoded, (offset + 4) % PERIOD) }

  /** The simple decoder: every byte on its own, by absolute offset. */
  function DecodeAt(offset: nat, raw: Bytes): (r: Bytes)
    ensures |r| == |raw|
    ensures forall i | 0 <= i < |r| :: r[i] == DecodeByte(offset + i, raw[i])
  {
    seq(|raw|, i requires 0 <= i < |raw| => DecodeByte(offset + i, raw[i]))
  }

  /** A stream whose key starts at `key` and counts up modulo 101. */
  function KeyStream(raw: Bytes, key: StreamKey): (r: Bytes)
    ensures |r| == |raw|
    ensures forall i | 0 <= i < |r| :: r[i] == Unmask(raw[i], (key + i) % PERIOD)
  {
    seq(|raw|, i requires 0 <= i < |raw| => Unmask(raw[i], (key + i) % PERIOD))
  }

  /** The cast `offset as i64`. */
  function AsI64(offset: nat): int
    requires offset < TWO64
  {
    if offset < TWO63 then offset else offset - TWO64
  }

  /** A sum that leaves the `i64` range at the top wraps around. */
  function WrapI64(sum: int): int { if sum < TWO63 then sum else sum - TWO64 }

  /** The first key of a slice: `rem_euclid(101)` on wrapping signed 64-bit arithmetic. */
  function StartKey(offset: nat, phase: Byte): StreamKey
    requires offset < TWO64
  {
    WrapI64(1 - AsI64(offset) + phase) % PERIOD
  }

  /** The phase the lookup path derives from a slice's offset. */
  function PhaseFor(offset: nat): (phase: Byte)
    ensures phase < PERIOD
  {
    ((offset % PERIOD) * 2 + 3) % PERIOD
  }

  /** A growable byte buffer that callers clear and refill. */
  class ByteBuffer {
    var bytes: Bytes

    constructor ()
      ensures bytes == []
    {
      bytes := [];
    }
  }

  /** The chunked decoder: runs of at most 101 bytes, the key restarting at zero. */
  method DecodePhaseInto(offset: nat, raw: Bytes, phase: Byte, out: ByteBuffer)
    requires offset < TWO64
    modifies out
    ensures out.bytes == KeyStream(raw, StartKey(offset, phase))
  {
    hide Unmask, UnmaskRun;
    out.bytes := [];
    var key: nat := StartKey(offset, phase);
    ghost var start: nat := key;
    var remaining := raw;
    while remaining != []
      invariant key <= 100
      invariant |out.bytes| + |remaining| == |raw| && remaining == raw[|out.bytes|..]
      invariant remaining == [] || key == (start + |out.bytes|) % PERIOD
      invariant forall i | 0 <= i < |out.bytes| :: out.bytes[i] == Unmask(raw[i], (start + i) % PERIOD)
      decreases |remaining|
    {
      var n := if 101 - key < |remaining| then 101 - key else |remaining|;
      ghost var done := |out.bytes|;
      var chunk := UnmaskRun(remaining, key, n);
      RunIsStream(remaining, n, start + done);
      ShiftedKey(start + done, n);
      out.bytes := out.bytes + chunk;
      remaining := remaining[n..];
      key := 0;
    }
    assert out.bytes == KeyStream(raw, start);
  }

  /** One run: the key counts up without wrapping. */
  function UnmaskRun(raw: Bytes, key: nat, n: nat): (chunk: Bytes)
    requires n <= |raw| && key + n <= PERIOD
    ensures |chunk| == n
    ensures forall i | 0 <= i < n :: chunk[i] == Unmask(raw[i], key + i)
  {
    seq(n, i requires 0 <= i < n => Unmask(raw[i], key + i))
  }

  lemma RunIsStream(raw: Bytes, n: nat, base: nat)
    requires n <= |raw| && base % PERIOD + n <= PERIOD
    ensures forall i | 0 <= i < n :: UnmaskRun(raw, base % PERIOD, n)[i] == Unmask(raw[i], (base + i) % PERIOD)
  {
    hide Unmask;
    forall i | 0 <= i < n
      ensures UnmaskRun(raw, base % PERIOD, n)[i] == Unmask(raw[i], (base + i) % PERIOD)
    {
      ShiftedKey(base, i);
    }
  }

  lemma ShiftedKey(base: nat, i: nat)
    requires base % PERIOD + i <= PERIOD
    ensures base % PERIOD + i < PERIOD ==> (base + i) % PERIOD == base % PERIOD + i
    ensures base % PERIOD + i == PERIOD ==> (base + i) % PERIOD == 0
  {
  }

  // ---- properties --------------------------------------------------------

  /** What the byte operation does to the byte 7: it leaves the key of the position, `(offset + 4) mod 101`; */
  lemma SevenShowsKey(offset: nat)
    ensures DecodeByte(offset, 7) == (offset + 4) % 101
  {
    Bits.XorZero(7);
    Bits.XorZero((offset + 4) % PERIOD);
  }

  /** and two bytes at one position differ in the same bits before and after. With the byte 7 this fixes it. */
  lemma DifferenceStays(offset: nat, b: Byte, c: Byte)
    ensures Bits.Xor(DecodeByte(offset, b), DecodeByte(offset, c)) == Bits.Xor(b, c)
  {
    var key := (offset + 4) % PERIOD;
    Bits.XorCancel(Xor(b, 7), Xor(c, 7), key);
    Bits.XorCancel(b, c, 7);
  }

  /** The operation in full: exclusive or with 7 and with the key of the position, bit by bit. */
  lemma DecodedBits(offset: nat, b: Byte, k: nat)
    ensures Bits.Bit(DecodeByte(offset, b), k)
            <==> (Bits.Bit(b, k) != Bits.Bit(7, k)) != Bits.Bit((offset + 4) % 101, k)
  {
    Bits.XorBit(b, 7, k);
    Bits.XorBit(Xor(b, 7), (offset + 4) % PERIOD, k);
  }

  lemma UnmaskInvolution(b: Byte, key: StreamKey)
    ensures Unmask(Unmask(b, key), key) == b
  {
    Bits.XorCommutes(Xor(Xor(b, 7), key), 7, key);
    Bits.XorInvolution(Xor(b, 7), key);
    Bits.XorInvolution(b, 7);
  }

  lemma UnmaskKeyInjective(b: Byte, k: StreamKey, l: StreamKey)
    requires Unmask(b, k) == Unmask(b, l)
    ensures k == l
  {
    Bits.XorInjective(Xor(b, 7), k, l);
  }

  /** Decoding is its own inverse, so the same stream encodes. */
  lemma KeyStreamInvolution(raw: Bytes, key: StreamKey)
    ensures KeyStream(KeyStream(raw, key), key) == raw
  {
    forall i | 0 <= i < |raw| ensures KeyStream(KeyStream(raw, key), key)[i] == raw[i] {
      UnmaskInvolution(raw[i], (key + i) % PERIOD);
    }
  }

  lemma DecodeAtInvolution(offset: nat, raw: Bytes)
    ensures DecodeAt(offset, DecodeAt(offset, raw)) == raw
  {
    forall i | 0 <= i < |raw| ensures DecodeAt(offset, DecodeAt(offset, raw))[i] == raw[i] {
      UnmaskInvolution(raw[i], (offset + i + 4) % PERIOD);
    }
  }

  /** Decoding commutes with slicing once the slice's own offset is used. */
  lemma DecodeSlice(offset: nat, raw: Bytes, lo: nat, hi: nat)
    requires lo <= hi <= |raw|
    ensures DecodeAt(offset, raw)[lo..hi] == DecodeAt(offset + lo, raw[lo..hi])
  {
  }

  lemma ModOf(n: int, q: int, r: nat)
    requires n == 101 * q + r && r < 101
    ensures n % PERIOD == r
  {
  }

  /** 2^64 is no multiple of 101, so a wrapped offset shifts every key. */
  lemma WrapShifts(x: int)
    ensures (x + TWO64) % PERIOD != x % PERIOD
  {
    var q, r := x / PERIOD, x % PERIOD;
    var k := 182641030432767837;
    assert TWO64 == 101 * k + 79;
    if r + 79 < 101 {
      ModOf(x + TWO64, q + k, r + 79);
    } else {
      ModOf(x + TWO64, q + k + 1, r + 79 - 101);
    }
  }

  /** The cast and the wrap cancel, or there is neither, exactly up to 2^63 + 1 + phase. */
  lemma StartKeyExact(offset: nat, phase: Byte)
    requires offset < TWO64
    ensures StartKey(offset, phase) == (1 - offset + phase) % PERIOD <==> offset <= TWO63 + 1 + phase
  {
    WrapShifts(1 - offset + phase);
  }

  lemma ModEqual(a: int, b: int)
    ensures a % PERIOD == b % PERIOD <==> (a - b) % PERIOD == 0
  {
    var qa, ra, qb, rb := a / PERIOD, a % PERIOD, b / PERIOD, b % PERIOD;
    if ra >= rb {
      ModOf(a - b, qa - qb, ra - rb);
    } else {
      ModOf(a - b, qa - qb - 1, ra - rb + 101);
    }
  }

  lemma DerivedPhaseKey(offset: nat, phase: Byte)
    ensures (1 - offset + phase) % PERIOD == (offset + 4) % PERIOD <==> phase % PERIOD == PhaseFor(offset)
  {
    var q, r := offset / PERIOD, offset % PERIOD;
    ModEqual(1 - offset + phase, offset + 4);
    ModEqual(phase, 2 * r + 3);
    ModEqual(phase - 2 * offset - 3, phase - 2 * r - 3);
    ModOf(2 * r - 2 * offset, -2 * q, 0);
  }

  lemma ModShift(base: nat, i: nat)
    ensures (base % PERIOD + i) % PERIOD == (base + i) % PERIOD
  {
  }

  lemma StreamsAgree(offset: nat, raw: Bytes)
    ensures KeyStream(raw, (offset + 4) % PERIOD) == DecodeAt(offset, raw)
  {
    forall i | 0 <= i < |raw|
      ensures KeyStream(raw, (offset + 4) % PERIOD)[i] == DecodeAt(offset, raw)[i]
    {
      ModShift(offset + 4, i);
    }
  }

  lemma StreamsDiffer(offset: nat, raw: Bytes, key: StreamKey)
    requires raw != [] && key != (offset + 4) % PERIOD
    ensures KeyStream(raw, key) != DecodeAt(offset, raw)
  {
    var good := (offset + 4) % PERIOD;
    assert KeyStream(raw, key)[0] == Unmask(raw[0], key);
    assert DecodeAt(offset, raw)[0] == Unmask(raw[0], good);
    if Unmask(raw[0], key) == Unmask(raw[0], good) {
      UnmaskKeyInjective(raw[0], key, good);
    }
  }

  /** With the derived phase the chunked decoder agrees with the per-byte one exactly while the offset
      fits in an `i64`, or exceeds it by so little that the sum wraps back. */
  lemma ChunkedDecodeExact(offset: nat, raw: Bytes)
    requires offset < TWO64 && raw != []
    ensures KeyStream(raw, StartKey(offset, PhaseFor(offset))) == DecodeAt(offset, raw)
            <==> offset <= TWO63 + 1 + PhaseFor(offset)
  {
    var k := StartKey(offset, PhaseFor(offset));
    StartKeyExact(offset, PhaseFor(offset));
    DerivedPhaseKey(offset, PhaseFor(offset));
    if k == (offset + 4) % PERIOD {
      StreamsAgree(offset, raw);
    } else {
      StreamsDiffer(offset, raw, k);
    }
  }

  /** Below 2^63 a phase decodes a non-empty slice correctly exactly when it is the derived one. */
  lemma OnlyDerivedPhaseDecodes(offset: nat, raw: Bytes, phase: Byte)
    requires offset < TWO63 && raw != []
    ensures KeyStream(raw, StartKey(offset, phase)) == DecodeAt(offset, raw)
            <==> phase % PERIOD == PhaseFor(offset)
  {
    var k := StartKey(offset, phase);
    StartKeyExact(offset, phase);
    DerivedPhaseKey(offset, phase);
    if k == (offset + 4) % PERIOD {
      StreamsAgree(offset, raw);
    } else {
      StreamsDiffer(offset, raw, k);
    }
  }

  /** What every lookup does: decode a slice with the phase derived from its offset. */
  lemma DecodeWithDerivedPhase(offset: nat, raw: Bytes)
    requires offset < TWO63
    ensures KeyStream(raw, StartKey(offset, PhaseFor(offset))) == DecodeAt(offset, raw)
  {
    if raw != [] {
      ChunkedDecodeExact(offset, raw);
    }
  }
}
