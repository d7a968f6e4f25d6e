/** Exclusive or on machine words, bit by bit. */
module Bits {

  predicate Odd(n: nat) { n % 2 == 1 }

  function Pow2(w: nat): (p: nat)
    ensures p >= 1
  {
    if w == 0 then 1 else 2 * Pow2(w - 1)
  }

  /** `a ^ b`: the lowest bits differ or not, and so on upwards. */
  function Xor(a: nat, b: nat): nat
    decreases a + b
  {
    if a == 0 && b == 0 then 0
    else 2 * Xor(a / 2, b / 2) + (if Odd(a) != Odd(b) then 1 else 0)
  }

  lemma XorHalves(a: nat, b: nat)
    ensures Xor(a, b) / 2 == Xor(a / 2, b / 2)
    ensures Odd(Xor(a, b)) == (Odd(a) != Odd(b))
  {
  }

  lemma SameHalves(x: nat, y: nat)
    requires x / 2 == y / 2 && Odd(x) == Odd(y)
    ensures x == y
  {
  }

  /** Bit `k` of a number. */
  predicate Bit(n: nat, k: nat) { if k == 0 then Odd(n) else Bit(n / 2, k - 1) }

  /** A bit is set exactly when the two differ in it. */
  lemma {:induction false} XorBit(a: nat, b: nat, k: nat)
    ensures Bit(Xor(a, b), k) <==> Bit(a, k) != Bit(b, k)
    decreases k
  {
    XorHalves(a, b);
    if k > 0 {
      XorBit(a / 2, b / 2, k - 1);
    }
  }

  predicate DifferAt(a: nat, b: nat, n: nat)
    requires n > 0
  {
    Odd(a / n) != Odd(b / n)
  }

  /** What the bit of `a ^ b` with this weight is worth. */
  function BitWorth(a: nat, b: nat, n: nat): nat
    requires n > 0
  {
    if DifferAt(a, b, n) then n else 0
  }

  /** `a ^ b` for a `b` of five bits: all above them is that of `a`. */
  function XorLow(a: nat, b: nat): nat {
    32 * (a / 32) + BitWorth(a, b, 16) + BitWorth(a, b, 8) + BitWorth(a, b, 4) + BitWorth(a, b, 2) + BitWorth(a, b, 1)
  }

  lemma XorIsLow(a: nat, b: nat)
    requires b < 32
    ensures Xor(a, b) == XorLow(a, b)
  {
    hide Xor, BitWorth, ShiftedXor;
    forall n | n in {1, 2, 4, 8, 16} ensures ShiftedXor(a, b, n) == ShiftedXor(a, b, 2 * n) + BitWorth(a, b, n) {
      HalfAgain(a, n);
      HalfAgain(b, n);
      ShiftXor(a, b, n);
    }
    AllBits(a, b);
    NoLowBits(a, b);
  }

  lemma AllBits(a: nat, b: nat)
    ensures ShiftedXor(a, b, 1) == Xor(a, b)
  {
    hide Xor;
  }

  lemma NoLowBits(a: nat, b: nat)
    requires b < 32
    ensures ShiftedXor(a, b, 32) == 32 * (a / 32)
  {
    hide Xor;
    XorNothing(a / 32);
  }

  /** `a ^ b` without the bits below `n`. */
  function ShiftedXor(a: nat, b: nat, n: nat): nat
    requires n > 0
  {
    n * Xor(a / n, b / n)
  }

  lemma ShiftXor(a: nat, b: nat, n: nat)
    requires n > 0 && a / n / 2 == a / (2 * n) && b / n / 2 == b / (2 * n)
    ensures ShiftedXor(a, b, n) == ShiftedXor(a, b, 2 * n) + BitWorth(a, b, n)
  {
    hide Xor, Odd;
    XorStep(a / n, b / n);
    OneMoreBit(n, Xor(a / n, b / n), Xor(a / n / 2, b / n / 2), DifferAt(a, b, n));
  }

  lemma OneMoreBit(n: nat, x: nat, y: nat, d: bool)
    requires x == 2 * y + if d then 1 else 0
    ensures n * x == 2 * n * y + if d then n else 0
  {
  }

  lemma HalfAgain(a: nat, n: nat)
    requires n in {1, 2, 4, 8, 16}
    ensures a / n / 2 == a / (2 * n)
  {
  }

  lemma XorStep(a: nat, b: nat)
    ensures Xor(a, b) == 2 * Xor(a / 2, b / 2) + if Odd(a) != Odd(b) then 1 else 0
  {
  }

  lemma {:induction false} XorNothing(a: nat)
    ensures Xor(a, 0) == a
  {
    if a > 0 {
      XorNothing(a / 2);
    }
  }

  lemma {:induction false} XorZero(a: nat)
    ensures Xor(0, a) == a && Xor(a, a) == 0
  {
    if a > 0 {
      XorZero(a / 2);
    }
  }

  /** A common operand cancels. */
  lemma {:induction false} XorCancel(a: nat, b: nat, c: nat)
    ensures Xor(Xor(a, c), Xor(b, c)) == Xor(a, b)
    decreases a + b + c
  {
    if a + b + c > 0 {
      var x, y := Xor(a, c), Xor(b, c);
      XorHalves(a, c);
      XorHalves(b, c);
      XorHalves(x, y);
      XorHalves(a, b);
      XorCancel(a / 2, b / 2, c / 2);
      SameHalves(Xor(x, y), Xor(a, b));
    }
  }

  lemma {:induction false} XorBound(a: nat, b: nat, w: nat)
    requires a < Pow2(w) && b < Pow2(w)
    ensures Xor(a, b) < Pow2(w)
  {
    if w > 0 {
      XorBound(a / 2, b / 2, w - 1);
    }
  }

  lemma {:induction false} XorInvolution(a: nat, b: nat)
    ensures Xor(Xor(a, b), b) == a
    decreases a + b
  {
    if a + b > 0 {
      XorHalves(a, b);
      XorHalves(Xor(a, b), b);
      XorInvolution(a / 2, b / 2);
      SameHalves(Xor(Xor(a, b), b), a);
    }
  }

  lemma {:induction false} XorCommutes(a: nat, b: nat, c: nat)
    ensures Xor(Xor(a, b), c) == Xor(Xor(a, c), b)
    decreases a + b + c
  {
    if a + b + c > 0 {
      var x, y := Xor(a, b), Xor(a, c);
      XorHalves(a, b);
      XorHalves(a, c);
      XorHalves(x, c);
      XorHalves(y, b);
      XorCommutes(a / 2, b / 2, c / 2);
      SameHalves(Xor(x, c), Xor(y, b));
    }
  }

  lemma {:induction false} XorInjective(a: nat, b: nat, c: nat)
    requires Xor(a, b) == Xor(a, c)
    ensures b == c
    decreases a + b + c
  {
    if a + b + c > 0 {
      XorHalves(a, b);
      XorHalves(a, c);
      XorInjective(a / 2, b / 2, c / 2);
      SameHalves(b, c);
    }
  }

  /** Bytes stay bytes. */
  lemma XorByte(a: nat, b: nat)
    requires a < 256 && b < 256
    ensures Xor(a, b) < 256
  {
    assert Pow2(8) == 256;
    XorBound(a, b, 8);
  }
}
