/**
 * Bitwise operations on unbounded naturals, defined bit by bit from the least
 * significant end.  The index module uses them for the FNV-1a hash, the
 * power-of-two rounding and the bucket mask; keeping them on `nat` lets the
 * proofs about them use ordinary arithmetic induction.
 */
module Bits {
  /** 2 to the power k. */
  function Pow2(k: nat): (r: nat)
    ensures r >= 1
  {
    if k == 0 then 1 else 2 * Pow2(k - 1)
  }

  /** r is 1, 2, 4, 8, … */
  predicate IsPowerOfTwo(r: nat)
  {
    r == 1 || (r >= 2 && r % 2 == 0 && IsPowerOfTwo(r / 2))
  }

  lemma {:induction false} Pow2IsPowerOfTwo(k: nat)
    ensures IsPowerOfTwo(Pow2(k))
  {
    if k > 0 {
      Pow2IsPowerOfTwo(k - 1);
    }
  }

  /** a | b */
  function Or(a: nat, b: nat): nat
    decreases a
  {
    if a == 0 then b
    else if b == 0 then a
    else 2 * Or(a / 2, b / 2) + (if a % 2 == 1 || b % 2 == 1 then 1 else 0)
  }

  /** a & b */
  function And(a: nat, b: nat): nat
    decreases a
  {
    if a == 0 || b == 0 then 0
    else 2 * And(a / 2, b / 2) + (if a % 2 == 1 && b % 2 == 1 then 1 else 0)
  }

  /** a ^ b */
  function Xor(a: nat, b: nat): nat
    decreases a
  {
    if a == 0 then b
    else if b == 0 then a
    else 2 * Xor(a / 2, b / 2) + (if a % 2 != b % 2 then 1 else 0)
  }

  /** a >> k: k halvings. */
  function Shr(a: nat, k: nat): nat
  {
    if k == 0 then a else Shr(a / 2, k - 1)
  }

  /** The number of significant bits of x: 0 for 0, else one more than the index of the top set bit. */
  function BitLen(x: nat): nat
  {
    if x == 0 then 0 else 1 + BitLen(x / 2)
  }

  lemma {:induction false} Pow2Add(a: nat, b: nat)
    ensures Pow2(a + b) == Pow2(a) * Pow2(b)
  {
    if a > 0 {
      Pow2Add(a - 1, b);
      assert Pow2(a + b) == 2 * Pow2(a - 1 + b);
    }
  }

  lemma {:induction false} Pow2Monotone(a: nat, b: nat)
    requires a <= b
    ensures Pow2(a) <= Pow2(b)
  {
    if a < b {
      Pow2Monotone(a, b - 1);
    }
  }

  /** x lies between the powers of two around its top bit. */
  lemma {:induction false} BitLenBounds(x: nat)
    ensures x < Pow2(BitLen(x))
    ensures x > 0 ==> BitLen(x) >= 1 && Pow2(BitLen(x) - 1) <= x
  {
    if x > 0 {
      BitLenBounds(x / 2);
    }
  }

  lemma {:induction false} BitLenAtMost(x: nat, k: nat)
    requires x < Pow2(k)
    ensures BitLen(x) <= k
  {
    if x > 0 {
      assert k > 0;
      BitLenAtMost(x / 2, k - 1);
    }
  }

  lemma {:induction false} BitLenAbove(x: nat, k: nat)
    requires Pow2(k) <= x
    ensures k < BitLen(x)
  {
    if k > 0 {
      BitLenAbove(x / 2, k - 1);
    }
  }

  /** Neither operand's bits are lost: a | b covers both. */
  lemma {:induction false} OrAtLeast(a: nat, b: nat)
    ensures Or(a, b) >= a && Or(a, b) >= b
    decreases a
  {
    if a != 0 && b != 0 {
      OrAtLeast(a / 2, b / 2);
    }
  }

  /** a | b sets no bit at or above k when neither operand does. */
  lemma {:induction false} OrBound(a: nat, b: nat, k: nat)
    requires a < Pow2(k) && b < Pow2(k)
    ensures Or(a, b) < Pow2(k)
  {
    if a != 0 && b != 0 {
      OrBound(a / 2, b / 2, k - 1);
    }
  }

  /** The powers of two at the top of 32- and 64-bit words. */
  lemma Pow2Top()
    ensures Pow2(63) == 0x8000_0000_0000_0000 && Pow2(64) == 0x1_0000_0000_0000_0000
  {
    Pow2Of32();
    Pow2Add(32, 32);
    Pow2Add(31, 32);
    assert Pow2(32) == 2 * Pow2(31);
  }

  lemma Pow2Of32()
    ensures Pow2(32) == 0x1_0000_0000
  {
    Pow2Add(8, 8);
    Pow2Add(16, 16);
  }

  /** Division by a positive d is determined by any quotient and remainder in range. */
  lemma DivModUnique(h: int, d: int, t: int, r: int)
    requires d >= 1 && h == d * t + r && 0 <= r < d
    ensures h / d == t && h % d == r
  {
    var q, m := h / d, h % d;
    assert h == d * q + m;
    assert d * (t - q) == m - r by {
      assert d * (t - q) == d * t - d * q;
    }
    if t > q {
      MulAtLeast(d, t - q);
    } else if t < q {
      MulAtLeast(d, q - t);
    }
  }

  /** x - m * q and x leave the same remainder modulo m. */
  lemma ModShift(x: int, m: int, q: int)
    requires m >= 1
    ensures (x - m * q) % m == x % m
  {
    var t, r := x / m, x % m;
    assert x - m * q == m * (t - q) + r by {
      assert m * (t - q) == m * t - m * q;
    }
    DivModUnique(x - m * q, m, t - q, r);
  }

  lemma MulAtLeast(d: int, x: int)
    requires d >= 0 && x >= 1
    ensures d * x >= d
  {
    assert d * x == d * (x - 1) + d;
    assert d * (x - 1) >= 0;
  }

  /** Halving hi * 2^k + lo drops the low bit of lo. */
  lemma Halve(hi: nat, lo: nat, k: nat)
    requires k >= 1
    ensures (hi * Pow2(k) + lo) / 2 == hi * Pow2(k - 1) + lo / 2
    ensures (hi * Pow2(k) + lo) % 2 == lo % 2
  {
    assert hi * Pow2(k) == 2 * (hi * Pow2(k - 1));
    DivModUnique(hi * Pow2(k) + lo, 2, hi * Pow2(k - 1) + lo / 2, lo % 2);
  }

  /** When b fits in the low k bits, a | b leaves a's bits above k alone. */
  lemma {:induction false} OrSplit(hi: nat, lo: nat, b: nat, k: nat)
    requires lo < Pow2(k) && b < Pow2(k)
    ensures Or(hi * Pow2(k) + lo, b) == hi * Pow2(k) + Or(lo, b)
  {
    MulNat(hi, Pow2(k));
    var a := hi * Pow2(k) + lo;
    if k == 0 {
      assert lo == 0 && b == 0;
    } else if b == 0 {
    } else if a == 0 {
      assert lo == 0;
    } else {
      Halve(hi, lo, k);
      OrSplit(hi, lo / 2, b / 2, k - 1);
      OrSplitStep(hi, lo, b, Pow2(k), Pow2(k - 1));
    }
  }

  lemma MulNat(x: nat, y: nat)
    ensures x * y >= 0
  {
  }

  /** The inductive step of OrSplit, with 2^k and 2^(k-1) passed as P and p. */
  lemma OrSplitStep(hi: nat, lo: nat, b: nat, P: nat, p: nat)
    requires p >= 1 && P == 2 * p && hi * P + lo > 0 && b > 0
    requires (hi * P + lo) / 2 == hi * p + lo / 2 && (hi * P + lo) % 2 == lo % 2
    requires Or(hi * p + lo / 2, b / 2) == hi * p + Or(lo / 2, b / 2)
    ensures Or(hi * P + lo, b) == hi * P + Or(lo, b)
  {
    assert hi * P == 2 * (hi * p);
    if lo == 0 {
      assert Or(lo / 2, b / 2) == b / 2;
    }
  }

  /** Masking with 2^k - 1 keeps the remainder modulo 2^k. */
  lemma {:induction false} AndLowMask(h: nat, k: nat)
    ensures And(h, Pow2(k) - 1) == h % Pow2(k)
  {
    var P := Pow2(k);
    if k == 0 {
      assert P - 1 == 0 && h % P == 0;
    } else if h == 0 {
      assert And(h, P - 1) == 0;
    } else {
      AndLowMask(h / 2, k - 1);
      AndLowMaskStep(h, P, Pow2(k - 1));
    }
  }

  /** The mask 2p - 1 keeps h modulo 2p once the mask p - 1 keeps h / 2 modulo p. */
  lemma AndLowMaskStep(h: nat, P: nat, p: nat)
    requires h > 0 && p >= 1 && P == 2 * p
    requires And(h / 2, p - 1) == (h / 2) % p
    ensures And(h, P - 1) == h % P
  {
    AndOddMask(h, P, p);
    DivModSplit(h, P, p);
  }

  /** One step of the mask P - 1 = 2p - 1: its low bit keeps h's, the rest is the mask p - 1 on h / 2. */
  lemma AndOddMask(h: nat, P: nat, p: nat)
    requires h > 0 && p >= 1 && P == 2 * p
    ensures And(h, P - 1) == 2 * And(h / 2, p - 1) + h % 2
  {
    DivModUnique(P - 1, 2, p - 1, 1);
  }

  lemma DivModSplit(h: nat, P: nat, p: nat)
    requires p >= 1 && P == 2 * p
    ensures h % P == 2 * ((h / 2) % p) + h % 2
  {
    var q := h / 2;
    var t := q / p;
    assert h == P * t + (2 * (q % p) + h % 2);
    DivModUnique(h, P, t, 2 * (q % p) + h % 2);
  }

  /** A right shift by k is division by 2^k, so it never grows its operand. */
  lemma {:induction false} ShrIsDiv(a: nat, k: nat)
    ensures Shr(a, k) == a / Pow2(k) && Shr(a, k) <= a
  {
    if k > 0 {
      ShrIsDiv(a / 2, k - 1);
      HalveThenDivide(a, Pow2(k), Pow2(k - 1));
    }
  }

  /** Halving and then dividing by p is dividing by 2p. */
  lemma HalveThenDivide(a: nat, P: nat, p: nat)
    requires p >= 1 && P == 2 * p
    ensures a / P == (a / 2) / p
  {
    var t, r := (a / 2) / p, (a / 2) % p;
    assert a / 2 == p * t + r;
    assert a == P * t + (2 * r + a % 2);
    DivModUnique(a, P, t, 2 * r + a % 2);
  }
}
