/**
 * The index's hashing helpers: the FNV-1a string hash, the power-of-two
 * rounding of the bucket count, and the bucket mask `hash & (buckets - 1)`.
 * All arithmetic is on 64-bit unsigned values with the wrap-around written out.
 */
module IndexHash {
  import opened Bytes
  import opened Bits

  const FNV_OFFSET_BASIS: u64 := 14695981039346656037
  const FNV_PRIME: u64 := 1099511628211

  /** One FNV-1a round: xor in the byte, then multiply modulo 2^64. */
  function FnvStep(h: u64, b: byte): (r: u64)
  {
    (Xor(h, b) * FNV_PRIME) % U64_MODULUS
  }

  /** The hash after folding every byte of s into h, first byte first. */
  function FnvFrom(h: u64, s: seq<byte>): u64
  {
    if s == [] then h else FnvStep(FnvFrom(h, s[..|s| - 1]), s[|s| - 1])
  }

  /** FNV-1a of a byte string. */
  function Fnv1a(s: seq<byte>): u64
  {
    FnvFrom(FNV_OFFSET_BASIS, s)
  }

  /** The bytes of a C string: everything before the first NUL. */
  function UpToNul(s: seq<byte>): (r: seq<byte>)
    ensures r <= s && 0 !in r
    ensures |r| < |s| ==> s[|r|] == 0
  {
    if s == [] then []
    else if s[0] == 0 then []
    else [s[0]] + UpToNul(s[1..])
  }

  lemma {:induction false} UpToNulOfNulFree(s: seq<byte>)
    requires 0 !in s
    ensures UpToNul(s) == s
  {
    if s != [] {
      UpToNulOfNulFree(s[1..]);
    }
  }

  /**
   * index_hash_string: the loop stops at the terminating NUL, so the hash is
   * that of the C string s holds.
   */
  method HashString(s: seq<byte>) returns (h: u64)
    ensures h == Fnv1a(UpToNul(s))
  {
    h := FNV_OFFSET_BASIS;
    var i := 0;
    while i < |s| && s[i] != 0
      invariant 0 <= i <= |s| && 0 !in s[..i]
      invariant h == Fnv1a(s[..i])
    {
      assert s[..i + 1][..i] == s[..i];
      h := FnvStep(h, s[i]);
      i := i + 1;
    }
    UpToNulPrefix(s, i);
  }

  /** A NUL-free prefix ending at a NUL or at the end is the C string. */
  lemma {:induction false} UpToNulPrefix(s: seq<byte>, i: nat)
    requires i <= |s| && 0 !in s[..i] && (i == |s| || s[i] == 0)
    ensures UpToNul(s) == s[..i]
  {
    if i > 0 {
      assert s[1..][..i - 1] == s[1..i];
      assert 0 !in s[1..][..i - 1] by {
        assert forall k | 0 <= k < i - 1 :: s[1..][k] == s[..i][k + 1];
      }
      UpToNulPrefix(s[1..], i - 1);
    }
  }

  /** Hashing is incremental: the hash of a + b continues from the hash of a. */
  lemma {:induction false} FnvFromAppend(h: u64, a: seq<byte>, b: seq<byte>)
    ensures FnvFrom(h, a + b) == FnvFrom(FnvFrom(h, a), b)
  {
    if b != [] {
      var c := a + b;
      assert c[..|c| - 1] == a + b[..|b| - 1];
      FnvFromAppend(h, a, b[..|b| - 1]);
    } else {
      assert a + b == a;
    }
  }

  /* ---------------------------------------------------------------------- */
  /* index_next_power_of_2                                                   */

  /** m has its top L - j bits below bit L set and nothing at or above bit L. */
  ghost predicate Run(m: nat, L: nat, j: nat)
  {
    j <= L && Pow2(L) - Pow2(j) <= m < Pow2(L)
  }

  lemma DivBelow(m: nat, d: nat, q: nat)
    requires d >= 1 && m < d * q
    ensures m / d < q
  {
  }

  lemma DivAbove(m: nat, d: nat, q: nat)
    requires d >= 1 && m >= d * q
    ensures m / d >= q
  {
    if m / d < q {
      assert m == d * (m / d) + m % d;
      assert d * q - d * (m / d) == d * (q - m / d);
      MulAtLeast(d, q - m / d);
    }
  }

  /**
   * One `n |= n >> d` step: if the top L - j bits are set and the shift d
   * reaches exactly the first clear bit, the run of set bits doubles.
   */
  method SmearStep(m: nat, d: nat, ghost L: nat, ghost j: nat) returns (r: nat)
    requires d >= 1 && Run(m, L, j) && (j + d == L || j == 0)
    ensures r == Or(m, Shr(m, d))
    ensures Run(r, L, if j >= d then j - d else 0)
  {
    if j == 0 {
      SmearFull(m, L, d);
    } else {
      SmearPartial(m, L, j, d);
    }
    r := Or(m, Shr(m, d));
  }

  /** Once every bit below L is set, further steps change nothing. */
  lemma SmearFull(m: nat, L: nat, d: nat)
    requires Run(m, L, 0)
    ensures Run(Or(m, Shr(m, d)), L, 0)
  {
    var b := Shr(m, d);
    ShrIsDiv(m, d);
    OrAtLeast(m, b);
    OrBound(m, b, L);
  }

  lemma SmearPartial(m: nat, L: nat, j: nat, d: nat)
    requires d >= 1 && j >= 1 && Run(m, L, j) && j + d == L
    ensures Run(Or(m, Shr(m, d)), L, if j >= d then j - d else 0)
  {
    var b := Shr(m, d);
    ShrIsDiv(m, d);
    Pow2Add(d, j);
    var D, P := Pow2(d), Pow2(j);
    var hi := D - 1;
    var lo := m - hi * P;
    SplitRun(m, D, P);
    assert m == hi * P + lo;
    OrSplit(hi, lo, b, j);
    assert Or(m, b) == hi * P + Or(lo, b);
    OrBound(lo, b, j);
    OrAtLeast(lo, b);
    ShiftedRun(m, L, j, d);
  }

  /** A value whose run reaches bit j splits into the run and a low part below 2^j. */
  lemma SplitRun(m: nat, D: nat, P: nat)
    requires D >= 1 && P >= 1 && D * P - P <= m < D * P
    ensures (D - 1) * P == D * P - P
    ensures 0 <= m - (D - 1) * P < P
    ensures m / D < P
  {
    DivBelow(m, D, P);
  }

  /** The shifted copy m >> d covers the bits just below m's run. */
  lemma ShiftedRun(m: nat, L: nat, j: nat, d: nat)
    requires d >= 1 && j >= 1 && Run(m, L, j) && j + d == L
    ensures m / Pow2(d) >= Pow2(j) - (if j >= d then Pow2(j - d) else 1)
  {
    Pow2Add(d, j);
    if j >= d {
      Pow2Add(d, j - d);
      ShiftAboveLong(m, Pow2(d), Pow2(j - d));
    } else {
      Pow2Monotone(j, d);
      ShiftAboveShort(m, Pow2(d), Pow2(j));
    }
  }

  lemma ShiftAboveLong(m: nat, D: nat, Q: nat)
    requires D >= 1 && Q >= 1 && m >= D * (D * Q) - D * Q
    ensures m / D >= D * Q - Q
  {
    assert D * (D * Q) - D * Q == D * (D * Q - Q);
    DivAbove(m, D, D * Q - Q);
  }

  lemma ShiftAboveShort(m: nat, D: nat, P: nat)
    requires D >= P >= 1 && m >= D * P - P
    ensures m / D >= P - 1
  {
    assert D * (P - 1) == D * P - D;
    DivAbove(m, D, P - 1);
  }

  lemma BitLenOf64(x: u64)
    ensures BitLen(x) <= 64
  {
    Pow2Top();
    BitLenAtMost(x, 64);
  }

  /** n - 1 on a 64-bit size_t. */
  function Pred64(n: u64): u64
  {
    (n + U64_MODULUS - 1) % U64_MODULUS
  }

  /** The reference value: 2^(bits of n - 1), wrapped to 64 bits. */
  function RoundedUp(n: u64): u64
  {
    Pow2(BitLen(Pred64(n))) % U64_MODULUS
  }

  /** index_next_power_of_2: decrement, smear the top bit downwards, increment. */
  method NextPowerOf2(n: u64) returns (r: u64)
    ensures r == RoundedUp(n)
  {
    var m: nat := Pred64(n);
    ghost var L := BitLen(m);
    BitLenBounds(m);
    ghost var j: nat := if L == 0 then 0 else L - 1;
    assert Run(m, L, j);
    m := SmearStep(m, 1, L, j);
    j := if j >= 1 then j - 1 else 0;
    m := SmearStep(m, 2, L, j);
    j := if j >= 2 then j - 2 else 0;
    m := SmearStep(m, 4, L, j);
    j := if j >= 4 then j - 4 else 0;
    m := SmearStep(m, 8, L, j);
    j := if j >= 8 then j - 8 else 0;
    m := SmearStep(m, 16, L, j);
    j := if j >= 16 then j - 16 else 0;
    m := SmearStep(m, 32, L, j);
    j := if j >= 32 then j - 32 else 0;
    BitLenOf64(Pred64(n));
    SmearedRoundsUp(n, m);
    r := (m + 1) % U64_MODULUS;
  }

  /** Once the whole run below the top bit is set, one more is the rounded value. */
  lemma SmearedRoundsUp(n: u64, m: nat)
    requires Run(m, BitLen(Pred64(n)), 0)
    ensures (m + 1) % U64_MODULUS == RoundedUp(n)
  {
  }

  /**
   * For 1 <= n <= 2^63 the rounding is the least power of two not below n;
   * for 0 and for larger n the 64-bit increment wraps to 0.
   */
  lemma RoundedUpIsLeastPowerOfTwo(n: u64)
    ensures 1 <= n <= 0x8000_0000_0000_0000 ==>
      IsPowerOfTwo(RoundedUp(n)) && n <= RoundedUp(n) && RoundedUp(n) / 2 < n
    ensures n == 0 || n > 0x8000_0000_0000_0000 ==> RoundedUp(n) == 0
  {
    if 1 <= n <= 0x8000_0000_0000_0000 {
      RoundedUpInRange(n);
    } else {
      RoundedUpWraps(n);
    }
  }

  lemma RoundedUpInRange(n: u64)
    requires 1 <= n <= 0x8000_0000_0000_0000
    ensures IsPowerOfTwo(RoundedUp(n)) && n <= RoundedUp(n) && RoundedUp(n) / 2 < n
  {
    Pow2Top();
    var x := Pred64(n);
    assert x == n - 1;
    var L := BitLen(x);
    BitLenBounds(x);
    BitLenAtMost(x, 63);
    Pow2Monotone(L, 63);
    var P := Pow2(L);
    assert P % U64_MODULUS == P;
    Pow2IsPowerOfTwo(L);
    if L > 0 {
      assert P / 2 == Pow2(L - 1);
    }
  }

  lemma RoundedUpWraps(n: u64)
    requires n == 0 || n > 0x8000_0000_0000_0000
    ensures RoundedUp(n) == 0
  {
    Pow2Top();
    var x := Pred64(n);
    assert x >= Pow2(63);
    BitLenBounds(x);
    BitLenAbove(x, 63);
    BitLenAtMost(x, 64);
    assert BitLen(x) == 64;
  }

  /* ---------------------------------------------------------------------- */
  /* Bucket selection                                                        */

  /** hash & (num_buckets - 1) with the 64-bit wrap of num_buckets - 1. */
  function BucketOf(hash: u64, numBuckets: u64): nat
  {
    And(hash, Pred64(numBuckets))
  }

  /** With a power-of-two bucket count the mask is the remainder, so it is a valid bucket. */
  lemma BucketInRange(hash: u64, k: nat)
    requires k <= 63
    ensures Pow2(k) < U64_MODULUS
    ensures BucketOf(hash, Pow2(k)) == hash % Pow2(k) < Pow2(k)
  {
    Pow2Below64(k);
    assert Pred64(Pow2(k)) == Pow2(k) - 1;
    AndLowMask(hash, k);
  }

  lemma Pow2Below64(k: nat)
    requires k <= 63
    ensures Pow2(k) <= 0x8000_0000_0000_0000
  {
    Pow2Top();
    Pow2Monotone(k, 63);
  }

  /** Any bucket count the rounding produces from 1..2^63 is a power of two 2^k, k <= 63. */
  lemma {:induction false} RoundedUpExponent(n: u64)
    requires 1 <= n <= 0x8000_0000_0000_0000
    ensures BitLen(Pred64(n)) <= 63 && RoundedUp(n) == Pow2(BitLen(Pred64(n)))
  {
    Pow2Top();
    BitLenAtMost(Pred64(n), 63);
    Pow2Monotone(BitLen(Pred64(n)), 63);
  }
}
