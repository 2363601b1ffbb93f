/**
 * Fixed-width unsigned integers, bit masks and the little- and big-endian
 * byte layouts used by the descriptor codec, the objm wire protocol and the
 * index file format.
 */
module Bytes {
  type byte = x: int | 0 <= x < 0x100
  type u16 = x: int | 0 <= x < 0x1_0000
  type u32 = x: int | 0 <= x < 0x1_0000_0000
  type u64 = x: int | 0 <= x < 0x1_0000_0000_0000_0000

  const U64_MODULUS: nat := 0x1_0000_0000_0000_0000

  /** The contents of a NUL-terminated C string. */
  type CStr = s: seq<byte> | 0 !in s

  /** 256 to the power n: the number of values n bytes can hold. */
  function Pow256(n: nat): (r: nat)
    ensures r > 0
  {
    if n == 0 then 1 else 256 * Pow256(n - 1)
  }

  /** The n low-order bytes of x, least significant first (htole16/32/64). */
  function LE(x: nat, n: nat): (r: seq<byte>)
    ensures |r| == n
  {
    if n == 0 then [] else [x % 256] + LE(x / 256, n - 1)
  }

  /** The value of a little-endian byte string (le16toh/le32toh/le64toh). */
  function FromLE(s: seq<byte>): (r: nat)
    ensures r < Pow256(|s|)
  {
    if s == [] then 0 else s[0] + 256 * FromLE(s[1..])
  }

  /** The n low-order bytes of x, most significant first (htons/htonl/htobe64). */
  function BE(x: nat, n: nat): (r: seq<byte>)
    ensures |r| == n
  {
    if n == 0 then [] else BE(x / 256, n - 1) + [x % 256]
  }

  /** The value of a big-endian byte string (ntohs/ntohl/be64toh). */
  function FromBE(s: seq<byte>): (r: nat)
    ensures r < Pow256(|s|)
  {
    if s == [] then 0 else 256 * FromBE(s[..|s| - 1]) + s[|s| - 1]
  }

  lemma DivBound(x: nat, p: nat)
    requires x < 256 * p
    ensures x / 256 < p
  {
  }

  lemma {:induction false} FromLEOfLE(x: nat, n: nat)
    requires x < Pow256(n)
    ensures FromLE(LE(x, n)) == x
  {
    if n > 0 {
      var s := LE(x, n);
      assert s[1..] == LE(x / 256, n - 1);
      assert x / 256 < Pow256(n - 1) by { DivBound(x, Pow256(n - 1)); }
      FromLEOfLE(x / 256, n - 1);
    }
  }

  lemma {:induction false} LEOfFromLE(s: seq<byte>)
    ensures LE(FromLE(s), |s|) == s
  {
    if s != [] {
      var x := FromLE(s);
      assert x % 256 == s[0] && x / 256 == FromLE(s[1..]);
      LEOfFromLE(s[1..]);
    }
  }

  lemma {:induction false} FromBEOfBE(x: nat, n: nat)
    requires x < Pow256(n)
    ensures FromBE(BE(x, n)) == x
  {
    if n > 0 {
      var q, r := x / 256, x % 256;
      assert q < Pow256(n - 1) by { DivBound(x, Pow256(n - 1)); }
      FromBEOfBE(q, n - 1);
      var s := BE(x, n);
      assert FromBE(s) == 256 * q + r by {
        assert s == BE(q, n - 1) + [r];
        assert s[..n - 1] == BE(q, n - 1);
      }
    }
  }

  lemma {:induction false} BEOfFromBE(s: seq<byte>)
    ensures BE(FromBE(s), |s|) == s
  {
    if s != [] {
      var x := FromBE(s);
      assert x % 256 == s[|s| - 1] && x / 256 == FromBE(s[..|s| - 1]);
      BEOfFromBE(s[..|s| - 1]);
    }
  }

  /** Pow256 at the widths the sources use. */
  lemma Pow256Widths()
    ensures Pow256(1) == 0x100 && Pow256(2) == 0x1_0000 && Pow256(4) == 0x1_0000_0000
    ensures Pow256(8) == U64_MODULUS
  {
  }

  /** The byte strings of zeros, as written by memset(…, 0, n). */
  function Zeros(n: nat): (r: seq<byte>)
    ensures |r| == n && forall k :: 0 <= k < n ==> r[k] == 0
  {
    seq(n, _ => 0)
  }

  /** x & mask != 0 for a 32-bit field and a 32-bit mask. */
  predicate AnyBits32(x: u32, mask: u32)
  {
    (x as bv32) & (mask as bv32) != 0
  }

  /** x & y on 32-bit values. */
  function And32(x: u32, y: u32): (r: u32)
  {
    ((x as bv32) & (y as bv32)) as int
  }

  /** x | y on 32-bit values. */
  function Or32(x: u32, y: u32): (r: u32)
  {
    ((x as bv32) | (y as bv32)) as int
  }

  /** x & ~y on 32-bit values. */
  function Clear32(x: u32, y: u32): (r: u32)
  {
    ((x as bv32) & !(y as bv32)) as int
  }

  /** x & y on 16-bit values. */
  function And16(x: u16, y: u16): (r: u16)
  {
    ((x as bv16) & (y as bv16)) as int
  }

  /** The 16-bit pattern of And16's result, for reasoning about it bit by bit. */
  lemma And16Bits(x: u16, y: u16)
    ensures And16(x, y) as bv16 == (x as bv16) & (y as bv16)
  {
  }
}
