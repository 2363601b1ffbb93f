/**
 * The fixed 592-byte little-endian wire image of a payload descriptor and
 * the encoder and decoder that move a descriptor to and from it.
 *
 * Layout: version, variant_count, manifest_flags and reserved as four
 * 32-bit words, then all eight variant slots of 72 bytes each, whatever
 * variant_count says.  A slot holds the 32-byte id, capabilities and
 * encoding (32-bit), logical, storage and range-granularity lengths
 * (64-bit), the is_primary byte and seven reserved bytes.
 */
module PayloadWire {
  import opened Bytes
  import opened PayloadSchema

  const VARIANT_WIRE_SIZE: nat := VARIANT_ID_MAX + 4 * 2 + 8 * 3 + 1 + VARIANT_RESERVED
  const DESCRIPTOR_WIRE_SIZE: nat := 4 * 4 + MAX_VARIANTS * VARIANT_WIRE_SIZE

  /** Where slot i starts in the image. */
  function SlotOffset(i: nat): nat
  {
    16 + VARIANT_WIRE_SIZE * i
  }

  // ---------------------------------------------------------------------
  // The image, as a specification

  function EncodeVariant(v: VariantDescriptor): (r: seq<byte>)
    ensures |r| == VARIANT_WIRE_SIZE
  {
    v.variantId + LE(v.capabilities, 4) + LE(v.encoding, 4)
    + LE(v.logicalLength, 8) + LE(v.storageLength, 8) + LE(v.rangeGranularity, 8)
    + [v.isPrimary] + v.reserved
  }

  function EncodeSlots(vs: seq<VariantDescriptor>): (r: seq<byte>)
    ensures |r| == VARIANT_WIRE_SIZE * |vs|
  {
    if vs == [] then [] else EncodeSlots(vs[..|vs| - 1]) + EncodeVariant(vs[|vs| - 1])
  }

  function EncodeHeader(d: PayloadDescriptor): (r: seq<byte>)
    ensures |r| == 16
  {
    LE(d.version, 4) + LE(d.variantCount, 4) + LE(d.manifestFlags, 4) + LE(d.reserved, 4)
  }

  /** The bytes objm_payload_descriptor_encode writes. */
  function Image(d: PayloadDescriptor): (r: seq<byte>)
    ensures |r| == DESCRIPTOR_WIRE_SIZE
  {
    EncodeHeader(d) + EncodeSlots(d.variants)
  }

  /** A little-endian 32-bit field. */
  function Word(s: seq<byte>, at: nat): (r: u32)
    requires at + 4 <= |s|
  {
    Pow256Widths();
    FromLE(s[at..at + 4])
  }

  /** A little-endian 64-bit field. */
  function DoubleWord(s: seq<byte>, at: nat): (r: u64)
    requires at + 8 <= |s|
  {
    Pow256Widths();
    FromLE(s[at..at + 8])
  }

  /** Slot bytes read back, with the id's last byte forced to NUL. */
  function DecodeVariant(s: seq<byte>): (v: VariantDescriptor)
    requires |s| == VARIANT_WIRE_SIZE
  {
    VariantDescriptor(s[..VARIANT_ID_MAX - 1] + [0], Word(s, 32), Word(s, 36),
                      DoubleWord(s, 40), DoubleWord(s, 48), DoubleWord(s, 56), s[64], s[65..72])
  }

  function SlotBytes(s: seq<byte>, i: nat): (r: seq<byte>)
    requires |s| >= DESCRIPTOR_WIRE_SIZE && i < MAX_VARIANTS
    ensures |r| == VARIANT_WIRE_SIZE
  {
    s[SlotOffset(i)..SlotOffset(i) + VARIANT_WIRE_SIZE]
  }

  /** The descriptor a successful objm_payload_descriptor_decode produces from the first 592 bytes of s. */
  function Decoded(s: seq<byte>): PayloadDescriptor
    requires |s| >= DESCRIPTOR_WIRE_SIZE
  {
    PayloadDescriptor(Word(s, 0), Word(s, 4), Word(s, 8), Word(s, 12),
                      seq(MAX_VARIANTS, i requires 0 <= i < MAX_VARIANTS => DecodeVariant(SlotBytes(s, i))))
  }

  /** What decode leaves in the descriptor when the count word exceeds 8. */
  function Partial(s: seq<byte>): PayloadDescriptor
    requires |s| >= 8
  {
    Initial().(version := Word(s, 0), variantCount := Word(s, 4))
  }

  // ---------------------------------------------------------------------
  // Layout and round trip

  lemma {:induction false} EncodeSlotsAt(vs: seq<VariantDescriptor>, i: nat)
    requires i < |vs|
    ensures EncodeSlots(vs)[VARIANT_WIRE_SIZE * i..VARIANT_WIRE_SIZE * (i + 1)] == EncodeVariant(vs[i])
  {
    var init := vs[..|vs| - 1];
    var a, b := EncodeSlots(init), EncodeVariant(vs[|vs| - 1]);
    var lo, hi := VARIANT_WIRE_SIZE * i, VARIANT_WIRE_SIZE * (i + 1);
    assert EncodeSlots(vs) == a + b;
    if i < |vs| - 1 {
      EncodeSlotsAt(init, i);
      assert init[i] == vs[i];
      SliceLeft(a, b, lo, hi);
    } else {
      assert lo == |a| && hi == |a| + |b|;
      SliceRight(a, b);
    }
  }

  lemma SliceLeft(a: seq<byte>, b: seq<byte>, lo: nat, hi: nat)
    requires lo <= hi <= |a|
    ensures (a + b)[lo..hi] == a[lo..hi]
  {
  }

  lemma SliceRight(a: seq<byte>, b: seq<byte>)
    ensures (a + b)[|a|..|a| + |b|] == b
  {
  }

  lemma ImageSlot(d: PayloadDescriptor, i: nat)
    requires i < MAX_VARIANTS
    ensures SlotBytes(Image(d), i) == EncodeVariant(d.variants[i])
  {
    EncodeSlotsAt(d.variants, i);
    assert SlotBytes(Image(d), i) == EncodeSlots(d.variants)[VARIANT_WIRE_SIZE * i..VARIANT_WIRE_SIZE * (i + 1)];
  }

  /**
   * Every field sits at its fixed offset, little-endian: the header words at
   * 0, 4, 8 and 12, and in slot i (at 16 + 72*i) the id at +0, capabilities
   * at +32, encoding at +36, the three lengths at +40, +48 and +56,
   * is_primary at +64 and the reserved bytes at +65.
   */
  lemma ImageLayout(d: PayloadDescriptor, i: nat)
    requires i < MAX_VARIANTS
    ensures var s, b := Image(d), SlotOffset(i);
      && s[0..4] == LE(d.version, 4) && s[4..8] == LE(d.variantCount, 4)
      && s[8..12] == LE(d.manifestFlags, 4) && s[12..16] == LE(d.reserved, 4)
      && s[b..b + 32] == d.variants[i].variantId
      && s[b + 32..b + 36] == LE(d.variants[i].capabilities, 4)
      && s[b + 36..b + 40] == LE(d.variants[i].encoding, 4)
      && s[b + 40..b + 48] == LE(d.variants[i].logicalLength, 8)
      && s[b + 48..b + 56] == LE(d.variants[i].storageLength, 8)
      && s[b + 56..b + 64] == LE(d.variants[i].rangeGranularity, 8)
      && s[b + 64] == d.variants[i].isPrimary
      && s[b + 65..b + 72] == d.variants[i].reserved
  {
    var s, b := Image(d), SlotOffset(i);
    var v := d.variants[i];
    assert s[b..b + VARIANT_WIRE_SIZE] == EncodeVariant(v) by { ImageSlot(d, i); }
    VariantFields(v);
    var e := EncodeVariant(v);
    Within(s, b, e, 0, 32);
    Within(s, b, e, 32, 36);
    Within(s, b, e, 36, 40);
    Within(s, b, e, 40, 48);
    Within(s, b, e, 48, 56);
    Within(s, b, e, 56, 64);
    Within(s, b, e, 65, 72);
    assert s[b + 64] == e[64];
    var h := EncodeHeader(d);
    assert s[0..16] == h;
    HeaderFields(d);
    Within(s, 0, h, 0, 4);
    Within(s, 0, h, 4, 8);
    Within(s, 0, h, 8, 12);
    Within(s, 0, h, 12, 16);
  }

  /** A field of a piece that sits at offset `at` of s sits at at + its own offset. */
  lemma Within(s: seq<byte>, at: nat, piece: seq<byte>, lo: nat, hi: nat)
    requires at + |piece| <= |s| && s[at..at + |piece|] == piece
    requires lo <= hi <= |piece|
    ensures s[at + lo..at + hi] == piece[lo..hi]
  {
    var w := s[at..at + |piece|];
    forall j | 0 <= j < hi - lo
      ensures s[at + lo..at + hi][j] == piece[lo..hi][j]
    {
      assert w[lo + j] == s[at + lo + j];
    }
  }

  /** The fields of one slot at their offsets within it. */
  lemma VariantFields(v: VariantDescriptor)
    ensures var e := EncodeVariant(v);
      && e[0..32] == v.variantId
      && e[32..36] == LE(v.capabilities, 4) && e[36..40] == LE(v.encoding, 4)
      && e[40..48] == LE(v.logicalLength, 8) && e[48..56] == LE(v.storageLength, 8)
      && e[56..64] == LE(v.rangeGranularity, 8)
      && e[64] == v.isPrimary && e[65..72] == v.reserved
  {
    var e := EncodeVariant(v);
    var p1 := v.variantId;
    var p2 := p1 + LE(v.capabilities, 4);
    var p3 := p2 + LE(v.encoding, 4);
    var p4 := p3 + LE(v.logicalLength, 8);
    var p5 := p4 + LE(v.storageLength, 8);
    var p6 := p5 + LE(v.rangeGranularity, 8);
    var p7 := p6 + [v.isPrimary];
    assert e[..|e|] == p7 + v.reserved;
    Piece(e, p7, v.reserved);
    Piece(e, p6, [v.isPrimary]);
    Piece(e, p5, LE(v.rangeGranularity, 8));
    Piece(e, p4, LE(v.storageLength, 8));
    Piece(e, p3, LE(v.logicalLength, 8));
    Piece(e, p2, LE(v.encoding, 4));
    Piece(e, p1, LE(v.capabilities, 4));
    assert e[64] == e[64..65][0];
  }

  /** The last piece of a prefix of e, and the prefix before it. */
  lemma Piece(e: seq<byte>, p: seq<byte>, piece: seq<byte>)
    requires |p| + |piece| <= |e| && e[..|p| + |piece|] == p + piece
    ensures e[|p|..|p| + |piece|] == piece && e[..|p|] == p
  {
    var w := e[..|p| + |piece|];
    assert e[|p|..|p| + |piece|] == w[|p|..];
    assert e[..|p|] == w[..|p|];
  }

  /** The four header words at their offsets. */
  lemma HeaderFields(d: PayloadDescriptor)
    ensures var h := EncodeHeader(d);
      h[0..4] == LE(d.version, 4) && h[4..8] == LE(d.variantCount, 4)
      && h[8..12] == LE(d.manifestFlags, 4) && h[12..16] == LE(d.reserved, 4)
  {
    var a, b, c, e := LE(d.version, 4), LE(d.variantCount, 4), LE(d.manifestFlags, 4), LE(d.reserved, 4);
    var h := EncodeHeader(d);
    assert h == a + b + c + e;
    assert (a + b + c + e)[4..8] == b;
    assert (a + b + c + e)[8..12] == c;
  }

  /** A slot decodes back to itself when its id already ends in NUL. */
  lemma DecodeEncodeVariant(v: VariantDescriptor)
    requires v.variantId[VARIANT_ID_MAX - 1] == 0
    ensures DecodeVariant(EncodeVariant(v)) == v
  {
    var s := EncodeVariant(v);
    Pow256Widths();
    VariantFields(v);
    FromLEOfLE(v.capabilities, 4);
    FromLEOfLE(v.encoding, 4);
    FromLEOfLE(v.logicalLength, 8);
    FromLEOfLE(v.storageLength, 8);
    FromLEOfLE(v.rangeGranularity, 8);
    assert s[..VARIANT_ID_MAX - 1] + [0] == v.variantId;
  }

  /** Every id that decode produces is NUL-terminated. */
  lemma DecodedIdsTerminated(s: seq<byte>, i: nat)
    requires |s| >= DESCRIPTOR_WIRE_SIZE && i < MAX_VARIANTS
    ensures Decoded(s).variants[i].variantId[VARIANT_ID_MAX - 1] == 0
  {
  }

  /**
   * Round trip: decoding the image of a descriptor whose count is at most 8
   * and whose ids end in NUL gives the descriptor back, reserved bytes and
   * unused slots included, and the count word it reads is the count.
   */
  lemma DecodeImage(d: PayloadDescriptor)
    requires d.variantCount <= MAX_VARIANTS as u32
    requires forall i :: 0 <= i < MAX_VARIANTS ==> d.variants[i].variantId[VARIANT_ID_MAX - 1] == 0
    ensures Word(Image(d), 4) == d.variantCount
    ensures Decoded(Image(d)) == d
  {
    var s := Image(d);
    Pow256Widths();
    ImageLayout(d, 0);
    FromLEOfLE(d.version, 4);
    FromLEOfLE(d.variantCount, 4);
    FromLEOfLE(d.manifestFlags, 4);
    FromLEOfLE(d.reserved, 4);
    var e := Decoded(s);
    forall i | 0 <= i < MAX_VARIANTS ensures e.variants[i] == d.variants[i] {
      ImageSlot(d, i);
      DecodeEncodeVariant(d.variants[i]);
    }
  }

  /** The image of a freshly initialised descriptor: 1 in the first byte, zeros elsewhere. */
  lemma InitialImage()
    ensures Image(Initial()) == [1] + Zeros(DESCRIPTOR_WIRE_SIZE - 1)
  {
    var d := Initial();
    LEZero(3);
    LEZero(4);
    LEZero(8);
    assert LE(1, 4) == [1] + LE(0, 3);
    assert EncodeVariant(ZERO_VARIANT) == Zeros(VARIANT_WIRE_SIZE) by {
      ZerosAppend(32, 4);
      ZerosAppend(36, 4);
      ZerosAppend(40, 8);
      ZerosAppend(48, 8);
      ZerosAppend(56, 8);
      ZerosAppend(64, 1);
      ZerosAppend(65, 7);
      assert [0] == Zeros(1);
    }
    ZeroSlots(d.variants);
    assert EncodeHeader(d) == [1] + Zeros(15) by {
      ZerosAppend(3, 4);
      ZerosAppend(7, 4);
      ZerosAppend(11, 4);
    }
    ZerosAppend(15, VARIANT_WIRE_SIZE * MAX_VARIANTS);
  }

  lemma {:induction false} LEZero(n: nat)
    ensures LE(0, n) == Zeros(n)
  {
    if n > 0 {
      LEZero(n - 1);
      assert Zeros(n) == [0] + Zeros(n - 1);
    }
  }

  lemma ZerosAppend(a: nat, b: nat)
    ensures Zeros(a) + Zeros(b) == Zeros(a + b)
  {
  }

  lemma {:induction false} ZeroSlots(vs: seq<VariantDescriptor>)
    requires forall i :: 0 <= i < |vs| ==> vs[i] == ZERO_VARIANT
    requires EncodeVariant(ZERO_VARIANT) == Zeros(VARIANT_WIRE_SIZE)
    ensures EncodeSlots(vs) == Zeros(VARIANT_WIRE_SIZE * |vs|)
  {
    if vs != [] {
      ZeroSlots(vs[..|vs| - 1]);
      ZerosAppend(VARIANT_WIRE_SIZE * (|vs| - 1), VARIANT_WIRE_SIZE);
    }
  }

  // ---------------------------------------------------------------------
  // The C functions, over a caller's buffer

  /** memcpy of `bytes` to buffer[at..], returning the advanced cursor. */
  method Put(buffer: array<byte>, at: nat, bytes: seq<byte>) returns (next: nat)
    requires at + |bytes| <= buffer.Length
    modifies buffer
    ensures next == at + |bytes|
    ensures buffer[..next] == old(buffer[..at]) + bytes
    ensures forall k :: next <= k < buffer.Length ==> buffer[k] == old(buffer[k])
  {
    var k := 0;
    while k < |bytes|
      invariant 0 <= k <= |bytes|
      invariant buffer[..at] == old(buffer[..at])
      invariant buffer[at..at + k] == bytes[..k]
      invariant buffer[at + k..] == old(buffer[at + k..])
    {
      buffer[at + k] := bytes[k];
      k := k + 1;
      assert buffer[at..at + k] == buffer[at..at + k - 1] + [buffer[at + k - 1]];
    }
    next := at + |bytes|;
    assert buffer[..next] == buffer[..at] + buffer[at..next];
  }

  /** memset(buffer, 0, n). */
  method ZeroFill(buffer: array<byte>, n: nat)
    requires n <= buffer.Length
    modifies buffer
    ensures buffer[..n] == Zeros(n)
    ensures forall k :: n <= k < buffer.Length ==> buffer[k] == old(buffer[k])
  {
    var k := 0;
    while k < n
      invariant 0 <= k <= n
      invariant buffer[..k] == Zeros(k)
      invariant buffer[k..] == old(buffer[k..])
    {
      buffer[k] := 0;
      k := k + 1;
      assert buffer[..k] == buffer[..k - 1] + [0];
    }
  }

  /** The body of the encoder's slot loop: the eight field copies of one variant. */
  method PutVariant(buffer: array<byte>, at: nat, v: VariantDescriptor) returns (next: nat)
    requires at + VARIANT_WIRE_SIZE <= buffer.Length
    modifies buffer
    ensures next == at + VARIANT_WIRE_SIZE
    ensures buffer[..next] == old(buffer[..at]) + EncodeVariant(v)
    ensures forall k :: next <= k < buffer.Length ==> buffer[k] == old(buffer[k])
  {
    ghost var before := buffer[..at];
    var p := Put(buffer, at, v.variantId);
    ghost var acc := v.variantId;
    p := PutNext(buffer, before, acc, p, LE(v.capabilities, 4));
    acc := acc + LE(v.capabilities, 4);
    p := PutNext(buffer, before, acc, p, LE(v.encoding, 4));
    acc := acc + LE(v.encoding, 4);
    p := PutNext(buffer, before, acc, p, LE(v.logicalLength, 8));
    acc := acc + LE(v.logicalLength, 8);
    p := PutNext(buffer, before, acc, p, LE(v.storageLength, 8));
    acc := acc + LE(v.storageLength, 8);
    p := PutNext(buffer, before, acc, p, LE(v.rangeGranularity, 8));
    acc := acc + LE(v.rangeGranularity, 8);
    p := PutNext(buffer, before, acc, p, [v.isPrimary]);
    acc := acc + [v.isPrimary];
    p := PutNext(buffer, before, acc, p, v.reserved);
    acc := acc + v.reserved;
    next := p;
  }

  /** One more field copy after `acc` has been written at the end of `before`. */
  method PutNext(buffer: array<byte>, ghost before: seq<byte>, ghost acc: seq<byte>, at: nat, bytes: seq<byte>)
    returns (next: nat)
    requires at == |before| + |acc| && at + |bytes| <= buffer.Length
    requires buffer[..at] == before + acc
    modifies buffer
    ensures next == at + |bytes|
    ensures buffer[..next] == before + (acc + bytes)
    ensures forall k :: next <= k < buffer.Length ==> buffer[k] == old(buffer[k])
  {
    next := Put(buffer, at, bytes);
    assert before + acc + bytes == before + (acc + bytes);
  }

  /** The four header words, written at the start of the buffer. */
  method PutHeader(buffer: array<byte>, d: PayloadDescriptor) returns (next: nat)
    requires 16 <= buffer.Length
    modifies buffer
    ensures next == 16
    ensures buffer[..next] == EncodeHeader(d)
    ensures forall k :: next <= k < buffer.Length ==> buffer[k] == old(buffer[k])
  {
    var p := Put(buffer, 0, LE(d.version, 4));
    ghost var acc := LE(d.version, 4);
    p := PutNext(buffer, [], acc, p, LE(d.variantCount, 4));
    acc := acc + LE(d.variantCount, 4);
    p := PutNext(buffer, [], acc, p, LE(d.manifestFlags, 4));
    acc := acc + LE(d.manifestFlags, 4);
    p := PutNext(buffer, [], acc, p, LE(d.reserved, 4));
    next := p;
  }

  /**
   * objm_payload_descriptor_encode: -1 for a NULL descriptor or buffer, a
   * buffer shorter than 592 bytes, or a count above 8, leaving the buffer
   * alone; otherwise 0 with the image in the first 592 bytes and every later
   * byte untouched.
   */
  method Encode(descriptor: DescriptorCell?, buffer: array?<byte>, bufferLen: nat) returns (rc: int)
    requires buffer != null ==> bufferLen <= buffer.Length
    modifies buffer
    ensures rc == 0 || rc == -1
    ensures rc == -1 <==> descriptor == null || buffer == null || bufferLen < DESCRIPTOR_WIRE_SIZE
                           || descriptor.value.variantCount > MAX_VARIANTS as u32
    ensures rc == -1 && buffer != null ==> buffer[..] == old(buffer[..])
    ensures rc == 0 ==> buffer[..DESCRIPTOR_WIRE_SIZE] == Image(descriptor.value)
                        && buffer[DESCRIPTOR_WIRE_SIZE..] == old(buffer[DESCRIPTOR_WIRE_SIZE..])
  {
    if descriptor == null || buffer == null || bufferLen < DESCRIPTOR_WIRE_SIZE {
      return -1;
    }
    var d := descriptor.value;
    if d.variantCount > MAX_VARIANTS as u32 {
      return -1;
    }
    ZeroFill(buffer, DESCRIPTOR_WIRE_SIZE);
    var p := PutHeader(buffer, d);
    PutSlots(buffer, d);
    assert buffer[DESCRIPTOR_WIRE_SIZE..] == old(buffer[DESCRIPTOR_WIRE_SIZE..]);
    rc := 0;
  }

  /** The encoder's loop over all eight slots, after the header. */
  method PutSlots(buffer: array<byte>, d: PayloadDescriptor)
    requires DESCRIPTOR_WIRE_SIZE <= buffer.Length
    requires buffer[..16] == EncodeHeader(d)
    modifies buffer
    ensures buffer[..DESCRIPTOR_WIRE_SIZE] == Image(d)
    ensures forall k :: DESCRIPTOR_WIRE_SIZE <= k < buffer.Length ==> buffer[k] == old(buffer[k])
  {
    var p := 16;
    assert buffer[..p] == EncodeHeader(d) + EncodeSlots(d.variants[..0]);
    for i := 0 to MAX_VARIANTS
      invariant p == SlotOffset(i)
      invariant buffer[..p] == EncodeHeader(d) + EncodeSlots(d.variants[..i])
      invariant forall k :: DESCRIPTOR_WIRE_SIZE <= k < buffer.Length ==> buffer[k] == old(buffer[k])
    {
      p := PutSlot(buffer, d, i, p);
    }
    assert d.variants[..MAX_VARIANTS] == d.variants;
  }

  /** One round of the slot loop: slot i is written right after the header and slots 0..i-1. */
  method PutSlot(buffer: array<byte>, d: PayloadDescriptor, i: nat, p: nat) returns (next: nat)
    requires i < MAX_VARIANTS && p == SlotOffset(i) && DESCRIPTOR_WIRE_SIZE <= buffer.Length
    requires buffer[..p] == EncodeHeader(d) + EncodeSlots(d.variants[..i])
    modifies buffer
    ensures next == SlotOffset(i + 1)
    ensures buffer[..next] == EncodeHeader(d) + EncodeSlots(d.variants[..i + 1])
    ensures forall k :: DESCRIPTOR_WIRE_SIZE <= k < buffer.Length ==> buffer[k] == old(buffer[k])
  {
    SlotsStep(EncodeHeader(d), d.variants, i);
    next := PutVariant(buffer, p, d.variants[i]);
  }

  /** Writing slot i after the header and slots 0..i-1 gives the header and slots 0..i. */
  lemma SlotsStep(h: seq<byte>, vs: seq<VariantDescriptor>, i: nat)
    requires i < |vs|
    ensures (h + EncodeSlots(vs[..i])) + EncodeVariant(vs[i]) == h + EncodeSlots(vs[..i + 1])
  {
    assert vs[..i + 1][..i] == vs[..i];
  }

  lemma SliceOfSlice(s: seq<byte>, at: nat, n: nat, lo: nat, hi: nat)
    requires at + n <= |s| && lo <= hi <= n
    ensures s[at..at + n][lo..hi] == s[at + lo..at + hi]
  {
    var l, r := s[at..at + n][lo..hi], s[at + lo..at + hi];
    assert |l| == |r|;
    forall j | 0 <= j < |l|
      ensures l[j] == r[j]
    {
    }
  }

  /** The body of the decoder's slot loop: the field copies of one variant, id terminated. */
  method GetVariant(buffer: array<byte>, at: nat) returns (v: VariantDescriptor, next: nat)
    requires at + VARIANT_WIRE_SIZE <= buffer.Length
    ensures next == at + VARIANT_WIRE_SIZE
    ensures v == DecodeVariant(buffer[at..next])
  {
    Pow256Widths();
    ghost var slot := buffer[at..at + VARIANT_WIRE_SIZE];
    var p := at;
    var id := buffer[p..p + VARIANT_ID_MAX];
    id := id[VARIANT_ID_MAX - 1 := 0];
    p := p + VARIANT_ID_MAX;
    var capabilities := FromLE(buffer[p..p + 4]);
    p := p + 4;
    var encoding := FromLE(buffer[p..p + 4]);
    p := p + 4;
    var logical := FromLE(buffer[p..p + 8]);
    p := p + 8;
    var storage := FromLE(buffer[p..p + 8]);
    p := p + 8;
    var granularity := FromLE(buffer[p..p + 8]);
    p := p + 8;
    var primary := buffer[p];
    p := p + 1;
    var reserved := buffer[p..p + VARIANT_RESERVED];
    p := p + VARIANT_RESERVED;
    v := VariantDescriptor(id, capabilities, encoding, logical, storage, granularity, primary, reserved);
    assert slot[..VARIANT_ID_MAX - 1] + [0] == id;
    SliceOfSlice(buffer[..], at, VARIANT_WIRE_SIZE, 32, 36);
    SliceOfSlice(buffer[..], at, VARIANT_WIRE_SIZE, 36, 40);
    SliceOfSlice(buffer[..], at, VARIANT_WIRE_SIZE, 40, 48);
    SliceOfSlice(buffer[..], at, VARIANT_WIRE_SIZE, 48, 56);
    SliceOfSlice(buffer[..], at, VARIANT_WIRE_SIZE, 56, 64);
    SliceOfSlice(buffer[..], at, VARIANT_WIRE_SIZE, 65, 72);
    next := p;
  }

  /**
   * objm_payload_descriptor_decode: -1 with the descriptor untouched for a
   * NULL argument or a buffer shorter than 592 bytes; -1 with only the version
   * and count set over an initialised descriptor when the count word exceeds
   * 8; otherwise 0 with the decoded descriptor.
   */
  method Decode(buffer: array?<byte>, bufferLen: nat, descriptor: DescriptorCell?) returns (rc: int)
    requires buffer != null ==> bufferLen <= buffer.Length
    modifies descriptor
    ensures rc == 0 || rc == -1
    ensures buffer == null || descriptor == null || bufferLen < DESCRIPTOR_WIRE_SIZE ==>
      rc == -1 && (descriptor != null ==> descriptor.value == old(descriptor.value))
    ensures buffer != null && descriptor != null && bufferLen >= DESCRIPTOR_WIRE_SIZE ==>
      if Word(buffer[..], 4) > MAX_VARIANTS as u32
      then rc == -1 && descriptor.value == Partial(buffer[..])
      else rc == 0 && descriptor.value == Decoded(buffer[..])
  {
    if buffer == null || descriptor == null || bufferLen < DESCRIPTOR_WIRE_SIZE {
      return -1;
    }
    ghost var s := buffer[..];
    Pow256Widths();
    Init(descriptor);
    descriptor.value := descriptor.value.(version := FromLE(buffer[0..4]));
    descriptor.value := descriptor.value.(variantCount := FromLE(buffer[4..8]));
    if descriptor.value.variantCount > MAX_VARIANTS as u32 {
      return -1;
    }
    descriptor.value := descriptor.value.(manifestFlags := FromLE(buffer[8..12]));
    descriptor.value := descriptor.value.(reserved := FromLE(buffer[12..16]));
    var p := 16;
    for i := 0 to MAX_VARIANTS
      invariant p == SlotOffset(i)
      invariant descriptor.value.version == Word(s, 0) && descriptor.value.variantCount == Word(s, 4)
      invariant descriptor.value.manifestFlags == Word(s, 8) && descriptor.value.reserved == Word(s, 12)
      invariant forall j :: 0 <= j < i ==> descriptor.value.variants[j] == DecodeVariant(SlotBytes(s, j))
    {
      var v;
      v, p := GetVariant(buffer, p);
      descriptor.value := descriptor.value.(variants := descriptor.value.variants[i := v]);
    }
    assert descriptor.value.variants == Decoded(s).variants;
    rc := 0;
  }
}
