/**
 * The payload descriptor that objmapper stores beside an object to describe
 * its deliverable variants (identity, gzip, ...), and the validator that
 * decides whether a descriptor may be stored.
 *
 * The descriptor is a fixed C struct: a version, a variant count, manifest
 * flags, a reserved word and eight variant slots.  The validator is a
 * fail-fast chain of guards: it reports the first failure only, as a -1
 * return plus one diagnostic written into the caller's buffer.
 */
module PayloadSchema {
  import opened Bytes
  import opened Wrappers
  import opened CStrings

  const DESCRIPTOR_VERSION: u32 := 1
  const MAX_VARIANTS: nat := 8
  const VARIANT_ID_MAX: nat := 32
  const VARIANT_RESERVED: nat := 7

  // Content encodings.
  const ENCODING_IDENTITY: u32 := 0
  const ENCODING_GZIP: u32 := 1
  const ENCODING_BROTLI: u32 := 2
  const ENCODING_ZSTD: u32 := 3
  const ENCODING_CUSTOM: u32 := 255

  // Delivery capability bits of a variant.
  const CAP_IDENTITY: u32 := 0x01
  const CAP_GZIP: u32 := 0x02
  const CAP_ESI_FLATTENED: u32 := 0x04
  const CAP_RANGE_READY: u32 := 0x08
  const CAP_ZERO_COPY: u32 := 0x10
  const CAP_TLS_OFFLOAD: u32 := 0x20

  // Manifest flags; the validator never reads them.
  const PAYLOAD_FLAG_HAS_VARIANTS: u32 := 0x01
  const PAYLOAD_FLAG_LEGACY_FALLBACK: u32 := 0x02

  type VariantId = s: seq<byte> | |s| == VARIANT_ID_MAX witness Zeros(VARIANT_ID_MAX)
  type VariantReserved = s: seq<byte> | |s| == VARIANT_RESERVED witness Zeros(VARIANT_RESERVED)

  /** One deliverable body: objm_variant_descriptor_t. */
  datatype VariantDescriptor = VariantDescriptor(
    variantId: VariantId,
    capabilities: u32,
    encoding: u32,
    logicalLength: u64,
    storageLength: u64,
    rangeGranularity: u64,
    isPrimary: byte,
    reserved: VariantReserved)

  /** A variant slot after memset(0). */
  const ZERO_VARIANT: VariantDescriptor :=
    VariantDescriptor(Zeros(VARIANT_ID_MAX), 0, 0, 0, 0, 0, 0, Zeros(VARIANT_RESERVED))

  type VariantSlots = s: seq<VariantDescriptor> | |s| == MAX_VARIANTS
    witness seq(MAX_VARIANTS, _ => ZERO_VARIANT)

  /** objm_payload_descriptor_t: all eight slots exist whatever variantCount says. */
  datatype PayloadDescriptor = PayloadDescriptor(
    version: u32,
    variantCount: u32,
    manifestFlags: u32,
    reserved: u32,
    variants: VariantSlots)

  /** The descriptor objm_payload_descriptor_init leaves behind. */
  function Initial(): PayloadDescriptor
  {
    PayloadDescriptor(DESCRIPTOR_VERSION, 0, 0, 0, seq(MAX_VARIANTS, _ => ZERO_VARIANT))
  }

  /**
   * A C struct that functions write through an address.  Init, Copy and the
   * wire decoder overwrite `value` in place.
   */
  class DescriptorCell {
    var value: PayloadDescriptor

    constructor (d: PayloadDescriptor)
      ensures value == d
    {
      value := d;
    }
  }

  /** objm_payload_descriptor_init: zero the struct, then set the version; NULL is ignored. */
  method Init(descriptor: DescriptorCell?)
    modifies descriptor
    ensures descriptor != null ==> descriptor.value == Initial()
  {
    if descriptor == null {
      return;
    }
    descriptor.value := Initial();
  }

  /** objm_payload_descriptor_copy: memcpy of the whole struct; nothing happens if either argument is NULL. */
  method Copy(dst: DescriptorCell?, src: DescriptorCell?)
    modifies dst
    ensures dst != null && src != null ==> dst.value == old(src.value)
    ensures dst == null || src == null ==> dst == null || dst.value == old(dst.value)
  {
    if dst == null || src == null {
      return;
    }
    dst.value := src.value;
  }

  // ---------------------------------------------------------------------
  // The checks, as a specification

  /** Why one variant is rejected, one constructor per guard of validate_variant. */
  datatype VariantFault =
    | IdMissing
    | LogicalLengthZero
    | StorageLengthZero
    | IdentityStorageShort(storage: u64, logical: u64)
    | UnsupportedEncoding(encoding: u32)
    | IdentityCapabilityMismatch
    | GzipCapabilityMismatch
    | RangeGranularityMissing

  /** Why a descriptor is rejected, in the order the validator looks. */
  datatype Fault =
    | NullDescriptor
    | VersionMismatch(version: u32)
    | NoVariants
    | TooManyVariants(count: u32)
    | BadVariant(index: nat, fault: VariantFault)
    | NoPrimary
    | MultiplePrimaries(primaries: nat)

  predicate SupportedEncoding(e: u32)
  {
    e == ENCODING_IDENTITY || e == ENCODING_GZIP || e == ENCODING_BROTLI
    || e == ENCODING_ZSTD || e == ENCODING_CUSTOM
  }

  /** The guard chain of validate_variant: the first guard that fails, or None. */
  function VariantFaultOf(v: VariantDescriptor): Option<VariantFault>
  {
    if v.variantId[0] == 0 then Some(IdMissing)
    else if v.logicalLength == 0 then Some(LogicalLengthZero)
    else if v.storageLength == 0 then Some(StorageLengthZero)
    else if v.encoding == ENCODING_IDENTITY && v.storageLength < v.logicalLength then
      Some(IdentityStorageShort(v.storageLength, v.logicalLength))
    else if !SupportedEncoding(v.encoding) then Some(UnsupportedEncoding(v.encoding))
    else if AnyBits32(v.capabilities, CAP_IDENTITY) && v.encoding != ENCODING_IDENTITY then
      Some(IdentityCapabilityMismatch)
    else if AnyBits32(v.capabilities, CAP_GZIP) && v.encoding != ENCODING_GZIP then
      Some(GzipCapabilityMismatch)
    else if AnyBits32(v.capabilities, CAP_RANGE_READY) && v.rangeGranularity == 0 then
      Some(RangeGranularityMissing)
    else None
  }

  /** The first failing slot at index `from` or later, scanning upwards. */
  function FirstVariantFault(vs: seq<VariantDescriptor>, from: nat): Option<Fault>
    decreases |vs| - from
  {
    if from >= |vs| then None
    else match VariantFaultOf(vs[from])
      case Some(f) => Some(BadVariant(from, f))
      case None => FirstVariantFault(vs, from + 1)
  }

  /** The number of slots with a non-zero is_primary byte. */
  function PrimaryCount(vs: seq<VariantDescriptor>): nat
  {
    if vs == [] then 0
    else PrimaryCount(vs[..|vs| - 1]) + (if vs[|vs| - 1].isPrimary != 0 then 1 else 0)
  }

  /** The slots 0..variantCount-1 that the validator examines. */
  function InUse(d: PayloadDescriptor): seq<VariantDescriptor>
    requires d.variantCount <= MAX_VARIANTS
  {
    d.variants[..d.variantCount]
  }

  /** objm_payload_descriptor_validate on a non-NULL descriptor: None means it returns 0. */
  function Check(d: PayloadDescriptor): Option<Fault>
  {
    if d.version != DESCRIPTOR_VERSION then Some(VersionMismatch(d.version))
    else if d.variantCount == 0 then Some(NoVariants)
    else if d.variantCount > MAX_VARIANTS as u32 then Some(TooManyVariants(d.variantCount))
    else match FirstVariantFault(InUse(d), 0)
      case Some(f) => Some(f)
      case None =>
        var n := PrimaryCount(InUse(d));
        if n == 0 then Some(NoPrimary)
        else if n > 1 then Some(MultiplePrimaries(n))
        else None
  }

  // ---------------------------------------------------------------------
  // An independent statement of what the validator accepts

  /** The conditions a single variant must meet, stated together. */
  predicate AcceptableVariant(v: VariantDescriptor)
  {
    && v.variantId[0] != 0
    && v.logicalLength > 0
    && v.storageLength > 0
    && (v.encoding == ENCODING_IDENTITY ==> v.storageLength >= v.logicalLength)
    && v.encoding in {0, 1, 2, 3, 255}
    && (AnyBits32(v.capabilities, CAP_IDENTITY) ==> v.encoding == ENCODING_IDENTITY)
    && (AnyBits32(v.capabilities, CAP_GZIP) ==> v.encoding == ENCODING_GZIP)
    && (AnyBits32(v.capabilities, CAP_RANGE_READY) ==> v.rangeGranularity > 0)
  }

  /** Slot p is primary and no other slot of vs is. */
  predicate OnlyPrimaryAt(vs: seq<VariantDescriptor>, p: int)
  {
    0 <= p < |vs| && vs[p].isPrimary != 0
    && forall j :: 0 <= j < |vs| && j != p ==> vs[j].isPrimary == 0
  }

  /** Exactly one slot of vs is primary. */
  predicate OnePrimary(vs: seq<VariantDescriptor>)
  {
    exists p :: 0 <= p < |vs| && OnlyPrimaryAt(vs, p)
  }

  /** The descriptors objm_payload_descriptor_validate accepts. */
  predicate Acceptable(d: PayloadDescriptor)
  {
    && d.version == DESCRIPTOR_VERSION
    && 1 <= d.variantCount <= MAX_VARIANTS as u32
    && (forall i :: 0 <= i < d.variantCount ==> AcceptableVariant(d.variants[i]))
    && OnePrimary(d.variants[..d.variantCount])
  }

  lemma VariantFaultOfIsAcceptable(v: VariantDescriptor)
    ensures VariantFaultOf(v) == None <==> AcceptableVariant(v)
  {
  }

  /** A variant advertising both CAP_IDENTITY and CAP_GZIP can never pass. */
  lemma IdentityAndGzipExclusive(v: VariantDescriptor)
    requires AnyBits32(v.capabilities, CAP_IDENTITY) && AnyBits32(v.capabilities, CAP_GZIP)
    ensures VariantFaultOf(v) != None
  {
  }

  lemma {:induction false} FirstVariantFaultNone(vs: seq<VariantDescriptor>, from: nat)
    ensures FirstVariantFault(vs, from) == None
      <==> forall i :: from <= i < |vs| ==> VariantFaultOf(vs[i]) == None
    decreases |vs| - from
  {
    if from < |vs| {
      FirstVariantFaultNone(vs, from + 1);
    }
  }

  /** The scan reports slot i exactly when slot i fails and every slot before it (from `from` on) passes. */
  lemma {:induction false} FirstVariantFaultIs(vs: seq<VariantDescriptor>, from: nat, i: nat, f: VariantFault)
    ensures FirstVariantFault(vs, from) == Some(BadVariant(i, f))
      <==> (from <= i < |vs| && VariantFaultOf(vs[i]) == Some(f)
            && forall j :: from <= j < i ==> VariantFaultOf(vs[j]) == None)
    decreases |vs| - from
  {
    if from < |vs| {
      FirstVariantFaultIs(vs, from + 1, i, f);
    }
  }

  lemma {:induction false} FirstVariantFaultShape(vs: seq<VariantDescriptor>, from: nat)
    ensures FirstVariantFault(vs, from).Some? ==> FirstVariantFault(vs, from).value.BadVariant?
    decreases |vs| - from
  {
    if from < |vs| {
      FirstVariantFaultShape(vs, from + 1);
    }
  }

  lemma {:induction false} PrimaryCountZero(vs: seq<VariantDescriptor>)
    ensures PrimaryCount(vs) == 0 <==> forall j :: 0 <= j < |vs| ==> vs[j].isPrimary == 0
  {
    if vs != [] {
      var init := vs[..|vs| - 1];
      PrimaryCountZero(init);
      assert forall j :: 0 <= j < |init| ==> init[j] == vs[j];
    }
  }

  lemma OnlyPrimaryAtInit(vs: seq<VariantDescriptor>, p: int)
    requires |vs| > 0 && OnlyPrimaryAt(vs, p) && p < |vs| - 1
    ensures OnlyPrimaryAt(vs[..|vs| - 1], p) && vs[|vs| - 1].isPrimary == 0
  {
    var init := vs[..|vs| - 1];
    assert init[p] == vs[p];
    forall j | 0 <= j < |init| && j != p ensures init[j].isPrimary == 0 {
      assert init[j] == vs[j];
    }
  }

  lemma OnlyPrimaryAtExtend(vs: seq<VariantDescriptor>, p: int)
    requires |vs| > 0 && OnlyPrimaryAt(vs[..|vs| - 1], p) && vs[|vs| - 1].isPrimary == 0
    ensures OnlyPrimaryAt(vs, p)
  {
    var init := vs[..|vs| - 1];
    assert vs[p] == init[p];
    forall j | 0 <= j < |vs| && j != p ensures vs[j].isPrimary == 0 {
      if j < |init| {
        assert vs[j] == init[j];
      }
    }
  }

  lemma OnlyPrimaryAtLast(vs: seq<VariantDescriptor>)
    requires |vs| > 0 && vs[|vs| - 1].isPrimary != 0
    ensures OnlyPrimaryAt(vs, |vs| - 1) <==> PrimaryCount(vs[..|vs| - 1]) == 0
  {
    var init := vs[..|vs| - 1];
    PrimaryCountZero(init);
    assert forall j :: 0 <= j < |init| ==> init[j] == vs[j];
  }

  lemma {:induction false} PrimaryCountOne(vs: seq<VariantDescriptor>)
    ensures PrimaryCount(vs) == 1 <==> OnePrimary(vs)
  {
    if vs != [] {
      var init, last := vs[..|vs| - 1], vs[|vs| - 1];
      PrimaryCountZero(init);
      PrimaryCountOne(init);
      if OnePrimary(vs) {
        var p :| 0 <= p < |vs| && OnlyPrimaryAt(vs, p);
        if p == |vs| - 1 {
          OnlyPrimaryAtLast(vs);
        } else {
          OnlyPrimaryAtInit(vs, p);
        }
      }
      if PrimaryCount(vs) == 1 {
        if last.isPrimary != 0 {
          OnlyPrimaryAtLast(vs);
        } else {
          var p :| 0 <= p < |init| && OnlyPrimaryAt(init, p);
          OnlyPrimaryAtExtend(vs, p);
        }
      }
    }
  }

  /** The validator returns 0 exactly on the acceptable descriptors. */
  lemma CheckAccepts(d: PayloadDescriptor)
    ensures Check(d) == None <==> Acceptable(d)
  {
    if d.version == DESCRIPTOR_VERSION && 1 <= d.variantCount <= MAX_VARIANTS as u32 {
      var used := InUse(d);
      FirstVariantFaultNone(used, 0);
      PrimaryCountOne(used);
      FirstVariantFaultShape(used, 0);
      assert forall i :: 0 <= i < d.variantCount ==> used[i] == d.variants[i];
      forall i | 0 <= i < d.variantCount
        ensures VariantFaultOf(d.variants[i]) == None <==> AcceptableVariant(d.variants[i])
      {
        VariantFaultOfIsAcceptable(d.variants[i]);
      }
    }
  }

  /**
   * With the header valid, the validator reports variant i with fault f exactly
   * when slot i is in use, fails with f, and every in-use slot before it passes.
   */
  lemma CheckReportsFirstBadVariant(d: PayloadDescriptor, i: nat, f: VariantFault)
    requires d.version == DESCRIPTOR_VERSION && 1 <= d.variantCount <= MAX_VARIANTS as u32
    ensures Check(d) == Some(BadVariant(i, f))
      <==> (i < d.variantCount as nat && VariantFaultOf(d.variants[i]) == Some(f)
            && forall j :: 0 <= j < i ==> VariantFaultOf(d.variants[j]) == None)
  {
    var used := InUse(d);
    FirstVariantFaultIs(used, 0, i, f);
    FirstVariantFaultShape(used, 0);
    assert forall j :: 0 <= j < d.variantCount ==> used[j] == d.variants[j];
  }

  /**
   * With the header and every in-use slot valid, the primary count decides:
   * none is "no primary", several is "multiple primaries" with their number.
   */
  lemma CheckPrimaryRule(d: PayloadDescriptor)
    requires d.version == DESCRIPTOR_VERSION && 1 <= d.variantCount <= MAX_VARIANTS as u32
    requires forall i :: 0 <= i < d.variantCount ==> VariantFaultOf(d.variants[i]) == None
    ensures Check(d) == Some(NoPrimary)
      <==> forall i :: 0 <= i < d.variantCount ==> d.variants[i].isPrimary == 0
    ensures Check(d) == None <==> OnePrimary(InUse(d))
    ensures Check(d).Some? && Check(d) != Some(NoPrimary) ==>
      Check(d) == Some(MultiplePrimaries(PrimaryCount(InUse(d)))) && PrimaryCount(InUse(d)) > 1
  {
    var used := InUse(d);
    assert forall j :: 0 <= j < d.variantCount ==> used[j] == d.variants[j];
    FirstVariantFaultNone(used, 0);
    PrimaryCountZero(used);
    PrimaryCountOne(used);
  }

  // ---------------------------------------------------------------------
  // What the validator does not look at

  /** Two variants the guards cannot tell apart. */
  predicate SameChecks(v: VariantDescriptor, w: VariantDescriptor)
  {
    && v.variantId[0] == w.variantId[0]
    && v.logicalLength == w.logicalLength
    && v.storageLength == w.storageLength
    && v.encoding == w.encoding
    && v.rangeGranularity == w.rangeGranularity
    && (v.isPrimary == 0 <==> w.isPrimary == 0)
    && AnyBits32(v.capabilities, CAP_IDENTITY) == AnyBits32(w.capabilities, CAP_IDENTITY)
    && AnyBits32(v.capabilities, CAP_GZIP) == AnyBits32(w.capabilities, CAP_GZIP)
    && AnyBits32(v.capabilities, CAP_RANGE_READY) == AnyBits32(w.capabilities, CAP_RANGE_READY)
  }

  lemma {:induction false} FirstVariantFaultSame(vs: seq<VariantDescriptor>, ws: seq<VariantDescriptor>, from: nat)
    requires |vs| == |ws|
    requires forall i :: 0 <= i < |vs| ==> SameChecks(vs[i], ws[i])
    ensures FirstVariantFault(vs, from) == FirstVariantFault(ws, from)
    decreases |vs| - from
  {
    if from < |vs| {
      VariantFaultSame(vs[from], ws[from]);
      FirstVariantFaultSame(vs, ws, from + 1);
    }
  }

  lemma VariantFaultSame(v: VariantDescriptor, w: VariantDescriptor)
    requires SameChecks(v, w)
    ensures VariantFaultOf(v) == VariantFaultOf(w)
  {
  }

  lemma {:induction false} PrimaryCountSame(vs: seq<VariantDescriptor>, ws: seq<VariantDescriptor>)
    requires |vs| == |ws|
    requires forall i :: 0 <= i < |vs| ==> SameChecks(vs[i], ws[i])
    ensures PrimaryCount(vs) == PrimaryCount(ws)
  {
    if vs != [] {
      PrimaryCountSame(vs[..|vs| - 1], ws[..|ws| - 1]);
    }
  }

  /**
   * The verdict and the reported fault depend only on the version, the count
   * and the guarded fields of the in-use slots: slots at index >= variantCount,
   * manifest flags, the reserved fields, the variant ids past their first byte,
   * and every capability bit other than IDENTITY, GZIP and RANGE_READY never
   * change the outcome.
   */
  lemma CheckIgnoresOtherFields(d: PayloadDescriptor, e: PayloadDescriptor)
    requires d.version == e.version && d.variantCount == e.variantCount
    requires forall i :: 0 <= i < d.variantCount as nat && i < MAX_VARIANTS ==> SameChecks(d.variants[i], e.variants[i])
    ensures Check(d) == Check(e)
  {
    if d.version == DESCRIPTOR_VERSION && 1 <= d.variantCount <= MAX_VARIANTS as u32 {
      FirstVariantFaultSame(InUse(d), InUse(e), 0);
      PrimaryCountSame(InUse(d), InUse(e));
    }
  }

  // ---------------------------------------------------------------------
  // Diagnostics

  function DigitChar(n: nat): char
    requires n < 10
  {
    "0123456789"[n]
  }

  /** printf's %u / %zu / %llu / %d of a non-negative value. */
  function Decimal(n: nat): string
  {
    if n < 10 then [DigitChar(n)] else Decimal(n / 10) + [DigitChar(n % 10)]
  }

  function VariantText(f: VariantFault): string
  {
    match f
    case IdMissing => "variant_id missing"
    case LogicalLengthZero => "logical_length must be > 0"
    case StorageLengthZero => "storage_length must be > 0"
    case IdentityStorageShort(s, l) =>
      "storage_length (" + Decimal(s) + ") < logical_length (" + Decimal(l) + ") for identity encoding"
    case UnsupportedEncoding(e) => "unsupported encoding " + Decimal(e)
    case IdentityCapabilityMismatch => "OBJM_CAP_IDENTITY requires identity encoding"
    case GzipCapabilityMismatch => "OBJM_CAP_GZIP requires gzip encoding"
    case RangeGranularityMissing => "range-ready capability requires range_granularity"
  }

  /** The text set_error formats for a fault. */
  function Message(f: Fault): string
  {
    match f
    case NullDescriptor => "descriptor is NULL"
    case VersionMismatch(v) =>
      "unexpected version " + Decimal(v) + " (expected " + Decimal(DESCRIPTOR_VERSION) + ")"
    case NoVariants => "variant_count must be > 0"
    case TooManyVariants(n) =>
      "variant_count (" + Decimal(n) + ") exceeds OBJM_MAX_VARIANTS (" + Decimal(MAX_VARIANTS) + ")"
    case BadVariant(i, vf) => "variant[" + Decimal(i) + "]: " + VariantText(vf)
    case NoPrimary => "no primary variant defined"
    case MultiplePrimaries(n) => "multiple primary variants defined (" + Decimal(n) + ")"
  }

  /** t occurs somewhere in s. */
  predicate Mentions(s: string, t: string)
  {
    exists k :: 0 <= k <= |s| && t <= s[k..]
  }

  /** Decimal renderings carry no NUL. */
  lemma {:induction false} DecimalHasNoNul(n: nat)
    ensures '\0' !in Decimal(n)
  {
    if n >= 10 {
      DecimalHasNoNul(n / 10);
    }
  }

  /** A missing granularity on a RANGE_READY variant is reported with the words "range-ready". */
  lemma RangeReadyMessage(i: nat)
    ensures Mentions(Message(BadVariant(i, RangeGranularityMissing)), "range-ready")
  {
    var m := Message(BadVariant(i, RangeGranularityMissing));
    var k := |"variant[" + Decimal(i) + "]: "|;
    assert m[k..] == VariantText(RangeGranularityMissing);
  }

  lemma NoPrimaryMessage()
    ensures Mentions(Message(NoPrimary), "no primary")
  {
    assert "no primary" <= Message(NoPrimary)[0..];
  }

  // ---------------------------------------------------------------------
  // The error buffer

  /** set_error: nothing for a NULL buffer or length 0, else vsnprintf. */
  method SetError(buf: array?<char>, len: nat, msg: string)
    requires buf != null ==> len <= buf.Length
    modifies buf
    ensures buf != null ==> buf[..] == Formatted(old(buf[..]), len, msg)
  {
    if buf == null || len == 0 {
      return;
    }
    var _ := Snprintf(buf, 0, len, msg);
  }

  // ---------------------------------------------------------------------
  // The validator as the C code runs it

  /**
   * validate_variant: the guard chain for slot `index`; on a failure it writes
   * the diagnostic and returns -1, otherwise it bumps the primary counter when
   * the slot is primary.
   */
  method ValidateVariant(v: VariantDescriptor, buf: array?<char>, len: nat, index: nat, primaryCount: nat)
    returns (rc: int, newPrimaryCount: nat)
    requires buf != null ==> len <= buf.Length
    modifies buf
    ensures rc == 0 <==> VariantFaultOf(v) == None
    ensures rc == 0 || rc == -1
    ensures newPrimaryCount == primaryCount + (if rc == 0 && v.isPrimary != 0 then 1 else 0)
    ensures buf != null ==>
      buf[..] == (if rc == 0 then old(buf[..])
                  else Formatted(old(buf[..]), len, Message(BadVariant(index, VariantFaultOf(v).value))))
  {
    var fault := None;
    if v.variantId[0] == 0 {
      fault := Some(IdMissing);
    } else if v.logicalLength == 0 {
      fault := Some(LogicalLengthZero);
    } else if v.storageLength == 0 {
      fault := Some(StorageLengthZero);
    } else if v.encoding == ENCODING_IDENTITY && v.storageLength < v.logicalLength {
      fault := Some(IdentityStorageShort(v.storageLength, v.logicalLength));
    } else if !SupportedEncoding(v.encoding) {
      fault := Some(UnsupportedEncoding(v.encoding));
    } else if AnyBits32(v.capabilities, CAP_IDENTITY) && v.encoding != ENCODING_IDENTITY {
      fault := Some(IdentityCapabilityMismatch);
    } else if AnyBits32(v.capabilities, CAP_GZIP) && v.encoding != ENCODING_GZIP {
      fault := Some(GzipCapabilityMismatch);
    } else if AnyBits32(v.capabilities, CAP_RANGE_READY) && v.rangeGranularity == 0 {
      fault := Some(RangeGranularityMissing);
    }
    if fault.Some? {
      SetError(buf, len, Message(BadVariant(index, fault.value)));
      return -1, primaryCount;
    }
    newPrimaryCount := primaryCount;
    if v.isPrimary != 0 {
      newPrimaryCount := newPrimaryCount + 1;
    }
    rc := 0;
  }

  /**
   * objm_payload_descriptor_validate: returns 0 exactly when Check finds
   * nothing, and otherwise -1 with the first fault's message formatted into
   * the buffer.  The descriptor is only read.
   */
  method Validate(descriptor: DescriptorCell?, buf: array?<char>, len: nat) returns (rc: int)
    requires buf != null ==> len <= buf.Length
    modifies buf
    ensures var fault := if descriptor == null then Some(NullDescriptor) else Check(descriptor.value);
      && (rc == 0 <==> fault == None)
      && (rc == 0 || rc == -1)
      && (buf != null ==>
            buf[..] == (if fault == None then old(buf[..]) else Formatted(old(buf[..]), len, Message(fault.value))))
  {
    if descriptor == null {
      SetError(buf, len, Message(NullDescriptor));
      return -1;
    }
    var d := descriptor.value;
    if d.version != DESCRIPTOR_VERSION {
      SetError(buf, len, Message(VersionMismatch(d.version)));
      return -1;
    }
    if d.variantCount == 0 {
      SetError(buf, len, Message(NoVariants));
      return -1;
    }
    if d.variantCount > MAX_VARIANTS as u32 {
      SetError(buf, len, Message(TooManyVariants(d.variantCount)));
      return -1;
    }
    var r, primaryCount := ScanVariants(InUse(d), buf, len);
    if r < 0 {
      return -1;
    }
    if primaryCount == 0 {
      SetError(buf, len, Message(NoPrimary));
      return -1;
    }
    if primaryCount > 1 {
      SetError(buf, len, Message(MultiplePrimaries(primaryCount)));
      return -1;
    }
    rc := 0;
  }

  /**
   * The validator's loop over the slots in use: -1 with the first failing
   * slot's message, or 0 with the number of primary slots.
   */
  method ScanVariants(vs: seq<VariantDescriptor>, buf: array?<char>, len: nat) returns (rc: int, primaryCount: nat)
    requires buf != null ==> len <= buf.Length
    modifies buf
    ensures rc == 0 || rc == -1
    ensures rc == 0 <==> FirstVariantFault(vs, 0) == None
    ensures rc == 0 ==> primaryCount == PrimaryCount(vs)
    ensures buf != null ==>
      buf[..] == (if rc == 0 then old(buf[..]) else Formatted(old(buf[..]), len, Message(FirstVariantFault(vs, 0).value)))
  {
    primaryCount := 0;
    var i: nat := 0;
    while i < |vs|
      invariant i <= |vs|
      invariant FirstVariantFault(vs, 0) == FirstVariantFault(vs, i)
      invariant primaryCount == PrimaryCount(vs[..i])
      invariant buf != null ==> buf[..] == old(buf[..])
    {
      rc, primaryCount := ValidateVariant(vs[i], buf, len, i, primaryCount);
      if rc < 0 {
        return;
      }
      assert vs[..i + 1][..i] == vs[..i];
      i := i + 1;
    }
    assert vs[..i] == vs;
    rc := 0;
  }

  // ---------------------------------------------------------------------
  // The cases exercised by tests/test_metadata_schema.py

  /** A variant_id field holding an ASCII name, NUL-padded, as the tests' make_variant fills it. */
  function IdOf(name: string): VariantId
    requires 1 <= |name| < VARIANT_ID_MAX && forall i | 0 <= i < |name| :: name[i] as int < 0x100
  {
    seq(|name|, i requires 0 <= i < |name| => name[i] as int as byte) + Zeros(VARIANT_ID_MAX - |name|)
  }

  /** A descriptor after objm_payload_descriptor_init, with manifest flags and the variants in use set. */
  function WithVariants(manifestFlags: u32, vs: seq<VariantDescriptor>): PayloadDescriptor
    requires 1 <= |vs| <= MAX_VARIANTS
  {
    PayloadDescriptor(DESCRIPTOR_VERSION, |vs|, manifestFlags, 0, vs + seq(MAX_VARIANTS - |vs|, _ => ZERO_VARIANT))
  }

  /**
   * A primary "identity" variant (IDENTITY | ZERO_COPY, 1024/1024) plus a
   * "gzip" variant (GZIP | ZERO_COPY, 1024/768), under HAS_VARIANTS, is accepted.
   */
  lemma IdentityPlusGzipAccepted()
    ensures Check(WithVariants(PAYLOAD_FLAG_HAS_VARIANTS, [
      VariantDescriptor(IdOf("identity"), Or32(CAP_IDENTITY, CAP_ZERO_COPY), ENCODING_IDENTITY,
                        1024, 1024, 0, 1, Zeros(VARIANT_RESERVED)),
      VariantDescriptor(IdOf("gzip"), Or32(CAP_GZIP, CAP_ZERO_COPY), ENCODING_GZIP,
                        1024, 768, 0, 0, Zeros(VARIANT_RESERVED))])) == None
  {
    var a := VariantDescriptor(IdOf("identity"), Or32(CAP_IDENTITY, CAP_ZERO_COPY),
                               ENCODING_IDENTITY, 1024, 1024, 0, 1, Zeros(VARIANT_RESERVED));
    var b := VariantDescriptor(IdOf("gzip"), Or32(CAP_GZIP, CAP_ZERO_COPY),
                               ENCODING_GZIP, 1024, 768, 0, 0, Zeros(VARIANT_RESERVED));
    var d := WithVariants(PAYLOAD_FLAG_HAS_VARIANTS, [a, b]);
    assert Or32(CAP_IDENTITY, CAP_ZERO_COPY) == 0x11 && Or32(CAP_GZIP, CAP_ZERO_COPY) == 0x12;
    assert a.variantId[0] == 'i' as byte && b.variantId[0] == 'g' as byte;
    assert InUse(d) == [a, b];
    assert VariantFaultOf(a) == None && VariantFaultOf(b) == None;
    assert FirstVariantFault([a, b], 0) == None by {
      assert FirstVariantFault([a, b], 2) == None;
    }
    assert [a, b][..1] == [a] && [a][..0] == [];
    assert PrimaryCount([a]) == 1;
    assert PrimaryCount([a, b]) == 1;
  }

  /** A single valid "identity" variant (512/512) that is not primary is rejected with "no primary". */
  lemma SingleNonPrimaryRejected()
    ensures var v := VariantDescriptor(IdOf("identity"), CAP_IDENTITY, ENCODING_IDENTITY,
                                       512, 512, 0, 0, Zeros(VARIANT_RESERVED));
      Check(WithVariants(0, [v])) == Some(NoPrimary) && Mentions(Message(NoPrimary), "no primary")
  {
    var v := VariantDescriptor(IdOf("identity"), CAP_IDENTITY, ENCODING_IDENTITY,
                               512, 512, 0, 0, Zeros(VARIANT_RESERVED));
    assert v.variantId[0] == 'i' as byte;
    assert InUse(WithVariants(0, [v])) == [v];
    assert VariantFaultOf(v) == None;
    assert FirstVariantFault([v], 0) == None by {
      assert FirstVariantFault([v], 1) == None;
    }
    assert [v][..0] == [];
    assert PrimaryCount([v]) == 0;
    NoPrimaryMessage();
  }

  /**
   * A primary "range" variant with IDENTITY | RANGE_READY (2048/2048) and
   * granularity 0 is rejected with a "range-ready" message.
   */
  lemma RangeReadyWithoutGranularityRejected()
    ensures var v := VariantDescriptor(IdOf("range"), Or32(CAP_IDENTITY, CAP_RANGE_READY), ENCODING_IDENTITY,
                                       2048, 2048, 0, 1, Zeros(VARIANT_RESERVED));
      Check(WithVariants(0, [v])) == Some(BadVariant(0, RangeGranularityMissing))
      && Mentions(Message(BadVariant(0, RangeGranularityMissing)), "range-ready")
  {
    var v := VariantDescriptor(IdOf("range"), Or32(CAP_IDENTITY, CAP_RANGE_READY), ENCODING_IDENTITY,
                               2048, 2048, 0, 1, Zeros(VARIANT_RESERVED));
    assert v.variantId[0] == 'r' as byte;
    assert InUse(WithVariants(0, [v])) == [v];
    RangeReadyMessage(0);
  }
}
