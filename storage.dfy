/**
 * The object storage layer: a fixed table of object slots addressed through
 * a chained hash dictionary keyed by URI, an on-disk backing file per object
 * and an optional memory-mapped cache with a byte budget.
 *
 * File contents, descriptors and mappings are outside the model: the outcome
 * of each system call arrives as a parameter, and a slot records only what
 * the bookkeeping depends on (key, size, hit count, whether it is mapped and
 * its descriptor number).
 */
module Storage {
  import opened Bytes
  import opened Bits
  import opened Wrappers

  /** Slots allocated when the store is created (storage_init). */
  const STORAGE_CAPACITY: nat := 10000
  /** Buckets used when the configuration asks for none. */
  const DEFAULT_HASH_SIZE: nat := 16384
  /** Size of a slot's URI field, terminating NUL included. */
  const URI_FIELD_SIZE: nat := 1024
  /** The djb2 starting value. */
  const DJB2_SEED: u64 := 5381

  // ---------------------------------------------------------------------
  // The URI hash

  /** A byte read through a signed `char`, as the hash loop reads it. */
  function SignedChar(b: byte): (c: int)
    ensures -128 <= c < 128
    ensures c % 256 == b
  {
    if b < 128 then b else b - 256
  }

  /** One djb2 step, hash * 33 + c in 64-bit unsigned arithmetic. */
  function Djb2Step(h: u64, b: byte): u64
  {
    (h * 33 + SignedChar(b)) % U64_MODULUS
  }

  /** The djb2 hash of s continued from h. */
  function Djb2From(h: u64, s: seq<byte>): u64
    decreases |s|
  {
    if s == [] then h else Djb2From(Djb2Step(h, s[0]), s[1..])
  }

  /** The hash of a URI (hash_uri). */
  function Djb2(s: seq<byte>): u64
  {
    Djb2From(DJB2_SEED, s)
  }

  /** The conversion of a C int to uint64_t. */
  function ToU64(c: int): u64
  {
    c % U64_MODULUS
  }

  /**
   * The step agrees with the source's own formulation: a 5-bit left shift,
   * two wrapping additions and the widening of a possibly negative char.
   */
  lemma Djb2StepIsShiftAdd(h: u64, b: byte)
    ensures Djb2Step(h, b)
      == (((h * 32) % U64_MODULUS + h) % U64_MODULUS + ToU64(SignedChar(b))) % U64_MODULUS
  {
    var M, c := U64_MODULUS, SignedChar(b);
    var shifted := (h * 32) % M;
    ModShift(h * 32 + h, M, (h * 32) / M);
    assert h * 32 + h - M * ((h * 32) / M) == shifted + h;
    var sum := (shifted + h) % M;
    assert sum == (h * 33) % M;
    ModShift(h * 33 + c, M, (h * 33) / M);
    assert h * 33 + c - M * ((h * 33) / M) == sum + c;
    ModShift(sum + ToU64(c), M, if c < 0 then 1 else 0);
    assert sum + ToU64(c) - M * (if c < 0 then 1 else 0) == sum + c;
  }

  /** Hashing a concatenation continues from the hash of its first part. */
  lemma {:induction false} Djb2Append(h: u64, a: seq<byte>, b: seq<byte>)
    ensures Djb2From(h, a + b) == Djb2From(Djb2From(h, a), b)
    decreases |a|
  {
    if a == [] {
      assert a + b == b;
    } else {
      assert (a + b)[0] == a[0] && (a + b)[1..] == a[1..] + b;
      Djb2Append(Djb2Step(h, a[0]), a[1..], b);
    }
  }

  /** hash_uri: one step per byte up to the terminating NUL. */
  method HashUri(uri: CStr) returns (h: u64)
    ensures h == Djb2(uri)
  {
    h := DJB2_SEED;
    var i := 0;
    while i < |uri|
      invariant i <= |uri|
      invariant Djb2From(h, uri[i..]) == Djb2(uri)
    {
      assert uri[i..][1..] == uri[i + 1..];
      h := Djb2Step(h, uri[i]);
      i := i + 1;
    }
    assert uri[i..] == [];
  }

  // ---------------------------------------------------------------------
  // Slots, the dictionary and the counters they determine

  /**
   * An object slot: its URI, whether it is in use, the object's size and
   * hit count, whether a cache mapping exists, and the backing descriptor.
   */
  datatype Slot = Slot(uri: CStr, inUse: bool, size: u64, hits: nat, cached: bool, backingFd: int)

  /** A zero-filled slot, as the slot table is allocated. */
  const EMPTY_SLOT := Slot([], false, 0, 0, false, 0)

  /** A dictionary entry: the full hash of a URI and the slot it names. */
  datatype HashEntry = HashEntry(hash: u64, slot: nat)

  /** What the info structure reports about an object. */
  datatype ObjectInfo = ObjectInfo(uri: CStr, size: u64, hits: nat, isCached: bool)

  function InfoOf(x: Slot): ObjectInfo
  {
    ObjectInfo(x.uri, x.size, x.hits, x.cached)
  }

  /** The sum of w over the slots of s. */
  function SumOf(s: seq<Slot>, w: Slot -> nat): nat
  {
    if s == [] then 0 else SumOf(s[..|s| - 1], w) + w(s[|s| - 1])
  }

  /** A slot in use counts one object. */
  function InUseWeight(x: Slot): nat
  {
    if x.inUse then 1 else 0
  }

  /** A mapped slot in use holds its size in the cache budget. */
  function CachedWeight(x: Slot): nat
  {
    if x.inUse && x.cached then x.size else 0
  }

  /** A slot in use contributes its hits to the total. */
  function HitsWeight(x: Slot): nat
  {
    if x.inUse then x.hits else 0
  }

  /** Replacing one slot changes a sum by the difference of the weights. */
  lemma {:induction false} SumUpdate(s: seq<Slot>, i: nat, x: Slot, w: Slot -> nat)
    requires i < |s|
    ensures SumOf(s[i := x], w) + w(s[i]) == SumOf(s, w) + w(x)
    decreases |s|
  {
    var n := |s| - 1;
    if i == n {
      assert s[i := x][..n] == s[..n];
    } else {
      assert s[i := x][..n] == s[..n][i := x];
      SumUpdate(s[..n], i, x, w);
    }
  }

  /** A sum over slots of weight zero is zero. */
  lemma {:induction false} SumZero(s: seq<Slot>, w: Slot -> nat)
    requires forall k | 0 <= k < |s| :: w(s[k]) == 0
    ensures SumOf(s, w) == 0
    decreases |s|
  {
    if s != [] {
      SumZero(s[..|s| - 1], w);
    }
  }

  /** Fewer objects than slots leaves a slot free: the pigeonhole principle. */
  lemma {:induction false} FreeSlotExists(s: seq<Slot>)
    requires SumOf(s, InUseWeight) < |s|
    ensures exists j | 0 <= j < |s| :: !s[j].inUse
    decreases |s|
  {
    var n := |s| - 1;
    if s[n].inUse {
      FreeSlotExists(s[..n]);
      var j :| 0 <= j < n && !s[..n][j].inUse;
      assert !s[j].inUse;
    }
  }

  /** The lowest-numbered free slot, or |s| when every slot is in use. */
  function FirstFree(s: seq<Slot>): (i: nat)
    ensures i <= |s|
    ensures forall k | 0 <= k < i :: s[k].inUse
    ensures i < |s| ==> !s[i].inUse
  {
    if s == [] || !s[0].inUse then 0 else 1 + FirstFree(s[1..])
  }

  /** Every slot in use is reachable from the bucket of its URI's hash. */
  ghost predicate Indexed(s: seq<Slot>, t: seq<seq<HashEntry>>)
    requires |t| > 0
  {
    forall i | 0 <= i < |s| && s[i].inUse ::
      HashEntry(Djb2(s[i].uri), i) in t[Djb2(s[i].uri) % |t|]
  }

  /** No two slots in use hold the same URI. */
  ghost predicate UniqueUris(s: seq<Slot>)
  {
    forall i, j | 0 <= i < |s| && 0 <= j < |s| && s[i].inUse && s[j].inUse && s[i].uri == s[j].uri :: i == j
  }

  /** Every entry names a slot of the table. */
  ghost predicate SlotsInRange(t: seq<seq<HashEntry>>, capacity: nat)
  {
    forall b, k | 0 <= b < |t| && 0 <= k < |t[b]| :: t[b][k].slot < capacity
  }

  /** A free slot holds no cache mapping. */
  ghost predicate NoStaleMappings(s: seq<Slot>)
  {
    forall i | 0 <= i < |s| && !s[i].inUse :: !s[i].cached
  }

  /** Two slot tables with the same keys in use. */
  ghost predicate SameKeys(s: seq<Slot>, s': seq<Slot>)
  {
    |s| == |s'| && forall j | 0 <= j < |s| :: s'[j].inUse == s[j].inUse && s'[j].uri == s[j].uri
  }

  /** A slot change that keeps every key keeps the dictionary invariants. */
  lemma SameKeysIndexed(s: seq<Slot>, s': seq<Slot>, t: seq<seq<HashEntry>>)
    requires |t| > 0 && SameKeys(s, s') && Indexed(s, t) && UniqueUris(s)
    ensures Indexed(s', t) && UniqueUris(s')
  {
    forall i | 0 <= i < |s'| && s'[i].inUse
      ensures HashEntry(Djb2(s'[i].uri), i) in t[Djb2(s'[i].uri) % |t|]
    {
      assert s[i].inUse && s[i].uri == s'[i].uri;
    }
  }

  /** An entry that leads to slot s[e.slot] for uri. */
  predicate Matches(e: HashEntry, h: u64, uri: CStr, s: seq<Slot>)
  {
    e.hash == h && e.slot < |s| && s[e.slot].inUse && s[e.slot].uri == uri
  }

  /** find_slot's walk of one chain: the first entry that matches. */
  function FindIn(chain: seq<HashEntry>, h: u64, uri: CStr, s: seq<Slot>): (r: Option<nat>)
    ensures r.Some? ==> r.value < |s| && s[r.value].inUse && s[r.value].uri == uri
  {
    if chain == [] then None
    else if Matches(chain[0], h, uri, s) then Some(chain[0].slot)
    else FindIn(chain[1..], h, uri, s)
  }

  /** A chain with a matching entry yields a slot. */
  lemma {:induction false} FindInComplete(chain: seq<HashEntry>, h: u64, uri: CStr, s: seq<Slot>, k: nat)
    requires k < |chain| && Matches(chain[k], h, uri, s)
    ensures FindIn(chain, h, uri, s).Some?
    decreases k
  {
    if !Matches(chain[0], h, uri, s) {
      assert chain[1..][k - 1] == chain[k];
      FindInComplete(chain[1..], h, uri, s, k - 1);
    }
  }

  /** The slot the dictionary yields for uri. */
  function Lookup(s: seq<Slot>, t: seq<seq<HashEntry>>, uri: CStr): Option<nat>
    requires |t| > 0
  {
    FindIn(t[Djb2(uri) % |t|], Djb2(uri), uri, s)
  }

  /**
   * Under the dictionary invariants a lookup finds exactly the slot in use
   * that holds uri, and nothing when no slot holds it.
   */
  lemma LookupExact(s: seq<Slot>, t: seq<seq<HashEntry>>, uri: CStr)
    requires |t| > 0 && Indexed(s, t) && UniqueUris(s)
    ensures forall i: nat :: Lookup(s, t, uri) == Some(i) <==> (i < |s| && s[i].inUse && s[i].uri == uri)
    ensures Lookup(s, t, uri).None? <==> forall i | 0 <= i < |s| :: !(s[i].inUse && s[i].uri == uri)
  {
    var chain := t[Djb2(uri) % |t|];
    forall i: nat | i < |s| && s[i].inUse && s[i].uri == uri
      ensures Lookup(s, t, uri) == Some(i)
    {
      var k :| 0 <= k < |chain| && chain[k] == HashEntry(Djb2(uri), i);
      FindInComplete(chain, Djb2(uri), uri, s, k);
      var j := Lookup(s, t, uri).value;
      assert s[j].inUse && s[j].uri == uri;
    }
  }

  /** The slot table after a free slot is claimed for uri. */
  function Claimed(s: seq<Slot>, i: nat, uri: CStr): seq<Slot>
    requires i < |s|
  {
    s[i := s[i].(inUse := true, uri := uri)]
  }

  /** The dictionary after an entry for slot i under uri's hash is prepended. */
  function Prepended(t: seq<seq<HashEntry>>, uri: CStr, i: nat): seq<seq<HashEntry>>
    requires |t| > 0
  {
    var b := Djb2(uri) % |t|;
    t[b := [HashEntry(Djb2(uri), i)] + t[b]]
  }

  /** The slot table after the object in slot i is rewritten with size bytes. */
  function Written(s: seq<Slot>, i: nat, size: u64): seq<Slot>
    requires i < |s|
  {
    s[i := s[i].(size := size, backingFd := -1, cached := false)]
  }

  /** The slot table after the object in slot i is removed. */
  function Released(s: seq<Slot>, i: nat): seq<Slot>
    requires i < |s|
  {
    s[i := s[i].(inUse := false, cached := false)]
  }

  /** The budget after the mapping of a slot of the given size is dropped. */
  function Sub64(a: u64, b: u64): u64
  {
    (a - b) % U64_MODULUS
  }

  function Add64(a: u64, b: u64): u64
  {
    (a + b) % U64_MODULUS
  }

  /** Claiming a free slot for an absent URI keeps the dictionary invariants. */
  lemma ClaimKeepsIndex(s: seq<Slot>, t: seq<seq<HashEntry>>, uri: CStr, i: nat)
    requires |t| > 0 && Indexed(s, t) && UniqueUris(s) && SlotsInRange(t, |s|)
    requires i < |s| && !s[i].inUse && Lookup(s, t, uri).None?
    ensures Indexed(Claimed(s, i, uri), Prepended(t, uri, i))
    ensures UniqueUris(Claimed(s, i, uri))
    ensures SlotsInRange(Prepended(t, uri, i), |s|)
    ensures Lookup(Claimed(s, i, uri), Prepended(t, uri, i), uri) == Some(i)
  {
    LookupExact(s, t, uri);
    var s', t' := Claimed(s, i, uri), Prepended(t, uri, i);
    var b := Djb2(uri) % |t|;
    forall j | 0 <= j < |s'| && s'[j].inUse
      ensures HashEntry(Djb2(s'[j].uri), j) in t'[Djb2(s'[j].uri) % |t'|]
    {
      if j == i {
        assert t'[b][0] == HashEntry(Djb2(uri), i);
      } else {
        var c := Djb2(s[j].uri) % |t|;
        assert HashEntry(Djb2(s[j].uri), j) in t[c];
        assert c != b ==> t'[c] == t[c];
        assert c == b ==> t'[c] == [HashEntry(Djb2(uri), i)] + t[c];
      }
    }
    forall c, k | 0 <= c < |t'| && 0 <= k < |t'[c]|
      ensures t'[c][k].slot < |s|
    {
      if c == b && k > 0 {
        assert t'[c][k] == t[c][k - 1];
      }
    }
    assert Indexed(s', t');
    LookupExact(s', t', uri);
  }

  /** The cache budget, kept as a 64-bit sum of the mapped sizes. */
  ghost predicate BudgetMatches(s: seq<Slot>, cachedBytes: u64)
  {
    cachedBytes == SumOf(s, CachedWeight) % U64_MODULUS
  }

  /** Unmapping a slot and subtracting its size keeps the budget exact. */
  lemma UnmapKeepsBudget(s: seq<Slot>, cachedBytes: u64, i: nat, x: Slot)
    requires BudgetMatches(s, cachedBytes) && i < |s| && CachedWeight(x) == 0
    ensures BudgetMatches(s[i := x], if s[i].inUse && s[i].cached then Sub64(cachedBytes, s[i].size) else cachedBytes)
  {
    SumUpdate(s, i, x, CachedWeight);
    if s[i].inUse && s[i].cached {
      var total := SumOf(s, CachedWeight);
      ModShift(total - s[i].size, U64_MODULUS, total / U64_MODULUS);
      assert total - s[i].size - U64_MODULUS * (total / U64_MODULUS) == cachedBytes - s[i].size;
    }
  }

  /** Mapping a slot in use and adding its size keeps the budget exact. */
  lemma MapKeepsBudget(s: seq<Slot>, cachedBytes: u64, i: nat)
    requires BudgetMatches(s, cachedBytes) && i < |s| && s[i].inUse && !s[i].cached
    ensures BudgetMatches(s[i := s[i].(cached := true)], Add64(cachedBytes, s[i].size))
  {
    var total := SumOf(s, CachedWeight);
    SumUpdate(s, i, s[i].(cached := true), CachedWeight);
    ModShift(total + s[i].size, U64_MODULUS, total / U64_MODULUS);
    assert total + s[i].size - U64_MODULUS * (total / U64_MODULUS) == cachedBytes + s[i].size;
  }

  /**
   * What the store's counters and dictionary owe its slots: the object
   * count, the cache budget, an entry for every object, unique keys, entries
   * within the table and no mapping left on a free slot.
   */
  ghost predicate Consistent(s: seq<Slot>, t: seq<seq<HashEntry>>, count: nat, cachedBytes: u64)
    requires |t| > 0
  {
    count == SumOf(s, InUseWeight)
    && BudgetMatches(s, cachedBytes)
    && Indexed(s, t)
    && UniqueUris(s)
    && SlotsInRange(t, |s|)
    && NoStaleMappings(s)
  }

  /** Claiming the free slot i for an absent uri (storage_put, new object). */
  lemma ClaimKeeps(s: seq<Slot>, t: seq<seq<HashEntry>>, count: nat, cachedBytes: u64, uri: CStr, i: nat)
    requires |t| > 0 && Consistent(s, t, count, cachedBytes)
    requires i < |s| && !s[i].inUse && Lookup(s, t, uri).None?
    ensures Consistent(Claimed(s, i, uri), Prepended(t, uri, i), count + 1, cachedBytes)
    ensures Lookup(Claimed(s, i, uri), Prepended(t, uri, i), uri) == Some(i)
  {
    var x := s[i].(inUse := true, uri := uri);
    ClaimKeepsIndex(s, t, uri, i);
    SumUpdate(s, i, x, InUseWeight);
    SumUpdate(s, i, x, CachedWeight);
    assert Claimed(s, i, uri) == s[i := x];
  }

  /** Rewriting the object in slot i with size bytes and dropping its mapping. */
  lemma WriteKeeps(s: seq<Slot>, t: seq<seq<HashEntry>>, count: nat, cachedBytes: u64, i: nat, size: u64)
    requires |t| > 0 && Consistent(s, t, count, cachedBytes) && i < |s| && s[i].inUse
    ensures Consistent(Written(s, i, size), t, count, if s[i].cached then Sub64(cachedBytes, s[i].size) else cachedBytes)
    ensures Lookup(Written(s, i, size), t, s[i].uri) == Some(i)
  {
    var x := s[i].(size := size, backingFd := -1, cached := false);
    assert Written(s, i, size) == s[i := x];
    UnmapKeepsBudget(s, cachedBytes, i, x);
    SumUpdate(s, i, x, InUseWeight);
    SameKeysIndexed(s, s[i := x], t);
    LookupExact(s[i := x], t, x.uri);
  }

  /** Replacing slot i by a slot with the same key, size and mapping. */
  lemma SetKeeps(s: seq<Slot>, t: seq<seq<HashEntry>>, count: nat, cachedBytes: u64, i: nat, x: Slot)
    requires |t| > 0 && Consistent(s, t, count, cachedBytes) && i < |s|
    requires x.uri == s[i].uri && x.inUse == s[i].inUse && x.size == s[i].size && x.cached == s[i].cached
    ensures Consistent(s[i := x], t, count, cachedBytes)
    ensures SumOf(s[i := x], HitsWeight) + HitsWeight(s[i]) == SumOf(s, HitsWeight) + HitsWeight(x)
  {
    SumUpdate(s, i, x, HitsWeight);
    SumUpdate(s, i, x, InUseWeight);
    SumUpdate(s, i, x, CachedWeight);
    SameKeysIndexed(s, s[i := x], t);
  }

  /** Mapping the object in slot i and charging its size. */
  lemma MapKeeps(s: seq<Slot>, t: seq<seq<HashEntry>>, count: nat, cachedBytes: u64, i: nat)
    requires |t| > 0 && Consistent(s, t, count, cachedBytes) && i < |s| && s[i].inUse && !s[i].cached
    ensures Consistent(s[i := s[i].(cached := true)], t, count, Add64(cachedBytes, s[i].size))
    ensures SumOf(s[i := s[i].(cached := true)], HitsWeight) == SumOf(s, HitsWeight)
  {
    var x := s[i].(cached := true);
    MapKeepsBudget(s, cachedBytes, i);
    SumUpdate(s, i, x, InUseWeight);
    SumUpdate(s, i, x, HitsWeight);
    SameKeysIndexed(s, s[i := x], t);
  }

  /** Freeing slot i (storage_remove): the key is gone and the counters follow. */
  lemma ReleaseKeeps(s: seq<Slot>, t: seq<seq<HashEntry>>, count: nat, cachedBytes: u64, i: nat)
    requires |t| > 0 && Consistent(s, t, count, cachedBytes) && i < |s| && s[i].inUse
    ensures count >= 1
    ensures Consistent(Released(s, i), t, count - 1, if s[i].cached then Sub64(cachedBytes, s[i].size) else cachedBytes)
    ensures Lookup(Released(s, i), t, s[i].uri).None?
  {
    var s' := Released(s, i);
    UnmapKeepsBudget(s, cachedBytes, i, s'[i]);
    SumUpdate(s, i, s'[i], InUseWeight);
    forall j | 0 <= j < |s'| && s'[j].inUse
      ensures HashEntry(Djb2(s'[j].uri), j) in t[Djb2(s'[j].uri) % |t|]
    {
      assert s'[j] == s[j];
    }
    assert Indexed(s', t);
    LookupExact(s', t, s[i].uri);
  }

  // ---------------------------------------------------------------------
  // The store

  class ObjectStorage {
    const capacity: nat
    const hashSize: nat
    const cacheLimit: u64
    /** Whether a cache directory is configured. */
    const cacheEnabled: bool
    const objects: array<Slot>
    var table: seq<seq<HashEntry>>
    var count: nat
    var cachedBytes: u64

    ghost predicate Valid()
      reads this`table, this`count, this`cachedBytes, objects
    {
      objects.Length == capacity && hashSize > 0 && |table| == hashSize
      && Consistent(objects[..], table, count, cachedBytes)
    }

    /** The slot find_slot yields for uri. */
    ghost function Find(uri: CStr): Option<nat>
      reads this`table, objects
      requires hashSize > 0 && |table| == hashSize
    {
      Lookup(objects[..], table, uri)
    }

    /** The hits of the objects stored, as the statistics report them. */
    ghost function TotalHits(): nat
      reads objects
    {
      SumOf(objects[..], HitsWeight)
    }

    /** storage_init: every slot free, every bucket empty, nothing cached. */
    constructor (cacheLimit: u64, cacheEnabled: bool, requestedHashSize: u64)
      ensures Valid()
      ensures this.cacheLimit == cacheLimit && this.cacheEnabled == cacheEnabled
      ensures capacity == STORAGE_CAPACITY
      ensures hashSize == if requestedHashSize > 0 then requestedHashSize else DEFAULT_HASH_SIZE
      ensures count == 0 && cachedBytes == 0
      ensures forall i | 0 <= i < objects.Length :: objects[i] == EMPTY_SLOT
      ensures forall b | 0 <= b < |table| :: table[b] == []
    {
      var hs := if requestedHashSize > 0 then requestedHashSize else DEFAULT_HASH_SIZE;
      this.cacheLimit := cacheLimit;
      this.cacheEnabled := cacheEnabled;
      capacity := STORAGE_CAPACITY;
      hashSize := hs;
      objects := new Slot[STORAGE_CAPACITY](_ => EMPTY_SLOT);
      table := seq(hs, _ => []);
      count := 0;
      cachedBytes := 0;
      new;
      SumZero(objects[..], InUseWeight);
      SumZero(objects[..], CachedWeight);
    }

    /** find_slot: walk the bucket of uri's hash for a slot in use holding uri. */
    method FindSlot(uri: CStr) returns (r: Option<nat>)
      requires Valid()
      ensures r == Find(uri)
    {
      var h := HashUri(uri);
      var chain := table[h % hashSize];
      var k := 0;
      while k < |chain|
        invariant k <= |chain|
        invariant FindIn(chain[k..], h, uri, objects[..]) == Find(uri)
      {
        assert chain[k..][0] == chain[k] && chain[k..][1..] == chain[k + 1..];
        var e := chain[k];
        if e.hash == h {
          assert e.slot < capacity;
          var slot := objects[e.slot];
          if slot.inUse && slot.uri == uri {
            return Some(e.slot);
          }
        }
        k := k + 1;
      }
      return None;
    }

    /** The scan for the lowest free slot, which exists while count < capacity. */
    method LowestFree() returns (i: nat)
      requires Valid() && count < capacity
      ensures i < capacity && i == FirstFree(objects[..])
    {
      FreeSlotExists(objects[..]);
      i := 0;
      while i < capacity && objects[i].inUse
        invariant i <= capacity
        invariant forall k | 0 <= k < i :: objects[k].inUse
        invariant exists j | i <= j < capacity :: !objects[j].inUse
        decreases capacity - i
      {
        i := i + 1;
      }
    }

    /**
     * The lowest free slot is claimed for uri: marked in use, given the key,
     * counted, and entered at the head of its bucket.
     */
    method ClaimFreeSlot(uri: CStr) returns (i: nat)
      requires Valid() && Find(uri).None? && count < capacity
      modifies this`table, this`count, objects
      ensures i < capacity && i == FirstFree(old(objects[..]))
      ensures objects[..] == Claimed(old(objects[..]), i, uri)
      ensures table == Prepended(old(table), uri, i)
      ensures count == old(count) + 1
      ensures Valid() && Find(uri) == Some(i)
    {
      ghost var s := objects[..];
      i := LowestFree();
      ClaimKeeps(s, table, count, cachedBytes, uri, i);
      objects[i] := objects[i].(inUse := true, uri := uri);
      count := count + 1;
      table := Prepended(table, uri, i);
      assert objects[..] == Claimed(s, i, uri);
    }

    /** The object in slot i now has size bytes; any mapping of it is dropped. */
    method WriteSlot(i: nat, size: u64)
      requires Valid() && i < capacity && objects[i].inUse
      modifies this`cachedBytes, objects
      ensures objects[..] == Written(old(objects[..]), i, size)
      ensures cachedBytes == if old(objects[i].cached) then Sub64(old(cachedBytes), old(objects[i].size)) else old(cachedBytes)
      ensures Valid() && Find(old(objects[i].uri)) == Some(i)
    {
      ghost var s := objects[..];
      WriteKeeps(s, table, count, cachedBytes, i, size);
      if objects[i].cached {
        cachedBytes := Sub64(cachedBytes, objects[i].size);
      }
      objects[i] := objects[i].(size := size, backingFd := -1, cached := false);
      assert objects[..] == Written(s, i, size);
    }

    /**
     * storage_put: the object's slot is found or the lowest free one claimed,
     * then the backing file is written; stored says whether opening and
     * writing the whole file succeeded.
     */
    method Put(uri: CStr, size: u64, stored: bool) returns (rc: int)
      requires Valid()
      modifies this`table, this`count, this`cachedBytes, objects
      ensures Valid()
      ensures rc == 0 || rc == -1
      ensures rc == 0 <==> stored && (old(Find(uri)).Some? || old(count) < capacity)
      ensures old(Find(uri)).None? && old(count) >= capacity ==>
        objects[..] == old(objects[..]) && table == old(table) && count == old(count) && cachedBytes == old(cachedBytes)
      ensures old(Find(uri)).Some? ==>
        var i := old(Find(uri)).value;
        table == old(table) && count == old(count) && Find(uri) == Some(i)
        && objects[..] == (if stored then Written(old(objects[..]), i, size) else old(objects[..]))
        && cachedBytes == (if stored && old(objects[i].cached) then Sub64(old(cachedBytes), old(objects[i].size)) else old(cachedBytes))
      ensures old(Find(uri)).None? && old(count) < capacity ==>
        var i := FirstFree(old(objects[..]));
        i < capacity && table == Prepended(old(table), uri, i) && count == old(count) + 1 && Find(uri) == Some(i)
        && objects[..] == (if stored then Written(Claimed(old(objects[..]), i, uri), i, size) else Claimed(old(objects[..]), i, uri))
        && cachedBytes == old(cachedBytes)
    {
      var f := FindSlot(uri);
      var i: nat;
      if f.None? {
        if count >= capacity {
          return -1;
        }
        i := ClaimFreeSlot(uri);
      } else {
        i := f.value;
        LookupExact(objects[..], table, uri);
      }
      if !stored {
        return -1;
      }
      WriteSlot(i, size);
      rc := 0;
    }

    /**
     * storage_get_fd: a descriptor for the object's backing file, opened on
     * first use (openFd is what open returns, dupFd what dup returns).
     */
    method GetFd(uri: CStr, openFd: int, dupFd: int) returns (fd: int, info: Option<ObjectInfo>)
      requires Valid()
      modifies objects
      ensures Valid()
      ensures old(Find(uri)).None? ==> fd == -1 && info == None && objects[..] == old(objects[..])
      ensures old(Find(uri)).Some? ==>
        var i := old(Find(uri)).value;
        var x := old(objects[i]);
        if x.backingFd < 0 && openFd < 0 then
          fd == -1 && info == None && objects[..] == old(objects[..])[i := x.(backingFd := openFd)]
          && TotalHits() == old(TotalHits())
        else
          var y := x.(backingFd := if x.backingFd < 0 then openFd else x.backingFd, hits := x.hits + 1);
          fd == dupFd && info == Some(InfoOf(y)) && objects[..] == old(objects[..])[i := y]
          && TotalHits() == old(TotalHits()) + 1
    {
      var f := FindSlot(uri);
      if f.None? {
        return -1, None;
      }
      var i := f.value;
      var x := objects[i];
      if x.backingFd < 0 {
        x := x.(backingFd := openFd);
        SetSlot(i, x);
        if openFd < 0 {
          return -1, None;
        }
      }
      x := x.(hits := x.hits + 1);
      SetSlot(i, x);
      return dupFd, Some(InfoOf(x));
    }

    /** Replace slot i by x, which keeps its key, size and mapping. */
    method SetSlot(i: nat, x: Slot)
      requires Valid() && i < capacity
      requires x.uri == objects[i].uri && x.inUse == objects[i].inUse
      requires x.size == objects[i].size && x.cached == objects[i].cached
      modifies objects
      ensures objects[..] == old(objects[..])[i := x]
      ensures TotalHits() + HitsWeight(old(objects[i])) == old(TotalHits()) + HitsWeight(x)
      ensures Valid()
    {
      ghost var s := objects[..];
      SetKeeps(s, table, count, cachedBytes, i, x);
      objects[i] := x;
      assert objects[..] == s[i := x];
    }

    /**
     * storage_get_mmap: the object's cache mapping, created when none exists,
     * a cache directory is configured and the budget allows it (mapOk says
     * whether opening and mapping the backing file succeeded). Each call
     * counts a hit; mapped says whether a mapping is returned.
     */
    method GetMmap(uri: CStr, mapOk: bool) returns (found: bool, mapped: bool, size: u64)
      requires Valid()
      modifies this`cachedBytes, objects
      ensures Valid()
      ensures found <==> old(Find(uri)).Some?
      ensures !found ==> !mapped && objects[..] == old(objects[..]) && cachedBytes == old(cachedBytes)
      ensures found ==>
        var i := old(Find(uri)).value;
        var x := old(objects[i]);
        var fits := !x.cached && cacheEnabled && Add64(old(cachedBytes), x.size) <= cacheLimit;
        var nowMapped := x.cached || (fits && mapOk);
        mapped == nowMapped && size == x.size
        && objects[..] == old(objects[..])[i := x.(cached := nowMapped, hits := x.hits + 1)]
        && cachedBytes == (if fits && mapOk then Add64(old(cachedBytes), x.size) else old(cachedBytes))
        && TotalHits() == old(TotalHits()) + 1
    {
      var f := FindSlot(uri);
      if f.None? {
        return false, false, 0;
      }
      var i := f.value;
      var x := objects[i];
      if !x.cached && cacheEnabled && Add64(cachedBytes, x.size) <= cacheLimit && mapOk {
        MapSlot(i);
      }
      var y := objects[i].(hits := x.hits + 1);
      SetSlot(i, y);
      return true, y.cached, y.size;
    }

    /** The object in slot i is mapped and its size charged to the budget. */
    method MapSlot(i: nat)
      requires Valid() && i < capacity && objects[i].inUse && !objects[i].cached
      modifies this`cachedBytes, objects
      ensures objects[..] == old(objects[..])[i := old(objects[i]).(cached := true)]
      ensures cachedBytes == Add64(old(cachedBytes), old(objects[i].size))
      ensures TotalHits() == old(TotalHits())
      ensures Valid()
    {
      ghost var s := objects[..];
      MapKeeps(s, table, count, cachedBytes, i);
      cachedBytes := Add64(cachedBytes, objects[i].size);
      objects[i] := objects[i].(cached := true);
      assert objects[..] == s[i := s[i].(cached := true)];
    }

    /** storage_get_info: what is known about the object, changing nothing. */
    method GetInfo(uri: CStr) returns (rc: int, info: Option<ObjectInfo>)
      requires Valid()
      ensures Find(uri).None? ==> rc == -1 && info == None
      ensures Find(uri).Some? ==> rc == 0 && info == Some(InfoOf(objects[Find(uri).value]))
      ensures info.Some? ==> info.value.uri == uri
    {
      var f := FindSlot(uri);
      if f.None? {
        return -1, None;
      }
      return 0, Some(InfoOf(objects[f.value]));
    }

    /**
     * storage_remove: the object's slot is freed and uncounted and its
     * mapping, if any, is dropped from the budget. Its dictionary entry stays
     * in the chain and no longer matches.
     */
    method Remove(uri: CStr) returns (rc: int)
      requires Valid()
      modifies this`count, this`cachedBytes, objects
      ensures Valid()
      ensures old(Find(uri)).None? ==>
        rc == -1 && objects[..] == old(objects[..]) && count == old(count) && cachedBytes == old(cachedBytes)
      ensures old(Find(uri)).Some? ==>
        var i := old(Find(uri)).value;
        rc == 0 && objects[..] == Released(old(objects[..]), i) && count == old(count) - 1
        && cachedBytes == (if old(objects[i].cached) then Sub64(old(cachedBytes), old(objects[i].size)) else old(cachedBytes))
      ensures Find(uri).None?
    {
      var f := FindSlot(uri);
      if f.None? {
        return -1;
      }
      ReleaseSlot(f.value);
      rc := 0;
    }

    /** Slot i is freed, uncounted and unmapped. */
    method ReleaseSlot(i: nat)
      requires Valid() && i < capacity && objects[i].inUse
      modifies this`count, this`cachedBytes, objects
      ensures objects[..] == Released(old(objects[..]), i) && count == old(count) - 1
      ensures cachedBytes == if old(objects[i].cached) then Sub64(old(cachedBytes), old(objects[i].size)) else old(cachedBytes)
      ensures Valid() && Find(old(objects[i].uri)).None?
    {
      ghost var s := objects[..];
      ReleaseKeeps(s, table, count, cachedBytes, i);
      if objects[i].cached {
        cachedBytes := Sub64(cachedBytes, objects[i].size);
      }
      objects[i] := objects[i].(inUse := false, cached := false);
      count := count - 1;
      assert objects[..] == Released(s, i);
    }

    /** storage_get_stats: the object count, the cache budget and the total hits. */
    method GetStats() returns (totalObjects: nat, cached: u64, totalHits: nat)
      requires Valid()
      ensures totalObjects == SumOf(objects[..], InUseWeight)
      ensures cached == cachedBytes && BudgetMatches(objects[..], cached)
      ensures totalHits == TotalHits()
    {
      totalObjects, cached := count, cachedBytes;
      totalHits := 0;
      var i := 0;
      while i < capacity
        invariant i <= capacity
        invariant totalHits == SumOf(objects[..i], HitsWeight)
      {
        assert objects[..i + 1][..i] == objects[..i];
        if objects[i].inUse {
          totalHits := totalHits + objects[i].hits;
        }
        i := i + 1;
      }
      assert objects[..i] == objects[..];
    }
  }

  // ---------------------------------------------------------------------
  // The slot updates as the source writes them

  /** storage_remove as written: the slot is freed but its mapping address is kept. */
  function RemovedAsWritten(s: seq<Slot>, i: nat): seq<Slot>
    requires i < |s|
  {
    s[i := s[i].(inUse := false)]
  }

  /** storage_put as written: a new size is recorded and any mapping kept. */
  function WrittenAsWritten(s: seq<Slot>, i: nat, size: u64): seq<Slot>
    requires i < |s|
  {
    s[i := s[i].(size := size, backingFd := -1)]
  }

  /** The URI stored in a slot as written: strncpy into the 1024-byte field. */
  function StoredUriAsWritten(uri: CStr): (r: CStr)
    ensures |uri| < URI_FIELD_SIZE ==> r == uri
    ensures |r| < URI_FIELD_SIZE
  {
    if |uri| < URI_FIELD_SIZE then uri else uri[..URI_FIELD_SIZE - 1]
  }

  /**
   * Removing a mapped object as written leaves the mapping on the free slot;
   * a new object of 50 bytes that reuses the slot then appears mapped, is
   * never counted in the budget, and removing it wraps the budget below zero.
   */
  lemma StaleMappingWrapsBudget()
    ensures
      var a, b: CStr := [0x61], [0x62];
      var s0 := [Slot(a, true, 100, 0, true, -1)];
      var cb0: u64 := 100;
      var s1 := RemovedAsWritten(s0, 0);
      var cb1 := Sub64(cb0, 100);
      var s2 := WrittenAsWritten(Claimed(s1, 0, b), 0, 50);
      var cb3 := Sub64(cb1, s2[0].size);
      BudgetMatches(s0, cb0) && NoStaleMappings(s0)
      && !NoStaleMappings(s1) && !BudgetMatches(s2, cb1)
      && cb3 == U64_MODULUS - 50
      && SumOf(RemovedAsWritten(s2, 0), CachedWeight) == 0
  {
    var a, b: CStr := [0x61], [0x62];
    var s0 := [Slot(a, true, 100, 0, true, -1)];
    assert s0[..0] == [];
    var s1 := RemovedAsWritten(s0, 0);
    var s2 := WrittenAsWritten(Claimed(s1, 0, b), 0, 50);
    assert s2[..0] == [];
    assert RemovedAsWritten(s2, 0)[..0] == [];
  }

  /**
   * Re-storing a mapped object as written changes its size but not the
   * budget: after replacing 100 bytes by 10 the budget is 100 while the
   * mapped sizes sum to 10, and removal leaves 90 bytes charged with
   * nothing mapped.
   */
  lemma ResizedMappingMiscounted()
    ensures
      var s0 := [Slot([0x61], true, 100, 0, true, -1)];
      var s1 := WrittenAsWritten(s0, 0, 10);
      BudgetMatches(s0, 100) && !BudgetMatches(s1, 100)
      && Sub64(100, s1[0].size) == 90
      && SumOf(RemovedAsWritten(s1, 0), CachedWeight) == 0
  {
    var s0 := [Slot([0x61], true, 100, 0, true, -1)];
    assert s0[..0] == [];
    var s1 := WrittenAsWritten(s0, 0, 10);
    assert s1[..0] == [];
    assert RemovedAsWritten(s1, 0)[..0] == [];
  }

  /**
   * With the key truncated as written, a URI of 1024 bytes or more is never
   * found again: no entry of any chain matches the slot that stored it.
   */
  lemma LongUriNeverFound(uri: CStr, s: seq<Slot>, i: nat, chain: seq<HashEntry>)
    requires |uri| >= URI_FIELD_SIZE && i < |s| && s[i].uri == StoredUriAsWritten(uri)
    ensures FindIn(chain, Djb2(uri), uri, s) != Some(i)
  {
    assert |s[i].uri| < |uri|;
  }
}
