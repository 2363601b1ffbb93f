/**
 * Index entries, FD references and the global index: a chained hash table
 * keyed by URI with power-of-two buckets.  Each collision chain is modelled as
 * the sequence of entries from its head, so splicing a node in or out is a
 * sequence update.  The last section models, on its own, the single `next`
 * link that the C entry shares between the global and the backend chains.
 */
module IndexTables {
  import opened Bytes
  import opened Bits
  import opened Wrappers
  import opened IndexHash

  const INDEX_FLAG_EPHEMERAL: u32 := 0x01
  const INDEX_FLAG_PERSISTENT: u32 := 0x02
  const INDEX_FLAG_PINNED: u32 := 0x04
  const INDEX_FLAG_ENCRYPTED: u32 := 0x08
  const INDEX_FLAG_COMPRESSED: u32 := 0x10

  /** One object known to the index.  The key and its hash never change. */
  class IndexEntry {
    const uri: CStr
    const uriHash: u64
    var backendId: u32
    var backendPath: CStr
    var fd: int
    var fdRefcount: int
    var fdGeneration: int
    var sizeBytes: u64
    var mtime: u64
    var flags: u32
    var accessCount: nat
    var lastAccess: u64
    var refcount: int

    /** index_entry_create: a private copy of both strings, no FD, one reference. */
    constructor (uri: CStr, backendId: u32, backendPath: CStr)
      ensures this.uri == uri && HashOk()
      ensures Location() == (backendId, backendPath) && Meta() == (0, 0, 0)
      ensures FdState() == (-1, 0, 0) && Access() == (0, 0) && refcount == 1
    {
      var h := HashString(uri);
      UpToNulOfNulFree(uri);
      this.uri := uri;
      uriHash := h;
      this.backendId := backendId;
      this.backendPath := backendPath;
      fd := -1;
      fdRefcount := 0;
      fdGeneration := 0;
      sizeBytes := 0;
      mtime := 0;
      flags := 0;
      accessCount := 0;
      lastAccess := 0;
      refcount := 1;
    }

    /** The stored hash is the FNV-1a hash of the key, as index_entry_create computes it. */
    predicate HashOk()
    {
      uriHash == Fnv1a(uri)
    }

    function Location(): (u32, CStr)
      reads this
    {
      (backendId, backendPath)
    }

    function Meta(): (u64, u64, u32)
      reads this
    {
      (sizeBytes, mtime, flags)
    }

    function FdState(): (int, int, int)
      reads this
    {
      (fd, fdRefcount, fdGeneration)
    }

    function Access(): (nat, u64)
      reads this
    {
      (accessCount, lastAccess)
    }

    /** index_entry_get */
    method Get()
      modifies `refcount
      ensures refcount == old(refcount) + 1
      ensures Location() == old(Location()) && Meta() == old(Meta())
      ensures FdState() == old(FdState()) && Access() == old(Access())
    {
      refcount := refcount + 1;
    }

    /**
     * index_entry_put: drops one reference; `last` is true when it was the
     * final one, where the C code closes the FD and frees the entry.
     */
    method Put() returns (last: bool)
      modifies this
      ensures refcount == old(refcount) - 1 && last == (old(refcount) == 1)
      ensures Location() == old(Location()) && Meta() == old(Meta())
      ensures FdState() == old(FdState()) && Access() == old(Access())
    {
      last := refcount == 1;
      refcount := refcount - 1;
    }

    /** index_entry_record_access, with the monotonic clock reading passed in. */
    method RecordAccess(now: u64)
      modifies this
      ensures Access() == (old(accessCount) + 1, now)
      ensures Location() == old(Location()) && Meta() == old(Meta())
      ensures FdState() == old(FdState()) && refcount == old(refcount)
    {
      accessCount := accessCount + 1;
      lastAccess := now;
    }

    /**
     * The middle of global_index_update_backend: close the cached descriptor,
     * bumping the generation if there was one, and store the new location.
     */
    method Relocate(backendId: u32, backendPath: CStr) returns (hadFd: bool)
      modifies this
      ensures hadFd == (old(fd) >= 0)
      ensures FdState() == (-1, old(fdRefcount), old(fdGeneration) + (if hadFd then 1 else 0))
      ensures Location() == (backendId, backendPath)
      ensures Meta() == old(Meta()) && Access() == old(Access()) && refcount == old(refcount)
    {
      hadFd := fd >= 0;
      fd := -1;
      if hadFd {
        fdGeneration := fdGeneration + 1;
      }
      this.backendId := backendId;
      this.backendPath := backendPath;
    }
  }

  /** fd_ref_t: the entry a lookup handed out and the descriptor opened for it. */
  datatype FdRef = FdRef(entry: IndexEntry?, fd: int, generation: int)

  /**
   * fd_ref_release: gives back the descriptor's count if one was opened and
   * the entry reference, then clears the handle.  A handle without an entry
   * is left alone.
   */
  method Release(ref: FdRef) returns (cleared: FdRef, last: bool)
    modifies if ref.entry != null then {ref.entry} else {}
    ensures ref.entry == null ==> cleared == ref && !last
    ensures ref.entry != null ==>
      var e := ref.entry;
      cleared == FdRef(null, -1, ref.generation)
      && e.refcount == old(e.refcount) - 1 && last == (old(e.refcount) == 1)
      && e.fdRefcount == old(e.fdRefcount) - (if ref.fd >= 0 then 1 else 0)
      && e.fd == old(e.fd) && e.fdGeneration == old(e.fdGeneration)
      && e.Location() == old(e.Location()) && e.Meta() == old(e.Meta())
      && e.Access() == old(e.Access())
  {
    if ref.entry == null {
      return ref, false;
    }
    var e := ref.entry;
    if ref.fd >= 0 {
      e.fdRefcount := e.fdRefcount - 1;
    }
    last := e.Put();
    cleared := FdRef(null, -1, ref.generation);
  }

  /* ---------------------------------------------------------------------- */
  /* Collision chains                                                        */

  /** The chain walk's test: same stored hash, then the same string. */
  predicate Matches(e: IndexEntry, hash: u64, key: CStr)
  {
    e.uriHash == hash && e.uri == key
  }

  /** Two entries the global index treats as the same key. */
  predicate SameKey(a: IndexEntry, b: IndexEntry)
  {
    Matches(a, b.uriHash, b.uri)
  }

  /** The position of the first entry in the chain matching the key. */
  function FindIn(chain: seq<IndexEntry>, hash: u64, key: CStr): (r: Option<nat>)
    ensures r.Some? ==> r.value < |chain| && Matches(chain[r.value], hash, key)
    ensures r.Some? ==> forall k | 0 <= k < r.value :: !Matches(chain[k], hash, key)
    ensures r.None? ==> forall k | 0 <= k < |chain| :: !Matches(chain[k], hash, key)
  {
    if chain == [] then None
    else if Matches(chain[0], hash, key) then Some(0)
    else match FindIn(chain[1..], hash, key)
      case None => None
      case Some(i) => Some(i + 1)
  }

  /** The loop `while (entry) { if (match) …; entry = entry->next; }` over one chain. */
  method Scan(chain: seq<IndexEntry>, hash: u64, key: CStr) returns (r: Option<nat>)
    ensures r == FindIn(chain, hash, key)
  {
    var i := 0;
    while i < |chain| && !Matches(chain[i], hash, key)
      invariant 0 <= i <= |chain|
      invariant forall k | 0 <= k < i :: !Matches(chain[k], hash, key)
    {
      i := i + 1;
    }
    r := if i < |chain| then Some(i) else None;
    FindInUnique(chain, hash, key, r);
  }

  /** FindIn is the only answer meeting its own contract. */
  lemma FindInUnique(chain: seq<IndexEntry>, hash: u64, key: CStr, r: Option<nat>)
    requires r.Some? ==> r.value < |chain| && Matches(chain[r.value], hash, key)
    requires r.Some? ==> forall k | 0 <= k < r.value :: !Matches(chain[k], hash, key)
    requires r.None? ==> forall k | 0 <= k < |chain| :: !Matches(chain[k], hash, key)
    ensures r == FindIn(chain, hash, key)
  {
  }

  /** The chain with the node at position i unlinked. */
  function Unlink<T>(chain: seq<T>, i: nat): (r: seq<T>)
    requires i < |chain|
    ensures |r| == |chain| - 1
    ensures forall k | 0 <= k < i :: r[k] == chain[k]
    ensures forall k | i <= k < |r| :: r[k] == chain[k + 1]
  {
    chain[..i] + chain[i + 1..]
  }

  /** The number of entries over all chains. */
  function Total<T>(bs: seq<seq<T>>): nat
  {
    if bs == [] then 0 else Total(bs[..|bs| - 1]) + |bs[|bs| - 1]|
  }

  /** Replacing one chain changes the total by the difference in its length. */
  lemma {:induction false} TotalUpdate<T>(bs: seq<seq<T>>, b: nat, c: seq<T>)
    requires b < |bs|
    ensures Total(bs[b := c]) + |bs[b]| == Total(bs) + |c|
  {
    var n := |bs| - 1;
    assert bs[b := c][..n] == if b == n then bs[..n] else bs[..n][b := c];
    if b < n {
      TotalUpdate(bs[..n], b, c);
    }
  }

  /** A table of empty chains holds nothing. */
  lemma {:induction false} TotalEmpty<T>(bs: seq<seq<T>>)
    requires forall b | 0 <= b < |bs| :: bs[b] == []
    ensures Total(bs) == 0
  {
    if bs != [] {
      TotalEmpty(bs[..|bs| - 1]);
    }
  }

  /** Every entry sits in the bucket its stored hash selects. */
  predicate Placed(bs: seq<seq<IndexEntry>>, numBuckets: u64)
  {
    forall b, i | 0 <= b < |bs| && 0 <= i < |bs[b]| :: BucketOf(bs[b][i].uriHash, numBuckets) == b
  }

  /** No chain holds two entries with the same key. */
  predicate KeysDistinct(bs: seq<seq<IndexEntry>>)
  {
    forall b, i, j | 0 <= b < |bs| && 0 <= i < j < |bs[b]| :: !SameKey(bs[b][i], bs[b][j])
  }

  /**
   * In a table of 2^bits chains, the position of the key's entry in the chain
   * its hash selects, if it has one.
   */
  ghost function FindKey(bs: seq<seq<IndexEntry>>, numBuckets: u64, bits: nat, key: CStr): Option<nat>
    requires numBuckets == Pow2(bits) && bits <= 63 && |bs| == numBuckets
  {
    BucketInRange(Fnv1a(key), bits);
    FindIn(bs[BucketOf(Fnv1a(key), numBuckets)], Fnv1a(key), key)
  }

  /** Every entry's stored hash is the hash of its key. */
  predicate HashesOk(bs: seq<seq<IndexEntry>>)
  {
    forall b, i | 0 <= b < |bs| && 0 <= i < |bs[b]| :: bs[b][i].HashOk()
  }

  /** The entries linked into a table. */
  function Members(bs: seq<seq<IndexEntry>>): set<IndexEntry>
  {
    set c, e | c in bs && e in c :: e
  }

  /* ---------------------------------------------------------------------- */
  /* Global index                                                            */

  /**
   * global_index_t.  The bucket count is fixed at creation; `bucketBits` is
   * its base-2 logarithm.  The stat_fd_* counters and the LRU list are never
   * touched by the operations modelled here and are left out.
   */
  class GlobalIndex {
    const numBuckets: u64
    ghost const bucketBits: nat
    const maxOpenFds: u64
    var buckets: seq<seq<IndexEntry>>
    var numEntries: nat
    var numOpenFds: u64
    var lookups: nat
    var hits: nat
    var misses: nat

    /**
     * Power-of-two bucket count, every entry in the bucket its stored hash
     * selects, no two entries with the same key in a chain, the entry count,
     * and every lookup counted as exactly one hit or one miss.
     */
    ghost predicate Valid()
      reads this
    {
      PowerOfTwoBuckets() && |buckets| == numBuckets
      && Placed(buckets, numBuckets) && KeysDistinct(buckets)
      && numEntries == Total(buckets)
      && lookups == hits + misses
    }

    /** global_index_create: next_pow2(num_buckets) empty chains and zeroed counters. */
    constructor (requestedBuckets: u64, maxOpenFds: u64)
      requires 1 <= requestedBuckets <= 0x8000_0000_0000_0000
      ensures Valid() && fresh(this)
      ensures numBuckets == RoundedUp(requestedBuckets) && this.maxOpenFds == maxOpenFds
      ensures forall b | 0 <= b < |buckets| :: buckets[b] == []
      ensures numEntries == 0 && numOpenFds == 0 && lookups == 0 && hits == 0 && misses == 0
    {
      var n := NextPowerOf2(requestedBuckets);
      RoundedUpExponent(requestedBuckets);
      numBuckets := n;
      bucketBits := BitLen(Pred64(requestedBuckets));
      this.maxOpenFds := maxOpenFds;
      var empty: seq<seq<IndexEntry>> := seq(n, _ => []);
      TotalEmpty(empty);
      buckets := empty;
      numEntries := 0;
      numOpenFds := 0;
      lookups := 0;
      hits := 0;
      misses := 0;
    }

    /** hash & (num_buckets - 1) */
    function Bucket(hash: u64): nat
    {
      BucketOf(hash, numBuckets)
    }

    /** The bucket count is 2^bucketBits with bucketBits <= 63. */
    ghost predicate PowerOfTwoBuckets()
    {
      numBuckets == Pow2(bucketBits) && bucketBits <= 63
    }

    lemma BucketValid(hash: u64)
      requires PowerOfTwoBuckets()
      ensures Bucket(hash) < numBuckets
    {
      BucketInRange(hash, bucketBits);
    }

    /** Where a lookup of key stops: the position of its entry in its chain, if any. */
    ghost function Find(key: CStr): Option<nat>
      reads this
      requires Valid()
    {
      FindKey(buckets, numBuckets, bucketBits, key)
    }

    /** The entry a lookup of key finds. */
    ghost function Entry(key: CStr): IndexEntry
      reads this
      requires Valid() && Find(key).Some?
    {
      BucketValid(Fnv1a(key));
      buckets[Bucket(Fnv1a(key))][Find(key).value]
    }

    /** The one entry an operation on key may change: the one it finds. */
    ghost function Found(key: CStr): set<IndexEntry>
      reads this
      requires Valid()
    {
      if Find(key).Some? then {Entry(key)} else {}
    }

    /**
     * global_index_lookup.  On a hit the entry gains a reference and an access,
     * and the descriptor `openFd` that opening the backend path produced (or
     * -1) is handed out with an FD reference counted when it is valid.  Every
     * call counts one lookup and exactly one hit or miss.
     */
    method Lookup(uri: CStr, openFd: int, now: u64) returns (rc: int, ref: Option<FdRef>)
      requires Valid()
      modifies this, Found(uri)
      ensures Valid() && buckets == old(buckets)
      ensures numEntries == old(numEntries) && numOpenFds == old(numOpenFds)
      ensures lookups == old(lookups) + 1
      ensures old(Find(uri)).None? ==>
        rc == -1 && ref == None && hits == old(hits) && misses == old(misses) + 1
      ensures old(Find(uri)).Some? ==>
        var e := old(Entry(uri));
        rc == 0 && ref == Some(FdRef(e, openFd, 0))
        && hits == old(hits) + 1 && misses == old(misses)
        && e.refcount == old(e.refcount) + 1
        && e.Access() == (old(e.accessCount) + 1, now)
        && e.FdState() == (old(e.fd), old(e.fdRefcount) + (if openFd >= 0 then 1 else 0), old(e.fdGeneration))
        && e.Location() == old(e.Location()) && e.Meta() == old(e.Meta())
    {
      lookups := lookups + 1;
      var hash := HashString(uri);
      UpToNulOfNulFree(uri);
      BucketValid(hash);
      var b := Bucket(hash);
      var at := Scan(buckets[b], hash, uri);
      if at.None? {
        misses := misses + 1;
        return -1, None;
      }
      var e := buckets[b][at.value];
      Acquire(e, openFd, now);
      hits := hits + 1;
      return 0, Some(FdRef(e, openFd, 0));
    }


    /**
     * global_index_insert: refuses an entry whose key is already in its chain
     * and otherwise links it at the head of the chain.  The index takes over the
     * caller's reference, so the entry's counts are not touched.
     */
    method Insert(entry: IndexEntry) returns (rc: int)
      requires Valid()
      modifies this
      ensures Valid()
      ensures numOpenFds == old(numOpenFds) && lookups == old(lookups)
      ensures hits == old(hits) && misses == old(misses)
      ensures var b := Bucket(entry.uriHash);
        b < |old(buckets)|
        && (rc == -1 <==> FindIn(old(buckets)[b], entry.uriHash, entry.uri).Some?)
        && (rc == -1 ==> buckets == old(buckets) && numEntries == old(numEntries))
        && (rc != -1 ==> rc == 0 && buckets == old(buckets)[b := [entry] + old(buckets)[b]]
                         && numEntries == old(numEntries) + 1)
      ensures rc == 0 && entry.HashOk() ==> Find(entry.uri) == Some(0) && Entry(entry.uri) == entry
    {
      BucketValid(entry.uriHash);
      var b := Bucket(entry.uriHash);
      var dup := Scan(buckets[b], entry.uriHash, entry.uri);
      if dup.Some? {
        return -1;
      }
      PrependKeepsChainsValid(buckets, numBuckets, b, entry);
      TotalUpdate(buckets, b, [entry] + buckets[b]);
      buckets := buckets[b := [entry] + buckets[b]];
      numEntries := numEntries + 1;
      rc := 0;
    }

    /**
     * global_index_remove: unlinks the entry with the key, closes its cached
     * descriptor (one fewer open FD, with size_t wrap-around) and drops the
     * index's reference.  A missing key changes nothing.
     */
    method Remove(uri: CStr) returns (rc: int)
      requires Valid()
      modifies this, Found(uri)
      ensures Valid()
      ensures lookups == old(lookups) && hits == old(hits) && misses == old(misses)
      ensures old(Find(uri)).None? ==>
        rc == -1 && buckets == old(buckets) && numEntries == old(numEntries)
        && numOpenFds == old(numOpenFds)
      ensures old(Find(uri)).Some? ==>
        var b, i, e := Bucket(Fnv1a(uri)), old(Find(uri)).value, old(Entry(uri));
        b < |old(buckets)| && i < |old(buckets)[b]|
        && rc == 0 && buckets == old(buckets)[b := Unlink(old(buckets)[b], i)]
        && numEntries == old(numEntries) - 1
        && numOpenFds == (if old(e.fd) >= 0 then Pred64(old(numOpenFds)) else old(numOpenFds))
        && e.FdState() == (-1, old(e.fdRefcount), old(e.fdGeneration))
        && e.refcount == old(e.refcount) - 1
        && e.Location() == old(e.Location()) && e.Meta() == old(e.Meta())
        && e.Access() == old(e.Access())
      ensures Find(uri) == None
    {
      var hash := HashString(uri);
      UpToNulOfNulFree(uri);
      BucketValid(hash);
      var b := Bucket(hash);
      var at := Scan(buckets[b], hash, uri);
      if at.None? {
        return -1;
      }
      var e := buckets[b][at.value];
      UnlinkKeepsChainsValid(buckets, numBuckets, b, at.value, hash, uri);
      TotalUpdate(buckets, b, Unlink(buckets[b], at.value));
      buckets := buckets[b := Unlink(buckets[b], at.value)];
      var fd := e.fd;
      e.fd := -1;
      if fd >= 0 {
        numOpenFds := Pred64(numOpenFds);
      }
      var _ := e.Put();
      numEntries := numEntries - 1;
      rc := 0;
    }

    /**
     * global_index_update_backend: a lookup (counted like any other), then the
     * cached descriptor is closed and the location replaced, and the lookup's
     * references are given back.
     */
    method UpdateBackend(uri: CStr, backendId: u32, backendPath: CStr, openFd: int, now: u64)
      returns (rc: int)
      requires Valid()
      modifies this, Found(uri)
      ensures Valid() && buckets == old(buckets) && numEntries == old(numEntries)
      ensures lookups == old(lookups) + 1
      ensures old(Find(uri)).None? ==>
        rc == -1 && hits == old(hits) && misses == old(misses) + 1
        && numOpenFds == old(numOpenFds)
      ensures old(Find(uri)).Some? ==>
        var e := old(Entry(uri));
        rc == 0 && hits == old(hits) + 1 && misses == old(misses)
        && e.Location() == (backendId, backendPath)
        && e.FdState() == (-1, old(e.fdRefcount), old(e.fdGeneration) + (if old(e.fd) >= 0 then 1 else 0))
        && numOpenFds == (if old(e.fd) >= 0 then Pred64(old(numOpenFds)) else old(numOpenFds))
        && e.refcount == old(e.refcount)
        && e.Access() == (old(e.accessCount) + 1, now) && e.Meta() == old(e.Meta())
    {
      ghost var e0: IndexEntry? := if Find(uri).Some? then Entry(uri) else null;
      var found, ref := Lookup(uri, openFd, now);
      if found < 0 {
        return -1;
      }
      assert ref.value.entry == e0;
      var hadFd := Repoint(ref.value, backendId, backendPath);
      if hadFd {
        numOpenFds := Pred64(numOpenFds);
      }
      rc := 0;
    }
  }

  /**
   * The hit path of global_index_lookup on the entry found: index_entry_get,
   * index_entry_record_access, and one FD reference when a descriptor was
   * opened.
   */
  method Acquire(e: IndexEntry, openFd: int, now: u64)
    modifies e
    ensures e.refcount == old(e.refcount) + 1
    ensures e.Access() == (old(e.accessCount) + 1, now)
    ensures e.FdState() == (old(e.fd), old(e.fdRefcount) + (if openFd >= 0 then 1 else 0), old(e.fdGeneration))
    ensures e.Location() == old(e.Location()) && e.Meta() == old(e.Meta())
  {
    e.Get();
    e.RecordAccess(now);
    if openFd >= 0 {
      e.fdRefcount := e.fdRefcount + 1;
    }
  }

  /**
   * The entry side of global_index_update_backend: the cached descriptor is
   * closed (its generation bumped when there was one), the location replaced,
   * and the lookup's reference given back with fd_ref_release.
   */
  method Repoint(ref: FdRef, backendId: u32, backendPath: CStr) returns (hadFd: bool)
    requires ref.entry != null
    modifies ref.entry
    ensures var e := ref.entry;
      && hadFd == (old(e.fd) >= 0)
      && e.Location() == (backendId, backendPath)
      && e.FdState() == (-1, old(e.fdRefcount) - (if ref.fd >= 0 then 1 else 0),
                         old(e.fdGeneration) + (if hadFd then 1 else 0))
      && e.refcount == old(e.refcount) - 1
      && e.Access() == old(e.Access()) && e.Meta() == old(e.Meta())
  {
    hadFd := ref.entry.Relocate(backendId, backendPath);
    var _, _ := Release(ref);
  }

  /** Linking a new key at the head of its own bucket keeps the chain invariants. */
  lemma PrependKeepsChainsValid(bs: seq<seq<IndexEntry>>, numBuckets: u64, b: nat, e: IndexEntry)
    requires Placed(bs, numBuckets) && KeysDistinct(bs) && b < |bs|
    requires BucketOf(e.uriHash, numBuckets) == b && FindIn(bs[b], e.uriHash, e.uri).None?
    ensures Placed(bs[b := [e] + bs[b]], numBuckets) && KeysDistinct(bs[b := [e] + bs[b]])
  {
    var c := [e] + bs[b];
    assert forall j | 1 <= j < |c| :: c[j] == bs[b][j - 1];
  }

  /**
   * Unlinking the entry a key matches keeps the chain invariants, and since
   * keys are distinct the key is then no longer in the chain.
   */
  lemma UnlinkKeepsChainsValid(bs: seq<seq<IndexEntry>>, numBuckets: u64, b: nat, i: nat,
                               hash: u64, key: CStr)
    requires Placed(bs, numBuckets) && KeysDistinct(bs) && b < |bs|
    requires FindIn(bs[b], hash, key) == Some(i)
    ensures Placed(bs[b := Unlink(bs[b], i)], numBuckets)
    ensures KeysDistinct(bs[b := Unlink(bs[b], i)])
    ensures FindIn(Unlink(bs[b], i), hash, key).None?
  {
    var c := Unlink(bs[b], i);
    forall k | 0 <= k < |c|
      ensures !Matches(c[k], hash, key)
    {
      var j := if k < i then k else k + 1;
      assert c[k] == bs[b][j];
    }
  }

  /* ---------------------------------------------------------------------- */
  /* The shared `next` link, as written                                      */

  /** The global index's bucket count as the server creates it. */
  const SERVER_GLOBAL_BUCKETS: u64 := 8192

  /** The bucket count of every backend index. */
  const BACKEND_INDEX_BUCKETS: u64 := 262144

  /**
   * The C entry has a single `next` field, and both the global index and the
   * backend index it is inserted into chain through it.  `next` maps a key to
   * the key its link points at (absent: NULL); each heads map takes a bucket
   * to the key at its head (absent: an empty bucket).
   */
  datatype SharedLinks = SharedLinks(next: map<CStr, CStr>, globalHeads: map<nat, CStr>,
                                     backendHeads: map<nat, CStr>)

  const NO_LINKS := SharedLinks(map[], map[], map[])

  function Head(heads: map<nat, CStr>, b: nat): Option<CStr>
  {
    if b in heads then Some(heads[b]) else None
  }

  /** The keys a chain walk meets from `head`, at most `fuel` of them. */
  function Walk(next: map<CStr, CStr>, head: Option<CStr>, fuel: nat): (r: seq<CStr>)
    ensures |r| <= fuel
    decreases fuel
  {
    if fuel == 0 || head.None? then []
    else [head.value] + Walk(next, LinkOf(next, head.value), fuel - 1)
  }

  /** The target of key's link. */
  function LinkOf(next: map<CStr, CStr>, key: CStr): Option<CStr>
  {
    if key in next then Some(next[key]) else None
  }

  /** entry->next := target */
  function Relink(next: map<CStr, CStr>, key: CStr, target: Option<CStr>): map<CStr, CStr>
  {
    if target.Some? then next[key := target.value] else next - {key}
  }

  /**
   * global_index_insert, then backend_index_insert of the same entry: each
   * stores its bucket's old head in the entry's one link and makes the
   * entry the head of its bucket.
   */
  function InsertBothAsWritten(s: SharedLinks, key: CStr, gb: nat, bb: nat): SharedLinks
  {
    var afterGlobal := s.(next := Relink(s.next, key, Head(s.globalHeads, gb)),
                          globalHeads := s.globalHeads[gb := key]);
    afterGlobal.(next := Relink(afterGlobal.next, key, Head(s.backendHeads, bb)),
                 backendHeads := s.backendHeads[bb := key])
  }

  function GlobalChain(s: SharedLinks, gb: nat, fuel: nat): seq<CStr>
  {
    Walk(s.next, Head(s.globalHeads, gb), fuel)
  }

  function BackendChain(s: SharedLinks, bb: nat, fuel: nat): seq<CStr>
  {
    Walk(s.next, Head(s.backendHeads, bb), fuel)
  }

  /** Rewriting the link of a key a walk never meets does not change the walk. */
  lemma {:induction false} WalkIgnoresOtherLinks(next: map<CStr, CStr>, head: Option<CStr>, fuel: nat,
                                                 key: CStr, target: Option<CStr>)
    requires key !in Walk(next, head, fuel)
    ensures Walk(Relink(next, key, target), head, fuel) == Walk(next, head, fuel)
    decreases fuel
  {
    if fuel > 0 && head.Some? {
      assert head.value != key;
      assert LinkOf(Relink(next, key, target), head.value) == LinkOf(next, head.value);
      WalkIgnoresOtherLinks(next, LinkOf(next, head.value), fuel - 1, key, target);
    }
  }

  /**
   * Pointing the link of the i-th key of a chain at another chain cuts the
   * first chain after that key and continues it with the other one.  This is
   * what backend_index_insert does to the global chain of an entry that is
   * already in the global index.
   */
  lemma {:induction false} RelinkCutsChain(next: map<CStr, CStr>, head: Option<CStr>, fuel: nat, i: nat,
                                           key: CStr, target: Option<CStr>)
    requires i < |Walk(next, head, fuel)| && Walk(next, head, fuel)[i] == key
    requires key !in Walk(next, head, fuel)[..i]
    requires key !in Walk(next, target, fuel - i - 1)
    ensures Walk(Relink(next, key, target), head, fuel)
         == Walk(next, head, fuel)[..i + 1] + Walk(next, target, fuel - i - 1)
    decreases i
  {
    var w := Walk(next, head, fuel);
    var k := head.value;
    var after := LinkOf(next, k);
    assert w == [k] + Walk(next, after, fuel - 1);
    if i == 0 {
      WalkIgnoresOtherLinks(next, target, fuel - 1, key, target);
    } else {
      assert k != key by { assert w[..i][0] == k; }
      assert LinkOf(Relink(next, key, target), k) == after;
      assert Walk(next, after, fuel - 1)[..i - 1] == w[..i][1..];
      RelinkCutsChain(next, after, fuel - 1, i - 1, key, target);
      assert w[..i + 1] == [k] + Walk(next, after, fuel - 1)[..i];
    }
  }

  /**
   * As written, once a new entry is in both indexes its global chain is the
   * entry followed by the chain of its backend bucket: whatever the global
   * bucket held before is no longer reachable from it.
   */
  lemma InsertBothRoutesGlobalChain(s: SharedLinks, key: CStr, gb: nat, bb: nat, fuel: nat)
    requires key !in BackendChain(s, bb, fuel)
    ensures GlobalChain(InsertBothAsWritten(s, key, gb, bb), gb, fuel + 1) == [key] + BackendChain(s, bb, fuel)
    ensures BackendChain(InsertBothAsWritten(s, key, gb, bb), bb, fuel + 1) == [key] + BackendChain(s, bb, fuel)
  {
    var t := InsertBothAsWritten(s, key, gb, bb);
    var target := Head(s.backendHeads, bb);
    assert t.next == Relink(s.next, key, target);
    WalkIgnoresOtherLinks(s.next, target, fuel, key, target);
  }

  /**
   * With a link of its own, global_index_insert alone puts the entry in
   * front of the bucket's old chain, which stays whole.
   */
  lemma GlobalInsertKeepsChain(next: map<CStr, CStr>, head: Option<CStr>, key: CStr, fuel: nat)
    requires key !in Walk(next, head, fuel)
    ensures Walk(Relink(next, key, head), Some(key), fuel + 1) == [key] + Walk(next, head, fuel)
  {
    WalkIgnoresOtherLinks(next, head, fuel, key, head);
  }

  /**
   * Two keys whose hashes share a global bucket but not a backend bucket,
   * created one after the other on the same backend: the global chain of
   * that bucket then holds only the second, so the first is never found.
   */
  lemma SecondCreateHidesFirst(x: CStr, y: CStr, fuel: nat)
    requires BucketOf(Fnv1a(x), SERVER_GLOBAL_BUCKETS) == BucketOf(Fnv1a(y), SERVER_GLOBAL_BUCKETS)
    requires BucketOf(Fnv1a(x), BACKEND_INDEX_BUCKETS) != BucketOf(Fnv1a(y), BACKEND_INDEX_BUCKETS)
    requires fuel >= 1
    ensures var g := BucketOf(Fnv1a(x), SERVER_GLOBAL_BUCKETS);
      var s1 := InsertBothAsWritten(NO_LINKS, x, g, BucketOf(Fnv1a(x), BACKEND_INDEX_BUCKETS));
      var s2 := InsertBothAsWritten(s1, y, g, BucketOf(Fnv1a(y), BACKEND_INDEX_BUCKETS));
      GlobalChain(s1, g, fuel) == [x] && GlobalChain(s2, g, fuel) == [y]
  {
    SecondInsertHidesFirst(x, y, BucketOf(Fnv1a(x), SERVER_GLOBAL_BUCKETS),
                           BucketOf(Fnv1a(x), BACKEND_INDEX_BUCKETS), BucketOf(Fnv1a(y), BACKEND_INDEX_BUCKETS), fuel);
  }

  lemma SecondInsertHidesFirst(x: CStr, y: CStr, g: nat, xBucket: nat, yBucket: nat, fuel: nat)
    requires xBucket != yBucket && fuel >= 1
    ensures var s1 := InsertBothAsWritten(NO_LINKS, x, g, xBucket);
      GlobalChain(s1, g, fuel) == [x] && GlobalChain(InsertBothAsWritten(s1, y, g, yBucket), g, fuel) == [y]
  {
    var s1 := InsertBothAsWritten(NO_LINKS, x, g, xBucket);
    assert s1.next == map[] && Head(s1.globalHeads, g) == Some(x);
    assert Walk(map[], None, fuel - 1) == [];
    var s2 := InsertBothAsWritten(s1, y, g, yBucket);
    assert s2.next == map[] && Head(s2.globalHeads, g) == Some(y);
  }
}
