/**
 * The per-backend index: a chained hash table of the entries one backend
 * holds, with a dirty flag, and its persistence to the index file format of
 * module IndexFile.  Duplicate keys are allowed here; a lookup finds the most
 * recently inserted one.
 */
module IndexBackend {
  import opened Bytes
  import opened Bits
  import opened Wrappers
  import opened IndexHash
  import opened IndexTables
  import opened IndexFile

  /* ---------------------------------------------------------------------- */
  /* What is saved                                                           */

  /** The fields backend_index_save writes for an entry. */
  function RecordOf(e: IndexEntry): Record
    reads e`backendPath, e`sizeBytes, e`mtime, e`flags
  {
    Record(e.uri, e.backendPath, e.sizeBytes, e.mtime, e.flags)
  }

  /** The records of a chain, head first. */
  function ChainRecords(c: seq<IndexEntry>): (rs: seq<Record>)
    reads (set e | e in c)`backendPath, (set e | e in c)`sizeBytes, (set e | e in c)`mtime, (set e | e in c)`flags
    ensures |rs| == |c|
  {
    if c == [] then [] else [RecordOf(c[0])] + ChainRecords(c[1..])
  }

  /** The records of every chain, bucket by bucket. */
  function TableRecords(bs: seq<seq<IndexEntry>>): (v: seq<seq<Record>>)
    reads Members(bs)`backendPath, Members(bs)`sizeBytes, Members(bs)`mtime, Members(bs)`flags
    ensures |v| == |bs|
  {
    if bs == [] then []
    else
      var c := bs[|bs| - 1];
      assert c in bs;
      TableRecords(bs[..|bs| - 1]) + [ChainRecords(c)]
  }

  /** The chains one after another. */
  function Flatten<T>(v: seq<seq<T>>): seq<T>
  {
    if v == [] then [] else Flatten(v[..|v| - 1]) + v[|v| - 1]
  }

  /* ---------------------------------------------------------------------- */
  /* What is loaded                                                          */

  /**
   * backend_index_insert of a loaded record: it goes to the head of the chain
   * its key's hash selects (the else arm is never taken when there are as
   * many chains as the bucket count).
   */
  function Push(v: seq<seq<Record>>, r: Record, numBuckets: u64): (w: seq<seq<Record>>)
    ensures |w| == |v|
  {
    var b := BucketOf(Fnv1a(r.uri), numBuckets);
    if b < |v| then v[b := [r] + v[b]] else v
  }

  /** The chains after loading rs in file order into v. */
  function LoadInto(v: seq<seq<Record>>, rs: seq<Record>, numBuckets: u64): (w: seq<seq<Record>>)
    ensures |w| == |v|
  {
    if rs == [] then v else Push(LoadInto(v, rs[..|rs| - 1], numBuckets), rs[|rs| - 1], numBuckets)
  }

  /** n empty chains. */
  function Empties(n: nat): (v: seq<seq<Record>>)
    ensures |v| == n && forall b | 0 <= b < n :: v[b] == []
  {
    seq(n, _ => [])
  }

  /** s back to front. */
  function Reverse<T>(s: seq<T>): (r: seq<T>)
    ensures |r| == |s| && forall i | 0 <= i < |s| :: r[i] == s[|s| - 1 - i]
  {
    if s == [] then [] else [s[|s| - 1]] + Reverse(s[..|s| - 1])
  }

  /** Every chain reversed. */
  function ReverseEach<T>(v: seq<seq<T>>): (w: seq<seq<T>>)
    ensures |w| == |v| && forall b | 0 <= b < |v| :: w[b] == Reverse(v[b])
  {
    seq(|v|, b requires 0 <= b < |v| => Reverse(v[b]))
  }

  /** Every record sits in the chain its key's hash selects. */
  predicate RecordsPlaced(v: seq<seq<Record>>, numBuckets: u64)
  {
    forall b, i | 0 <= b < |v| && 0 <= i < |v[b]| :: BucketOf(Fnv1a(v[b][i].uri), numBuckets) == b
  }

  /** The walk down one chain in backend_index_save, writing each entry's record. */
  method EncodeChain(chain: seq<IndexEntry>) returns (out: seq<byte>)
    ensures out == EncodeRecords(ChainRecords(chain))
  {
    out := [];
    var i := 0;
    while i < |chain|
      invariant i <= |chain|
      invariant out == EncodeRecords(ChainRecords(chain[..i]))
    {
      EncodeChainStep(chain, i);
      out := out + EncodeRecord(RecordOf(chain[i]));
      i := i + 1;
    }
    assert chain[..i] == chain;
  }

  /* ---------------------------------------------------------------------- */
  /* Backend index                                                           */

  /**
   * backend_index_t.  `persistEnabled` is whether an index file path was
   * given; the path itself and the file system are outside the model.
   */
  class BackendIndex {
    const backendId: u32
    const numBuckets: u64
    ghost const bucketBits: nat
    const persistEnabled: bool
    var buckets: seq<seq<IndexEntry>>
    var numEntries: nat
    var dirty: bool
    var lookups: nat
    var hits: nat

    /**
     * Power-of-two bucket count, every entry in the bucket its stored hash
     * selects and that hash its key's, the entry count, and no more hits than
     * lookups.
     */
    ghost predicate Valid()
      reads this
    {
      PowerOfTwoBuckets() && |buckets| == numBuckets
      && Placed(buckets, numBuckets) && HashesOk(buckets)
      && numEntries == Total(buckets)
      && hits <= lookups
    }

    /** backend_index_create: next_pow2(num_buckets) empty chains, clean, zeroed counters. */
    constructor (backendId: u32, persistEnabled: bool, requestedBuckets: u64)
      requires 1 <= requestedBuckets <= 0x8000_0000_0000_0000
      ensures Valid() && fresh(this)
      ensures this.backendId == backendId && this.persistEnabled == persistEnabled
      ensures numBuckets == RoundedUp(requestedBuckets)
      ensures View() == Empties(numBuckets)
      ensures numEntries == 0 && !dirty && lookups == 0 && hits == 0
    {
      var n := NextPowerOf2(requestedBuckets);
      RoundedUpExponent(requestedBuckets);
      this.backendId := backendId;
      numBuckets := n;
      bucketBits := BitLen(Pred64(requestedBuckets));
      this.persistEnabled := persistEnabled;
      var empty: seq<seq<IndexEntry>> := seq(n, _ => []);
      TotalEmpty(empty);
      EmptyTableRecords(empty);
      buckets := empty;
      numEntries := 0;
      dirty := false;
      lookups := 0;
      hits := 0;
    }

    /** hash & (num_buckets - 1) */
    function Bucket(hash: u64): nat
    {
      BucketOf(hash, numBuckets)
    }

    /** The bucket count is 2^bucketBits with bucketBits <= 63. */
    ghost predicate PowerOfTwoBuckets()
    {
      numBuckets == Pow2(bucketBits) && bucketBits <= 63
    }

    lemma BucketValid(hash: u64)
      requires PowerOfTwoBuckets()
      ensures Bucket(hash) < numBuckets
    {
      BucketInRange(hash, bucketBits);
    }

    /** Where a lookup of key stops: the position of its newest entry in its chain, if any. */
    ghost function Find(key: CStr): Option<nat>
      reads this
      requires Valid()
    {
      FindKey(buckets, numBuckets, bucketBits, key)
    }

    /** The entry a lookup of key finds. */
    ghost function Entry(key: CStr): IndexEntry
      reads this
      requires Valid() && Find(key).Some?
    {
      BucketValid(Fnv1a(key));
      buckets[Bucket(Fnv1a(key))][Find(key).value]
    }

    /** The one entry a removal of key changes: the one it finds. */
    ghost function Found(key: CStr): set<IndexEntry>
      reads this
      requires Valid()
    {
      if Find(key).Some? then {Entry(key)} else {}
    }

    /** The saved fields of every entry, chain by chain. */
    function View(): seq<seq<Record>>
      reads this`buckets, Members(buckets)`backendPath, Members(buckets)`sizeBytes, Members(buckets)`mtime, Members(buckets)`flags
    {
      TableRecords(buckets)
    }

    /** The file backend_index_save writes: the header, then the chains in bucket order. */
    function Image(pad: seq<byte>): seq<byte>
      requires |pad| == 4
      reads this`buckets, this`numEntries, Members(buckets)`backendPath, Members(buckets)`sizeBytes, Members(buckets)`mtime, Members(buckets)`flags
    {
      EncodeHeader(Header(backendId, numEntries % U64_MODULUS, numBuckets), pad)
        + EncodeRecords(Flatten(View()))
    }

    /** A valid index's view has each record in its key's chain and numEntries records. */
    lemma ViewPlaced()
      requires Valid()
      ensures RecordsPlaced(View(), numBuckets)
      ensures |Flatten(View())| == numEntries
    {
      var v: seq<seq<Record>> := View();
      forall b, i | 0 <= b < |v| && 0 <= i < |v[b]|
        ensures BucketOf(Fnv1a(v[b][i].uri), numBuckets) == b
      {
        TableRecordsAt(buckets, b);
        ChainRecordsAt(buckets[b], i);
        assert buckets[b][i].HashOk();
      }
      FlattenLength(View());
      TotalOfView(buckets);
    }

    /**
     * backend_index_insert: takes a reference for the index and links the
     * entry at the head of its chain, so it shadows any older entry with the
     * same key.  The entry must not already be linked in (the C code would
     * make its chain a cycle) and must come from index_entry_create, which
     * stores its key's hash.
     */
    method Insert(entry: IndexEntry) returns (rc: int)
      requires Valid() && entry.HashOk() && entry !in Members(buckets)
      modifies this, entry
      ensures Valid()
      ensures rc == 0 && dirty && numEntries == old(numEntries) + 1
      ensures lookups == old(lookups) && hits == old(hits)
      ensures var b := Bucket(entry.uriHash);
        b < |old(buckets)| && buckets == old(buckets)[b := [entry] + old(buckets)[b]]
      ensures entry.refcount == old(entry.refcount) + 1
      ensures entry.Location() == old(entry.Location()) && entry.Meta() == old(entry.Meta())
      ensures entry.FdState() == old(entry.FdState()) && entry.Access() == old(entry.Access())
      ensures View() == Push(old(View()), old(RecordOf(entry)), numBuckets)
      ensures Find(entry.uri) == Some(0) && Entry(entry.uri) == entry
    {
      BucketValid(entry.uriHash);
      var b := Bucket(entry.uriHash);
      var ob := buckets;
      entry.Get();
      assert TableRecords(ob) == old(View());
      var c := [entry] + ob[b];
      var nb := ob[b := c];
      PrependRecords(ob, b, entry);
      PrependKeepsPlaced(ob, numBuckets, b, entry);
      TotalUpdate(ob, b, c);
      ghost var v1 := TableRecords(nb);
      buckets := nb;
      numEntries := numEntries + 1;
      dirty := true;
      assert View() == v1;
      UpToNulOfNulFree(entry.uri);
      rc := 0;
    }

    /** backend_index_lookup: counts the lookup and any hit; no reference is taken. */
    method Lookup(uri: CStr) returns (e: IndexEntry?)
      requires Valid()
      modifies this
      ensures Valid() && buckets == old(buckets) && numEntries == old(numEntries)
      ensures dirty == old(dirty) && lookups == old(lookups) + 1
      ensures old(Find(uri)).None? ==> e == null && hits == old(hits)
      ensures old(Find(uri)).Some? ==> e == old(Entry(uri)) && hits == old(hits) + 1
    {
      lookups := lookups + 1;
      var hash := HashString(uri);
      UpToNulOfNulFree(uri);
      BucketValid(hash);
      var b := Bucket(hash);
      var at := Scan(buckets[b], hash, uri);
      if at.None? {
        return null;
      }
      hits := hits + 1;
      e := buckets[b][at.value];
    }

    /**
     * backend_index_remove: unlinks the newest entry with the key and drops
     * the index's reference; an older duplicate becomes visible again.  A
     * missing key changes nothing.
     */
    method Remove(uri: CStr) returns (rc: int)
      requires Valid()
      modifies this, Found(uri)
      ensures Valid()
      ensures lookups == old(lookups) && hits == old(hits)
      ensures old(Find(uri)).None? ==>
        rc == -1 && buckets == old(buckets) && numEntries == old(numEntries) && dirty == old(dirty)
      ensures old(Find(uri)).Some? ==>
        var b, i, e := Bucket(Fnv1a(uri)), old(Find(uri)).value, old(Entry(uri));
        b < |old(buckets)| && i < |old(buckets)[b]|
        && rc == 0 && dirty && buckets == old(buckets)[b := Unlink(old(buckets)[b], i)]
        && numEntries == old(numEntries) - 1
        && e.refcount == old(e.refcount) - 1
        && e.Location() == old(e.Location()) && e.Meta() == old(e.Meta())
        && e.FdState() == old(e.FdState()) && e.Access() == old(e.Access())
    {
      var hash := HashString(uri);
      UpToNulOfNulFree(uri);
      BucketValid(hash);
      var b := Bucket(hash);
      var at := Scan(buckets[b], hash, uri);
      if at.None? {
        return -1;
      }
      var e := buckets[b][at.value];
      var c := Unlink(buckets[b], at.value);
      TotalUpdate(buckets, b, c);
      buckets := buckets[b := c];
      var _ := e.Put();
      numEntries := numEntries - 1;
      dirty := true;
      rc := 0;
    }

    /** The bytes backend_index_save writes, gathered chain by chain; nothing changes. */
    method Serialize(pad: seq<byte>) returns (image: seq<byte>)
      requires |pad| == 4
      ensures image == Image(pad)
    {
      var hdr := EncodeHeader(Header(backendId, numEntries % U64_MODULUS, numBuckets), pad);
      var bs := buckets;
      ghost var v := View();
      var body := [];
      assert forall e | e in Members(bs) :: allocated(e);
      var b := 0;
      while b < |bs|
        invariant b <= |bs| && buckets == bs && View() == v
        invariant body == EncodeRecords(Flatten(v[..b]))
      {
        var out := EncodeChain(bs[b]);
        EncodeTableStep(bs, b);
        body := body + out;
        b := b + 1;
      }
      assert v[..b] == v;
      image := hdr + body;
    }

    /**
     * backend_index_save.  `fsOk` says whether opening the temporary file,
     * writing the header and renaming it over the index file succeed; on
     * success the index is clean and `image` is the file's new content.
     * The results of the record writes are ignored: `recordBytes` is how
     * many bytes of the records reach the file, and a short count still
     * reports success and clears the dirty flag over a truncated file.
     */
    method Save(pad: seq<byte>, fsOk: bool, recordBytes: nat) returns (rc: int, image: Option<seq<byte>>)
      requires |pad| == 4
      modifies this
      ensures buckets == old(buckets) && numEntries == old(numEntries)
      ensures lookups == old(lookups) && hits == old(hits)
      ensures !persistEnabled || !fsOk ==> rc == -1 && image == None && dirty == old(dirty)
      ensures persistEnabled && fsOk ==>
        rc == 0 && !dirty && image.Some?
        && image.value == Image(pad)[..if HEADER_SIZE + recordBytes < |Image(pad)| then HEADER_SIZE + recordBytes
                                      else |Image(pad)|]
    {
      if !persistEnabled || !fsOk {
        return -1, None;
      }
      var bytes := Serialize(pad);
      var kept := if HEADER_SIZE + recordBytes < |bytes| then HEADER_SIZE + recordBytes else |bytes|;
      dirty := false;
      return 0, Some(bytes[..kept]);
    }

    /**
     * One record read by backend_index_load: a new entry of this backend with
     * the record's fields, inserted like any other, so it holds two references.
     */
    method LoadRecord(r: Record)
      requires Valid()
      modifies this
      ensures Valid() && dirty
      ensures numEntries == old(numEntries) + 1
      ensures lookups == old(lookups) && hits == old(hits)
      ensures View() == Push(old(View()), r, numBuckets)
      ensures exists e :: Members(buckets) == old(Members(buckets)) + {e} && fresh(e) && e.refcount == 2
    {
      var e := new IndexEntry(r.uri, backendId, r.path);
      e.sizeBytes := r.size;
      e.mtime := r.mtime;
      e.flags := r.flags;
      assert RecordOf(e) == r;
      ghost var ob := buckets;
      assert e !in Members(ob);
      var _ := Insert(e);
      MembersPrepend(ob, Bucket(e.uriHash), e);
      assert Members(buckets) == old(Members(buckets)) + {e} && e.refcount == 2;
    }

    /**
     * backend_index_load.  `file` is the index file's content, None when it
     * cannot be opened; `junk` stands for what the metadata variables hold
     * when their reads come up short.  Each record read becomes a new entry of
     * this backend inserted at the head of its chain, so the entries count two
     * references though only this index holds them.
     */
    method Load(file: Option<seq<byte>>, junk: seq<byte>) returns (rc: int)
      requires Valid() && |junk| == META_SIZE
      modifies this
      ensures Valid()
      ensures lookups == old(lookups) && hits == old(hits)
      ensures !persistEnabled || file.None? || ParseImage(file.value, junk).None? ==>
        rc == -1 && buckets == old(buckets) && numEntries == old(numEntries) && dirty == old(dirty)
      ensures persistEnabled && file.Some? && ParseImage(file.value, junk).Some? ==>
        var rs := ParseImage(file.value, junk).value;
        rc == |rs| && numEntries == old(numEntries) + |rs| && !dirty
        && View() == LoadInto(old(View()), rs, numBuckets)
    {
      if !persistEnabled || file.None? {
        return -1;
      }
      var bytes := file.value;
      var h := ParseHeader(bytes);
      if h.None? {
        return -1;
      }
      var records := ParseRecords(bytes[HEADER_SIZE..], h.value.numEntries, junk);
      var loaded := LoadRecords(records);
      ghost var v := View();
      dirty := false;
      assert View() == v;
      rc := loaded;
    }

    /**
     * The record loop of backend_index_load, on the records it reads: each
     * one is inserted in file order.
     */
    method LoadRecords(rs: seq<Record>) returns (loaded: int)
      requires Valid()
      modifies this
      ensures Valid() && dirty == (old(dirty) || rs != [])
      ensures loaded == |rs| && numEntries == old(numEntries) + |rs|
      ensures View() == LoadInto(old(View()), rs, numBuckets)
      ensures lookups == old(lookups) && hits == old(hits)
    {
      ghost var v0 := View();
      loaded := 0;
      while loaded < |rs|
        invariant Valid() && dirty == (old(dirty) || loaded > 0)
        invariant 0 <= loaded <= |rs|
        invariant numEntries == old(numEntries) + loaded
        invariant lookups == old(lookups) && hits == old(hits)
        invariant View() == LoadInto(v0, rs[..loaded], numBuckets)
      {
        LoadRecord(rs[loaded]);
        LoadIntoSnoc(v0, rs, loaded, numBuckets);
        loaded := loaded + 1;
      }
      assert rs[..loaded] == rs;
    }
  }

  /* ---------------------------------------------------------------------- */
  /* Lemmas                                                                  */

  lemma {:induction false} ChainRecordsAt(c: seq<IndexEntry>, i: nat)
    requires i < |c|
    ensures ChainRecords(c)[i] == RecordOf(c[i])
  {
    if i > 0 {
      ChainRecordsAt(c[1..], i - 1);
    }
  }

  lemma {:induction false} TableRecordsAt(bs: seq<seq<IndexEntry>>, b: nat)
    requires b < |bs|
    ensures TableRecords(bs)[b] == ChainRecords(bs[b])
  {
    var n := |bs| - 1;
    if b < n {
      TableRecordsAt(bs[..n], b);
    }
  }

  /** A table of empty chains has no records. */
  lemma EmptyTableRecords(bs: seq<seq<IndexEntry>>)
    requires forall b | 0 <= b < |bs| :: bs[b] == []
    ensures TableRecords(bs) == Empties(|bs|)
  {
    var v := TableRecords(bs);
    forall b | 0 <= b < |v|
      ensures v[b] == []
    {
      TableRecordsAt(bs, b);
    }
  }

  /** Linking e at the head of chain b adds it to the members and nothing else. */
  lemma MembersPrepend(bs: seq<seq<IndexEntry>>, b: nat, e: IndexEntry)
    requires b < |bs|
    ensures Members(bs[b := [e] + bs[b]]) == Members(bs) + {e}
  {
    var nb := bs[b := [e] + bs[b]];
    forall x | x in Members(nb)
      ensures x in Members(bs) || x == e
    {
      var k, y :| 0 <= k < |nb| && y == x && x in nb[k];
      if k != b {
        assert nb[k] == bs[k] && bs[k] in bs;
      } else if x != e {
        var j :| 0 <= j < |nb[b]| && nb[b][j] == x;
        assert bs[b][j - 1] == x && bs[b] in bs;
      }
    }
    forall x | x in Members(bs)
      ensures x in Members(nb)
    {
      var c :| c in bs && x in c;
      var k :| 0 <= k < |bs| && bs[k] == c;
      if k != b {
        assert nb[k] == c && nb[k] in nb && x in nb[k];
      } else {
        var j :| 0 <= j < |c| && c[j] == x;
        assert nb[b][j + 1] == x;
        assert nb[b] in nb && x in nb[b];
      }
    }
    assert nb[b][0] == e && nb[b] in nb && e in nb[b];
  }

  /** Every entry linked into a table is one of its members. */
  lemma InMembers(bs: seq<seq<IndexEntry>>)
    ensures forall b, i | 0 <= b < |bs| && 0 <= i < |bs[b]| :: bs[b][i] in Members(bs)
  {
    forall b, i | 0 <= b < |bs| && 0 <= i < |bs[b]|
      ensures bs[b][i] in Members(bs)
    {
      assert bs[b] in bs && bs[b][i] in bs[b];
    }
  }

  /** Replacing one chain replaces its records and no others. */
  lemma TableRecordsUpdate(bs: seq<seq<IndexEntry>>, b: nat, c: seq<IndexEntry>)
    requires b < |bs|
    ensures TableRecords(bs[b := c]) == TableRecords(bs)[b := ChainRecords(c)]
  {
    var l, r := TableRecords(bs[b := c]), TableRecords(bs)[b := ChainRecords(c)];
    forall k | 0 <= k < |l|
      ensures l[k] == r[k]
    {
      TableRecordsAt(bs[b := c], k);
      TableRecordsAt(bs, k);
    }
  }

  /** Linking e at the head of chain b puts its record at the head of that chain's records. */
  lemma PrependRecords(bs: seq<seq<IndexEntry>>, b: nat, e: IndexEntry)
    requires b < |bs|
    ensures TableRecords(bs[b := [e] + bs[b]]) == TableRecords(bs)[b := [RecordOf(e)] + TableRecords(bs)[b]]
  {
    var c := [e] + bs[b];
    assert c[1..] == bs[b];
    TableRecordsUpdate(bs, b, c);
    TableRecordsAt(bs, b);
  }

  /** Linking e, whose stored hash is its key's and selects chain b, at the head of b keeps the table placed. */
  lemma PrependKeepsPlaced(bs: seq<seq<IndexEntry>>, numBuckets: u64, b: nat, e: IndexEntry)
    requires Placed(bs, numBuckets) && HashesOk(bs) && b < |bs|
    requires BucketOf(e.uriHash, numBuckets) == b && e.HashOk()
    ensures Placed(bs[b := [e] + bs[b]], numBuckets) && HashesOk(bs[b := [e] + bs[b]])
  {
    var c := [e] + bs[b];
    assert forall j | 1 <= j < |c| :: c[j] == bs[b][j - 1];
  }

  /** The records of a chain's first i + 1 entries extend those of its first i. */
  lemma ChainRecordsSnoc(c: seq<IndexEntry>, i: nat)
    requires i < |c|
    ensures ChainRecords(c[..i + 1]) == ChainRecords(c[..i]) + [RecordOf(c[i])]
  {
    var l, r := ChainRecords(c[..i + 1]), ChainRecords(c[..i]) + [RecordOf(c[i])];
    forall k | 0 <= k < |l|
      ensures l[k] == r[k]
    {
      ChainRecordsAt(c[..i + 1], k);
      if k < i {
        ChainRecordsAt(c[..i], k);
      }
    }
  }

  /** One more entry of the chain adds its record's bytes. */
  lemma EncodeChainStep(c: seq<IndexEntry>, i: nat)
    requires i < |c|
    ensures EncodeRecords(ChainRecords(c[..i + 1])) == EncodeRecords(ChainRecords(c[..i])) + EncodeRecord(RecordOf(c[i]))
  {
    ChainRecordsSnoc(c, i);
    EncodeRecordsSnoc(ChainRecords(c[..i]), RecordOf(c[i]));
  }

  /** One more chain of the table adds its records' bytes. */
  lemma EncodeTableStep(bs: seq<seq<IndexEntry>>, b: nat)
    requires b < |bs|
    ensures EncodeRecords(Flatten(TableRecords(bs)[..b + 1]))
         == EncodeRecords(Flatten(TableRecords(bs)[..b])) + EncodeRecords(ChainRecords(bs[b]))
  {
    TableRecordsAt(bs, b);
    EncodeFlattenStep(TableRecords(bs), b);
  }

  /** One more chain of records adds its bytes to the encoding of the flattened prefix. */
  lemma EncodeFlattenStep(v: seq<seq<Record>>, b: nat)
    requires b < |v|
    ensures EncodeRecords(Flatten(v[..b + 1])) == EncodeRecords(Flatten(v[..b])) + EncodeRecords(v[b])
  {
    assert v[..b + 1][..b] == v[..b];
    EncodeRecordsAppend(Flatten(v[..b]), v[b]);
  }

  /** The flattened chains hold Total of them. */
  lemma {:induction false} FlattenLength<T>(v: seq<seq<T>>)
    ensures |Flatten(v)| == Total(v)
  {
    if v != [] {
      FlattenLength(v[..|v| - 1]);
    }
  }

  /** A table and its records have the same chain lengths. */
  lemma {:induction false} TotalOfView(bs: seq<seq<IndexEntry>>)
    ensures Total(TableRecords(bs)) == Total(bs)
  {
    if bs != [] {
      var n := |bs| - 1;
      assert TableRecords(bs)[..n] == TableRecords(bs[..n]);
      TotalOfView(bs[..n]);
    }
  }

  /** Loading one more record of a list pushes it onto what its prefix loaded. */
  lemma LoadIntoSnoc(v: seq<seq<Record>>, rs: seq<Record>, i: nat, nb: u64)
    requires i < |rs|
    ensures LoadInto(v, rs[..i + 1], nb) == Push(LoadInto(v, rs[..i], nb), rs[i], nb)
  {
    assert rs[..i + 1][..i] == rs[..i];
  }

  /** Loading one list after another is loading their concatenation. */
  lemma {:induction false} LoadIntoAppend(v: seq<seq<Record>>, xs: seq<Record>, ys: seq<Record>, nb: u64)
    ensures LoadInto(v, xs + ys, nb) == LoadInto(LoadInto(v, xs, nb), ys, nb)
  {
    if ys != [] {
      var n := |ys| - 1;
      var zs := xs + ys;
      assert zs[..|zs| - 1] == xs + ys[..n] && zs[|zs| - 1] == ys[n];
      LoadIntoAppend(v, xs, ys[..n], nb);
      calc {
        LoadInto(v, zs, nb);
        Push(LoadInto(v, xs + ys[..n], nb), ys[n], nb);
        Push(LoadInto(LoadInto(v, xs, nb), ys[..n], nb), ys[n], nb);
        LoadInto(LoadInto(v, xs, nb), ys, nb);
      }
    } else {
      assert xs + ys == xs;
    }
  }

  /** Records that all belong to chain b land there, last one first. */
  lemma {:induction false} LoadIntoOneBucket(v: seq<seq<Record>>, ys: seq<Record>, b: nat, nb: u64)
    requires b < |v|
    requires forall k | 0 <= k < |ys| :: BucketOf(Fnv1a(ys[k].uri), nb) == b
    ensures LoadInto(v, ys, nb) == v[b := Reverse(ys) + v[b]]
  {
    if ys != [] {
      var n := |ys| - 1;
      LoadIntoOneBucket(v, ys[..n], b, nb);
      var w := v[b := Reverse(ys[..n]) + v[b]];
      assert Push(w, ys[n], nb) == w[b := [ys[n]] + w[b]];
      assert Reverse(ys) == [ys[n]] + Reverse(ys[..n]);
      assert [ys[n]] + (Reverse(ys[..n]) + v[b]) == Reverse(ys) + v[b];
    } else {
      assert Reverse(ys) == [] && [] + v[b] == v[b];
      assert v[b := v[b]] == v;
    }
  }

  /** The chains of v reversed up to c, and empty from there on. */
  function ReversedUpTo(v: seq<seq<Record>>, c: nat): (w: seq<seq<Record>>)
    ensures |w| == |v|
  {
    seq(|v|, b requires 0 <= b < |v| => if b < c then Reverse(v[b]) else [])
  }

  /** Loading the first c chains of a placed table into empty chains reverses each of them. */
  lemma {:induction false} LoadPrefixReverses(v: seq<seq<Record>>, nb: u64, c: nat)
    requires |v| == nb && c <= |v| && RecordsPlaced(v, nb)
    ensures LoadInto(Empties(nb), Flatten(v[..c]), nb) == ReversedUpTo(v, c)
  {
    if c == 0 {
      assert ReversedUpTo(v, 0) == Empties(nb);
    } else {
      LoadPrefixReverses(v, nb, c - 1);
      LoadPrefixStep(v, nb, c - 1, c);
    }
  }

  /** The inductive step of LoadPrefixReverses: chain k is loaded after chains 0..k-1. */
  lemma LoadPrefixStep(v: seq<seq<Record>>, nb: u64, k: nat, c: nat)
    requires |v| == nb && c == k + 1 && c <= |v| && RecordsPlaced(v, nb)
    requires LoadInto(Empties(nb), Flatten(v[..k]), nb) == ReversedUpTo(v, k)
    ensures LoadInto(Empties(nb), Flatten(v[..c]), nb) == ReversedUpTo(v, c)
  {
    assert v[..c][..k] == v[..k];
    assert Flatten(v[..c]) == Flatten(v[..k]) + v[k];
    LoadIntoAppend(Empties(nb), Flatten(v[..k]), v[k], nb);
    var w := ReversedUpTo(v, k);
    assert forall i | 0 <= i < |v[k]| :: BucketOf(Fnv1a(v[k][i].uri), nb) == k;
    LoadIntoOneBucket(w, v[k], k, nb);
    assert w[k] == [];
    assert Reverse(v[k]) + [] == Reverse(v[k]);
    ReversedUpToStep(v, k, c);
  }

  lemma ReversedUpToStep(v: seq<seq<Record>>, k: nat, c: nat)
    requires c == k + 1 && c <= |v|
    ensures ReversedUpTo(v, k)[k := Reverse(v[k])] == ReversedUpTo(v, c)
  {
    var u, r := ReversedUpTo(v, k)[k := Reverse(v[k])], ReversedUpTo(v, c);
    forall b | 0 <= b < |v|
      ensures u[b] == r[b]
    {
    }
  }

  /**
   * Reloading a saved table reverses every chain: the loader inserts each
   * record at the head of the same chain it was saved from.
   */
  lemma ReloadReversesChains(v: seq<seq<Record>>, nb: u64)
    requires |v| == nb && RecordsPlaced(v, nb)
    ensures LoadInto(Empties(nb), Flatten(v), nb) == ReverseEach(v)
  {
    LoadPrefixReverses(v, nb, |v|);
    assert v[..|v|] == v;
    assert ReversedUpTo(v, |v|) == ReverseEach(v);
  }

  /**
   * A saved table loads back in full: the image parses to its records in
   * bucket order when every string fits its length field, and loading them
   * into empty chains gives each chain back reversed.
   */
  lemma SaveThenLoad(v: seq<seq<Record>>, nb: u64, id: u32, pad: seq<byte>, junk: seq<byte>)
    requires |v| == nb && RecordsPlaced(v, nb) && |pad| == 4 && |junk| == META_SIZE
    requires |Flatten(v)| < U64_MODULUS
    requires forall k | 0 <= k < |Flatten(v)| :: Fits(Flatten(v)[k])
    ensures var image := EncodeHeader(Header(id, |Flatten(v)|, nb), pad) + EncodeRecords(Flatten(v));
      ParseImage(image, junk) == Some(Flatten(v))
      && LoadInto(Empties(nb), Flatten(v), nb) == ReverseEach(v)
  {
    ImageRoundTrip(Header(id, |Flatten(v)|, nb), pad, Flatten(v), junk);
    ReloadReversesChains(v, nb);
  }
}
