/**
 * The persistent backend-index file written by backend_index_save and read
 * by backend_index_load: a 32-byte header followed by one record per entry.
 * The file is modelled as the byte sequence a reader of it would see.
 */
module IndexFile {
  import opened Bytes
  import opened Wrappers
  import opened IndexHash

  /** "OBJIDX" */
  const INDEX_MAGIC: seq<byte> := [0x4F, 0x42, 0x4A, 0x49, 0x44, 0x58]
  const INDEX_VERSION: nat := 2
  /** sizeof the header struct: magic[6], u16 version, u32 backend id, 4 padding bytes, two u64. */
  const HEADER_SIZE: nat := 32
  /** The fixed tail of a record: u64 size, u64 mtime, u32 flags. */
  const META_SIZE: nat := 20

  datatype Header = Header(backendId: u32, numEntries: u64, numBuckets: u64)

  /** What a record carries for one entry. */
  datatype Record = Record(uri: CStr, path: CStr, size: u64, mtime: u64, flags: u32)

  /** A record whose strings fit the 16-bit length fields. */
  predicate Fits(r: Record)
  {
    |r.uri| < 0x1_0000 && |r.path| < 0x1_0000
  }

  /** The header bytes; `pad` is whatever the struct's padding held. */
  function EncodeHeader(h: Header, pad: seq<byte>): (r: seq<byte>)
    requires |pad| == 4
    ensures |r| == HEADER_SIZE
  {
    INDEX_MAGIC + LE(INDEX_VERSION, 2) + LE(h.backendId, 4) + pad
      + LE(h.numEntries, 8) + LE(h.numBuckets, 8)
  }

  /**
   * A string field: `strlen` stored into a uint16_t, so the length wraps
   * modulo 2^16 and only that many bytes of the string are written.
   */
  function EncodeString(s: CStr): (b: seq<byte>)
    ensures |b| >= 2
  {
    var n := |s| % 0x1_0000;
    LE(n, 2) + s[..n]
  }

  /** The fixed tail of a record. */
  function EncodeMeta(size: u64, mtime: u64, flags: u32): (b: seq<byte>)
    ensures |b| == META_SIZE
  {
    LE(size, 8) + LE(mtime, 8) + LE(flags, 4)
  }

  /** One record: uri, backend path, then size, mtime and flags. */
  function EncodeRecord(r: Record): (b: seq<byte>)
    ensures |b| >= 4 + META_SIZE
  {
    EncodeString(r.uri) + EncodeString(r.path) + EncodeMeta(r.size, r.mtime, r.flags)
  }

  /** The records one after another, in the order given. */
  function EncodeRecords(rs: seq<Record>): seq<byte>
  {
    if rs == [] then [] else EncodeRecords(rs[..|rs| - 1]) + EncodeRecord(rs[|rs| - 1])
  }

  /**
   * The header as backend_index_load checks it: a full 32-byte read, the
   * magic, then the version.  The stored backend id and bucket count are
   * decoded here but the loader does not use them.
   */
  function ParseHeader(file: seq<byte>): Option<Header>
  {
    if |file| < HEADER_SIZE then None
    else if file[..6] != INDEX_MAGIC then None
    else if FromLE(file[6..8]) != INDEX_VERSION then None
    else Some(Header(FromLE(file[8..12]), FromLE(file[16..24]), FromLE(file[24..32])))
  }

  /**
   * A length-prefixed string read from `rest`, or None on a short read of the
   * length or of the bytes.  Returns the bytes read and the bytes after them.
   */
  function ReadString(rest: seq<byte>): (r: Option<(seq<byte>, seq<byte>)>)
    ensures r.Some? ==> |r.value.1| <= |rest| - 2
  {
    if |rest| < 2 then None
    else
      var n := FromLE(rest[..2]);
      if |rest| < 2 + n then None
      else Some((rest[2..2 + n], rest[2 + n..]))
  }

  /**
   * The three metadata reads, which are not checked: bytes the file does not
   * have keep the variables' uninitialised contents, which `junk` stands for.
   * Returns size, mtime, flags and the bytes after them.
   */
  function ReadMeta(rest: seq<byte>, junk: seq<byte>): (r: (u64, u64, u32, seq<byte>))
    requires |junk| == META_SIZE
    ensures |r.3| <= |rest|
  {
    var meta := (rest + junk)[..META_SIZE];
    var used := if |rest| < META_SIZE then |rest| else META_SIZE;
    (FromLE(meta[..8]), FromLE(meta[8..16]), FromLE(meta[16..20]), rest[used..])
  }

  /**
   * One record read from `rest`: a short read of either length or either
   * string ends loading, and the strings are cut at their first NUL, as the
   * strdup into the new entry does.  Returns the record and the bytes after it.
   */
  function ParseRecord(rest: seq<byte>, junk: seq<byte>): (r: Option<(Record, seq<byte>)>)
    requires |junk| == META_SIZE
    ensures r.Some? ==> |r.value.1| < |rest|
  {
    match ReadString(rest)
    case None => None
    case Some((uri, r1)) =>
      match ReadString(r1)
      case None => None
      case Some((path, r2)) =>
        var (size, mtime, flags, r3) := ReadMeta(r2, junk);
        Some((Record(UpToNul(uri), UpToNul(path), size, mtime, flags), r3))
  }

  /** The loader's loop: at most `count` records, stopping at the first short read. */
  function ParseRecords(rest: seq<byte>, count: nat, junk: seq<byte>): (rs: seq<Record>)
    requires |junk| == META_SIZE
    ensures |rs| <= count
    decreases count
  {
    if count == 0 then []
    else match ParseRecord(rest, junk)
      case None => []
      case Some((r, rest')) => [r] + ParseRecords(rest', count - 1, junk)
  }

  /** Everything backend_index_load takes from a file it accepts. */
  function ParseImage(file: seq<byte>, junk: seq<byte>): Option<seq<Record>>
    requires |junk| == META_SIZE
  {
    match ParseHeader(file)
    case None => None
    case Some(h) => Some(ParseRecords(file[HEADER_SIZE..], h.numEntries, junk))
  }

  /* ---------------------------------------------------------------------- */

  /** Decoding an encoded header gives it back, whatever the padding held. */
  lemma HeaderRoundTrip(h: Header, pad: seq<byte>)
    requires |pad| == 4
    ensures ParseHeader(EncodeHeader(h, pad)) == Some(h)
  {
    var f := EncodeHeader(h, pad);
    Pow256Widths();
    assert f[..6] == INDEX_MAGIC;
    assert f[6..8] == LE(INDEX_VERSION, 2);
    assert f[8..12] == LE(h.backendId, 4);
    assert f[16..24] == LE(h.numEntries, 8);
    assert f[24..32] == LE(h.numBuckets, 8);
    FromLEOfLE(INDEX_VERSION, 2);
    FromLEOfLE(h.backendId, 4);
    FromLEOfLE(h.numEntries, 8);
    FromLEOfLE(h.numBuckets, 8);
  }

  /** Conversely, an accepted header is exactly the encoding of what was decoded from it. */
  lemma HeaderAccepted(file: seq<byte>)
    requires ParseHeader(file).Some?
    ensures EncodeHeader(ParseHeader(file).value, file[12..16]) == file[..HEADER_SIZE]
  {
    var h := ParseHeader(file).value;
    LEOfFromLE(file[6..8]);
    LEOfFromLE(file[8..12]);
    LEOfFromLE(file[16..24]);
    LEOfFromLE(file[24..32]);
    assert file[..HEADER_SIZE] == file[..6] + file[6..8] + file[8..12] + file[12..16]
      + file[16..24] + file[24..32];
  }

  lemma Pow256Two()
    ensures Pow256(2) == 0x1_0000
  {
  }

  /** A string that fits its length field reads back as written. */
  lemma StringRoundTrip(s: CStr, tail: seq<byte>)
    requires |s| < 0x1_0000
    ensures ReadString(EncodeString(s) + tail) == Some((s, tail))
  {
    Pow256Two();
    FromLEOfLE(|s|, 2);
    var f := EncodeString(s) + tail;
    assert s[..|s|] == s;
    assert f == LE(|s|, 2) + (s + tail);
    assert f[..2] == LE(|s|, 2);
    assert f[2..2 + |s|] == s && f[2 + |s|..] == tail;
  }

  /** Complete metadata reads back as written and the junk is not consulted. */
  lemma MetaRoundTrip(size: u64, mtime: u64, flags: u32, tail: seq<byte>, junk: seq<byte>)
    requires |junk| == META_SIZE
    ensures ReadMeta(EncodeMeta(size, mtime, flags) + tail, junk) == (size, mtime, flags, tail)
  {
    var m := EncodeMeta(size, mtime, flags);
    assert (m + tail + junk)[..META_SIZE] == m;
    assert m[..8] == LE(size, 8) && m[8..16] == LE(mtime, 8) && m[16..20] == LE(flags, 4);
    Pow256Widths();
    FromLEOfLE(size, 8);
    FromLEOfLE(mtime, 8);
    FromLEOfLE(flags, 4);
    assert (m + tail)[META_SIZE..] == tail;
  }

  /** A record that fits reads back as written and leaves the following bytes alone. */
  lemma RecordRoundTrip(r: Record, tail: seq<byte>, junk: seq<byte>)
    requires Fits(r) && |junk| == META_SIZE
    ensures ParseRecord(EncodeRecord(r) + tail, junk) == Some((r, tail))
  {
    var m := EncodeMeta(r.size, r.mtime, r.flags);
    var r2 := m + tail;
    var r1 := EncodeString(r.path) + r2;
    assert EncodeRecord(r) + tail == EncodeString(r.uri) + r1;
    StringRoundTrip(r.uri, r1);
    StringRoundTrip(r.path, r2);
    MetaRoundTrip(r.size, r.mtime, r.flags, tail, junk);
    UpToNulOfNulFree(r.uri);
    UpToNulOfNulFree(r.path);
  }

  lemma {:induction false} EncodeRecordsCons(r: Record, rs: seq<Record>)
    ensures EncodeRecords([r] + rs) == EncodeRecord(r) + EncodeRecords(rs)
    decreases |rs|
  {
    if rs != [] {
      var s := [r] + rs;
      assert s[..|s| - 1] == [r] + rs[..|rs| - 1];
      EncodeRecordsCons(r, rs[..|rs| - 1]);
    } else {
      assert [r] + rs == [r];
      assert [r][..0] == [];
    }
  }

  /** Records that fit read back as written, whatever follows them. */
  lemma {:induction false} RecordsRoundTrip(rs: seq<Record>, tail: seq<byte>, junk: seq<byte>)
    requires |junk| == META_SIZE && forall k | 0 <= k < |rs| :: Fits(rs[k])
    ensures ParseRecords(EncodeRecords(rs) + tail, |rs|, junk) == rs
  {
    if rs != [] {
      var r, more := rs[0], rs[1..];
      assert rs == [r] + more;
      var rest := EncodeRecords(more) + tail;
      assert EncodeRecords(rs) + tail == EncodeRecord(r) + rest by {
        EncodeRecordsCons(r, more);
      }
      assert Fits(r);
      RecordRoundTrip(r, rest, junk);
      assert forall k | 0 <= k < |more| :: Fits(more[k]) by {
        assert forall k | 0 <= k < |more| :: more[k] == rs[k + 1];
      }
      RecordsRoundTrip(more, tail, junk);
    }
  }

  /** The header check reads only the first 32 bytes. */
  lemma ParseHeaderPrefix(f: seq<byte>, g: seq<byte>)
    requires |f| == HEADER_SIZE
    ensures ParseHeader(f + g) == ParseHeader(f)
  {
    var fg := f + g;
    assert fg[..6] == f[..6] && fg[6..8] == f[6..8] && fg[8..12] == f[8..12];
    assert fg[16..24] == f[16..24] && fg[24..32] == f[24..32];
  }

  /**
   * A saved file loads back every record, in order, when the header's entry
   * count matches the records and every string fits its length field.
   */
  lemma ImageRoundTrip(h: Header, pad: seq<byte>, rs: seq<Record>, junk: seq<byte>)
    requires |pad| == 4 && |junk| == META_SIZE
    requires h.numEntries == |rs| && forall k | 0 <= k < |rs| :: Fits(rs[k])
    ensures ParseImage(EncodeHeader(h, pad) + EncodeRecords(rs), junk) == Some(rs)
  {
    var hd := EncodeHeader(h, pad);
    var f := hd + EncodeRecords(rs);
    HeaderRoundTrip(h, pad);
    ParseHeaderPrefix(hd, EncodeRecords(rs));
    assert f[HEADER_SIZE..] == EncodeRecords(rs) + [];
    RecordsRoundTrip(rs, [], junk);
  }

  /** A wrong magic or version is refused, so nothing is loaded. */
  lemma RejectsForeignFiles(file: seq<byte>, junk: seq<byte>)
    requires |junk| == META_SIZE && |file| >= HEADER_SIZE
    requires file[..6] != INDEX_MAGIC || FromLE(file[6..8]) != INDEX_VERSION
    ensures ParseImage(file, junk) == None
  {
  }

  /** Encoding two lists of records one after the other is encoding their concatenation. */
  lemma {:induction false} EncodeRecordsAppend(xs: seq<Record>, ys: seq<Record>)
    ensures EncodeRecords(xs + ys) == EncodeRecords(xs) + EncodeRecords(ys)
  {
    if ys == [] {
      assert xs + ys == xs;
    } else {
      var init, y := ys[..|ys| - 1], ys[|ys| - 1];
      assert ys == init + [y];
      EncodeRecordsAppend(xs, init);
      EncodeRecordsAppendStep(xs, init, y);
    }
  }

  lemma EncodeRecordsAppendStep(xs: seq<Record>, init: seq<Record>, y: Record)
    requires EncodeRecords(xs + init) == EncodeRecords(xs) + EncodeRecords(init)
    ensures EncodeRecords(xs + (init + [y])) == EncodeRecords(xs) + EncodeRecords(init + [y])
  {
    assert xs + (init + [y]) == (xs + init) + [y];
    EncodeRecordsSnoc(xs + init, y);
    EncodeRecordsSnoc(init, y);
    ConcatAssoc(EncodeRecords(xs), EncodeRecords(init), EncodeRecord(y));
  }

  lemma ConcatAssoc(a: seq<byte>, b: seq<byte>, c: seq<byte>)
    ensures (a + b) + c == a + (b + c)
  {
  }

  lemma EncodeRecordsSnoc(rs: seq<Record>, r: Record)
    ensures EncodeRecords(rs + [r]) == EncodeRecords(rs) + EncodeRecord(r)
  {
    assert (rs + [r])[..|rs|] == rs;
  }
}
