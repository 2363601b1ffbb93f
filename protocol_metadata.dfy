/**
 * The objm response metadata: a sequence of TLV entries, each a type byte,
 * a big-endian 16-bit length and that many data bytes.
 */
module ProtocolMetadata {
  import opened Bytes
  import opened Wrappers

  // Metadata entry types.
  const META_SIZE: byte := 0x01
  const META_MTIME: byte := 0x02
  const META_MODE: byte := 0x03
  const META_ETAG: byte := 0x04
  const META_BACKEND: byte := 0x05
  const META_PAYLOAD: byte := 0x06
  const META_SEGMENTS: byte := 0x07
  const META_SEGMENT_INFO: byte := 0x08

  const MAX_ENTRY_LEN: nat := 0xFFFF

  /** Entry data: its length must fit the 16-bit length field. */
  type EntryData = s: seq<byte> | |s| <= MAX_ENTRY_LEN

  datatype Entry = Entry(typ: byte, data: EntryData)

  /** One entry on the wire. */
  function EncodeEntry(e: Entry): (b: seq<byte>)
    ensures |b| == 3 + |e.data|
  {
    Pow256Widths();
    [e.typ] + BE(|e.data|, 2) + e.data
  }

  /** The entries one after another, as successive objm_metadata_add calls lay them out. */
  function EncodeEntries(es: seq<Entry>): (b: seq<byte>)
  {
    if es == [] then [] else EncodeEntry(es[0]) + EncodeEntries(es[1..])
  }

  /** The declared length of the entry starting at `at`. */
  function DeclaredLen(m: seq<byte>, at: nat): (len: nat)
    requires at + 3 <= |m|
    ensures len <= MAX_ENTRY_LEN
  {
    Pow256Widths();
    FromBE(m[at + 1..at + 3])
  }

  /**
   * What objm_metadata_parse reads from the metadata bytes: complete entries
   * from the front, stopping at fewer than 3 bytes or at the first entry whose
   * declared length runs past the end.
   */
  function Entries(m: seq<byte>): (es: seq<Entry>)
    decreases |m|
  {
    if |m| < 3 then []
    else
      var len := DeclaredLen(m, 0);
      if 3 + len > |m| then []
      else [Entry(m[0], m[3..3 + len])] + Entries(m[3 + len..])
  }

  lemma EntriesOfEntryPrefix(e: Entry, tail: seq<byte>)
    ensures Entries(EncodeEntry(e) + tail) == [e] + Entries(tail)
  {
    var m := EncodeEntry(e) + tail;
    Pow256Widths();
    assert m[1..3] == BE(|e.data|, 2);
    FromBEOfBE(|e.data|, 2);
    assert m[3..3 + |e.data|] == e.data;
    assert m[3 + |e.data|..] == tail;
  }

  /**
   * Parsing the entries written by successive adds, followed by anything,
   * yields those entries in order and then whatever the rest parses to.
   */
  lemma {:induction false} EntriesOfEncoded(es: seq<Entry>, tail: seq<byte>)
    ensures Entries(EncodeEntries(es) + tail) == es + Entries(tail)
    decreases |es|
  {
    if es != [] {
      var after := EncodeEntries(es[1..]) + tail;
      assert EncodeEntries(es) + tail == EncodeEntry(es[0]) + after;
      EntriesOfEntryPrefix(es[0], after);
      EntriesOfEncoded(es[1..], tail);
      assert es == [es[0]] + es[1..];
    } else {
      assert EncodeEntries(es) + tail == tail;
    }
  }

  /** The round trip: the parser gives back exactly the entries that were added. */
  lemma ParseOfBuilt(es: seq<Entry>)
    ensures Entries(EncodeEntries(es)) == es
  {
    EntriesOfEncoded(es, []);
    assert EncodeEntries(es) + [] == EncodeEntries(es);
  }

  /**
   * Trailing bytes that cannot form a complete entry are ignored: fewer than 3
   * bytes, or a declared length that overruns the end.
   */
  lemma TrailingPartialIgnored(es: seq<Entry>, tail: seq<byte>)
    requires |tail| < 3 || 3 + DeclaredLen(tail, 0) > |tail|
    ensures Entries(EncodeEntries(es) + tail) == es
  {
    EntriesOfEncoded(es, tail);
  }

  /**
   * objm_metadata_add: writes [type, len>>8, len&0xff, data...] at currentLen
   * and returns currentLen + 3 + len; a NULL buffer or a length over 65535
   * returns 0 and writes nothing.
   */
  method Add(metadata: array?<byte>, currentLen: nat, typ: byte, data: seq<byte>) returns (newLen: nat)
    requires metadata != null && |data| <= MAX_ENTRY_LEN ==> currentLen + 3 + |data| <= metadata.Length
    modifies metadata
    ensures metadata == null || |data| > MAX_ENTRY_LEN ==> newLen == 0
    ensures metadata != null && |data| > MAX_ENTRY_LEN ==> metadata[..] == old(metadata[..])
    ensures metadata != null && |data| <= MAX_ENTRY_LEN ==>
      newLen == currentLen + 3 + |data| &&
      metadata[..newLen] == old(metadata[..currentLen]) + EncodeEntry(Entry(typ, data)) &&
      metadata[newLen..] == old(metadata[newLen..])
  {
    if metadata == null || |data| > MAX_ENTRY_LEN {
      return 0;
    }
    var bytes := EncodeEntry(Entry(typ, data));
    var i := 0;
    while i < |bytes|
      invariant 0 <= i <= |bytes|
      invariant metadata[..currentLen] == old(metadata[..currentLen])
      invariant metadata[currentLen..currentLen + i] == bytes[..i]
      invariant metadata[currentLen + i..] == old(metadata[currentLen + i..])
    {
      metadata[currentLen + i] := bytes[i];
      i := i + 1;
      assert metadata[currentLen..currentLen + i] == metadata[currentLen..currentLen + i - 1] + [bytes[i - 1]];
    }
    newLen := currentLen + 3 + |data|;
    assert metadata[..newLen] == metadata[..currentLen] + metadata[currentLen..newLen];
  }

  /** objm_metadata_add_size: a SIZE entry holding the size as BE64. */
  function SizeEntry(size: u64): (e: Entry)
  {
    Entry(META_SIZE, BE(size, 8))
  }

  /** objm_metadata_add_mtime: an MTIME entry holding the time as BE64. */
  function MtimeEntry(mtime: u64): (e: Entry)
  {
    Entry(META_MTIME, BE(mtime, 8))
  }

  /** objm_metadata_add_backend: a BACKEND entry holding the one id byte. */
  function BackendEntry(backendId: byte): (e: Entry)
  {
    Entry(META_BACKEND, [backendId])
  }

  /** A reader of the SIZE, MTIME and BACKEND entries recovers the values that were added. */
  lemma FixedEntriesReadBack(size: u64, mtime: u64, backendId: byte)
    ensures |SizeEntry(size).data| == 8 && FromBE(SizeEntry(size).data) == size
    ensures |MtimeEntry(mtime).data| == 8 && FromBE(MtimeEntry(mtime).data) == mtime
    ensures BackendEntry(backendId).data[0] == backendId
  {
    Pow256Widths();
    FromBEOfBE(size, 8);
    FromBEOfBE(mtime, 8);
  }

  method AddSize(metadata: array?<byte>, currentLen: nat, size: u64) returns (newLen: nat)
    requires metadata != null ==> currentLen + 11 <= metadata.Length
    modifies metadata
    ensures metadata == null ==> newLen == 0
    ensures metadata != null ==>
      newLen == currentLen + 11 &&
      metadata[..newLen] == old(metadata[..currentLen]) + EncodeEntry(SizeEntry(size)) &&
      metadata[newLen..] == old(metadata[newLen..])
  {
    newLen := Add(metadata, currentLen, META_SIZE, BE(size, 8));
  }

  method AddMtime(metadata: array?<byte>, currentLen: nat, mtime: u64) returns (newLen: nat)
    requires metadata != null ==> currentLen + 11 <= metadata.Length
    modifies metadata
    ensures metadata == null ==> newLen == 0
    ensures metadata != null ==>
      newLen == currentLen + 11 &&
      metadata[..newLen] == old(metadata[..currentLen]) + EncodeEntry(MtimeEntry(mtime)) &&
      metadata[newLen..] == old(metadata[newLen..])
  {
    newLen := Add(metadata, currentLen, META_MTIME, BE(mtime, 8));
  }

  method AddBackend(metadata: array?<byte>, currentLen: nat, backendId: byte) returns (newLen: nat)
    requires metadata != null ==> currentLen + 4 <= metadata.Length
    modifies metadata
    ensures metadata == null ==> newLen == 0
    ensures metadata != null ==>
      newLen == currentLen + 4 &&
      metadata[..newLen] == old(metadata[..currentLen]) + EncodeEntry(BackendEntry(backendId)) &&
      metadata[newLen..] == old(metadata[newLen..])
  {
    newLen := Add(metadata, currentLen, META_BACKEND, [backendId]);
  }

  /** The returned lengths chain: a buffer holding Encode(es) extended by one add holds Encode(es + [e]). */
  lemma {:induction false} AddExtendsEncoding(es: seq<Entry>, e: Entry)
    ensures EncodeEntries(es + [e]) == EncodeEntries(es) + EncodeEntry(e)
    ensures |EncodeEntries(es + [e])| == |EncodeEntries(es)| + 3 + |e.data|
  {
    if es != [] {
      assert (es + [e])[1..] == es[1..] + [e];
      AddExtendsEncoding(es[1..], e);
    }
  }

  lemma EntriesStep(m: seq<byte>, offset: nat)
    requires offset + 3 <= |m| && offset + 3 + DeclaredLen(m, offset) <= |m|
    ensures Entries(m[offset..]) ==
      [Entry(m[offset], m[offset + 3..offset + 3 + DeclaredLen(m, offset)])]
        + Entries(m[offset + 3 + DeclaredLen(m, offset)..])
  {
    var s := m[offset..];
    assert s[1..3] == m[offset + 1..offset + 3];
    var len := DeclaredLen(m, offset);
    assert s[3..3 + len] == m[offset + 3..offset + 3 + len];
    assert s[3 + len..] == m[offset + 3 + len..];
  }

  lemma EntriesStop(m: seq<byte>, offset: nat)
    requires offset <= |m|
    requires offset + 3 > |m| || offset + 3 + DeclaredLen(m, offset) > |m|
    ensures Entries(m[offset..]) == []
  {
    var s := m[offset..];
    if offset + 3 <= |m| {
      assert s[1..3] == m[offset + 1..offset + 3];
    }
  }

  /**
   * objm_metadata_parse: -1 when the metadata or either output argument is
   * NULL; otherwise 0 with the complete entries, in order.  The first loop
   * counts them, the second copies exactly that many.
   */
  method Parse(metadata: array?<byte>, metadataLen: nat, outputsPresent: bool) returns (rc: int, entries: seq<Entry>)
    requires metadata != null ==> metadataLen <= metadata.Length
    ensures metadata == null || !outputsPresent ==> rc == -1 && entries == []
    ensures metadata != null && outputsPresent ==> rc == 0 && entries == Entries(metadata[..metadataLen])
  {
    if metadata == null || !outputsPresent {
      return -1, [];
    }
    var count := CountEntries(metadata, metadataLen);
    entries := CopyEntries(metadata, metadataLen, count);
    rc := 0;
  }

  /** The first loop of objm_metadata_parse: the number of complete entries. */
  method CountEntries(metadata: array<byte>, metadataLen: nat) returns (count: nat)
    requires metadataLen <= metadata.Length
    ensures count == |Entries(metadata[..metadataLen])|
  {
    var m := metadata[..metadataLen];
    count := 0;
    var offset: nat := 0;
    while offset + 3 <= metadataLen
      invariant offset <= metadataLen
      invariant |Entries(m)| == count + |Entries(m[offset..])|
      decreases metadataLen - offset
    {
      var next := offset + 3 + DeclaredLen(m, offset);
      CountStep(m, offset, next);
      if next > metadataLen {
        return;
      }
      count := count + 1;
      offset := next;
    }
    assert Entries(m[offset..]) == [] by { EntriesStop(m, offset); }
  }

  /** One step of the counting loop: an entry that fits adds one, one that runs past the end stops the scan. */
  lemma CountStep(m: seq<byte>, offset: nat, next: nat)
    requires offset + 3 <= |m| && next == offset + 3 + DeclaredLen(m, offset)
    ensures next > |m| ==> |Entries(m[offset..])| == 0
    ensures next <= |m| ==> |Entries(m[offset..])| == 1 + |Entries(m[next..])|
  {
    if next > |m| {
      EntriesStop(m, offset);
    } else {
      EntriesStep(m, offset);
    }
  }

  /** One step of the copying loop, where the counted entries are known to be ahead. */
  lemma CopyStep(m: seq<byte>, offset: nat, idx: nat)
    requires offset <= |m| && idx < |Entries(m)|
    requires Entries(m[offset..]) == Entries(m)[idx..]
    ensures offset + 3 <= |m| && offset + 3 + DeclaredLen(m, offset) <= |m|
    ensures Entries(m)[idx] == Entry(m[offset], m[offset + 3..offset + 3 + DeclaredLen(m, offset)])
    ensures Entries(m[offset + 3 + DeclaredLen(m, offset)..]) == Entries(m)[idx + 1..]
  {
    if offset + 3 > |m| || offset + 3 + DeclaredLen(m, offset) > |m| {
      EntriesStop(m, offset);
      assert false;
    }
    var es, len := Entries(m), DeclaredLen(m, offset);
    EntriesStep(m, offset);
    var tail := es[idx..];
    assert tail == [Entry(m[offset], m[offset + 3..offset + 3 + len])] + Entries(m[offset + 3 + len..]);
    assert es[idx] == tail[0];
    assert es[idx + 1..] == tail[1..];
  }

  /** The second loop of objm_metadata_parse: copies `count` entries from the front. */
  method CopyEntries(metadata: array<byte>, metadataLen: nat, count: nat) returns (entries: seq<Entry>)
    requires metadataLen <= metadata.Length
    requires count == |Entries(metadata[..metadataLen])|
    ensures entries == Entries(metadata[..metadataLen])
  {
    var m := metadata[..metadataLen];
    var offset: nat := 0;
    var idx: nat := 0;
    entries := [];
    while offset + 3 <= metadataLen && idx < count
      invariant offset <= metadataLen && idx <= count
      invariant entries == Entries(m)[..idx]
      invariant Entries(m[offset..]) == Entries(m)[idx..]
      decreases count - idx
    {
      CopyStep(m, offset, idx);
      var len := DeclaredLen(m, offset);
      ghost var all := Entries(m);
      assert entries + [all[idx]] == all[..idx + 1] by {
        assert all[..idx + 1] == all[..idx] + [all[idx]];
      }
      entries := entries + [Entry(m[offset], m[offset + 3..offset + 3 + len])];
      offset := offset + 3 + len;
      idx := idx + 1;
    }
    if idx < count {
      CopyStep(m, offset, idx);
      assert false;
    }
    assert Entries(m)[..idx] == Entries(m);
  }

  /** objm_metadata_get: the index of the first entry of the given type, or None for NULL. */
  method Get(entries: seq<Entry>, typ: byte) returns (found: Option<nat>)
    ensures found.None? <==> forall k :: 0 <= k < |entries| ==> entries[k].typ != typ
    ensures found.Some? ==>
      found.value < |entries| && entries[found.value].typ == typ &&
      forall k :: 0 <= k < found.value ==> entries[k].typ != typ
  {
    var i := 0;
    while i < |entries|
      invariant 0 <= i <= |entries|
      invariant forall k :: 0 <= k < i ==> entries[k].typ != typ
    {
      if entries[i].typ == typ {
        return Some(i);
      }
      i := i + 1;
    }
    return None;
  }
}
