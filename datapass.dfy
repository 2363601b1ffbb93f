/**
 * The datapass server's object table: every regular file of the backing
 * directory becomes an item, found by name through an open-addressing hash
 * table with linear probing. The table stores only a 64-bit hash of each
 * name (0 marking a free slot) and the item's index.
 *
 * Opening the backing and cache files, the cache copies and the sockets are
 * outside the model; an item keeps its name and size.
 */
module Datapass {
  import opened Bytes
  import opened Bits

  // ---------------------------------------------------------------------
  // strtohash, on 64-bit unsigned values

  /**
   * A name byte as `| *str` sees it: the signed char is promoted, so a byte
   * from 0x80 up also sets all 56 upper bits (whose low byte is clear, so
   * the or is a sum).
   */
  function Widen(c: byte): (w: u64)
    ensures w % 0x100 == c
    ensures w == 0 <==> c == 0
  {
    if c < 0x80 then c else 0xFFFF_FFFF_FFFF_FF00 + c
  }

  /** `hash << k` on a u64: the bits shifted past bit 63 are lost. */
  function Shl64(h: u64, k: nat): u64
  {
    (h * Pow2(k)) % U64_MODULUS
  }

  /**
   * The rotation `(hash << rots) | (hash >> (64 - rots))`. For rots = 0 the
   * right shift by 64 is undefined in C; here it is a shift by 64 that
   * yields 0, so that step does not rotate (RotlZero), which is also what
   * x86-64 computes, since it masks the count to 0.
   */
  function Rotl(h: u64, rots: nat): u64
    requires rots < 64
  {
    ShrIsDiv(h, 64 - rots);
    Pow2Top();
    OrBound(Shl64(h, rots), Shr(h, 64 - rots), 64);
    Or(Shl64(h, rots), Shr(h, 64 - rots))
  }

  lemma RotlZero(h: u64)
    ensures Rotl(h, 0) == h
  {
    ShrIsDiv(h, 64);
    Pow2Top();
  }

  /** One step of the loop: rotate, then or in the widened character. */
  function Step(h: u64, rots: nat, c: byte): u64
    requires rots < 64
  {
    Pow2Top();
    OrBound(Rotl(h, rots), Widen(c), 64);
    Or(Rotl(h, rots), Widen(c))
  }

  /** The hash of the rest s of a name, from the running hash and rotation. */
  function HashFrom(h: u64, rots: nat, s: CStr): u64
    requires rots < 64
    decreases |s|
  {
    if |s| == 0 then h else HashFrom(Step(h, rots, s[0]), (rots + 1) % 64, s[1..])
  }

  /** strtohash of a whole name. */
  function StrHash(s: CStr): u64
  {
    HashFrom(0, 0, s)
  }

  /** strtohash: one rotate-and-or step per character, the rotation growing by one modulo 64. */
  method StrToHash(str: CStr) returns (hash: u64)
    ensures hash == StrHash(str)
  {
    hash := 0;
    var rots := 0;
    var i := 0;
    while i < |str|
      invariant 0 <= i <= |str| && 0 <= rots < 64
      invariant HashFrom(hash, rots, str[i..]) == StrHash(str)
    {
      assert str[i..][1..] == str[i + 1..];
      hash := Step(hash, rots, str[i]);
      rots := (rots + 1) % 64;
      i := i + 1;
    }
    assert str[i..] == [];
  }

  lemma {:induction false} HashFromNonzero(h: u64, rots: nat, s: CStr)
    requires rots < 64 && |s| > 0
    ensures HashFrom(h, rots, s) != 0
    decreases |s|
  {
    assert s[0] in s;
    OrAtLeast(Rotl(h, rots), Widen(s[0]));
    if |s| > 1 {
      HashFromNonzero(Step(h, rots, s[0]), (rots + 1) % 64, s[1..]);
    }
  }

  /**
   * Only the empty name hashes to 0, the value that marks a free slot: the
   * last character is always or-ed into the hash.
   */
  lemma HashIsZeroOnlyForEmpty(s: CStr)
    ensures StrHash(s) == 0 <==> |s| == 0
  {
    if |s| > 0 {
      HashFromNonzero(0, 0, s);
    }
  }

  /** Hashes collide between short printable names: "0c" and "c" both hash to 0x63. */
  lemma NamesCollide()
    ensures StrHash([0x30, 0x63]) == StrHash([0x63]) == 0x63
  {
    var one: CStr := [0x63];
    var two: CStr := [0x30, 0x63];
    assert two[1..] == one;
    assert one[1..] == [];
    RotlZero(0);
    assert Step(0, 0, 0x30) == 0x30;
    assert Step(0, 0, 0x63) == 0x63;
    SecondStep();
    assert HashFrom(0, 0, two) == HashFrom(0x30, 1, one);
  }

  /** "0c" after its second character: 0x30 rotated by one is 0x60, and 0x60 | 0x63 is 0x63. */
  lemma SecondStep()
    ensures Step(0x30, 1, 0x63) == 0x63
  {
    RotateOnce();
    OrOfSecond();
  }

  lemma RotateOnce()
    ensures Rotl(0x30, 1) == 0x60
  {
    Pow2Top();
    ShrIsDiv(0x30, 63);
    assert Shr(0x30, 63) == 0;
    assert Pow2(1) == 2;
    DivModUnique(0x60, U64_MODULUS, 0, 0x60);
  }

  lemma OrOfSecond()
    ensures Or(0x60, 0x63) == 0x63
  {
    assert Or(0x60, 0x63) == 2 * Or(0x30, 0x31) + 1;
    assert Or(0x30, 0x31) == 2 * Or(0x18, 0x18) + 1;
    assert Or(0x18, 0x18) == 2 * Or(0xC, 0xC);
    assert Or(0xC, 0xC) == 2 * Or(6, 6);
    assert Or(6, 6) == 2 * Or(3, 3);
    assert Or(3, 3) == 2 * Or(1, 1) + 1;
    assert Or(1, 1) == 2 * Or(0, 0) + 1;
  }

  // ---------------------------------------------------------------------
  // Probing, on the table's contents

  /** A table entry (he_t): a name hash, 0 when the slot is free, and an item index. */
  datatype Slot = Slot(fullhash: u64, index: int)

  const FREE: Slot := Slot(0, 0)

  /** The first slot probed for hash h: `fullhash % hsize`. */
  function Home(h: u64, n: nat): (s: nat)
    requires n > 0
    ensures s < n
  {
    h % n
  }

  /** The slot k steps after slot s, stepping cyclically. */
  function SlotAt(s: nat, k: nat, n: nat): (i: nat)
    requires n > 0
    ensures i < n
  {
    (s + k) % n
  }

  /** The number of steps from slot s forward to slot j. */
  function Dist(s: nat, j: nat, n: nat): (d: nat)
    requires n > 0
    ensures d < n
  {
    (j - s) % n
  }

  /** Whether a probe for h stops at slot i: the slot is free or holds h. */
  predicate Stops(t: seq<Slot>, i: nat, h: u64)
    requires i < |t|
  {
    t[i].fullhash == 0 || t[i].fullhash == h
  }

  /**
   * The number of steps a probe for h from slot s takes, starting at step
   * k, before it stops; |t| when it would not stop within one cycle.
   * With h = 0 this is put_item's probe (to the first free slot), with the
   * name's hash get_item's.
   */
  function ProbeEnd(t: seq<Slot>, s: nat, h: u64, k: nat): (e: nat)
    requires 0 < |t| && k <= |t|
    ensures k <= e <= |t|
    decreases |t| - k
  {
    if k == |t| then |t|
    else if Stops(t, SlotAt(s, k, |t|), h) then k
    else ProbeEnd(t, s, h, k + 1)
  }

  /** Whether some slot of t is free. */
  predicate HasFree(t: seq<Slot>)
  {
    exists i :: 0 <= i < |t| && t[i].fullhash == 0
  }

  /** Whether some slot of t holds hash h. */
  predicate Holds(t: seq<Slot>, h: u64)
  {
    exists i :: 0 <= i < |t| && t[i].fullhash == h
  }

  /** The slot put_item fills for hash h. */
  function PutSlot(t: seq<Slot>, h: u64): (i: nat)
    requires HasFree(t)
    ensures i < |t| && t[i].fullhash == 0
  {
    var s := Home(h, |t|);
    ProbeReaches(t, s, 0);
    ProbeEndStops(t, s, 0, 0);
    SlotAt(s, ProbeEnd(t, s, 0, 0), |t|)
  }

  /** The table after put_item records hash h for item index. */
  function Inserted(t: seq<Slot>, h: u64, index: int): (t': seq<Slot>)
    requires HasFree(t)
    ensures |t'| == |t|
  {
    t[PutSlot(t, h) := Slot(h, index)]
  }

  /**
   * get_item as written: follow the probe for the name's hash and return
   * the index of the slot where it stops unless that slot's hash differs.
   * A probe that would not stop cannot happen in a table with a free slot.
   */
  function GetAsWritten(t: seq<Slot>, h: u64): int
    requires |t| > 0
  {
    var s := Home(h, |t|);
    var e := ProbeEnd(t, s, h, 0);
    if e == |t| then -1
    else if t[SlotAt(s, e, |t|)].fullhash != h then -1
    else t[SlotAt(s, e, |t|)].index
  }

  /** get_item corrected: a probe that stops at a free slot finds nothing. */
  function Get(t: seq<Slot>, h: u64): int
    requires |t| > 0
  {
    var s := Home(h, |t|);
    var e := ProbeEnd(t, s, h, 0);
    if e == |t| then -1
    else if t[SlotAt(s, e, |t|)].fullhash == 0 || t[SlotAt(s, e, |t|)].fullhash != h then -1
    else t[SlotAt(s, e, |t|)].index
  }

  // ---------------------------------------------------------------------
  // Cyclic arithmetic

  lemma SlotAtDist(s: nat, j: nat, n: nat)
    requires n > 0 && s < n && j < n
    ensures SlotAt(s, Dist(s, j, n), n) == j
  {
    var d := Dist(s, j, n);
    if j >= s {
      DivModUnique(j - s, n, 0, j - s);
      DivModUnique(s + d, n, 0, j);
    } else {
      DivModUnique(j - s, n, -1, j - s + n);
      DivModUnique(s + d, n, 1, j);
    }
  }

  lemma DistSlotAt(s: nat, d: nat, n: nat)
    requires n > 0 && s < n && d < n
    ensures Dist(s, SlotAt(s, d, n), n) == d
  {
    if s + d < n {
      DivModUnique(s + d, n, 0, s + d);
      DivModUnique(d, n, 0, d);
    } else {
      DivModUnique(s + d, n, 1, s + d - n);
      DivModUnique(d - n, n, -1, d);
    }
  }

  lemma SlotAtNext(s: nat, k: nat, n: nat)
    requires n > 0
    ensures SlotAt(s, k + 1, n) == (SlotAt(s, k, n) + 1) % n
  {
    var q, r := (s + k) / n, (s + k) % n;
    DivModUnique(s + k, n, q, r);
    if r + 1 < n {
      DivModUnique(s + k + 1, n, q, r + 1);
      DivModUnique(r + 1, n, 0, r + 1);
    } else {
      DivModUnique(s + k + 1, n, q + 1, 0);
      DivModUnique(r + 1, n, 1, 0);
    }
  }

  // ---------------------------------------------------------------------
  // Facts about a probe

  /** The probe stops exactly at its end, and at no step before it. */
  lemma {:induction false} ProbeEndStops(t: seq<Slot>, s: nat, h: u64, k: nat)
    requires 0 < |t| && k <= |t|
    ensures ProbeEnd(t, s, h, k) < |t| ==> Stops(t, SlotAt(s, ProbeEnd(t, s, h, k), |t|), h)
    ensures forall d :: k <= d < ProbeEnd(t, s, h, k) ==> !Stops(t, SlotAt(s, d, |t|), h)
    decreases |t| - k
  {
    if k < |t| && !Stops(t, SlotAt(s, k, |t|), h) {
      ProbeEndStops(t, s, h, k + 1);
    }
  }

  /** A probe stops no later than any step D at which it could stop. */
  lemma {:induction false} ProbeEndAtMost(t: seq<Slot>, s: nat, h: u64, k: nat, d: nat)
    requires 0 < |t| && k <= d < |t| && Stops(t, SlotAt(s, d, |t|), h)
    ensures ProbeEnd(t, s, h, k) <= d
    decreases |t| - k
  {
    if !Stops(t, SlotAt(s, k, |t|), h) {
      ProbeEndAtMost(t, s, h, k + 1, d);
    }
  }

  /** In a table with a free slot every probe stops within one cycle. */
  lemma ProbeReaches(t: seq<Slot>, s: nat, h: u64)
    requires HasFree(t) && s < |t|
    ensures ProbeEnd(t, s, h, 0) < |t|
  {
    var j :| 0 <= j < |t| && t[j].fullhash == 0;
    SlotAtDist(s, j, |t|);
    ProbeEndAtMost(t, s, h, 0, Dist(s, j, |t|));
  }

  /** GetAsWritten and Get differ only for hash 0. */
  lemma GetAgreesOnNonzero(t: seq<Slot>, h: u64)
    requires |t| > 0 && h != 0
    ensures GetAsWritten(t, h) == Get(t, h)
  {
  }

  // ---------------------------------------------------------------------
  // The clustering invariant of linear probing without deletion

  /** Every slot on the way from home slot s to slot j is occupied. */
  ghost predicate Reached(t: seq<Slot>, s: nat, j: nat)
    requires 0 < |t|
  {
    forall d :: 0 <= d < Dist(s, j, |t|) ==> t[SlotAt(s, d, |t|)].fullhash != 0
  }

  /** Every occupied slot is reached from its hash's home slot through occupied slots. */
  ghost predicate Clustered(t: seq<Slot>)
  {
    0 < |t| && forall j :: 0 <= j < |t| && t[j].fullhash != 0 ==> Reached(t, Home(t[j].fullhash, |t|), j)
  }

  lemma FreeTableClustered(n: nat)
    requires n > 0
    ensures Clustered(seq(n, _ => FREE))
  {
  }

  /** put_item keeps the table clustered: the probe it follows crossed only occupied slots. */
  lemma PutKeepsClustered(t: seq<Slot>, h: u64, index: int)
    requires Clustered(t) && HasFree(t)
    ensures Clustered(Inserted(t, h, index))
  {
    var t' := Inserted(t, h, index);
    var n := |t|;
    var s := Home(h, n);
    var f := PutSlot(t, h);
    ProbeReaches(t, s, 0);
    ProbeEndStops(t, s, 0, 0);
    var k := ProbeEnd(t, s, 0, 0);
    assert f == SlotAt(s, k, n);
    assert grows: forall i :: 0 <= i < n && t[i].fullhash != 0 ==> t'[i].fullhash != 0;
    forall j | 0 <= j < n && t'[j].fullhash != 0
      ensures Reached(t', Home(t'[j].fullhash, n), j)
    {
      if j == f {
        DistSlotAt(s, k, n);
        forall d | 0 <= d < Dist(s, j, n)
          ensures t'[SlotAt(s, d, n)].fullhash != 0
        {
          assert !Stops(t, SlotAt(s, d, n), 0);
        }
      } else {
        assert t'[j] == t[j];
        assert Reached(t, Home(t[j].fullhash, n), j);
      }
    }
  }

  /**
   * In a clustered table a probe for a stored non-zero hash stops at a slot
   * holding that hash: it never meets a free slot first.
   */
  lemma GetFinds(t: seq<Slot>, h: u64, j: nat)
    requires Clustered(t) && h != 0 && j < |t| && t[j].fullhash == h
    ensures var i := SlotAt(Home(h, |t|), ProbeEnd(t, Home(h, |t|), h, 0), |t|);
      i < |t| && t[i].fullhash == h && Get(t, h) == t[i].index
  {
    var n := |t|;
    var s := Home(h, n);
    var dj := Dist(s, j, n);
    SlotAtDist(s, j, n);
    ProbeEndAtMost(t, s, h, 0, dj);
    ProbeEndStops(t, s, h, 0);
    var e := ProbeEnd(t, s, h, 0);
    if e < dj {
      assert Reached(t, s, j);
      assert t[SlotAt(s, e, n)].fullhash != 0;
    }
  }

  /** A probe for a hash no slot holds ends at a free slot, so get finds nothing. */
  lemma GetMisses(t: seq<Slot>, h: u64)
    requires HasFree(t) && !Holds(t, h)
    ensures Get(t, h) == -1
  {
    ProbeReaches(t, Home(h, |t|), h);
    ProbeEndStops(t, Home(h, |t|), h, 0);
  }

  /** Put then get: a new non-zero hash is found at the index just stored. */
  lemma PutThenGet(t: seq<Slot>, h: u64, index: int)
    requires Clustered(t) && HasFree(t) && h != 0 && !Holds(t, h)
    ensures Get(Inserted(t, h, index), h) == index
  {
    var t' := Inserted(t, h, index);
    var f := PutSlot(t, h);
    PutKeepsClustered(t, h, index);
    GetFinds(t', h, f);
  }

  /**
   * The empty name hashes to 0, so get_item as written stops at the first
   * free slot on its probe and returns whatever index that free slot holds;
   * the corrected lookup returns -1.
   */
  lemma EmptyNameMatchesFreeSlot(t: seq<Slot>)
    requires HasFree(t)
    ensures GetAsWritten(t, StrHash([])) == t[PutSlot(t, 0)].index
    ensures Get(t, StrHash([])) == -1
  {
    ProbeReaches(t, Home(0, |t|), 0);
  }

  /** On a zero-filled table the empty name finds item 0, even with no item stored. */
  lemma EmptyNameFindsItemZero(n: nat)
    requires n > 0
    ensures GetAsWritten(seq(n, _ => FREE), StrHash([])) == 0
  {
    var t := seq(n, _ => FREE);
    assert t[0].fullhash == 0;
    EmptyNameMatchesFreeSlot(t);
  }

  // ---------------------------------------------------------------------
  // Counting occupied slots

  function Occupancy(t: seq<Slot>): (c: nat)
    ensures c <= |t|
  {
    if |t| == 0 then 0 else (if t[0].fullhash != 0 then 1 else 0) + Occupancy(t[1..])
  }

  lemma {:induction false} FreeWhenSparse(t: seq<Slot>)
    requires Occupancy(t) < |t|
    ensures HasFree(t)
  {
    if t[0].fullhash != 0 {
      FreeWhenSparse(t[1..]);
      var i :| 0 <= i < |t| - 1 && t[1..][i].fullhash == 0;
      assert t[i + 1].fullhash == 0;
    }
  }

  lemma {:induction false} OccupancyStore(t: seq<Slot>, i: nat, v: Slot)
    requires i < |t| && t[i].fullhash == 0
    ensures Occupancy(t[i := v]) == Occupancy(t) + (if v.fullhash != 0 then 1 else 0)
  {
    if i > 0 {
      assert t[i := v][1..] == t[1..][i - 1 := v];
      OccupancyStore(t[1..], i - 1, v);
    }
  }

  lemma {:induction false} FreeTableEmpty(n: nat)
    ensures Occupancy(seq(n, _ => FREE)) == 0
  {
    if n > 0 {
      assert seq(n, _ => FREE)[1..] == seq(n - 1, _ => FREE);
      FreeTableEmpty(n - 1);
    }
  }

  // ---------------------------------------------------------------------
  // Items and the table together

  /** An item (st_t): its file name and size. */
  datatype Item = Item(name: CStr, size: nat)

  /** A directory entry as readdir and stat report it. */
  datatype DirEntry = DirEntry(name: CStr, regular: bool, size: nat)

  /**
   * Slots and items agree: an occupied slot names an item with that hash,
   * and the hash of every item with a non-empty name is in some slot.
   */
  ghost predicate Indexed(t: seq<Slot>, items: seq<Item>)
  {
    (forall i :: 0 <= i < |t| && t[i].fullhash != 0 ==>
       0 <= t[i].index < |items| && StrHash(items[t[i].index].name) == t[i].fullhash)
    && (forall k :: 0 <= k < |items| && StrHash(items[k].name) != 0 ==> Holds(t, StrHash(items[k].name)))
  }

  /**
   * The table state: hsize = 2 * nfiles slots for at most nfiles items,
   * so a free slot always remains.
   */
  ghost predicate Table(t: seq<Slot>, items: seq<Item>, nfiles: nat)
  {
    nfiles > 0 && |t| == 2 * nfiles && |items| <= nfiles
    && Occupancy(t) <= |items| && Clustered(t) && Indexed(t, items)
  }

  lemma TableHasFree(t: seq<Slot>, items: seq<Item>, nfiles: nat)
    requires Table(t, items, nfiles)
    ensures HasFree(t)
  {
    FreeWhenSparse(t);
  }

  /** One put_item keeps the table state, with one more item. */
  lemma PutKeepsTable(t: seq<Slot>, items: seq<Item>, nfiles: nat, name: CStr, size: nat)
    requires Table(t, items, nfiles) && |items| < nfiles
    ensures HasFree(t)
    ensures Table(Inserted(t, StrHash(name), |items|), items + [Item(name, size)], nfiles)
  {
    TableHasFree(t, items, nfiles);
    var h := StrHash(name);
    OccupancyStore(t, PutSlot(t, h), Slot(h, |items|));
    PutKeepsClustered(t, h, |items|);
    PutKeepsIndexed(t, items, name, size);
  }

  lemma PutKeepsIndexed(t: seq<Slot>, items: seq<Item>, name: CStr, size: nat)
    requires Indexed(t, items) && HasFree(t)
    ensures Indexed(Inserted(t, StrHash(name), |items|), items + [Item(name, size)])
  {
    var h := StrHash(name);
    var t' := Inserted(t, h, |items|);
    var items' := items + [Item(name, size)];
    var f := PutSlot(t, h);
    forall i | 0 <= i < |t'| && t'[i].fullhash != 0
      ensures 0 <= t'[i].index < |items'| && StrHash(items'[t'[i].index].name) == t'[i].fullhash
    {
      if i != f {
        assert items'[t[i].index] == items[t[i].index];
      }
    }
    forall k | 0 <= k < |items'| && StrHash(items'[k].name) != 0
      ensures Holds(t', StrHash(items'[k].name))
    {
      if k == |items| {
        assert t'[f].fullhash == h;
      } else {
        assert items'[k] == items[k];
        var i :| 0 <= i < |t| && t[i].fullhash == StrHash(items[k].name);
        assert t'[i] == t[i];
      }
    }
  }

  /**
   * What a lookup means for the items: a non-negative result is an item with
   * the same hash as the name, and -1 comes exactly when the name is empty
   * or no item's hash equals the name's.
   */
  lemma GetMeaning(t: seq<Slot>, items: seq<Item>, nfiles: nat, name: CStr)
    requires Table(t, items, nfiles)
    ensures Get(t, StrHash(name)) >= 0 ==>
      Get(t, StrHash(name)) < |items| && StrHash(items[Get(t, StrHash(name))].name) == StrHash(name)
    ensures Get(t, StrHash(name)) < 0 <==>
      |name| == 0 || forall k :: 0 <= k < |items| ==> StrHash(items[k].name) != StrHash(name)
  {
    var h := StrHash(name);
    HashIsZeroOnlyForEmpty(name);
    TableHasFree(t, items, nfiles);
    if h != 0 {
      if Holds(t, h) {
        var j :| 0 <= j < |t| && t[j].fullhash == h;
        GetFinds(t, h, j);
      } else {
        GetMisses(t, h);
      }
    }
  }

  /** Put then get at the item level: a name no earlier item's hash equals is found at its new index. */
  lemma PutFindsNew(t: seq<Slot>, items: seq<Item>, nfiles: nat, name: CStr, size: nat)
    requires Table(t, items, nfiles) && |items| < nfiles
    ensures HasFree(t)
    ensures |name| > 0 && (forall k :: 0 <= k < |items| ==> StrHash(items[k].name) != StrHash(name)) ==>
      Get(Inserted(t, StrHash(name), |items|), StrHash(name)) == |items|
  {
    TableHasFree(t, items, nfiles);
    HashIsZeroOnlyForEmpty(name);
    if |name| > 0 && forall k :: 0 <= k < |items| ==> StrHash(items[k].name) != StrHash(name) {
      PutThenGet(t, StrHash(name), |items|);
    }
  }

  /** The items init_storage creates: one per regular file, in directory order. */
  function Regular(dir: seq<DirEntry>): (items: seq<Item>)
    ensures |items| <= |dir|
  {
    if |dir| == 0 then []
    else Regular(dir[..|dir| - 1])
         + (if dir[|dir| - 1].regular then [Item(dir[|dir| - 1].name, dir[|dir| - 1].size)] else [])
  }

  lemma RegularStep(dir: seq<DirEntry>, i: nat)
    requires i < |dir|
    ensures Regular(dir[..i + 1]) == Regular(dir[..i]) + (if dir[i].regular then [Item(dir[i].name, dir[i].size)] else [])
    ensures |Regular(dir[..i])| <= i
  {
    assert dir[..i + 1][..i] == dir[..i];
  }

  /** The storage (s_t): the item array and the hash table over it. */
  class Storage {
    var items: seq<Item>
    /** The number of directory entries counted by init_storage's first pass. */
    const nfiles: nat
    const hsize: nat
    const slots: array<Slot>

    ghost predicate Valid()
      reads this, slots
    {
      hsize == slots.Length && Table(slots[..], items, nfiles)
    }

    /**
     * init_storage: count every directory entry, allocate twice as many
     * table slots (zero-filled here), then put each regular file as the
     * next item.
     */
    constructor(dir: seq<DirEntry>)
      requires |dir| > 0
      ensures Valid() && fresh(slots)
      ensures nfiles == |dir| && hsize == 2 * |dir|
      ensures items == Regular(dir)
    {
      nfiles := |dir|;
      hsize := 2 * |dir|;
      slots := new Slot[2 * |dir|](_ => FREE);
      items := [];
      new;
      assert slots[..] == seq(2 * |dir|, _ => FREE);
      FreeTableEmpty(2 * |dir|);
      FreeTableClustered(2 * |dir|);
      PutEntries(dir);
    }

    /** init_storage's second pass: each regular file becomes the next item. */
    method PutEntries(dir: seq<DirEntry>)
      requires Valid() && items == [] && |dir| <= nfiles
      modifies this`items, slots
      ensures Valid()
      ensures items == Regular(dir)
    {
      var i := 0;
      while i < |dir|
        invariant 0 <= i <= |dir|
        invariant Valid() && items == Regular(dir[..i])
      {
        RegularStep(dir, i);
        PutEntry(dir[i]);
        i := i + 1;
      }
      assert dir[..i] == dir;
    }

    /** One directory entry of that pass: only a regular file is put. */
    method PutEntry(e: DirEntry)
      requires Valid() && |items| < nfiles
      modifies this`items, slots
      ensures Valid()
      ensures items == old(items) + (if e.regular then [Item(e.name, e.size)] else [])
    {
      if e.regular {
        PutItem(e.name, e.size);
      }
    }

    /**
     * put_item for the next item index: probe from the name's home slot
     * to the first free slot and record the hash and index there.
     */
    method PutItem(name: CStr, size: nat)
      requires Valid() && |items| < nfiles
      modifies this`items, slots
      ensures Valid()
      ensures HasFree(old(slots[..]))
      ensures items == old(items) + [Item(name, size)]
      ensures slots[..] == Inserted(old(slots[..]), StrHash(name), |old(items)|)
      ensures |name| > 0 && (forall k :: 0 <= k < |old(items)| ==> StrHash(old(items)[k].name) != StrHash(name)) ==>
        Get(slots[..], StrHash(name)) == |old(items)|
    {
      var fullhash := StrToHash(name);
      PutKeepsTable(slots[..], items, nfiles, name, size);
      PutFindsNew(slots[..], items, nfiles, name, size);
      var tindex := Probe(fullhash % hsize, 0);
      slots[tindex] := Slot(fullhash, |items|);
      items := items + [Item(name, size)];
    }

    /**
     * get_item: probe from the name's home slot while slots are occupied by
     * other hashes; the stored index on a match, -1 otherwise (corrected so
     * that a free slot never matches).
     */
    method GetItem(name: CStr) returns (idx: int)
      requires Valid()
      ensures idx == Get(slots[..], StrHash(name))
      ensures idx >= 0 ==> idx < |items| && StrHash(items[idx].name) == StrHash(name)
      ensures idx < 0 <==> |name| == 0 || forall k :: 0 <= k < |items| ==> StrHash(items[k].name) != StrHash(name)
    {
      var fullhash := StrToHash(name);
      GetMeaning(slots[..], items, nfiles, name);
      TableHasFree(slots[..], items, nfiles);
      var tindex := Probe(fullhash % hsize, fullhash);
      if slots[tindex].fullhash == 0 || slots[tindex].fullhash != fullhash {
        return -1;
      }
      return slots[tindex].index;
    }

    /**
     * The probe loop of put_item (key 0: stop at a free slot) and of
     * get_item (key the name's hash: stop at a free slot or a match),
     * stepping cyclically from slot s.
     */
    method Probe(s: nat, key: u64) returns (tindex: nat)
      requires s < slots.Length && HasFree(slots[..])
      ensures tindex == SlotAt(s, ProbeEnd(slots[..], s, key, 0), slots.Length)
      ensures tindex < slots.Length && Stops(slots[..], tindex, key)
    {
      ghost var t := slots[..];
      ProbeReaches(t, s, key);
      ProbeEndStops(t, s, key, 0);
      tindex := s;
      ghost var k := 0;
      DivModUnique(s, slots.Length, 0, s);
      while slots[tindex].fullhash != 0 && slots[tindex].fullhash != key
        invariant k <= ProbeEnd(t, s, key, 0) && tindex == SlotAt(s, k, slots.Length)
        decreases ProbeEnd(t, s, key, 0) - k
      {
        assert k != ProbeEnd(t, s, key, 0) by {
          assert !Stops(t, tindex, key);
        }
        SlotAtNext(s, k, slots.Length);
        tindex := (tindex + 1) % slots.Length;
        k := k + 1;
      }
    }
  }
}
