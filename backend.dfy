/**
 * The backend manager: a registry of up to sixteen storage backends (tmpfs,
 * NVMe, SSD, HDD, network mounts), the roles some of them play (default,
 * ephemeral, cache), the placement of new objects, per-object metadata, and
 * migration of an object from one backend to another with its accounting.
 *
 * The global and per-backend indexes the manager drives are represented here
 * by a map from URI to the object's record; the filesystem by the set of
 * paths that exist. Whether an open, a copy or an index allocation succeeds
 * arrives as a parameter.
 */
module Backend {
  import opened Bytes
  import opened Bits
  import opened Wrappers
  import opened PayloadSchema

  const MAX_BACKENDS: nat := 16

  // backend_type_t
  const TYPE_MEMORY: int := 0
  const TYPE_NVME: int := 1
  const TYPE_SSD: int := 2
  const TYPE_HDD: int := 3
  const TYPE_NETWORK: int := 4

  // Backend flags, kept as a 32-bit word.
  const FLAG_EPHEMERAL_ONLY: bv32 := 0x01
  const FLAG_PERSISTENT: bv32 := 0x02
  const FLAG_ENABLED: bv32 := 0x04
  const FLAG_READONLY: bv32 := 0x08
  const FLAG_MIGRATION_SRC: bv32 := 0x10
  const FLAG_MIGRATION_DST: bv32 := 0x20

  // Index entry flags given to new objects.
  const INDEX_FLAG_EPHEMERAL: u32 := 0x01
  const INDEX_FLAG_PERSISTENT: u32 := 0x02

  /** backend_type_name. */
  function TypeName(kind: int): (name: string)
    ensures name == "unknown" <==> !(TYPE_MEMORY <= kind <= TYPE_NETWORK)
  {
    if kind == TYPE_MEMORY then "memory"
    else if kind == TYPE_NVME then "nvme"
    else if kind == TYPE_SSD then "ssd"
    else if kind == TYPE_HDD then "hdd"
    else if kind == TYPE_NETWORK then "network"
    else "unknown"
  }


  /** A registered backend: backend_info_t without its performance figures. */
  datatype BackendInfo = BackendInfo(
    id: nat,
    kind: int,
    mountPath: string,
    name: string,
    flags: bv32,
    capacityBytes: u64,
    usedBytes: u64,
    objectCount: nat,
    readCount: nat,
    writeCount: nat,
    migrationsIn: nat,
    migrationsOut: nat,
    indexDirty: bool)

  predicate EphemeralOnly(b: BackendInfo)
  {
    b.flags & FLAG_EPHEMERAL_ONLY != 0
  }

  predicate Enabled(b: BackendInfo)
  {
    b.flags & FLAG_ENABLED != 0
  }

  /** What the manager knows of an object: its index entry. */
  datatype ObjectRecord = ObjectRecord(
    backendId: nat,
    path: string,
    size: u64,
    flags: u32,
    accessCount: nat,
    payload: PayloadDescriptor)

  /** The payload field of a zero-filled index entry. */
  const ZERO_PAYLOAD: PayloadDescriptor := Initial().(version := 0)

  function Add64(a: u64, b: u64): u64
  {
    (a + b) % U64_MODULUS
  }

  function Sub64(a: u64, b: u64): u64
  {
    (a - b) % U64_MODULUS
  }

  /** The flags with ENABLED set or cleared, as backend_set_enabled leaves them. */
  function WithEnabled(flags: bv32, enabled: bool): bv32
  {
    if enabled then flags | FLAG_ENABLED else flags & !FLAG_ENABLED
  }

  /** WithEnabled decides the ENABLED bit and keeps every other bit. */
  lemma WithEnabledTogglesOnlyEnabled(flags: bv32, enabled: bool, mask: bv32)
    requires mask & FLAG_ENABLED == 0
    ensures (WithEnabled(flags, enabled) & FLAG_ENABLED != 0) == enabled
    ensures WithEnabled(flags, enabled) & mask == flags & mask
  {
  }

  /** A 64-bit byte count moved by newSize - oldSize, wrapping. */
  function Shift64(x: u64, oldSize: u64, newSize: u64): u64
  {
    (x + newSize - oldSize) % U64_MODULUS
  }

  /** backend_update_size's adjustment: add the growth or subtract the shrinkage. */
  function Adjusted(x: u64, oldSize: u64, newSize: u64): (r: u64)
    ensures r == Shift64(x, oldSize, newSize)
  {
    if newSize > oldSize then Add64(x, newSize - oldSize)
    else if newSize < oldSize then Sub64(x, oldSize - newSize)
    else x
  }

  /** Adjusting back by the reverse change restores the count. */
  lemma AdjustedUndo(x: u64, oldSize: u64, newSize: u64)
    ensures Adjusted(Adjusted(x, oldSize, newSize), newSize, oldSize) == x
  {
    ModShift(x, U64_MODULUS, (x + newSize - oldSize) / U64_MODULUS);
  }

  /** Whether backend_update_size gives the entry an identity descriptor. */
  predicate Seeds(r: ObjectRecord, newSize: u64)
  {
    newSize > 0 && r.payload.variantCount == 0
  }

  /** The entry backend_update_size leaves: new size, and a seeded descriptor when it had none. */
  function Resized(r: ObjectRecord, newSize: u64, seeded: PayloadDescriptor): ObjectRecord
  {
    r.(size := newSize, payload := if Seeds(r, newSize) then seeded else r.payload)
  }

  // ---------------------------------------------------------------------
  // The registry's invariants, stated on values

  /** The objects whose entries name backend b. */
  function ObjectsOn(m: map<string, ObjectRecord>, b: nat): set<string>
  {
    set u | u in m && m[u].backendId == b
  }

  /** Role ids are unset or name a registered backend fit for the role. */
  ghost predicate RolesFit(bs: seq<BackendInfo>, defaultId: int, ephemeralId: int, cacheId: int)
  {
    (defaultId == -1 || (0 <= defaultId < |bs| && !EphemeralOnly(bs[defaultId])))
    && (ephemeralId == -1 || (0 <= ephemeralId < |bs| && EphemeralOnly(bs[ephemeralId])))
    && (cacheId == -1 || (0 <= cacheId < |bs| && bs[cacheId].kind == TYPE_MEMORY))
  }

  /** Backends are numbered by position and count the objects placed on them. */
  ghost predicate Registry(bs: seq<BackendInfo>, m: map<string, ObjectRecord>)
  {
    |bs| <= MAX_BACKENDS
    && (forall i | 0 <= i < |bs| :: bs[i].id == i)
    && (forall u | u in m :: m[u].backendId < |bs|)
    && (forall b | 0 <= b < |bs| :: bs[b].objectCount == |ObjectsOn(m, b)|)
  }

  /** A new object on backend b adds one to b's set and none to the others. */
  lemma ObjectsOnInsert(m: map<string, ObjectRecord>, u: string, r: ObjectRecord, b: nat)
    requires u !in m
    ensures |ObjectsOn(m[u := r], b)| == |ObjectsOn(m, b)| + (if r.backendId == b then 1 else 0)
  {
    if r.backendId == b {
      assert ObjectsOn(m[u := r], b) == ObjectsOn(m, b) + {u};
    } else {
      assert ObjectsOn(m[u := r], b) == ObjectsOn(m, b);
    }
  }

  /** Removing an object takes it from its backend's set only. */
  lemma ObjectsOnRemove(m: map<string, ObjectRecord>, u: string, b: nat)
    requires u in m
    ensures |ObjectsOn(m - {u}, b)| == |ObjectsOn(m, b)| - (if m[u].backendId == b then 1 else 0)
  {
    if m[u].backendId == b {
      assert ObjectsOn(m - {u}, b) == ObjectsOn(m, b) - {u};
    } else {
      assert ObjectsOn(m - {u}, b) == ObjectsOn(m, b);
    }
  }

  /** Moving an object to the backend of r moves it between the two sets. */
  lemma ObjectsOnMove(m: map<string, ObjectRecord>, u: string, r: ObjectRecord, b: nat)
    requires u in m
    ensures |ObjectsOn(m[u := r], b)|
      == |ObjectsOn(m, b)| - (if m[u].backendId == b then 1 else 0) + (if r.backendId == b then 1 else 0)
  {
    ObjectsOnRemove(m, u, b);
    ObjectsOnInsert(m - {u}, u, r, b);
    assert (m - {u})[u := r] == m[u := r];
  }

  /** Registering backend |bs| with a fresh record keeps the registry. */
  lemma RegisterKeeps(bs: seq<BackendInfo>, m: map<string, ObjectRecord>, b: BackendInfo)
    requires Registry(bs, m) && |bs| < MAX_BACKENDS && b.id == |bs| && b.objectCount == 0
    ensures Registry(bs + [b], m)
  {
    assert ObjectsOn(m, |bs|) == {};
  }

  /** The registry after a new object u is placed on backend r.backendId. */
  lemma CreateKeeps(bs: seq<BackendInfo>, m: map<string, ObjectRecord>, u: string, r: ObjectRecord, b: BackendInfo)
    requires Registry(bs, m) && u !in m && r.backendId < |bs|
    requires b.id == r.backendId && b.objectCount == bs[r.backendId].objectCount + 1
    ensures Registry(bs[r.backendId := b], m[u := r])
  {
    var bs' := bs[r.backendId := b];
    forall k | 0 <= k < |bs'|
      ensures bs'[k].objectCount == |ObjectsOn(m[u := r], k)|
    {
      ObjectsOnInsert(m, u, r, k);
    }
  }

  /** The registry after object u leaves its backend b. */
  lemma DeleteKeeps(bs: seq<BackendInfo>, m: map<string, ObjectRecord>, u: string, b: BackendInfo)
    requires Registry(bs, m) && u in m
    requires b.id == m[u].backendId && b.objectCount + 1 == bs[m[u].backendId].objectCount
    ensures Registry(bs[m[u].backendId := b], m - {u})
  {
    var bs' := bs[m[u].backendId := b];
    forall k | 0 <= k < |bs'|
      ensures bs'[k].objectCount == |ObjectsOn(m - {u}, k)|
    {
      ObjectsOnRemove(m, u, k);
    }
  }

  /** Under the registry an object's backend holds at least that object. */
  lemma HoldsObject(bs: seq<BackendInfo>, m: map<string, ObjectRecord>, u: string)
    requires Registry(bs, m) && u in m
    ensures bs[m[u].backendId].objectCount >= 1
  {
    assert u in ObjectsOn(m, m[u].backendId);
  }

  /** The registry after object u moves from backend s to backend t. */
  lemma MoveKeeps(bs: seq<BackendInfo>, m: map<string, ObjectRecord>, u: string, r: ObjectRecord,
                  src: BackendInfo, dst: BackendInfo)
    requires Registry(bs, m) && u in m && r.backendId < |bs| && r.backendId != m[u].backendId
    requires src.id == m[u].backendId && src.objectCount + 1 == bs[m[u].backendId].objectCount
    requires dst.id == r.backendId && dst.objectCount == bs[r.backendId].objectCount + 1
    ensures Registry(bs[m[u].backendId := src][r.backendId := dst], m[u := r])
  {
    var bs' := bs[m[u].backendId := src][r.backendId := dst];
    forall k | 0 <= k < |bs'|
      ensures bs'[k].objectCount == |ObjectsOn(m[u := r], k)|
    {
      ObjectsOnMove(m, u, r, k);
    }
  }

  /** A backend's roles depend only on its type and its EPHEMERAL_ONLY bit. */
  lemma RolesKeep(bs: seq<BackendInfo>, i: nat, b: BackendInfo, defaultId: int, ephemeralId: int, cacheId: int)
    requires RolesFit(bs, defaultId, ephemeralId, cacheId) && i < |bs|
    requires b.kind == bs[i].kind && EphemeralOnly(b) == EphemeralOnly(bs[i])
    ensures RolesFit(bs[i := b], defaultId, ephemeralId, cacheId)
  {
  }

  /** Changing a backend's record but not its id or count keeps the registry. */
  lemma UpdateKeeps(bs: seq<BackendInfo>, m: map<string, ObjectRecord>, i: nat, b: BackendInfo)
    requires Registry(bs, m) && i < |bs|
    requires b.id == i && b.objectCount == bs[i].objectCount
    ensures Registry(bs[i := b], m)
  {
  }

  /** The backends' object counts added up. */
  function CountSum(bs: seq<BackendInfo>): nat
  {
    if bs == [] then 0 else CountSum(bs[..|bs| - 1]) + bs[|bs| - 1].objectCount
  }

  /** The objects on backends numbered below k. */
  function ObjectsBelow(m: map<string, ObjectRecord>, k: nat): set<string>
  {
    set u | u in m && m[u].backendId < k
  }

  lemma {:induction false} CountsUpTo(bs: seq<BackendInfo>, m: map<string, ObjectRecord>, k: nat)
    requires Registry(bs, m) && k <= |bs|
    ensures CountSum(bs[..k]) == |ObjectsBelow(m, k)|
  {
    if k == 0 {
      assert ObjectsBelow(m, 0) == {};
    } else {
      CountsUpTo(bs, m, k - 1);
      assert bs[..k][..k - 1] == bs[..k - 1];
      assert ObjectsBelow(m, k) == ObjectsBelow(m, k - 1) + ObjectsOn(m, k - 1);
      assert ObjectsBelow(m, k - 1) * ObjectsOn(m, k - 1) == {};
    }
  }

  /** The per-backend object counts add up to the number of indexed objects. */
  lemma CountsAddUp(bs: seq<BackendInfo>, m: map<string, ObjectRecord>)
    requires Registry(bs, m)
    ensures CountSum(bs) == |m|
  {
    CountsUpTo(bs, m, |bs|);
    assert bs[..|bs|] == bs;
    assert ObjectsBelow(m, |bs|) == m.Keys;
  }

  /** The manager's invariant on its state. */
  ghost predicate Consistent(bs: seq<BackendInfo>, m: map<string, ObjectRecord>, total: nat,
                             defaultId: int, ephemeralId: int, cacheId: int)
  {
    Registry(bs, m) && RolesFit(bs, defaultId, ephemeralId, cacheId) && total == |m|
  }

  /** Indexing a new object on backend r.backendId, one more object there and in total. */
  lemma AddKeeps(bs: seq<BackendInfo>, m: map<string, ObjectRecord>, total: nat,
                 defaultId: int, ephemeralId: int, cacheId: int, u: string, r: ObjectRecord, b: BackendInfo)
    requires Consistent(bs, m, total, defaultId, ephemeralId, cacheId) && u !in m && r.backendId < |bs|
    requires b.id == r.backendId && b.objectCount == bs[r.backendId].objectCount + 1
    requires b.kind == bs[r.backendId].kind && EphemeralOnly(b) == EphemeralOnly(bs[r.backendId])
    ensures Consistent(bs[r.backendId := b], m[u := r], total + 1, defaultId, ephemeralId, cacheId)
  {
    CreateKeeps(bs, m, u, r, b);
    RolesKeep(bs, r.backendId, b, defaultId, ephemeralId, cacheId);
  }

  /** Dropping object u, one object fewer on its backend and in total. */
  lemma DropKeeps(bs: seq<BackendInfo>, m: map<string, ObjectRecord>, total: nat,
                  defaultId: int, ephemeralId: int, cacheId: int, u: string, b: BackendInfo)
    requires Consistent(bs, m, total, defaultId, ephemeralId, cacheId) && u in m
    requires b.id == m[u].backendId && b.objectCount + 1 == bs[m[u].backendId].objectCount
    requires b.kind == bs[m[u].backendId].kind && EphemeralOnly(b) == EphemeralOnly(bs[m[u].backendId])
    ensures total >= 1
    ensures Consistent(bs[m[u].backendId := b], m - {u}, total - 1, defaultId, ephemeralId, cacheId)
  {
    DeleteKeeps(bs, m, u, b);
    RolesKeep(bs, m[u].backendId, b, defaultId, ephemeralId, cacheId);
  }

  /** Rewriting object u's entry on the same backend and that backend's record. */
  lemma StoreKeeps(bs: seq<BackendInfo>, m: map<string, ObjectRecord>, total: nat,
                   defaultId: int, ephemeralId: int, cacheId: int, u: string, r: ObjectRecord, b: BackendInfo)
    requires Consistent(bs, m, total, defaultId, ephemeralId, cacheId)
    requires u in m && r.backendId == m[u].backendId
    requires b.id == r.backendId && b.objectCount == bs[r.backendId].objectCount
    requires b.kind == bs[r.backendId].kind && EphemeralOnly(b) == EphemeralOnly(bs[r.backendId])
    ensures Consistent(bs[r.backendId := b], m[u := r], total, defaultId, ephemeralId, cacheId)
  {
    UpdateKeeps(bs, m, r.backendId, b);
    RolesKeep(bs, r.backendId, b, defaultId, ephemeralId, cacheId);
    ObjectsOnSame(m, u, r);
  }

  /** Moving object u from its backend to r.backendId, with both backends' records. */
  lemma MoveEntryKeeps(bs: seq<BackendInfo>, m: map<string, ObjectRecord>, total: nat,
                       defaultId: int, ephemeralId: int, cacheId: int, u: string, r: ObjectRecord,
                       src: BackendInfo, dst: BackendInfo)
    requires Consistent(bs, m, total, defaultId, ephemeralId, cacheId)
    requires u in m && r.backendId < |bs| && r.backendId != m[u].backendId
    requires src.id == m[u].backendId && src.objectCount + 1 == bs[m[u].backendId].objectCount
    requires dst.id == r.backendId && dst.objectCount == bs[r.backendId].objectCount + 1
    requires src.kind == bs[m[u].backendId].kind && EphemeralOnly(src) == EphemeralOnly(bs[m[u].backendId])
    requires dst.kind == bs[r.backendId].kind && EphemeralOnly(dst) == EphemeralOnly(bs[r.backendId])
    ensures Consistent(bs[m[u].backendId := src][r.backendId := dst], m[u := r], total, defaultId, ephemeralId, cacheId)
  {
    MoveKeeps(bs, m, u, r, src, dst);
    RolesKeep(bs, m[u].backendId, src, defaultId, ephemeralId, cacheId);
    RolesKeep(bs[m[u].backendId := src], r.backendId, dst, defaultId, ephemeralId, cacheId);
  }

  /** The backends' flag words, in id order. */
  function FlagsOf(bs: seq<BackendInfo>): seq<bv32>
  {
    seq(|bs|, i requires 0 <= i < |bs| => bs[i].flags)
  }

  lemma FlagsOfUpdate(bs: seq<BackendInfo>, k: nat, b: BackendInfo)
    requires k < |bs| && b.flags == bs[k].flags
    ensures FlagsOf(bs[k := b]) == FlagsOf(bs)
  {
  }

  /** Whether, by the flag words, backend id accepts a new object of the given kind. */
  predicate AdmitsIn(flags: seq<bv32>, id: int, ephemeral: bool)
  {
    0 <= id < |flags| && flags[id] & FLAG_ENABLED != 0 && (ephemeral ==> flags[id] & FLAG_EPHEMERAL_ONLY != 0)
  }

  /** The index after global_index_lookup of u: a found entry records one more access. */
  function Looked(m: map<string, ObjectRecord>, u: string): map<string, ObjectRecord>
  {
    if u in m then m[u := m[u].(accessCount := m[u].accessCount + 1)] else m
  }

  /** Everything the manager holds, as one value. */
  datatype ManagerState = ManagerState(
    backends: seq<BackendInfo>, defaultId: int, ephemeralId: int, cacheId: int,
    objects: map<string, ObjectRecord>, files: set<string>, totalObjects: nat, totalBytes: u64)

  /** The backend a creation request names: its own id, or the role's when it is negative. */
  function TargetIn(s: ManagerState, requested: int, ephemeral: bool): int
  {
    if requested >= 0 then requested else if ephemeral then s.ephemeralId else s.defaultId
  }

  /**
   * The state backend_get_object leaves: a found object records two
   * accesses (one in the lookup, one in the handler) and a read on its
   * backend; anything else is left as it was.
   */
  function AfterGet(s: ManagerState, u: string): ManagerState
  {
    if u in s.objects && s.objects[u].backendId < |s.backends| then
      var r := s.objects[u];
      var b := s.backends[r.backendId];
      s.(objects := s.objects[u := r.(accessCount := r.accessCount + 2)],
         backends := s.backends[r.backendId := b.(readCount := b.readCount + 1)])
    else s
  }

  /**
   * The state backend_delete_object leaves: the object's file is unlinked,
   * and the object leaves the index, its backend's counts (marking that
   * index dirty) and the manager's totals.
   */
  function AfterDelete(s: ManagerState, u: string): ManagerState
  {
    if u in s.objects && s.objects[u].backendId < |s.backends|
       && s.backends[s.objects[u].backendId].objectCount >= 1 && s.totalObjects >= 1 then
      var r := s.objects[u];
      var b := s.backends[r.backendId];
      s.(objects := s.objects - {u}, files := s.files - {r.path},
         backends := s.backends[r.backendId := b.(objectCount := b.objectCount - 1,
                                                  usedBytes := Sub64(b.usedBytes, r.size), indexDirty := true)],
         totalObjects := s.totalObjects - 1, totalBytes := Sub64(s.totalBytes, r.size))
    else s
  }

  /** The longest path the 1024-byte path buffers hold, before their NUL. */
  const PATH_MAX_LEN: nat := 1023

  /**
   * snprintf("%s%s", mount_path, uri) into a 1024-byte buffer: the object's
   * file path, cut to 1023 characters.
   */
  function FsPath(mountPath: string, uri: string): (p: string)
    ensures |p| <= PATH_MAX_LEN && |p| <= |mountPath + uri| && p == (mountPath + uri)[..|p|]
    ensures |mountPath + uri| <= PATH_MAX_LEN ==> p == mountPath + uri
  {
    var full := mountPath + uri;
    if |full| <= PATH_MAX_LEN then full else full[..PATH_MAX_LEN]
  }

  /**
   * Two URIs that agree on their first 1023 − |mountPath| characters name
   * the same file: creating the second truncates the first object's file,
   * and deleting either unlinks the other's.
   */
  lemma LongUrisShareFile(mountPath: string, u: string, v: string)
    requires |mountPath| <= PATH_MAX_LEN
    requires |u| >= PATH_MAX_LEN - |mountPath| && |v| >= PATH_MAX_LEN - |mountPath|
    requires u[..PATH_MAX_LEN - |mountPath|] == v[..PATH_MAX_LEN - |mountPath|]
    ensures FsPath(mountPath, u) == FsPath(mountPath, v)
  {
    var k := PATH_MAX_LEN - |mountPath|;
    assert (mountPath + u)[..PATH_MAX_LEN] == mountPath + u[..k];
    assert (mountPath + v)[..PATH_MAX_LEN] == mountPath + v[..k];
  }

  /**
   * With two such URIs indexed on one backend, deleting the first unlinks
   * the file the second object's entry still names.
   */
  lemma LongUriDeleteUnlinksOther(s: ManagerState, mountPath: string, u: string, v: string)
    requires |mountPath| <= PATH_MAX_LEN && u != v
    requires |u| >= PATH_MAX_LEN - |mountPath| && |v| >= PATH_MAX_LEN - |mountPath|
    requires u[..PATH_MAX_LEN - |mountPath|] == v[..PATH_MAX_LEN - |mountPath|]
    requires u in s.objects && s.objects[u].path == FsPath(mountPath, u)
    requires v in s.objects && s.objects[v].path == FsPath(mountPath, v)
    ensures var t := AfterDelete(s, u);
      v in t.objects && t.objects[v] == s.objects[v] && (u !in t.objects ==> t.objects[v].path !in t.files)
  {
    LongUrisShareFile(mountPath, u, v);
  }

  /** The entry of a new object: empty, no accesses, the request's flags plus EPHEMERAL or PERSISTENT. */
  function NewRecord(id: nat, path: string, ephemeral: bool, reqFlags: u32): ObjectRecord
  {
    ObjectRecord(id, path, 0, Or32(reqFlags, if ephemeral then INDEX_FLAG_EPHEMERAL else INDEX_FLAG_PERSISTENT), 0,
                 ZERO_PAYLOAD)
  }

  /** Whether backend_create_object succeeds: the target admits the object, the URI is new and the file opens. */
  predicate Creates(s: ManagerState, u: string, requested: int, ephemeral: bool, openOk: bool)
  {
    AdmitsIn(FlagsOf(s.backends), TargetIn(s, requested, ephemeral), ephemeral) && u !in s.objects && openOk
  }

  /**
   * The state backend_create_object leaves: when it succeeds, a new entry is
   * indexed at the backend's mount path followed by the URI, its file exists, and the
   * backend's object and write counts and the manager's object total rise
   * by one; otherwise nothing changes.
   */
  function AfterCreate(s: ManagerState, u: string, requested: int, ephemeral: bool, reqFlags: u32, openOk: bool)
    : ManagerState
  {
    if Creates(s, u, requested, ephemeral, openOk) then
      var id := TargetIn(s, requested, ephemeral);
      var b := s.backends[id];
      var path := FsPath(b.mountPath, u);
      s.(objects := s.objects[u := NewRecord(id, path, ephemeral, reqFlags)],
         backends := s.backends[id := b.(objectCount := b.objectCount + 1, writeCount := b.writeCount + 1,
                                         indexDirty := true)],
         files := s.files + {path}, totalObjects := s.totalObjects + 1)
    else s
  }

  /** The manager's invariant, on a state value. */
  ghost predicate ConsistentState(s: ManagerState)
  {
    Consistent(s.backends, s.objects, s.totalObjects, s.defaultId, s.ephemeralId, s.cacheId)
  }

  /** Two backend tables agree on what placement reads: their size, mount paths and flag words. */
  predicate SameLayout(a: seq<BackendInfo>, b: seq<BackendInfo>)
  {
    |a| == |b| && forall i | 0 <= i < |a| :: a[i].mountPath == b[i].mountPath && a[i].flags == b[i].flags
  }

  lemma LayoutFlags(a: seq<BackendInfo>, b: seq<BackendInfo>)
    requires SameLayout(a, b)
    ensures FlagsOf(a) == FlagsOf(b)
  {
  }

  /** A lookup keeps the invariant, the indexed URIs, the files, the roles and the layout. */
  lemma GetKeeps(s: ManagerState, u: string)
    requires ConsistentState(s)
    ensures var t := AfterGet(s, u);
      ConsistentState(t) && t.objects.Keys == s.objects.Keys && t.files == s.files
      && SameLayout(t.backends, s.backends)
      && t.defaultId == s.defaultId && t.ephemeralId == s.ephemeralId && t.cacheId == s.cacheId
  {
    if u in s.objects {
      var r := s.objects[u];
      var b := s.backends[r.backendId];
      StoreKeeps(s.backends, s.objects, s.totalObjects, s.defaultId, s.ephemeralId, s.cacheId, u,
                 r.(accessCount := r.accessCount + 2), b.(readCount := b.readCount + 1));
    }
  }

  /**
   * Under the invariant a delete takes an indexed object out of the index,
   * removes its file and keeps the invariant, the roles and the layout.
   */
  lemma DeleteKeepsState(s: ManagerState, u: string)
    requires ConsistentState(s)
    ensures var t := AfterDelete(s, u);
      ConsistentState(t) && t.objects == s.objects - {u}
      && t.files == (if u in s.objects then s.files - {s.objects[u].path} else s.files)
      && SameLayout(t.backends, s.backends)
      && t.defaultId == s.defaultId && t.ephemeralId == s.ephemeralId && t.cacheId == s.cacheId
  {
    if u in s.objects {
      var r := s.objects[u];
      HoldsObject(s.backends, s.objects, u);
      var b := s.backends[r.backendId];
      DropKeeps(s.backends, s.objects, s.totalObjects, s.defaultId, s.ephemeralId, s.cacheId, u,
                b.(objectCount := b.objectCount - 1, usedBytes := Sub64(b.usedBytes, r.size), indexDirty := true));
    } else {
      assert s.objects - {u} == s.objects;
    }
  }

  /**
   * A creation keeps the invariant; when it succeeds the URI is indexed on
   * the target backend with a new entry at that backend's mount path.
   */
  lemma CreateKeepsState(s: ManagerState, u: string, requested: int, ephemeral: bool, reqFlags: u32, openOk: bool)
    requires ConsistentState(s)
    ensures var t := AfterCreate(s, u, requested, ephemeral, reqFlags, openOk);
      var id := TargetIn(s, requested, ephemeral);
      ConsistentState(t) && SameLayout(t.backends, s.backends)
      && (u in t.objects <==> u in s.objects || Creates(s, u, requested, ephemeral, openOk))
      && (Creates(s, u, requested, ephemeral, openOk) ==>
            t.objects == s.objects[u := NewRecord(id, FsPath(s.backends[id].mountPath, u), ephemeral, reqFlags)]
            && t.files == s.files + {FsPath(s.backends[id].mountPath, u)})
  {
    if Creates(s, u, requested, ephemeral, openOk) {
      var id := TargetIn(s, requested, ephemeral);
      var b := s.backends[id];
      AddKeeps(s.backends, s.objects, s.totalObjects, s.defaultId, s.ephemeralId, s.cacheId, u,
               NewRecord(id, FsPath(b.mountPath, u), ephemeral, reqFlags),
               b.(objectCount := b.objectCount + 1, writeCount := b.writeCount + 1, indexDirty := true));
    }
  }

  // ---------------------------------------------------------------------
  // The manager

  class Manager {
    var backends: seq<BackendInfo>
    var defaultId: int
    var ephemeralId: int
    var cacheId: int
    /** The global index: every object by URI. */
    var objects: map<string, ObjectRecord>
    /** The paths that exist in the filesystem. */
    var files: set<string>
    var totalObjects: nat
    var totalBytes: u64

    ghost predicate Valid()
      reads this
    {
      Consistent(backends, objects, totalObjects, defaultId, ephemeralId, cacheId)
    }

    function State(): ManagerState
      reads this
    {
      ManagerState(backends, defaultId, ephemeralId, cacheId, objects, files, totalObjects, totalBytes)
    }

    /** backend_manager_get_backend: the backend with that id, if registered. */
    function GetBackend(id: int): (r: Option<BackendInfo>)
      reads this
      ensures r.Some? <==> 0 <= id < |backends|
      ensures r.Some? ==> r.value == backends[id]
    {
      if 0 <= id < |backends| then Some(backends[id]) else None
    }

    /** backend_manager_create: no backends, no roles, no objects. */
    constructor (existing: set<string>)
      ensures Valid()
      ensures backends == [] && objects == map[] && files == existing
      ensures defaultId == -1 && ephemeralId == -1 && cacheId == -1
      ensures totalObjects == 0 && totalBytes == 0
    {
      backends := [];
      defaultId, ephemeralId, cacheId := -1, -1, -1;
      objects := map[];
      files := existing;
      totalObjects, totalBytes := 0, 0;
    }

    /**
     * backend_manager_register: the new backend takes the next id and is
     * enabled whatever flags say; indexOk says whether its index could be
     * created.
     */
    method Register(kind: int, mountPath: string, name: string, capacityBytes: u64, flags: bv32, indexOk: bool)
      returns (id: int)
      requires Valid()
      modifies this`backends
      ensures Valid()
      ensures old(|backends|) >= MAX_BACKENDS || !indexOk ==> id == -1 && backends == old(backends)
      ensures old(|backends|) < MAX_BACKENDS && indexOk ==>
        id == old(|backends|)
        && backends == old(backends) + [BackendInfo(id, kind, mountPath, name, flags | FLAG_ENABLED,
                                                   capacityBytes, 0, 0, 0, 0, 0, 0, false)]
      ensures id >= 0 ==> Enabled(backends[id])
    {
      if |backends| >= MAX_BACKENDS || !indexOk {
        return -1;
      }
      id := |backends|;
      var b := BackendInfo(id, kind, mountPath, name, flags | FLAG_ENABLED, capacityBytes, 0, 0, 0, 0, 0, 0, false);
      RegisterKeeps(backends, objects, b);
      backends := backends + [b];
    }

    /** backend_manager_set_default: any registered backend not EPHEMERAL_ONLY. */
    method SetDefault(id: int) returns (rc: int)
      requires Valid()
      modifies this`defaultId
      ensures Valid()
      ensures rc == 0 <==> GetBackend(id).Some? && !EphemeralOnly(backends[id])
      ensures rc == 0 || rc == -1
      ensures defaultId == if rc == 0 then id else old(defaultId)
    {
      var b := GetBackend(id);
      if b.None? || EphemeralOnly(b.value) {
        return -1;
      }
      defaultId := id;
      rc := 0;
    }

    /** backend_manager_set_ephemeral: only an EPHEMERAL_ONLY backend. */
    method SetEphemeral(id: int) returns (rc: int)
      requires Valid()
      modifies this`ephemeralId
      ensures Valid()
      ensures rc == 0 <==> GetBackend(id).Some? && EphemeralOnly(backends[id])
      ensures rc == 0 || rc == -1
      ensures ephemeralId == if rc == 0 then id else old(ephemeralId)
    {
      var b := GetBackend(id);
      if b.None? || !EphemeralOnly(b.value) {
        return -1;
      }
      ephemeralId := id;
      rc := 0;
    }

    /** backend_manager_set_cache: only a memory backend. */
    method SetCache(id: int) returns (rc: int)
      requires Valid()
      modifies this`cacheId
      ensures Valid()
      ensures rc == 0 <==> GetBackend(id).Some? && backends[id].kind == TYPE_MEMORY
      ensures rc == 0 || rc == -1
      ensures cacheId == if rc == 0 then id else old(cacheId)
    {
      var b := GetBackend(id);
      if b.None? || b.value.kind != TYPE_MEMORY {
        return -1;
      }
      cacheId := id;
      rc := 0;
    }

    /** The backend a creation request names, in the current state. */
    function Target(requested: int, ephemeral: bool): int
      reads this
    {
      TargetIn(State(), requested, ephemeral)
    }

    /** Whether backend id accepts a new object of the given kind. */
    predicate Admits(id: int, ephemeral: bool)
      reads this
    {
      AdmitsIn(FlagsOf(backends), id, ephemeral)
    }

    /**
     * backend_create_object: place a new, empty object on the selected
     * backend. openOk says whether the parent directories and the file could
     * be created. An existing URI is refused before any file is touched.
     */
    method CreateObject(uri: string, requested: int, ephemeral: bool, reqFlags: u32, openOk: bool)
      returns (rc: int)
      requires Valid()
      modifies this`files, this`objects, this`backends, this`totalObjects
      ensures Valid()
      ensures rc == 0 || rc == -1
      ensures var id := old(Target(requested, ephemeral));
        rc == 0 <==> old(Admits(id, ephemeral)) && uri !in old(objects) && openOk
      ensures State() == AfterCreate(old(State()), uri, requested, ephemeral, reqFlags, openOk)
      ensures rc == 0 && ephemeral ==> EphemeralOnly(backends[old(Target(requested, ephemeral))])
      ensures rc == 0 && requested < 0 && !ephemeral ==> !EphemeralOnly(backends[old(Target(requested, ephemeral))])
    {
      var id := Target(requested, ephemeral);
      if id < 0 {
        return -1;
      }
      var found := GetBackend(id);
      if found.None? || !Enabled(found.value) {
        return -1;
      }
      var b := found.value;
      if ephemeral && !EphemeralOnly(b) {
        return -1;
      }
      if uri in objects {
        return -1;
      }
      if !openOk {
        return -1;
      }
      var path := FsPath(b.mountPath, uri);
      var r := NewRecord(id, path, ephemeral, reqFlags);
      var b' := b.(objectCount := b.objectCount + 1, writeCount := b.writeCount + 1, indexDirty := true);
      AddEntry(uri, r);
      rc := 0;
    }

    /** Indexes a new object on its backend, whose object and write counts grow by one. */
    method AddEntry(uri: string, r: ObjectRecord)
      requires Valid() && uri !in objects && r.backendId < |backends|
      modifies this`files, this`objects, this`backends, this`totalObjects
      ensures Valid()
      ensures var b := old(backends[r.backendId]);
        objects == old(objects)[uri := r]
        && backends == old(backends)[r.backendId := b.(objectCount := b.objectCount + 1,
                                                      writeCount := b.writeCount + 1, indexDirty := true)]
        && files == old(files) + {r.path}
        && totalObjects == old(totalObjects) + 1
    {
      var b := backends[r.backendId];
      var b' := b.(objectCount := b.objectCount + 1, writeCount := b.writeCount + 1, indexDirty := true);
      AddKeeps(backends, objects, totalObjects, defaultId, ephemeralId, cacheId, uri, r, b');
      files := files + {r.path};
      objects := objects[uri := r];
      backends := backends[r.backendId := b'];
      totalObjects := totalObjects + 1;
    }

    /**
     * global_index_lookup as the manager uses it: whether uri is indexed,
     * and a found entry records an access.
     */
    method Lookup(uri: string) returns (found: bool)
      requires Valid()
      modifies this`objects
      ensures Valid()
      ensures found == (uri in old(objects)) && objects == Looked(old(objects), uri)
    {
      if uri !in objects {
        return false;
      }
      var r := objects[uri];
      var b := backends[r.backendId];
      StoreKeeps(backends, objects, totalObjects, defaultId, ephemeralId, cacheId, uri,
                 r.(accessCount := r.accessCount + 1), b);
      assert backends[r.backendId := b] == backends;
      objects := objects[uri := r.(accessCount := r.accessCount + 1)];
      found := true;
    }

    /**
     * backend_get_object: a found object records two accesses (one in the
     * lookup, one here) and a read on its backend.
     */
    method GetObject(uri: string) returns (rc: int, record: Option<ObjectRecord>)
      requires Valid()
      modifies this`objects, this`backends
      ensures Valid()
      ensures uri !in old(objects) ==> rc == -1 && record == None
      ensures uri in old(objects) ==> rc == 0 && uri in objects && record == Some(objects[uri])
      ensures State() == AfterGet(old(State()), uri)
      ensures FlagsOf(backends) == old(FlagsOf(backends))
    {
      if uri !in objects {
        return -1, None;
      }
      var r := objects[uri];
      var b := backends[r.backendId];
      var r' := r.(accessCount := r.accessCount + 2);
      Store(uri, r', b.(readCount := b.readCount + 1));
      return 0, Some(r');
    }

    /**
     * backend_delete_object: the file is unlinked, the object leaves both
     * indexes and its backend's and the manager's counts.
     */
    method DeleteObject(uri: string) returns (rc: int)
      requires Valid()
      modifies this`files, this`objects, this`backends, this`totalObjects, this`totalBytes
      ensures Valid()
      ensures rc == (if uri in old(objects) then 0 else -1)
      ensures State() == AfterDelete(old(State()), uri)
      ensures uri !in objects
      ensures FlagsOf(backends) == old(FlagsOf(backends))
    {
      if uri !in objects {
        return -1;
      }
      DropEntry(uri);
      rc := 0;
    }

    /** Unlinks an object's file and takes it out of the index and the counts. */
    method DropEntry(uri: string)
      requires Valid() && uri in objects
      modifies this`files, this`objects, this`backends, this`totalObjects, this`totalBytes
      ensures Valid()
      ensures
        var r := old(objects[uri]);
        var b := old(backends[r.backendId]);
        objects == old(objects) - {uri} && files == old(files) - {r.path}
        && b.objectCount >= 1
        && backends == old(backends)[r.backendId := b.(objectCount := b.objectCount - 1,
                                                      usedBytes := Sub64(b.usedBytes, r.size), indexDirty := true)]
        && totalObjects == old(totalObjects) - 1 && totalBytes == Sub64(old(totalBytes), r.size)
      ensures FlagsOf(backends) == old(FlagsOf(backends))
    {
      var r := objects[uri];
      var b := backends[r.backendId];
      HoldsObject(backends, objects, uri);
      var b' := b.(objectCount := b.objectCount - 1, usedBytes := Sub64(b.usedBytes, r.size), indexDirty := true);
      FlagsOfUpdate(backends, r.backendId, b');
      DropKeeps(backends, objects, totalObjects, defaultId, ephemeralId, cacheId, uri, b');
      files := files - {r.path};
      backends := backends[r.backendId := b'];
      objects := objects - {uri};
      totalObjects := totalObjects - 1;
      totalBytes := Sub64(totalBytes, r.size);
    }

    /**
     * backend_set_payload_metadata: a descriptor is stored only if the
     * validator accepts it and the object exists; its backend's index is
     * then marked dirty. The lookup records an access.
     */
    method SetPayloadMetadata(uri: string, payload: PayloadDescriptor) returns (rc: int)
      requires Valid()
      modifies this`objects, this`backends
      ensures Valid()
      ensures rc == 0 || rc == -1
      ensures rc == 0 <==> Check(payload) == None && uri in old(objects)
      ensures rc == -1 ==> objects == old(objects) && backends == old(backends)
      ensures rc == 0 ==>
        var r := old(objects[uri]);
        objects == old(objects)[uri := r.(accessCount := r.accessCount + 1, payload := payload)]
        && backends == old(backends)[r.backendId := old(backends[r.backendId]).(indexDirty := true)]
    {
      if Check(payload) != None {
        return -1;
      }
      if uri !in objects {
        return -1;
      }
      var r := objects[uri];
      var b := backends[r.backendId];
      Store(uri, r.(accessCount := r.accessCount + 1, payload := payload), b.(indexDirty := true));
      rc := 0;
    }

    /** backend_get_payload_metadata: the stored descriptor; only the lookup's access is recorded. */
    method GetPayloadMetadata(uri: string) returns (rc: int, payload: Option<PayloadDescriptor>)
      requires Valid()
      modifies this`objects
      ensures Valid()
      ensures objects == Looked(old(objects), uri)
      ensures uri !in old(objects) ==> rc == -1 && payload == None
      ensures uri in old(objects) ==> rc == 0 && payload == Some(old(objects[uri].payload))
    {
      var found := Lookup(uri);
      if !found {
        return -1, None;
      }
      return 0, Some(objects[uri].payload);
    }

    /** Rewrites one entry and its backend's record, keeping the entry on that backend. */
    method Store(uri: string, r: ObjectRecord, b: BackendInfo)
      requires Valid() && uri in objects && r.backendId == objects[uri].backendId
      requires b.id == r.backendId && b.objectCount == backends[r.backendId].objectCount
      requires b.kind == backends[r.backendId].kind && b.flags == backends[r.backendId].flags
      modifies this`objects, this`backends
      ensures Valid()
      ensures objects == old(objects)[uri := r] && backends == old(backends)[r.backendId := b]
      ensures FlagsOf(backends) == old(FlagsOf(backends))
    {
      FlagsOfUpdate(backends, r.backendId, b);
      StoreKeeps(backends, objects, totalObjects, defaultId, ephemeralId, cacheId, uri, r, b);
      objects := objects[uri := r];
      backends := backends[r.backendId := b];
    }

    /**
     * backend_update_size: the object's size becomes newSize and the byte
     * counts move by the difference; an object of non-zero size without
     * variants receives the identity descriptor `seeded` (computed by the
     * index, which is not part of this model). The lookup records an access.
     */
    method UpdateSize(uri: string, newSize: u64, seeded: PayloadDescriptor) returns (rc: int)
      requires Valid()
      modifies this`objects, this`backends, this`totalBytes
      ensures Valid()
      ensures uri !in old(objects) ==>
        rc == -1 && objects == old(objects) && backends == old(backends) && totalBytes == old(totalBytes)
      ensures uri in old(objects) ==>
        var r := old(objects[uri]);
        var b := old(backends[r.backendId]);
        rc == 0
        && objects == old(objects)[uri := Resized(r.(accessCount := r.accessCount + 1), newSize, seeded)]
        && backends == old(backends)[r.backendId := b.(usedBytes := Shift64(b.usedBytes, r.size, newSize),
             indexDirty := b.indexDirty || newSize != r.size || Seeds(r, newSize))]
        && totalBytes == Shift64(old(totalBytes), r.size, newSize)
    {
      if uri !in objects {
        return -1;
      }
      var r := objects[uri];
      var b := backends[r.backendId];
      var r' := Resized(r.(accessCount := r.accessCount + 1), newSize, seeded);
      var b' := b.(usedBytes := Adjusted(b.usedBytes, r.size, newSize),
                   indexDirty := b.indexDirty || newSize != r.size || Seeds(r, newSize));
      Store(uri, r', b');
      totalBytes := Adjusted(totalBytes, r.size, newSize);
      rc := 0;
    }

    /**
     * Whether backend_migrate_object's checks, in their order, let uri move to
     * target: the object exists, the target is another backend, an ephemeral
     * object goes only to an EPHEMERAL_ONLY backend, the target exists, and
     * the source allows migrating out and the target migrating in.
     */
    predicate MayMigrate(uri: string, target: int)
      reads this
      requires Valid()
    {
      uri in objects
      && objects[uri].backendId != target
      && (AnyBits32(objects[uri].flags, INDEX_FLAG_EPHEMERAL) ==> GetBackend(target).Some? && EphemeralOnly(backends[target]))
      && GetBackend(target).Some?
      && backends[objects[uri].backendId].flags & FLAG_MIGRATION_SRC != 0
      && backends[target].flags & FLAG_MIGRATION_DST != 0
    }

    /**
     * backend_migrate_object: copy the object to the target backend and move
     * its entry and counts there. openOk says whether the destination file
     * could be created, copyOk whether the whole object was copied. The
     * source file is removed and the copy kept. A found object records an
     * access whatever the outcome, and a second one on success, where
     * global_index_update_backend looks it up again.
     */
    method Migrate(uri: string, target: int, openOk: bool, copyOk: bool) returns (rc: int)
      requires Valid()
      modifies this`objects, this`backends, this`files
      ensures Valid()
      ensures rc == 0 || rc == -1
      ensures rc == 0 <==> old(MayMigrate(uri, target)) && openOk && copyOk
      ensures !old(MayMigrate(uri, target)) || !openOk ==>
        objects == Looked(old(objects), uri) && backends == old(backends) && files == old(files)
      ensures old(MayMigrate(uri, target)) && openOk && !copyOk ==>
        objects == Looked(old(objects), uri) && backends == old(backends)
        && files == old(files) - {FsPath(old(backends[target].mountPath), uri)}
      ensures rc == 0 ==>
        var r := old(objects[uri]);
        var s := old(backends[r.backendId]);
        var t := old(backends[target]);
        var dstPath := FsPath(t.mountPath, uri);
        objects == old(objects)[uri := r.(accessCount := r.accessCount + 2, backendId := target, path := dstPath)]
        && s.objectCount >= 1
        && backends == old(backends)
             [r.backendId := s.(objectCount := s.objectCount - 1, usedBytes := Sub64(s.usedBytes, r.size),
                                migrationsOut := s.migrationsOut + 1, indexDirty := true)]
             [target := t.(objectCount := t.objectCount + 1, usedBytes := Add64(t.usedBytes, r.size),
                           migrationsIn := t.migrationsIn + 1, indexDirty := true)]
        && files == (old(files) - {r.path}) + {dstPath}
        && objects[uri].path in files
    {
      if !MayMigrate(uri, target) || !openOk {
        var _ := Lookup(uri);
        return -1;
      }
      var dstPath := FsPath(backends[target].mountPath, uri);
      if !copyOk {
        var _ := Lookup(uri);
        files := files - {dstPath};
        return -1;
      }
      MoveEntry(uri, target, dstPath);
      rc := 0;
    }

    /**
     * The successful end of a migration: the entry, counts and files move to
     * target. The entry has two more accesses: the migration's own lookup and
     * the one inside global_index_update_backend.
     */
    method MoveEntry(uri: string, target: nat, dstPath: string)
      requires Valid() && uri in objects && target < |backends| && objects[uri].backendId != target
      modifies this`objects, this`backends, this`files
      ensures Valid()
      ensures
        var r := old(objects[uri]);
        var s := old(backends[r.backendId]);
        var t := old(backends[target]);
        objects == old(objects)[uri := r.(accessCount := r.accessCount + 2, backendId := target, path := dstPath)]
        && s.objectCount >= 1
        && backends == old(backends)
             [r.backendId := s.(objectCount := s.objectCount - 1, usedBytes := Sub64(s.usedBytes, r.size),
                                migrationsOut := s.migrationsOut + 1, indexDirty := true)]
             [target := t.(objectCount := t.objectCount + 1, usedBytes := Add64(t.usedBytes, r.size),
                           migrationsIn := t.migrationsIn + 1, indexDirty := true)]
        && files == (old(files) - {r.path}) + {dstPath}
    {
      var r := objects[uri];
      var s, t := backends[r.backendId], backends[target];
      HoldsObject(backends, objects, uri);
      var r' := r.(accessCount := r.accessCount + 2, backendId := target, path := dstPath);
      var s' := s.(objectCount := s.objectCount - 1, usedBytes := Sub64(s.usedBytes, r.size),
                   migrationsOut := s.migrationsOut + 1, indexDirty := true);
      var t' := t.(objectCount := t.objectCount + 1, usedBytes := Add64(t.usedBytes, r.size),
                   migrationsIn := t.migrationsIn + 1, indexDirty := true);
      MoveEntryKeeps(backends, objects, totalObjects, defaultId, ephemeralId, cacheId, uri, r', s', t');
      backends := backends[r.backendId := s'][target := t'];
      objects := objects[uri := r'];
      files := (files - {r.path}) + {dstPath};
    }

    /** backend_set_enabled: only the ENABLED bit of the backend's flags changes. */
    method SetEnabled(id: int, enabled: bool) returns (rc: int)
      requires Valid()
      modifies this`backends
      ensures Valid()
      ensures GetBackend(id).None? ==> rc == -1 && backends == old(backends)
      ensures 0 <= id < |old(backends)| ==>
        rc == 0
        && backends == old(backends)[id := old(backends[id]).(flags := WithEnabled(old(backends[id].flags), enabled))]
        && Enabled(backends[id]) == enabled
    {
      var found := GetBackend(id);
      if found.None? {
        return -1;
      }
      var b := found.value;
      var b' := b.(flags := WithEnabled(b.flags, enabled));
      WithEnabledTogglesOnlyEnabled(b.flags, enabled, FLAG_EPHEMERAL_ONLY);
      UpdateKeeps(backends, objects, id, b');
      RolesKeep(backends, id, b', defaultId, ephemeralId, cacheId);
      backends := backends[id := b'];
      rc := 0;
    }
  }

  /** Rewriting an object's record on the same backend keeps every backend's set. */
  lemma ObjectsOnSame(m: map<string, ObjectRecord>, u: string, r: ObjectRecord)
    requires u in m && r.backendId == m[u].backendId
    ensures forall b: nat :: ObjectsOn(m[u := r], b) == ObjectsOn(m, b)
    ensures forall v | v in m[u := r] :: m[u := r][v].backendId == m[v].backendId
  {
  }

  // ---------------------------------------------------------------------
  // The file effects as the source writes them

  /**
   * backend_migrate_object as written: after the entry's path is replaced by
   * the destination path, "the source file" is unlinked through the entry,
   * which removes the copy just made.
   */
  function MigratedFilesAsWritten(files: set<string>, srcPath: string, dstPath: string): set<string>
  {
    var withCopy := files + {dstPath};
    var newEntryPath := dstPath;
    withCopy - {newEntryPath}
  }

  /**
   * With distinct paths the object's recorded path no longer exists after
   * the migration, while the source file it was copied from remains.
   */
  lemma MigrationLosesCopy(files: set<string>, srcPath: string, dstPath: string)
    requires srcPath in files && srcPath != dstPath
    ensures dstPath !in MigratedFilesAsWritten(files, srcPath, dstPath)
    ensures srcPath in MigratedFilesAsWritten(files, srcPath, dstPath)
  {
  }

  /**
   * backend_create_object as written, for a URI that is already indexed:
   * the file at the new path is opened with O_TRUNC, and when the global
   * index then refuses the duplicate that path is unlinked.
   */
  function CreatedFilesAsWritten(files: set<string>, indexed: bool, path: string, openOk: bool): set<string>
  {
    if !openOk then files else if indexed then (files + {path}) - {path} else files + {path}
  }

  /**
   * Creating an existing object again on its own backend deletes that
   * object's file while its entry stays in the index.
   */
  lemma DuplicateCreateDeletesFile(files: set<string>, objects: map<string, ObjectRecord>, uri: string, mountPath: string)
    requires uri in objects && objects[uri].path == FsPath(mountPath, uri) && objects[uri].path in files
    ensures objects[uri].path !in CreatedFilesAsWritten(files, uri in objects, FsPath(mountPath, uri), true)
  {
  }
}
