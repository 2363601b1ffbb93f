/**
 * The objmapper server's request handling over a backend manager: routing
 * a request by its URI (delete prefix, list paths, otherwise GET when the
 * object exists and PUT when it does not), the response each handler
 * sends, the server's request counters, and the two-backend set-up the
 * server starts with.
 *
 * Sending a response is abstracted to whether it succeeded; the descriptor
 * passed with a GET or PUT is a parameter.
 */
module Dispatch {
  import opened Bytes
  import opened Wrappers
  import P = Protocol
  import B = Backend

  const DELETE_PREFIX: string := "/delete/"
  const LIST_URI: string := "/list"
  const BACKEND_PREFIX: string := "/backend/"

  /** The request URI is copied into a buffer of OBJM_MAX_URI_LEN characters, NUL included. */
  const URI_COPY_LIMIT: nat := P.MAX_URI_LEN - 1

  const MSG_NOT_FOUND: string := "Object not found"
  const MSG_GET_MODE: string := "Only FD pass mode supported for GET"
  const MSG_PUT_MODE: string := "Only FD pass mode supported for PUT"
  const MSG_CREATE_FAILED: string := "Failed to create object"
  const MSG_LIST_DISABLED: string := "LIST is disabled - use management API"

  /** A received request; the URI is the C string the protocol layer produced. */
  datatype Request = Request(id: u32, flags: byte, mode: byte, uri: string)

  /** Where client_thread sends a request. */
  datatype Route =
    | DeleteRoute(target: string)
    | ListRoute
    | ObjectRoute

  predicate StartsWith(s: string, prefix: string)
  {
    |prefix| <= |s| && s[..|prefix|] == prefix
  }

  /** strncpy into a buffer of n + 1 characters followed by a terminating NUL. */
  function Truncated(s: string, n: nat): (r: string)
    ensures |r| <= n && |r| <= |s| && r == s[..|r|]
    ensures |s| <= n ==> r == s
  {
    if |s| <= n then s else s[..n]
  }

  /** The routing of client_thread, by prefix comparison. */
  function RouteOf(uri: string): Route
  {
    if StartsWith(uri, DELETE_PREFIX) then DeleteRoute(Truncated(uri[7..], URI_COPY_LIMIT))
    else if uri == LIST_URI || StartsWith(uri, BACKEND_PREFIX) then ListRoute
    else ObjectRoute
  }

  /**
   * The three routes are told apart by the URI alone, and a delete of a URI
   * no longer than the protocol allows targets the URI with "/delete"
   * dropped, which still starts with '/'.
   */
  lemma RouteCases(uri: string)
    ensures RouteOf(uri).DeleteRoute? <==> StartsWith(uri, DELETE_PREFIX)
    ensures RouteOf(uri).ListRoute? <==> !StartsWith(uri, DELETE_PREFIX) && (uri == LIST_URI || StartsWith(uri, BACKEND_PREFIX))
    ensures RouteOf(uri).DeleteRoute? && |uri| <= P.MAX_URI_LEN ==>
      "/delete" + RouteOf(uri).target == uri && RouteOf(uri).target[0] == '/'
  {
    if StartsWith(uri, DELETE_PREFIX) && |uri| <= P.MAX_URI_LEN {
      assert uri == uri[..7] + uri[7..];
      assert uri[..7] == "/delete" by {
        assert uri[..7] == uri[..|DELETE_PREFIX|][..7];
      }
      assert uri[7] == uri[..|DELETE_PREFIX|][7];
    }
  }

  /** cmd_delete in the client: "/delete" and the URI, in a buffer of OBJM_MAX_URI_LEN characters. */
  function ClientDeleteUri(uri: string): string
  {
    Truncated("/delete" + uri, URI_COPY_LIMIT)
  }

  /** The client's delete request reaches the server as a delete of the same URI. */
  lemma ClientDeleteRoundTrip(uri: string)
    requires |uri| >= 1 && uri[0] == '/' && |uri| + 7 <= URI_COPY_LIMIT
    ensures RouteOf(ClientDeleteUri(uri)) == DeleteRoute(uri)
  {
    var sent := "/delete" + uri;
    assert ClientDeleteUri(uri) == sent;
    assert sent[..|DELETE_PREFIX|] == DELETE_PREFIX;
    assert sent[7..] == uri;
  }

  /** A URI that does not start with '/' is deleted by nobody: the request is a GET or PUT of "/delete" + uri. */
  lemma ClientDeleteWithoutSlash(uri: string)
    requires (|uri| == 0 || uri[0] != '/') && |uri| + 7 <= URI_COPY_LIMIT
    ensures RouteOf(ClientDeleteUri(uri)) == ObjectRoute
  {
    var sent := "/delete" + uri;
    assert ClientDeleteUri(uri) == sent;
    assert sent[1] == 'd';
  }

  /** A response as a handler builds it; the message travels as one metadata entry. */
  datatype Reply = Reply(id: u32, status: byte, fd: int, contentLen: u64, message: string)

  /** objm_server_send_error: no descriptor and no content. */
  function ErrorReply(id: u32, status: byte, message: string): Reply
  {
    Reply(id, status, -1, 0, message)
  }

  /**
   * The metadata length the header carries: 0 when there is no message or
   * objm_metadata_add refuses one over 65535 bytes, else a 3-byte TLV header
   * and the message, in a 16-bit field.
   */
  function MetadataLen(r: Reply): u16
  {
    if r.message == [] || |r.message| > 0xFFFF then 0 else P.Low16(3 + |r.message|)
  }

  /** The response header the client parses from the bytes of r's header. */
  function ClientView(r: Reply): Option<P.ResponseHeader>
  {
    P.ParseV2Response(P.V2ResponseBytes(r.id, r.status, r.contentLen, MetadataLen(r)))
  }

  /** An OK reply has a descriptor exactly when its content length is 0. */
  predicate Agrees(r: Reply)
  {
    r.status == P.STATUS_OK ==> (r.fd >= 0 <==> r.contentLen == 0)
  }

  /** For such a reply the client waits for a descriptor exactly when the server sends one. */
  lemma AgreesOnTheWire(r: Reply)
    requires Agrees(r)
    ensures ClientView(r).Some?
    ensures P.ClientExpectsFd(ClientView(r).value) == P.ServerSendsFd(r.status, r.fd)
  {
    P.FdExpectationAgrees(r.id, r.status, r.contentLen, MetadataLen(r), r.fd);
  }

  /** Whether a PUT asks for an ephemeral object: the PRIORITY request flag. */
  predicate Ephemeral(flags: byte)
  {
    (flags as bv8) & (P.REQ_PRIORITY as bv8) != 0
  }

  /**
   * handle_get's reply for an indexed object: in FD-pass mode OK with the
   * descriptor the lookup handed out (-1 when the file could not be opened)
   * and content length 0; in any other mode UNSUPPORTED_OP. Sender and
   * receiver agree unless an FD-pass reply carries no descriptor.
   */
  function GetReply(req: Request, fd: int): (r: Reply)
    ensures r.id == req.id
    ensures Agrees(r) <==> req.mode != P.MODE_FDPASS || fd >= 0
  {
    if req.mode == P.MODE_FDPASS then Reply(req.id, P.STATUS_OK, fd, 0, "")
    else ErrorReply(req.id, P.STATUS_UNSUPPORTED_OP, MSG_GET_MODE)
  }

  /**
   * As written, a GET whose lookup found the object but could not open its
   * file replies OK with no descriptor and content length 0: the client,
   * reading that header, waits for a descriptor the server never sends.
   */
  lemma FailedOpenStallsClient(req: Request, fd: int)
    requires req.mode == P.MODE_FDPASS && fd < 0
    ensures GetReply(req, fd) == Reply(req.id, P.STATUS_OK, fd, 0, "")
    ensures ClientView(GetReply(req, fd)).Some?
    ensures P.ClientExpectsFd(ClientView(GetReply(req, fd)).value) && !P.ServerSendsFd(P.STATUS_OK, fd)
  {
    P.FdExpectationAgrees(req.id, P.STATUS_OK, 0, 0, fd);
  }

  const MSG_OPEN_FAILED: string := "Failed to open object"

  /**
   * The GET reply with the open failure reported: STORAGE_ERROR instead of
   * an OK without a descriptor; otherwise the reply as written.
   */
  function CheckedGetReply(req: Request, fd: int): (r: Reply)
    ensures r.id == req.id && Agrees(r)
    ensures fd >= 0 || req.mode != P.MODE_FDPASS ==> r == GetReply(req, fd)
    ensures r.status == P.STATUS_OK ==> P.ServerSendsFd(r.status, r.fd)
  {
    if req.mode == P.MODE_FDPASS && fd < 0 then ErrorReply(req.id, P.STATUS_STORAGE_ERROR, MSG_OPEN_FAILED)
    else GetReply(req, fd)
  }

  /**
   * handle_put's reply: STORAGE_ERROR when the object could not be created;
   * else in FD-pass mode OK with the new file's descriptor and content
   * length 0, in any other mode UNSUPPORTED_OP.
   */
  function PutReply(req: Request, created: bool, fd: nat): (r: Reply)
    ensures r.id == req.id && Agrees(r)
    ensures r.status == P.STATUS_OK <==> created && req.mode == P.MODE_FDPASS
  {
    if !created then ErrorReply(req.id, P.STATUS_STORAGE_ERROR, MSG_CREATE_FAILED)
    else if req.mode == P.MODE_FDPASS then Reply(req.id, P.STATUS_OK, fd, 0, "")
    else ErrorReply(req.id, P.STATUS_UNSUPPORTED_OP, MSG_PUT_MODE)
  }

  /** handle_delete's reply: OK with no descriptor and content length 1, or NOT_FOUND. */
  function DeleteReply(req: Request, found: bool): (r: Reply)
    ensures r.id == req.id && Agrees(r)
    ensures r.status == P.STATUS_OK <==> found
    ensures ClientView(r).Some? && !P.ClientExpectsFd(ClientView(r).value)
  {
    var r := if found then Reply(req.id, P.STATUS_OK, -1, 1, "") else ErrorReply(req.id, P.STATUS_NOT_FOUND, MSG_NOT_FOUND);
    AgreesOnTheWire(r);
    r
  }

  /** The start of handle_put: an indexed object is looked up, then deleted. */
  function Cleared(s: B.ManagerState, uri: string): B.ManagerState
  {
    B.AfterDelete(B.AfterGet(s, uri), uri)
  }

  /**
   * The state handle_put leaves: the old object under the URI, if any, is
   * cleared, then a new one is created on the automatically selected
   * backend (ephemeral when asked), with request flags 0.
   */
  function PutState(s: B.ManagerState, uri: string, ephemeral: bool, openOk: bool): B.ManagerState
  {
    B.AfterCreate(Cleared(s, uri), uri, -1, ephemeral, 0, openOk)
  }

  /**
   * A PUT replaces whatever was under the URI: afterwards the URI is
   * indexed exactly when the selected backend admits the object and the
   * file opens, then with a new, empty entry at that backend's mount path,
   * and every other object is as before. The invariant is kept.
   */
  lemma PutOutcome(s: B.ManagerState, uri: string, ephemeral: bool, openOk: bool)
    requires B.ConsistentState(s)
    ensures var t := PutState(s, uri, ephemeral, openOk);
      var id := B.TargetIn(s, -1, ephemeral);
      B.ConsistentState(t)
      && (uri in t.objects <==> B.AdmitsIn(B.FlagsOf(s.backends), id, ephemeral) && openOk)
      && (uri in t.objects ==> t.objects[uri] == B.NewRecord(id, B.FsPath(s.backends[id].mountPath, uri), ephemeral, 0))
      && (forall v | v in s.objects && v != uri :: v in t.objects && t.objects[v] == s.objects[v])
      && t.objects.Keys <= s.objects.Keys + {uri}
  {
    var g := B.AfterGet(s, uri);
    B.GetKeeps(s, uri);
    var d := B.AfterDelete(g, uri);
    B.DeleteKeepsState(g, uri);
    B.LayoutFlags(d.backends, s.backends);
    B.CreateKeepsState(d, uri, -1, ephemeral, 0, openOk);
  }

  /**
   * The existence probe and handle_get each look the object up: four
   * accesses and two reads on its backend, nothing else changes.
   */
  lemma ProbeThenGet(s: B.ManagerState, uri: string)
    requires B.ConsistentState(s) && uri in s.objects
    ensures var t := B.AfterGet(B.AfterGet(s, uri), uri);
      var r := s.objects[uri];
      var b := s.backends[r.backendId];
      t == s.(objects := s.objects[uri := r.(accessCount := r.accessCount + 4)],
              backends := s.backends[r.backendId := b.(readCount := b.readCount + 2)])
  {
    var r := s.objects[uri];
    var b := s.backends[r.backendId];
    assert B.AfterGet(s, uri) == s.(objects := s.objects[uri := r.(accessCount := r.accessCount + 2)],
                                   backends := s.backends[r.backendId := b.(readCount := b.readCount + 1)]);
  }

  /** The server: its backend manager and its request counters. */
  class Server {
    const manager: B.Manager
    var requestsTotal: nat
    var gets: nat
    var puts: nat
    var deletes: nat
    var errors: nat

    ghost predicate Valid()
      reads this, manager
    {
      manager.Valid()
    }

    constructor (m: B.Manager)
      requires m.Valid()
      ensures Valid() && manager == m
      ensures requestsTotal == 0 && gets == 0 && puts == 0 && deletes == 0 && errors == 0
    {
      manager := m;
      requestsTotal, gets, puts, deletes, errors := 0, 0, 0, 0, 0;
    }

    /**
     * handle_get: NOT_FOUND for a missing object, otherwise GetReply with
     * the descriptor fd the lookup handed out. ok is the handler's success;
     * a GET is counted only when its OK reply was sent.
     */
    method HandleGet(req: Request, fd: int, sent: bool) returns (ok: bool, reply: Reply)
      requires Valid()
      modifies this`gets, manager`objects, manager`backends
      ensures Valid()
      ensures manager.State() == B.AfterGet(old(manager.State()), req.uri)
      ensures reply == if req.uri in old(manager.objects) then GetReply(req, fd)
                       else ErrorReply(req.id, P.STATUS_NOT_FOUND, MSG_NOT_FOUND)
      ensures ok == (reply.status == P.STATUS_OK && sent)
      ensures gets == old(gets) + (if ok then 1 else 0)
    {
      var rc, _ := manager.GetObject(req.uri);
      reply := if rc < 0 then ErrorReply(req.id, P.STATUS_NOT_FOUND, MSG_NOT_FOUND) else GetReply(req, fd);
      ok := reply.status == P.STATUS_OK && sent;
      if ok {
        gets := gets + 1;
      }
    }

    /**
     * handle_put: an existing object is deleted first; a new empty object is
     * created on the automatically selected backend (ephemeral if the request
     * has PRIORITY); the reply is PutReply with the new file's descriptor.
     * The object stays created when the mode is not FDPASS.
     */
    method HandlePut(req: Request, openOk: bool, fd: nat, sent: bool) returns (ok: bool, reply: Reply)
      requires Valid()
      modifies this`puts, manager
      ensures Valid()
      ensures manager.State() == PutState(old(manager.State()), req.uri, Ephemeral(req.flags), openOk)
      ensures reply == PutReply(req, req.uri in manager.objects, fd)
      ensures ok == (reply.status == P.STATUS_OK && sent)
      ensures puts == old(puts) + (if ok then 1 else 0)
    {
      DropExisting(req.uri);
      ok, reply := CreateAndReply(req, openOk, fd, sent);
    }

    /** The rest of handle_put, once the URI is not indexed. */
    method CreateAndReply(req: Request, openOk: bool, fd: nat, sent: bool) returns (ok: bool, reply: Reply)
      requires Valid() && req.uri !in manager.objects
      modifies this`puts, manager
      ensures Valid()
      ensures manager.State() == B.AfterCreate(old(manager.State()), req.uri, -1, Ephemeral(req.flags), 0, openOk)
      ensures reply == PutReply(req, req.uri in manager.objects, fd)
      ensures ok == (reply.status == P.STATUS_OK && sent)
      ensures puts == old(puts) + (if ok then 1 else 0)
    {
      var rc := manager.CreateObject(req.uri, -1, Ephemeral(req.flags), 0, openOk);
      reply := PutReply(req, rc == 0, fd);
      ok := reply.status == P.STATUS_OK && sent;
      if ok {
        puts := puts + 1;
      }
    }

    /** The start of handle_put: an object found by backend_get_object is deleted. */
    method DropExisting(uri: string)
      requires Valid()
      modifies manager
      ensures Valid()
      ensures manager.State() == Cleared(old(manager.State()), uri)
      ensures uri !in manager.objects
    {
      var rc, _ := manager.GetObject(uri);
      if rc == 0 {
        var _ := manager.DeleteObject(uri);
      }
    }

    /** handle_delete: DeleteReply, after backend_delete_object. */
    method HandleDelete(req: Request, sent: bool) returns (ok: bool, reply: Reply)
      requires Valid()
      modifies this`deletes, manager
      ensures Valid()
      ensures manager.State() == B.AfterDelete(old(manager.State()), req.uri)
      ensures req.uri !in manager.objects
      ensures reply == DeleteReply(req, req.uri in old(manager.objects))
      ensures ok == (reply.status == P.STATUS_OK && sent)
      ensures deletes == old(deletes) + (if ok then 1 else 0)
    {
      var rc := manager.DeleteObject(req.uri);
      reply := DeleteReply(req, rc == 0);
      ok := reply.status == P.STATUS_OK && sent;
      if ok {
        deletes := deletes + 1;
      }
    }

    /** handle_list: always UNSUPPORTED_OP. */
    method HandleList(req: Request) returns (ok: bool, reply: Reply)
      ensures !ok && reply == ErrorReply(req.id, P.STATUS_UNSUPPORTED_OP, MSG_LIST_DISABLED)
      ensures Agrees(reply)
    {
      reply := ErrorReply(req.id, P.STATUS_UNSUPPORTED_OP, MSG_LIST_DISABLED);
      ok := false;
    }

    /**
     * The GET-or-PUT route: the existence check is itself a
     * backend_get_object, which succeeds exactly when the URI is indexed;
     * the two outcomes are GetRoute and PutRoute. getFd is the descriptor a
     * GET's lookup hands out, putFd the one a PUT's creation opens.
     */
    method HandleObject(req: Request, openOk: bool, getFd: int, putFd: nat, sent: bool)
      returns (ok: bool, reply: Reply)
      requires Valid()
      modifies this`gets, this`puts, manager
      ensures Valid()
      ensures ok == (reply.status == P.STATUS_OK && sent)
      ensures req.uri in old(manager.objects) ==>
        manager.State() == B.AfterGet(B.AfterGet(old(manager.State()), req.uri), req.uri)
        && reply == GetReply(req, getFd)
        && gets == old(gets) + (if ok then 1 else 0) && puts == old(puts)
      ensures req.uri !in old(manager.objects) ==>
        manager.State() == PutState(old(manager.State()), req.uri, Ephemeral(req.flags), openOk)
        && reply == PutReply(req, req.uri in manager.objects, putFd)
        && puts == old(puts) + (if ok then 1 else 0) && gets == old(gets)
    {
      if req.uri in manager.objects {
        ok, reply := GetRoute(req, getFd, sent);
      } else {
        ok, reply := PutRoute(req, openOk, putFd, sent);
      }
    }

    /** The existence check finds the object: handle_get follows. */
    method GetRoute(req: Request, fd: int, sent: bool) returns (ok: bool, reply: Reply)
      requires Valid() && req.uri in manager.objects
      modifies this`gets, manager`objects, manager`backends
      ensures Valid()
      ensures manager.State() == B.AfterGet(B.AfterGet(old(manager.State()), req.uri), req.uri)
      ensures reply == GetReply(req, fd)
      ensures ok == (reply.status == P.STATUS_OK && sent)
      ensures gets == old(gets) + (if ok then 1 else 0)
    {
      var rc, _ := manager.GetObject(req.uri);
      ok, reply := HandleGet(req, fd, sent);
    }

    /** The existence check fails, touching nothing: handle_put follows. */
    method PutRoute(req: Request, openOk: bool, fd: nat, sent: bool) returns (ok: bool, reply: Reply)
      requires Valid() && req.uri !in manager.objects
      modifies this`puts, manager
      ensures Valid()
      ensures manager.State() == PutState(old(manager.State()), req.uri, Ephemeral(req.flags), openOk)
      ensures reply == PutReply(req, req.uri in manager.objects, fd)
      ensures ok == (reply.status == P.STATUS_OK && sent)
      ensures puts == old(puts) + (if ok then 1 else 0)
    {
      var rc, _ := manager.GetObject(req.uri);
      ok, reply := HandlePut(req, openOk, fd, sent);
    }

    /**
     * One turn of client_thread's request loop: count the request, route it,
     * rewrite a delete's URI, run the handler and count a failure as an
     * error. The reply disagrees with the wire rule only for a GET of an
     * indexed object in FD-pass mode whose file could not be opened.
     */
    method Serve(req: Request, openOk: bool, getFd: int, putFd: nat, sent: bool) returns (reply: Reply)
      requires Valid()
      modifies this, manager
      ensures Valid()
      ensures reply.id == req.id
      ensures !Agrees(reply) <==>
        RouteOf(req.uri).ObjectRoute? && req.uri in old(manager.objects) && req.mode == P.MODE_FDPASS && getFd < 0
      ensures var ok := reply.status == P.STATUS_OK && sent;
        var route := RouteOf(req.uri);
        requestsTotal == old(requestsTotal) + 1
        && errors == old(errors) + (if ok then 0 else 1)
        && deletes == old(deletes) + (if ok && route.DeleteRoute? then 1 else 0)
        && gets == old(gets) + (if ok && route.ObjectRoute? && req.uri in old(manager.objects) then 1 else 0)
        && puts == old(puts) + (if ok && route.ObjectRoute? && req.uri !in old(manager.objects) then 1 else 0)
      ensures RouteOf(req.uri).DeleteRoute? ==>
        var t := RouteOf(req.uri).target;
        manager.State() == B.AfterDelete(old(manager.State()), t)
        && reply == DeleteReply(req, t in old(manager.objects))
      ensures RouteOf(req.uri).ListRoute? ==>
        manager.State() == old(manager.State())
        && reply == ErrorReply(req.id, P.STATUS_UNSUPPORTED_OP, MSG_LIST_DISABLED)
      ensures RouteOf(req.uri).ObjectRoute? && req.uri in old(manager.objects) ==>
        manager.State() == B.AfterGet(B.AfterGet(old(manager.State()), req.uri), req.uri)
        && reply == GetReply(req, getFd)
      ensures RouteOf(req.uri).ObjectRoute? && req.uri !in old(manager.objects) ==>
        manager.State() == PutState(old(manager.State()), req.uri, Ephemeral(req.flags), openOk)
        && reply == PutReply(req, req.uri in manager.objects, putFd)
    {
      requestsTotal := requestsTotal + 1;
      var ok: bool;
      match RouteOf(req.uri) {
        case DeleteRoute(t) =>
          ok, reply := HandleDelete(req.(uri := t), sent);
        case ListRoute =>
          ok, reply := HandleList(req);
        case ObjectRoute =>
          ok, reply := HandleObject(req, openOk, getFd, putFd, sent);
      }
      if !ok {
        errors := errors + 1;
      }
    }
  }

  /** MEMORY_CACHE_SIZE and PERSISTENT_SIZE: 4 GiB and 100 GiB. */
  const MEMORY_CACHE_SIZE: u64 := 4 * 1024 * 1024 * 1024
  const PERSISTENT_SIZE: u64 := 100 * 1024 * 1024 * 1024

  const MEMORY_FLAGS: bv32 := B.FLAG_EPHEMERAL_ONLY | B.FLAG_ENABLED | B.FLAG_MIGRATION_SRC | B.FLAG_MIGRATION_DST
  const PERSISTENT_FLAGS: bv32 := B.FLAG_PERSISTENT | B.FLAG_ENABLED | B.FLAG_MIGRATION_SRC | B.FLAG_MIGRATION_DST

  /**
   * init_backends: a memory backend (id 0) that is the ephemeral and cache
   * backend, and an SSD backend (id 1) that is the default. memoryIndexOk and
   * persistentIndexOk say whether each backend's index could be created.
   */
  method InitBackends(existing: set<string>, memoryPath: string, persistentPath: string,
                      memoryIndexOk: bool, persistentIndexOk: bool)
    returns (rc: int, m: B.Manager)
    ensures fresh(m) && m.Valid()
    ensures rc == 0 <==> memoryIndexOk && persistentIndexOk
    ensures rc == 0 ==>
      |m.backends| == 2 && m.objects == map[]
      && m.backends[0].kind == B.TYPE_MEMORY && m.backends[0].mountPath == memoryPath
      && m.backends[1].kind == B.TYPE_SSD && m.backends[1].mountPath == persistentPath
      && m.ephemeralId == 0 && m.cacheId == 0 && m.defaultId == 1
      && m.Admits(0, true) && m.Admits(1, false) && !B.EphemeralOnly(m.backends[1])
  {
    m := new B.Manager(existing);
    var memoryId := m.Register(B.TYPE_MEMORY, memoryPath, "Memory Cache", MEMORY_CACHE_SIZE, MEMORY_FLAGS, memoryIndexOk);
    if memoryId < 0 {
      return -1, m;
    }
    var persistentId := m.Register(B.TYPE_SSD, persistentPath, "Persistent SSD", PERSISTENT_SIZE, PERSISTENT_FLAGS,
                                   persistentIndexOk);
    if persistentId < 0 {
      return -1, m;
    }
    assert m.backends[0].flags & B.FLAG_EPHEMERAL_ONLY != 0;
    assert m.backends[1].flags & B.FLAG_EPHEMERAL_ONLY == 0;
    var _ := m.SetDefault(persistentId);
    var _ := m.SetEphemeral(memoryId);
    var _ := m.SetCache(memoryId);
    rc := 0;
  }
}
