/**
 * The client side of out-of-order replies: objm_client_recv_response_for
 * keeps responses that arrive for other requests in a table indexed by
 * request id, so that a later call for that id finds them without reading.
 */
module ProtocolClient {
  import opened Bytes
  import opened Wrappers
  import opened Protocol

  /** The table after an unclaimed response: kept at its id if the id is below the capacity, else dropped. */
  function Stash(pending: seq<Option<ResponseHeader>>, r: ResponseHeader): (p: seq<Option<ResponseHeader>>)
    ensures |p| == |pending|
  {
    if r.requestId < |pending| then pending[r.requestId := Some(r)] else pending
  }

  /** The table after a run of unclaimed responses, in arrival order. */
  function StashAll(pending: seq<Option<ResponseHeader>>, rs: seq<ResponseHeader>): (p: seq<Option<ResponseHeader>>)
    ensures |p| == |pending|
  {
    if rs == [] then pending else Stash(StashAll(pending, rs[..|rs| - 1]), rs[|rs| - 1])
  }

  /** The last response in rs for request id `id`. */
  function LastFor(rs: seq<ResponseHeader>, id: nat): Option<ResponseHeader>
  {
    if rs == [] then None
    else if rs[|rs| - 1].requestId == id then Some(rs[|rs| - 1])
    else LastFor(rs[..|rs| - 1], id)
  }

  /**
   * Each slot of the table ends up holding the last response that arrived
   * for its id, or keeps what it held; an earlier response for the same id
   * is overwritten, and responses whose id is at or past the capacity leave
   * the table alone.
   */
  lemma {:induction false} StashAllSlot(pending: seq<Option<ResponseHeader>>, rs: seq<ResponseHeader>, i: nat)
    requires i < |pending|
    ensures StashAll(pending, rs)[i] == (if LastFor(rs, i).Some? then LastFor(rs, i) else pending[i])
  {
    if rs != [] {
      StashAllSlot(pending, rs[..|rs| - 1], i);
    }
  }

  /** Responses for ids at or past the capacity are all dropped. */
  lemma {:induction false} StashAllOutOfRange(pending: seq<Option<ResponseHeader>>, rs: seq<ResponseHeader>)
    requires forall k :: 0 <= k < |rs| ==> rs[k].requestId >= |pending|
    ensures StashAll(pending, rs) == pending
  {
    if rs != [] {
      StashAllOutOfRange(pending, rs[..|rs| - 1]);
    }
  }

  lemma StashAllSnoc(pending: seq<Option<ResponseHeader>>, rs: seq<ResponseHeader>, r: ResponseHeader)
    ensures StashAll(pending, rs + [r]) == Stash(StashAll(pending, rs), r)
  {
    assert (rs + [r])[..|rs|] == rs;
  }

  class Connection {
    /** The negotiated protocol version. */
    var version: byte
    /** pending_responses, whose length is pending_capacity. */
    var pending: array<Option<ResponseHeader>>

    /** A connection after the handshake, with an empty table of the given capacity (PendingCapacity of the parameters). */
    constructor(version: byte, capacity: nat)
      ensures this.version == version
      ensures fresh(pending) && pending.Length == capacity
      ensures forall i :: 0 <= i < capacity ==> pending[i] == None
    {
      this.version := version;
      pending := new Option<ResponseHeader>[capacity](_ => None);
    }

    /**
     * objm_client_recv_response_for.  `incoming` stands for the responses
     * the socket delivers, in order; running out of them stands for a failed
     * receive.  `consumed` is how many were read.
     */
    method RecvResponseFor(requestId: u32, incoming: seq<ResponseHeader>) returns (rc: int, resp: Option<ResponseHeader>, consumed: nat)
      modifies pending
      ensures version != VERSION_2 ==>
        rc == -1 && resp == None && consumed == 0 && pending[..] == old(pending[..])
      ensures version == VERSION_2 && requestId < pending.Length && old(pending[requestId]).Some? ==>
        rc == 0 && resp == old(pending[requestId]) && consumed == 0 &&
        pending[..] == old(pending[..])[requestId := None]
      ensures version == VERSION_2 && !(requestId < pending.Length && old(pending[requestId]).Some?) ==>
        consumed <= |incoming| &&
        (rc == 0 || rc == -1) &&
        (rc == 0 ==>
           consumed > 0 && resp == Some(incoming[consumed - 1]) && incoming[consumed - 1].requestId == requestId &&
           (forall k :: 0 <= k < consumed - 1 ==> incoming[k].requestId != requestId) &&
           pending[..] == StashAll(old(pending[..]), incoming[..consumed - 1])) &&
        (rc == -1 ==>
           resp == None && consumed == |incoming| &&
           (forall k :: 0 <= k < |incoming| ==> incoming[k].requestId != requestId) &&
           pending[..] == StashAll(old(pending[..]), incoming))
    {
      if version != VERSION_2 {
        return -1, None, 0;
      }
      if requestId < pending.Length && pending[requestId].Some? {
        resp := pending[requestId];
        pending[requestId] := None;
        return 0, resp, 0;
      }
      var found, at := AwaitResponse(requestId, incoming);
      if found {
        return 0, Some(incoming[at]), at + 1;
      }
      assert incoming[..at] == incoming;
      return -1, None, at;
    }

    /**
     * The receive loop of objm_client_recv_response_for: responses for other
     * ids are stashed until one for `requestId` arrives (at index `at`) or
     * the input runs out.
     */
    method AwaitResponse(requestId: u32, incoming: seq<ResponseHeader>) returns (found: bool, at: nat)
      modifies pending
      ensures at <= |incoming|
      ensures forall k :: 0 <= k < at ==> incoming[k].requestId != requestId
      ensures pending[..] == StashAll(old(pending[..]), incoming[..at])
      ensures found ==> at < |incoming| && incoming[at].requestId == requestId
      ensures !found ==> at == |incoming|
    {
      at := 0;
      while at < |incoming|
        invariant at <= |incoming|
        invariant forall k :: 0 <= k < at ==> incoming[k].requestId != requestId
        invariant pending[..] == StashAll(old(pending[..]), incoming[..at])
      {
        var r := incoming[at];
        if r.requestId == requestId {
          return true, at;
        }
        ghost var before := pending[..];
        assert StashAll(old(pending[..]), incoming[..at + 1]) == Stash(before, r) by {
          StashAllSnoc(old(pending[..]), incoming[..at], r);
          assert incoming[..at + 1] == incoming[..at] + [r];
        }
        if r.requestId < pending.Length {
          pending[r.requestId] := Some(r);
          assert pending[..] == before[r.requestId := Some(r)];
        }
        at := at + 1;
      }
      return false, at;
    }
  }
}
