/**
 * The byte-level part of the objm wire protocol: the V1 and V2 request and
 * response headers, the V2 HELLO negotiation, the CLOSE exchange, and the
 * status, mode and capability name tables.  Sockets are replaced by the byte
 * sequences they carry.
 */
module Protocol {
  import opened Bytes
  import opened Wrappers
  import opened CStrings

  /** "OBJM". */
  const MAGIC: seq<byte> := [0x4F, 0x42, 0x4A, 0x4D]
  const VERSION_1: byte := 0x01
  const VERSION_2: byte := 0x02

  // Capability flags.
  const CAP_OOO_REPLIES: u16 := 0x0001
  const CAP_PIPELINING: u16 := 0x0002
  const CAP_COMPRESSION: u16 := 0x0004
  const CAP_MULTIPLEXING: u16 := 0x0008
  const CAP_SEGMENTED_DELIVERY: u16 := 0x0010

  // Request flags.
  const REQ_ORDERED: byte := 0x01
  const REQ_PRIORITY: byte := 0x02

  // Message types.
  const MSG_REQUEST: byte := 0x01
  const MSG_RESPONSE: byte := 0x02
  const MSG_CLOSE: byte := 0x03
  const MSG_CLOSE_ACK: byte := 0x04
  const MSG_SEGMENTED_RESPONSE: byte := 0x05

  // Status codes.
  const STATUS_OK: byte := 0x00
  const STATUS_NOT_FOUND: byte := 0x01
  const STATUS_INVALID_REQUEST: byte := 0x02
  const STATUS_INVALID_MODE: byte := 0x03
  const STATUS_URI_TOO_LONG: byte := 0x04
  const STATUS_UNSUPPORTED_OP: byte := 0x05
  const STATUS_INTERNAL_ERROR: byte := 0x10
  const STATUS_STORAGE_ERROR: byte := 0x11
  const STATUS_OUT_OF_MEMORY: byte := 0x12
  const STATUS_TIMEOUT: byte := 0x13
  const STATUS_UNAVAILABLE: byte := 0x14
  const STATUS_PROTOCOL_ERROR: byte := 0x20
  const STATUS_VERSION_MISMATCH: byte := 0x21
  const STATUS_CAPABILITY_ERROR: byte := 0x22

  // Operation modes, sent as the characters '1' to '4'.
  const MODE_FDPASS: byte := 0x31
  const MODE_COPY: byte := 0x32
  const MODE_SPLICE: byte := 0x33
  const MODE_SEGMENTED: byte := 0x34

  const MAX_URI_LEN: nat := 4096

  const V1_REQUEST_HEADER_LEN: nat := 3
  const V2_REQUEST_HEADER_LEN: nat := 9
  const V1_RESPONSE_HEADER_LEN: nat := 11
  const V2_RESPONSE_HEADER_LEN: nat := 16

  /** An unsigned value truncated to 16 bits, as htons does with a size_t. */
  function Low16(n: nat): u16
  {
    n % 0x1_0000
  }

  function Min16(a: u16, b: u16): u16
  {
    if a < b then a else b
  }

  /** The big-endian 16-bit field at h[at..at+2]. */
  function Be16(h: seq<byte>, at: nat): u16
    requires at + 2 <= |h|
  {
    Pow256Widths();
    FromBE(h[at..at + 2])
  }

  function Be32(h: seq<byte>, at: nat): u32
    requires at + 4 <= |h|
  {
    Pow256Widths();
    FromBE(h[at..at + 4])
  }

  function Be64(h: seq<byte>, at: nat): u64
    requires at + 8 <= |h|
  {
    Pow256Widths();
    FromBE(h[at..at + 8])
  }

  // ---------------------------------------------------------------------
  // Requests

  /** The fields a request header carries; V1 headers have no id or flags (left 0). */
  datatype RequestHeader = RequestHeader(id: u32, flags: byte, mode: byte, uriLen: u16)

  /** objm_client_send_request, V1: mode, then the URI length (low 16 bits) big-endian. */
  function V1RequestBytes(mode: byte, uriLen: nat): (h: seq<byte>)
  {
    [mode] + BE(Low16(uriLen), 2)
  }

  /** objm_client_send_request, V2: REQUEST, id, flags, mode, URI length (low 16 bits). */
  function V2RequestBytes(id: u32, flags: byte, mode: byte, uriLen: nat): (h: seq<byte>)
  {
    [MSG_REQUEST] + BE(id, 4) + [flags, mode] + BE(Low16(uriLen), 2)
  }

  /** What objm_server_recv_request makes of a header: 0, 1 or -1 as ReceiptCode says. */
  datatype RequestReceipt =
    | Received(header: RequestHeader)
    | Closing
    | UnexpectedType(msgType: byte)
    | UriTooLong(uriLen: u16)

  function ReceiptCode(r: RequestReceipt): int
  {
    match r
    case Received(_) => 0
    case Closing => 1
    case _ => -1
  }

  /** objm_server_recv_request on a V1 connection, given the 3 header bytes. */
  function ParseV1Request(h: seq<byte>): RequestReceipt
    requires |h| == V1_REQUEST_HEADER_LEN
  {
    var len := Be16(h, 1);
    if len > MAX_URI_LEN then UriTooLong(len) else Received(RequestHeader(0, 0, h[0], len))
  }

  /** objm_server_recv_request on a V2 connection, given the 9 header bytes. */
  function ParseV2Request(h: seq<byte>): RequestReceipt
    requires |h| == V2_REQUEST_HEADER_LEN
  {
    if h[0] == MSG_CLOSE then Closing
    else if h[0] != MSG_REQUEST then UnexpectedType(h[0])
    else
      var len := Be16(h, 7);
      if len > MAX_URI_LEN then UriTooLong(len)
      else Received(RequestHeader(Be32(h, 1), h[5], h[6], len))
  }

  /** The V2 request header is 9 bytes and the server reads back what the client wrote. */
  lemma V2RequestRoundTrip(id: u32, flags: byte, mode: byte, uriLen: nat)
    requires uriLen <= MAX_URI_LEN
    ensures |V2RequestBytes(id, flags, mode, uriLen)| == V2_REQUEST_HEADER_LEN
    ensures ParseV2Request(V2RequestBytes(id, flags, mode, uriLen))
      == Received(RequestHeader(id, flags, mode, uriLen))
  {
    var l := Low16(uriLen);
    assert l == uriLen;
    var b, c := BE(id, 4), BE(l, 2);
    var h := [MSG_REQUEST] + b + [flags, mode] + c;
    assert h == V2RequestBytes(id, flags, mode, uriLen);
    assert h[1..5] == b && h[7..9] == c;
    Pow256Widths();
    FromBEOfBE(id, 4);
    FromBEOfBE(l, 2);
  }

  /** A URI length of 4097 to 65535 is refused by the server with -1. */
  lemma V2RequestUriTooLong(id: u32, flags: byte, mode: byte, uriLen: nat)
    requires MAX_URI_LEN < uriLen < 0x1_0000
    ensures ParseV2Request(V2RequestBytes(id, flags, mode, uriLen)) == UriTooLong(uriLen)
    ensures ReceiptCode(ParseV2Request(V2RequestBytes(id, flags, mode, uriLen))) == -1
  {
    var l := Low16(uriLen);
    assert l == uriLen;
    var b, c := BE(id, 4), BE(l, 2);
    var h := [MSG_REQUEST] + b + [flags, mode] + c;
    assert h == V2RequestBytes(id, flags, mode, uriLen);
    assert h[0] == MSG_REQUEST && h[7..9] == c;
    Pow256Widths();
    FromBEOfBE(l, 2);
  }

  /** The server's return code is 1 exactly for a CLOSE type byte and -1 for any type other than REQUEST. */
  lemma V2RequestCodes(h: seq<byte>)
    requires |h| == V2_REQUEST_HEADER_LEN
    ensures ReceiptCode(ParseV2Request(h)) == 1 <==> h[0] == MSG_CLOSE
    ensures h[0] != MSG_CLOSE && h[0] != MSG_REQUEST ==> ReceiptCode(ParseV2Request(h)) == -1
    ensures ReceiptCode(ParseV2Request(h)) == 0 <==> h[0] == MSG_REQUEST && Be16(h, 7) <= MAX_URI_LEN
  {
  }

  lemma V1RequestRoundTrip(mode: byte, uriLen: nat)
    requires uriLen <= MAX_URI_LEN
    ensures |V1RequestBytes(mode, uriLen)| == V1_REQUEST_HEADER_LEN
    ensures ParseV1Request(V1RequestBytes(mode, uriLen)) == Received(RequestHeader(0, 0, mode, uriLen))
  {
    var l := Low16(uriLen);
    assert l == uriLen;
    var c := BE(l, 2);
    var h := [mode] + c;
    assert h == V1RequestBytes(mode, uriLen);
    assert h[1..3] == c;
    Pow256Widths();
    FromBEOfBE(l, 2);
  }

  // ---------------------------------------------------------------------
  // Responses

  datatype ResponseHeader = ResponseHeader(requestId: u32, status: byte, contentLen: u64, metadataLen: u16)

  /** objm_server_send_response, V1: status, content length (BE64), metadata length (low 16 bits, BE16). */
  function V1ResponseBytes(status: byte, contentLen: u64, metadataLen: nat): (h: seq<byte>)
  {
    [status] + BE(contentLen, 8) + BE(Low16(metadataLen), 2)
  }

  /** objm_server_send_response, V2: RESPONSE, id, status, content length, metadata length. */
  function V2ResponseBytes(id: u32, status: byte, contentLen: u64, metadataLen: nat): (h: seq<byte>)
  {
    [MSG_RESPONSE] + BE(id, 4) + [status] + BE(contentLen, 8) + BE(Low16(metadataLen), 2)
  }

  /** objm_client_recv_response, V1: the 11 header bytes. */
  function ParseV1Response(h: seq<byte>): ResponseHeader
    requires |h| == V1_RESPONSE_HEADER_LEN
  {
    ResponseHeader(0, h[0], Be64(h, 1), Be16(h, 9))
  }

  /** objm_client_recv_response, V2: the 16 header bytes; None (-1) unless the type is RESPONSE. */
  function ParseV2Response(h: seq<byte>): Option<ResponseHeader>
    requires |h| == V2_RESPONSE_HEADER_LEN
  {
    if h[0] != MSG_RESPONSE then None
    else Some(ResponseHeader(Be32(h, 1), h[5], Be64(h, 6), Be16(h, 14)))
  }

  /** The server passes a descriptor after the header exactly when the status is OK and it has one. */
  predicate ServerSendsFd(status: byte, fd: int)
  {
    status == STATUS_OK && fd >= 0
  }

  /** The client waits for a descriptor exactly when the status is OK and the content length is 0. */
  predicate ClientExpectsFd(h: ResponseHeader)
  {
    h.status == STATUS_OK && h.contentLen == 0
  }

  lemma V2ResponseRoundTrip(id: u32, status: byte, contentLen: u64, metadataLen: nat)
    requires metadataLen < 0x1_0000
    ensures |V2ResponseBytes(id, status, contentLen, metadataLen)| == V2_RESPONSE_HEADER_LEN
    ensures ParseV2Response(V2ResponseBytes(id, status, contentLen, metadataLen))
      == Some(ResponseHeader(id, status, contentLen, metadataLen))
  {
    var h := V2ResponseBytes(id, status, contentLen, metadataLen);
    Pow256Widths();
    assert h[1..5] == BE(id, 4);
    assert h[6..14] == BE(contentLen, 8);
    assert h[14..16] == BE(metadataLen, 2);
    FromBEOfBE(id, 4);
    FromBEOfBE(contentLen, 8);
    FromBEOfBE(metadataLen, 2);
  }

  lemma V1ResponseRoundTrip(status: byte, contentLen: u64, metadataLen: nat)
    requires metadataLen < 0x1_0000
    ensures |V1ResponseBytes(status, contentLen, metadataLen)| == V1_RESPONSE_HEADER_LEN
    ensures ParseV1Response(V1ResponseBytes(status, contentLen, metadataLen))
      == ResponseHeader(0, status, contentLen, metadataLen)
  {
    var h := V1ResponseBytes(status, contentLen, metadataLen);
    Pow256Widths();
    assert h[1..9] == BE(contentLen, 8);
    assert h[9..11] == BE(metadataLen, 2);
    FromBEOfBE(contentLen, 8);
    FromBEOfBE(metadataLen, 2);
  }

  /**
   * Sender and receiver agree on whether a descriptor follows a V2 response
   * exactly when, for an OK status, "has a descriptor" coincides with
   * "content length 0".
   */
  lemma FdExpectationAgrees(id: u32, status: byte, contentLen: u64, metadataLen: nat, fd: int)
    requires metadataLen < 0x1_0000
    ensures var h := ParseV2Response(V2ResponseBytes(id, status, contentLen, metadataLen));
      h.Some? && (ClientExpectsFd(h.value) == ServerSendsFd(status, fd)
                  <==> status != STATUS_OK || (fd >= 0 <==> contentLen == 0))
  {
    V2ResponseRoundTrip(id, status, contentLen, metadataLen);
  }

  /**
   * objm_server_send_error: one TLV entry of type 0xFF carrying the
   * message; objm_metadata_add refuses data over 65535 bytes, and the
   * response then carries no metadata at all.
   */
  function ErrorMetadata(msg: seq<byte>): (m: seq<byte>)
    ensures |msg| > 0xFFFF ==> m == []
    ensures |msg| <= 0xFFFF ==> |m| == 3 + |msg| && m[0] == 0xFF && FromBE(m[1..3]) == |msg| && m[3..] == msg
  {
    if |msg| > 0xFFFF then []
    else
      Pow256Widths();
      FromBEOfBE(|msg|, 2);
      [0xFF] + BE(|msg|, 2) + msg
  }

  // ---------------------------------------------------------------------
  // CLOSE

  /** objm_client_close: CLOSE and the reason byte. */
  function CloseBytes(reason: byte): seq<byte>
  {
    [MSG_CLOSE, reason]
  }

  /** objm_server_send_close_ack: CLOSE_ACK, a reserved 0, the outstanding count as BE32. */
  function CloseAckBytes(outstanding: u32): (a: seq<byte>)
  {
    [MSG_CLOSE_ACK, 0] + BE(outstanding, 4)
  }

  /** The client accepts a 6-byte acknowledgement by its first byte alone. */
  predicate ClientAcceptsCloseAck(a: seq<byte>)
    requires |a| == 6
  {
    a[0] == MSG_CLOSE_ACK
  }

  lemma CloseAckAccepted(outstanding: u32)
    ensures |CloseAckBytes(outstanding)| == 6 && ClientAcceptsCloseAck(CloseAckBytes(outstanding))
  {
  }

  /** How far the server's V2 request read gets with the bytes the client has sent. */
  datatype ReadOutcome = NeedMore | Read(receipt: RequestReceipt)

  /**
   * objm_server_recv_request on a V2 connection as written: it waits for a
   * full 9-byte header before looking at the type byte.
   */
  function ServerReadAsWritten(sent: seq<byte>): ReadOutcome
  {
    if |sent| < V2_REQUEST_HEADER_LEN then NeedMore else Read(ParseV2Request(sent[..V2_REQUEST_HEADER_LEN]))
  }

  /**
   * A CLOSE is 2 bytes, after which the client sends nothing until it has
   * the 6-byte CLOSE_ACK; the read as written never completes on it, so each
   * side waits for the other.
   */
  lemma CloseNeverReadAsWritten(reason: byte)
    ensures ServerReadAsWritten(CloseBytes(reason)) == NeedMore
  {
  }

  /** The read with the framing each message type has: CLOSE is complete after 2 bytes, REQUEST after 9. */
  function ServerRead(sent: seq<byte>): ReadOutcome
  {
    if |sent| == 0 then NeedMore
    else if sent[0] == MSG_CLOSE then (if |sent| < 2 then NeedMore else Read(Closing))
    else ServerReadAsWritten(sent)
  }

  /** A CLOSE is recognised as soon as its 2 bytes have arrived. */
  lemma ServerReadsClose(reason: byte, rest: seq<byte>)
    ensures ServerRead(CloseBytes(reason) + rest) == Read(Closing)
  {
  }

  /** On every other message the framed read behaves as the read as written, so requests still round-trip. */
  lemma ServerReadKeepsRequests(id: u32, flags: byte, mode: byte, uriLen: nat, rest: seq<byte>)
    requires uriLen <= MAX_URI_LEN
    ensures ServerRead(V2RequestBytes(id, flags, mode, uriLen) + rest)
      == ServerReadAsWritten(V2RequestBytes(id, flags, mode, uriLen) + rest)
      == Read(Received(RequestHeader(id, flags, mode, uriLen)))
  {
    var h := V2RequestBytes(id, flags, mode, uriLen);
    V2RequestRoundTrip(id, flags, mode, uriLen);
    assert (h + rest)[..V2_REQUEST_HEADER_LEN] == h;
  }

  // ---------------------------------------------------------------------
  // HELLO negotiation

  datatype Hello = Hello(capabilities: u16, maxPipeline: u16, backendParallelism: byte)

  datatype Params = Params(version: byte, capabilities: u16, maxPipeline: u16, backendParallelism: byte)

  /** The client's 9-byte HELLO: magic, version 2, capabilities, pipeline depth. */
  function HelloBytes(h: Hello): (m: seq<byte>)
  {
    MAGIC + [VERSION_2] + BE(h.capabilities, 2) + BE(h.maxPipeline, 2)
  }

  /** The server's 10-byte HELLO_ACK: magic, version 2, the negotiated capabilities and depth, its parallelism. */
  function HelloAckBytes(p: Params): (m: seq<byte>)
  {
    MAGIC + [VERSION_2] + BE(p.capabilities, 2) + BE(p.maxPipeline, 2) + [p.backendParallelism]
  }

  datatype Handshake =
    | Negotiated(params: Params, ack: seq<byte>)
    | Legacy(params: Params)
    | HandshakeFailed

  /** The parameters a V1 peer gets: no capabilities, depth 1, parallelism 1. */
  const V1_PARAMS: Params := Params(VERSION_1, 0, 1, 1)

  /**
   * objm_server_handshake over the bytes the client has sent: a first byte of
   * 'O' means a V2 HELLO, which must carry the magic and version 2; any other
   * first byte means a V1 client, and nothing is consumed.
   */
  function ServerHandshake(incoming: seq<byte>, server: Hello): Handshake
  {
    if |incoming| == 0 then HandshakeFailed
    else if incoming[0] == MAGIC[0] then
      if |incoming| < 9 then HandshakeFailed
      else
        var m := incoming[..9];
        if m[..4] != MAGIC || m[4] != VERSION_2 then HandshakeFailed
        else
          var p := Params(VERSION_2, And16(Be16(m, 5), server.capabilities),
                          Min16(Be16(m, 7), server.maxPipeline), server.backendParallelism);
          Negotiated(p, HelloAckBytes(p))
    else Legacy(V1_PARAMS)
  }

  /** objm_client_hello after sending its HELLO, given the 10 acknowledgement bytes. */
  function ClientHello(ack: seq<byte>): Option<Params>
    requires |ack| == 10
  {
    if ack[..4] != MAGIC || ack[4] != VERSION_2 then None
    else Some(Params(VERSION_2, Be16(ack, 5), Be16(ack, 7), ack[9]))
  }

  /** The out-of-order stash the client allocates: one slot per pipeline entry when OOO_REPLIES was agreed. */
  function PendingCapacity(p: Params): nat
  {
    if And16(p.capabilities, CAP_OOO_REPLIES) != 0 then p.maxPipeline else 0
  }

  /**
   * A V2 HELLO yields capabilities = client AND server, depth = the smaller
   * of the two, and the server's parallelism; the ack carries exactly these.
   */
  lemma NegotiateV2(client: Hello, server: Hello, rest: seq<byte>)
    ensures var p := Params(VERSION_2, And16(client.capabilities, server.capabilities),
                            Min16(client.maxPipeline, server.maxPipeline), server.backendParallelism);
      ServerHandshake(HelloBytes(client) + rest, server) == Negotiated(p, HelloAckBytes(p))
  {
    var m := HelloBytes(client);
    var incoming := m + rest;
    Pow256Widths();
    assert incoming[..9] == m;
    assert m[..4] == MAGIC;
    assert m[5..7] == BE(client.capabilities, 2);
    assert m[7..9] == BE(client.maxPipeline, 2);
    FromBEOfBE(client.capabilities, 2);
    FromBEOfBE(client.maxPipeline, 2);
  }

  /** Any other first byte is a V1 client with capabilities 0, depth 1 and parallelism 1. */
  lemma NegotiateV1(incoming: seq<byte>, server: Hello)
    requires |incoming| > 0 && incoming[0] != 'O' as byte
    ensures ServerHandshake(incoming, server) == Legacy(Params(VERSION_1, 0, 1, 1))
  {
  }

  /** The client reads back from the ack exactly the parameters the server settled on. */
  lemma ClientReadsNegotiated(p: Params)
    requires p.version == VERSION_2
    ensures |HelloAckBytes(p)| == 10 && ClientHello(HelloAckBytes(p)) == Some(p)
  {
    var a := HelloAckBytes(p);
    Pow256Widths();
    assert a[..4] == MAGIC;
    assert a[5..7] == BE(p.capabilities, 2);
    assert a[7..9] == BE(p.maxPipeline, 2);
    FromBEOfBE(p.capabilities, 2);
    FromBEOfBE(p.maxPipeline, 2);
  }

  /** Negotiated capabilities are a subset of each side's and the depth is at most each side's. */
  lemma NegotiatedWithinBoth(client: Hello, server: Hello)
    ensures var caps := And16(client.capabilities, server.capabilities);
      And16(caps, client.capabilities) == caps && And16(caps, server.capabilities) == caps
    ensures Min16(client.maxPipeline, server.maxPipeline) <= client.maxPipeline
    ensures Min16(client.maxPipeline, server.maxPipeline) <= server.maxPipeline
  {
    var caps := And16(client.capabilities, server.capabilities);
    And16Bits(client.capabilities, server.capabilities);
    And16Bits(caps, client.capabilities);
    And16Bits(caps, server.capabilities);
  }

  // ---------------------------------------------------------------------
  // Name tables

  /** The status codes objm_status_name knows. */
  const KNOWN_STATUSES: set<byte> := {0x00, 0x01, 0x02, 0x03, 0x04, 0x05, 0x10, 0x11, 0x12, 0x13, 0x14, 0x20, 0x21, 0x22}

  function StatusName(status: byte): string
  {
    match status
    case 0x00 => "OK"
    case 0x01 => "NOT_FOUND"
    case 0x02 => "INVALID_REQUEST"
    case 0x03 => "INVALID_MODE"
    case 0x04 => "URI_TOO_LONG"
    case 0x05 => "UNSUPPORTED_OP"
    case 0x10 => "INTERNAL_ERROR"
    case 0x11 => "STORAGE_ERROR"
    case 0x12 => "OUT_OF_MEMORY"
    case 0x13 => "TIMEOUT"
    case 0x14 => "UNAVAILABLE"
    case 0x20 => "PROTOCOL_ERROR"
    case 0x21 => "VERSION_MISMATCH"
    case 0x22 => "CAPABILITY_ERROR"
    case _ => "UNKNOWN"
  }

  function ModeName(mode: byte): string
  {
    match mode
    case 0x31 => "FD_PASS"
    case 0x32 => "COPY"
    case 0x33 => "SPLICE"
    case _ => "UNKNOWN"
  }

  /** Exactly the unknown codes print as "UNKNOWN", and known codes print distinct names. */
  lemma StatusNames(s: byte, t: byte)
    ensures StatusName(s) == "UNKNOWN" <==> s !in KNOWN_STATUSES
    ensures s in KNOWN_STATUSES && t in KNOWN_STATUSES && s != t ==> StatusName(s) != StatusName(t)
  {
  }

  /** Only '1', '2' and '3' have names; the SEGMENTED mode '4' prints as "UNKNOWN". */
  lemma ModeNames(m: byte)
    ensures ModeName(m) == "UNKNOWN" <==> m !in {MODE_FDPASS, MODE_COPY, MODE_SPLICE}
    ensures ModeName(MODE_SEGMENTED) == "UNKNOWN"
  {
  }

  // ---------------------------------------------------------------------
  // Capability names

  /** The four named capability bits, in the order objm_capability_names tests them. */
  const NAMED_CAPS: seq<(u16, string)> := [
    (CAP_OOO_REPLIES, "OOO_REPLIES"), (CAP_PIPELINING, "PIPELINING"),
    (CAP_COMPRESSION, "COMPRESSION"), (CAP_MULTIPLEXING, "MULTIPLEXING")]

  /** The snprintf pieces for the named bits of caps among `table`: a "|" before all but the first. */
  function Pieces(caps: u16, table: seq<(u16, string)>, first: bool): seq<string>
  {
    if table == [] then []
    else if And16(caps, table[0].0) != 0 then
      [(if first then "" else "|") + table[0].1] + Pieces(caps, table[1..], false)
    else Pieces(caps, table[1..], first)
  }

  function Concat(ss: seq<string>): string
  {
    if ss == [] then "" else ss[0] + Concat(ss[1..])
  }

  /** The full text objm_capability_names produces for caps. */
  function CapabilityText(caps: u16): string
  {
    Concat(Pieces(caps, NAMED_CAPS, true))
  }

  /** The names of the set bits of caps among `table`, in table order. */
  function SetNames(caps: u16, table: seq<(u16, string)>): seq<string>
  {
    if table == [] then []
    else if And16(caps, table[0].0) != 0 then [table[0].1] + SetNames(caps, table[1..])
    else SetNames(caps, table[1..])
  }

  /** The names joined with "|". */
  function Join(names: seq<string>): string
  {
    if names == [] then "" else if |names| == 1 then names[0] else names[0] + "|" + Join(names[1..])
  }

  lemma {:induction false} PiecesJoin(caps: u16, table: seq<(u16, string)>, first: bool)
    ensures Concat(Pieces(caps, table, first))
      == (if first || SetNames(caps, table) == [] then "" else "|") + Join(SetNames(caps, table))
  {
    if table != [] {
      PiecesJoin(caps, table[1..], false);
      PiecesJoin(caps, table[1..], first);
      var rest := SetNames(caps, table[1..]);
      if And16(caps, table[0].0) != 0 && rest != [] {
        assert Join([table[0].1] + rest) == table[0].1 + "|" + Join(rest);
      }
    }
  }

  /**
   * The text is the names of the set bits among OOO_REPLIES, PIPELINING,
   * COMPRESSION and MULTIPLEXING, in that order, joined with "|"; every other
   * bit is ignored.
   */
  lemma CapabilityTextIsJoin(caps: u16)
    ensures CapabilityText(caps) == Join(SetNames(caps, NAMED_CAPS))
    ensures CapabilityText(caps) == CapabilityText(And16(caps, 0x000F))
  {
    PiecesJoin(caps, NAMED_CAPS, true);
    var low := And16(caps, 0x000F);
    forall k | 0 <= k < |NAMED_CAPS|
      ensures (And16(caps, NAMED_CAPS[k].0) != 0) == (And16(low, NAMED_CAPS[k].0) != 0)
    {
      LowBitsKept(caps, NAMED_CAPS[k].0);
    }
    PiecesSameBits(caps, low, NAMED_CAPS, true);
  }

  /** Masking with 0x000F keeps each of the four low single-bit flags. */
  lemma LowBitsKept(caps: u16, flag: u16)
    requires flag == 1 || flag == 2 || flag == 4 || flag == 8
    ensures (And16(caps, flag) != 0) == (And16(And16(caps, 0x000F), flag) != 0)
  {
    var c, f := caps as bv16, flag as bv16;
    var low := And16(caps, 0x000F);
    And16Bits(caps, 0x000F);
    assert low as bv16 == c & 0x000F;
    assert (c & 0x000F) & f == c & f;
    assert And16(low, flag) == ((c & 0x000F) & f) as int;
  }

  lemma {:induction false} PiecesSameBits(a: u16, b: u16, table: seq<(u16, string)>, first: bool)
    requires forall k :: 0 <= k < |table| ==> (And16(a, table[k].0) != 0) == (And16(b, table[k].0) != 0)
    ensures Pieces(a, table, first) == Pieces(b, table, first)
  {
    if table != [] {
      assert (And16(a, table[0].0) != 0) == (And16(b, table[0].0) != 0);
      PiecesSameBits(a, b, table[1..], if And16(a, table[0].0) != 0 then false else first);
    }
  }

  /** The pieces for OOO_REPLIES and PIPELINING together. */
  lemma PiecesOfThree()
    ensures Pieces(0x0003, NAMED_CAPS, true) == ["OOO_REPLIES", "|PIPELINING"]
  {
    var t := NAMED_CAPS;
    assert And16(3, 1) == 1 && And16(3, 2) == 2 && And16(3, 4) == 0 && And16(3, 8) == 0;
    assert Pieces(3, t[4..], false) == [];
    assert Pieces(3, t[3..], false) == [] by { assert t[3..][1..] == t[4..]; }
    assert Pieces(3, t[2..], false) == [] by { assert t[2..][1..] == t[3..]; }
    assert Pieces(3, t[1..], false) == ["|PIPELINING"] by {
      assert t[1..][1..] == t[2..];
      assert t[1..][0] == (CAP_PIPELINING, "PIPELINING");
      assert "|" + "PIPELINING" == "|PIPELINING";
    }
    assert t[0] == (CAP_OOO_REPLIES, "OOO_REPLIES");
    assert "" + "OOO_REPLIES" == "OOO_REPLIES";
  }

  lemma CapabilityTextExamples()
    ensures CapabilityText(0x0003) == "OOO_REPLIES|PIPELINING"
  {
    PiecesOfThree();
    assert Concat(["|PIPELINING"]) == "|PIPELINING";
  }

  /**
   * The (start offset, size argument) of each snprintf call objm_capability_names
   * makes, as written: the offset is the running sum of the returned lengths and
   * the size is `size - written` computed in 64-bit unsigned arithmetic.
   */
  function CallsAsWritten(pieces: seq<string>, size: nat, written: nat): (calls: seq<(nat, nat)>)
    ensures |calls| == |pieces|
  {
    if pieces == [] then []
    else [(written, (size - written) % U64_MODULUS)] + CallsAsWritten(pieces[1..], size, written + |pieces[0]|)
  }

  /** With OOO_REPLIES and PIPELINING set and an 8-byte buffer, the second call starts 3 bytes past the end with a size near 2^64. */
  lemma CapabilityNamesOverrun()
    ensures var calls := CallsAsWritten(Pieces(0x0003, NAMED_CAPS, true), 8, 0);
      |calls| == 2 && calls[1] == (11, U64_MODULUS - 3) && calls[1].0 > 8
  {
    PiecesOfThree();
  }

  /** With no named bit set no call is made at all, so not even a NUL reaches the buffer. */
  lemma CapabilityNamesNoCall(caps: u16, size: nat)
    requires And16(caps, 0x000F) == 0
    ensures CallsAsWritten(Pieces(caps, NAMED_CAPS, true), size, 0) == []
  {
    And16Bits(caps, 0x000F);
    And16Bits(caps, 1);
    And16Bits(caps, 2);
    And16Bits(caps, 4);
    And16Bits(caps, 8);
    var t := NAMED_CAPS;
    assert And16(caps, 1) == 0 && And16(caps, 2) == 0 && And16(caps, 4) == 0 && And16(caps, 8) == 0;
    assert Pieces(caps, t[4..], true) == [];
    assert Pieces(caps, t[3..], true) == [] by { assert t[3..][1..] == t[4..]; }
    assert Pieces(caps, t[2..], true) == [] by { assert t[2..][1..] == t[3..]; }
    assert Pieces(caps, t[1..], true) == [] by { assert t[1..][1..] == t[2..]; }
  }

  /** When the whole text fits, every call as written stays inside the buffer and leaves room for its NUL. */
  lemma {:induction false} CallsAsWrittenInBounds(pieces: seq<string>, size: nat, written: nat)
    requires written + |Concat(pieces)| < size < U64_MODULUS
    ensures forall k :: 0 <= k < |CallsAsWritten(pieces, size, written)| ==>
      var call := CallsAsWritten(pieces, size, written)[k];
      call.0 + |pieces[k]| < size && call.1 == size - call.0
  {
    if pieces != [] {
      CallsAsWrittenInBounds(pieces[1..], size, written + |pieces[0]|);
      var calls := CallsAsWritten(pieces, size, written);
      forall k | 0 <= k < |calls|
        ensures calls[k].0 + |pieces[k]| < size && calls[k].1 == size - calls[k].0
      {
        if k > 0 {
          assert calls[k] == CallsAsWritten(pieces[1..], size, written + |pieces[0]|)[k - 1];
          assert pieces[k] == pieces[1..][k - 1];
        }
      }
    }
  }

  /**
   * objm_capability_names with each snprintf call kept inside the buffer: a
   * piece is written only while the running length is below `size`, and an
   * empty text still writes its NUL.  It returns the length of the full text,
   * as snprintf would, and leaves the buffer holding the text truncated to
   * size-1 characters.
   */
  method CapabilityNames(caps: u16, buffer: array<char>, size: nat) returns (written: nat)
    requires size <= buffer.Length
    modifies buffer
    ensures written == |CapabilityText(caps)|
    ensures buffer[..] == Formatted(old(buffer[..]), size, CapabilityText(caps))
  {
    written := WritePieces(Pieces(caps, NAMED_CAPS, true), buffer, size);
  }

  /** The snprintf loop over the pieces, each call clamped to the room left. */
  method WritePieces(pieces: seq<string>, buffer: array<char>, size: nat) returns (written: nat)
    requires size <= buffer.Length
    modifies buffer
    ensures written == |Concat(pieces)|
    ensures buffer[..] == Formatted(old(buffer[..]), size, Concat(pieces))
  {
    ghost var start := buffer[..];
    if size > 0 {
      var _ := Snprintf(buffer, 0, size, "");
    }
    written := 0;
    ghost var text := "";
    var i := 0;
    while i < |pieces|
      invariant 0 <= i <= |pieces|
      invariant text == Concat(pieces[..i])
      invariant written == |text|
      invariant buffer[..] == Formatted(start, size, text)
    {
      ghost var next := text + pieces[i];
      WritePiece(buffer, size, written, pieces[i], start, text);
      assert next == Concat(pieces[..i + 1]) by {
        ConcatSnoc(pieces[..i], pieces[i]);
        assert pieces[..i + 1] == pieces[..i] + [pieces[i]];
      }
      text := next;
      written := written + |pieces[i]|;
      i := i + 1;
    }
    assert pieces[..i] == pieces;
  }

  /** One snprintf call of the loop: it writes only while the running length is below size. */
  method WritePiece(buffer: array<char>, size: nat, written: nat, piece: string, ghost start: seq<char>, ghost text: string)
    requires size <= buffer.Length == |start| && written == |text|
    requires buffer[..] == Formatted(start, size, text)
    modifies buffer
    ensures buffer[..] == Formatted(start, size, text + piece)
  {
    if written < size {
      var _ := Snprintf(buffer, written, size - written, piece);
      FormattedAppend(start, size, text, piece);
    } else {
      TruncatedAppend(start, size, text, piece);
    }
  }

  lemma {:induction false} ConcatSnoc(ss: seq<string>, s: string)
    ensures Concat(ss + [s]) == Concat(ss) + s
  {
    if ss != [] {
      assert (ss + [s])[1..] == ss[1..] + [s];
      ConcatSnoc(ss[1..], s);
    }
  }

  /** Formatting `text` and then `piece` right after it, while text is shorter than size, formats text + piece. */
  lemma FormattedAppend(buf: seq<char>, size: nat, text: string, piece: string)
    requires |text| < size <= |buf|
    ensures FormattedAt(Formatted(buf, size, text), |text|, size - |text|, piece) == Formatted(buf, size, text + piece)
  {
    var f := Formatted(buf, size, text);
    var k := if |piece| < size - |text| - 1 then |piece| else size - |text| - 1;
    var kk := if |text + piece| < size - 1 then |text + piece| else size - 1;
    assert kk == |text| + k;
    assert f[..|text|] == text;
    assert (text + piece)[..kk] == text + piece[..k];
    assert f[|text| + k + 1..] == buf[|text| + k + 1..];
  }

  /** Once text fills the buffer, appending to it changes nothing in the formatted buffer. */
  lemma TruncatedAppend(buf: seq<char>, size: nat, text: string, piece: string)
    requires size <= |buf| && size <= |text|
    ensures Formatted(buf, size, text) == Formatted(buf, size, text + piece)
  {
    if size > 0 {
      assert (text + piece)[..size - 1] == text[..size - 1];
    }
  }
}
