/** The outbound BSP v2 responses, written step by step into a caller's buffer. */
module BspResponse {
  import opened Results
  import opened Bytes
  import opened BspWire
  import opened BspMessage

  datatype FinishReason = Finished | Length | Cancelled | ModelError

  function ReasonByte(reason: FinishReason): (value: u8) {
    match reason case Finished => 0 case Length => 1 case Cancelled => 2 case ModelError => 3
  }

  /** The client-side inverse of `ReasonByte`. */
  function ReasonFrom(value: u8): (r: Result<FinishReason, BspError>)
    ensures forall reason :: r == Ok(reason) <==> ReasonByte(reason) == value
  {
    if value == 0 then Ok(Finished) else if value == 1 then Ok(Length)
    else if value == 2 then Ok(Cancelled) else if value == 3 then Ok(ModelError)
    else Err(UnknownMessageType)
  }

  datatype ClientResponse =
    | Accepted(requestId: u32)
    | TokenChunk(requestId: u32, tokens: seq<u8>)
    | StreamEnd(requestId: u32, reason: FinishReason)
    | ClientError(requestId: u32, errorCode: u16)
    | ClientBye

  datatype AdminResponse =
    | AdminOk(requestId: u32, status: u16)
    | KeyEnrolled(requestId: u32, handle: Bytes16)
    | AuditChunk(requestId: u32, nextCursor: u64, records: seq<u8>)
    | AdminError(requestId: u32, errorCode: u16)
    | AdminBye

  // ---- The encodings ----------------------------------------------------------

  function ClientBytes(m: ClientResponse): (bytes: seq<u8>) {
    match m
    case Accepted(id) => Tagged(0x81, id)
    case TokenChunk(id, tokens) => Tagged(0x82, id) + BeBytes(|tokens|, 2) + tokens
    case StreamEnd(id, reason) => Tagged(0x83, id) + [ReasonByte(reason)]
    case ClientError(id, code) => Tagged(0x8e, id) + BeBytes(code, 2)
    case ClientBye => [0x8f]
  }

  function AdminBytes(m: AdminResponse): (bytes: seq<u8>) {
    match m
    case AdminOk(id, status) => Tagged(0x90, id) + BeBytes(status, 2)
    case KeyEnrolled(id, handle) => Tagged(0x91, id) + handle
    case AuditChunk(id, cursor, records) => Tagged(0x92, id) + BeBytes(cursor, 8) + BeBytes(|records|, 2) + records
    case AdminError(id, code) => Tagged(0x9e, id) + BeBytes(code, 2)
    case AdminBye => [0x9f]
  }

  predicate ClientFits(m: ClientResponse) {
    m.TokenChunk? ==> |m.tokens| <= MAX_TOKEN_CHUNK
  }

  predicate AdminFits(m: AdminResponse) {
    m.AuditChunk? ==> |m.records| <= MAX_AUDIT_CHUNK
  }

  /**
   What an encoder answers for a buffer of `room` bytes. A chunk over its maximum is
   judged only once the `fixed` bytes in front of it have been written.
   */
  function Outcome(bytes: seq<u8>, room: nat, fits: bool, fixed: nat, reason: BspError): (r: Result<nat, BspError>) {
    if !fits then Err(if room < fixed then OutputBufferTooSmall else reason)
    else if room < |bytes| then Err(OutputBufferTooSmall)
    else Ok(|bytes|)
  }

  function ClientOutcome(m: ClientResponse, room: nat): (r: Result<nat, BspError>) {
    Outcome(ClientBytes(m), room, ClientFits(m), 5, TokenChunkExceedsMaximum)
  }

  function AdminOutcome(m: AdminResponse, room: nat): (r: Result<nat, BspError>) {
    Outcome(AdminBytes(m), room, AdminFits(m), 13, AuditChunkExceedsMaximum)
  }

  // ---- The encoders -------------------------------------------------------------

  /** The maximum is judged before any of the field is written. */
  method PushBoundedVarBytes(writer: ResponseWriter, value: seq<u8>, maximum: nat, reason: BspError)
    returns (r: Result<(), BspError>)
    requires writer.Valid() && maximum < TWO_16
    modifies writer`written, writer.buffer
    ensures writer.Valid()
    ensures r == if |value| > maximum then Err(reason)
                 else if old(writer.written) + 2 + |value| > writer.buffer.Length then Err(OutputBufferTooSmall)
                 else Ok(())
    ensures r.Ok? ==> writer.written == old(writer.written) + 2 + |value|
    ensures r.Ok? ==>
              writer.buffer[..writer.written] == old(writer.buffer[..writer.written]) + BeBytes(|value|, 2) + value
    ensures r.Ok? ==> forall k :: writer.written <= k < writer.buffer.Length ==>
                                    writer.buffer[k] == old(writer.buffer[k])
  {
    hide BeBytes;
    if |value| > maximum {
      return Err(reason);
    }
    var _ :- writer.PushBytes(BeBytes(|value|, 2));
    r := writer.PushBytes(value);
  }

  method WriteTagged(writer: ResponseWriter, tag: u8, requestId: u32) returns (r: Result<(), BspError>)
    requires writer.Valid() && writer.written == 0
    modifies writer`written, writer.buffer
    ensures writer.Valid()
    ensures r == if 5 <= writer.buffer.Length then Ok(()) else Err(OutputBufferTooSmall)
    ensures r.Ok? ==> writer.written == 5 && writer.buffer[..5] == Tagged(tag, requestId)
    ensures r.Ok? ==> forall k :: 5 <= k < writer.buffer.Length ==> writer.buffer[k] == old(writer.buffer[k])
  {
    hide BeBytes;
    var _ :- writer.PushBytes([tag]);
    r := writer.PushBytes(BeBytes(requestId, 4));
  }

  method WriteClient(m: ClientResponse, writer: ResponseWriter) returns (r: Result<(), BspError>)
    requires writer.Valid() && writer.written == 0
    modifies writer`written, writer.buffer
    ensures writer.Valid()
    ensures r == var o := ClientOutcome(m, writer.buffer.Length); if o.Ok? then Ok(()) else Err(o.error)
    ensures r.Ok? ==> writer.written == |ClientBytes(m)| && writer.buffer[..writer.written] == ClientBytes(m)
    ensures r.Ok? ==> forall k :: writer.written <= k < writer.buffer.Length ==>
                                    writer.buffer[k] == old(writer.buffer[k])
  {
    hide BeBytes, Tagged;
    match m
    case Accepted(id) =>
      r := WriteTagged(writer, 0x81, id);
    case TokenChunk(id, tokens) =>
      var _ :- WriteTagged(writer, 0x82, id);
      r := PushBoundedVarBytes(writer, tokens, MAX_TOKEN_CHUNK, TokenChunkExceedsMaximum);
    case StreamEnd(id, reason) =>
      var _ :- WriteTagged(writer, 0x83, id);
      r := writer.PushBytes([ReasonByte(reason)]);
    case ClientError(id, code) =>
      var _ :- WriteTagged(writer, 0x8e, id);
      r := writer.PushBytes(BeBytes(code, 2));
    case ClientBye =>
      r := writer.PushBytes([0x8f]);
  }

  method WriteAuditChunk(writer: ResponseWriter, requestId: u32, nextCursor: u64, records: seq<u8>)
    returns (r: Result<(), BspError>)
    requires writer.Valid() && writer.written == 0
    modifies writer`written, writer.buffer
    ensures writer.Valid()
    ensures r == var o := AdminOutcome(AuditChunk(requestId, nextCursor, records), writer.buffer.Length);
                 if o.Ok? then Ok(()) else Err(o.error)
    ensures r.Ok? ==> writer.written == 15 + |records|
    ensures r.Ok? ==> writer.buffer[..writer.written] == AdminBytes(AuditChunk(requestId, nextCursor, records))
    ensures r.Ok? ==> forall k :: writer.written <= k < writer.buffer.Length ==>
                                    writer.buffer[k] == old(writer.buffer[k])
  {
    hide BeBytes, Tagged;
    var _ :- WriteTagged(writer, 0x92, requestId);
    var _ :- writer.PushBytes(BeBytes(nextCursor, 8));
    r := PushBoundedVarBytes(writer, records, MAX_AUDIT_CHUNK, AuditChunkExceedsMaximum);
  }

  method WriteAdmin(m: AdminResponse, writer: ResponseWriter) returns (r: Result<(), BspError>)
    requires writer.Valid() && writer.written == 0
    modifies writer`written, writer.buffer
    ensures writer.Valid()
    ensures r == var o := AdminOutcome(m, writer.buffer.Length); if o.Ok? then Ok(()) else Err(o.error)
    ensures r.Ok? ==> writer.written == |AdminBytes(m)| && writer.buffer[..writer.written] == AdminBytes(m)
    ensures r.Ok? ==> forall k :: writer.written <= k < writer.buffer.Length ==>
                                    writer.buffer[k] == old(writer.buffer[k])
  {
    hide BeBytes, Tagged;
    match m
    case AdminOk(id, status) =>
      var _ :- WriteTagged(writer, 0x90, id);
      r := writer.PushBytes(BeBytes(status, 2));
    case KeyEnrolled(id, handle) =>
      var _ :- WriteTagged(writer, 0x91, id);
      r := writer.PushBytes(handle);
    case AuditChunk(id, cursor, records) =>
      r := WriteAuditChunk(writer, id, cursor, records);
    case AdminError(id, code) =>
      var _ :- WriteTagged(writer, 0x9e, id);
      r := writer.PushBytes(BeBytes(code, 2));
    case AdminBye =>
      r := writer.PushBytes([0x9f]);
  }

  /** Encodes into `out`; the final record bound never fires, so it does not appear in the outcome. */
  method EncodeClient(m: ClientResponse, out: array<u8>) returns (r: Result<nat, BspError>)
    modifies out
    ensures r == ClientOutcome(m, out.Length)
    ensures r.Ok? ==> out[..r.value] == ClientBytes(m)
    ensures r.Ok? ==> forall k :: r.value <= k < out.Length ==> out[k] == old(out[k])
  {
    hide ClientBytes;
    var writer := new ResponseWriter(out);
    var _ :- WriteClient(m, writer);
    EncodingsAreBounded(m, AdminBye);
    if writer.written > MAX_RECORD_PLAINTEXT {
      return Err(ResponseExceedsRecordPlaintext);
    }
    return Ok(writer.written);
  }

  method EncodeAdmin(m: AdminResponse, out: array<u8>) returns (r: Result<nat, BspError>)
    modifies out
    ensures r == AdminOutcome(m, out.Length)
    ensures r.Ok? ==> out[..r.value] == AdminBytes(m) && forall k :: r.value <= k < out.Length ==> out[k] == old(out[k])
  {
    hide AdminBytes;
    var writer := new ResponseWriter(out);
    var _ :- WriteAdmin(m, writer);
    EncodingsAreBounded(ClientBye, m);
    if writer.written > MAX_RECORD_PLAINTEXT {
      return Err(ResponseExceedsRecordPlaintext);
    }
    return Ok(writer.written);
  }

  // ---- What the encodings promise -------------------------------------------------

  /** A response within its own chunk maximum is far inside one record. */
  lemma EncodingsAreBounded(c: ClientResponse, a: AdminResponse)
    ensures ClientFits(c) ==> 1 <= |ClientBytes(c)| <= 7 + MAX_TOKEN_CHUNK < MAX_RECORD_PLAINTEXT
    ensures AdminFits(a) ==> 1 <= |AdminBytes(a)| <= 15 + MAX_AUDIT_CHUNK < MAX_RECORD_PLAINTEXT
  {
    hide BeBytes;
  }

  lemma TaggedInjective(tag: u8, a: u32, b: u32)
    requires Tagged(tag, a) == Tagged(tag, b)
    ensures a == b
  {
    hide BeBytes, U32Be;
    U32BeBytes(a);
    U32BeBytes(b);
    assert Tagged(tag, a)[1..] == BeBytes(a, 4) && Tagged(tag, b)[1..] == BeBytes(b, 4);
  }

  /** Two messages with the same bytes share their leading five and everything after. */
  lemma Split(h1: seq<u8>, t1: seq<u8>, h2: seq<u8>, t2: seq<u8>)
    requires |h1| == |h2| && h1 + t1 == h2 + t2
    ensures h1 == h2 && t1 == t2
  {
    assert (h1 + t1)[..|h1|] == h1 && (h2 + t2)[..|h2|] == h2;
    assert (h1 + t1)[|h1|..] == t1 && (h2 + t2)[|h2|..] == t2;
  }

  lemma CodeInjective(tag: u8, id1: u32, v1: u16, id2: u32, v2: u16)
    requires Tagged(tag, id1) + BeBytes(v1, 2) == Tagged(tag, id2) + BeBytes(v2, 2)
    ensures id1 == id2 && v1 == v2
  {
    hide BeBytes, Tagged, U16Be;
    Split(Tagged(tag, id1), BeBytes(v1, 2), Tagged(tag, id2), BeBytes(v2, 2));
    TaggedInjective(tag, id1, id2);
    U16BeBytes(v1);
    U16BeBytes(v2);
  }

  /** Distinct client responses never encode to the same bytes. */
  lemma ClientInjective(a: ClientResponse, b: ClientResponse)
    requires ClientBytes(a) == ClientBytes(b)
    ensures a == b
  {
    hide BeBytes;
    assert ClientBytes(a)[0] == ClientBytes(b)[0];
    match a
    case Accepted(id) => TaggedInjective(0x81, id, b.requestId);
    case TokenChunk(id, tokens) =>
      Split(Tagged(0x82, id) + BeBytes(|tokens|, 2), tokens,
            Tagged(0x82, b.requestId) + BeBytes(|b.tokens|, 2), b.tokens);
      Split(Tagged(0x82, id), BeBytes(|tokens|, 2), Tagged(0x82, b.requestId), BeBytes(|b.tokens|, 2));
      TaggedInjective(0x82, id, b.requestId);
    case StreamEnd(id, reason) =>
      Split(Tagged(0x83, id), [ReasonByte(reason)], Tagged(0x83, b.requestId), [ReasonByte(b.reason)]);
      TaggedInjective(0x83, id, b.requestId);
    case ClientError(id, code) => CodeInjective(0x8e, id, code, b.requestId, b.errorCode);
    case ClientBye =>
  }

  lemma AuditInjective(a: AdminResponse, b: AdminResponse)
    requires a.AuditChunk? && b.AuditChunk? && AdminBytes(a) == AdminBytes(b)
    ensures a == b
  {
    hide BeBytes, Tagged, U64Be;
    var h1, h2 := Tagged(0x92, a.requestId), Tagged(0x92, b.requestId);
    var c1, c2 := BeBytes(a.nextCursor, 8), BeBytes(b.nextCursor, 8);
    var n1, n2 := BeBytes(|a.records|, 2), BeBytes(|b.records|, 2);
    Split(h1 + c1 + n1, a.records, h2 + c2 + n2, b.records);
    Split(h1 + c1, n1, h2 + c2, n2);
    Split(h1, c1, h2, c2);
    TaggedInjective(0x92, a.requestId, b.requestId);
    U64BeBytes(a.nextCursor);
    U64BeBytes(b.nextCursor);
  }

  /** Distinct admin responses never encode to the same bytes. */
  lemma AdminInjective(a: AdminResponse, b: AdminResponse)
    requires AdminBytes(a) == AdminBytes(b)
    ensures a == b
  {
    hide BeBytes;
    assert AdminBytes(a)[0] == AdminBytes(b)[0];
    match a
    case AdminOk(id, status) => CodeInjective(0x90, id, status, b.requestId, b.status);
    case KeyEnrolled(id, handle) =>
      Split(Tagged(0x91, id), handle, Tagged(0x91, b.requestId), b.handle);
      TaggedInjective(0x91, id, b.requestId);
    case AuditChunk(_, _, _) => AuditInjective(a, b);
    case AdminError(id, code) => CodeInjective(0x9e, id, code, b.requestId, b.errorCode);
    case AdminBye =>
  }

  /** Both inbound decoders refuse any payload that opens with an outbound tag. */
  lemma OutboundTagRefused(payload: Slice)
    requires |payload| > 0 && RangeOf(payload[0]) in {ClientOutbound, AdminOutbound}
    ensures ClientRequestOf(payload) == Err(WrongDirectionTag)
    ensures AdminVerbOf(payload) == Err(WrongDirectionTag)
  {
  }

  /** No client response is an admin response, and neither inbound decoder takes either. */
  lemma ResponsesAreNotRequests(c: ClientResponse, a: AdminResponse)
    requires ClientFits(c) && AdminFits(a)
    ensures ClientBytes(c) != AdminBytes(a)
    ensures |ClientBytes(c)| <= ISIZE_MAX && |AdminBytes(a)| <= ISIZE_MAX
    ensures ClientRequestOf(ClientBytes(c)) == Err(WrongDirectionTag)
    ensures AdminVerbOf(ClientBytes(c)) == Err(WrongDirectionTag)
    ensures ClientRequestOf(AdminBytes(a)) == Err(WrongDirectionTag)
    ensures AdminVerbOf(AdminBytes(a)) == Err(WrongDirectionTag)
  {
    hide BeBytes, ClientRequestOf, AdminVerbOf;
    EncodingsAreBounded(c, a);
    assert RangeOf(ClientBytes(c)[0]).ClientOutbound? && RangeOf(AdminBytes(a)[0]).AdminOutbound?;
    OutboundTagRefused(ClientBytes(c));
    OutboundTagRefused(AdminBytes(a));
  }
}
