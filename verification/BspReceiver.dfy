/** The other end of the wire: a reader of responses by tag and offset, inverse to the encoders. */
module BspReceiver {
  import opened Results
  import opened Bytes
  import opened BspWire
  import opened BspMessage
  import opened BspResponse

  /** What a client reads out of a payload. */
  function ReadClient(bytes: seq<u8>): (m: Option<ClientResponse>) {
    if bytes == [0x8f] then Some(ClientBye)
    else if |bytes| < 5 then None
    else
      var tag, id, body := bytes[0], U32Be(bytes[1..5]), bytes[5..];
      if tag == 0x81 && body == [] then Some(Accepted(id))
      else if tag == 0x82 && |body| >= 2 && U16Be(body[..2]) == |body| - 2 then Some(TokenChunk(id, body[2..]))
      else if tag == 0x83 && |body| == 1 && ReasonFrom(body[0]).Ok? then Some(StreamEnd(id, ReasonFrom(body[0]).value))
      else if tag == 0x8e && |body| == 2 then Some(ClientError(id, U16Be(body)))
      else None
  }

  /** What an administrator reads out of a payload. */
  function ReadAdmin(bytes: seq<u8>): (m: Option<AdminResponse>) {
    if bytes == [0x9f] then Some(AdminBye)
    else if |bytes| < 5 then None
    else
      var tag, id, body := bytes[0], U32Be(bytes[1..5]), bytes[5..];
      if tag == 0x90 && |body| == 2 then Some(AdminOk(id, U16Be(body)))
      else if tag == 0x91 && |body| == 16 then Some(KeyEnrolled(id, body))
      else if tag == 0x92 && |body| >= 10 && U16Be(body[8..10]) == |body| - 10
      then Some(AuditChunk(id, U64Be(body[..8]), body[10..]))
      else if tag == 0x9e && |body| == 2 then Some(AdminError(id, U16Be(body)))
      else None
  }

  /** A tagged payload by its tag, its request id and its body. */
  lemma TaggedParts(bytes: seq<u8>, tag: u8, id: u32, body: seq<u8>)
    ensures bytes == Tagged(tag, id) + body <==>
      |bytes| >= 5 && bytes[0] == tag && U32Be(bytes[1..5]) == id && bytes[5..] == body
  {
    hide U32Be, BeBytes;
    U32BeBytes(id);
    if |bytes| >= 5 {
      assert bytes == [bytes[0]] + bytes[1..5] + bytes[5..];
      var whole := Tagged(tag, id) + body;
      assert whole[1..5] == BeBytes(id, 4) && whole[5..] == body;
    }
  }

  lemma CodeBody(body: seq<u8>, v: u16)
    ensures body == BeBytes(v, 2) <==> |body| == 2 && U16Be(body) == v
  {
    hide U16Be, BeBytes;
    U16BeBytes(v);
  }

  /** A length-prefixed field is the whole body. */
  lemma PrefixedBody(body: seq<u8>, field: seq<u8>)
    requires |field| < TWO_16
    ensures body == BeBytes(|field|, 2) + field <==>
      |body| >= 2 && U16Be(body[..2]) == |body| - 2 && body[2..] == field
  {
    hide U16Be, BeBytes;
    U16BeBytes(|field|);
    if |body| >= 2 {
      assert body == body[..2] + body[2..];
      var whole := BeBytes(|field|, 2) + field;
      assert whole[..2] == BeBytes(|field|, 2) && whole[2..] == field;
    }
  }

  lemma AuditBody(body: seq<u8>, cursor: u64, records: seq<u8>)
    requires |records| < TWO_16
    ensures body == BeBytes(cursor, 8) + (BeBytes(|records|, 2) + records) <==>
      && |body| >= 10 && U64Be(body[..8]) == cursor && U16Be(body[8..10]) == |body| - 10 && body[10..] == records
  {
    hide U16Be, U64Be, BeBytes;
    U64BeBytes(cursor);
    var rest := BeBytes(|records|, 2) + records;
    if |body| >= 10 {
      assert body == body[..8] + body[8..];
      assert body[8..][..2] == body[8..10] && body[8..][2..] == body[10..];
      PrefixedBody(body[8..], records);
      assert (BeBytes(cursor, 8) + rest)[..8] == BeBytes(cursor, 8) && (BeBytes(cursor, 8) + rest)[8..] == rest;
    }
  }

  /** Every client response, and nothing else, is read back from exactly its own bytes. */
  lemma ClientReadsBack(bytes: seq<u8>, m: ClientResponse)
    requires m.TokenChunk? ==> |m.tokens| < TWO_16
    ensures ReadClient(bytes) == Some(m) <==> bytes == ClientBytes(m)
  {
    hide U16Be, U32Be, BeBytes, Tagged;
    var body := if |bytes| >= 5 then bytes[5..] else [];
    match m
    case Accepted(id) =>
      assert Tagged(0x81, id) == Tagged(0x81, id) + [];
      TaggedParts(bytes, 0x81, id, []);
    case TokenChunk(id, tokens) =>
      assert ClientBytes(m) == Tagged(0x82, id) + (BeBytes(|tokens|, 2) + tokens);
      TaggedParts(bytes, 0x82, id, BeBytes(|tokens|, 2) + tokens);
      PrefixedBody(body, tokens);
    case StreamEnd(id, reason) =>
      TaggedParts(bytes, 0x83, id, [ReasonByte(reason)]);
    case ClientError(id, code) =>
      TaggedParts(bytes, 0x8e, id, BeBytes(code, 2));
      CodeBody(body, code);
    case ClientBye =>
  }

  /** Every admin response, and nothing else, is read back from exactly its own bytes. */
  lemma AdminReadsBack(bytes: seq<u8>, m: AdminResponse)
    requires m.AuditChunk? ==> |m.records| < TWO_16
    ensures ReadAdmin(bytes) == Some(m) <==> bytes == AdminBytes(m)
  {
    hide U16Be, U32Be, U64Be, BeBytes, Tagged;
    var body := if |bytes| >= 5 then bytes[5..] else [];
    match m
    case AdminOk(id, status) =>
      TaggedParts(bytes, 0x90, id, BeBytes(status, 2));
      CodeBody(body, status);
    case KeyEnrolled(id, handle) =>
      TaggedParts(bytes, 0x91, id, handle);
    case AuditChunk(id, cursor, records) =>
      var tail := BeBytes(|records|, 2) + records;
      assert AdminBytes(m) == Tagged(0x92, id) + (BeBytes(cursor, 8) + tail);
      TaggedParts(bytes, 0x92, id, BeBytes(cursor, 8) + tail);
      AuditBody(body, cursor, records);
    case AdminError(id, code) =>
      TaggedParts(bytes, 0x9e, id, BeBytes(code, 2));
      CodeBody(body, code);
    case AdminBye =>
  }
}
