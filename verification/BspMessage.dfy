/** The inbound BSP v2 codec: client requests and admin verbs, decoded and encoded. */
module BspMessage {
  import opened Results
  import opened Bytes
  import opened BspWire

  datatype InferBegin = InferBegin(requestId: u32, maxTokens: u32, temperature: u16, topP: u16, promptLength: u32)

  datatype ClientRequest =
    | Begin(begin: InferBegin)
    | PromptChunk(requestId: u32, chunk: seq<u8>)
    | InferCommit(requestId: u32)
    | Cancel(requestId: u32)
    | Close

  datatype Role = ClientRole | AdminRole

  datatype RestartTarget = Servd | Inferd | Auditd | Gpud

  datatype AdminVerb =
    | EnrollKey(requestId: u32, role: Role, keyMaterial: Bytes32)
    | RevokeKey(requestId: u32, handle: Bytes16)
    | LoadWeights(requestId: u32, weightsDigest: Bytes32)
    | ReadAuditLog(requestId: u32, cursor: u64, maxRecords: u16)
    | RestartServer(requestId: u32, target: RestartTarget)
    | Reboot(requestId: u32)

  // ---- Tags ---------------------------------------------------------------

  datatype TagRange = ClientInbound | AdminInbound | ClientOutbound | AdminOutbound | Unassigned

  /** The quadrant of the tag partition a type byte falls in, by its high nibble. */
  function RangeOf(tag: u8): (range: TagRange) {
    var nibble := tag / 16;
    if nibble == 0 then ClientInbound else if nibble == 1 then AdminInbound
    else if nibble == 8 then ClientOutbound else if nibble == 9 then AdminOutbound
    else Unassigned
  }

  function RequireRange(tag: u8, expected: TagRange): (r: Result<(), BspError>) {
    match RangeOf(tag)
    case Unassigned => if expected.Unassigned? then Ok(()) else Err(UnknownMessageType)
    case ClientInbound => if expected.ClientInbound? then Ok(()) else Err(WrongSessionTypeRange)
    case AdminInbound => if expected.AdminInbound? then Ok(()) else Err(WrongSessionTypeRange)
    case ClientOutbound => if expected.ClientOutbound? then Ok(()) else Err(WrongDirectionTag)
    case AdminOutbound => if expected.AdminOutbound? then Ok(()) else Err(WrongDirectionTag)
  }

  function RoleFrom(value: u8): (r: Result<Role, BspError>) {
    if value == 1 then Ok(ClientRole) else if value == 2 then Ok(AdminRole) else Err(InvalidEnrollRole)
  }

  function RoleByte(role: Role): (value: u8) {
    match role case ClientRole => 1 case AdminRole => 2
  }

  function TargetFrom(value: u8): (r: Result<RestartTarget, BspError>) {
    if value == 1 then Ok(Servd) else if value == 2 then Ok(Inferd)
    else if value == 3 then Ok(Auditd) else if value == 4 then Ok(Gpud)
    else Err(UnknownRestartTarget)
  }

  function TargetByte(target: RestartTarget): (value: u8) {
    match target case Servd => 1 case Inferd => 2 case Auditd => 3 case Gpud => 4
  }

  // ---- Message grammar by length and offset -----------------------------------

  /** A body of exactly `n` bytes. */
  function Exactly(body: seq<u8>, n: nat): (r: Result<(), BspError>) {
    if |body| < n then Err(TruncatedMessageBody) else if |body| > n then Err(TrailingBytesAfterBody) else Ok(())
  }

  function BeginOf(body: seq<u8>): (r: Result<ClientRequest, BspError>)
    ensures r.Ok? ==> r.value.Begin?
  {
    var _ :- Exactly(body, 16);
    var begin := InferBegin(U32Be(body[..4]), U32Be(body[4..8]),
                            U16Be(body[8..10]), U16Be(body[10..12]), U32Be(body[12..16]));
    if begin.maxTokens > MAX_TOKENS_REQUESTED then Err(MaxTokensExceedsLimit) else
    if begin.promptLength > MAX_PROMPT_BYTES then Err(PromptLengthExceedsLimit) else
    Ok(Begin(begin))
  }

  function ChunkOf(body: seq<u8>): (r: Result<ClientRequest, BspError>)
    ensures r.Ok? ==> r.value.PromptChunk?
  {
    if |body| < 4 then Err(TruncatedMessageBody) else
    var chunk :- VarBytes(body[4..], MAX_PROMPT_CHUNK);
    if |body| > 6 + |chunk| then Err(TrailingBytesAfterBody) else
    Ok(PromptChunk(U32Be(body[..4]), chunk))
  }

  function IdOf(body: seq<u8>): (r: Result<u32, BspError>) {
    var _ :- Exactly(body, 4);
    Ok(U32Be(body))
  }

  /** The client-session grammar. */
  function ClientRequestOf(payload: Slice): (r: Result<ClientRequest, BspError>) {
    if payload == [] then Err(EmptyMessage) else
    var tag, body := payload[0], payload[1..];
    var _ :- RequireRange(tag, ClientInbound);
    if tag == 1 then BeginOf(body)
    else if tag == 2 then ChunkOf(body)
    else if tag == 3 then var id :- IdOf(body); Ok(InferCommit(id))
    else if tag == 4 then var id :- IdOf(body); Ok(Cancel(id))
    else if tag == 5 then if body == [] then Ok(Close) else Err(TrailingBytesAfterBody)
    else Err(UnknownMessageType)
  }

  /** The role byte is judged before the key material is required. */
  function EnrollOf(body: seq<u8>): (r: Result<AdminVerb, BspError>)
    ensures r.Ok? ==> r.value.EnrollKey?
  {
    if |body| < 5 then Err(TruncatedMessageBody) else
    var role :- RoleFrom(body[4]);
    var _ :- Exactly(body, 37);
    Ok(EnrollKey(U32Be(body[..4]), role, body[5..37]))
  }

  function RevokeOf(body: seq<u8>): (r: Result<AdminVerb, BspError>)
    ensures r.Ok? ==> r.value.RevokeKey?
  {
    var _ :- Exactly(body, 20);
    Ok(RevokeKey(U32Be(body[..4]), body[4..20]))
  }

  function LoadOf(body: seq<u8>): (r: Result<AdminVerb, BspError>)
    ensures r.Ok? ==> r.value.LoadWeights?
  {
    var _ :- Exactly(body, 36);
    Ok(LoadWeights(U32Be(body[..4]), body[4..36]))
  }

  function AuditOf(body: seq<u8>): (r: Result<AdminVerb, BspError>)
    ensures r.Ok? ==> r.value.ReadAuditLog?
  {
    var _ :- Exactly(body, 14);
    var maxRecords := U16Be(body[12..14]);
    if maxRecords > MAX_AUDIT_RECORDS then Err(AuditRecordCountExceedsLimit) else
    Ok(ReadAuditLog(U32Be(body[..4]), U64Be(body[4..12]), maxRecords))
  }

  function RestartOf(body: seq<u8>): (r: Result<AdminVerb, BspError>)
    ensures r.Ok? ==> r.value.RestartServer?
  {
    if |body| < 5 then Err(TruncatedMessageBody) else
    var target :- TargetFrom(body[4]);
    if |body| > 5 then Err(TrailingBytesAfterBody) else
    Ok(RestartServer(U32Be(body[..4]), target))
  }

  /** The admin-session grammar: six verbs and a denial. */
  function AdminVerbOf(payload: Slice): (r: Result<AdminVerb, BspError>) {
    if payload == [] then Err(EmptyMessage) else
    var tag, body := payload[0], payload[1..];
    var _ :- RequireRange(tag, AdminInbound);
    if tag == 0x11 then EnrollOf(body)
    else if tag == 0x12 then RevokeOf(body)
    else if tag == 0x13 then LoadOf(body)
    else if tag == 0x14 then AuditOf(body)
    else if tag == 0x15 then RestartOf(body)
    else if tag == 0x16 then var id :- IdOf(body); Ok(Reboot(id))
    else Err(UnknownMessageType)
  }

  // ---- The reader-driven decoders ------------------------------------------------

  method DecodeBegin(body: Slice) returns (r: Result<ClientRequest, BspError>)
    ensures r == BeginOf(body)
  {
    hide U16Be, U32Be;
    var reader := new FieldReader(body);
    var requestId :- reader.TakeU32();
    var maxTokens :- reader.TakeU32();
    var temperature :- reader.TakeU16();
    var topP :- reader.TakeU16();
    var promptLength :- reader.TakeU32();
    var _ :- reader.Finish();
    assert body[4..][..4] == body[4..8] && body[4..][4..] == body[8..];
    assert body[8..][..2] == body[8..10] && body[8..][2..] == body[10..];
    assert body[10..][..2] == body[10..12] && body[10..][2..] == body[12..];
    assert body[12..][..4] == body[12..16];
    if maxTokens > MAX_TOKENS_REQUESTED {
      return Err(MaxTokensExceedsLimit);
    }
    if promptLength > MAX_PROMPT_BYTES {
      return Err(PromptLengthExceedsLimit);
    }
    return Ok(Begin(InferBegin(requestId, maxTokens, temperature, topP, promptLength)));
  }

  method DecodeChunk(body: Slice) returns (r: Result<ClientRequest, BspError>)
    ensures r == ChunkOf(body)
  {
    hide U32Be, VarBytes;
    var reader := new FieldReader(body);
    var requestId :- reader.TakeU32();
    var chunk :- reader.TakeBoundedVarBytes(MAX_PROMPT_CHUNK);
    var _ :- reader.Finish();
    return Ok(PromptChunk(requestId, chunk));
  }

  method DecodeId(body: Slice) returns (r: Result<u32, BspError>)
    ensures r == IdOf(body)
  {
    hide U32Be;
    var reader := new FieldReader(body);
    var requestId :- reader.TakeU32();
    var _ :- reader.Finish();
    assert body[..4] == body;
    return Ok(requestId);
  }

  method DecodeClientRequest(payload: Slice) returns (r: Result<ClientRequest, BspError>)
    ensures r == ClientRequestOf(payload)
  {
    hide BeginOf, ChunkOf, IdOf;
    if payload == [] {
      return Err(EmptyMessage);
    }
    var tag, body := payload[0], payload[1..];
    var _ :- RequireRange(tag, ClientInbound);
    if tag == 1 {
      r := DecodeBegin(body);
    } else if tag == 2 {
      r := DecodeChunk(body);
    } else if tag == 3 {
      var id :- DecodeId(body);
      r := Ok(InferCommit(id));
    } else if tag == 4 {
      var id :- DecodeId(body);
      r := Ok(Cancel(id));
    } else if tag == 5 {
      var reader := new FieldReader(body);
      var _ :- reader.Finish();
      r := Ok(Close);
    } else {
      r := Err(UnknownMessageType);
    }
  }

  method DecodeEnroll(body: Slice) returns (r: Result<AdminVerb, BspError>)
    ensures r == EnrollOf(body)
  {
    hide U32Be;
    var reader := new FieldReader(body);
    var requestId :- reader.TakeU32();
    var roleByte :- reader.TakeU8();
    var role :- RoleFrom(roleByte);
    var keyMaterial :- reader.Take(32);
    var _ :- reader.Finish();
    assert body[4..][1..] == body[5..] && body[5..][..32] == body[5..37];
    return Ok(EnrollKey(requestId, role, keyMaterial));
  }

  method DecodeRevoke(body: Slice) returns (r: Result<AdminVerb, BspError>)
    ensures r == RevokeOf(body)
  {
    hide U32Be;
    var reader := new FieldReader(body);
    var requestId :- reader.TakeU32();
    var handle :- reader.Take(16);
    var _ :- reader.Finish();
    assert body[4..][..16] == body[4..20];
    return Ok(RevokeKey(requestId, handle));
  }

  method DecodeLoad(body: Slice) returns (r: Result<AdminVerb, BspError>)
    ensures r == LoadOf(body)
  {
    hide U32Be;
    var reader := new FieldReader(body);
    var requestId :- reader.TakeU32();
    var digest :- reader.Take(32);
    var _ :- reader.Finish();
    assert body[4..][..32] == body[4..36];
    return Ok(LoadWeights(requestId, digest));
  }

  method DecodeAudit(body: Slice) returns (r: Result<AdminVerb, BspError>)
    ensures r == AuditOf(body)
  {
    hide U16Be, U32Be, U64Be;
    var reader := new FieldReader(body);
    var requestId :- reader.TakeU32();
    var cursor :- reader.TakeU64();
    var maxRecords :- reader.TakeU16();
    var _ :- reader.Finish();
    assert body[4..][..8] == body[4..12] && body[4..][8..] == body[12..] && body[12..][..2] == body[12..14];
    if maxRecords > MAX_AUDIT_RECORDS {
      return Err(AuditRecordCountExceedsLimit);
    }
    return Ok(ReadAuditLog(requestId, cursor, maxRecords));
  }

  method DecodeRestart(body: Slice) returns (r: Result<AdminVerb, BspError>)
    ensures r == RestartOf(body)
  {
    hide U32Be;
    var reader := new FieldReader(body);
    var requestId :- reader.TakeU32();
    var targetByte :- reader.TakeU8();
    var target :- TargetFrom(targetByte);
    var _ :- reader.Finish();
    return Ok(RestartServer(requestId, target));
  }

  method DecodeAdminVerb(payload: Slice) returns (r: Result<AdminVerb, BspError>)
    ensures r == AdminVerbOf(payload)
  {
    hide EnrollOf, RevokeOf, LoadOf, AuditOf, RestartOf, IdOf;
    if payload == [] {
      return Err(EmptyMessage);
    }
    var tag, body := payload[0], payload[1..];
    var _ :- RequireRange(tag, AdminInbound);
    if tag == 0x11 {
      r := DecodeEnroll(body);
    } else if tag == 0x12 {
      r := DecodeRevoke(body);
    } else if tag == 0x13 {
      r := DecodeLoad(body);
    } else if tag == 0x14 {
      r := DecodeAudit(body);
    } else if tag == 0x15 {
      r := DecodeRestart(body);
    } else if tag == 0x16 {
      var id :- DecodeId(body);
      r := Ok(Reboot(id));
    } else {
      r := Err(UnknownMessageType);
    }
  }

  // ---- Encoding -------------------------------------------------------------------

  function BeginBytes(b: InferBegin): (bytes: seq<u8>)
    ensures |bytes| == 16
  {
    BeBytes(b.requestId, 4) + BeBytes(b.maxTokens, 4) + BeBytes(b.temperature, 2) + BeBytes(b.topP, 2)
    + BeBytes(b.promptLength, 4)
  }

  function Tagged(tag: u8, requestId: u32): (bytes: seq<u8>)
    ensures |bytes| == 5
  {
    [tag] + BeBytes(requestId, 4)
  }

  function ClientRequestBytes(m: ClientRequest): (bytes: seq<u8>) {
    match m
    case Begin(begin) => [1] + BeginBytes(begin)
    case PromptChunk(id, chunk) => Tagged(2, id) + BeBytes(|chunk|, 2) + chunk
    case InferCommit(id) => Tagged(3, id)
    case Cancel(id) => Tagged(4, id)
    case Close => [5]
  }

  function AdminVerbBytes(m: AdminVerb): (bytes: seq<u8>) {
    match m
    case EnrollKey(id, role, keyMaterial) => Tagged(0x11, id) + [RoleByte(role)] + keyMaterial
    case RevokeKey(id, handle) => Tagged(0x12, id) + handle
    case LoadWeights(id, digest) => Tagged(0x13, id) + digest
    case ReadAuditLog(id, cursor, maxRecords) => Tagged(0x14, id) + BeBytes(cursor, 8) + BeBytes(maxRecords, 2)
    case RestartServer(id, target) => Tagged(0x15, id) + [TargetByte(target)]
    case Reboot(id) => Tagged(0x16, id)
  }

  /** Within the decoder's ceilings. */
  predicate ClientWithin(m: ClientRequest) {
    match m
    case Begin(begin) => begin.maxTokens <= MAX_TOKENS_REQUESTED && begin.promptLength <= MAX_PROMPT_BYTES
    case PromptChunk(_, chunk) => |chunk| <= MAX_PROMPT_CHUNK
    case _ => true
  }

  predicate AdminWithin(m: AdminVerb) {
    m.ReadAuditLog? ==> m.maxRecords <= MAX_AUDIT_RECORDS
  }

  lemma BeginCanonical(body: seq<u8>, b: InferBegin)
    ensures BeginOf(body) == Ok(Begin(b)) <==> body == BeginBytes(b) && ClientWithin(Begin(b))
  {
    hide U16Be, U32Be, BeBytes;
    U32BeBytes(b.requestId);
    U32BeBytes(b.maxTokens);
    U16BeBytes(b.temperature);
    U16BeBytes(b.topP);
    U32BeBytes(b.promptLength);
    if |body| == 16 {
      assert body == body[..4] + body[4..8] + body[8..10] + body[10..12] + body[12..16];
      BeginSlices(b);
    }
  }

  lemma BeginSlices(b: InferBegin)
    ensures var s := BeginBytes(b);
      && s[..4] == BeBytes(b.requestId, 4) && s[4..8] == BeBytes(b.maxTokens, 4)
      && s[8..10] == BeBytes(b.temperature, 2) && s[10..12] == BeBytes(b.topP, 2)
      && s[12..16] == BeBytes(b.promptLength, 4)
  {
    hide BeBytes;
  }

  /** A chunk body by its three parts. */
  lemma ChunkParts(body: seq<u8>, a: seq<u8>, b: seq<u8>, chunk: seq<u8>)
    requires |a| == 4 && |b| == 2
    ensures body == a + b + chunk <==>
      |body| == 6 + |chunk| && body[..4] == a && body[4..][..2] == b && body[4..][2..2 + |chunk|] == chunk
  {
    if |body| == 6 + |chunk| {
      SubSlice(body, 4, |body|, 0, 2);
      SubSlice(body, 4, |body|, 2, |chunk|);
      assert body[4..|body|] == body[4..];
      assert body == body[..4] + body[4..6] + body[6..6 + |chunk|];
    }
  }

  lemma ChunkCanonical(body: seq<u8>, id: u32, chunk: seq<u8>)
    ensures ChunkOf(body) == Ok(PromptChunk(id, chunk)) <==>
      body == BeBytes(id, 4) + BeBytes(|chunk|, 2) + chunk && |chunk| <= MAX_PROMPT_CHUNK
  {
    hide U16Be, U32Be, BeBytes;
    U32BeBytes(id);
    ChunkParts(body, BeBytes(id, 4), BeBytes(|chunk|, 2), chunk);
    if |chunk| <= MAX_PROMPT_CHUNK {
      U16BeBytes(|chunk|);
    }
  }

  lemma IdCanonical(body: seq<u8>, id: u32)
    ensures IdOf(body) == Ok(id) <==> body == BeBytes(id, 4)
  {
    hide U32Be, BeBytes;
    U32BeBytes(id);
  }

  /**
   The client codec is canonical: a payload decodes to a request exactly when it is
   that request's encoding and the request is within its ceilings.
   */
  lemma ClientCanonical(payload: Slice, m: ClientRequest)
    ensures ClientRequestOf(payload) == Ok(m) <==> payload == ClientRequestBytes(m) && ClientWithin(m)
  {
    hide BeginOf, ChunkOf, IdOf, BeBytes, BeginBytes;
    var bytes := ClientRequestBytes(m);
    if payload != [] {
      var body := payload[1..];
      assert payload == [payload[0]] + body;
      match m
      case Begin(begin) =>
        BeginCanonical(body, begin);
        assert bytes[1..] == BeginBytes(begin);
      case PromptChunk(id, chunk) =>
        ChunkCanonical(body, id, chunk);
        assert bytes[1..] == BeBytes(id, 4) + BeBytes(|chunk|, 2) + chunk;
      case InferCommit(id) =>
        IdCanonical(body, id);
        assert bytes[1..] == BeBytes(id, 4);
      case Cancel(id) =>
        IdCanonical(body, id);
        assert bytes[1..] == BeBytes(id, 4);
      case Close =>
    }
  }

  lemma EnrollCanonical(body: seq<u8>, id: u32, role: Role, key: Bytes32)
    ensures EnrollOf(body) == Ok(EnrollKey(id, role, key)) <==> body == BeBytes(id, 4) + [RoleByte(role)] + key
  {
    hide U32Be, BeBytes;
    U32BeBytes(id);
    var bytes := BeBytes(id, 4) + [RoleByte(role)] + key;
    assert bytes[..4] == BeBytes(id, 4) && bytes[4] == RoleByte(role) && bytes[5..37] == key;
    if |body| == 37 {
      assert body == body[..4] + [body[4]] + body[5..37];
    }
  }

  lemma RevokeCanonical(body: seq<u8>, id: u32, handle: Bytes16)
    ensures RevokeOf(body) == Ok(RevokeKey(id, handle)) <==> body == BeBytes(id, 4) + handle
  {
    hide U32Be, BeBytes;
    U32BeBytes(id);
    var bytes := BeBytes(id, 4) + handle;
    assert bytes[..4] == BeBytes(id, 4) && bytes[4..20] == handle;
    if |body| == 20 {
      assert body == body[..4] + body[4..20];
    }
  }

  lemma LoadCanonical(body: seq<u8>, id: u32, digest: Bytes32)
    ensures LoadOf(body) == Ok(LoadWeights(id, digest)) <==> body == BeBytes(id, 4) + digest
  {
    hide U32Be, BeBytes;
    U32BeBytes(id);
    var bytes := BeBytes(id, 4) + digest;
    assert bytes[..4] == BeBytes(id, 4) && bytes[4..36] == digest;
    if |body| == 36 {
      assert body == body[..4] + body[4..36];
    }
  }

  lemma AuditCanonical(body: seq<u8>, id: u32, cursor: u64, maxRecords: u16)
    ensures AuditOf(body) == Ok(ReadAuditLog(id, cursor, maxRecords)) <==>
      body == BeBytes(id, 4) + BeBytes(cursor, 8) + BeBytes(maxRecords, 2) && maxRecords <= MAX_AUDIT_RECORDS
  {
    hide U16Be, U32Be, U64Be, BeBytes;
    U32BeBytes(id);
    U64BeBytes(cursor);
    U16BeBytes(maxRecords);
    var bytes := BeBytes(id, 4) + BeBytes(cursor, 8) + BeBytes(maxRecords, 2);
    assert bytes[..4] == BeBytes(id, 4);
    assert bytes[4..12] == BeBytes(cursor, 8) && bytes[12..14] == BeBytes(maxRecords, 2);
    if |body| == 14 {
      assert body == body[..4] + body[4..12] + body[12..14];
    }
  }

  lemma RestartCanonical(body: seq<u8>, id: u32, target: RestartTarget)
    ensures RestartOf(body) == Ok(RestartServer(id, target)) <==> body == BeBytes(id, 4) + [TargetByte(target)]
  {
    hide U32Be, BeBytes;
    U32BeBytes(id);
    var bytes := BeBytes(id, 4) + [TargetByte(target)];
    assert bytes[..4] == BeBytes(id, 4) && bytes[4] == TargetByte(target);
    if |body| == 5 {
      assert body == body[..4] + [body[4]];
    }
  }

  /** The admin codec is canonical in the same sense. */
  lemma AdminCanonical(payload: Slice, m: AdminVerb)
    ensures AdminVerbOf(payload) == Ok(m) <==> payload == AdminVerbBytes(m) && AdminWithin(m)
  {
    hide EnrollOf, RevokeOf, LoadOf, AuditOf, RestartOf, IdOf, BeBytes;
    var bytes := AdminVerbBytes(m);
    if payload != [] {
      var body := payload[1..];
      assert payload == [payload[0]] + body;
      match m
      case EnrollKey(id, role, key) =>
        EnrollCanonical(body, id, role, key);
        assert bytes[1..] == BeBytes(id, 4) + [RoleByte(role)] + key;
      case RevokeKey(id, handle) =>
        RevokeCanonical(body, id, handle);
        assert bytes[1..] == BeBytes(id, 4) + handle;
      case LoadWeights(id, digest) =>
        LoadCanonical(body, id, digest);
        assert bytes[1..] == BeBytes(id, 4) + digest;
      case ReadAuditLog(id, cursor, maxRecords) =>
        AuditCanonical(body, id, cursor, maxRecords);
        assert bytes[1..] == BeBytes(id, 4) + BeBytes(cursor, 8) + BeBytes(maxRecords, 2);
      case RestartServer(id, target) =>
        RestartCanonical(body, id, target);
        assert bytes[1..] == BeBytes(id, 4) + [TargetByte(target)];
      case Reboot(id) =>
        IdCanonical(body, id);
        assert bytes[1..] == BeBytes(id, 4);
    }
  }

  /** Decoding is injective, and no payload is a message of both session types. */
  lemma DecodingIsUnambiguous(a: Slice, b: Slice)
    ensures ClientRequestOf(a).Ok? && ClientRequestOf(a) == ClientRequestOf(b) ==> a == b
    ensures AdminVerbOf(a).Ok? && AdminVerbOf(a) == AdminVerbOf(b) ==> a == b
    ensures !(ClientRequestOf(a).Ok? && AdminVerbOf(a).Ok?)
  {
    hide ClientRequestBytes, AdminVerbBytes, BeginOf, ChunkOf, IdOf, EnrollOf, RevokeOf, LoadOf, AuditOf, RestartOf;
    if ClientRequestOf(a).Ok? && ClientRequestOf(a) == ClientRequestOf(b) {
      ClientCanonical(a, ClientRequestOf(a).value);
      ClientCanonical(b, ClientRequestOf(a).value);
    }
    if AdminVerbOf(a).Ok? && AdminVerbOf(a) == AdminVerbOf(b) {
      AdminCanonical(a, AdminVerbOf(a).value);
      AdminCanonical(b, AdminVerbOf(a).value);
    }
  }
}
