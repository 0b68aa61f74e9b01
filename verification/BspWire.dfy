/** BSP v2 denials and their dispositions, the bounds-checked reader, and the buffer writer. */
module BspWire {
  import opened Results
  import opened Bytes

  datatype BspError =
    | OffsetOverflow | TruncatedMessageBody | TrailingBytesAfterBody
    | TruncatedVarBytesLength | VarBytesLengthExceedsMaximum | TruncatedVarBytesValue
    | ClientHelloLengthMismatch | ClientAuthLengthMismatch
    | BadMagic | UnsupportedVersionMajor | UnsupportedVersionMinor | ReservedFieldNonZero
    | HandshakeMessageInWrongState | EstablishBeforeAuthentication
    | PacketLengthBelowMinimum | PacketLengthAboveMaximum | RecordExceedsAvailableBytes
    | RecordPlaintextLengthMismatch | PaddingLengthExceedsPacket | PaddingBelowMinimum
    | RecordPlaintextNotBlockAligned | PayloadExceedsRecordPlaintext | SequenceExhausted
    | EmptyMessage | UnknownMessageType | WrongSessionTypeRange | WrongDirectionTag
    | MaxTokensExceedsLimit | PromptLengthExceedsLimit | RequestAlreadyInFlight | RequestIdMismatch
    | PromptChunkExceedsDeclaredLength | PromptChunkExceedsPromptBuffer | PromptIncomplete
    | MessageInvalidInState | DataMessageBeforeEstablished | SessionClosed
    | InvalidEnrollRole | UnknownRestartTarget | AuditRecordCountExceedsLimit
    | OutputBufferTooSmall | TokenChunkExceedsMaximum | AuditChunkExceedsMaximum | ResponseExceedsRecordPlaintext

  datatype Disposition = Drop | ErrorKeep

  datatype ErrorCode = Limit | Busy | NoRequest | Incomplete | State | BadTarget

  /** The code a denial is answered with, or none when the connection must drop. */
  function Code(e: BspError): (code: Option<ErrorCode>) {
    match e
    case MaxTokensExceedsLimit => Some(Limit)
    case PromptLengthExceedsLimit => Some(Limit)
    case AuditRecordCountExceedsLimit => Some(Limit)
    case RequestAlreadyInFlight => Some(Busy)
    case RequestIdMismatch => Some(NoRequest)
    case PromptIncomplete => Some(Incomplete)
    case MessageInvalidInState => Some(State)
    case UnknownRestartTarget => Some(BadTarget)
    case _ => None
  }

  function DispositionOf(e: BspError): (d: Disposition) {
    if Code(e).Some? then ErrorKeep else Drop
  }

  const MAX_PROMPT_BYTES: int := 16384
  const MAX_PROMPT_CHUNK: int := 4032
  const MAX_TOKEN_CHUNK: int := 512
  const MAX_TOKENS_REQUESTED: int := 4096
  const MAX_AUDIT_CHUNK: int := 1024
  const MAX_AUDIT_RECORDS: int := 64
  const MAX_RECORD_PLAINTEXT: int := 4096

  type Bytes16 = s: seq<u8> | |s| == 16 witness Zeros(16)
  type Bytes32 = s: seq<u8> | |s| == 32 witness Zeros(32)

  // ---- Reading ------------------------------------------------------------

  function U16Be(s: seq<u8>): (v: u16)
    requires |s| == 2
    ensures BeBytes(v, 2) == s
  {
    PowWidths();
    BeCanonical(s);
    BeValue(s)
  }

  function U32Be(s: seq<u8>): (v: u32)
    requires |s| == 4
    ensures BeBytes(v, 4) == s
  {
    PowWidths();
    BeCanonical(s);
    BeValue(s)
  }

  function U64Be(s: seq<u8>): (v: u64)
    requires |s| == 8
    ensures BeBytes(v, 8) == s
  {
    PowWidths();
    BeCanonical(s);
    BeValue(s)
  }

  lemma U16BeBytes(v: u16)
    ensures U16Be(BeBytes(v, 2)) == v
  {
    PowWidths();
    BeRoundTrip(v, 2);
  }

  lemma U32BeBytes(v: u32)
    ensures U32Be(BeBytes(v, 4)) == v
  {
    PowWidths();
    BeRoundTrip(v, 4);
  }

  lemma U64BeBytes(v: u64)
    ensures U64Be(BeBytes(v, 8)) == v
  {
    PowWidths();
    BeRoundTrip(v, 8);
  }

  /** A forward-only cursor; it advances only on a read that succeeds. */
  class FieldReader {
    const bytes: Slice
    var offset: usize

    ghost predicate Valid()
      reads this
    {
      offset <= |bytes|
    }

    ghost function Rest(): (rest: seq<u8>)
      requires Valid()
      reads this
    {
      bytes[offset..]
    }

    constructor (bytes: Slice)
      ensures Valid() && Rest() == bytes
    {
      this.bytes, this.offset := bytes, 0;
    }

    method Take(count: nat) returns (r: Result<seq<u8>, BspError>)
      requires Valid() && count < TWO_32
      modifies this
      ensures Valid()
      ensures r == if count <= |old(Rest())| then Ok(old(Rest())[..count]) else Err(TruncatedMessageBody)
      ensures Rest() == if r.Ok? then old(Rest())[count..] else old(Rest())
    {
      var end: usize := offset + count;
      if end > |bytes| {
        return Err(TruncatedMessageBody);
      }
      assert bytes[offset..end] == bytes[offset..][..count];
      r := Ok(bytes[offset..end]);
      offset := end;
    }

    method TakeU8() returns (r: Result<u8, BspError>)
      requires Valid()
      modifies this
      ensures Valid()
      ensures r == if 1 <= |old(Rest())| then Ok(old(Rest())[0]) else Err(TruncatedMessageBody)
      ensures Rest() == if r.Ok? then old(Rest())[1..] else old(Rest())
    {
      var field :- Take(1);
      return Ok(field[0]);
    }

    method TakeU16() returns (r: Result<u16, BspError>)
      requires Valid()
      modifies this
      ensures Valid()
      ensures r == if 2 <= |old(Rest())| then Ok(U16Be(old(Rest())[..2])) else Err(TruncatedMessageBody)
      ensures Rest() == if r.Ok? then old(Rest())[2..] else old(Rest())
    {
      var field :- Take(2);
      return Ok(U16Be(field));
    }

    method TakeU32() returns (r: Result<u32, BspError>)
      requires Valid()
      modifies this
      ensures Valid()
      ensures r == if 4 <= |old(Rest())| then Ok(U32Be(old(Rest())[..4])) else Err(TruncatedMessageBody)
      ensures Rest() == if r.Ok? then old(Rest())[4..] else old(Rest())
    {
      var field :- Take(4);
      return Ok(U32Be(field));
    }

    method TakeU64() returns (r: Result<u64, BspError>)
      requires Valid()
      modifies this
      ensures Valid()
      ensures r == if 8 <= |old(Rest())| then Ok(U64Be(old(Rest())[..8])) else Err(TruncatedMessageBody)
      ensures Rest() == if r.Ok? then old(Rest())[8..] else old(Rest())
    {
      var field :- Take(8);
      return Ok(U64Be(field));
    }

    /** Length prefix present, length within `maximum`, declared bytes present: in that order. */
    method TakeBoundedVarBytes(maximum: nat) returns (r: Result<seq<u8>, BspError>)
      requires Valid()
      modifies this
      ensures Valid()
      ensures r == VarBytes(old(Rest()), maximum)
      ensures r.Ok? ==> Rest() == old(Rest())[2 + |r.value|..]
    {
      if |bytes| - offset < 2 {
        return Err(TruncatedVarBytesLength);
      }
      ghost var rest := Rest();
      var prefix := Take(2);
      var declared := U16Be(prefix.value);
      if declared > maximum {
        return Err(VarBytesLengthExceedsMaximum);
      }
      if |bytes| - offset < declared {
        return Err(TruncatedVarBytesValue);
      }
      assert rest[2..][..declared] == rest[2..2 + declared];
      assert rest[2..][declared..] == rest[2 + declared..];
      r := Take(declared);
    }

    method Finish() returns (r: Result<(), BspError>)
      requires Valid()
      ensures r == if Rest() == [] then Ok(()) else Err(TrailingBytesAfterBody)
    {
      if offset == |bytes| {
        return Ok(());
      }
      return Err(TrailingBytesAfterBody);
    }
  }

  /** A length-prefixed field at the front of `rest`. */
  function VarBytes(rest: seq<u8>, maximum: nat): (r: Result<seq<u8>, BspError>)
    ensures r.Ok? ==> |r.value| <= maximum && 2 + |r.value| <= |rest| && rest[2..2 + |r.value|] == r.value
  {
    if |rest| < 2 then Err(TruncatedVarBytesLength) else
    var declared := U16Be(rest[..2]);
    if declared > maximum then Err(VarBytesLengthExceedsMaximum) else
    if |rest| - 2 < declared then Err(TruncatedVarBytesValue) else
    Ok(rest[2..2 + declared])
  }

  // ---- Writing ------------------------------------------------------------

  /** A forward-only cursor over a caller's buffer, which it never grows. */
  class ResponseWriter {
    const buffer: array<u8>
    var written: nat

    ghost predicate Valid()
      reads this
    {
      written <= buffer.Length
    }

    constructor (buffer: array<u8>)
      ensures Valid() && this.buffer == buffer && written == 0
    {
      this.buffer, this.written := buffer, 0;
    }

    /** Appends `value`, or denies and leaves the buffer as it was. */
    method PushBytes(value: seq<u8>) returns (r: Result<(), BspError>)
      requires Valid()
      modifies this`written, buffer
      ensures Valid()
      ensures r == if old(written) + |value| <= buffer.Length then Ok(()) else Err(OutputBufferTooSmall)
      ensures r.Ok? ==> written == old(written) + |value|
      ensures r.Ok? ==> buffer[..written] == old(buffer[..written]) + value
      ensures r.Ok? ==> forall k :: written <= k < buffer.Length ==> buffer[k] == old(buffer[k])
      ensures r.Err? ==> written == old(written) && buffer[..] == old(buffer[..])
    {
      if written + |value| > buffer.Length {
        return Err(OutputBufferTooSmall);
      }
      ghost var before := buffer[..];
      var start := written;
      written := written + |value|;
      for i := 0 to |value|
        invariant written == start + |value|
        invariant forall k :: 0 <= k < buffer.Length ==>
          buffer[k] == if start <= k < start + i then value[k - start] else before[k]
      {
        buffer[start + i] := value[i];
      }
      return Ok(());
    }
  }
}
