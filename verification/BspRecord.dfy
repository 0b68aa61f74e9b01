/** The BSP v2 data-record layer: splitting, padding, framing, and the sequence counter. */
module BspRecord {
  import opened Results
  import opened Bytes
  import opened BspWire

  const MIN_PACKET_LENGTH: int := 2
  const MAX_PACKET_LENGTH: int := 35000
  const LENGTH_PREFIX: int := 4
  const TAG_BYTES: int := 16
  const BLOCK: int := 8
  const MIN_PADDING: int := 4

  type PacketLength = n: u32 | MIN_PACKET_LENGTH <= n <= MAX_PACKET_LENGTH witness 2

  /** The range check on a decrypted length; it sees no buffer. */
  function PacketLengthOf(field: seq<u8>): (r: Result<PacketLength, BspError>)
    requires |field| == 4
    ensures r.Ok? <==> MIN_PACKET_LENGTH <= U32Be(field) <= MAX_PACKET_LENGTH
    ensures r.Ok? ==> r.value == U32Be(field)
  {
    var value := U32Be(field);
    if value < MIN_PACKET_LENGTH then Err(PacketLengthBelowMinimum) else
    if value > MAX_PACKET_LENGTH then Err(PacketLengthAboveMaximum) else
    Ok(value)
  }

  datatype DataRecord = DataRecord(ciphertext: seq<u8>, tag: seq<u8>, totalLength: nat)

  /** Splits one record off the front of a stream, exactly when it has wholly arrived. */
  function SplitDataRecord(stream: Slice, length: PacketLength): (r: Result<DataRecord, BspError>)
    ensures r.Ok? <==> LENGTH_PREFIX + length + TAG_BYTES <= |stream|
    ensures r.Ok? ==>
      && |r.value.ciphertext| == length && |r.value.tag| == TAG_BYTES
      && r.value.totalLength == LENGTH_PREFIX + length + TAG_BYTES
      && stream[..r.value.totalLength] == stream[..LENGTH_PREFIX] + r.value.ciphertext + r.value.tag
    ensures r.Err? ==> r.error == RecordExceedsAvailableBytes
  {
    var totalLength := length + LENGTH_PREFIX + TAG_BYTES;
    var ciphertextEnd := LENGTH_PREFIX + length;
    var ciphertext :- Get(stream, LENGTH_PREFIX, ciphertextEnd).OkOr(RecordExceedsAvailableBytes);
    var tag :- Get(stream, ciphertextEnd, totalLength).OkOr(RecordExceedsAvailableBytes);
    Ok(DataRecord(ciphertext, tag, totalLength))
  }

  // ---- Padding --------------------------------------------------------------

  /** The block-arithmetic padding: the least count of at least 4 that fills the last block. */
  function PaddingFor(payloadLength: nat): (padding: nat)
    ensures MIN_PADDING <= padding < MIN_PADDING + BLOCK
    ensures (1 + payloadLength + padding) % BLOCK == 0
  {
    var minimum := payloadLength + 1 + MIN_PADDING;
    var blocks := (minimum + BLOCK - 1) / BLOCK;
    blocks * BLOCK - payloadLength - 1
  }

  lemma PaddingUnique(payloadLength: nat, padding: nat)
    requires MIN_PADDING <= padding < MIN_PADDING + BLOCK && (1 + payloadLength + padding) % BLOCK == 0
    ensures padding == PaddingFor(payloadLength)
  {
  }

  function Frame(payload: seq<u8>): (plaintext: seq<u8>) {
    var padding := PaddingFor(|payload|);
    [padding] + payload + Zeros(padding)
  }

  /** The corpus generator's framing, which counts its padding up one at a time. */
  method FramePlaintext(payload: seq<u8>) returns (plaintext: seq<u8>)
    ensures plaintext == Frame(payload)
  {
    var padding := MIN_PADDING;
    while (1 + |payload| + padding) % BLOCK != 0
      invariant MIN_PADDING <= padding <= PaddingFor(|payload|)
      decreases PaddingFor(|payload|) - padding
    {
      padding := padding + 1;
    }
    PaddingUnique(|payload|, padding);
    plaintext := [padding] + payload + Zeros(padding);
  }

  // ---- Decoding ---------------------------------------------------------------

  function DecodePlaintext(plaintext: Slice, length: PacketLength): (r: Result<seq<u8>, BspError>)
  {
    if |plaintext| != length then Err(RecordPlaintextLengthMismatch) else
    if |plaintext| % BLOCK != 0 then Err(RecordPlaintextNotBlockAligned) else
    var padding := plaintext[0];
    if padding + 1 > |plaintext| then Err(PaddingLengthExceedsPacket) else
    if padding < MIN_PADDING then Err(PaddingBelowMinimum) else
    var payload := plaintext[1..|plaintext| - padding];
    if |payload| > MAX_RECORD_PLAINTEXT then Err(PayloadExceedsRecordPlaintext) else
    Ok(payload)
  }

  /** `plaintext` is a payload framed by some padding of at least 4 bytes. */
  ghost predicate FramedBy(plaintext: seq<u8>, payload: seq<u8>, padding: seq<u8>) {
    MIN_PADDING <= |padding| < TWO_8 && plaintext == [|padding|] + payload + padding
  }

  /** Exactly the block-aligned framings of a payload of at most 4096 bytes decode, and to that payload. */
  lemma DecodeMeaning(plaintext: Slice, length: PacketLength, payload: seq<u8>)
    ensures DecodePlaintext(plaintext, length) == Ok(payload) <==>
      && |plaintext| == length && |plaintext| % BLOCK == 0 && |payload| <= MAX_RECORD_PLAINTEXT
      && exists padding: seq<u8> :: FramedBy(plaintext, payload, padding)
  {
    if DecodePlaintext(plaintext, length) == Ok(payload) {
      var pad := plaintext[0];
      var padding := plaintext[|plaintext| - pad..];
      assert plaintext == [pad] + payload + padding;
      assert FramedBy(plaintext, payload, padding);
    }
    forall padding: seq<u8> | FramedBy(plaintext, payload, padding)
      ensures plaintext[0] == |padding| && plaintext[1..|plaintext| - |padding|] == payload
    {
    }
  }

  /** Every framed payload of at most 4096 bytes decodes to itself. */
  lemma FramingRoundTrip(payload: seq<u8>)
    requires |payload| <= MAX_RECORD_PLAINTEXT
    ensures MIN_PACKET_LENGTH <= |Frame(payload)| <= MAX_PACKET_LENGTH
    ensures DecodePlaintext(Frame(payload), |Frame(payload)|) == Ok(payload)
  {
    hide DecodePlaintext;
    var padding := Zeros(PaddingFor(|payload|));
    assert FramedBy(Frame(payload), payload, padding);
    DecodeMeaning(Frame(payload), |Frame(payload)|, payload);
  }

  // ---- Encoding into a caller's buffer --------------------------------------------

  /** Appends zero bytes one at a time; stops where the buffer does. */
  method WritePadding(writer: ResponseWriter, count: nat) returns (r: Result<(), BspError>)
    requires writer.Valid()
    modifies writer`written, writer.buffer
    ensures writer.Valid()
    ensures r == if old(writer.written) + count <= writer.buffer.Length then Ok(()) else Err(OutputBufferTooSmall)
    ensures r.Ok? ==> writer.written == old(writer.written) + count
    ensures r.Ok? ==> writer.buffer[..writer.written] == old(writer.buffer[..writer.written]) + Zeros(count)
    ensures r.Ok? ==> forall k :: writer.written <= k < writer.buffer.Length ==>
                                    writer.buffer[k] == old(writer.buffer[k])
  {
    ghost var start, before := writer.written, writer.buffer[..];
    var done := 0;
    while done < count
      invariant 0 <= done <= count && writer.Valid() && writer.written == start + done
      invariant writer.buffer[..writer.written] == before[..start] + Zeros(done)
      invariant forall k :: writer.written <= k < writer.buffer.Length ==> writer.buffer[k] == before[k]
    {
      var _ :- writer.PushBytes([0]);
      done := done + 1;
    }
    return Ok(());
  }

  /**
   Frames a payload into a caller's buffer. It denies exactly when the payload is
   over the record bound or the buffer is shorter than the frame; otherwise the
   frame is written and every byte past it is untouched.
   */
  method EncodeRecordPlaintext(payload: seq<u8>, out: array<u8>) returns (r: Result<nat, BspError>)
    modifies out
    ensures r == if |payload| > MAX_RECORD_PLAINTEXT then Err(PayloadExceedsRecordPlaintext)
                 else if |Frame(payload)| > out.Length then Err(OutputBufferTooSmall)
                 else Ok(|Frame(payload)|)
    ensures r.Ok? ==> out[..r.value] == Frame(payload)
    ensures r.Ok? ==> forall k :: r.value <= k < out.Length ==> out[k] == old(out[k])
  {
    if |payload| > MAX_RECORD_PLAINTEXT {
      return Err(PayloadExceedsRecordPlaintext);
    }
    var padding := PaddingFor(|payload|);
    var writer := new ResponseWriter(out);
    var _ :- writer.PushBytes([padding]);
    var _ :- writer.PushBytes(payload);
    var _ :- WritePadding(writer, padding);
    return Ok(writer.written);
  }

  // ---- The sequence counter ---------------------------------------------------------

  const MAX_RECORD_SEQ: int := 0xFFFF_FFFF

  class SequenceCounter {
    var value: u32

    constructor ()
      ensures value == 0
    {
      value := 0;
    }

    /** Adds exactly one, or denies and stays; it never wraps. */
    method Advance() returns (r: Result<(), BspError>)
      modifies this
      ensures r == if old(value) < MAX_RECORD_SEQ then Ok(()) else Err(SequenceExhausted)
      ensures value == if r.Ok? then old(value) + 1 else old(value)
      ensures r.Ok? ==> Nonce() != old(Nonce())
    {
      if value >= MAX_RECORD_SEQ {
        return Err(SequenceExhausted);
      }
      value := value + 1;
      if Nonce() == old(Nonce()) {
        NonceInjective(value, old(value));
      }
      return Ok(());
    }

    function Nonce(): (nonce: seq<u8>)
      reads this
    {
      NonceOf(value)
    }
  }

  function NonceOf(sequence: u32): (nonce: seq<u8>)
    ensures |nonce| == 8
  {
    BeBytes(sequence, 8)
  }

  /** Four zero bytes, then the sequence number most significant byte first. */
  lemma NonceLayout(sequence: u32)
    ensures var nonce := NonceOf(sequence);
      var a: int, b: int, c: int, d: int := nonce[4], nonce[5], nonce[6], nonce[7];
      nonce[..4] == [0, 0, 0, 0] && sequence == 0x100_0000 * a + 0x1_0000 * b + 0x100 * c + d
  {
    hide BeValue;
    var nonce := NonceOf(sequence);
    PowWidths();
    BeRoundTrip(sequence, 4);
    HighBytes(sequence);
    ByteOrder(BeBytes(sequence, 4));
  }

  lemma HighBytes(sequence: u32)
    ensures BeBytes(sequence, 8) == [0, 0, 0, 0] + BeBytes(sequence, 4)
  {
    var a, b, c := sequence / 0x100, sequence / 0x1_0000, sequence / 0x100_0000;
    assert a / 0x100 == b && b / 0x100 == c && c / 0x100 == 0;
    assert BeBytes(0, 4) == [0, 0, 0, 0] by { assert BeBytes(0, 2) == [0, 0] && BeBytes(0, 3) == [0, 0, 0]; }
    assert BeBytes(c, 5) == BeBytes(0, 4) + [c % 0x100] && BeBytes(c, 1) == [c % 0x100];
    assert BeBytes(b, 6) == BeBytes(c, 5) + [b % 0x100] && BeBytes(b, 2) == BeBytes(c, 1) + [b % 0x100];
    assert BeBytes(a, 7) == BeBytes(b, 6) + [a % 0x100] && BeBytes(a, 3) == BeBytes(b, 2) + [a % 0x100];
  }

  /** Different sequence numbers never share a nonce. */
  lemma NonceInjective(a: u32, b: u32)
    requires NonceOf(a) == NonceOf(b)
    ensures a == b
  {
    PowWidths();
    BeRoundTrip(a, 8);
    BeRoundTrip(b, 8);
  }
}
