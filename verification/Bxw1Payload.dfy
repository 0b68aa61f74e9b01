/** The single left-to-right payload pass: pads, digests, contents, and the whole-blob hash. */
module Bxw1Payload {
  import opened Results
  import opened Bytes
  import opened Bxw1Header
  import opened Bxw1Table

  /** SHA-256, as a function the model does not look into. */
  type Hash = seq<u8> -> Digest

  /** A streaming hasher: its state is what it has absorbed. */
  class Hasher {
    const hash: Hash
    var absorbed: seq<u8>

    constructor (hash: Hash)
      ensures this.hash == hash && absorbed == []
    {
      this.hash, this.absorbed := hash, [];
    }

    method Update(bytes: seq<u8>)
      modifies this
      ensures absorbed == old(absorbed) + bytes
    {
      absorbed := absorbed + bytes;
    }

    method Finalize() returns (digest: Digest)
      ensures digest == hash(absorbed)
    {
      digest := hash(absorbed);
    }
  }

  /** The only denials the payload can raise once the structure holds. */
  predicate IsPayloadFault(error: Bxw1Error) {
    error.NonZeroPadByte? || error.TensorDigestMismatch? || error.InvalidQ8Scale? || error.NonFiniteF32Element?
  }

  // ---- Contents of one tensor ---------------------------------------------------

  function Word(bytes: seq<u8>, i: nat): (bits: u32)
    requires 4 * i + 4 <= |bytes|
  {
    U32At(bytes, 4 * i)
  }

  predicate AllElementsFinite(bytes: seq<u8>) {
    forall i :: 0 <= i < |bytes| / 4 ==> IsFiniteElement(Word(bytes, i))
  }

  predicate AllScalesPositive(bytes: seq<u8>) {
    forall i :: 0 <= i < |bytes| / 4 ==> IsPositiveFinite(Word(bytes, i))
  }

  /** Word `i` holds a zero or a normal finite number, by the exponent and fraction bits of its bytes. */
  ghost predicate FiniteWord(bytes: seq<u8>, i: nat)
    requires 4 * i + 4 <= |bytes|
  {
    var low, middle, high: int, top: int := bytes[4 * i], bytes[4 * i + 1], bytes[4 * i + 2], bytes[4 * i + 3];
    var exponent := top % 0x80 * 2 + high / 0x80;
    1 <= exponent <= 254 || (exponent == 0 && high % 0x80 == 0 && middle == 0 && low == 0)
  }

  ghost predicate PositiveWord(bytes: seq<u8>, i: nat)
    requires 4 * i + 4 <= |bytes|
  {
    bytes[4 * i + 3] < 0x80 && FiniteWord(bytes, i)
  }

  /** The fields of a binary32 by its bytes, least significant first. */
  lemma FieldsOfBytes(low: u8, middle: u8, high: u8, top: u8)
    ensures var a: int, b: int, c: int, d: int := low, middle, high, top;
      var bits := a + 0x100 * b + 0x1_0000 * c + 0x100_0000 * d;
      && bits / 0x8000_0000 == d / 0x80
      && bits / 0x80_0000 % 0x100 == d % 0x80 * 2 + c / 0x80
      && (bits % 0x80_0000 == 0 <==> c % 0x80 == 0 && b == 0 && a == 0)
      && (bits / 0x8000_0000 == 0 <==> d < 0x80)
  {
    var a: int, b: int, c: int, d: int := low, middle, high, top;
    var bits := a + 0x100 * b + 0x1_0000 * c + 0x100_0000 * d;
    var fraction, exponent, sign := c % 0x80 * 0x1_0000 + 0x100 * b + a, d % 0x80 * 2 + c / 0x80, d / 0x80;
    assert bits == sign * 0x8000_0000 + exponent * 0x80_0000 + fraction;
    assert 0 <= fraction < 0x80_0000 && 0 <= exponent < 0x100 && 0 <= sign < 2;
    assert bits / 0x80_0000 == sign * 0x100 + exponent && bits % 0x80_0000 == fraction;
  }

  lemma WordIsFinite(bytes: seq<u8>, i: nat)
    requires 4 * i + 4 <= |bytes|
    ensures IsFiniteElement(Word(bytes, i)) <==> FiniteWord(bytes, i)
    ensures IsPositiveFinite(Word(bytes, i)) <==> PositiveWord(bytes, i)
  {
    hide LeValue, U32At, IsFiniteElement, IsPositiveFinite;
    var word := bytes[4 * i..4 * i + 4];
    assert word[0] == bytes[4 * i] && word[1] == bytes[4 * i + 1];
    assert word[2] == bytes[4 * i + 2] && word[3] == bytes[4 * i + 3];
    ByteOrder(word);
    FieldsOfBytes(word[0], word[1], word[2], word[3]);
    FiniteByFields(Word(bytes, i));
  }

  /** The two content rules in bytes: exponents and fractions of every word, and the sign of a scale. */
  lemma ContentByBytes(bytes: seq<u8>)
    ensures AllElementsFinite(bytes) <==> forall i :: 0 <= i < |bytes| / 4 ==> FiniteWord(bytes, i)
    ensures AllScalesPositive(bytes) <==> forall i :: 0 <= i < |bytes| / 4 ==> PositiveWord(bytes, i)
  {
    hide Word, FiniteWord, PositiveWord, IsFiniteElement, IsPositiveFinite;
    forall i | 0 <= i < |bytes| / 4
      ensures IsFiniteElement(Word(bytes, i)) <==> FiniteWord(bytes, i)
      ensures IsPositiveFinite(Word(bytes, i)) <==> PositiveWord(bytes, i)
    {
      WordIsFinite(bytes, i);
    }
  }

  /** The first content rule a payload breaks. The quant plane is unconstrained. */
  function ContentFault(record: Record, payload: seq<u8>): (fault: Option<Bxw1Error>)
    requires RecordValid(record) && |payload| == record.dataLen
    ensures fault.Some? ==> IsPayloadFault(fault.value)
  {
    if record.dtype.F32? then
      if AllElementsFinite(payload) then None else Some(NonFiniteF32Element)
    else
      var scaleLen := ScaleLen(record.shape.elements);
      if !AllScalesPositive(payload[..scaleLen]) then Some(InvalidQ8Scale)
      else if !AllZero(payload[scaleLen..RoundUp(scaleLen)]) then Some(NonZeroPadByte)
      else None
  }

  /** The content rules, with no order among them. */
  ghost predicate ContentGood(record: Record, payload: seq<u8>) {
    if record.dtype.F32? then AllElementsFinite(payload)
    else
      var scaleLen := 4 * (record.shape.elements / 32);
      && RoundUp(scaleLen) <= |payload| && AllScalesPositive(payload[..scaleLen])
      && AllZero(payload[scaleLen..RoundUp(scaleLen)])
  }

  lemma ContentMeaning(record: Record, payload: seq<u8>)
    requires RecordValid(record) && |payload| == record.dataLen
    ensures ContentFault(record, payload).None? <==> ContentGood(record, payload)
  {
    hide AllElementsFinite, AllScalesPositive, AllZero, UsedSlotsOk, Product;
  }

  method VerifyContent(record: Record, payload: seq<u8>) returns (fault: Option<Bxw1Error>)
    requires RecordValid(record) && |payload| == record.dataLen
    ensures fault == ContentFault(record, payload)
  {
    hide U32At, RoundUp, DataLen;
    if record.dtype.F32? {
      for i := 0 to |payload| / 4
        invariant forall k :: 0 <= k < i ==> IsFiniteElement(Word(payload, k))
      {
        if !IsFiniteElement(Word(payload, i)) {
          return Some(NonFiniteF32Element);
        }
      }
      return None;
    }
    var scaleLen, quantOff := ScaleLen(record.shape.elements), RoundUp(ScaleLen(record.shape.elements));
    var scales := payload[..scaleLen];
    for i := 0 to |scales| / 4
      invariant forall k :: 0 <= k < i ==> IsPositiveFinite(Word(scales, k))
    {
      if !IsPositiveFinite(Word(scales, i)) {
        return Some(InvalidQ8Scale);
      }
    }
    if !AllZero(payload[scaleLen..quantOff]) {
      return Some(NonZeroPadByte);
    }
    return None;
  }

  // ---- The pass -------------------------------------------------------------------

  /** Valid records whose extents follow one another from `cursor` on, inside the blob. */
  ghost predicate Placed(blob: Slice, records: seq<Record>, cursor: nat)
    decreases |records|
  {
    && cursor <= |blob|
    && (records != [] ==>
          && RecordValid(records[0])
          && cursor <= records[0].dataOff && records[0].dataOff + records[0].dataLen <= |blob|
          && Placed(blob, records[1..], records[0].dataOff + records[0].dataLen))
  }

  /** The structural pass places every record. */
  lemma {:induction false} CanonicalIsPlaced(blob: Slice, table: Slice, lo: nat, hi: nat, cursor: nat)
    requires cursor <= |blob| && Canonical(table, lo, hi, RoundUp(cursor), |blob|)
    ensures AllDecode(table, lo, hi) && Placed(blob, Records(table, lo, hi), cursor)
    decreases hi - lo
  {
    hide DecodeRecord, RoundUp, RecordValid, Offsets, Lens;
    if lo < hi {
      assert Decodes(table, lo);
      var r := RecordAt(table, lo);
      var end := r.dataOff + r.dataLen;
      CanonicalStep(table, lo, hi, RoundUp(cursor), |blob|);
      CanonicalFits(table, lo + 1, hi, RoundUp(end), |blob|);
      CanonicalIsPlaced(blob, table, lo + 1, hi, end);
      assert Records(table, lo, hi)[1..] == Records(table, lo + 1, hi);
    }
  }

  function PadFault(blob: Slice, lo: nat, hi: nat): (fault: Option<Bxw1Error>)
    requires lo <= hi <= |blob|
  {
    if AllZero(blob[lo..hi]) then None else Some(NonZeroPadByte)
  }

  /** The first fault of one tensor: its digest, then its contents. */
  function TensorFault(hash: Hash, blob: Slice, record: Record): (fault: Option<Bxw1Error>)
    requires RecordValid(record) && record.dataOff + record.dataLen <= |blob|
    ensures fault.Some? ==> IsPayloadFault(fault.value)
  {
    var payload := blob[record.dataOff..record.dataOff + record.dataLen];
    if hash(payload) != record.digest then Some(TensorDigestMismatch) else ContentFault(record, payload)
  }

  /** The pad before a tensor, then the tensor. */
  function StepFault(hash: Hash, blob: Slice, cursor: nat, record: Record): (fault: Option<Bxw1Error>)
    requires RecordValid(record) && cursor <= record.dataOff && record.dataOff + record.dataLen <= |blob|
    ensures fault.Some? ==> IsPayloadFault(fault.value)
  {
    hide TensorFault, RecordValid;
    var pad := PadFault(blob, cursor, record.dataOff);
    if pad.Some? then pad else TensorFault(hash, blob, record)
  }

  /**
   The first fault from `cursor` on. Once the structure holds, the only denials left
   are a nonzero pad, a digest mismatch, a bad scale and a bad element.
   */
  ghost function PayloadFault(hash: Hash, blob: Slice, records: seq<Record>, cursor: nat): (fault: Option<Bxw1Error>)
    requires Placed(blob, records, cursor)
    ensures fault.Some? ==> IsPayloadFault(fault.value)
    decreases |records|
  {
    hide StepFault, RecordValid;
    if records == [] then PadFault(blob, cursor, |blob|)
    else
      var here := StepFault(hash, blob, cursor, records[0]);
      if here.Some? then here
      else PayloadFault(hash, blob, records[1..], records[0].dataOff + records[0].dataLen)
  }

  /** What the pass reports on placed records: the pad after the table, then the payload. */
  ghost function PassFault(hash: Hash, blob: Slice, records: seq<Record>, header: Header): (fault: Option<Bxw1Error>)
    requires TableEnd(header.tensorCount) <= header.tensorDataOff && Placed(blob, records, header.tensorDataOff)
    ensures fault.Some? ==> IsPayloadFault(fault.value)
  {
    hide PayloadFault;
    var gap := PadFault(blob, TableEnd(header.tensorCount), header.tensorDataOff);
    if gap.Some? then gap else PayloadFault(hash, blob, records, header.tensorDataOff)
  }

  /**
   The pass itself. Each byte of the blob is absorbed once, in order, so the digest
   it returns is the hash of the whole blob.
   */
  method Verify(hash: Hash, blob: Slice, table: Slice, header: Header) returns (r: Result<Digest, Bxw1Error>)
    requires TableEnd(header.tensorCount) <= header.tensorDataOff
    requires AllDecode(table, 0, header.tensorCount)
    requires Placed(blob, Records(table, 0, header.tensorCount), header.tensorDataOff)
    ensures
      var fault := PassFault(hash, blob, Records(table, 0, header.tensorCount), header);
      r == if fault.Some? then Err(fault.value) else Ok(hash(blob))
  {
    hide DecodeRecord, RecordValid, ContentFault, IsPayloadFault, StepFault;
    ghost var records := Records(table, 0, header.tensorCount);
    var whole := new Hasher(hash);
    if !AllZero(blob[TableEnd(header.tensorCount)..header.tensorDataOff]) {
      return Err(NonZeroPadByte);
    }
    whole.Update(blob[..header.tensorDataOff]);

    var cursor: u64 := header.tensorDataOff;
    var index: u32 := 0;
    assert records[0..] == records;
    while index < header.tensorCount
      invariant index <= header.tensorCount
      invariant Placed(blob, records[index..], cursor)
      invariant whole.hash == hash && whole.absorbed == blob[..cursor]
      invariant PayloadFault(hash, blob, records, header.tensorDataOff)
             == PayloadFault(hash, blob, records[index..], cursor)
    {
      assert records[index..][1..] == records[index + 1..];
      RecordsIndex(table, 0, header.tensorCount, index);
      var record := DecodeRecord(table, index).value;
      assert record == records[index..][0];
      var fault := VerifyStep(hash, blob, cursor, record, whole);
      if fault.Some? {
        return Err(fault.value);
      }
      cursor := record.dataOff + record.dataLen;
      index := index + 1;
    }
    assert records[index..] == [];
    var tail := blob[cursor..|blob|];
    if !AllZero(tail) {
      return Err(NonZeroPadByte);
    }
    whole.Update(tail);
    assert blob[..cursor] + tail == blob;
    var digest := whole.Finalize();
    return Ok(digest);
  }

  /** One iteration: the pad, the payload, its digest and its contents. */
  method VerifyStep(hash: Hash, blob: Slice, cursor: nat, record: Record, whole: Hasher)
    returns (fault: Option<Bxw1Error>)
    requires RecordValid(record) && cursor <= record.dataOff && record.dataOff + record.dataLen <= |blob|
    requires whole.absorbed == blob[..cursor]
    modifies whole
    ensures fault == StepFault(hash, blob, cursor, record)
    ensures fault.None? ==> whole.absorbed == blob[..record.dataOff + record.dataLen]
  {
    hide RecordValid, ContentFault;
    var padBytes := blob[cursor..record.dataOff];
    if !AllZero(padBytes) {
      return Some(NonZeroPadByte);
    }
    whole.Update(padBytes);
    var payload := blob[record.dataOff..record.dataOff + record.dataLen];
    whole.Update(payload);
    assert blob[..cursor] + padBytes + payload == blob[..record.dataOff + record.dataLen];
    if hash(payload) != record.digest {
      return Some(TensorDigestMismatch);
    }
    fault := VerifyContent(record, payload);
  }

  /** Where the bytes before record `i` end: the previous extent, or the start. */
  ghost function EndBefore(records: seq<Record>, cursor: nat, i: nat): (end: nat)
    requires i <= |records|
  {
    if i == 0 then cursor else records[i - 1].dataOff + records[i - 1].dataLen
  }

  /** The tensor's bytes hash to its digest and obey the content rules. */
  ghost predicate BytesGood(hash: Hash, blob: Slice, record: Record) {
    && record.dataOff + record.dataLen <= |blob|
    && var payload := blob[record.dataOff..record.dataOff + record.dataLen];
       hash(payload) == record.digest && ContentGood(record, payload)
  }

  lemma BytesMeaning(hash: Hash, blob: Slice, record: Record)
    requires RecordValid(record) && record.dataOff + record.dataLen <= |blob|
    ensures TensorFault(hash, blob, record).None? <==> BytesGood(hash, blob, record)
  {
    hide ContentFault, ContentGood, RecordValid;
    ContentMeaning(record, blob[record.dataOff..record.dataOff + record.dataLen]);
  }

  /** Record `i` fits, the pad before it is zero, and its digest and contents hold. */
  ghost predicate TensorGood(hash: Hash, blob: Slice, records: seq<Record>, cursor: nat, i: nat) {
    && i < |records| && RecordValid(records[i])
    && EndBefore(records, cursor, i) <= records[i].dataOff && records[i].dataOff + records[i].dataLen <= |blob|
    && AllZero(blob[EndBefore(records, cursor, i)..records[i].dataOff])
    && BytesGood(hash, blob, records[i])
  }

  /** Every tensor is good and nothing but zeros follows the last. */
  ghost predicate PayloadGood(hash: Hash, blob: Slice, records: seq<Record>, cursor: nat) {
    && (forall i: nat :: i < |records| ==> TensorGood(hash, blob, records, cursor, i))
    && EndBefore(records, cursor, |records|) <= |blob| && AllZero(blob[EndBefore(records, cursor, |records|)..])
  }

  lemma TensorGoodShift(hash: Hash, blob: Slice, records: seq<Record>, cursor: nat, i: nat)
    requires 0 < i < |records|
    ensures TensorGood(hash, blob, records, cursor, i)
       <==> TensorGood(hash, blob, records[1..], EndBefore(records, cursor, 1), i - 1)
  {
    hide RecordValid, BytesGood;
  }

  /** The pass finds no fault exactly when every pad is zero and every tensor is good. */
  lemma {:induction false} PayloadMeaning(hash: Hash, blob: Slice, records: seq<Record>, cursor: nat)
    requires Placed(blob, records, cursor)
    ensures PayloadFault(hash, blob, records, cursor).None? <==> PayloadGood(hash, blob, records, cursor)
    decreases |records|
  {
    hide RecordValid, TensorFault, BytesGood, AllZero;
    if records == [] {
      assert blob[cursor..|blob|] == blob[cursor..];
    } else {
      var next, rest := EndBefore(records, cursor, 1), records[1..];
      PayloadMeaning(hash, blob, rest, next);
      assert EndBefore(rest, next, |rest|) == EndBefore(records, cursor, |records|);
      BytesMeaning(hash, blob, records[0]);
      assert StepFault(hash, blob, cursor, records[0]).None? <==> TensorGood(hash, blob, records, cursor, 0);
      forall i: nat | 0 < i < |records|
        ensures TensorGood(hash, blob, records, cursor, i) <==> TensorGood(hash, blob, rest, next, i - 1)
      {
        TensorGoodShift(hash, blob, records, cursor, i);
      }
      assert (forall i: nat :: i < |rest| ==> TensorGood(hash, blob, rest, next, i))
        ==> forall i: nat :: 0 < i < |records| ==> TensorGood(hash, blob, records, cursor, i);
      forall i: nat | i < |rest| && TensorGood(hash, blob, records, cursor, i + 1)
        ensures TensorGood(hash, blob, rest, next, i)
      {
        TensorGoodShift(hash, blob, records, cursor, i + 1);
      }
    }
  }
}
