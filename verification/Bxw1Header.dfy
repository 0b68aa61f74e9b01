/** The BXW1 weight-blob header: constants, denials, and the 256-byte decoder. */
module Bxw1Header {
  import opened Results
  import opened Bytes

  datatype Bxw1Error =
    | EmptyBlob | BlobTooSmallForHeader | BlobExceedsMaxSize | BlobExceedsRegionCapacity
    | BadMagic | UnsupportedVersion | ReservedFlagBitSet | ZeroTensorCount | TensorCountExceedsCeiling
    | TotalSizeBelowHeader | TotalSizeExceedsMaxSize | TotalSizeExceedsRegionCapacity | TotalSizeMismatch
    | TensorTableOffsetNot256 | TensorTableExceedsBlob | TensorDataOffsetMisaligned
    | TensorDataOffsetBeforeTable | TensorDataOffsetPastBlob | TableToDataGapTooLarge
    | TensorDataExtentOverflow | TensorDataExtentNotBlobEnd | ReservedHeaderFieldNonZero
    | UnknownArchId | NLayersOutOfRange | DModelOutOfRange | NHeadsOutOfRange | NKvHeadsOutOfRange
    | DHeadOutOfRange | DFfnOutOfRange | VocabSizeOutOfRange | MaxSeqLenOutOfRange
    | KvHeadsExceedHeads | HeadsNotDivisibleByKvHeads | HeadWidthNotDModel
    | RopeDimOutOfRange | RopeDimOdd | RopePairingUnspecified | UnknownRopePairing
    | InvalidRopeTheta | RopeThetaOutOfRange | InvalidNormEps | NormEpsOutOfRange
    | BosTokenOutOfRange | EosTokenOutOfRange | VocabLenZero | VocabLenExceedsCeiling
    | TensorCountNotArchRequired | TensorTableDigestMismatch
    | NameNotTerminated | NameEmpty | NameNonZeroAfterTerminator | NameNotPrintableAscii
    | DuplicateTensorName | UnknownTensorName | MissingRequiredTensor | TiedOutputWeightPresent
    | UnknownDtype | DtypeNotPermittedForName | ZeroRank | RankExceedsCeiling | ZeroDimension
    | UnusedDimensionNonZero | DimensionExceedsCeiling | ElementProductOverflow
    | ElementCountExceedsCeiling | LastDimensionNotBlockAligned | DeclaredLengthMismatch
    | DataOffsetMisaligned | ExtentOverflow | ExtentBeforeDataRegion | ExtentPastBlob
    | ExtentPastDataRegion | ExtentExceedsRegionCapacity | FirstExtentNotAtDataStart
    | OverlappingExtents | ExcessiveExtentGap | TrailingBytesAfterLastExtent
    | NonZeroPadByte | ReservedRecordFieldNonZero | TensorDigestMismatch | InvalidQ8Scale
    | NonFiniteF32Element | ShapeDisagreesWithHeader | TensorIndexOutOfRange | TensorNameNotFound

  const HEADER_BYTES: int := 256
  const RECORD_BYTES: int := 160
  const MAX_TENSORS: int := 4096
  const ALIGN: int := 128
  const MAX_BLOB_BYTES: int := 23_622_320_128
  const MAX_LAYERS: int := 128
  const MAX_D_MODEL: int := 16384
  const MAX_HEADS: int := 256
  const MAX_D_HEAD: int := 512
  const MAX_D_FFN: int := 65536
  const MAX_VOCAB: int := 0x10_0000
  const MAX_SEQ_LEN: int := 0x2_0000
  const MAX_VOCAB_BLOB_BYTES: int := 0x400_0000
  const TENSORS_PER_LAYER: int := 9

  type Digest = d: seq<u8> | |d| == 32 witness Zeros(32)

  function DigestAt(s: seq<u8>, at: nat): (d: Digest)
    requires at + 32 <= |s|
  {
    s[at..at + 32]
  }

  datatype RopePairing = Interleaved | HalfSplit

  datatype Header = Header(
    tiedOutput: bool, tensorCount: u32,
    totalSize: u64, tensorDataOff: u64, tensorDataLen: u64, tableDigest: Digest,
    dims: Dimensions, rope: Rope, bosTokenId: u32, eosTokenId: u32, vocabDigest: Digest, vocabLen: u64)

  datatype Dimensions = Dimensions(
    nLayers: u32, dModel: u32, nHeads: u32, nKvHeads: u32, dHead: u32, dFfn: u32, vocabSize: u32, maxSeqLen: u32)

  /** `theta` and `normEps` are kept as binary32 bit patterns. */
  datatype Rope = Rope(theta: u32, normEps: u32, dim: u32, pairing: RopePairing)

  datatype Identity = Identity(flags: u32, tensorCount: u32)

  datatype Layout = Layout(totalSize: u64, tensorDataOff: u64, tensorDataLen: u64, tableDigest: Digest)

  /** The byte just past the tensor table. */
  function TableEnd(tensorCount: u32): (end: u64) {
    HEADER_BYTES + tensorCount * RECORD_BYTES
  }

  /** The least multiple of 128 at or above `value`. */
  function RoundUp(value: nat): (r: nat)
    ensures r % ALIGN == 0 && value <= r < value + ALIGN
    ensures value % ALIGN == 0 ==> r == value
  {
    var raised := value + (ALIGN - 1);
    raised - raised % ALIGN
  }

  lemma RoundUpUnique(value: nat, aligned: nat)
    requires aligned % ALIGN == 0 && value <= aligned < value + ALIGN
    ensures aligned == RoundUp(value)
  {
    var raised := value + (ALIGN - 1);
    var blocks := aligned / ALIGN;
    assert aligned == ALIGN * blocks && ALIGN * blocks <= raised < ALIGN * blocks + ALIGN;
    assert raised / ALIGN == blocks;
  }

  /** +0.0 or a positive finite normal, decided on the bit pattern. */
  predicate IsPositiveFinite(bits: u32) {
    bits == 0 || 0x0080_0000 <= bits <= 0x7F7F_FFFF
  }

  /** The same with the sign bit ignored. */
  predicate IsFiniteElement(bits: u32) {
    IsPositiveFinite(bits % 0x8000_0000)
  }

  /** The same by the fields of a binary32: sign, exponent and fraction. */
  lemma FiniteByFields(bits: u32)
    ensures var sign, exponent, fraction := bits / 0x8000_0000, bits / 0x80_0000 % 0x100, bits % 0x80_0000;
      var normalOrZero := 1 <= exponent <= 254 || (exponent == 0 && fraction == 0);
      && (IsPositiveFinite(bits) <==> sign == 0 && normalOrZero)
      && (IsFiniteElement(bits) <==> normalOrZero)
  {
  }

  function ReadIdentity(blob: Slice): (r: Result<Identity, Bxw1Error>)
    requires |blob| >= HEADER_BYTES
    ensures r.Ok? ==> r.value.flags <= 1 && 1 <= r.value.tensorCount <= MAX_TENSORS
    ensures r != Err(MissingRequiredTensor)
  {
    hide U16At, U32At;
    if blob[0..4] != Ascii("BXW1") then Err(BadMagic) else
    if U16At(blob, 4) != 1 || U16At(blob, 6) != 0 then Err(UnsupportedVersion) else
    var flags := U32At(blob, 8);
    if flags > 1 then Err(ReservedFlagBitSet) else
    var tensorCount := U32At(blob, 12);
    if tensorCount == 0 then Err(ZeroTensorCount) else
    if tensorCount > MAX_TENSORS then Err(TensorCountExceedsCeiling) else
    Ok(Identity(flags, tensorCount))
  }

  /** The table, a pad under 128 bytes, and a data region that ends with the blob. */
  ghost predicate LayoutValid(layout: Layout, length: u64, capacity: u64, tensorCount: u32) {
    && layout.totalSize == length <= capacity && length <= MAX_BLOB_BYTES
    && TableEnd(tensorCount) <= layout.tensorDataOff < length
    && layout.tensorDataOff == RoundUp(TableEnd(tensorCount))
    && layout.tensorDataOff + layout.tensorDataLen == length
  }

  function ReadLayout(blob: Slice, length: u64, capacity: u64, tensorCount: u32): (r: Result<Layout, Bxw1Error>)
    requires |blob| >= HEADER_BYTES
    ensures r.Ok? ==> LayoutValid(r.value, length, capacity, tensorCount)
    ensures r != Err(MissingRequiredTensor)
  {
    hide U64At, DigestAt;
    var totalSize := U64At(blob, 16);
    if totalSize < HEADER_BYTES then Err(TotalSizeBelowHeader) else
    if totalSize > MAX_BLOB_BYTES then Err(TotalSizeExceedsMaxSize) else
    if totalSize > capacity then Err(TotalSizeExceedsRegionCapacity) else
    if totalSize != length then Err(TotalSizeMismatch) else
    if U64At(blob, 24) != HEADER_BYTES then Err(TensorTableOffsetNot256) else
    var tableEnd := TableEnd(tensorCount);
    if tableEnd > totalSize then Err(TensorTableExceedsBlob) else
    var dataOff := U64At(blob, 32);
    if dataOff % ALIGN != 0 then Err(TensorDataOffsetMisaligned) else
    if dataOff < tableEnd then Err(TensorDataOffsetBeforeTable) else
    if dataOff >= totalSize then Err(TensorDataOffsetPastBlob) else
    if dataOff - tableEnd > ALIGN - 1 then Err(TableToDataGapTooLarge) else
    var dataLen := U64At(blob, 40);
    if dataOff + dataLen >= TWO_64 then Err(TensorDataExtentOverflow) else
    if dataOff + dataLen != totalSize then Err(TensorDataExtentNotBlobEnd) else
    if U64At(blob, 48) != 0 || U64At(blob, 56) != 0 then Err(ReservedHeaderFieldNonZero) else
    RoundUpUnique(tableEnd, dataOff);
    Ok(Layout(totalSize, dataOff, dataLen, DigestAt(blob, 64)))
  }

  function Bounded(blob: Slice, at: nat, ceiling: nat, outOfRange: Bxw1Error): (r: Result<u32, Bxw1Error>)
    requires at + 4 <= |blob|
    ensures r.Ok? ==> 1 <= r.value <= ceiling && r.value == U32At(blob, at)
    ensures r.Err? ==> r.error == outOfRange && !(1 <= U32At(blob, at) <= ceiling)
  {
    var value := U32At(blob, at);
    if value == 0 || value > ceiling then Err(outOfRange) else Ok(value)
  }

  ghost predicate DimensionsValid(d: Dimensions) {
    && 1 <= d.nLayers <= MAX_LAYERS && 1 <= d.dModel <= MAX_D_MODEL
    && 1 <= d.nKvHeads <= d.nHeads <= MAX_HEADS && 1 <= d.dHead <= MAX_D_HEAD
    && 1 <= d.dFfn <= MAX_D_FFN && 1 <= d.vocabSize <= MAX_VOCAB && 1 <= d.maxSeqLen <= MAX_SEQ_LEN
    && d.nHeads % d.nKvHeads == 0 && d.nHeads * d.dHead == d.dModel
  }

  function ReadDimensions(blob: Slice): (r: Result<Dimensions, Bxw1Error>)
    requires |blob| >= HEADER_BYTES
    ensures r.Ok? ==> DimensionsValid(r.value)
    ensures r != Err(MissingRequiredTensor)
  {
    hide Bounded;
    var nLayers :- Bounded(blob, 100, MAX_LAYERS, NLayersOutOfRange);
    var dModel :- Bounded(blob, 104, MAX_D_MODEL, DModelOutOfRange);
    var nHeads :- Bounded(blob, 108, MAX_HEADS, NHeadsOutOfRange);
    var nKvHeads :- Bounded(blob, 112, MAX_HEADS, NKvHeadsOutOfRange);
    var dHead :- Bounded(blob, 116, MAX_D_HEAD, DHeadOutOfRange);
    var dFfn :- Bounded(blob, 120, MAX_D_FFN, DFfnOutOfRange);
    var vocabSize :- Bounded(blob, 124, MAX_VOCAB, VocabSizeOutOfRange);
    var maxSeqLen :- Bounded(blob, 128, MAX_SEQ_LEN, MaxSeqLenOutOfRange);
    if nKvHeads > nHeads then Err(KvHeadsExceedHeads) else
    if nHeads % nKvHeads != 0 then Err(HeadsNotDivisibleByKvHeads) else
    if nHeads * dHead != dModel then Err(HeadWidthNotDModel) else
    Ok(Dimensions(nLayers, dModel, nHeads, nKvHeads, dHead, dFfn, vocabSize, maxSeqLen))
  }

  /** 1.0e2, 1.0e8, 1.0e-8 and 1.0e-1 as binary32 patterns; positive floats order as their patterns. */
  const THETA_MIN: int := 0x42C8_0000
  const THETA_MAX: int := 0x4CBE_BC20
  const EPS_MIN: int := 0x322B_CC77
  const EPS_MAX: int := 0x3DCC_CCCD

  function ReadRope(blob: Slice, dHead: u32): (r: Result<Rope, Bxw1Error>)
    requires |blob| >= HEADER_BYTES
    ensures r.Ok? ==>
      && 0 < r.value.dim <= dHead && r.value.dim % 2 == 0
      && IsPositiveFinite(r.value.theta) && IsPositiveFinite(r.value.normEps)
    ensures r != Err(MissingRequiredTensor)
  {
    hide U32At;
    var theta := U32At(blob, 132);
    if !IsPositiveFinite(theta) then Err(InvalidRopeTheta) else
    if theta < THETA_MIN || theta > THETA_MAX then Err(RopeThetaOutOfRange) else
    var normEps := U32At(blob, 136);
    if !IsPositiveFinite(normEps) then Err(InvalidNormEps) else
    if normEps < EPS_MIN || normEps > EPS_MAX then Err(NormEpsOutOfRange) else
    var dim := U32At(blob, 140);
    if dim == 0 || dim > dHead then Err(RopeDimOutOfRange) else
    if dim % 2 != 0 then Err(RopeDimOdd) else
    var pairing := U32At(blob, 152);
    if pairing == 0 then Err(RopePairingUnspecified) else
    if pairing == 1 then Ok(Rope(theta, normEps, dim, Interleaved)) else
    if pairing == 2 then Ok(Rope(theta, normEps, dim, HalfSplit)) else
    Err(UnknownRopePairing)
  }

  datatype Tokens = Tokens(bos: u32, eos: u32, vocabLen: u64)

  /** The special tokens lie in the vocabulary, whose blob has a bounded length; the rest is zero. */
  function ReadTokens(blob: Slice, vocabSize: u32): (r: Result<Tokens, Bxw1Error>)
    requires |blob| >= HEADER_BYTES
    ensures r.Ok? ==>
      && r.value.bos < vocabSize && r.value.eos < vocabSize
      && 0 < r.value.vocabLen <= MAX_VOCAB_BLOB_BYTES
    ensures r != Err(MissingRequiredTensor)
  {
    hide U32At, U64At, AllZero;
    var bos := U32At(blob, 144);
    if bos >= vocabSize then Err(BosTokenOutOfRange) else
    var eos := U32At(blob, 148);
    if eos >= vocabSize then Err(EosTokenOutOfRange) else
    if U32At(blob, 156) != 0 then Err(ReservedHeaderFieldNonZero) else
    var vocabLen := U64At(blob, 192);
    if vocabLen == 0 then Err(VocabLenZero) else
    if vocabLen > MAX_VOCAB_BLOB_BYTES then Err(VocabLenExceedsCeiling) else
    if !AllZero(blob[200..256]) then Err(ReservedHeaderFieldNonZero) else
    Ok(Tokens(bos, eos, vocabLen))
  }

  /** How many tensors the architecture requires. */
  function RequiredCount(nLayers: u32, tiedOutput: bool): (n: nat) {
    nLayers * TENSORS_PER_LAYER + if tiedOutput then 2 else 3
  }

  ghost predicate HeaderValid(h: Header, length: u64, capacity: u64) {
    && 1 <= h.tensorCount <= MAX_TENSORS
    && LayoutValid(Layout(h.totalSize, h.tensorDataOff, h.tensorDataLen, h.tableDigest),
                   length, capacity, h.tensorCount)
    && DimensionsValid(h.dims)
    && h.tensorCount == RequiredCount(h.dims.nLayers, h.tiedOutput)
  }

  /** Accepting a header means its layout, dimensions and tensor count are consistent. */
  function ParseHeader(blob: Slice, length: u64, capacity: u64): (r: Result<Header, Bxw1Error>)
    requires |blob| >= HEADER_BYTES
    ensures r.Ok? ==> HeaderValid(r.value, length, capacity)
    ensures r != Err(MissingRequiredTensor)
  {
    hide U32At, DigestAt, RequiredCount, ReadIdentity, ReadLayout, ReadDimensions, ReadRope, ReadTokens;
    hide LayoutValid, DimensionsValid;
    var identity :- ReadIdentity(blob);
    var layout :- ReadLayout(blob, length, capacity, identity.tensorCount);
    if U32At(blob, 96) != 1 then Err(UnknownArchId) else
    var dims :- ReadDimensions(blob);
    var rope :- ReadRope(blob, dims.dHead);
    var tokens :- ReadTokens(blob, dims.vocabSize);
    var tied := identity.flags % 2 == 1;
    if identity.tensorCount != RequiredCount(dims.nLayers, tied) then Err(TensorCountNotArchRequired) else
    Ok(Header(tied, identity.tensorCount, layout.totalSize, layout.tensorDataOff, layout.tensorDataLen,
              layout.tableDigest, dims, rope, tokens.bos, tokens.eos, DigestAt(blob, 160), tokens.vocabLen))
  }
}
