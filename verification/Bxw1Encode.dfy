/** The one byte spelling of a BXW1 header and of a tensor record, as a blob builder writes them. */
module Bxw1Encode {
  import opened Results
  import opened Bytes
  import opened Bxw1Header
  import opened Bxw1Table

  lemma Word16(s: seq<u8>, at: nat, v: u16, rest: seq<u8>)
    requires at + 2 <= |s|
    ensures Part(s, at, LeBytes(v, 2) + rest) <==> U16At(s, at) == v && Part(s, at + 2, rest)
  {
    hide LeBytes, LeValue;
    PowWidths();
    LeRoundTrip(v, 2);
    LeCanonical(s[at..at + 2]);
    PartSplit(s, at, LeBytes(v, 2), rest);
  }

  lemma Word32(s: seq<u8>, at: nat, v: u32, rest: seq<u8>)
    requires at + 4 <= |s|
    ensures Part(s, at, LeBytes(v, 4) + rest) <==> U32At(s, at) == v && Part(s, at + 4, rest)
  {
    hide LeBytes, LeValue;
    PowWidths();
    LeRoundTrip(v, 4);
    LeCanonical(s[at..at + 4]);
    PartSplit(s, at, LeBytes(v, 4), rest);
  }

  lemma Word64(s: seq<u8>, at: nat, v: u64, rest: seq<u8>)
    requires at + 8 <= |s|
    ensures Part(s, at, LeBytes(v, 8) + rest) <==> U64At(s, at) == v && Part(s, at + 8, rest)
  {
    hide LeBytes, LeValue;
    PowWidths();
    LeRoundTrip(v, 8);
    LeCanonical(s[at..at + 8]);
    PartSplit(s, at, LeBytes(v, 8), rest);
  }

  lemma EmptyPart(s: seq<u8>, at: nat)
    requires at <= |s|
    ensures Part(s, at, [])
  {
  }

  lemma DigestPart(s: seq<u8>, at: nat, d: Digest)
    requires at + 32 <= |s|
    ensures DigestAt(s, at) == d <==> Part(s, at, d)
  {
  }

  // ---- The header -------------------------------------------------------------------

  function IdentityBytes(id: Identity): (bytes: seq<u8>)
    ensures |bytes| == 16
  {
    Ascii("BXW1") + (LeBytes(1, 2) + (LeBytes(0, 2) + (LeBytes(id.flags, 4) + (LeBytes(id.tensorCount, 4) + []))))
  }

  function LayoutBytes(l: Layout): (bytes: seq<u8>)
    ensures |bytes| == 80
  {
    LeBytes(l.totalSize, 8) + (LeBytes(HEADER_BYTES, 8) + (LeBytes(l.tensorDataOff, 8) + (LeBytes(l.tensorDataLen, 8)
    + (LeBytes(0, 8) + (LeBytes(0, 8) + l.tableDigest)))))
  }

  function DimensionsBytes(d: Dimensions): (bytes: seq<u8>)
    ensures |bytes| == 36
  {
    LeBytes(1, 4) + (LeBytes(d.nLayers, 4) + (LeBytes(d.dModel, 4) + (LeBytes(d.nHeads, 4) + (LeBytes(d.nKvHeads, 4)
    + (LeBytes(d.dHead, 4) + (LeBytes(d.dFfn, 4) + (LeBytes(d.vocabSize, 4) + (LeBytes(d.maxSeqLen, 4) + []))))))))
  }

  function PairingCode(p: RopePairing): (code: u32) {
    match p case Interleaved => 1 case HalfSplit => 2
  }

  function RopeBytes(r: Rope, bos: u32, eos: u32): (bytes: seq<u8>)
    ensures |bytes| == 28
  {
    LeBytes(r.theta, 4) + (LeBytes(r.normEps, 4) + (LeBytes(r.dim, 4) + (LeBytes(bos, 4) + (LeBytes(eos, 4)
    + (LeBytes(PairingCode(r.pairing), 4) + (LeBytes(0, 4) + []))))))
  }

  function VocabularyBytes(digest: Digest, length: u64): (bytes: seq<u8>)
    ensures |bytes| == 96
  {
    digest + (LeBytes(length, 8) + Zeros(56))
  }

  /** The 256 bytes of a header: every field in its place, every reserved byte zero. */
  function HeaderBytes(h: Header): (bytes: seq<u8>)
    ensures |bytes| == HEADER_BYTES
  {
    IdentityBytes(Identity(if h.tiedOutput then 1 else 0, h.tensorCount))
    + (LayoutBytes(Layout(h.totalSize, h.tensorDataOff, h.tensorDataLen, h.tableDigest))
    + (DimensionsBytes(h.dims)
    + (RopeBytes(h.rope, h.bosTokenId, h.eosTokenId) + VocabularyBytes(h.vocabDigest, h.vocabLen))))
  }

  lemma IdentityExactly(blob: Slice, id: Identity)
    requires |blob| >= HEADER_BYTES
    ensures ReadIdentity(blob) == Ok(id) <==>
      id.flags <= 1 && 1 <= id.tensorCount <= MAX_TENSORS && Part(blob, 0, IdentityBytes(id))
  {
    hide LeBytes, U16At, U32At, Ascii;
    var count := LeBytes(id.tensorCount, 4) + [];
    var flags := LeBytes(id.flags, 4) + count;
    var minor := LeBytes(0, 2) + flags;
    PartSplit(blob, 0, Ascii("BXW1"), LeBytes(1, 2) + minor);
    Word16(blob, 4, 1, minor);
    Word16(blob, 6, 0, flags);
    Word32(blob, 8, id.flags, count);
    Word32(blob, 12, id.tensorCount, []);
    EmptyPart(blob, 16);
  }

  lemma LayoutExactly(blob: Slice, length: u64, capacity: u64, tensorCount: u32, l: Layout)
    requires |blob| >= HEADER_BYTES
    ensures ReadLayout(blob, length, capacity, tensorCount) == Ok(l) <==>
      LayoutValid(l, length, capacity, tensorCount) && Part(blob, 16, LayoutBytes(l))
  {
    hide LeBytes, U64At, Part, DigestAt, RoundUp;
    var second := LeBytes(0, 8) + l.tableDigest;
    var first := LeBytes(0, 8) + second;
    var dataLen := LeBytes(l.tensorDataLen, 8) + first;
    var dataOff := LeBytes(l.tensorDataOff, 8) + dataLen;
    Word64(blob, 16, l.totalSize, LeBytes(HEADER_BYTES, 8) + dataOff);
    Word64(blob, 24, HEADER_BYTES, dataOff);
    Word64(blob, 32, l.tensorDataOff, dataLen);
    Word64(blob, 40, l.tensorDataLen, first);
    Word64(blob, 48, 0, second);
    Word64(blob, 56, 0, l.tableDigest);
    DigestPart(blob, 64, l.tableDigest);
  }

  lemma DimensionsExactly(blob: Slice, d: Dimensions)
    requires |blob| >= HEADER_BYTES
    ensures U32At(blob, 96) == 1 && ReadDimensions(blob) == Ok(d) <==>
      DimensionsValid(d) && Part(blob, 96, DimensionsBytes(d))
  {
    hide LeBytes, U32At, Part;
    var maxSeqLen := LeBytes(d.maxSeqLen, 4) + [];
    var vocabSize := LeBytes(d.vocabSize, 4) + maxSeqLen;
    var dFfn := LeBytes(d.dFfn, 4) + vocabSize;
    var dHead := LeBytes(d.dHead, 4) + dFfn;
    var nKvHeads := LeBytes(d.nKvHeads, 4) + dHead;
    var nHeads := LeBytes(d.nHeads, 4) + nKvHeads;
    var dModel := LeBytes(d.dModel, 4) + nHeads;
    Word32(blob, 96, 1, LeBytes(d.nLayers, 4) + dModel);
    Word32(blob, 100, d.nLayers, dModel);
    Word32(blob, 104, d.dModel, nHeads);
    Word32(blob, 108, d.nHeads, nKvHeads);
    Word32(blob, 112, d.nKvHeads, dHead);
    Word32(blob, 116, d.dHead, dFfn);
    Word32(blob, 120, d.dFfn, vocabSize);
    Word32(blob, 124, d.vocabSize, maxSeqLen);
    Word32(blob, 128, d.maxSeqLen, []);
    EmptyPart(blob, 132);
  }

  ghost predicate RopeValid(r: Rope, dHead: u32) {
    && THETA_MIN <= r.theta <= THETA_MAX && EPS_MIN <= r.normEps <= EPS_MAX
    && 0 < r.dim <= dHead && r.dim % 2 == 0
  }

  lemma RopeExactly(blob: Slice, dHead: u32, r: Rope, bos: u32, eos: u32)
    requires |blob| >= HEADER_BYTES
    ensures ReadRope(blob, dHead) == Ok(r)
            && U32At(blob, 144) == bos && U32At(blob, 148) == eos && U32At(blob, 156) == 0 <==>
      RopeValid(r, dHead) && Part(blob, 132, RopeBytes(r, bos, eos))
  {
    hide LeBytes, U32At, Part;
    var reserved := LeBytes(0, 4) + [];
    var pairing := LeBytes(PairingCode(r.pairing), 4) + reserved;
    var eosOn := LeBytes(eos, 4) + pairing;
    var bosOn := LeBytes(bos, 4) + eosOn;
    var dim := LeBytes(r.dim, 4) + bosOn;
    Word32(blob, 132, r.theta, LeBytes(r.normEps, 4) + dim);
    Word32(blob, 136, r.normEps, dim);
    Word32(blob, 140, r.dim, bosOn);
    Word32(blob, 144, bos, eosOn);
    Word32(blob, 148, eos, pairing);
    Word32(blob, 152, PairingCode(r.pairing), reserved);
    Word32(blob, 156, 0, []);
    EmptyPart(blob, 160);
  }

  lemma VocabularyExactly(blob: Slice, digest: Digest, length: u64)
    requires |blob| >= HEADER_BYTES
    ensures DigestAt(blob, 160) == digest && U64At(blob, 192) == length && AllZero(blob[200..256]) <==>
      Part(blob, 160, VocabularyBytes(digest, length))
  {
    hide LeBytes, U64At;
    PartSplit(blob, 160, digest, LeBytes(length, 8) + Zeros(56));
    Word64(blob, 192, length, Zeros(56));
    assert AllZero(blob[200..256]) <==> blob[200..256] == Zeros(56);
  }

  /** A header with every value inside the loader's ranges. */
  ghost predicate HeaderAdmissible(h: Header, length: u64, capacity: u64) {
    && HeaderValid(h, length, capacity) && RopeValid(h.rope, h.dims.dHead)
    && h.bosTokenId < h.dims.vocabSize && h.eosTokenId < h.dims.vocabSize
    && 1 <= h.vocabLen <= MAX_VOCAB_BLOB_BYTES
  }

  lemma HeaderParts(blob: Slice, h: Header)
    requires |blob| >= HEADER_BYTES
    ensures Part(blob, 0, HeaderBytes(h)) <==>
      && Part(blob, 0, IdentityBytes(Identity(if h.tiedOutput then 1 else 0, h.tensorCount)))
      && Part(blob, 16, LayoutBytes(Layout(h.totalSize, h.tensorDataOff, h.tensorDataLen, h.tableDigest)))
      && Part(blob, 96, DimensionsBytes(h.dims))
      && Part(blob, 132, RopeBytes(h.rope, h.bosTokenId, h.eosTokenId))
      && Part(blob, 160, VocabularyBytes(h.vocabDigest, h.vocabLen))
  {
    hide IdentityBytes, LayoutBytes, DimensionsBytes, RopeBytes, VocabularyBytes, Part;
    var identity := IdentityBytes(Identity(if h.tiedOutput then 1 else 0, h.tensorCount));
    var layout := LayoutBytes(Layout(h.totalSize, h.tensorDataOff, h.tensorDataLen, h.tableDigest));
    var vocabulary := VocabularyBytes(h.vocabDigest, h.vocabLen);
    var rope := RopeBytes(h.rope, h.bosTokenId, h.eosTokenId);
    PartSplit(blob, 0, identity, layout + (DimensionsBytes(h.dims) + (rope + vocabulary)));
    PartSplit(blob, 16, layout, DimensionsBytes(h.dims) + (rope + vocabulary));
    PartSplit(blob, 96, DimensionsBytes(h.dims), rope + vocabulary);
    PartSplit(blob, 132, rope, vocabulary);
  }

  /** A blob parses to a header exactly when it opens with that header's bytes and the header is admissible. */
  lemma HeaderExactly(blob: Slice, length: u64, capacity: u64, h: Header)
    requires |blob| >= HEADER_BYTES
    ensures ParseHeader(blob, length, capacity) == Ok(h) <==>
      Part(blob, 0, HeaderBytes(h)) && HeaderAdmissible(h, length, capacity)
  {
    hide U32At, U64At, ReadIdentity, ReadLayout, ReadDimensions, ReadRope, LayoutValid, DimensionsValid,
         IdentityBytes, LayoutBytes, DimensionsBytes, RopeBytes, VocabularyBytes, Part, HeaderBytes, RopeValid, AllZero;
    HeaderParts(blob, h);
    IdentityExactly(blob, Identity(if h.tiedOutput then 1 else 0, h.tensorCount));
    LayoutExactly(blob, length, capacity, h.tensorCount,
                  Layout(h.totalSize, h.tensorDataOff, h.tensorDataLen, h.tableDigest));
    DimensionsExactly(blob, h.dims);
    RopeExactly(blob, h.dims.dHead, h.rope, h.bosTokenId, h.eosTokenId);
    VocabularyExactly(blob, h.vocabDigest, h.vocabLen);
  }

  /** Two blobs that parse to the same header open with the same 256 bytes. */
  lemma HeaderIsUnique(a: Slice, b: Slice, lengthA: u64, lengthB: u64, capacity: u64)
    requires |a| >= HEADER_BYTES && |b| >= HEADER_BYTES
    requires ParseHeader(a, lengthA, capacity).Ok?
    requires ParseHeader(a, lengthA, capacity) == ParseHeader(b, lengthB, capacity)
    ensures a[..HEADER_BYTES] == b[..HEADER_BYTES]
  {
    hide ParseHeader, HeaderBytes, HeaderAdmissible;
    var h := ParseHeader(a, lengthA, capacity).value;
    HeaderExactly(a, lengthA, capacity, h);
    HeaderExactly(b, lengthB, capacity, h);
  }

  // ---- Records ---------------------------------------------------------------------------

  function DtypeCode(dtype: Dtype): (code: u16) {
    match dtype case F32 => 0 case Q8 => 1 case Q4 => 2
  }

  ghost predicate NameValid(name: seq<u8>) {
    1 <= |name| < 64 && forall i :: 0 <= i < |name| ==> 0x21 <= name[i] <= 0x7E
  }

  function NameField(name: seq<u8>): (field: seq<u8>)
    requires |name| < 64
    ensures |field| == 64
  {
    name + Zeros(64 - |name|)
  }

  function DimsBytes(dims: seq<u64>): (bytes: seq<u8>)
    requires |dims| == MAX_RANK
    ensures |bytes| == 32
  {
    LeBytes(dims[0], 8) + (LeBytes(dims[1], 8) + (LeBytes(dims[2], 8) + (LeBytes(dims[3], 8) + [])))
  }

  function TailBytes(r: Record): (bytes: seq<u8>)
    ensures |bytes| == 56
  {
    LeBytes(r.dataOff, 8) + (LeBytes(r.dataLen, 8) + (r.digest + (LeBytes(0, 8) + [])))
  }

  /** The 160 bytes of a tensor record. */
  function RecordBytes(r: Record): (bytes: seq<u8>)
    requires |r.name| < 64 && |r.shape.dims| == MAX_RANK && r.shape.rank < TWO_16
    ensures |bytes| == RECORD_BYTES
  {
    NameField(r.name) + (LeBytes(DtypeCode(r.dtype), 2) + (LeBytes(r.shape.rank, 2) + (LeBytes(0, 4)
    + (DimsBytes(r.shape.dims) + TailBytes(r)))))
  }

  lemma NameExactly(s: seq<u8>, name: seq<u8>)
    requires |s| == RECORD_BYTES
    ensures DecodeName(s) == Ok(name) <==> NameValid(name) && Part(s, 0, NameField(name))
  {
    hide Position;
    var field := s[0..64];
    if DecodeName(s) == Ok(name) {
      assert field == name + field[|name|..];
      assert forall i :: |name| <= i < 64 ==> field[i] == 0 by {
        assert forall i :: |name| < i < 64 ==> field[i] == field[|name| + 1..][i - |name| - 1];
      }
      assert field == NameField(name);
    }
    if NameValid(name) && Part(s, 0, NameField(name)) {
      assert field == NameField(name);
      assert field[..|name|] == name && field[|name|] == 0;
      PositionUnique(field, 0, |name|);
    }
  }

  lemma DimsExactly(s: seq<u8>, dims: seq<u64>)
    requires |s| == RECORD_BYTES && |dims| == MAX_RANK
    ensures DimsOf(s) == dims <==> Part(s, 72, DimsBytes(dims))
  {
    hide LeBytes, U64At, Part;
    var third := LeBytes(dims[3], 8) + [];
    var second := LeBytes(dims[2], 8) + third;
    Word64(s, 72, dims[0], LeBytes(dims[1], 8) + second);
    Word64(s, 80, dims[1], second);
    Word64(s, 88, dims[2], third);
    Word64(s, 96, dims[3], []);
    EmptyPart(s, 104);
    assert DimsOf(s) == [U64At(s, 72), U64At(s, 80), U64At(s, 88), U64At(s, 96)];
    assert dims == [dims[0], dims[1], dims[2], dims[3]];
  }

  lemma TailExactly(s: seq<u8>, r: Record)
    requires |s| == RECORD_BYTES
    ensures U64At(s, 104) == r.dataOff && U64At(s, 112) == r.dataLen
            && DigestAt(s, 120) == r.digest && U64At(s, 152) == 0 <==>
      Part(s, 104, TailBytes(r))
  {
    hide LeBytes, U64At, Part, DigestAt;
    var reserved := LeBytes(0, 8) + [];
    Word64(s, 104, r.dataOff, LeBytes(r.dataLen, 8) + (r.digest + reserved));
    Word64(s, 112, r.dataLen, r.digest + reserved);
    PartSplit(s, 120, r.digest, reserved);
    DigestPart(s, 120, r.digest);
    Word64(s, 152, 0, []);
    EmptyPart(s, 160);
  }

  lemma RecordParts(s: seq<u8>, r: Record)
    requires |s| == RECORD_BYTES && |r.name| < 64 && |r.shape.dims| == MAX_RANK && r.shape.rank < TWO_16
    ensures Part(s, 0, RecordBytes(r)) <==>
      && Part(s, 0, NameField(r.name)) && U16At(s, 64) == DtypeCode(r.dtype) && U16At(s, 66) == r.shape.rank
      && U32At(s, 68) == 0 && Part(s, 72, DimsBytes(r.shape.dims)) && Part(s, 104, TailBytes(r))
  {
    hide LeBytes, U16At, U32At, Part, NameField, DimsBytes, TailBytes;
    var dims := DimsBytes(r.shape.dims) + TailBytes(r);
    var reserved := LeBytes(0, 4) + dims;
    var rank := LeBytes(r.shape.rank, 2) + reserved;
    PartSplit(s, 0, NameField(r.name), LeBytes(DtypeCode(r.dtype), 2) + rank);
    Word16(s, 64, DtypeCode(r.dtype), rank);
    Word16(s, 66, r.shape.rank, reserved);
    Word32(s, 68, 0, dims);
    PartSplit(s, 72, DimsBytes(r.shape.dims), TailBytes(r));
  }

  lemma ShapeExactly(s: seq<u8>, dtype: Dtype, shape: Shape)
    requires |s| == RECORD_BYTES
    ensures ShapeOf(s, dtype) == Ok(shape) <==>
      && 1 <= shape.rank <= MAX_RANK && UsedSlotsOk(shape.dims, shape.rank)
      && shape.elements == Product(shape.dims[..shape.rank])
      && (dtype.Blocked() ==> shape.dims[shape.rank - 1] % BLOCK == 0)
      && U16At(s, 66) == shape.rank && DimsOf(s) == shape.dims
  {
    hide U16At, DimAt, DimsFault, UsedSlotsOk, Product;
    ShapeIsValid(s, dtype);
    var rank, dims := U16At(s, 66), DimsOf(s);
    if 1 <= rank <= MAX_RANK {
      EmptyProduct(dims);
      DimsMeaning(dims, rank, 0, 1);
    }
  }

  /** A record decodes exactly from its own bytes, and exactly when its values obey every rule. */
  lemma RecordExactly(table: Slice, index: nat, r: Record)
    requires (index + 1) * RECORD_BYTES <= |table|
    ensures DecodeRecord(table, index) == Ok(r) <==>
      && RecordValid(r) && NameValid(r.name)
      && table[index * RECORD_BYTES..(index + 1) * RECORD_BYTES] == RecordBytes(r)
  {
    hide U16At, U32At, U64At, DigestAt, DecodeName, ShapeOf, DataLen, UsedSlotsOk, Product, DimsOf;
    hide Part, NameField, DimsBytes, TailBytes, RecordBytes;
    var s := table[index * RECORD_BYTES..(index + 1) * RECORD_BYTES];
    NameExactly(s, r.name);
    ShapeExactly(s, r.dtype, r.shape);
    if |r.name| < 64 && |r.shape.dims| == MAX_RANK && r.shape.rank < TWO_16 {
      RecordParts(s, r);
      DimsExactly(s, r.shape.dims);
      TailExactly(s, r);
      WholePart(s, RecordBytes(r));
    }
  }
}
