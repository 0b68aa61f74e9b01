/** Every denial of the loader is true: the rule it names is one the blob's own bytes break. */
module Bxw1Denials {
  import opened Results
  import opened Bytes
  import opened Bxw1Header
  import opened Bxw1Table
  import opened Bxw1Names
  import opened Bxw1Shapes
  import opened Bxw1Payload
  import opened Bxw1Encode
  import opened Bxw1Blob

  // ---- The header --------------------------------------------------------------------

  /** The rules on identity, each by the field it is about. */
  ghost predicate IdentityBroken(b: Slice, e: Bxw1Error)
    requires |b| >= 256
  {
    || (e == BadMagic && b[0..4] != Ascii("BXW1"))
    || (e == UnsupportedVersion && (U16At(b, 4) != 1 || U16At(b, 6) != 0))
    || (e == ReservedFlagBitSet && U32At(b, 8) > 1)
    || (e == ZeroTensorCount && U32At(b, 12) == 0)
    || (e == TensorCountExceedsCeiling && U32At(b, 12) > 4096)
  }

  /** The rules on sizes and offsets. */
  ghost predicate LayoutBroken(b: Slice, length: u64, capacity: u64, e: Bxw1Error)
    requires |b| >= 256
  {
    var tableEnd, total, off, len := 256 + 160 * U32At(b, 12), U64At(b, 16), U64At(b, 32), U64At(b, 40);
    || (e == TotalSizeBelowHeader && total < 256)
    || (e == TotalSizeExceedsMaxSize && total > MAX_BLOB_BYTES)
    || (e == TotalSizeExceedsRegionCapacity && total > capacity)
    || (e == TotalSizeMismatch && total != length)
    || (e == TensorTableOffsetNot256 && U64At(b, 24) != 256)
    || (e == TensorTableExceedsBlob && tableEnd > total)
    || (e == TensorDataOffsetMisaligned && off % 128 != 0)
    || (e == TensorDataOffsetBeforeTable && off < tableEnd)
    || (e == TensorDataOffsetPastBlob && off >= total)
    || (e == TableToDataGapTooLarge && off >= tableEnd + 128)
    || (e == TensorDataExtentOverflow && off + len >= TWO_64)
    || (e == TensorDataExtentNotBlobEnd && off + len != total)
    || (e == ReservedHeaderFieldNonZero && (U64At(b, 48) != 0 || U64At(b, 56) != 0))
  }

  lemma IdentityDenial(b: Slice)
    requires |b| >= 256
    ensures var r := ReadIdentity(b);
      if r.Err? then IdentityBroken(b, r.error)
      else r.value.tensorCount == U32At(b, 12) && r.value.flags == U32At(b, 8) <= 1
  {
    hide U16At, U32At, Ascii;
  }

  lemma LayoutDenial(b: Slice, length: u64, capacity: u64)
    requires |b| >= 256
    ensures var r := ReadLayout(b, length, capacity, U32At(b, 12));
      r.Err? ==> LayoutBroken(b, length, capacity, r.error)
  {
    hide U32At, U64At, DigestAt, RoundUp;
  }

  /** The rules on the model's dimensions. */
  ghost predicate DimensionsBroken(b: Slice, e: Bxw1Error)
    requires |b| >= 256
  {
    || (e == NLayersOutOfRange && !(1 <= U32At(b, 100) <= 128))
    || (e == DModelOutOfRange && !(1 <= U32At(b, 104) <= 16384))
    || (e == NHeadsOutOfRange && !(1 <= U32At(b, 108) <= 256))
    || (e == NKvHeadsOutOfRange && !(1 <= U32At(b, 112) <= 256))
    || (e == DHeadOutOfRange && !(1 <= U32At(b, 116) <= 512))
    || (e == DFfnOutOfRange && !(1 <= U32At(b, 120) <= 65536))
    || (e == VocabSizeOutOfRange && !(1 <= U32At(b, 124) <= 0x10_0000))
    || (e == MaxSeqLenOutOfRange && !(1 <= U32At(b, 128) <= 0x2_0000))
    || (e == KvHeadsExceedHeads && U32At(b, 112) > U32At(b, 108))
    || (e == HeadsNotDivisibleByKvHeads && U32At(b, 112) > 0 && U32At(b, 108) % U32At(b, 112) != 0)
    || (e == HeadWidthNotDModel && HeadWidth(b) != U32At(b, 104))
  }

  ghost function HeadWidth(b: Slice): (width: nat)
    requires |b| >= 256
  {
    U32At(b, 108) * U32At(b, 116)
  }

  lemma DimensionsDenial(b: Slice)
    requires |b| >= 256
    ensures var r := ReadDimensions(b);
      if r.Err? then DimensionsBroken(b, r.error)
      else r.value.nLayers == U32At(b, 100) && r.value.dHead == U32At(b, 116) && r.value.vocabSize == U32At(b, 124)
  {
    hide U32At, Bounded;
  }

  /** The rules on the rotary fields. */
  ghost predicate RopeBroken(b: Slice, e: Bxw1Error)
    requires |b| >= 256
  {
    || (e == InvalidRopeTheta && !IsPositiveFinite(U32At(b, 132)))
    || (e == RopeThetaOutOfRange && !(THETA_MIN <= U32At(b, 132) <= THETA_MAX))
    || (e == InvalidNormEps && !IsPositiveFinite(U32At(b, 136)))
    || (e == NormEpsOutOfRange && !(EPS_MIN <= U32At(b, 136) <= EPS_MAX))
    || (e == RopeDimOutOfRange && (U32At(b, 140) == 0 || U32At(b, 140) > U32At(b, 116)))
    || (e == RopeDimOdd && U32At(b, 140) % 2 == 1)
    || (e == RopePairingUnspecified && U32At(b, 152) == 0)
    || (e == UnknownRopePairing && U32At(b, 152) > 2)
  }

  /** The rules on the special tokens and the vocabulary. */
  ghost predicate TokensBroken(b: Slice, e: Bxw1Error)
    requires |b| >= 256
  {
    || (e == BosTokenOutOfRange && U32At(b, 144) >= U32At(b, 124))
    || (e == EosTokenOutOfRange && U32At(b, 148) >= U32At(b, 124))
    || (e == ReservedHeaderFieldNonZero && (U32At(b, 156) != 0 || !AllZero(b[200..256])))
    || (e == VocabLenZero && U64At(b, 192) == 0)
    || (e == VocabLenExceedsCeiling && U64At(b, 192) > 0x400_0000)
  }

  lemma RopeDenial(b: Slice)
    requires |b| >= 256
    ensures var r := ReadRope(b, U32At(b, 116)); r.Err? ==> RopeBroken(b, r.error)
  {
    hide U32At, IsPositiveFinite;
  }

  lemma TokensDenial(b: Slice)
    requires |b| >= 256
    ensures var r := ReadTokens(b, U32At(b, 124)); r.Err? ==> TokensBroken(b, r.error)
  {
    hide U32At, U64At, AllZero;
  }

  ghost predicate HeaderBroken(b: Slice, length: u64, capacity: u64, e: Bxw1Error)
    requires |b| >= 256
  {
    || IdentityBroken(b, e) || LayoutBroken(b, length, capacity, e) || DimensionsBroken(b, e)
    || RopeBroken(b, e) || TokensBroken(b, e)
    || (e == UnknownArchId && U32At(b, 96) != 1)
    || (e == TensorCountNotArchRequired && U32At(b, 12) != 9 * U32At(b, 100) + if U32At(b, 8) == 1 then 2 else 3)
  }

  /** A header is refused only for a rule its own bytes break. */
  lemma HeaderDenial(b: Slice, length: u64, capacity: u64)
    requires |b| >= 256 && ParseHeader(b, length, capacity).Err?
    ensures HeaderBroken(b, length, capacity, ParseHeader(b, length, capacity).error)
  {
    hide U32At, U64At, DigestAt, ReadIdentity, ReadLayout, ReadDimensions, ReadRope, ReadTokens;
    hide IdentityBroken, LayoutBroken, DimensionsBroken, RopeBroken, TokensBroken, LayoutValid, DimensionsValid;
    IdentityDenial(b);
    LayoutDenial(b, length, capacity);
    DimensionsDenial(b);
    RopeDenial(b);
    TokensDenial(b);
  }

  // ---- Records ------------------------------------------------------------------------

  ghost predicate NameBroken(s: seq<u8>, e: Bxw1Error)
    requires |s| == 160
  {
    || (e == NameNotTerminated && s[63] != 0)
    || (e == NameEmpty && s[0] == 0)
    || (e == NameNotPrintableAscii && exists i :: 0 <= i < 63 && s[i] != 0 && !(0x21 <= s[i] <= 0x7E))
    || (e == NameNonZeroAfterTerminator && exists i, j :: 0 <= i < j < 64 && s[i] == 0 && s[j] != 0)
  }

  lemma NameDenial(s: seq<u8>)
    requires |s| == 160 && DecodeName(s).Err?
    ensures NameBroken(s, DecodeName(s).error)
  {
    hide Position;
    var field := s[0..64];
    if field[63] == 0 && field[0] != 0 {
      assert field[63] in field;
      var at := Position(field, 0).value;
      var name, rest := field[..at], field[at + 1..];
      assert s[at] == 0 && 0 !in name;
      if i :| 0 <= i < |name| && !(0x21 <= name[i] <= 0x7E) {
        assert name[i] in name && s[i] == name[i];
      }
      if j :| 0 <= j < |rest| && rest[j] != 0 {
        assert s[at + 1 + j] == rest[j];
      }
    }
  }

  ghost predicate DimsBroken(dims: seq<u64>, rank: nat, e: Bxw1Error)
    requires |dims| == 4
  {
    || (e == ZeroDimension && exists i :: 0 <= i < 4 && i < rank && dims[i] == 0)
    || (e == UnusedDimensionNonZero && exists i :: rank <= i < 4 && dims[i] != 0)
    || (e == DimensionExceedsCeiling && exists i :: 0 <= i < 4 && i < rank && dims[i] > 0x1000_0000)
    || (e == ElementCountExceedsCeiling && exists n :: 0 <= n <= 4 && n <= rank && Product(dims[..n]) > 0x8_0000_0000)
  }

  lemma {:induction false} DimsDenial(dims: seq<u64>, rank: nat, slot: nat, product: nat)
    requires |dims| == MAX_RANK && rank <= MAX_RANK && slot <= MAX_RANK
    requires product == Product(dims[..if slot < rank then slot else rank]) <= MAX_ELEMENTS
    requires forall i :: 0 <= i < slot ==> if i < rank then 1 <= dims[i] <= MAX_DIM else dims[i] == 0
    requires DimsFault(dims, rank, slot, product).Some?
    ensures DimsBroken(dims, rank, DimsFault(dims, rank, slot, product).value)
    decreases MAX_RANK - slot
  {
    hide Product;
    var here := SlotFault(dims[slot], slot < rank, product);
    if slot < rank {
      ProductStep(dims, slot);
    }
    if here.None? {
      DimsDenial(dims, rank, slot + 1, if slot < rank then product * dims[slot] else product);
    } else if slot < rank && 1 <= dims[slot] <= MAX_DIM {
      MulBound(product, dims[slot]);
      assert Product(dims[..slot + 1]) > 0x8_0000_0000;
    }
  }

  ghost predicate ShapeBroken(s: seq<u8>, e: Bxw1Error)
    requires |s| == 160
  {
    var rank := U16At(s, 66);
    || (e == ZeroRank && rank == 0)
    || (e == RankExceedsCeiling && rank > 4)
    || DimsBroken(DimsOf(s), rank, e)
    || (e == LastDimensionNotBlockAligned && U16At(s, 64) != 0 && 1 <= rank <= 4 && DimsOf(s)[rank - 1] % 32 != 0)
  }

  lemma ShapeDenial(s: seq<u8>, dtype: Dtype)
    requires |s| == 160 && DtypeFrom(U16At(s, 64)) == Ok(dtype) && ShapeOf(s, dtype).Err?
    ensures ShapeBroken(s, ShapeOf(s, dtype).error)
  {
    hide U16At, DimAt, DimsFault, DimsBroken, Product;
    var rank, dims := U16At(s, 66), DimsOf(s);
    if 1 <= rank <= MAX_RANK {
      EmptyProduct(dims);
      if DimsFault(dims, rank, 0, 1).Some? {
        DimsDenial(dims, rank, 0, 1);
      }
    }
  }

  /** The rules on one record, by its 160 bytes. */
  ghost predicate RecordBroken(s: seq<u8>, e: Bxw1Error)
    requires |s| == 160
  {
    || NameBroken(s, e) || ShapeBroken(s, e)
    || (e == UnknownDtype && U16At(s, 64) > 2)
    || (e == ReservedRecordFieldNonZero && (U32At(s, 68) != 0 || U64At(s, 152) != 0))
    || (e == DataOffsetMisaligned && U64At(s, 104) % 128 != 0)
    || (e == DeclaredLengthMismatch && U16At(s, 64) <= 2 && U16At(s, 66) <= 4
        && !LengthIs([F32, Q8, Q4][U16At(s, 64)], Product(DimsOf(s)[..U16At(s, 66)]), U64At(s, 112)))
  }

  /** The bytes of record `i`. */
  ghost function Row(table: Slice, i: nat): (s: seq<u8>)
    requires (i + 1) * 160 <= |table|
    ensures |s| == 160
  {
    table[i * 160..(i + 1) * 160]
  }

  lemma LengthDenial(s: seq<u8>, dtype: Dtype)
    requires |s| == 160 && DtypeFrom(U16At(s, 64)) == Ok(dtype) && ShapeOf(s, dtype).Ok?
    ensures var shape := ShapeOf(s, dtype).value;
      && U16At(s, 66) <= 4 && shape.elements == Product(DimsOf(s)[..U16At(s, 66)]) <= MAX_ELEMENTS
      && forall length: nat :: DataLen(dtype, shape.elements) == length <==> LengthIs(dtype, shape.elements, length)
  {
    hide U16At, DimAt, DimsFault, Product, DataLen, LengthIs;
    ShapeIsValid(s, dtype);
    var shape := ShapeOf(s, dtype).value;
    BlockedElements(dtype, shape.dims, shape.rank);
    forall length: nat
      ensures DataLen(dtype, shape.elements) == length <==> LengthIs(dtype, shape.elements, length)
    {
      LengthMeaning(dtype, shape.elements, length);
    }
  }

  lemma RecordDenial(table: Slice, i: nat)
    requires (i + 1) * 160 <= |table| && DecodeRecord(table, i).Err?
    ensures RecordBroken(Row(table, i), DecodeRecord(table, i).error)
  {
    hide U16At, U32At, U64At, DecodeName, ShapeOf, DimsOf, DataLen, LengthIs, Product, DigestAt;
    hide NameBroken, ShapeBroken;
    var s := Row(table, i);
    if DecodeName(s).Err? {
      NameDenial(s);
    }
    var dtype := DtypeFrom(U16At(s, 64));
    if dtype.Ok? {
      if ShapeOf(s, dtype.value).Err? {
        ShapeDenial(s, dtype.value);
      } else {
        LengthDenial(s, dtype.value);
      }
    }
  }

  // ---- The extent walk ------------------------------------------------------------------

  ghost predicate StepBroken(r: Record, h: Header, first: bool, cursor: nat, e: Bxw1Error) {
    var end := r.dataOff + r.dataLen;
    || (e == ExtentOverflow && end >= TWO_64)
    || (e == ExtentBeforeDataRegion && r.dataOff < h.tensorDataOff)
    || (e == ExtentPastBlob && end > h.totalSize)
    || (e == FirstExtentNotAtDataStart && first && r.dataOff != h.tensorDataOff)
    || (e == OverlappingExtents && !first && r.dataOff < cursor)
    || (e == ExcessiveExtentGap && !first && r.dataOff >= cursor + 128)
  }

  lemma StepDenial(r: Record, h: Header, index: nat, cursor: u64, capacity: u64)
    requires RegionValid(h, capacity) && WalkExtent(r, h, index, cursor, capacity).Err?
    ensures StepBroken(r, h, index == 0, cursor, WalkExtent(r, h, index, cursor, capacity).error)
  {
  }

  /** The walk breaks at record `i`: against the header, or against where the record before it ends. */
  ghost predicate WalkBroken(table: Slice, h: Header, i: nat, e: Bxw1Error) {
    hide DecodeRecord, StepBroken;
    && Decodes(table, i) && (i > 0 ==> Decodes(table, i - 1))
    && StepBroken(RecordAt(table, i), h, i == 0, if i == 0 then 0 else EndOf(table, i - 1), e)
  }

  ghost function EndOf(table: Slice, i: nat): (end: nat)
    requires Decodes(table, i)
  {
    RecordAt(table, i).dataOff + RecordAt(table, i).dataLen
  }

  /** Record `i` decodes and its extent ends at `end`. */
  ghost predicate EndsAt(table: Slice, i: nat, end: nat) {
    hide DecodeRecord;
    Decodes(table, i) && EndOf(table, i) == end
  }

  lemma {:induction false} ExtentsDenial(table: Slice, h: Header, capacity: u64, index: nat, cursor: u64)
    returns (i: nat)
    requires index <= h.tensorCount && h.tensorCount * RECORD_BYTES <= |table| && RegionValid(h, capacity)
    requires index > 0 ==> EndsAt(table, index - 1, cursor)
    requires Extents(table, h, capacity, index, cursor).Err?
    ensures var e := Extents(table, h, capacity, index, cursor).error;
      && i < h.tensorCount && (i + 1) * 160 <= |table|
      && (RecordBroken(Row(table, i), e) || WalkBroken(table, h, i, e))
    decreases h.tensorCount - index
  {
    hide DecodeRecord, WalkExtent, StepBroken, RecordBroken, RegionValid;
    var decoded := DecodeRecord(table, index);
    if decoded.Err? {
      i := index;
      RecordDenial(table, index);
    } else {
      var walked := WalkExtent(decoded.value, h, index, cursor, capacity);
      if walked.Err? {
        i := index;
        StepDenial(decoded.value, h, index, cursor, capacity);
        StepIgnores(decoded.value, h, cursor, walked.error);
      } else {
        WalkedTo(decoded.value, h, index, cursor, capacity);
        i := ExtentsDenial(table, h, capacity, index + 1, walked.value);
      }
    }
  }

  /** The first record is not measured against a cursor. */
  lemma StepIgnores(r: Record, h: Header, cursor: nat, e: Bxw1Error)
    ensures StepBroken(r, h, true, cursor, e) <==> StepBroken(r, h, true, 0, e)
  {
  }

  lemma WalkedTo(r: Record, h: Header, index: nat, cursor: u64, capacity: u64)
    requires WalkExtent(r, h, index, cursor, capacity).Ok?
    ensures WalkExtent(r, h, index, cursor, capacity).value == r.dataOff + r.dataLen
  {
  }

  lemma {:induction false} ExtentsEnd(table: Slice, h: Header, capacity: u64, index: nat, cursor: u64)
    requires index <= h.tensorCount && h.tensorCount * RECORD_BYTES <= |table| && h.tensorCount > 0
    requires index > 0 ==> EndsAt(table, index - 1, cursor)
    requires Extents(table, h, capacity, index, cursor).Ok?
    ensures EndsAt(table, h.tensorCount - 1, Extents(table, h, capacity, index, cursor).value)
    decreases h.tensorCount - index
  {
    hide DecodeRecord, WalkExtent;
    if index < h.tensorCount {
      var record := DecodeRecord(table, index).value;
      WalkedTo(record, h, index, cursor, capacity);
      ExtentsEnd(table, h, capacity, index + 1, WalkExtent(record, h, index, cursor, capacity).value);
    }
  }

  /** The rules on the table: some record, some step of the walk, or what follows the last extent. */
  ghost predicate TableBroken(table: Slice, h: Header, e: Bxw1Error) {
    || (exists i: nat :: i < h.tensorCount && (i + 1) * 160 <= |table| && RecordBroken(Row(table, i), e))
    || (exists i: nat :: i < h.tensorCount && WalkBroken(table, h, i, e))
    || (&& e == TrailingBytesAfterLastExtent && h.tensorCount > 0
        && exists end: nat :: EndsAt(table, h.tensorCount - 1, end) && RoundUp(end) != h.totalSize)
  }

  lemma StructureDenial(table: Slice, h: Header, length: u64, capacity: u64)
    requires HeaderValid(h, length, capacity) && h.tensorCount * RECORD_BYTES <= |table|
    requires Structure(table, h, capacity).Err?
    ensures TableBroken(table, h, Structure(table, h, capacity).error)
  {
    hide DecodeRecord, Extents, RecordBroken, WalkBroken, EndsAt, RoundUp, LayoutValid, DimensionsValid;
    HeaderRegion(h, length, capacity);
    if Extents(table, h, capacity, 0, h.tensorDataOff).Err? {
      var i := ExtentsDenial(table, h, capacity, 0, h.tensorDataOff);
    } else {
      ExtentsEnd(table, h, capacity, 0, h.tensorDataOff);
    }
  }

  // ---- Names -----------------------------------------------------------------------------

  ghost predicate IsNormName(name: seq<u8>) {
    || name == Ascii("norm.weight")
    || exists layer: u32 :: name in {LayerName(layer, "attention_norm.weight"), LayerName(layer, "ffn_norm.weight")}
  }

  /** The rules on one record's name and what it demands. */
  ghost predicate NamingBroken(r: Record, h: Header, e: Bxw1Error) {
    || (e == UnknownTensorName && !IsRequiredName(r.name, h.dims.nLayers, false))
    || (e == TiedOutputWeightPresent && h.tiedOutput && r.name == Ascii("output.weight"))
    || (e == DtypeNotPermittedForName && r.dtype != F32 && IsNormName(r.name))
    || (e == ShapeDisagreesWithHeader && !Fits(r.name, r.shape, F32, h.dims))
  }

  lemma NormNames(slot: Slot)
    requires F32Only(slot)
    ensures IsNormName(SlotName(slot))
  {
    hide LayerName, SlotName, Ascii;
    GlobalSlotNames();
    if slot.Layer? {
      LayerSlotName(slot.layer, slot.tensor);
      assert LAYER_PARTS[0] == "attention_norm.weight" && LAYER_PARTS[5] == "ffn_norm.weight";
    }
  }

  lemma AdmissionDenial(r: Record, h: Header, seen: set<nat>)
    requires h.dims.nLayers <= MAX_LAYERS && Admission(r, h, seen).Err?
    requires Admission(r, h, seen) != Err(DuplicateTensorName)
    ensures NamingBroken(r, h, Admission(r, h, seen).error)
  {
    hide Classify, SlotName, Bit, F32Only, ShapeMatches, ExpectedDims, IsRequiredName, IsNormName, Fits, Ascii;
    var classified := Classify(r.name, h.dims.nLayers);
    if classified.None? {
      Unclassified(r.name, h);
    } else {
      var slot := classified.value;
      ClassifiedIsNamed(r.name, h.dims.nLayers, slot);
      BitInRange(slot, h.dims.nLayers);
      GlobalSlotNames();
      if F32Only(slot) {
        NormNames(slot);
      }
      if !ShapeMatches(r.shape, ExpectedDims(slot, h.dims)) {
        Misfit(r.name, r.shape, slot, h.dims);
      }
    }
  }

  lemma Unclassified(name: seq<u8>, h: Header)
    requires h.dims.nLayers <= MAX_LAYERS && Classify(name, h.dims.nLayers).None?
    ensures !IsRequiredName(name, h.dims.nLayers, false)
  {
    hide Classify, SlotName, IsRequiredName;
    if IsRequiredName(name, h.dims.nLayers, false) {
      var slot := SlotNamed(h.(tiedOutput := false), name);
      ClassifyMeaning(name, h.dims.nLayers, slot);
    }
  }

  lemma Misfit(name: seq<u8>, shape: Shape, slot: Slot, d: Dimensions)
    requires name == SlotName(slot) && !ShapeMatches(shape, ExpectedDims(slot, d))
    ensures !Fits(name, shape, F32, d)
  {
    hide SlotName, ShapeMatches, ExpectedDims, Fits;
    if Fits(name, shape, F32, d) {
      FitIsSlots(name, shape, F32, slot, d);
    }
  }

  ghost predicate NamesBroken(table: Slice, h: Header, e: Bxw1Error) {
    || (exists i: nat :: i < h.tensorCount && Decodes(table, i) && NamingBroken(RecordAt(table, i), h, e))
    || (e == DuplicateTensorName && exists i: nat, j: nat :: Repeats(table, h.tensorCount, i, j))
  }

  lemma {:induction false} FirstNameDenial(table: Slice, h: Header, index: nat, seen: set<nat>) returns (i: nat)
    requires AllDecode(table, 0, h.tensorCount) && index <= h.tensorCount && h.dims.nLayers <= MAX_LAYERS
    requires Names(table, h, index, seen).Err? && Names(table, h, index, seen) != Err(DuplicateTensorName)
    ensures i < h.tensorCount && Decodes(table, i)
    ensures NamingBroken(RecordAt(table, i), h, Names(table, h, index, seen).error)
    decreases h.tensorCount - index
  {
    hide DecodeRecord, Admission, NamingBroken;
    assert Decodes(table, index);
    var r := RecordAt(table, index);
    if Admission(r, h, seen).Err? {
      i := index;
      AdmissionDenial(r, h, seen);
    } else {
      i := FirstNameDenial(table, h, index + 1, Admission(r, h, seen).value);
    }
  }

  lemma NamesDenial(table: Slice, h: Header)
    requires AllDecode(table, 0, h.tensorCount) && h.dims.nLayers <= MAX_LAYERS
    requires Names(table, h, 0, {}).Err?
    ensures NamesBroken(table, h, Names(table, h, 0, {}).error)
  {
    hide Names, NamingBroken, Repeats, RepeatComesFirst, DecodeRecord;
    if Names(table, h, 0, {}) == Err(DuplicateTensorName) {
      DuplicateExactly(table, h);
    } else {
      var i := FirstNameDenial(table, h, 0, {});
    }
  }

  // ---- Payloads -----------------------------------------------------------------------------

  /** The rules on one tensor's bytes. */
  ghost predicate TensorBroken(hash: Hash, blob: Slice, r: Record, e: Bxw1Error) {
    && r.dataOff + r.dataLen <= |blob|
    && var payload := blob[r.dataOff..r.dataOff + r.dataLen];
       var scaleLen := 4 * (r.shape.elements / 32);
       || (e == TensorDigestMismatch && hash(payload) != r.digest)
       || (e == NonFiniteF32Element && r.dtype.F32? && !AllElementsFinite(payload))
       || (e == InvalidQ8Scale && r.dtype != F32 && scaleLen <= |payload| && !AllScalesPositive(payload[..scaleLen]))
       || (&& e == NonZeroPadByte && r.dtype != F32 && RoundUp(scaleLen) <= |payload|
           && !AllZero(payload[scaleLen..RoundUp(scaleLen)]))
  }

  lemma TensorDenial(hash: Hash, blob: Slice, r: Record)
    requires RecordValid(r) && r.dataOff + r.dataLen <= |blob| && TensorFault(hash, blob, r).Some?
    ensures TensorBroken(hash, blob, r, TensorFault(hash, blob, r).value)
  {
    hide RoundUp, AllElementsFinite, AllScalesPositive, AllZero, UsedSlotsOk, Product;
  }

  /** The rules on what lies between and inside the extents from `cursor` on. */
  ghost predicate PayloadBroken(hash: Hash, blob: Slice, records: seq<Record>, cursor: nat, e: Bxw1Error) {
    || (exists i: nat :: i < |records| && TensorBroken(hash, blob, records[i], e))
    || (e == NonZeroPadByte && exists i: nat :: i <= |records| && GapBroken(blob, records, cursor, i))
  }

  /** The bytes between the extent before record `i` and record `i`, or the end, are not all zero. */
  ghost predicate GapBroken(blob: Slice, records: seq<Record>, cursor: nat, i: nat)
    requires i <= |records|
  {
    var low, high := EndBefore(records, cursor, i), if i < |records| then records[i].dataOff else |blob|;
    low <= high <= |blob| && !AllZero(blob[low..high])
  }

  lemma {:induction false} PayloadDenial(hash: Hash, blob: Slice, records: seq<Record>, cursor: nat)
    requires Placed(blob, records, cursor) && PayloadFault(hash, blob, records, cursor).Some?
    ensures PayloadBroken(hash, blob, records, cursor, PayloadFault(hash, blob, records, cursor).value)
    decreases |records|
  {
    hide RecordValid, TensorFault, TensorBroken, AllZero;
    var fault := PayloadFault(hash, blob, records, cursor).value;
    if records == [] || PadFault(blob, cursor, records[0].dataOff).Some? {
      assert GapBroken(blob, records, cursor, 0);
    } else if TensorFault(hash, blob, records[0]).Some? {
      TensorDenial(hash, blob, records[0]);
      assert TensorBroken(hash, blob, records[0], fault);
    } else {
      var rest, next := records[1..], records[0].dataOff + records[0].dataLen;
      PayloadDenial(hash, blob, rest, next);
      if i: nat :| i < |rest| && TensorBroken(hash, blob, rest[i], fault) {
        assert rest[i] == records[i + 1];
      } else {
        var i: nat :| i <= |rest| && GapBroken(blob, rest, next, i);
        assert GapBroken(blob, records, cursor, i + 1);
      }
    }
  }

  // ---- The whole loader --------------------------------------------------------------------------

  /** What a blob that opens with header `h` breaks after it. */
  ghost predicate BodyBroken(hash: Hash, blob: Slice, h: Header, e: Bxw1Error) {
    && TableEnd(h.tensorCount) <= h.tensorDataOff <= |blob|
    && var table := TableOf(blob, h);
       || (e == TensorTableDigestMismatch && hash(table) != h.tableDigest)
       || TableBroken(table, h, e)
       || NamesBroken(table, h, e)
       || (e == NonZeroPadByte && !AllZero(blob[TableEnd(h.tensorCount)..h.tensorDataOff]))
       || (&& AllDecode(table, 0, h.tensorCount)
           && PayloadBroken(hash, blob, Records(table, 0, h.tensorCount), h.tensorDataOff, e))
  }

  /** A rule the blob's bytes break: of size, of the header, or of what follows the header they spell. */
  ghost predicate Broken(hash: Hash, blob: Slice, capacity: u64, e: Bxw1Error) {
    || (e == EmptyBlob && blob == [])
    || (e == BlobTooSmallForHeader && 0 < |blob| < 256)
    || (e == BlobExceedsMaxSize && |blob| > MAX_BLOB_BYTES)
    || (e == BlobExceedsRegionCapacity && |blob| > capacity)
    || (|blob| >= 256 && HeaderBroken(blob, |blob|, capacity, e))
    || exists h :: Part(blob, 0, HeaderBytes(h)) && BodyBroken(hash, blob, h, e)
  }

  lemma BodyDenial(hash: Hash, blob: Slice, capacity: u64, h: Header)
    requires HeaderValid(h, |blob|, capacity) && Loaded(hash, blob, capacity, h).Err?
    ensures BodyBroken(hash, blob, h, Loaded(hash, blob, capacity, h).error)
  {
    hide Structure, Names, PayloadFault, RequiredBits, DecodeRecord, Placed, Records, TableBroken, NamesBroken;
    hide PayloadBroken, RoundUp, AllZero;
    var table := TableOf(blob, h);
    if Structure(table, h, capacity).Err? {
      StructureDenial(table, h, |blob|, capacity);
    } else {
      StructureHolds(blob, h, capacity);
      if Names(table, h, 0, {}).Err? {
        NamesDenial(table, h);
      } else {
        Pigeonhole(table, h);
        var records := Records(table, 0, h.tensorCount);
        if PayloadFault(hash, blob, records, h.tensorDataOff).Some? {
          PayloadDenial(hash, blob, records, h.tensorDataOff);
        }
      }
    }
  }

  /** Whatever the loader denies a blob with is a rule that blob really breaks. */
  lemma EveryDenialIsTrue(hash: Hash, blob: Slice, capacity: u64)
    requires Accepted(hash, blob, capacity).Err?
    ensures Broken(hash, blob, capacity, Accepted(hash, blob, capacity).error)
  {
    hide ParseHeader, Loaded, HeaderBroken, BodyBroken, HeaderBytes, HeaderAdmissible, Part, DimensionsValid;
    if 256 <= |blob| <= MAX_BLOB_BYTES && |blob| <= capacity {
      var parsed := ParseHeader(blob, |blob|, capacity);
      if parsed.Err? {
        HeaderDenial(blob, |blob|, capacity);
      } else {
        HeaderExactly(blob, |blob|, capacity, parsed.value);
        BodyDenial(hash, blob, capacity, parsed.value);
      }
    }
  }
}
