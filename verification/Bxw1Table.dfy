/** Tensor-table records, derived payload lengths, and the one-cursor extent walk. */
module Bxw1Table {
  import opened Results
  import opened Bytes
  import opened Bxw1Header

  const MAX_RANK: int := 4
  const MAX_DIM: int := 0x1000_0000
  const MAX_ELEMENTS: int := 0x8_0000_0000
  const BLOCK: int := 32

  datatype Dtype = F32 | Q8 | Q4 {
    predicate Blocked() {
      !F32?
    }
  }

  function DtypeFrom(value: u16): (r: Result<Dtype, Bxw1Error>) {
    if value == 0 then Ok(F32) else if value == 1 then Ok(Q8) else if value == 2 then Ok(Q4) else Err(UnknownDtype)
  }

  // ---- Shapes -------------------------------------------------------------

  datatype Shape = Shape(rank: nat, dims: seq<u64>, elements: u64)

  function Product(dims: seq<u64>): (p: nat) {
    if dims == [] then 1 else Product(dims[..|dims| - 1]) * dims[|dims| - 1]
  }

  function DimAt(record: seq<u8>, slot: nat): (v: u64)
    requires |record| == RECORD_BYTES && slot < MAX_RANK
  {
    U64At(record, 72 + 8 * slot)
  }

  function DimsOf(record: seq<u8>): (dims: seq<u64>)
    requires |record| == RECORD_BYTES
    ensures |dims| == MAX_RANK
    ensures forall i :: 0 <= i < MAX_RANK ==> dims[i] == DimAt(record, i)
  {
    seq(MAX_RANK, i requires 0 <= i < MAX_RANK => DimAt(record, i))
  }

  /** The first rule broken by slot `slot`, given the product of the slots before it. */
  function SlotFault(value: u64, used: bool, before: nat): (fault: Option<Bxw1Error>) {
    if !used then (if value != 0 then Some(UnusedDimensionNonZero) else None)
    else if value == 0 then Some(ZeroDimension)
    else if value > MAX_DIM then Some(DimensionExceedsCeiling)
    else if before * value >= TWO_64 then Some(ElementProductOverflow)
    else if before * value > MAX_ELEMENTS then Some(ElementCountExceedsCeiling)
    else None
  }

  /** Slots `slot..4` in turn, `product` being that of the used slots before. */
  function DimsFault(dims: seq<u64>, rank: nat, slot: nat, product: nat): (fault: Option<Bxw1Error>)
    requires |dims| == MAX_RANK && slot <= MAX_RANK
    ensures fault != Some(MissingRequiredTensor)
    decreases MAX_RANK - slot
  {
    if slot == MAX_RANK then None
    else
      var here := SlotFault(dims[slot], slot < rank, product);
      if here.Some? then here
      else DimsFault(dims, rank, slot + 1, if slot < rank then product * dims[slot] else product)
  }

  function ShapeOf(record: seq<u8>, dtype: Dtype): (r: Result<Shape, Bxw1Error>)
    requires |record| == RECORD_BYTES
  {
    var rank := U16At(record, 66);
    if rank == 0 then Err(ZeroRank) else
    if rank > MAX_RANK then Err(RankExceedsCeiling) else
    var dims := DimsOf(record);
    var fault := DimsFault(dims, rank, 0, 1);
    if fault.Some? then Err(fault.value) else
    if dtype.Blocked() && dims[rank - 1] % BLOCK != 0 then Err(LastDimensionNotBlockAligned) else
    DimsMeaning(dims, rank, 0, 1);
    Ok(Shape(rank, dims, Product(dims[..rank])))
  }

  ghost predicate UsedSlotsOk(dims: seq<u64>, rank: nat) {
    && |dims| == MAX_RANK && rank <= MAX_RANK
    && (forall i :: 0 <= i < rank ==> 1 <= dims[i] <= MAX_DIM)
    && (forall i :: rank <= i < MAX_RANK ==> dims[i] == 0)
    && Product(dims[..rank]) <= MAX_ELEMENTS
  }

  lemma EmptyProduct(dims: seq<u64>)
    ensures Product(dims[..0]) == 1
  {
  }

  lemma ProductStep(dims: seq<u64>, slot: nat)
    requires slot < |dims|
    ensures Product(dims[..slot + 1]) == Product(dims[..slot]) * dims[slot]
  {
    assert dims[..slot + 1][..slot] == dims[..slot];
  }

  lemma {:induction false} ProductGrows(dims: seq<u64>, slot: nat, rank: nat)
    requires slot <= rank <= |dims| && forall i :: 0 <= i < rank ==> 1 <= dims[i]
    ensures 1 <= Product(dims[..slot]) <= Product(dims[..rank])
    decreases rank
  {
    if slot < rank {
      ProductGrows(dims, slot, rank - 1);
      ProductStep(dims, rank - 1);
      MulGrows(Product(dims[..rank - 1]), dims[rank - 1]);
    } else if rank > 0 {
      ProductGrows(dims, rank - 1, rank - 1);
      ProductStep(dims, rank - 1);
      MulGrows(Product(dims[..rank - 1]), dims[rank - 1]);
    }
  }

  lemma MulGrows(a: nat, b: nat)
    requires a >= 1 && b >= 1
    ensures a * b >= a && a * b >= 1
  {
  }

  /**
   Checking the running product after every factor accepts exactly the shapes whose
   whole product is in bounds; the checked multiplication itself never overflows.
   */
  lemma {:induction false} DimsMeaning(dims: seq<u64>, rank: nat, slot: nat, product: nat)
    requires |dims| == MAX_RANK && rank <= MAX_RANK && slot <= MAX_RANK
    requires product == Product(dims[..if slot < rank then slot else rank]) <= MAX_ELEMENTS
    requires forall i :: 0 <= i < slot ==> if i < rank then 1 <= dims[i] <= MAX_DIM else dims[i] == 0
    ensures DimsFault(dims, rank, slot, product).None? <==> UsedSlotsOk(dims, rank)
    ensures DimsFault(dims, rank, slot, product) != Some(ElementProductOverflow)
    decreases MAX_RANK - slot
  {
    if slot < MAX_RANK {
      if slot < rank {
        ProductStep(dims, slot);
        if 1 <= dims[slot] <= MAX_DIM {
          MulBound(product, dims[slot]);
        }
        if UsedSlotsOk(dims, rank) {
          ProductGrows(dims, slot + 1, rank);
        }
      }
      if SlotFault(dims[slot], slot < rank, product).None? {
        DimsMeaning(dims, rank, slot + 1, if slot < rank then product * dims[slot] else product);
      }
    }
  }

  lemma {:induction false} MulMonotone(a: nat, bound: nat, b: nat)
    requires a <= bound
    ensures a * b <= bound * b
  {
    if b > 0 {
      MulMonotone(a, bound, b - 1);
      assert a * b == a * (b - 1) + a && bound * b == bound * (b - 1) + bound;
    }
  }

  lemma MulBound(a: nat, b: nat)
    requires a <= MAX_ELEMENTS && b <= MAX_DIM
    ensures a * b < TWO_64
  {
    MulMonotone(a, MAX_ELEMENTS, b);
  }

  lemma FaultStep(dims: seq<u64>, rank: nat, slot: nat, product: nat)
    requires |dims| == MAX_RANK && slot < MAX_RANK
    ensures var here := SlotFault(dims[slot], slot < rank, product);
      && (here.Some? ==> DimsFault(dims, rank, slot, product) == here)
      && (here.None? ==>
            DimsFault(dims, rank, slot, product)
              == DimsFault(dims, rank, slot + 1, if slot < rank then product * dims[slot] else product))
      && (here.None? && slot < rank ==> product * dims[slot] <= MAX_ELEMENTS)
  {
  }

  lemma NoFaultLeft(dims: seq<u64>, rank: nat, product: nat)
    requires |dims| == MAX_RANK
    ensures DimsFault(dims, rank, MAX_RANK, product).None?
  {
  }

  /** The loop that fills the dimension slots and folds their product. */
  method DecodeShape(record: seq<u8>, dtype: Dtype) returns (r: Result<Shape, Bxw1Error>)
    requires |record| == RECORD_BYTES
    ensures r == ShapeOf(record, dtype)
  {
    hide U16At, U64At, DimAt, Product, SlotFault, DimsFault;
    var rank: nat := U16At(record, 66);
    if rank == 0 {
      return Err(ZeroRank);
    }
    if rank > MAX_RANK {
      return Err(RankExceedsCeiling);
    }
    ghost var all := DimsOf(record);
    EmptyProduct(all);
    var dims: seq<u64> := [];
    var elements: u64 := 1;
    var last: u64 := 0;
    var slot := 0;
    while slot < MAX_RANK
      invariant 0 <= slot <= MAX_RANK
      invariant dims == all[..slot]
      invariant elements == Product(all[..if slot < rank then slot else rank])
      invariant slot >= rank ==> last == all[rank - 1]
      invariant DimsFault(all, rank, 0, 1) == DimsFault(all, rank, slot, elements)
    {
      var value := DimAt(record, slot);
      FaultStep(all, rank, slot, elements);
      var fault := SlotFault(value, slot < rank, elements);
      if fault.Some? {
        return Err(fault.value);
      }
      if slot < rank {
        ProductStep(all, slot);
        elements := elements * value;
        last := value;
      }
      dims := dims + [value];
      slot := slot + 1;
    }
    NoFaultLeft(all, rank, elements);
    assert dims == all;
    if dtype.Blocked() && last % BLOCK != 0 {
      return Err(LastDimensionNotBlockAligned);
    }
    return Ok(Shape(rank, dims, elements));
  }

  // ---- Derived lengths --------------------------------------------------------

  function ScaleLen(elements: u64): (n: u64)
    ensures n <= elements
  {
    elements / BLOCK * 4
  }

  /** The only payload length a record of this dtype and element count may declare. */
  function DataLen(dtype: Dtype, elements: u64): (n: u64)
    requires elements <= MAX_ELEMENTS
    ensures dtype.Blocked() ==> RoundUp(ScaleLen(elements)) <= n
  {
    match dtype
    case F32 => elements * 4
    case Q8 => RoundUp(ScaleLen(elements)) + elements / BLOCK * 32
    case Q4 => RoundUp(ScaleLen(elements)) + elements / BLOCK * 16
  }

  // ---- Records ----------------------------------------------------------------

  datatype Record = Record(name: seq<u8>, dtype: Dtype, shape: Shape, dataOff: u64, dataLen: u64, digest: Digest) {
    function ExtentEnd(): (r: Result<u64, Bxw1Error>) {
      CheckedAdd(dataOff, dataLen).OkOr(ExtentOverflow)
    }
  }

  /** A printable NUL-terminated name, the rest of its 64-byte field zero. */
  function DecodeName(record: seq<u8>): (r: Result<seq<u8>, Bxw1Error>)
    requires |record| == RECORD_BYTES
    ensures r.Ok? ==> 1 <= |r.value| < 64 && 0 !in r.value
    ensures r != Err(MissingRequiredTensor)
  {
    var field := record[0..64];
    if field[63] != 0 then Err(NameNotTerminated) else
    if field[0] == 0 then Err(NameEmpty) else
    assert field[63] in field;
    var terminator := Position(field, 0).value;
    var name := field[..terminator];
    if exists i :: 0 <= i < |name| && !(0x21 <= name[i] <= 0x7E) then Err(NameNotPrintableAscii) else
    if !AllZero(field[terminator + 1..]) then Err(NameNonZeroAfterTerminator) else
    Ok(name)
  }

  ghost predicate RecordValid(r: Record) {
    && |r.shape.dims| == MAX_RANK && 1 <= r.shape.rank <= MAX_RANK
    && UsedSlotsOk(r.shape.dims, r.shape.rank)
    && r.shape.elements == Product(r.shape.dims[..r.shape.rank])
    && (r.dtype.Blocked() ==> r.shape.dims[r.shape.rank - 1] % BLOCK == 0)
    && r.dataOff % ALIGN == 0
    && r.dataLen == DataLen(r.dtype, r.shape.elements)
    && 0 !in r.name
  }

  /** Record `index` of a table that holds it whole. */
  function DecodeRecord(table: Slice, index: nat): (r: Result<Record, Bxw1Error>)
    requires (index + 1) * RECORD_BYTES <= |table|
    ensures r.Ok? ==> RecordValid(r.value)
    ensures r != Err(MissingRequiredTensor)
  {
    hide U16At, U32At, U64At, DigestAt, DecodeName, Product, DataLen;
    var record := table[index * RECORD_BYTES..(index + 1) * RECORD_BYTES];
    var name :- DecodeName(record);
    var dtype :- DtypeFrom(U16At(record, 64));
    ShapeIsValid(record, dtype);
    var shape :- ShapeOf(record, dtype);
    if U32At(record, 68) != 0 then Err(ReservedRecordFieldNonZero) else
    if U64At(record, 152) != 0 then Err(ReservedRecordFieldNonZero) else
    var dataOff := U64At(record, 104);
    if dataOff % ALIGN != 0 then Err(DataOffsetMisaligned) else
    var dataLen := DataLen(dtype, shape.elements);
    if U64At(record, 112) != dataLen then Err(DeclaredLengthMismatch) else
    Ok(Record(name, dtype, shape, dataOff, dataLen, DigestAt(record, 120)))
  }

  lemma ShapeIsValid(record: seq<u8>, dtype: Dtype)
    requires |record| == RECORD_BYTES
    ensures var r := ShapeOf(record, dtype);
      && r != Err(ElementProductOverflow) && r != Err(MissingRequiredTensor)
      && (r.Ok? ==>
            && 1 <= r.value.rank <= MAX_RANK && UsedSlotsOk(r.value.dims, r.value.rank)
            && r.value.elements == Product(r.value.dims[..r.value.rank])
            && (dtype.Blocked() ==> r.value.dims[r.value.rank - 1] % BLOCK == 0))
  {
    hide U16At, DimAt, DimsFault, UsedSlotsOk;
    var rank := U16At(record, 66);
    if 1 <= rank <= MAX_RANK {
      assert Product(DimsOf(record)[..0]) == 1;
      DimsMeaning(DimsOf(record), rank, 0, 1);
    }
  }

  lemma MultipleOfBlock(before: nat, last: nat)
    requires last % BLOCK == 0
    ensures before * last % BLOCK == 0
  {
    var k := last / BLOCK;
    assert before * last == BLOCK * (before * k);
  }

  /**
   What a length is made of. An F32 tensor has four bytes an element. A blocked one has a scale
   plane of four bytes per 32 elements, padded to the next multiple of 128, and a quant plane of
   one byte an element, or of half a byte for Q4.
   */
  ghost predicate LengthIs(dtype: Dtype, elements: nat, length: nat) {
    if dtype.F32? then length == 4 * elements
    else
      var scales, quants := elements / 8, if dtype.Q4? then elements / 2 else elements;
      var quantOff := length - quants;
      elements % 32 == 0 && quantOff % 128 == 0 && scales <= quantOff < scales + 128
  }

  lemma LengthMeaning(dtype: Dtype, elements: u64, length: nat)
    requires elements <= MAX_ELEMENTS && (dtype.Blocked() ==> elements % 32 == 0)
    ensures DataLen(dtype, elements) == length <==> LengthIs(dtype, elements, length)
  {
    hide RoundUp;
    if dtype.Blocked() {
      BlockSizes(elements);
      var quants := if dtype.Q4? then elements / 2 else elements;
      PlanesMeaning(ScaleLen(elements), quants, length);
    }
  }

  lemma BlockSizes(elements: nat)
    requires elements % 32 == 0
    ensures elements / 8 == elements / 32 * 4 && elements / 2 == elements / 32 * 16 && elements == elements / 32 * 32
  {
    var blocks := elements / 32;
    assert elements == 32 * blocks;
  }

  lemma PlanesMeaning(scales: nat, quants: nat, length: nat)
    ensures RoundUp(scales) + quants == length <==>
      (length - quants) % 128 == 0 && scales <= length - quants < scales + 128
  {
    hide RoundUp;
    if (length - quants) % 128 == 0 && scales <= length - quants < scales + 128 {
      RoundUpUnique(scales, length - quants);
    }
  }

  lemma BlockedElements(dtype: Dtype, dims: seq<u64>, rank: nat)
    requires 1 <= rank <= |dims| && (dtype.Blocked() ==> dims[rank - 1] % BLOCK == 0)
    ensures dtype.Blocked() ==> Product(dims[..rank]) % 32 == 0
  {
    hide Product;
    ProductStep(dims, rank - 1);
    if dtype.Blocked() {
      MultipleOfBlock(Product(dims[..rank - 1]), dims[rank - 1]);
    }
  }

  /** A valid record declares exactly the length its dtype and element count give. */
  lemma DerivedLength(r: Record)
    requires RecordValid(r)
    ensures LengthIs(r.dtype, r.shape.elements, r.dataLen)
  {
    hide Product, LengthIs, DataLen;
    BlockedElements(r.dtype, r.shape.dims, r.shape.rank);
    LengthMeaning(r.dtype, r.shape.elements, r.dataLen);
  }

  // ---- The extent walk ----------------------------------------------------------

  /** One step: where this record's extent leaves the cursor. */
  function WalkExtent(record: Record, header: Header, index: nat, cursor: u64, capacity: u64)
    : (r: Result<u64, Bxw1Error>)
    ensures r != Err(MissingRequiredTensor)
  {
    var end :- record.ExtentEnd();
    if record.dataOff < header.tensorDataOff then Err(ExtentBeforeDataRegion) else
    if end > header.totalSize then Err(ExtentPastBlob) else
    var regionEnd :- CheckedAdd(header.tensorDataOff, header.tensorDataLen).OkOr(TensorDataExtentOverflow);
    if end > regionEnd then Err(ExtentPastDataRegion) else
    if end > capacity then Err(ExtentExceedsRegionCapacity) else
    if index == 0 then
      if record.dataOff != header.tensorDataOff then Err(FirstExtentNotAtDataStart) else Ok(end)
    else
      if record.dataOff < cursor then Err(OverlappingExtents) else
      if record.dataOff - cursor >= ALIGN then Err(ExcessiveExtentGap) else Ok(end)
  }

  /** The structural pass over records `index..count`, carrying one cursor. */
  function Extents(table: Slice, header: Header, capacity: u64, index: nat, cursor: u64): (r: Result<u64, Bxw1Error>)
    requires index <= header.tensorCount && header.tensorCount * RECORD_BYTES <= |table|
    ensures r != Err(MissingRequiredTensor)
    decreases header.tensorCount - index
  {
    if index == header.tensorCount then Ok(cursor)
    else
      var record :- DecodeRecord(table, index);
      var next :- WalkExtent(record, header, index, cursor, capacity);
      Extents(table, header, capacity, index + 1, next)
  }

  /** No unaccounted bytes after the last extent. */
  function RequireNoTrailingBytes(cursor: u64, header: Header): (r: Result<(), Bxw1Error>) {
    if RoundUp(cursor) != header.totalSize then Err(TrailingBytesAfterLastExtent) else Ok(())
  }

  /** All of stage S5. */
  function Structure(table: Slice, header: Header, capacity: u64): (r: Result<u64, Bxw1Error>)
    requires header.tensorCount * RECORD_BYTES <= |table|
    ensures r != Err(MissingRequiredTensor)
  {
    var cursor :- Extents(table, header, capacity, 0, header.tensorDataOff);
    var _ :- RequireNoTrailingBytes(cursor, header);
    Ok(cursor)
  }

  // ---- The canonical layout ---------------------------------------------------------

  /** Where payloads of these lengths must begin: each at the next multiple of 128. */
  ghost function CanonicalOffsets(start: nat, lens: seq<nat>): (offsets: seq<nat>)
    ensures |offsets| == |lens|
    decreases |lens|
  {
    if lens == [] then [] else [start] + CanonicalOffsets(RoundUp(start + lens[0]), lens[1..])
  }

  /** Where the data region of these lengths must end. */
  ghost function CanonicalEnd(start: nat, lens: seq<nat>): (end: nat)
    ensures end >= start
    decreases |lens|
  {
    if lens == [] then start else CanonicalEnd(RoundUp(start + lens[0]), lens[1..])
  }

  ghost predicate AllDecode(table: Slice, lo: nat, hi: nat) {
    lo <= hi && hi * RECORD_BYTES <= |table| && forall i :: lo <= i < hi ==> Decodes(table, i)
  }

  ghost predicate Decodes(table: Slice, i: nat) {
    (i + 1) * RECORD_BYTES <= |table| && DecodeRecord(table, i).Ok?
  }

  ghost function RecordAt(table: Slice, i: nat): (record: Record)
    requires Decodes(table, i)
  {
    DecodeRecord(table, i).value
  }

  ghost function Records(table: Slice, lo: nat, hi: nat): (records: seq<Record>)
    requires AllDecode(table, lo, hi)
    ensures |records| == hi - lo
    decreases hi - lo
  {
    hide DecodeRecord;
    if lo == hi then [] else [RecordAt(table, lo)] + Records(table, lo + 1, hi)
  }

  lemma {:induction false} RecordsIndex(table: Slice, lo: nat, hi: nat, i: nat)
    requires AllDecode(table, lo, hi) && lo <= i < hi
    ensures Decodes(table, i) && Records(table, lo, hi)[i - lo] == RecordAt(table, i)
    decreases hi - lo
  {
    hide DecodeRecord;
    if lo < i {
      RecordsIndex(table, lo + 1, hi, i);
    }
  }

  /** The lengths the dtypes and element counts of records `lo..hi` dictate. */
  ghost function Lens(table: Slice, lo: nat, hi: nat): (lens: seq<nat>)
    requires AllDecode(table, lo, hi)
    ensures |lens| == hi - lo
    decreases hi - lo
  {
    if lo == hi then []
    else
      var r := RecordAt(table, lo);
      [DataLen(r.dtype, r.shape.elements)] + Lens(table, lo + 1, hi)
  }

  ghost function Offsets(table: Slice, lo: nat, hi: nat): (offsets: seq<nat>)
    requires AllDecode(table, lo, hi)
    ensures |offsets| == hi - lo
    decreases hi - lo
  {
    if lo == hi then [] else [RecordAt(table, lo).dataOff] + Offsets(table, lo + 1, hi)
  }

  /** The layout facts of an accepted header that the walk relies on. */
  ghost predicate RegionValid(header: Header, capacity: u64) {
    && header.tensorDataOff % ALIGN == 0
    && header.tensorDataOff + header.tensorDataLen == header.totalSize <= capacity
    && header.totalSize <= MAX_BLOB_BYTES
  }

  lemma HeaderRegion(header: Header, length: u64, capacity: u64)
    requires HeaderValid(header, length, capacity)
    ensures RegionValid(header, capacity)
  {
    hide DimensionsValid;
  }

  /** The step accepts exactly an extent at the next aligned offset that fits the blob. */
  lemma WalkExtentMeaning(record: Record, header: Header, index: nat, cursor: u64, capacity: u64)
    requires RegionValid(header, capacity) && record.dataOff % ALIGN == 0
    requires index == 0 ==> cursor == header.tensorDataOff
    requires header.tensorDataOff <= cursor <= header.totalSize
    ensures var r := WalkExtent(record, header, index, cursor, capacity);
      && (r.Ok? <==> record.dataOff == RoundUp(cursor) && record.dataOff + record.dataLen <= header.totalSize)
      && (r.Ok? ==> r.value == record.dataOff + record.dataLen)
      && (r.Err? ==> r.error !in {TensorDataExtentOverflow, ExtentPastDataRegion, ExtentExceedsRegionCapacity})
  {
    hide RoundUp;
    if cursor <= record.dataOff < cursor + ALIGN {
      RoundUpUnique(cursor, record.dataOff);
    }
    if index == 0 {
      RoundUpUnique(cursor, cursor);
    }
  }

  /** Records `lo..hi` lie where their lengths alone dictate, and nothing follows them. */
  ghost predicate Canonical(table: Slice, lo: nat, hi: nat, start: nat, end: nat) {
    && AllDecode(table, lo, hi)
    && Offsets(table, lo, hi) == CanonicalOffsets(start, Lens(table, lo, hi))
    && CanonicalEnd(start, Lens(table, lo, hi)) == end
  }

  /** Peeling the first record off a canonical run. */
  lemma CanonicalStep(table: Slice, lo: nat, hi: nat, start: nat, end: nat)
    requires lo < hi && Decodes(table, lo)
    ensures Canonical(table, lo, hi, start, end) <==>
      && RecordAt(table, lo).dataOff == start
      && Canonical(table, lo + 1, hi, RoundUp(start + RecordAt(table, lo).dataLen), end)
  {
    hide RoundUp, DecodeRecord, DataLen;
    var r := RecordAt(table, lo);
    assert RecordValid(r);
    if AllDecode(table, lo + 1, hi) {
      assert AllDecode(table, lo, hi);
      var lens := Lens(table, lo, hi);
      assert lens[1..] == Lens(table, lo + 1, hi) && lens[0] == r.dataLen;
      var offsets := Offsets(table, lo, hi);
      assert offsets[1..] == Offsets(table, lo + 1, hi) && offsets[0] == r.dataOff;
      var canonical := CanonicalOffsets(start, lens);
      assert canonical[0] == start && canonical[1..] == CanonicalOffsets(RoundUp(start + lens[0]), lens[1..]);
      assert offsets == [r.dataOff] + offsets[1..];
    }
  }

  lemma CanonicalFits(table: Slice, lo: nat, hi: nat, start: nat, end: nat)
    requires Canonical(table, lo, hi, start, end)
    ensures start <= end
  {
    hide Offsets, Lens, AllDecode;
  }

  /**
   The one-cursor walk followed by the trailing-bytes rule accepts exactly the
   canonical layout: every offset and the total size follow from the dtypes and
   element counts, and every such layout is accepted.
   */
  lemma {:induction false} WalkIsCanonical(table: Slice, header: Header, capacity: u64, index: nat, cursor: u64)
    requires RegionValid(header, capacity)
    requires index <= header.tensorCount && header.tensorCount * RECORD_BYTES <= |table|
    requires header.tensorDataOff <= cursor <= header.totalSize
    requires index == 0 ==> cursor == header.tensorDataOff
    ensures var walk := Extents(table, header, capacity, index, cursor);
      (walk.Ok? && RoundUp(walk.value) == header.totalSize)
      <==> Canonical(table, index, header.tensorCount, RoundUp(cursor), header.totalSize)
    ensures var walk := Extents(table, header, capacity, index, cursor);
      walk.Ok? ==> cursor <= walk.value <= header.totalSize
    decreases header.tensorCount - index
  {
    hide DecodeRecord, RecordValid, WalkExtent, RoundUp, RegionValid;
    if index < header.tensorCount {
      if Decodes(table, index) {
        var record := RecordAt(table, index);
        RecordAligned(record);
        CanonicalStep(table, index, header.tensorCount, RoundUp(cursor), header.totalSize);
        WalkExtentMeaning(record, header, index, cursor, capacity);
        var next := record.dataOff + record.dataLen;
        if record.dataOff == RoundUp(cursor) && next <= header.totalSize {
          WalkIsCanonical(table, header, capacity, index + 1, next);
        } else if Canonical(table, index + 1, header.tensorCount, RoundUp(next), header.totalSize) {
          CanonicalFits(table, index + 1, header.tensorCount, RoundUp(next), header.totalSize);
        }
      }
    }
  }

  lemma RecordAligned(record: Record)
    requires RecordValid(record)
    ensures record.dataOff % ALIGN == 0
  {
  }

  /** Stage S5 as a whole, on a header that passed. */
  lemma StructureIsCanonical(table: Slice, header: Header, length: u64, capacity: u64)
    requires HeaderValid(header, length, capacity) && header.tensorCount * RECORD_BYTES <= |table|
    ensures Structure(table, header, capacity).Ok? <==>
      Canonical(table, 0, header.tensorCount, RoundUp(TableEnd(header.tensorCount)), header.totalSize)
    ensures RoundUp(TableEnd(header.tensorCount)) == header.tensorDataOff
  {
    hide RoundUp, Extents, Canonical, DimensionsValid;
    HeaderRegion(header, length, capacity);
    RoundUpUnique(header.tensorDataOff, header.tensorDataOff);
    WalkIsCanonical(table, header, capacity, 0, header.tensorDataOff);
  }

  /** Where the extent after the `i`-th begins, or the region's end after the last. */
  ghost function NextOffset(start: nat, lens: seq<nat>, i: nat): (next: nat)
    requires i < |lens|
  {
    if i + 1 < |lens| then CanonicalOffsets(start, lens)[i + 1] else CanonicalEnd(start, lens)
  }

  /** Every extent is followed, less than 128 bytes on, by the next one or by the region's end. */
  lemma {:induction false} CanonicalAdjacent(start: nat, lens: seq<nat>, i: nat)
    requires i < |lens|
    ensures var end := CanonicalOffsets(start, lens)[i] + lens[i];
      end <= NextOffset(start, lens, i) < end + ALIGN
    decreases i
  {
    hide RoundUp;
    var next, rest := RoundUp(start + lens[0]), lens[1..];
    if i > 0 {
      CanonicalAdjacent(next, rest, i - 1);
    } else if rest == [] {
      assert CanonicalEnd(start, lens) == CanonicalEnd(next, rest) == next;
    } else {
      assert CanonicalOffsets(start, lens)[1] == CanonicalOffsets(next, rest)[0] == next;
    }
  }

  lemma {:induction false} CanonicalBounds(start: nat, lens: seq<nat>, i: nat)
    requires i < |lens|
    ensures start <= CanonicalOffsets(start, lens)[i]
    ensures CanonicalOffsets(start, lens)[i] + lens[i] <= CanonicalEnd(start, lens)
    decreases |lens|
  {
    hide RoundUp;
    var next, rest := RoundUp(start + lens[0]), lens[1..];
    if i > 0 {
      CanonicalBounds(next, rest, i - 1);
    } else if rest != [] {
      CanonicalBounds(next, rest, 0);
    }
  }

  lemma {:induction false} CanonicalOrdered(start: nat, lens: seq<nat>, i: nat, j: nat)
    requires i < j < |lens|
    ensures CanonicalOffsets(start, lens)[i] + lens[i] <= CanonicalOffsets(start, lens)[j]
    decreases i
  {
    hide RoundUp;
    var next, rest := RoundUp(start + lens[0]), lens[1..];
    if i > 0 {
      CanonicalOrdered(next, rest, i - 1, j - 1);
    } else {
      CanonicalBounds(next, rest, j - 1);
    }
  }

  /**
   What canonical offsets mean: extents in order, each starting less than 128 bytes
   past the one before, the first at `start`, the region's end less than 128 bytes
   past the last; so any two extents are disjoint.
   */
  lemma CanonicalTiles(start: nat, lens: seq<nat>)
    ensures var offs := CanonicalOffsets(start, lens);
      && (lens != [] ==> offs[0] == start)
      && (lens == [] ==> CanonicalEnd(start, lens) == start)
      && (forall i :: 0 <= i < |lens| ==>
            offs[i] + lens[i] <= NextOffset(start, lens, i) < offs[i] + lens[i] + ALIGN)
      && (forall i, j :: 0 <= i < j < |lens| ==> offs[i] + lens[i] <= offs[j])
      && (forall i :: 0 <= i < |lens| ==> start <= offs[i] && offs[i] + lens[i] <= CanonicalEnd(start, lens))
  {
    CanonicalStart(start, lens);
    hide RoundUp, CanonicalOffsets, CanonicalEnd, NextOffset;
    var offs := CanonicalOffsets(start, lens);
    forall i | 0 <= i < |lens|
      ensures offs[i] + lens[i] <= NextOffset(start, lens, i) < offs[i] + lens[i] + ALIGN
    {
      CanonicalAdjacent(start, lens, i);
    }
    forall i | 0 <= i < |lens| ensures start <= offs[i] && offs[i] + lens[i] <= CanonicalEnd(start, lens) {
      CanonicalBounds(start, lens, i);
    }
    forall i, j | 0 <= i < j < |lens| ensures offs[i] + lens[i] <= offs[j] {
      CanonicalOrdered(start, lens, i, j);
    }
  }

  lemma CanonicalStart(start: nat, lens: seq<nat>)
    ensures lens != [] ==> CanonicalOffsets(start, lens)[0] == start
    ensures lens == [] ==> CanonicalEnd(start, lens) == start
  {
  }
}
