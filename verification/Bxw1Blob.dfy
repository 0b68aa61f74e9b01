/** Loading a whole BXW1 weight blob, and what holding an accepted one guarantees. */
module Bxw1Blob {
  import opened Results
  import opened Bytes
  import opened Bxw1Header
  import opened Bxw1Table
  import opened Bxw1Names
  import opened Bxw1Shapes
  import opened Bxw1Payload
  import opened Bxw1Encode

  datatype Weights = Weights(table: Slice, header: Header, digest: Digest)

  datatype Tensor = Tensor(name: seq<u8>, dtype: Dtype, shape: Shape, offset: u64, data: seq<u8>)

  function TableOf(blob: Slice, header: Header): (table: Slice)
    requires TableEnd(header.tensorCount) <= |blob|
    ensures |table| == header.tensorCount * RECORD_BYTES
  {
    blob[HEADER_BYTES..TableEnd(header.tensorCount)]
  }

  /** The structural facts every later step of loading and reading relies on. */
  ghost predicate Structured(blob: Slice, header: Header) {
    && header.totalSize == |blob|
    && TableEnd(header.tensorCount) <= header.tensorDataOff <= |blob|
    && AllDecode(TableOf(blob, header), 0, header.tensorCount)
    && Placed(blob, Records(TableOf(blob, header), 0, header.tensorCount), header.tensorDataOff)
  }

  lemma StructureHolds(blob: Slice, header: Header, capacity: u64)
    requires HeaderValid(header, |blob|, capacity)
    requires Structure(TableOf(blob, header), header, capacity).Ok?
    ensures Structured(blob, header)
  {
    hide Structure, Canonical, RoundUp, DecodeRecord, Records, Placed, DimensionsValid;
    var table := TableOf(blob, header);
    StructureIsCanonical(table, header, |blob|, capacity);
    RoundUpUnique(header.tensorDataOff, header.tensorDataOff);
    CanonicalIsPlaced(blob, table, 0, header.tensorCount, header.tensorDataOff);
  }

  /** Every stage in order: sizes, header, table digest, structure, names, payload. */
  ghost function Accepted(hash: Hash, blob: Slice, capacity: u64): (r: Result<Weights, Bxw1Error>) {
    hide ParseHeader, Structure, Names, PassFault, RequiredBits, DimensionsValid;
    if blob == [] then Err(EmptyBlob) else
    if |blob| < HEADER_BYTES then Err(BlobTooSmallForHeader) else
    if |blob| > MAX_BLOB_BYTES then Err(BlobExceedsMaxSize) else
    if |blob| > capacity then Err(BlobExceedsRegionCapacity) else
    var header :- ParseHeader(blob, |blob|, capacity);
    Loaded(hash, blob, capacity, header)
  }

  /** The stages after the header. */
  ghost function Loaded(hash: Hash, blob: Slice, capacity: u64, header: Header): (r: Result<Weights, Bxw1Error>)
    requires HeaderValid(header, |blob|, capacity)
  {
    hide Structure, Names, PassFault, RequiredBits, DimensionsValid, DecodeRecord, Placed, Records;
    var table := TableOf(blob, header);
    if hash(table) != header.tableDigest then Err(TensorTableDigestMismatch) else
    var _ :- Structure(table, header, capacity);
    StructureHolds(blob, header, capacity);
    var seen :- Names(table, header, 0, {});
    if !(RequiredBits(header.dims.nLayers, header.tiedOutput) <= seen) then Err(MissingRequiredTensor) else
    var fault := PassFault(hash, blob, Records(table, 0, header.tensorCount), header);
    if fault.Some? then Err(fault.value) else Ok(Weights(table, header, hash(blob)))
  }

  /** The two table loops of stages S5 and S6, and the payload pass. */
  method Parse(hash: Hash, blob: Slice, capacity: u64) returns (r: Result<Weights, Bxw1Error>)
    ensures r == Accepted(hash, blob, capacity)
  {
    hide ParseHeader, Loaded, DimensionsValid;
    if blob == [] {
      return Err(EmptyBlob);
    }
    if |blob| < HEADER_BYTES {
      return Err(BlobTooSmallForHeader);
    }
    if |blob| > MAX_BLOB_BYTES {
      return Err(BlobExceedsMaxSize);
    }
    if |blob| > capacity {
      return Err(BlobExceedsRegionCapacity);
    }
    var header :- ParseHeader(blob, |blob|, capacity);
    r := Load(hash, blob, capacity, header);
  }

  method WalkStructure(table: Slice, header: Header, capacity: u64) returns (r: Result<u64, Bxw1Error>)
    requires header.tensorCount * RECORD_BYTES <= |table|
    ensures r == Structure(table, header, capacity)
  {
    hide DecodeRecord, WalkExtent, RoundUp;
    var cursor: u64 := header.tensorDataOff;
    var index: u32 := 0;
    while index < header.tensorCount
      invariant index <= header.tensorCount
      invariant Extents(table, header, capacity, 0, header.tensorDataOff)
             == Extents(table, header, capacity, index, cursor)
    {
      var record :- DecodeRecord(table, index);
      cursor :- WalkExtent(record, header, index, cursor, capacity);
      index := index + 1;
    }
    var _ :- RequireNoTrailingBytes(cursor, header);
    return Ok(cursor);
  }

  method AdmitAll(table: Slice, header: Header, seen: SlotSet) returns (r: Result<(), Bxw1Error>)
    requires header.tensorCount * RECORD_BYTES <= |table|
    requires seen.Valid() && seen.Bits() == {}
    modifies seen.words
    ensures r == match Names(table, header, 0, {}) case Ok(_) => Ok(()) case Err(error) => Err(error)
    ensures r.Ok? ==> Names(table, header, 0, {}) == Ok(seen.Bits())
  {
    hide DecodeRecord, Admission;
    var index: u32 := 0;
    while index < header.tensorCount
      invariant index <= header.tensorCount
      invariant Names(table, header, 0, {}) == Names(table, header, index, seen.Bits())
    {
      var record :- DecodeRecord(table, index);
      var _ :- Admit(record, header, seen);
      index := index + 1;
    }
    return Ok(());
  }

  method Load(hash: Hash, blob: Slice, capacity: u64, header: Header) returns (r: Result<Weights, Bxw1Error>)
    requires HeaderValid(header, |blob|, capacity)
    ensures r == Loaded(hash, blob, capacity, header)
  {
    hide Structure, Names, PassFault, RequiredBits, DecodeRecord, Placed, Records, AllDecode;
    var table := TableOf(blob, header);
    if hash(table) != header.tableDigest {
      return Err(TensorTableDigestMismatch);
    }
    var _ :- WalkStructure(table, header, capacity);
    StructureHolds(blob, header, capacity);
    var seen := new SlotSet();
    var _ :- AdmitAll(table, header, seen);
    var complete := RequireComplete(seen, header);
    if complete.Err? {
      return Err(complete.error);
    }
    var digest :- Verify(hash, blob, table, header);
    return Ok(Weights(table, header, digest));
  }

  // ---- What acceptance guarantees -----------------------------------------------------

  /** The completeness check after the name pass is never the one that denies. */
  lemma NeverMissing(hash: Hash, blob: Slice, capacity: u64)
    ensures Accepted(hash, blob, capacity) != Err(MissingRequiredTensor)
  {
    hide ParseHeader, Names, Structure, PassFault, RequiredBits, Placed, Records, DecodeRecord, DimensionsValid;
    if HEADER_BYTES <= |blob| <= MAX_BLOB_BYTES && |blob| <= capacity {
      var parsed := ParseHeader(blob, |blob|, capacity);
      if parsed.Ok? && Names(TableOf(blob, parsed.value), parsed.value, 0, {}).Ok? {
        Pigeonhole(TableOf(blob, parsed.value), parsed.value);
      }
    }
  }

  /** The facts that make an accepted blob safe to read. */
  ghost predicate Sound(blob: Slice, w: Weights) {
    && Structured(blob, w.header) && w.table == TableOf(blob, w.header)
    && w.header.dims.nLayers <= MAX_LAYERS
    && w.header.tensorCount == RequiredCount(w.header.dims.nLayers, w.header.tiedOutput)
    && Names(w.table, w.header, 0, {}).Ok?
  }

  /**
   An accepted blob is canonical, complete and fully hashed: every offset and the
   total size follow from dtypes and element counts, each pad byte is zero, each
   tensor matches its digest and content rules, and the digest covers every byte.
   */
  lemma AcceptedMeaning(hash: Hash, blob: Slice, capacity: u64)
    requires Accepted(hash, blob, capacity).Ok?
    ensures var w := Accepted(hash, blob, capacity).value;
      && Sound(blob, w)
      && w.digest == hash(blob) && w.header.tableDigest == hash(w.table)
      && |blob| == w.header.totalSize <= capacity
      && Canonical(w.table, 0, w.header.tensorCount, RoundUp(TableEnd(w.header.tensorCount)), |blob|)
      && PassFault(hash, blob, Records(w.table, 0, w.header.tensorCount), w.header).None?
  {
    hide ParseHeader, Names, Structure, PassFault, RequiredBits, Placed, Records, DecodeRecord, Canonical, RoundUp;
    var header := ParseHeader(blob, |blob|, capacity).value;
    StructureHolds(blob, header, capacity);
    StructureIsCanonical(TableOf(blob, header), header, |blob|, capacity);
  }

  /** Everything the loader requires of a blob's bytes, with no order of checks and no stage. */
  ghost predicate Acceptable(hash: Hash, blob: Slice, capacity: u64, h: Header) {
    && HEADER_BYTES <= |blob| <= MAX_BLOB_BYTES && |blob| <= capacity
    && Part(blob, 0, HeaderBytes(h)) && HeaderAdmissible(h, |blob|, capacity)
    && TableEnd(h.tensorCount) <= h.tensorDataOff <= |blob|
    && var table := TableOf(blob, h);
       && hash(table) == h.tableDigest && AllFit(table, h)
       && Canonical(table, 0, h.tensorCount, RoundUp(TableEnd(h.tensorCount)), |blob|)
       && AllZero(blob[TableEnd(h.tensorCount)..h.tensorDataOff])
       && PayloadGood(hash, blob, Records(table, 0, h.tensorCount), h.tensorDataOff)
  }

  /** The loader accepts exactly the acceptable blobs, and hands back the header they open with. */
  lemma AcceptanceExactly(hash: Hash, blob: Slice, capacity: u64, h: Header)
    ensures Accepted(hash, blob, capacity).Ok? && Accepted(hash, blob, capacity).value.header == h <==>
      Acceptable(hash, blob, capacity, h)
  {
    hide ParseHeader, Loaded, HeaderBytes, Part, Canonical, PayloadGood, Records, RoundUp, AllFit, AllZero;
    hide RopeValid, DimensionsValid;
    if HEADER_BYTES <= |blob| <= MAX_BLOB_BYTES && |blob| <= capacity {
      HeaderExactly(blob, |blob|, capacity, h);
      if ParseHeader(blob, |blob|, capacity) == Ok(h) {
        LoadedExactly(hash, blob, capacity, h);
      }
    }
    if Accepted(hash, blob, capacity).Ok? {
      LoadedHeader(hash, blob, capacity);
    }
  }

  lemma LoadedHeader(hash: Hash, blob: Slice, capacity: u64)
    requires Accepted(hash, blob, capacity).Ok?
    ensures ParseHeader(blob, |blob|, capacity) == Ok(Accepted(hash, blob, capacity).value.header)
  {
    hide ParseHeader, Structure, Names, PassFault, RequiredBits, Placed, Records, DecodeRecord, DimensionsValid;
  }

  lemma LoadedExactly(hash: Hash, blob: Slice, capacity: u64, h: Header)
    requires HeaderValid(h, |blob|, capacity)
    ensures var table := TableOf(blob, h);
      Loaded(hash, blob, capacity, h).Ok? <==>
        && hash(table) == h.tableDigest && AllFit(table, h)
        && Canonical(table, 0, h.tensorCount, RoundUp(TableEnd(h.tensorCount)), |blob|)
        && AllZero(blob[TableEnd(h.tensorCount)..h.tensorDataOff])
        && PayloadGood(hash, blob, Records(table, 0, h.tensorCount), h.tensorDataOff)
  {
    hide Structure, Names, PayloadFault, PayloadGood, RequiredBits, Placed, Records, DecodeRecord, Canonical, RoundUp;
    hide AllNamed, AllFit, AllZero;
    var table := TableOf(blob, h);
    StructureIsCanonical(table, h, |blob|, capacity);
    if Structure(table, h, capacity).Ok? {
      StructureHolds(blob, h, capacity);
      PayloadMeaning(hash, blob, Records(table, 0, h.tensorCount), h.tensorDataOff);
    }
    NamesMeaning(table, h);
    NamedMeaning(table, h);
    if Names(table, h, 0, {}).Ok? {
      Pigeonhole(table, h);
    }
  }

  // ---- Reading tensors ------------------------------------------------------------

  ghost function TensorOf(blob: Slice, record: Record): (t: Tensor)
    requires record.dataOff + record.dataLen <= |blob|
  {
    Tensor(record.name, record.dtype, record.shape, record.dataOff,
           blob[record.dataOff..record.dataOff + record.dataLen])
  }

  lemma {:induction false} PlacedFits(blob: Slice, records: seq<Record>, cursor: nat, i: nat)
    requires Placed(blob, records, cursor) && i < |records|
    ensures RecordValid(records[i]) && records[i].dataOff + records[i].dataLen <= |blob|
    decreases i
  {
    hide RecordValid;
    if i > 0 {
      PlacedFits(blob, records[1..], records[0].dataOff + records[0].dataLen, i - 1);
    }
  }

  /** Record `i` of an accepted blob decodes, and its payload lies inside the blob. */
  lemma RecordReadable(blob: Slice, w: Weights, i: nat)
    requires Sound(blob, w) && i < w.header.tensorCount
    ensures Decodes(w.table, i) && RecordAt(w.table, i).dataOff + RecordAt(w.table, i).dataLen <= |blob|
  {
    hide Placed, Records, DecodeRecord, Names, RecordValid;
    RecordsIndex(w.table, 0, w.header.tensorCount, i);
    PlacedFits(blob, Records(w.table, 0, w.header.tensorCount), w.header.tensorDataOff, i);
  }

  method TensorAt(blob: Slice, w: Weights, index: u32) returns (r: Result<Tensor, Bxw1Error>)
    requires Sound(blob, w)
    ensures index >= w.header.tensorCount ==> r == Err(TensorIndexOutOfRange)
    ensures index < w.header.tensorCount ==>
      && Decodes(w.table, index) && RecordAt(w.table, index).dataOff + RecordAt(w.table, index).dataLen <= |blob|
      && r == Ok(TensorOf(blob, RecordAt(w.table, index)))
  {
    hide DecodeRecord, Placed, Records, Names;
    if index >= w.header.tensorCount {
      return Err(TensorIndexOutOfRange);
    }
    RecordReadable(blob, w, index);
    var record := DecodeRecord(w.table, index).value;
    return Ok(Tensor(record.name, record.dtype, record.shape, record.dataOff,
                     blob[record.dataOff..record.dataOff + record.dataLen]));
  }

  /** Each required name belongs to exactly one record, with the dtype and shape its slot demands. */
  lemma RequiredTensor(blob: Slice, w: Weights, slot: Slot) returns (i: nat)
    requires Sound(blob, w) && Required(slot, w.header)
    ensures i < w.header.tensorCount && IsTensor(w.table, w.header, i, slot)
    ensures forall j: nat :: j < w.header.tensorCount && j != i ==>
      Decodes(w.table, j) && RecordAt(w.table, j).name != SlotName(slot)
  {
    hide DecodeRecord, Names, Placed, Records, RequiredBits, SlotName, Bit;
    Pigeonhole(w.table, w.header);
    RequiredBitMeaning(slot, w.header);
    i := NamesWitness(w.table, w.header, 0, {}, slot);
    forall j: nat | j < w.header.tensorCount && j != i
      ensures Decodes(w.table, j) && RecordAt(w.table, j).name != SlotName(slot)
    {
      if i < j {
        NamesUnique(w.table, w.header, 0, {}, slot, i, j);
      } else {
        var other := NamesAllRequired(w.table, w.header, 0, {}, j);
        if SlotName(other) == SlotName(slot) {
          NamesUnique(w.table, w.header, 0, {}, slot, j, i);
        }
      }
    }
  }

  /** The names an accepted blob resolves are exactly the required ones. */
  lemma ResolvedNames(blob: Slice, w: Weights, i: nat) returns (slot: Slot)
    requires Sound(blob, w) && i < w.header.tensorCount
    ensures IsTensor(w.table, w.header, i, slot)
  {
    hide DecodeRecord, Names, Placed, Records, IsTensor;
    slot := NamesAllRequired(w.table, w.header, 0, {}, i);
  }

  /**
   The scan by name succeeds exactly for the required names; what it returns is the
   one record so named, with the shape and dtype its name demands, so the tensors of a
   model compose.
   */
  method TensorByName(blob: Slice, w: Weights, name: seq<u8>) returns (r: Result<Tensor, Bxw1Error>)
    requires Sound(blob, w)
    ensures r.Ok? <==> IsRequiredName(name, w.header.dims.nLayers, w.header.tiedOutput)
    ensures r.Err? ==> r.error == TensorNameNotFound
    ensures r.Ok? ==> exists i: nat ::
      && i < w.header.tensorCount && Decodes(w.table, i) && RecordAt(w.table, i).name == name
      && RecordAt(w.table, i).dataOff + RecordAt(w.table, i).dataLen <= |blob|
      && r.value == TensorOf(blob, RecordAt(w.table, i))
    ensures r.Ok? ==> r.value.name == name && Fits(name, r.value.shape, r.value.dtype, w.header.dims)
  {
    hide DecodeRecord, Sound, SlotName, Required, ShapeMatches, ExpectedDims, Fits, IsRequiredName;
    var index: u32 := 0;
    while index < w.header.tensorCount
      invariant index <= w.header.tensorCount
      invariant forall i: nat :: i < index ==> Decodes(w.table, i) && RecordAt(w.table, i).name != name
    {
      var tensor := TensorAt(blob, w, index);
      if tensor.value.name == name {
        NamedRecord(blob, w, name, index);
        return tensor;
      }
      index := index + 1;
    }
    UnnamedRecord(blob, w, name);
    return Err(TensorNameNotFound);
  }

  /** The record found under a name is required and has the shape that name demands. */
  lemma NamedRecord(blob: Slice, w: Weights, name: seq<u8>, i: nat)
    requires Sound(blob, w) && i < w.header.tensorCount
    requires Decodes(w.table, i) && RecordAt(w.table, i).name == name
    ensures IsRequiredName(name, w.header.dims.nLayers, w.header.tiedOutput)
    ensures Fits(name, RecordAt(w.table, i).shape, RecordAt(w.table, i).dtype, w.header.dims)
  {
    hide DecodeRecord, Sound, SlotName, Required, ShapeMatches, ExpectedDims, F32Only, Fits, IsRequiredName;
    var slot := ResolvedNames(blob, w, i);
    SlotIsRequired(w.header, slot);
    TensorFits(name, RecordAt(w.table, i).shape, RecordAt(w.table, i).dtype, slot, w.header.dims);
  }

  lemma UnnamedRecord(blob: Slice, w: Weights, name: seq<u8>)
    requires Sound(blob, w)
    requires forall i: nat :: i < w.header.tensorCount ==> Decodes(w.table, i) && RecordAt(w.table, i).name != name
    ensures !IsRequiredName(name, w.header.dims.nLayers, w.header.tiedOutput)
  {
    hide DecodeRecord, Sound, SlotName, Required, IsRequiredName;
    if IsRequiredName(name, w.header.dims.nLayers, w.header.tiedOutput) {
      var slot := SlotNamed(w.header, name);
      var k := RequiredTensor(blob, w, slot);
    }
  }
}
