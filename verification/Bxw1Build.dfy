/** Building a BXW1 blob from tensors, and the loader's answer to every blob so built. */
module Bxw1Build {
  import opened Results
  import opened Bytes
  import opened Bxw1Header
  import opened Bxw1Table
  import opened Bxw1Names
  import opened Bxw1Shapes
  import opened Bxw1Payload
  import opened Bxw1Encode
  import opened Bxw1Blob

  /** One tensor to place. */
  datatype Spec = Spec(name: seq<u8>, dtype: Dtype, shape: Shape, payload: seq<u8>)

  /** The hyperparameters of a model, without anything layout decides. */
  datatype Model = Model(
    tiedOutput: bool, dims: Dimensions, rope: Rope, bosTokenId: u32, eosTokenId: u32,
    vocabDigest: Digest, vocabLen: u64)

  function RecordFor(hash: Hash, spec: Spec, offset: u64): (r: Record)
    requires |spec.payload| < TWO_64
  {
    Record(spec.name, spec.dtype, spec.shape, offset, |spec.payload|, hash(spec.payload))
  }

  /** A tensor whose own values obey every record and content rule. */
  ghost predicate SpecValid(hash: Hash, spec: Spec) {
    && |spec.payload| < TWO_64 && NameValid(spec.name)
    && RecordValid(RecordFor(hash, spec, 0))
    && ContentGood(RecordFor(hash, spec, 0), spec.payload)
  }

  ghost predicate AllValid(hash: Hash, specs: seq<Spec>) {
    forall i :: 0 <= i < |specs| ==> SpecValid(hash, specs[i])
  }

  // ---- Laying out ------------------------------------------------------------------

  /** Where the data region that starts at `start` ends. */
  function BuildEnd(specs: seq<Spec>, start: nat): (end: nat)
    ensures start <= end
  {
    if specs == [] then start else BuildEnd(specs[1..], RoundUp(start + |specs[0].payload|))
  }

  ghost function RecordsFor(hash: Hash, specs: seq<Spec>, start: nat): (records: seq<Record>)
    requires AllValid(hash, specs) && BuildEnd(specs, start) < TWO_64
    ensures |records| == |specs|
    decreases |specs|
  {
    hide RoundUp, SpecValid;
    if specs == [] then [] else
    ValidLength(hash, specs[0]);
    [RecordFor(hash, specs[0], start)] + RecordsFor(hash, specs[1..], RoundUp(start + |specs[0].payload|))
  }

  lemma ValidLength(hash: Hash, spec: Spec)
    requires SpecValid(hash, spec)
    ensures |spec.payload| < TWO_64
  {
  }

  function DataBytes(specs: seq<Spec>, start: nat): (bytes: seq<u8>)
    ensures |bytes| == BuildEnd(specs, start) - start
    decreases |specs|
  {
    hide RoundUp;
    if specs == [] then [] else
    var end := start + |specs[0].payload|;
    specs[0].payload + (Zeros(RoundUp(end) - end) + DataBytes(specs[1..], RoundUp(end)))
  }

  ghost predicate Encodable(r: Record) {
    |r.name| < 64 && |r.shape.dims| == MAX_RANK && r.shape.rank < TWO_16
  }

  ghost predicate AllEncodable(records: seq<Record>) {
    forall i :: 0 <= i < |records| ==> Encodable(records[i])
  }

  ghost function TableBytes(records: seq<Record>): (bytes: seq<u8>)
    requires AllEncodable(records)
    ensures |bytes| == RECORD_BYTES * |records|
  {
    if records == [] then [] else RecordBytes(records[0]) + TableBytes(records[1..])
  }

  lemma {:induction false} RecordsForAre(hash: Hash, specs: seq<Spec>, start: nat, i: nat)
    requires AllValid(hash, specs) && BuildEnd(specs, start) < TWO_64 && start % ALIGN == 0 && i < |specs|
    ensures |specs[i].payload| < TWO_64
    ensures var r := RecordsFor(hash, specs, start)[i];
      && RecordValid(r) && NameValid(r.name) && Encodable(r)
      && r == RecordFor(hash, specs[i], r.dataOff)
    decreases |specs|
  {
    hide RoundUp, ContentGood, DataLen, Product, UsedSlotsOk;
    if i == 0 {
      assert SpecValid(hash, specs[0]);
    } else {
      RoundUpAligned(start + |specs[0].payload|);
      RecordsForAre(hash, specs[1..], RoundUp(start + |specs[0].payload|), i - 1);
    }
  }

  lemma RoundUpAligned(value: nat)
    ensures RoundUp(value) % ALIGN == 0
  {
  }

  lemma {:induction false} TableRow(records: seq<Record>, i: nat)
    requires AllEncodable(records) && i < |records|
    ensures TableBytes(records)[i * RECORD_BYTES..(i + 1) * RECORD_BYTES] == RecordBytes(records[i])
    decreases |records|
  {
    hide RecordBytes;
    var head, rest := RecordBytes(records[0]), TableBytes(records[1..]);
    if i == 0 {
      assert (head + rest)[0..RECORD_BYTES] == head;
    } else {
      TableRow(records[1..], i - 1);
      Shifted(head, rest, (i - 1) * RECORD_BYTES, i * RECORD_BYTES);
    }
  }

  lemma Shifted(a: seq<u8>, b: seq<u8>, lo: nat, hi: nat)
    requires lo <= hi <= |b|
    ensures (a + b)[|a| + lo..|a| + hi] == b[lo..hi]
  {
  }

  // ---- The whole blob ------------------------------------------------------------------

  function DataStart(specs: seq<Spec>): (start: nat)
    requires |specs| < TWO_32
  {
    RoundUp(TableEnd(|specs|))
  }

  lemma {:induction false} AllRecordsEncode(hash: Hash, specs: seq<Spec>, start: nat)
    requires AllValid(hash, specs) && BuildEnd(specs, start) < TWO_64 && start % ALIGN == 0
    ensures AllEncodable(RecordsFor(hash, specs, start))
  {
    hide RecordsFor, SpecValid, Encodable, RecordValid;
    forall i | 0 <= i < |specs| ensures Encodable(RecordsFor(hash, specs, start)[i]) {
      RecordsForAre(hash, specs, start, i);
    }
  }

  /** A tensor the model requires, under the shape and dtype it requires. */
  ghost predicate IsWanted(model: Model, spec: Spec) {
    && IsRequiredName(spec.name, model.dims.nLayers, model.tiedOutput)
    && Fits(spec.name, spec.shape, spec.dtype, model.dims)
  }

  /** Every tensor is wanted and no two share a name. */
  ghost predicate AllWanted(model: Model, specs: seq<Spec>) {
    && (forall i :: 0 <= i < |specs| ==> IsWanted(model, specs[i]))
    && (forall i, j :: 0 <= i < j < |specs| ==> specs[i].name != specs[j].name)
  }

  ghost predicate ModelValid(model: Model) {
    && DimensionsValid(model.dims) && RopeValid(model.rope, model.dims.dHead)
    && model.bosTokenId < model.dims.vocabSize && model.eosTokenId < model.dims.vocabSize
    && 1 <= model.vocabLen <= MAX_VOCAB_BLOB_BYTES
  }

  /** A complete set of valid tensors for a valid model, small enough for the loader. */
  ghost predicate Buildable(hash: Hash, model: Model, specs: seq<Spec>, capacity: u64) {
    && ModelValid(model) && |specs| == RequiredCount(model.dims.nLayers, model.tiedOutput)
    && AllValid(hash, specs) && AllWanted(model, specs)
    && BuildEnd(specs, DataStart(specs)) <= MAX_BLOB_BYTES && BuildEnd(specs, DataStart(specs)) <= capacity
  }

  ghost function HeaderFor(hash: Hash, model: Model, specs: seq<Spec>): (h: Header)
    requires |specs| < TWO_32 && AllValid(hash, specs) && BuildEnd(specs, DataStart(specs)) < TWO_64
  {
    hide RoundUp, SpecValid;
    var start, end := DataStart(specs), BuildEnd(specs, DataStart(specs));
    RoundUpAligned(TableEnd(|specs|));
    AllRecordsEncode(hash, specs, start);
    Header(model.tiedOutput, |specs|, end, start, end - start, hash(TableBytes(RecordsFor(hash, specs, start))),
           model.dims, model.rope, model.bosTokenId, model.eosTokenId, model.vocabDigest, model.vocabLen)
  }

  /** Header, table, pad, and the tensors with a pad after each. */
  ghost function Build(hash: Hash, model: Model, specs: seq<Spec>): (blob: seq<u8>)
    requires |specs| < TWO_32 && AllValid(hash, specs) && BuildEnd(specs, DataStart(specs)) < TWO_64
    ensures |blob| == BuildEnd(specs, DataStart(specs))
  {
    hide SpecValid, HeaderBytes;
    var start := DataStart(specs);
    RoundUpAligned(TableEnd(|specs|));
    AllRecordsEncode(hash, specs, start);
    HeaderBytes(HeaderFor(hash, model, specs))
    + (TableBytes(RecordsFor(hash, specs, start)) + (Zeros(start - TableEnd(|specs|)) + DataBytes(specs, start)))
  }

  // ---- The table decodes to the records written ---------------------------------------------

  ghost predicate RowIs(table: Slice, at: nat, record: Record) {
    Decodes(table, at) && RecordAt(table, at) == record
  }

  /** Rows `lo..` of the table decode to exactly these records. */
  ghost predicate RowsFrom(table: Slice, lo: nat, records: seq<Record>) {
    (lo + |records|) * RECORD_BYTES <= |table| && forall i :: 0 <= i < |records| ==> RowIs(table, lo + i, records[i])
  }

  lemma RowsDecode(hash: Hash, specs: seq<Spec>, start: nat, table: Slice)
    requires AllValid(hash, specs) && BuildEnd(specs, start) < TWO_64 && start % ALIGN == 0
    requires AllEncodable(RecordsFor(hash, specs, start)) && table == TableBytes(RecordsFor(hash, specs, start))
    ensures RowsFrom(table, 0, RecordsFor(hash, specs, start))
  {
    hide SpecValid, RecordsFor, TableBytes, DecodeRecord, RecordValid, RecordBytes, Encodable;
    var records := RecordsFor(hash, specs, start);
    forall i | 0 <= i < |records| ensures RowIs(table, 0 + i, records[i]) {
      RecordsForAre(hash, specs, start, i);
      TableRow(records, i);
      RecordExactly(table, i, records[i]);
    }
  }

  lemma RowsTail(table: Slice, lo: nat, records: seq<Record>)
    requires RowsFrom(table, lo, records) && records != []
    ensures Decodes(table, lo) && RecordAt(table, lo) == records[0] && RowsFrom(table, lo + 1, records[1..])
  {
    hide DecodeRecord;
    assert RowIs(table, lo + 0, records[0]);
    forall i | 0 <= i < |records| - 1 ensures RowIs(table, lo + 1 + i, records[1..][i]) {
      assert RowIs(table, lo + (i + 1), records[i + 1]);
    }
  }

  /** The rows written are a canonical run. */
  lemma {:induction false} BuiltIsCanonical(hash: Hash, specs: seq<Spec>, start: nat, table: Slice, lo: nat)
    requires AllValid(hash, specs) && BuildEnd(specs, start) < TWO_64
    requires RowsFrom(table, lo, RecordsFor(hash, specs, start))
    ensures Canonical(table, lo, lo + |specs|, start, BuildEnd(specs, start))
    decreases |specs|
  {
    hide RoundUp, SpecValid, DecodeRecord, RowsFrom, Canonical;
    var records := RecordsFor(hash, specs, start);
    if specs == [] {
      NothingIsCanonical(table, lo, start, records);
    } else {
      var next := RoundUp(start + |specs[0].payload|);
      ValidLength(hash, specs[0]);
      RowsTail(table, lo, records);
      BuiltIsCanonical(hash, specs[1..], next, table, lo + 1);
      CanonicalStep(table, lo, lo + |specs|, start, BuildEnd(specs, start));
    }
  }

  lemma NothingIsCanonical(table: Slice, lo: nat, start: nat, records: seq<Record>)
    requires RowsFrom(table, lo, records) && records == []
    ensures Canonical(table, lo, lo, start, start)
  {
  }

  lemma RowsAreRecords(table: Slice, records: seq<Record>)
    requires RowsFrom(table, 0, records)
    ensures AllDecode(table, 0, |records|) && Records(table, 0, |records|) == records
  {
    hide DecodeRecord, Records;
    forall i | 0 <= i < |records| ensures Decodes(table, i) {
      assert RowIs(table, 0 + i, records[i]);
    }
    forall i | 0 <= i < |records| ensures Records(table, 0, |records|)[i] == records[i] {
      RecordsIndex(table, 0, |records|, i);
      assert RowIs(table, 0 + i, records[i]);
    }
  }

  // ---- The payload pass finds nothing -----------------------------------------------------------

  lemma OffsetIsIrrelevant(hash: Hash, spec: Spec, offset: u64)
    requires SpecValid(hash, spec) && offset % ALIGN == 0
    ensures var r := RecordFor(hash, spec, offset);
      RecordValid(r) && ContentFault(r, spec.payload).None?
  {
    hide AllElementsFinite, AllScalesPositive, AllZero, UsedSlotsOk, Product, DataLen, ContentFault;
    ContentMeaning(RecordFor(hash, spec, offset), spec.payload);
  }

  /** What lies at `start`: the payload, zeros up to the next extent, and the rest. */
  lemma DataAt(blob: Slice, specs: seq<Spec>, start: nat)
    requires specs != [] && start <= |blob| && blob[start..] == DataBytes(specs, start)
    ensures var end := start + |specs[0].payload|;
      && end <= RoundUp(end) <= |blob| && blob[start..end] == specs[0].payload
      && AllZero(blob[end..RoundUp(end)]) && blob[RoundUp(end)..] == DataBytes(specs[1..], RoundUp(end))
  {
    hide RoundUp, Part;
    var end := start + |specs[0].payload|;
    var pad, rest := Zeros(RoundUp(end) - end), DataBytes(specs[1..], RoundUp(end));
    RestIsPart(blob, start, DataBytes(specs, start));
    PartSplit(blob, start, specs[0].payload, pad + rest);
    PartSplit(blob, end, pad, rest);
    RestIsPart(blob, RoundUp(end), rest);
    PartIs(blob, start, specs[0].payload);
    PartIs(blob, end, pad);
  }

  lemma RestIsPart(s: seq<u8>, at: nat, rest: seq<u8>)
    requires at <= |s|
    ensures s[at..] == rest <==> Part(s, at, rest) && at + |rest| == |s|
  {
  }

  lemma {:induction false} PayloadIsClean(hash: Hash, blob: Slice, specs: seq<Spec>, start: nat, cursor: nat)
    requires AllValid(hash, specs) && BuildEnd(specs, start) < TWO_64 && start % ALIGN == 0
    requires cursor <= start <= |blob| && AllZero(blob[cursor..start]) && blob[start..] == DataBytes(specs, start)
    requires Placed(blob, RecordsFor(hash, specs, start), cursor)
    ensures PayloadFault(hash, blob, RecordsFor(hash, specs, start), cursor).None?
    decreases |specs|
  {
    hide RoundUp, SpecValid, RecordValid, ContentFault, DataBytes;
    if specs == [] {
      EmptyData(start);
      assert blob[cursor..|blob|] == blob[cursor..start];
    } else {
      var end := start + |specs[0].payload|;
      ValidLength(hash, specs[0]);
      DataAt(blob, specs, start);
      OffsetIsIrrelevant(hash, specs[0], start);
      RoundUpAligned(end);
      assert RecordsFor(hash, specs, start)[1..] == RecordsFor(hash, specs[1..], RoundUp(end));
      PayloadIsClean(hash, blob, specs[1..], RoundUp(end), end);
    }
  }

  lemma EmptyData(start: nat)
    ensures DataBytes([], start) == []
  {
  }

  /** The bytes of tensor `i` in the blob are its payload. */
  lemma {:induction false} PayloadIsInPlace(hash: Hash, blob: Slice, specs: seq<Spec>, start: nat, i: nat)
    requires AllValid(hash, specs) && BuildEnd(specs, start) < TWO_64
    requires start <= |blob| && blob[start..] == DataBytes(specs, start) && i < |specs|
    ensures var r := RecordsFor(hash, specs, start)[i];
      r.dataOff + r.dataLen <= |blob| && blob[r.dataOff..r.dataOff + r.dataLen] == specs[i].payload
    decreases |specs|
  {
    hide RoundUp, SpecValid, DataBytes;
    DataAt(blob, specs, start);
    ValidLength(hash, specs[0]);
    if i > 0 {
      PayloadIsInPlace(hash, blob, specs[1..], RoundUp(start + |specs[0].payload|), i - 1);
    }
  }

  // ---- Every tensor is named -------------------------------------------------------------------

  lemma BuiltIsNamed(hash: Hash, model: Model, specs: seq<Spec>, start: nat, h: Header, table: Slice)
    requires AllValid(hash, specs) && BuildEnd(specs, start) < TWO_64 && start % ALIGN == 0
    requires RowsFrom(table, 0, RecordsFor(hash, specs, start)) && AllWanted(model, specs)
    requires h.dims == model.dims && h.tiedOutput == model.tiedOutput && |specs| == h.tensorCount
    ensures AllFit(table, h)
  {
    hide SpecValid, RecordsFor, DecodeRecord, RecordValid, Encodable, IsRequiredName, Fits;
    var records := RecordsFor(hash, specs, start);
    forall i | 0 <= i < |specs| ensures RecordFits(table, h, i) && NameAt(table, i) == specs[i].name {
      assert RowIs(table, 0 + i, records[i]);
      RecordsForAre(hash, specs, start, i);
      assert IsWanted(model, specs[i]);
    }
  }

  // ---- What the loader says -------------------------------------------------------------------------

  /** The four parts of a built blob, in place. */
  lemma BuiltParts(hash: Hash, model: Model, specs: seq<Spec>)
    requires |specs| < TWO_32 && AllValid(hash, specs) && BuildEnd(specs, DataStart(specs)) < TWO_64
    ensures var blob, start := Build(hash, model, specs), DataStart(specs);
      && start % ALIGN == 0 && AllEncodable(RecordsFor(hash, specs, start))
      && TableEnd(|specs|) <= start <= |blob|
      && Part(blob, 0, HeaderBytes(HeaderFor(hash, model, specs)))
      && blob[HEADER_BYTES..TableEnd(|specs|)] == TableBytes(RecordsFor(hash, specs, start))
      && AllZero(blob[TableEnd(|specs|)..start]) && blob[start..] == DataBytes(specs, start)
  {
    hide SpecValid, HeaderBytes, TableBytes, RecordsFor, DataBytes, HeaderFor, Encodable, RoundUp;
    var start := DataStart(specs);
    RoundUpAligned(TableEnd(|specs|));
    AllRecordsEncode(hash, specs, start);
    var header, table := HeaderBytes(HeaderFor(hash, model, specs)), TableBytes(RecordsFor(hash, specs, start));
    var pad, data := Zeros(start - TableEnd(|specs|)), DataBytes(specs, start);
    Quartered(header, table, pad, data);
  }

  lemma Quartered(a: seq<u8>, b: seq<u8>, c: seq<u8>, d: seq<u8>)
    ensures var s := a + (b + (c + d));
      && s[0..|a|] == a && s[|a|..|a| + |b|] == b && s[|a| + |b|..|a| + |b| + |c|] == c && s[|a| + |b| + |c|..] == d
  {
    var s, t := a + (b + (c + d)), b + (c + d);
    Shifted(a, t, 0, |b|);
    Shifted(a, t, |b|, |b| + |c|);
    Shifted(a, t, |b| + |c|, |t|);
    Shifted(b, c + d, 0, |c|);
    Shifted(b, c + d, |c|, |c| + |d|);
    assert t[0..|b|] == b && (c + d)[0..|c|] == c && (c + d)[|c|..|c| + |d|] == d;
  }

  lemma {:induction false} SomethingIsWritten(hash: Hash, specs: seq<Spec>, start: nat)
    requires AllValid(hash, specs) && specs != []
    ensures BuildEnd(specs, start) > start
  {
    hide RoundUp, ContentGood, Product;
    assert SpecValid(hash, specs[0]);
    PayloadIsNonEmpty(RecordFor(hash, specs[0], 0));
  }

  lemma PayloadIsNonEmpty(r: Record)
    requires RecordValid(r)
    ensures r.dataLen >= 1
  {
    hide Product, DataLen;
    LastDimensionDivides(r);
    LengthIsPositive(r.dtype, r.shape.elements);
  }

  lemma LastDimensionDivides(r: Record)
    requires RecordValid(r)
    ensures r.shape.elements >= r.shape.dims[r.shape.rank - 1] >= if r.dtype.Blocked() then BLOCK else 1
  {
    hide Product, DataLen;
    var dims, rank := r.shape.dims, r.shape.rank;
    ProductGrows(dims, rank - 1, rank);
    ProductStep(dims, rank - 1);
    LastFactor(Product(dims[..rank - 1]), dims[rank - 1]);
  }

  lemma LastFactor(before: nat, last: nat)
    requires before >= 1
    ensures before * last >= last
    ensures last >= 1 && last % BLOCK == 0 ==> last >= BLOCK
  {
    MulMonotone(1, before, last);
  }

  lemma LengthIsPositive(dtype: Dtype, elements: u64)
    requires 1 <= elements <= MAX_ELEMENTS && (dtype.Blocked() ==> elements >= BLOCK)
    ensures DataLen(dtype, elements) >= 1
  {
    hide RoundUp;
    assert elements >= BLOCK ==> elements / BLOCK >= 1;
  }

  lemma HeaderIsAdmissible(hash: Hash, model: Model, specs: seq<Spec>, capacity: u64)
    requires Buildable(hash, model, specs, capacity)
    ensures |specs| < TWO_32
    ensures var h := HeaderFor(hash, model, specs);
      h.tensorCount == |specs| && HeaderAdmissible(h, h.totalSize, capacity)
  {
    hide SpecValid, RecordsFor, TableBytes, RoundUp, RopeValid, AllWanted;
    SomethingIsWritten(hash, specs, DataStart(specs));
  }

  /** The table of `blob` holds these records, canonically laid out from `start` to the end. */
  ghost predicate LaidOut(blob: Slice, h: Header, records: seq<Record>, start: nat) {
    && h.tensorCount == |records| && TableEnd(h.tensorCount) <= start == h.tensorDataOff <= |blob|
    && RowsFrom(TableOf(blob, h), 0, records)
    && Canonical(TableOf(blob, h), 0, |records|, start, |blob|)
    && Placed(blob, records, start) && Records(TableOf(blob, h), 0, |records|) == records
  }

  /** The structural half: the table written is canonical and its records are placed. */
  lemma BuiltIsStructured(hash: Hash, model: Model, specs: seq<Spec>, capacity: u64)
    requires Buildable(hash, model, specs, capacity)
    ensures |specs| < TWO_32 && |Build(hash, model, specs)| <= ISIZE_MAX
    ensures LaidOut(Build(hash, model, specs), HeaderFor(hash, model, specs),
                    RecordsFor(hash, specs, DataStart(specs)), DataStart(specs))
    ensures HeaderFor(hash, model, specs).tableDigest
         == hash(TableOf(Build(hash, model, specs), HeaderFor(hash, model, specs)))
  {
    hide SpecValid, RecordsFor, TableBytes, RoundUp, HeaderBytes, DataBytes, AllWanted, Canonical, Records, RopeValid,
         DecodeRecord, Structure, RowsFrom, Placed, DimensionsValid, LayoutValid, Part, Encodable;
    HeaderIsAdmissible(hash, model, specs, capacity);
    BuiltParts(hash, model, specs);
    var blob, h, start := Build(hash, model, specs), HeaderFor(hash, model, specs), DataStart(specs);
    var table := TableOf(blob, h);
    RowsDecode(hash, specs, start, table);
    BuiltIsCanonical(hash, specs, start, table, 0);
    StructureIsCanonical(table, h, |blob|, capacity);
    StructureHolds(blob, h, capacity);
    RowsAreRecords(table, RecordsFor(hash, specs, start));
  }

  lemma BuiltIsAcceptable(hash: Hash, model: Model, specs: seq<Spec>, capacity: u64)
    requires Buildable(hash, model, specs, capacity)
    ensures |specs| < TWO_32 && |Build(hash, model, specs)| <= ISIZE_MAX
    ensures Acceptable(hash, Build(hash, model, specs), capacity, HeaderFor(hash, model, specs))
  {
    hide SpecValid, RecordsFor, TableBytes, RoundUp, HeaderBytes, DataBytes, AllWanted, Canonical, Records, RopeValid,
         DecodeRecord, RowsFrom, Placed, LayoutValid, Part, Encodable, Build, PayloadFault, PayloadGood, AllFit;
    HeaderIsAdmissible(hash, model, specs, capacity);
    BuiltParts(hash, model, specs);
    BuiltIsStructured(hash, model, specs, capacity);
    var blob, h, start := Build(hash, model, specs), HeaderFor(hash, model, specs), DataStart(specs);
    PayloadIsClean(hash, blob, specs, start, start);
    PayloadMeaning(hash, blob, RecordsFor(hash, specs, start), start);
    BuiltIsNamed(hash, model, specs, start, h, TableOf(blob, h));
  }

  /** One way round: every blob built from a complete set of valid tensors is accepted, with the header and
   table written and the hash of every byte. */
  lemma BuiltBlobLoads(hash: Hash, model: Model, specs: seq<Spec>, capacity: u64)
    requires Buildable(hash, model, specs, capacity)
    ensures |specs| < TWO_32 && |Build(hash, model, specs)| <= ISIZE_MAX
    ensures var blob, h := Build(hash, model, specs), HeaderFor(hash, model, specs);
      && h.tensorCount == |specs| && TableEnd(|specs|) <= |blob|
      && Accepted(hash, blob, capacity) == Ok(Weights(TableOf(blob, h), h, hash(blob)))
  {
    hide SpecValid, RecordsFor, TableBytes, RoundUp, HeaderBytes, HeaderFor, HeaderAdmissible, Build, DataBytes,
         AllWanted, Canonical, Names, PassFault, Records, Accepted, Structured, ModelValid, Part, Acceptable;
    HeaderIsAdmissible(hash, model, specs, capacity);
    BuiltParts(hash, model, specs);
    var blob, h := Build(hash, model, specs), HeaderFor(hash, model, specs);
    BuiltIsAcceptable(hash, model, specs, capacity);
    AcceptanceExactly(hash, blob, capacity, h);
    AcceptedMeaning(hash, blob, capacity);
  }

  /** Reading tensor `i` of a built blob gives back the tensor it was built from. */
  lemma BuiltTensorsReadBack(hash: Hash, model: Model, specs: seq<Spec>, capacity: u64, i: nat)
    requires Buildable(hash, model, specs, capacity) && i < |specs|
    ensures |specs| < TWO_32 && |Build(hash, model, specs)| <= ISIZE_MAX
    ensures var blob, h := Build(hash, model, specs), HeaderFor(hash, model, specs);
      && h.tensorCount == |specs| && TableEnd(|specs|) <= |blob| && Decodes(TableOf(blob, h), i)
      && var r := RecordAt(TableOf(blob, h), i);
         && r.dataOff + r.dataLen <= |blob|
         && TensorOf(blob, r) == Tensor(specs[i].name, specs[i].dtype, specs[i].shape, r.dataOff, specs[i].payload)
  {
    hide SpecValid, RecordsFor, RoundUp, HeaderBytes, DataBytes, AllWanted, Canonical, Records, TableBytes,
         DecodeRecord, Build, Encodable, HeaderFor, HeaderAdmissible, HeaderValid, Structured, RecordValid, Part;
    BuiltParts(hash, model, specs);
    BuiltIsStructured(hash, model, specs, capacity);
    var blob, h, start := Build(hash, model, specs), HeaderFor(hash, model, specs), DataStart(specs);
    var record := RecordsFor(hash, specs, start)[i];
    assert RowIs(TableOf(blob, h), 0 + i, record);
    RecordsForAre(hash, specs, start, i);
    PayloadIsInPlace(hash, blob, specs, start, i);
  }

  // ---- The other way round: every accepted blob was built -------------------------------------------

  ghost function ModelOf(h: Header): (model: Model) {
    Model(h.tiedOutput, h.dims, h.rope, h.bosTokenId, h.eosTokenId, h.vocabDigest, h.vocabLen)
  }

  ghost function SpecOf(blob: Slice, r: Record): (spec: Spec)
    requires r.dataOff + r.dataLen <= |blob|
    ensures |spec.payload| == r.dataLen
  {
    Spec(r.name, r.dtype, r.shape, blob[r.dataOff..r.dataOff + r.dataLen])
  }

  ghost predicate AllInside(blob: Slice, records: seq<Record>) {
    forall i :: 0 <= i < |records| ==> records[i].dataOff + records[i].dataLen <= |blob|
  }

  ghost function SpecsOf(blob: Slice, records: seq<Record>): (specs: seq<Spec>)
    requires AllInside(blob, records)
    ensures |specs| == |records|
  {
    if records == [] then [] else [SpecOf(blob, records[0])] + SpecsOf(blob, records[1..])
  }

  lemma {:induction false} SpecAt(blob: Slice, records: seq<Record>, i: nat)
    requires AllInside(blob, records) && i < |records|
    ensures SpecsOf(blob, records)[i] == SpecOf(blob, records[i])
  {
    if i > 0 {
      SpecAt(blob, records[1..], i - 1);
    }
  }

  /** Each record starts where the one before it, rounded up, ends. */
  ghost predicate Chained(records: seq<Record>, start: nat, end: nat)
    decreases |records|
  {
    if records == [] then start == end
    else records[0].dataOff == start && Chained(records[1..], RoundUp(start + records[0].dataLen), end)
  }

  lemma {:induction false} CanonicalIsChained(table: Slice, lo: nat, hi: nat, start: nat, end: nat)
    requires Canonical(table, lo, hi, start, end)
    ensures AllDecode(table, lo, hi) && Chained(Records(table, lo, hi), start, end)
    decreases hi - lo
  {
    hide RoundUp, DecodeRecord, Offsets, Lens;
    if lo < hi {
      assert Decodes(table, lo);
      CanonicalStep(table, lo, hi, start, end);
      CanonicalIsChained(table, lo + 1, hi, RoundUp(start + RecordAt(table, lo).dataLen), end);
      assert Records(table, lo, hi)[1..] == Records(table, lo + 1, hi);
    }
  }

  /** Every record is valid, named, and holds good bytes. */
  ghost predicate AllGood(hash: Hash, blob: Slice, records: seq<Record>) {
    forall i :: 0 <= i < |records| ==>
      RecordValid(records[i]) && NameValid(records[i].name) && BytesGood(hash, blob, records[i])
  }

  lemma GoodSpec(hash: Hash, blob: Slice, r: Record)
    requires RecordValid(r) && NameValid(r.name) && BytesGood(hash, blob, r)
    ensures SpecValid(hash, SpecOf(blob, r)) && RecordFor(hash, SpecOf(blob, r), r.dataOff) == r
  {
    hide AllElementsFinite, AllScalesPositive, AllZero, UsedSlotsOk, Product, DataLen, RoundUp, NameValid;
  }

  lemma GoodIsInside(hash: Hash, blob: Slice, records: seq<Record>)
    requires AllGood(hash, blob, records)
    ensures AllInside(blob, records)
  {
    hide RecordValid, NameValid, ContentGood;
  }

  /** Writing the tensors read from a chain of good records gives that chain back. */
  lemma {:induction false} RecordsAreRebuilt(hash: Hash, blob: Slice, records: seq<Record>, start: nat, end: nat)
    requires AllGood(hash, blob, records) && AllInside(blob, records) && Chained(records, start, end) && end < TWO_64
    ensures var specs := SpecsOf(blob, records);
      && AllValid(hash, specs) && BuildEnd(specs, start) == end && RecordsFor(hash, specs, start) == records
    decreases |records|
  {
    hide RecordValid, NameValid, BytesGood, SpecValid, RoundUp;
    if records != [] {
      var specs := SpecsOf(blob, records);
      GoodSpec(hash, blob, records[0]);
      ValidLength(hash, specs[0]);
      RecordsAreRebuilt(hash, blob, records[1..], RoundUp(start + records[0].dataLen), end);
      assert specs[0] == SpecOf(blob, records[0]) && specs[1..] == SpecsOf(blob, records[1..]);
    }
  }

  /** The bytes past `start` are those tensors again, with zero pads. */
  lemma {:induction false} DataIsRebuilt(hash: Hash, blob: Slice, records: seq<Record>, start: nat, cursor: nat)
    requires AllInside(blob, records) && Chained(records, start, |blob|) && cursor <= start <= |blob|
    requires Placed(blob, records, cursor) && PayloadFault(hash, blob, records, cursor).None?
    ensures blob[start..] == DataBytes(SpecsOf(blob, records), start) && AllZero(blob[cursor..start])
    decreases |records|
  {
    hide RecordValid, RoundUp, DataBytes, AllZero, TensorFault;
    if records == [] {
      EmptyData(start);
    } else {
      var end := start + records[0].dataLen;
      ChainFits(records[1..], RoundUp(end), |blob|);
      DataIsRebuilt(hash, blob, records[1..], RoundUp(end), end);
      var specs := SpecsOf(blob, records);
      assert specs[0] == SpecOf(blob, records[0]) && specs[1..] == SpecsOf(blob, records[1..]);
      DataFrom(blob, specs, start);
    }
  }

  lemma {:induction false} ChainFits(records: seq<Record>, start: nat, end: nat)
    requires Chained(records, start, end)
    ensures start <= end
    decreases |records|
  {
    if records != [] {
      ChainFits(records[1..], RoundUp(start + records[0].dataLen), end);
    }
  }

  /** The converse of `DataAt`. */
  lemma DataFrom(blob: Slice, specs: seq<Spec>, start: nat)
    requires specs != []
    requires var end := start + |specs[0].payload|;
      && end <= RoundUp(end) <= |blob| && blob[start..end] == specs[0].payload
      && AllZero(blob[end..RoundUp(end)]) && blob[RoundUp(end)..] == DataBytes(specs[1..], RoundUp(end))
    ensures blob[start..] == DataBytes(specs, start)
  {
    hide RoundUp, Part;
    var end := start + |specs[0].payload|;
    var pad, rest := Zeros(RoundUp(end) - end), DataBytes(specs[1..], RoundUp(end));
    ZerosAre(blob[end..RoundUp(end)]);
    InPlace(blob, start, specs[0].payload);
    InPlace(blob, end, pad);
    RestIsPart(blob, RoundUp(end), rest);
    PartSplit(blob, end, pad, rest);
    PartSplit(blob, start, specs[0].payload, pad + rest);
    RestIsPart(blob, start, DataBytes(specs, start));
  }

  lemma ZerosAre(s: seq<u8>)
    requires AllZero(s)
    ensures s == Zeros(|s|)
  {
  }

  lemma InPlace(s: seq<u8>, at: nat, part: seq<u8>)
    requires at + |part| <= |s| && s[at..at + |part|] == part
    ensures Part(s, at, part)
  {
  }

  /** A table whose rows decode to these records is the table of these records. */
  lemma {:induction false} TableIsRebuilt(table: Slice, records: seq<Record>, lo: nat)
    requires RowsFrom(table, lo, records) && |table| == (lo + |records|) * RECORD_BYTES
    ensures AllEncodable(records) && table[lo * RECORD_BYTES..] == TableBytes(records)
    decreases |records|
  {
    hide DecodeRecord, RowsFrom, RecordBytes, RecordValid;
    if records != [] {
      RowsTail(table, lo, records);
      RecordExactly(table, lo, records[0]);
      RecordEncodes(records[0]);
      TableIsRebuilt(table, records[1..], lo + 1);
      var at, next := lo * RECORD_BYTES, (lo + 1) * RECORD_BYTES;
      assert table[at..] == table[at..next] + table[next..];
    }
  }

  lemma RecordEncodes(r: Record)
    requires RecordValid(r) && NameValid(r.name)
    ensures Encodable(r)
  {
  }

  lemma RecordsAreNamed(table: Slice, records: seq<Record>)
    requires RowsFrom(table, 0, records)
    ensures forall i :: 0 <= i < |records| ==> RecordValid(records[i]) && NameValid(records[i].name)
  {
    hide DecodeRecord, RecordValid, NameValid, RecordBytes;
    forall i | 0 <= i < |records| ensures RecordValid(records[i]) && NameValid(records[i].name) {
      assert RowIs(table, 0 + i, records[i]);
      RecordExactly(table, i, records[i]);
    }
  }

  lemma RecordsAreRows(table: Slice, count: nat)
    requires AllDecode(table, 0, count)
    ensures RowsFrom(table, 0, Records(table, 0, count))
  {
    hide DecodeRecord, Records;
    forall i | 0 <= i < count ensures RowIs(table, 0 + i, Records(table, 0, count)[i]) {
      RecordsIndex(table, 0, count, i);
    }
  }

  lemma SpecsAreWanted(blob: Slice, h: Header, table: Slice, records: seq<Record>)
    requires AllFit(table, h) && RowsFrom(table, 0, records) && |records| == h.tensorCount && AllInside(blob, records)
    ensures AllWanted(ModelOf(h), SpecsOf(blob, records))
  {
    hide DecodeRecord, IsRequiredName, Fits, SpecsOf;
    var specs := SpecsOf(blob, records);
    forall i | 0 <= i < |specs|
      ensures specs[i].name == NameAt(table, i) && IsWanted(ModelOf(h), specs[i])
    {
      SpecAt(blob, records, i);
      assert RowIs(table, 0 + i, records[i]);
      assert RecordFits(table, h, i);
    }
    forall i, j | 0 <= i < j < |specs| ensures specs[i].name != specs[j].name {
      assert NameAt(table, i) != NameAt(table, j);
    }
  }

  /** An acceptable blob's records, as the rebuilding needs them. */
  lemma AcceptableRecords(hash: Hash, blob: Slice, capacity: u64, h: Header) returns (records: seq<Record>)
    requires Acceptable(hash, blob, capacity, h)
    ensures h.tensorDataOff == RoundUp(TableEnd(h.tensorCount)) && |records| == h.tensorCount
    ensures RowsFrom(TableOf(blob, h), 0, records) && AllGood(hash, blob, records) && AllInside(blob, records)
    ensures Chained(records, h.tensorDataOff, |blob|)
    ensures Placed(blob, records, h.tensorDataOff)
    ensures PayloadFault(hash, blob, records, h.tensorDataOff).None?
  {
    hide HeaderBytes, Part, AllFit, Canonical, Records, DecodeRecord, RecordValid, NameValid;
    hide BytesGood, Chained, Placed;
    hide RowsFrom, PayloadFault, RopeValid, DimensionsValid, AllZero, RoundUp;
    var table := TableOf(blob, h);
    CanonicalIsChained(table, 0, h.tensorCount, RoundUp(TableEnd(h.tensorCount)), |blob|);
    records := Records(table, 0, h.tensorCount);
    RecordsAreRows(table, h.tensorCount);
    RecordsAreNamed(table, records);
    RoundUpAligned(TableEnd(h.tensorCount));
    CanonicalIsPlaced(blob, table, 0, h.tensorCount, h.tensorDataOff);
    PayloadMeaning(hash, blob, records, h.tensorDataOff);
    forall i | 0 <= i < |records| ensures BytesGood(hash, blob, records[i]) {
      assert TensorGood(hash, blob, records, h.tensorDataOff, i);
    }
    GoodIsInside(hash, blob, records);
  }

  /** Reading tensor `i` of a loaded blob gives `spec`. */
  ghost predicate IsTensorOf(blob: Slice, table: Slice, i: nat, spec: Spec) {
    && Decodes(table, i) && RecordAt(table, i).dataOff + RecordAt(table, i).dataLen <= |blob|
    && SpecOf(blob, RecordAt(table, i)) == spec
  }

  lemma AcceptableIsBuilt(hash: Hash, blob: Slice, capacity: u64, h: Header) returns (specs: seq<Spec>)
    requires Acceptable(hash, blob, capacity, h)
    ensures Buildable(hash, ModelOf(h), specs, capacity) && |specs| == h.tensorCount
    ensures Build(hash, ModelOf(h), specs) == blob
    ensures forall i :: 0 <= i < |specs| ==> IsTensorOf(blob, TableOf(blob, h), i, specs[i])
  {
    hide AllFit, Canonical, Records, DecodeRecord, RecordValid, NameValid, BytesGood, Chained, Placed, RowsFrom;
    hide PayloadFault, PayloadGood, RopeValid, AllZero, RoundUp;
    hide HeaderBytes, TableBytes, RecordsFor, SpecValid, SpecsOf;
    hide AllWanted, DataBytes, Encodable, DimensionsValid, IsTensorOf;
    var start, table := h.tensorDataOff, TableOf(blob, h);
    var records := AcceptableRecords(hash, blob, capacity, h);
    specs := SpecsOf(blob, records);
    RecordsAreRebuilt(hash, blob, records, start, |blob|);
    DataIsRebuilt(hash, blob, records, start, start);
    TableIsRebuilt(table, records, 0);
    SpecsAreWanted(blob, h, table, records);
    assert table[0..] == table;
    assert HeaderFor(hash, ModelOf(h), specs) == h;
    BlobIsItsParts(blob, h);
    forall i | 0 <= i < |specs| ensures IsTensorOf(blob, table, i, specs[i]) {
      TensorIsRead(blob, table, records, i);
    }
  }

  lemma TensorIsRead(blob: Slice, table: Slice, records: seq<Record>, i: nat)
    requires RowsFrom(table, 0, records) && AllInside(blob, records) && i < |records|
    ensures IsTensorOf(blob, table, i, SpecsOf(blob, records)[i])
  {
    hide DecodeRecord, SpecsOf;
    assert RowIs(table, 0 + i, records[i]);
    SpecAt(blob, records, i);
  }

  /** A blob is its header, its table, the pad between, and its data. */
  lemma BlobIsItsParts(blob: Slice, h: Header)
    requires TableEnd(h.tensorCount) <= h.tensorDataOff <= |blob| && Part(blob, 0, HeaderBytes(h))
    requires AllZero(blob[TableEnd(h.tensorCount)..h.tensorDataOff])
    ensures blob == HeaderBytes(h)
      + (TableOf(blob, h) + (Zeros(h.tensorDataOff - TableEnd(h.tensorCount)) + blob[h.tensorDataOff..]))
  {
    hide HeaderBytes;
    var tableEnd, start := TableEnd(h.tensorCount), h.tensorDataOff;
    ZerosAre(blob[tableEnd..start]);
    assert blob == blob[0..HEADER_BYTES] + (blob[HEADER_BYTES..tableEnd] + (blob[tableEnd..start] + blob[start..]));
  }

  /**
   The other way round: every accepted blob is the build of its own header's model and the
   tensors read from it, and those can be built.
   */
  lemma LoadedBlobIsBuilt(hash: Hash, blob: Slice, capacity: u64) returns (specs: seq<Spec>)
    requires Accepted(hash, blob, capacity).Ok?
    ensures var h := Accepted(hash, blob, capacity).value.header;
      && Buildable(hash, ModelOf(h), specs, capacity) && |specs| == h.tensorCount
      && Build(hash, ModelOf(h), specs) == blob
    ensures forall i :: 0 <= i < |specs| ==> IsTensorOf(blob, Accepted(hash, blob, capacity).value.table, i, specs[i])
  {
    hide Accepted, Acceptable;
    var w := Accepted(hash, blob, capacity).value;
    AcceptanceExactly(hash, blob, capacity, w.header);
    AcceptedMeaning(hash, blob, capacity);
    specs := AcceptableIsBuilt(hash, blob, capacity, w.header);
  }

  lemma OneTensor(blob: Slice, table: Slice, i: nat, a: Spec, b: Spec)
    requires IsTensorOf(blob, table, i, a) && IsTensorOf(blob, table, i, b)
    ensures a == b
  {
  }

  /** Loading is injective: the model and the tensors a consumer can read determine every byte. */
  lemma LoadingIsInjective(hash: Hash, a: Slice, b: Slice, capacity: u64)
    requires Accepted(hash, a, capacity).Ok? && Accepted(hash, b, capacity).Ok?
    requires ModelOf(Accepted(hash, a, capacity).value.header) == ModelOf(Accepted(hash, b, capacity).value.header)
    requires forall i: nat, spec: Spec ::
      IsTensorOf(a, Accepted(hash, a, capacity).value.table, i, spec)
      ==> IsTensorOf(b, Accepted(hash, b, capacity).value.table, i, spec)
    ensures a == b
  {
    hide Accepted, IsTensorOf, Build, AllValid, AllWanted, ModelValid, BuildEnd;
    var specsA := LoadedBlobIsBuilt(hash, a, capacity);
    var specsB := LoadedBlobIsBuilt(hash, b, capacity);
    forall i | 0 <= i < |specsA| ensures specsA[i] == specsB[i] {
      OneTensor(b, Accepted(hash, b, capacity).value.table, i, specsA[i], specsB[i]);
    }
    assert specsA == specsB;
  }
}
