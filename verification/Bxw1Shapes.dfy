/** What the tensors of a model are called and what shape each must have, name by name. */
module Bxw1Shapes {
  import opened Bytes
  import opened Bxw1Header
  import opened Bxw1Table
  import opened Bxw1Names

  /** The nine tensors of a layer, as they are spelled after its index. */
  const LAYER_PARTS: seq<string> := [
    "attention_norm.weight", "attention.wq.weight", "attention.wk.weight", "attention.wv.weight",
    "attention.wo.weight", "ffn_norm.weight", "feed_forward.w1.weight", "feed_forward.w3.weight",
    "feed_forward.w2.weight"
  ]

  function LayerName(layer: u32, part: string): (name: seq<u8>) {
    Ascii("layers.") + Decimal(layer) + Ascii(".") + Ascii(part)
  }

  /** The names a model has tensors for: two always, one unless tied, and nine a layer. */
  ghost predicate IsRequiredName(name: seq<u8>, nLayers: u32, tiedOutput: bool) {
    || name == Ascii("tok_embeddings.weight")
    || name == Ascii("norm.weight")
    || (name == Ascii("output.weight") && !tiedOutput)
    || exists layer: u32, k :: layer < nLayers && 0 <= k < 9 && name == LayerName(layer, LAYER_PARTS[k])
  }

  ghost predicate Matrix(shape: Shape, rows: nat, columns: nat) {
    shape.rank == 2 && |shape.dims| >= 2 && shape.dims[0] == rows && shape.dims[1] == columns
  }

  /** A norm: one row of `n` unquantised values. */
  ghost predicate Vector(shape: Shape, dtype: Dtype, n: nat) {
    shape.rank == 1 && |shape.dims| >= 1 && shape.dims[0] == n && dtype.F32?
  }

  /** Both ends of the model are `vocabSize` by `dModel`. */
  ghost predicate GlobalFits(name: seq<u8>, shape: Shape, dtype: Dtype, d: Dimensions) {
    && (name == Ascii("tok_embeddings.weight") ==> Matrix(shape, d.vocabSize, d.dModel))
    && (name == Ascii("output.weight") ==> Matrix(shape, d.vocabSize, d.dModel))
    && (name == Ascii("norm.weight") ==> Vector(shape, dtype, d.dModel))
  }

  /** Every product of a layer has matching inner dimensions and starts and ends at `dModel`. */
  ghost predicate LayerFits(name: seq<u8>, shape: Shape, dtype: Dtype, layer: u32, d: Dimensions) {
    && (name == LayerName(layer, "attention_norm.weight") ==> Vector(shape, dtype, d.dModel))
    && (name == LayerName(layer, "attention.wq.weight") ==> Matrix(shape, d.nHeads * d.dHead, d.dModel))
    && (name == LayerName(layer, "attention.wk.weight") ==> Matrix(shape, d.nKvHeads * d.dHead, d.dModel))
    && (name == LayerName(layer, "attention.wv.weight") ==> Matrix(shape, d.nKvHeads * d.dHead, d.dModel))
    && (name == LayerName(layer, "attention.wo.weight") ==> Matrix(shape, d.dModel, d.nHeads * d.dHead))
    && (name == LayerName(layer, "ffn_norm.weight") ==> Vector(shape, dtype, d.dModel))
    && (name == LayerName(layer, "feed_forward.w1.weight") ==> Matrix(shape, d.dFfn, d.dModel))
    && (name == LayerName(layer, "feed_forward.w3.weight") ==> Matrix(shape, d.dFfn, d.dModel))
    && (name == LayerName(layer, "feed_forward.w2.weight") ==> Matrix(shape, d.dModel, d.dFfn))
  }

  /** The shape and dtype a name demands of a model with these dimensions. */
  ghost predicate Fits(name: seq<u8>, shape: Shape, dtype: Dtype, d: Dimensions) {
    GlobalFits(name, shape, dtype, d) && forall layer: u32 :: LayerFits(name, shape, dtype, layer, d)
  }

  // ---- Names and slots ----------------------------------------------------------------

  lemma LayerSlotName(layer: u32, tensor: LayerTensor)
    ensures SlotName(Layer(layer, tensor)) == LayerName(layer, LAYER_PARTS[tensor.Ordinal()])
  {
    hide Decimal;
    assert Ascii(".") == [DOT];
    assert tensor.Suffix() == Ascii(LAYER_PARTS[tensor.Ordinal()]);
  }

  lemma SlotIsRequired(h: Header, slot: Slot)
    requires Required(slot, h)
    ensures IsRequiredName(SlotName(slot), h.dims.nLayers, h.tiedOutput)
  {
    hide LayerName, Ascii;
    if slot.Layer? {
      LayerSlotName(slot.layer, slot.tensor);
    }
  }

  lemma SlotNamed(h: Header, name: seq<u8>) returns (slot: Slot)
    requires IsRequiredName(name, h.dims.nLayers, h.tiedOutput)
    ensures Required(slot, h) && SlotName(slot) == name
  {
    hide LayerName, Ascii;
    if name == Ascii("tok_embeddings.weight") {
      slot := TokEmbeddings;
    } else if name == Ascii("norm.weight") {
      slot := Norm;
    } else if name == Ascii("output.weight") && !h.tiedOutput {
      slot := Output;
    } else {
      var layer: u32, k :| layer < h.dims.nLayers && 0 <= k < 9 && name == LayerName(layer, LAYER_PARTS[k]);
      slot := Layer(layer, LAYER_TENSORS[k]);
      assert LAYER_TENSORS[k].Ordinal() == k;
      LayerSlotName(layer, LAYER_TENSORS[k]);
    }
  }

  // ---- Shapes by name -----------------------------------------------------------------

  /** The name, shape and dtype a slot demands. */
  ghost predicate SlotFits(name: seq<u8>, shape: Shape, dtype: Dtype, slot: Slot, d: Dimensions) {
    && name == SlotName(slot) && ShapeMatches(shape, ExpectedDims(slot, d))
    && (F32Only(slot) ==> dtype == F32)
  }

  lemma FitsGlobally(name: seq<u8>, shape: Shape, dtype: Dtype, slot: Slot, d: Dimensions)
    requires SlotFits(name, shape, dtype, slot, d)
    ensures GlobalFits(name, shape, dtype, d)
  {
    hide SlotName, Ascii, ShapeMatches, ExpectedDims, F32Only, Matrix, Vector;
    forall other: Slot | !other.Layer? && name == SlotName(other)
      ensures slot == other
    {
      SlotNameInjective(slot, other);
    }
    GlobalSlotNames();
    if !slot.Layer? {
      GlobalShape(name, shape, dtype, slot, d);
    }
  }

  lemma GlobalSlotNames()
    ensures SlotName(TokEmbeddings) == Ascii("tok_embeddings.weight")
    ensures SlotName(Norm) == Ascii("norm.weight")
    ensures SlotName(Output) == Ascii("output.weight")
  {
  }

  lemma GlobalShape(name: seq<u8>, shape: Shape, dtype: Dtype, slot: Slot, d: Dimensions)
    requires SlotFits(name, shape, dtype, slot, d) && !slot.Layer?
    ensures if slot.Norm? then Vector(shape, dtype, d.dModel) else Matrix(shape, d.vocabSize, d.dModel)
  {
    hide SlotName;
  }

  ghost predicate LayerShape(shape: Shape, dtype: Dtype, k: nat, d: Dimensions) {
    if k == 0 || k == 5 then Vector(shape, dtype, d.dModel)
    else if k == 1 then Matrix(shape, d.nHeads * d.dHead, d.dModel)
    else if k == 2 || k == 3 then Matrix(shape, d.nKvHeads * d.dHead, d.dModel)
    else if k == 4 then Matrix(shape, d.dModel, d.nHeads * d.dHead)
    else if k == 6 || k == 7 then Matrix(shape, d.dFfn, d.dModel)
    else Matrix(shape, d.dModel, d.dFfn)
  }

  lemma SlotShape(name: seq<u8>, shape: Shape, dtype: Dtype, layer: u32, tensor: LayerTensor, d: Dimensions)
    requires SlotFits(name, shape, dtype, Layer(layer, tensor), d)
    ensures LayerShape(shape, dtype, tensor.Ordinal(), d)
  {
    hide SlotName;
  }

  lemma FitsLayer(name: seq<u8>, shape: Shape, dtype: Dtype, slot: Slot, d: Dimensions, layer: u32)
    requires SlotFits(name, shape, dtype, slot, d)
    ensures LayerFits(name, shape, dtype, layer, d)
  {
    hide LayerName, SlotName, Ascii, Matrix, Vector, LayerShape, SlotFits;
    assert name == SlotName(slot) by { Unfold(name, shape, dtype, slot, d); }
    forall k | 0 <= k < 9 && name == LayerName(layer, LAYER_PARTS[k])
      ensures LayerShape(shape, dtype, k, d)
    {
      var tensor := LAYER_TENSORS[k];
      assert tensor.Ordinal() == k;
      LayerSlotName(layer, tensor);
      SlotNameInjective(slot, Layer(layer, tensor));
      SlotShape(name, shape, dtype, layer, tensor, d);
    }
    ByPart(name, shape, dtype, layer, d);
  }

  lemma Unfold(name: seq<u8>, shape: Shape, dtype: Dtype, slot: Slot, d: Dimensions)
    requires SlotFits(name, shape, dtype, slot, d)
    ensures name == SlotName(slot)
  {
    hide SlotName;
  }

  lemma ByPart(name: seq<u8>, shape: Shape, dtype: Dtype, layer: u32, d: Dimensions)
    requires forall k :: 0 <= k < 9 && name == LayerName(layer, LAYER_PARTS[k]) ==> LayerShape(shape, dtype, k, d)
    ensures LayerFits(name, shape, dtype, layer, d)
  {
    hide LayerName, Matrix, Vector;
    assert LAYER_PARTS[0] == "attention_norm.weight" && LAYER_PARTS[1] == "attention.wq.weight";
    assert LAYER_PARTS[2] == "attention.wk.weight" && LAYER_PARTS[3] == "attention.wv.weight";
    assert LAYER_PARTS[4] == "attention.wo.weight" && LAYER_PARTS[5] == "ffn_norm.weight";
    assert LAYER_PARTS[6] == "feed_forward.w1.weight" && LAYER_PARTS[7] == "feed_forward.w3.weight";
    assert LAYER_PARTS[8] == "feed_forward.w2.weight";
  }

  /** The tensor of a slot has the shape its name demands. */
  lemma TensorFits(name: seq<u8>, shape: Shape, dtype: Dtype, slot: Slot, d: Dimensions)
    requires SlotFits(name, shape, dtype, slot, d)
    ensures Fits(name, shape, dtype, d)
  {
    hide SlotFits, LayerFits, GlobalFits;
    FitsGlobally(name, shape, dtype, slot, d);
    forall layer: u32 ensures LayerFits(name, shape, dtype, layer, d) {
      FitsLayer(name, shape, dtype, slot, d, layer);
    }
  }

  lemma ShapeFits(name: seq<u8>, shape: Shape, dtype: Dtype, slot: Slot, d: Dimensions)
    requires name == SlotName(slot)
    requires match slot
      case Layer(_, tensor) => LayerShape(shape, dtype, tensor.Ordinal(), d)
      case Norm => Vector(shape, dtype, d.dModel)
      case _ => Matrix(shape, d.vocabSize, d.dModel)
    ensures SlotFits(name, shape, dtype, slot, d)
  {
    hide SlotName;
  }

  /** What has a slot's name and fits it is what the slot demands. */
  lemma FitIsSlots(name: seq<u8>, shape: Shape, dtype: Dtype, slot: Slot, d: Dimensions)
    requires name == SlotName(slot) && Fits(name, shape, dtype, d)
    ensures SlotFits(name, shape, dtype, slot, d)
  {
    hide SlotName, LayerName, Ascii, Matrix, Vector, SlotFits;
    GlobalSlotNames();
    if slot.Layer? {
      LayerSlotName(slot.layer, slot.tensor);
      assert LayerFits(name, shape, dtype, slot.layer, d);
      PartFits(name, shape, dtype, slot.layer, slot.tensor.Ordinal(), d);
    }
    ShapeFits(name, shape, dtype, slot, d);
  }

  lemma PartFits(name: seq<u8>, shape: Shape, dtype: Dtype, layer: u32, k: nat, d: Dimensions)
    requires k < 9 && name == LayerName(layer, LAYER_PARTS[k]) && LayerFits(name, shape, dtype, layer, d)
    ensures LayerShape(shape, dtype, k, d)
  {
    hide LayerName, Matrix, Vector;
  }

  // ---- Whole tables ---------------------------------------------------------------------

  /** Record `i` decodes, is required, and has the shape its name demands. */
  ghost predicate RecordFits(table: Slice, h: Header, i: nat) {
    && Decodes(table, i)
    && IsRequiredName(RecordAt(table, i).name, h.dims.nLayers, h.tiedOutput)
    && Fits(RecordAt(table, i).name, RecordAt(table, i).shape, RecordAt(table, i).dtype, h.dims)
  }

  lemma SlotMeaning(table: Slice, h: Header, i: nat)
    ensures HasSlot(table, h, i) <==> RecordFits(table, h, i)
  {
    hide DecodeRecord, IsRequiredName, Fits, SlotName, Required, ShapeMatches, ExpectedDims, F32Only;
    if Decodes(table, i) {
      var r := RecordAt(table, i);
      if HasSlot(table, h, i) {
        var slot :| IsTensor(table, h, i, slot);
        SlotIsRequired(h, slot);
        TensorFits(r.name, r.shape, r.dtype, slot, h.dims);
      }
      if RecordFits(table, h, i) {
        var slot := SlotNamed(h, r.name);
        FitIsSlots(r.name, r.shape, r.dtype, slot, h.dims);
        assert IsTensor(table, h, i, slot);
      }
    }
  }

  /** Every record fits the model under its own name, and no two share a name. */
  ghost predicate AllFit(table: Slice, h: Header) {
    && (forall i :: 0 <= i < h.tensorCount ==> RecordFits(table, h, i))
    && (forall i, j :: 0 <= i < j < h.tensorCount ==> NameAt(table, i) != NameAt(table, j))
  }

  /** The name pass's own condition, said name by name. */
  lemma NamedMeaning(table: Slice, h: Header)
    ensures AllNamed(table, h) <==> AllFit(table, h)
  {
    hide HasSlot, RecordFits, NameAt;
    forall i | 0 <= i < h.tensorCount ensures HasSlot(table, h, i) <==> RecordFits(table, h, i) {
      SlotMeaning(table, h, i);
    }
  }
}
