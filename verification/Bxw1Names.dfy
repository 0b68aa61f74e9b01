/** The required tensor-name set, its presence bitmap, and the shape cross-checks. */
module Bxw1Names {
  import opened Results
  import opened Bytes
  import opened Bxw1Header
  import opened Bxw1Table

  datatype LayerTensor = AttentionNorm | Wq | Wk | Wv | Wo | FfnNorm | W1 | W3 | W2 {
    /** The position in the order slot bits are assigned. */
    function Ordinal(): (n: nat)
      ensures n < TENSORS_PER_LAYER
    {
      match this
      case AttentionNorm => 0 case Wq => 1 case Wk => 2 case Wv => 3 case Wo => 4
      case FfnNorm => 5 case W1 => 6 case W3 => 7 case W2 => 8
    }

    function Suffix(): (s: seq<u8>) {
      match this
      case AttentionNorm => Ascii("attention_norm.weight")
      case Wq => Ascii("attention.wq.weight")
      case Wk => Ascii("attention.wk.weight")
      case Wv => Ascii("attention.wv.weight")
      case Wo => Ascii("attention.wo.weight")
      case FfnNorm => Ascii("ffn_norm.weight")
      case W1 => Ascii("feed_forward.w1.weight")
      case W3 => Ascii("feed_forward.w3.weight")
      case W2 => Ascii("feed_forward.w2.weight")
    }
  }

  const LAYER_TENSORS: seq<LayerTensor> := [AttentionNorm, Wq, Wk, Wv, Wo, FfnNorm, W1, W3, W2]

  datatype Slot = TokEmbeddings | Norm | Output | Layer(layer: u32, tensor: LayerTensor)

  const DOT: u8 := 0x2e
  const ZERO_DIGIT: u8 := 0x30

  // ---- Classification --------------------------------------------------------

  /** The value of a digit string, most significant first; nothing if a byte is no digit. */
  function DigitsValue(digits: seq<u8>): (r: Option<nat>) {
    if digits == [] then Some(0)
    else
      var last := digits[|digits| - 1];
      match DigitsValue(digits[..|digits| - 1])
      case None => None
      case Some(front) =>
        if last < ZERO_DIGIT || last - ZERO_DIGIT > 9 then None else Some(10 * front + (last - ZERO_DIGIT))
  }

  /** One to three digits without a leading zero. */
  function LayerIndex(digits: seq<u8>): (r: Option<nat>) {
    if digits == [] || |digits| > 3 then None
    else if |digits| > 1 && digits[0] == ZERO_DIGIT then None
    else DigitsValue(digits)
  }

  /** The accumulating digit loop. */
  method ParseLayerIndex(digits: seq<u8>) returns (r: Option<nat>)
    ensures r == LayerIndex(digits)
  {
    if digits == [] || |digits| > 3 {
      return None;
    }
    if |digits| > 1 && digits[0] == ZERO_DIGIT {
      return None;
    }
    var value := 0;
    for k := 0 to |digits|
      invariant DigitsValue(digits[..k]) == Some(value)
    {
      assert digits[..k + 1][..k] == digits[..k];
      if digits[k] < ZERO_DIGIT || digits[k] - ZERO_DIGIT > 9 {
        BadDigit(digits, k);
        return None;
      }
      value := 10 * value + (digits[k] - ZERO_DIGIT);
    }
    assert digits[..|digits|] == digits;
    return Some(value);
  }

  lemma {:induction false} BadDigit(digits: seq<u8>, k: nat)
    requires k < |digits| && DigitsValue(digits[..k + 1]).None?
    ensures DigitsValue(digits).None?
    decreases |digits|
  {
    if k + 1 < |digits| {
      assert digits[..|digits| - 1][..k + 1] == digits[..k + 1];
      BadDigit(digits[..|digits| - 1], k);
    } else {
      assert digits[..k + 1] == digits;
    }
  }

  function FindSuffix(suffix: seq<u8>, from: nat): (r: Option<LayerTensor>)
    requires from <= |LAYER_TENSORS|
    decreases |LAYER_TENSORS| - from
  {
    if from == |LAYER_TENSORS| then None
    else if LAYER_TENSORS[from].Suffix() == suffix then Some(LAYER_TENSORS[from])
    else FindSuffix(suffix, from + 1)
  }

  function Classify(name: seq<u8>, nLayers: u32): (r: Option<Slot>) {
    if name == Ascii("tok_embeddings.weight") then Some(TokEmbeddings)
    else if name == Ascii("norm.weight") then Some(Norm)
    else if name == Ascii("output.weight") then Some(Output)
    else if |name| < 7 || name[..7] != Ascii("layers.") then None
    else ClassifyLayer(name[7..], nLayers)
  }

  /** What follows the `layers.` prefix: an index, a dot, and a suffix. */
  function ClassifyLayer(rest: seq<u8>, nLayers: u32): (r: Option<Slot>) {
    var dot := Position(rest, DOT);
    if dot.None? then None else
    var index := LayerIndex(rest[..dot.value]);
    if index.None? || index.value >= nLayers then None else
    match FindSuffix(rest[dot.value + 1..], 0)
    case None => None
    case Some(tensor) => Some(Layer(index.value, tensor))
  }

  /** The one spelling of a layer index. */
  function Decimal(v: nat): (s: seq<u8>)
    ensures s != []
  {
    if v < 10 then [ZERO_DIGIT + v] else Decimal(v / 10) + [ZERO_DIGIT + v % 10]
  }

  /** The one name of a slot. */
  function SlotName(slot: Slot): (name: seq<u8>) {
    match slot
    case TokEmbeddings => Ascii("tok_embeddings.weight")
    case Norm => Ascii("norm.weight")
    case Output => Ascii("output.weight")
    case Layer(layer, tensor) => Ascii("layers.") + Decimal(layer) + [DOT] + tensor.Suffix()
  }

  /** Whether a slot's layer exists in a model of this many layers. */
  predicate InModel(slot: Slot, nLayers: u32) {
    slot.Layer? ==> slot.layer < nLayers
  }

  lemma {:induction false} DecimalIsDigits(v: nat)
    ensures forall i :: 0 <= i < |Decimal(v)| ==> ZERO_DIGIT <= Decimal(v)[i] <= ZERO_DIGIT + 9
    ensures DigitsValue(Decimal(v)) == Some(v)
    ensures v >= 10 ==> Decimal(v)[0] != ZERO_DIGIT
    ensures v > 0 ==> Decimal(v)[0] != ZERO_DIGIT
    decreases v
  {
    if v >= 10 {
      DecimalIsDigits(v / 10);
      assert Decimal(v)[..|Decimal(v)| - 1] == Decimal(v / 10);
    } else {
      assert Decimal(v)[..0] == [];
    }
  }

  /** A digit string without a leading zero is the decimal spelling of its value. */
  lemma {:induction false} DigitsAreDecimal(digits: seq<u8>)
    requires digits != [] && DigitsValue(digits).Some?
    requires |digits| > 1 ==> digits[0] != ZERO_DIGIT
    ensures digits == Decimal(DigitsValue(digits).value)
    ensures |digits| > 1 ==> DigitsValue(digits).value >= 10
    decreases |digits|
  {
    var front, last := digits[..|digits| - 1], digits[|digits| - 1];
    assert digits == front + [last];
    if front != [] {
      var v := DigitsValue(front).value;
      DigitsAreDecimal(front);
      if |front| == 1 {
        assert front[..0] == [];
        assert v == front[0] - ZERO_DIGIT;
      }
      assert (10 * v + (last - ZERO_DIGIT)) / 10 == v;
    }
  }

  lemma DecimalLength(v: nat)
    requires v < 1000
    ensures |Decimal(v)| <= 3
  {
    assert v >= 100 ==> |Decimal(v / 10)| == |Decimal(v / 10 / 10)| + 1;
  }

  lemma {:induction false} DigitsAreBounded(digits: seq<u8>)
    requires DigitsValue(digits).Some?
    ensures |digits| <= 1 ==> DigitsValue(digits).value < 10
    ensures |digits| <= 2 ==> DigitsValue(digits).value < 100
    ensures |digits| <= 3 ==> DigitsValue(digits).value < 1000
  {
    if digits != [] {
      DigitsAreBounded(digits[..|digits| - 1]);
      assert |digits| == 1 ==> digits[..0] == [];
    }
  }

  /** Exactly the canonical spellings below 1000 are layer indices. */
  lemma LayerIndexMeaning(digits: seq<u8>, v: nat)
    ensures LayerIndex(digits) == Some(v) <==> v < 1000 && digits == Decimal(v)
  {
    hide DigitsValue, Decimal;
    if LayerIndex(digits) == Some(v) {
      DigitsAreDecimal(digits);
      DigitsAreBounded(digits);
    }
    if v < 1000 && digits == Decimal(v) {
      DecimalIsDigits(v);
      DecimalLength(v);
      DecimalShort(v);
    }
  }

  lemma DecimalShort(v: nat)
    ensures v < 10 ==> |Decimal(v)| == 1
  {
  }

  /** Suffixes are pairwise different. */
  lemma SuffixInjective(a: LayerTensor, b: LayerTensor)
    requires a.Suffix() == b.Suffix()
    ensures a == b
  {
    var s, t := a.Suffix(), b.Suffix();
    assert |s| == 19 ==> s[11] == t[11];
    assert |s| == 22 ==> s[14] == t[14];
  }

  lemma {:induction false} FindSuffixFinds(tensor: LayerTensor, from: nat)
    requires from <= tensor.Ordinal()
    ensures FindSuffix(tensor.Suffix(), from) == Some(tensor)
    decreases |LAYER_TENSORS| - from
  {
    hide LayerTensor.Suffix;
    assert LAYER_TENSORS[tensor.Ordinal()] == tensor;
    if LAYER_TENSORS[from].Suffix() == tensor.Suffix() {
      SuffixInjective(LAYER_TENSORS[from], tensor);
    } else {
      FindSuffixFinds(tensor, from + 1);
    }
  }

  lemma {:induction false} FoundSuffix(suffix: seq<u8>, from: nat)
    requires from <= |LAYER_TENSORS| && FindSuffix(suffix, from).Some?
    ensures FindSuffix(suffix, from).value.Suffix() == suffix
    decreases |LAYER_TENSORS| - from
  {
    if LAYER_TENSORS[from].Suffix() != suffix {
      FoundSuffix(suffix, from + 1);
    }
  }

  lemma LayerIsNamed(rest: seq<u8>, nLayers: u32)
    requires ClassifyLayer(rest, nLayers).Some?
    ensures var slot := ClassifyLayer(rest, nLayers).value;
      slot.Layer? && slot.layer < nLayers && rest == Decimal(slot.layer) + [DOT] + slot.tensor.Suffix()
  {
    hide Position, LayerIndex, FindSuffix, Decimal, LayerTensor.Suffix;
    var dot := Position(rest, DOT).value;
    LayerIndexMeaning(rest[..dot], ClassifyLayer(rest, nLayers).value.layer);
    FoundSuffix(rest[dot + 1..], 0);
    assert rest == rest[..dot] + [DOT] + rest[dot + 1..];
  }

  lemma ClassifiedIsNamed(name: seq<u8>, nLayers: u32, slot: Slot)
    requires Classify(name, nLayers) == Some(slot)
    ensures name == SlotName(slot) && InModel(slot, nLayers)
  {
    hide ClassifyLayer, Decimal, Ascii, LayerTensor.Suffix;
    if |name| >= 7 && ClassifyLayer(name[7..], nLayers).Some? {
      LayerIsNamed(name[7..], nLayers);
      assert name == name[..7] + name[7..];
    }
  }

  lemma NamedIsClassified(nLayers: u32, slot: Slot)
    requires nLayers <= 1000 && InModel(slot, nLayers)
    ensures Classify(SlotName(slot), nLayers) == Some(slot)
  {
    hide Position, LayerIndex, FindSuffix, Decimal;
    if slot.Layer? {
      var name, digits, suffix := SlotName(slot), Decimal(slot.layer), slot.tensor.Suffix();
      var rest := digits + [DOT] + suffix;
      LayerNameParts(slot);
      LayerNameIsNotGlobal(slot);
      DecimalIsDigits(slot.layer);
      assert rest[..|digits|] == digits && rest[|digits| + 1..] == suffix;
      PositionUnique(rest, DOT, |digits|);
      LayerIndexMeaning(digits, slot.layer);
      FindSuffixFinds(slot.tensor, 0);
    } else {
      GlobalNamesDiffer();
    }
  }

  lemma LayerNameParts(slot: Slot)
    requires slot.Layer?
    ensures |SlotName(slot)| >= 7 && SlotName(slot)[..7] == Ascii("layers.")
    ensures SlotName(slot)[7..] == Decimal(slot.layer) + [DOT] + slot.tensor.Suffix()
  {
    hide Decimal;
  }

  lemma LayerNameIsNotGlobal(slot: Slot)
    requires slot.Layer?
    ensures SlotName(slot) !in {Ascii("tok_embeddings.weight"), Ascii("norm.weight"), Ascii("output.weight")}
  {
    hide Decimal;
    assert SlotName(slot)[0] == Ascii("layers.")[0];
    assert Ascii("tok_embeddings.weight")[0] != Ascii("layers.")[0];
    assert Ascii("norm.weight")[0] != Ascii("layers.")[0];
    assert Ascii("output.weight")[0] != Ascii("layers.")[0];
  }

  lemma GlobalNamesDiffer()
    ensures |Ascii("tok_embeddings.weight")| == 21 && |Ascii("norm.weight")| == 11 && |Ascii("output.weight")| == 13
  {
  }

  /** Distinct names never share a slot, and every slot of the model has exactly its one name. */
  lemma ClassifyMeaning(name: seq<u8>, nLayers: u32, slot: Slot)
    requires nLayers <= MAX_LAYERS
    ensures Classify(name, nLayers) == Some(slot) <==> name == SlotName(slot) && InModel(slot, nLayers)
  {
    hide Classify, SlotName, InModel;
    if Classify(name, nLayers) == Some(slot) {
      ClassifiedIsNamed(name, nLayers, slot);
    }
    if name == SlotName(slot) && InModel(slot, nLayers) {
      NamedIsClassified(nLayers, slot);
    }
  }

  // ---- Slot bits and the bitmap -----------------------------------------------

  const WORD_BITS: int := 64
  const BITMAP_WORDS: int := 19

  function Bit(slot: Slot): (bit: nat) {
    match slot
    case TokEmbeddings => 0
    case Norm => 1
    case Output => 2
    case Layer(layer, tensor) => 3 + layer * TENSORS_PER_LAYER + tensor.Ordinal()
  }

  lemma BitInjective(a: Slot, b: Slot)
    ensures Bit(a) == Bit(b) ==> a == b
  {
  }

  lemma BitInRange(slot: Slot, nLayers: u32)
    requires nLayers <= MAX_LAYERS && InModel(slot, nLayers)
    ensures Bit(slot) < 3 + nLayers * TENSORS_PER_LAYER <= 1155 < BITMAP_WORDS * WORD_BITS
  {
  }

  function Pow2(n: nat): (p: nat)
    ensures p >= 1
  {
    if n == 0 then 1 else 2 * Pow2(n - 1)
  }

  /** `word & (1 << shift) != 0`, on the word's binary expansion. */
  predicate HasBit(word: nat, shift: nat)
    decreases shift
  {
    if shift == 0 then word % 2 == 1 else HasBit(word / 2, shift - 1)
  }

  /** `word | (1 << shift)`. */
  function SetBit(word: nat, shift: nat): (w: nat) {
    if HasBit(word, shift) then word else word + Pow2(shift)
  }

  lemma {:induction false} SettingOneBit(word: nat, a: nat, b: nat)
    ensures HasBit(SetBit(word, a), b) <==> a == b || HasBit(word, b)
    decreases a, b
  {
    if a == 0 {
      assert !HasBit(word, 0) ==> (word + 1) / 2 == word / 2;
    } else {
      HalvedSet(word, a);
      if b > 0 {
        SettingOneBit(word / 2, a - 1, b - 1);
      }
    }
  }

  lemma HalvedSet(word: nat, a: nat)
    requires a > 0
    ensures SetBit(word, a) / 2 == SetBit(word / 2, a - 1) && SetBit(word, a) % 2 == word % 2
  {
    assert (word + 2 * Pow2(a - 1)) / 2 == word / 2 + Pow2(a - 1);
  }

  lemma LowBitFits(word: nat, half: nat)
    requires word < 2 * half
    ensures SetBit(word, 0) < 2 * half
  {
  }

  lemma Doubled(w: nat, half: nat)
    requires w / 2 < half
    ensures w < 2 * half
  {
  }

  lemma {:induction false} SetBitFits(word: nat, a: nat, width: nat)
    requires a < width && word < Pow2(width)
    ensures SetBit(word, a) < Pow2(width)
    decreases width
  {
    var half := Pow2(width - 1);
    assert Pow2(width) == 2 * half;
    hide SetBit, Pow2;
    if a > 0 {
      SetBitFits(word / 2, a - 1, width - 1);
      HalvedSet(word, a);
      Doubled(SetBit(word, a), half);
    } else {
      LowBitFits(word, half);
    }
  }

  lemma {:induction false} ZeroHasNoBit(shift: nat)
    ensures !HasBit(0, shift)
    decreases shift
  {
    if shift > 0 {
      ZeroHasNoBit(shift - 1);
    }
  }

  lemma WordWidth()
    ensures Pow2(WORD_BITS) == TWO_64
  {
    assert Pow2(8) == 256;
    assert Pow2(16) == 256 * Pow2(8) by { Pow2Adds(8, 8); }
    assert Pow2(32) == Pow2(16) * Pow2(16) by { Pow2Adds(16, 16); }
    assert Pow2(64) == Pow2(32) * Pow2(32) by { Pow2Adds(32, 32); }
  }

  lemma {:induction false} Pow2Adds(m: nat, n: nat)
    ensures Pow2(m + n) == Pow2(m) * Pow2(n)
    decreases m
  {
    if m > 0 {
      Pow2Adds(m - 1, n);
    }
  }

  /** The presence bitmap: a fixed array of 64-bit words standing for a set of bits. */
  class SlotSet {
    const words: array<u64>

    ghost predicate Valid()
      reads this
    {
      words.Length == BITMAP_WORDS
    }

    ghost function Bits(): (bits: set<nat>)
      requires Valid()
      reads this, words
    {
      set bit: nat | bit < BITMAP_WORDS * WORD_BITS && HasBit(words[bit / WORD_BITS], bit % WORD_BITS)
    }

    constructor ()
      ensures Valid() && fresh(words) && Bits() == {}
    {
      words := new u64[BITMAP_WORDS](_ => 0);
      new;
      forall shift: nat ensures !HasBit(0, shift) {
        ZeroHasNoBit(shift);
      }
    }

    /** Adds a bit; a bit already present denies as a duplicate. */
    method Insert(bit: nat) returns (r: Result<(), Bxw1Error>)
      requires Valid()
      modifies words
      ensures r == (if bit >= BITMAP_WORDS * WORD_BITS then Err(UnknownTensorName)
                    else if bit in old(Bits()) then Err(DuplicateTensorName)
                    else Ok(()))
      ensures Bits() == if r.Ok? then old(Bits()) + {bit} else old(Bits())
    {
      hide HasBit, SetBit;
      var index, shift := bit / WORD_BITS, bit % WORD_BITS;
      if index >= words.Length {
        return Err(UnknownTensorName);
      }
      if HasBit(words[index], shift) {
        return Err(DuplicateTensorName);
      }
      WordWidth();
      SetBitFits(words[index], shift, WORD_BITS);
      ghost var before := words[index];
      words[index] := SetBit(words[index], shift);
      forall other: nat ensures HasBit(words[index], other) <==> other == shift || HasBit(before, other) {
        SettingOneBit(before, shift, other);
      }
      forall b: nat | b < BITMAP_WORDS * WORD_BITS && b / WORD_BITS == index && b % WORD_BITS == shift
        ensures b == bit
      {
      }
      return Ok(());
    }

    method Contains(bit: nat) returns (r: Result<bool, Bxw1Error>)
      requires Valid()
      ensures r == if bit >= BITMAP_WORDS * WORD_BITS then Err(UnknownTensorName) else Ok(bit in Bits())
    {
      var index, shift := bit / WORD_BITS, bit % WORD_BITS;
      if index >= words.Length {
        return Err(UnknownTensorName);
      }
      return Ok(HasBit(words[index], shift));
    }
  }

  // ---- Admission ---------------------------------------------------------------

  predicate F32Only(slot: Slot) {
    slot.Norm? || (slot.Layer? && (slot.tensor.AttentionNorm? || slot.tensor.FfnNorm?))
  }

  /** The shape the header dictates for a slot. */
  function ExpectedDims(slot: Slot, d: Dimensions): (dims: seq<nat>) {
    var qWidth, kvWidth := d.nHeads * d.dHead, d.nKvHeads * d.dHead;
    match slot
    case TokEmbeddings => [d.vocabSize, d.dModel]
    case Output => [d.vocabSize, d.dModel]
    case Norm => [d.dModel]
    case Layer(_, tensor) =>
      match tensor
      case AttentionNorm => [d.dModel]
      case FfnNorm => [d.dModel]
      case Wq => [qWidth, d.dModel]
      case Wk => [kvWidth, d.dModel]
      case Wv => [kvWidth, d.dModel]
      case Wo => [d.dModel, qWidth]
      case W1 => [d.dFfn, d.dModel]
      case W3 => [d.dFfn, d.dModel]
      case W2 => [d.dModel, d.dFfn]
  }

  predicate ShapeMatches(shape: Shape, expected: seq<nat>) {
    shape.rank == |expected| <= |shape.dims| && forall i :: 0 <= i < |expected| ==> shape.dims[i] == expected[i]
  }

  /** Admitting one record into the set of slots already seen. */
  function Admission(record: Record, header: Header, seen: set<nat>): (r: Result<set<nat>, Bxw1Error>) {
    var slot :- Classify(record.name, header.dims.nLayers).OkOr(UnknownTensorName);
    if slot.Output? && header.tiedOutput then Err(TiedOutputWeightPresent) else
    if Bit(slot) >= BITMAP_WORDS * WORD_BITS then Err(UnknownTensorName) else
    if Bit(slot) in seen then Err(DuplicateTensorName) else
    if F32Only(slot) && record.dtype != F32 then Err(DtypeNotPermittedForName) else
    if !ShapeMatches(record.shape, ExpectedDims(slot, header.dims)) then Err(ShapeDisagreesWithHeader) else
    Ok(seen + {Bit(slot)})
  }

  method Admit(record: Record, header: Header, seen: SlotSet) returns (r: Result<(), Bxw1Error>)
    requires seen.Valid()
    modifies seen.words
    ensures r == match Admission(record, header, old(seen.Bits())) case Ok(_) => Ok(()) case Err(error) => Err(error)
    ensures r.Ok? ==> Admission(record, header, old(seen.Bits())) == Ok(seen.Bits())
    ensures r != Err(MissingRequiredTensor)
  {
    hide Classify, ShapeMatches, ExpectedDims, Bit;
    var slot :- Classify(record.name, header.dims.nLayers).OkOr(UnknownTensorName);
    if slot.Output? && header.tiedOutput {
      return Err(TiedOutputWeightPresent);
    }
    var _ :- seen.Insert(Bit(slot));
    if F32Only(slot) && record.dtype != F32 {
      return Err(DtypeNotPermittedForName);
    }
    if !ShapeMatches(record.shape, ExpectedDims(slot, header.dims)) {
      return Err(ShapeDisagreesWithHeader);
    }
    return Ok(());
  }

  /** Stage S6 over records `index..count`. */
  function Names(table: Slice, header: Header, index: nat, seen: set<nat>): (r: Result<set<nat>, Bxw1Error>)
    requires index <= header.tensorCount && header.tensorCount * RECORD_BYTES <= |table|
    ensures r != Err(MissingRequiredTensor)
    decreases header.tensorCount - index
  {
    hide DecodeRecord, Classify, Bit, F32Only, ShapeMatches, ExpectedDims;
    if index == header.tensorCount then Ok(seen)
    else
      var record :- DecodeRecord(table, index);
      var next :- Admission(record, header, seen);
      Names(table, header, index + 1, next)
  }

  // ---- Completeness ------------------------------------------------------------

  /** The slots a model of this shape requires. */
  predicate Required(slot: Slot, header: Header) {
    InModel(slot, header.dims.nLayers) && !(slot.Output? && header.tiedOutput)
  }

  function Range(lo: nat, hi: nat): (s: set<nat>)
    ensures forall b :: b in s <==> lo <= b < hi
    decreases hi
  {
    if lo >= hi then {} else Range(lo, hi - 1) + {hi - 1}
  }

  function RequiredBits(nLayers: u32, tiedOutput: bool): (bits: set<nat>)
    ensures forall b :: b in bits <==> 0 <= b < 3 + nLayers * TENSORS_PER_LAYER && (b != 2 || !tiedOutput)
  {
    Range(0, 3 + nLayers * TENSORS_PER_LAYER) - if tiedOutput then {2} else {}
  }

  method RequireComplete(seen: SlotSet, header: Header) returns (r: Result<(), Bxw1Error>)
    requires seen.Valid() && header.dims.nLayers <= MAX_LAYERS
    ensures r == if RequiredBits(header.dims.nLayers, header.tiedOutput) <= seen.Bits() then Ok(())
                 else Err(MissingRequiredTensor)
  {
    hide HasBit, RequiredBits, SlotSet.Bits;
    ghost var bits, required := seen.Bits(), RequiredBits(header.dims.nLayers, header.tiedOutput);
    assert 0 in required && 1 in required;
    var present := seen.Contains(Bit(TokEmbeddings));
    if present != Ok(true) {
      return Err(MissingRequiredTensor);
    }
    present := seen.Contains(Bit(Norm));
    if present != Ok(true) {
      return Err(MissingRequiredTensor);
    }
    if !header.tiedOutput {
      assert 2 in required;
      present := seen.Contains(Bit(Output));
      if present != Ok(true) {
        return Err(MissingRequiredTensor);
      }
    }
    var layer: u32 := 0;
    while layer < header.dims.nLayers
      invariant layer <= header.dims.nLayers
      invariant forall b :: 3 <= b < 3 + layer * TENSORS_PER_LAYER ==> b in bits
    {
      for t := 0 to |LAYER_TENSORS|
        invariant forall b :: 3 <= b < 3 + layer * TENSORS_PER_LAYER + t ==> b in bits
      {
        assert LAYER_TENSORS[t].Ordinal() == t;
        assert 3 + layer * TENSORS_PER_LAYER + t in required;
        present := seen.Contains(Bit(Layer(layer, LAYER_TENSORS[t])));
        if present != Ok(true) {
          return Err(MissingRequiredTensor);
        }
      }
      layer := layer + 1;
    }
    return Ok(());
  }

  lemma RequiredBitMeaning(slot: Slot, header: Header)
    ensures Required(slot, header) <==> Bit(slot) in RequiredBits(header.dims.nLayers, header.tiedOutput)
  {
  }

  lemma {:induction false} RangeSize(lo: nat, hi: nat)
    requires lo <= hi
    ensures |Range(lo, hi)| == hi - lo
    decreases hi - lo
  {
    if lo < hi {
      RangeSize(lo, hi - 1);
    }
  }

  lemma RequiredSize(nLayers: u32, tiedOutput: bool)
    ensures |RequiredBits(nLayers, tiedOutput)| == RequiredCount(nLayers, tiedOutput)
  {
    hide Range;
    var all := Range(0, 3 + nLayers * TENSORS_PER_LAYER);
    RangeSize(0, 3 + nLayers * TENSORS_PER_LAYER);
    assert RequiredBits(nLayers, false) == all;
    assert |all - {2}| == |all| - 1;
  }

  lemma EqualBySize(a: set<nat>, b: set<nat>)
    requires a <= b && |a| == |b|
    ensures a == b
  {
    assert |b - a| == |b| - |a|;
  }

  lemma AdmissionGrows(record: Record, header: Header, seen: set<nat>)
    requires Admission(record, header, seen).Ok?
    requires seen <= RequiredBits(header.dims.nLayers, header.tiedOutput)
    ensures var next := Admission(record, header, seen).value;
      && seen <= next <= RequiredBits(header.dims.nLayers, header.tiedOutput)
      && |next| == |seen| + 1
  {
    hide ShapeMatches, ExpectedDims, Bit, RequiredBits, Classify;
    var slot := Classify(record.name, header.dims.nLayers).value;
    ClassifiedIsNamed(record.name, header.dims.nLayers, slot);
    RequiredBitMeaning(slot, header);
  }

  lemma {:induction false} NamesGrow(table: Slice, header: Header, index: nat, seen: set<nat>)
    requires index <= header.tensorCount && header.tensorCount * RECORD_BYTES <= |table|
    requires Names(table, header, index, seen).Ok?
    requires seen <= RequiredBits(header.dims.nLayers, header.tiedOutput)
    ensures var all := Names(table, header, index, seen).value;
      && seen <= all <= RequiredBits(header.dims.nLayers, header.tiedOutput)
      && |all| == |seen| + (header.tensorCount - index)
    decreases header.tensorCount - index
  {
    hide DecodeRecord, Admission, RequiredBits;
    if index < header.tensorCount {
      var record := DecodeRecord(table, index).value;
      AdmissionGrows(record, header, seen);
      NamesGrow(table, header, index + 1, Admission(record, header, seen).value);
    }
  }

  /** Count plus distinctness is completeness: the missing-tensor denial can never be raised. */
  lemma Pigeonhole(table: Slice, header: Header)
    requires header.tensorCount * RECORD_BYTES <= |table|
    requires header.tensorCount == RequiredCount(header.dims.nLayers, header.tiedOutput)
    requires Names(table, header, 0, {}).Ok?
    ensures Names(table, header, 0, {}).value == RequiredBits(header.dims.nLayers, header.tiedOutput)
  {
    hide Names, RequiredBits;
    NamesGrow(table, header, 0, {});
    RequiredSize(header.dims.nLayers, header.tiedOutput);
    EqualBySize(Names(table, header, 0, {}).value, RequiredBits(header.dims.nLayers, header.tiedOutput));
  }

  /** Record `i` is the tensor of `slot`: its one name, and the dtype and shape that slot demands. */
  ghost predicate IsTensor(table: Slice, header: Header, i: nat, slot: Slot) {
    && Decodes(table, i)
    && RecordAt(table, i).name == SlotName(slot) && Required(slot, header)
    && ShapeMatches(RecordAt(table, i).shape, ExpectedDims(slot, header.dims))
    && (F32Only(slot) ==> RecordAt(table, i).dtype == F32)
  }

  lemma AdmittedIsTensor(table: Slice, header: Header, i: nat, seen: set<nat>) returns (slot: Slot)
    requires Decodes(table, i) && Admission(RecordAt(table, i), header, seen).Ok?
    ensures IsTensor(table, header, i, slot)
    ensures Bit(slot) !in seen && Admission(RecordAt(table, i), header, seen).value == seen + {Bit(slot)}
  {
    hide DecodeRecord, ShapeMatches, ExpectedDims, Classify, Bit, SlotName;
    slot := Classify(RecordAt(table, i).name, header.dims.nLayers).value;
    ClassifiedIsNamed(RecordAt(table, i).name, header.dims.nLayers, slot);
  }

  /** Every bit the pass added was added by one record, which is that slot's tensor. */
  lemma {:induction false} NamesWitness(table: Slice, header: Header, index: nat, seen: set<nat>, slot: Slot)
    returns (i: nat)
    requires index <= header.tensorCount && header.tensorCount * RECORD_BYTES <= |table|
    requires Names(table, header, index, seen).Ok?
    requires Bit(slot) in Names(table, header, index, seen).value && Bit(slot) !in seen
    ensures index <= i < header.tensorCount && IsTensor(table, header, i, slot)
    decreases header.tensorCount - index
  {
    hide DecodeRecord, Admission, Bit, IsTensor;
    assert Decodes(table, index);
    var here := AdmittedIsTensor(table, header, index, seen);
    if here == slot {
      i := index;
    } else {
      BitInjective(here, slot);
      i := NamesWitness(table, header, index + 1, seen + {Bit(here)}, slot);
    }
  }

  /** No later record carries the name of a slot already seen. */
  lemma {:induction false} NamesFresh(table: Slice, header: Header, index: nat, seen: set<nat>, slot: Slot, j: nat)
    requires index <= j < header.tensorCount && header.tensorCount * RECORD_BYTES <= |table|
    requires Names(table, header, index, seen).Ok? && Bit(slot) in seen
    requires header.dims.nLayers <= MAX_LAYERS && Required(slot, header)
    ensures Decodes(table, j) && RecordAt(table, j).name != SlotName(slot)
    decreases header.tensorCount - index
  {
    hide DecodeRecord, Admission, Bit, SlotName;
    assert Decodes(table, index);
    var here := AdmittedIsTensor(table, header, index, seen);
    if index == j {
      if SlotName(here) == SlotName(slot) {
        SlotNameInjective(here, slot);
      }
    } else {
      NamesFresh(table, header, index + 1, seen + {Bit(here)}, slot, j);
    }
  }

  /** Where the first dot of a layer name's tail is, and what stands on either side. */
  lemma LayerTailParts(slot: Slot)
    requires slot.Layer?
    ensures var rest := SlotName(slot)[7..];
      && Position(rest, DOT) == Some(|Decimal(slot.layer)|)
      && rest[..|Decimal(slot.layer)|] == Decimal(slot.layer)
      && rest[|Decimal(slot.layer)| + 1..] == slot.tensor.Suffix()
  {
    hide Position, Decimal, LayerTensor.Suffix;
    var digits, suffix := Decimal(slot.layer), slot.tensor.Suffix();
    LayerNameParts(slot);
    DecimalIsDigits(slot.layer);
    var rest := digits + [DOT] + suffix;
    assert rest[..|digits|] == digits && rest[|digits| + 1..] == suffix;
    PositionUnique(rest, DOT, |digits|);
  }

  /** Distinct slots have distinct names, however many layers there are. */
  lemma SlotNameInjective(a: Slot, b: Slot)
    requires SlotName(a) == SlotName(b)
    ensures a == b
  {
    hide SlotName, Position, Decimal, LayerTensor.Suffix, Ascii;
    if a.Layer? && b.Layer? {
      LayerTailParts(a);
      LayerTailParts(b);
      DecimalIsDigits(a.layer);
      DecimalIsDigits(b.layer);
      SuffixInjective(a.tensor, b.tensor);
    } else if a.Layer? {
      LayerNameIsNotGlobal(a);
      GlobalName(b);
    } else if b.Layer? {
      LayerNameIsNotGlobal(b);
      GlobalName(a);
    } else {
      GlobalName(a);
      GlobalName(b);
      GlobalNamesDiffer();
    }
  }

  lemma GlobalName(slot: Slot)
    requires !slot.Layer?
    ensures SlotName(slot) == match slot
      case TokEmbeddings => Ascii("tok_embeddings.weight")
      case Norm => Ascii("norm.weight")
      case _ => Ascii("output.weight")
  {
    hide Ascii;
  }

  /** Two records never carry the name of one slot. */
  lemma {:induction false} NamesUnique(
    table: Slice, header: Header, index: nat, seen: set<nat>, slot: Slot, i: nat, j: nat)
    requires index <= i < j < header.tensorCount && header.tensorCount * RECORD_BYTES <= |table|
    requires Names(table, header, index, seen).Ok?
    requires header.dims.nLayers <= MAX_LAYERS && Required(slot, header)
    requires Decodes(table, i) && RecordAt(table, i).name == SlotName(slot)
    ensures Decodes(table, j) && RecordAt(table, j).name != SlotName(slot)
    decreases header.tensorCount - index
  {
    hide DecodeRecord, Admission, Bit, SlotName;
    assert Decodes(table, index);
    var here := AdmittedIsTensor(table, header, index, seen);
    if index < i {
      NamesUnique(table, header, index + 1, seen + {Bit(here)}, slot, i, j);
    } else {
      SlotNameInjective(here, slot);
      NamesFresh(table, header, index + 1, seen + {Bit(here)}, slot, j);
    }
  }

  /** After an accepted pass every record is the tensor of some required slot. */
  lemma {:induction false} NamesAllRequired(table: Slice, header: Header, index: nat, seen: set<nat>, i: nat)
    returns (slot: Slot)
    requires index <= i < header.tensorCount && header.tensorCount * RECORD_BYTES <= |table|
    requires Names(table, header, index, seen).Ok?
    ensures IsTensor(table, header, i, slot)
    decreases header.tensorCount - index
  {
    hide DecodeRecord, Admission, Bit, IsTensor;
    assert Decodes(table, index);
    slot := AdmittedIsTensor(table, header, index, seen);
    if index < i {
      slot := NamesAllRequired(table, header, index + 1, seen + {Bit(slot)}, i);
    }
  }

  /** `seen` holds the bits of exactly the slots named in `names`. */
  ghost predicate Tracks(header: Header, seen: set<nat>, names: set<seq<u8>>) {
    forall slot :: InModel(slot, header.dims.nLayers) ==> (Bit(slot) in seen <==> SlotName(slot) in names)
  }

  /** Every name is one the model requires. */
  ghost predicate AllRequiredNames(header: Header, names: set<seq<u8>>) {
    forall name <- names :: exists slot :: Required(slot, header) && SlotName(slot) == name
  }

  /** One admission: a duplicate is a repeated name, and the bitmap keeps tracking the names. */
  lemma AdmissionTracks(record: Record, header: Header, seen: set<nat>, names: set<seq<u8>>)
    requires header.dims.nLayers <= MAX_LAYERS && Tracks(header, seen, names)
    ensures var r := Admission(record, header, seen);
      && (r == Err(DuplicateTensorName) ==> record.name in names)
      && (r.Ok? ==> record.name !in names && Tracks(header, r.value, names + {record.name}))
  {
    hide Classify, SlotName, Bit, ShapeMatches, ExpectedDims;
    var classified := Classify(record.name, header.dims.nLayers);
    if classified.Some? {
      var slot := classified.value;
      ClassifiedIsNamed(record.name, header.dims.nLayers, slot);
      if Admission(record, header, seen).Ok? {
        forall other | InModel(other, header.dims.nLayers)
          ensures Bit(other) == Bit(slot) <==> SlotName(other) == SlotName(slot)
        {
          BitInjective(other, slot);
          if SlotName(other) == SlotName(slot) {
            SlotNameInjective(other, slot);
          }
        }
      }
    }
  }

  /** The duplicate denial means two records really share a name. */
  lemma {:induction false} DuplicateIsRepeat(
    table: Slice, header: Header, index: nat, seen: set<nat>, names: set<seq<u8>>)
    returns (i: nat)
    requires index <= header.tensorCount && header.tensorCount * RECORD_BYTES <= |table|
    requires header.dims.nLayers <= MAX_LAYERS && Tracks(header, seen, names)
    requires Names(table, header, index, seen) == Err(DuplicateTensorName)
    ensures index <= i < header.tensorCount && AllDecode(table, index, i + 1)
    ensures RecordAt(table, i).name in names
         || exists j :: index <= j < i && Decodes(table, j) && RecordAt(table, j).name == RecordAt(table, i).name
    decreases header.tensorCount - index
  {
    hide DecodeRecord, Admission, Tracks;
    RecordErrors(table, index);
    assert Decodes(table, index);
    var record := RecordAt(table, index);
    AdmissionTracks(record, header, seen, names);
    if Admission(record, header, seen).Err? {
      i := index;
    } else {
      i := DuplicateIsRepeat(table, header, index + 1, Admission(record, header, seen).value, names + {record.name});
    }
  }

  lemma RecordErrors(table: Slice, index: nat)
    requires (index + 1) * RECORD_BYTES <= |table|
    ensures DecodeRecord(table, index) != Err(DuplicateTensorName)
  {
    hide U16At, U32At, U64At, Product, DataLen, Position;
    var record := table[index * RECORD_BYTES..(index + 1) * RECORD_BYTES];
    if DtypeFrom(U16At(record, 64)).Ok? {
      ShapeErrors(record, DtypeFrom(U16At(record, 64)).value);
    }
  }

  lemma {:induction false} FaultErrors(dims: seq<u64>, rank: nat, slot: nat, product: nat)
    requires |dims| == MAX_RANK && slot <= MAX_RANK
    ensures DimsFault(dims, rank, slot, product) != Some(DuplicateTensorName)
    decreases MAX_RANK - slot
  {
    if slot < MAX_RANK {
      FaultErrors(dims, rank, slot + 1, if slot < rank then product * dims[slot] else product);
    }
  }

  lemma ShapeErrors(record: seq<u8>, dtype: Dtype)
    requires |record| == RECORD_BYTES
    ensures ShapeOf(record, dtype) != Err(DuplicateTensorName)
  {
    hide DimsFault, U16At, DimAt;
    FaultErrors(DimsOf(record), U16At(record, 66), 0, 1);
  }

  ghost predicate Repeats(table: Slice, count: nat, i: nat, j: nat) {
    && i < j < count && Decodes(table, i) && Decodes(table, j)
    && RecordAt(table, i).name == RecordAt(table, j).name
  }

  /** Record `k` would be admitted if it were the only one. */
  ghost predicate AloneAdmitted(table: Slice, header: Header, k: nat) {
    Decodes(table, k) && Admission(RecordAt(table, k), header, {}).Ok?
  }

  /** Reading names in order, the first thing wrong is a name already in `names` or already read. */
  ghost predicate RepeatComesFirst(table: Slice, header: Header, index: nat, names: set<seq<u8>>)
    decreases header.tensorCount - index
  {
    && index < header.tensorCount && Decodes(table, index)
    && var name := RecordAt(table, index).name;
       || name in names
       || (AloneAdmitted(table, header, index) && RepeatComesFirst(table, header, index + 1, names + {name}))
  }

  lemma RepeatIsDuplicate(record: Record, header: Header, seen: set<nat>, names: set<seq<u8>>)
    requires header.dims.nLayers <= MAX_LAYERS && Tracks(header, seen, names) && AllRequiredNames(header, names)
    requires record.name in names
    ensures Admission(record, header, seen) == Err(DuplicateTensorName)
  {
    hide Classify, SlotName, Bit, ShapeMatches, ExpectedDims, F32Only;
    var slot :| Required(slot, header) && SlotName(slot) == record.name;
    ClassifyMeaning(record.name, header.dims.nLayers, slot);
    BitInRange(slot, header.dims.nLayers);
  }

  lemma FreshIsJudgedAlone(record: Record, header: Header, seen: set<nat>, names: set<seq<u8>>)
    requires header.dims.nLayers <= MAX_LAYERS && Tracks(header, seen, names) && record.name !in names
    ensures var r := Admission(record, header, seen);
      r != Err(DuplicateTensorName) && (r.Ok? <==> Admission(record, header, {}).Ok?)
  {
    hide Classify, SlotName, Bit, ShapeMatches, ExpectedDims, F32Only;
    var classified := Classify(record.name, header.dims.nLayers);
    if classified.Some? {
      ClassifyMeaning(record.name, header.dims.nLayers, classified.value);
    }
  }

  lemma NamesStayRequired(record: Record, header: Header, seen: set<nat>, names: set<seq<u8>>)
    requires header.dims.nLayers <= MAX_LAYERS && AllRequiredNames(header, names) && Admission(record, header, seen).Ok?
    ensures AllRequiredNames(header, names + {record.name})
  {
    hide Classify, SlotName, Bit, ShapeMatches, ExpectedDims, F32Only;
    var slot := Classify(record.name, header.dims.nLayers).value;
    ClassifyMeaning(record.name, header.dims.nLayers, slot);
    assert Required(slot, header) && SlotName(slot) == record.name;
  }

  lemma {:induction false} DuplicateIffRepeatFirst(
    table: Slice, header: Header, index: nat, seen: set<nat>, names: set<seq<u8>>)
    requires index <= header.tensorCount && header.tensorCount * RECORD_BYTES <= |table|
    requires header.dims.nLayers <= MAX_LAYERS && Tracks(header, seen, names) && AllRequiredNames(header, names)
    ensures Names(table, header, index, seen) == Err(DuplicateTensorName) <==>
      RepeatComesFirst(table, header, index, names)
    decreases header.tensorCount - index
  {
    hide DecodeRecord, Admission, Tracks, AllRequiredNames;
    if index < header.tensorCount {
      RecordErrors(table, index);
      if Decodes(table, index) {
        var record := RecordAt(table, index);
        if record.name in names {
          RepeatIsDuplicate(record, header, seen, names);
        } else {
          FreshIsJudgedAlone(record, header, seen, names);
          AdmissionTracks(record, header, seen, names);
          if Admission(record, header, seen).Ok? {
            NamesStayRequired(record, header, seen, names);
            DuplicateIffRepeatFirst(
              table, header, index + 1, Admission(record, header, seen).value, names + {record.name});
          }
        }
      }
    }
  }

  /** From `index` on, every record is admissible alone and carries a name not yet used. */
  ghost predicate AllAdmissible(table: Slice, header: Header, index: nat, names: set<seq<u8>>)
    decreases header.tensorCount - index
  {
    index < header.tensorCount ==>
      && AloneAdmitted(table, header, index)
      && RecordAt(table, index).name !in names
      && AllAdmissible(table, header, index + 1, names + {RecordAt(table, index).name})
  }

  /** The name pass succeeds exactly when every record is admissible alone and no name is used twice. */
  lemma {:induction false} NamesExactly(table: Slice, header: Header, index: nat, seen: set<nat>, names: set<seq<u8>>)
    requires index <= header.tensorCount && header.tensorCount * RECORD_BYTES <= |table|
    requires header.dims.nLayers <= MAX_LAYERS && Tracks(header, seen, names) && AllRequiredNames(header, names)
    ensures Names(table, header, index, seen).Ok? <==> AllAdmissible(table, header, index, names)
    decreases header.tensorCount - index
  {
    hide DecodeRecord, Admission, Tracks, AllRequiredNames;
    if index < header.tensorCount && Decodes(table, index) {
      var record := RecordAt(table, index);
      if record.name in names {
        RepeatIsDuplicate(record, header, seen, names);
      } else {
        FreshIsJudgedAlone(record, header, seen, names);
        AdmissionTracks(record, header, seen, names);
        if Admission(record, header, seen).Ok? {
          NamesStayRequired(record, header, seen, names);
          NamesExactly(table, header, index + 1, Admission(record, header, seen).value, names + {record.name});
        }
      }
    }
  }

  /** Record `i` is the tensor of some slot. */
  ghost predicate HasSlot(table: Slice, header: Header, i: nat) {
    exists slot :: IsTensor(table, header, i, slot)
  }

  ghost function NameAt(table: Slice, i: nat): (name: seq<u8>) {
    if Decodes(table, i) then RecordAt(table, i).name else []
  }

  /** Every record is the tensor of a required slot, and no two share a name: no order, no accumulator. */
  ghost predicate AllNamed(table: Slice, header: Header) {
    && (forall i :: 0 <= i < header.tensorCount ==> HasSlot(table, header, i))
    && (forall i, j :: 0 <= i < j < header.tensorCount ==> NameAt(table, i) != NameAt(table, j))
  }

  lemma AloneIsTensor(table: Slice, header: Header, i: nat)
    requires header.dims.nLayers <= MAX_LAYERS
    ensures AloneAdmitted(table, header, i) <==> HasSlot(table, header, i)
  {
    hide DecodeRecord, Classify, SlotName, Bit, ShapeMatches, ExpectedDims, F32Only;
    if AloneAdmitted(table, header, i) {
      var slot := AdmittedIsTensor(table, header, i, {});
    }
    if HasSlot(table, header, i) {
      var slot :| IsTensor(table, header, i, slot);
      ClassifyMeaning(RecordAt(table, i).name, header.dims.nLayers, slot);
      BitInRange(slot, header.dims.nLayers);
    }
  }

  /** Admissible one after another is the same as alone, unused, and pairwise different. */
  lemma {:induction false} AdmissibleMeaning(table: Slice, header: Header, index: nat, names: set<seq<u8>>)
    requires index <= header.tensorCount
    ensures AllAdmissible(table, header, index, names) <==>
      && (forall k :: index <= k < header.tensorCount ==> AloneAdmitted(table, header, k))
      && (forall k :: index <= k < header.tensorCount ==> NameAt(table, k) !in names)
      && (forall j, k :: index <= j < k < header.tensorCount ==> NameAt(table, j) != NameAt(table, k))
    decreases header.tensorCount - index
  {
    hide DecodeRecord, Admission;
    if index < header.tensorCount && AloneAdmitted(table, header, index) {
      AdmissibleMeaning(table, header, index + 1, names + {NameAt(table, index)});
    }
  }

  /** The name pass succeeds exactly when the table is fully and distinctly named. */
  lemma NamesMeaning(table: Slice, header: Header)
    requires header.tensorCount * RECORD_BYTES <= |table| && header.dims.nLayers <= MAX_LAYERS
    ensures Names(table, header, 0, {}).Ok? <==> AllNamed(table, header)
  {
    hide Names, AllAdmissible, AloneAdmitted, HasSlot, NameAt, Bit, SlotName;
    NamesExactly(table, header, 0, {}, {});
    AdmissibleMeaning(table, header, 0, {});
    forall i | 0 <= i < header.tensorCount
      ensures AloneAdmitted(table, header, i) <==> HasSlot(table, header, i)
    {
      AloneIsTensor(table, header, i);
    }
  }

  /**
   The name pass denies a duplicate exactly when a repeated name is the first thing wrong
   with the table; then two records do share a name, and no table where two do is accepted.
   */
  lemma DuplicateExactly(table: Slice, header: Header)
    requires header.tensorCount * RECORD_BYTES <= |table| && header.dims.nLayers <= MAX_LAYERS
    ensures Names(table, header, 0, {}) == Err(DuplicateTensorName) <==> RepeatComesFirst(table, header, 0, {})
    ensures Names(table, header, 0, {}) == Err(DuplicateTensorName) ==>
      exists i: nat, j: nat :: Repeats(table, header.tensorCount, i, j)
    ensures (exists i: nat, j: nat :: Repeats(table, header.tensorCount, i, j)) ==> Names(table, header, 0, {}).Err?
  {
    hide Names, DecodeRecord, Bit, SlotName, RepeatComesFirst;
    DuplicateIffRepeatFirst(table, header, 0, {}, {});
    if Names(table, header, 0, {}) == Err(DuplicateTensorName) {
      var j := DuplicateIsRepeat(table, header, 0, {}, {});
      var i :| 0 <= i < j && Decodes(table, i) && RecordAt(table, i).name == RecordAt(table, j).name;
      assert Decodes(table, j);
      assert Repeats(table, header.tensorCount, i, j);
    }
    if Names(table, header, 0, {}).Ok? {
      forall i: nat, j: nat ensures !Repeats(table, header.tensorCount, i, j) {
        if Repeats(table, header.tensorCount, i, j) {
          var slot := NamesAllRequired(table, header, 0, {}, i);
          NamesUnique(table, header, 0, {}, slot, i, j);
        }
      }
    }
  }
}
