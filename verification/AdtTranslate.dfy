/** `reg` decoding, `ranges` windows, and address translation up the ancestor chain. */
module AdtTranslate {
  import opened Results
  import opened Bytes
  import opened AdtRaw
  import opened AdtNode
  import opened AdtPath

  // ---- Cells ------------------------------------------------------------

  /** How many 32-bit cells a field occupies. */
  datatype CellWidth = Zero | One | Two {
    function Cells(): (n: nat) {
      match this case Zero => 0 case One => 1 case Two => 2
    }

    function ByteCount(): (n: nat) {
      4 * Cells()
    }

    static function FromDeclared(count: u32): (r: Option<CellWidth>)
      ensures r.Some? <==> count <= 2
      ensures r.Some? ==> r.value.Cells() == count
    {
      if count == 0 then Some(Zero) else if count == 1 then Some(One) else if count == 2 then Some(Two) else None
    }
  }

  /** A pair whose address width is 1 or 2 and whose size width is 0, 1 or 2. */
  datatype CellCounts = CellCounts(address: CellWidth, size: CellWidth) {
    static function New(addressCells: u32, sizeCells: u32): (r: Result<CellCounts, AdtError>)
      ensures r.Ok? <==> 1 <= addressCells <= 2 && sizeCells <= 2
      ensures r.Ok? ==> r.value.address.Cells() == addressCells && r.value.size.Cells() == sizeCells
    {
      if addressCells == 0 then Err(InvalidAddressCells) else
      var address :- CellWidth.FromDeclared(addressCells).OkOr(InvalidAddressCells);
      var size :- CellWidth.FromDeclared(sizeCells).OkOr(InvalidSizeCells);
      Ok(CellCounts(address, size))
    }

    function ContainerLen(): (n: nat) {
      address.ByteCount() + size.ByteCount()
    }
  }

  datatype AddressRange = AddressRange(address: u64, size: u64)

  lemma ScaleSum(a: int, p: int, h: int)
    ensures 256 * (a + p * h) == 256 * a + 256 * p * h
  {
  }

  lemma {:induction false} LeConcat(low: seq<u8>, high: seq<u8>)
    ensures LeValue(low + high) == LeValue(low) + Pow256(|low|) * LeValue(high)
  {
    if low == [] {
      assert low + high == high;
    } else {
      LeConcat(low[1..], high);
      assert (low + high)[1..] == low[1..] + high;
      ScaleSum(LeValue(low[1..]), Pow256(|low| - 1), LeValue(high));
    }
  }

  lemma {:induction false} LeZeros(n: nat)
    ensures LeValue(Zeros(n)) == 0
    decreases n
  {
    if n > 0 {
      LeZeros(n - 1);
      assert Zeros(n)[1..] == Zeros(n - 1);
    }
  }

  /** Cells least significant first are the little-endian value of the whole field. */
  function ReadCells(bytes: seq<u8>, offset: nat, width: CellWidth): (v: u64)
    requires offset + width.ByteCount() <= |bytes| <= ISIZE_MAX
    ensures v == LeValue(bytes[offset..offset + width.ByteCount()])
  {
    match width
    case Zero => 0
    case One => ReadU32Le(bytes, offset).value
    case Two =>
      PowWidths();
      assert bytes[offset..offset + 8] == bytes[offset..offset + 4] + bytes[offset + 4..offset + 8];
      LeConcat(bytes[offset..offset + 4], bytes[offset + 4..offset + 8]);
      ReadU32Le(bytes, offset).value + ReadU32Le(bytes, offset + 4).value * TWO_32
  }

  /**
   The other assembler of cells, which copies 32-bit words from the front of
   `rest` into the low half of an eight-byte buffer, reads the same value.
   */
  method TakeCells(rest: seq<u8>, width: CellWidth) returns (v: u64)
    requires |rest| >= width.ByteCount()
    ensures v == LeValue(rest[..width.ByteCount()])
  {
    hide LeValue;
    var assembled := Zeros(8);
    var slot := 0;
    while slot < 2 && slot < width.Cells()
      invariant 0 <= slot <= width.Cells()
      invariant assembled == rest[..4 * slot] + Zeros(8 - 4 * slot)
    {
      assembled := assembled[..4 * slot] + rest[4 * slot..4 * slot + 4] + assembled[4 * slot + 4..];
      slot := slot + 1;
    }
    PowWidths();
    LeConcat(rest[..4 * slot], Zeros(8 - 4 * slot));
    LeZeros(8 - 4 * slot);
    v := LeValue(assembled);
  }

  // ---- Declared cell counts and `reg` -------------------------------------

  function DeclaredCells(blob: Slice, node: Node, name: seq<u8>): (r: Result<u32, AdtError>) {
    var found :- Lookup(blob, node, name);
    var property :- found.OkOr(MissingCellCounts);
    property.AsU32()
  }

  function CellCountsOf(blob: Slice, node: Node): (r: Result<CellCounts, AdtError>) {
    var addressCells :- DeclaredCells(blob, node, Ascii("#address-cells"));
    var sizeCells :- DeclaredCells(blob, node, Ascii("#size-cells"));
    CellCounts.New(addressCells, sizeCells)
  }

  function AddressCellsOf(blob: Slice, node: Node): (r: Result<u32, AdtError>)
    ensures r.Ok? ==> 1 <= r.value <= 2
  {
    var value :- DeclaredCells(blob, node, Ascii("#address-cells"));
    if value == 0 || value > 2 then Err(InvalidAddressCells) else Ok(value)
  }

  /** Container `index` of a `reg` value; a partial trailing container is never read. */
  function RegContainer(value: Slice, cells: CellCounts, index: usize): (r: Result<AddressRange, AdtError>)
    ensures r.Ok? <==> (index + 1) * cells.ContainerLen() <= |value|
    ensures r.Ok? ==>
      var at := index * cells.ContainerLen();
      var sizeAt, end := at + cells.address.ByteCount(), at + cells.ContainerLen();
      && 0 <= at <= sizeAt <= end <= |value|
      && r.value.address == LeValue(value[at..sizeAt]) && r.value.size == LeValue(value[sizeAt..end])
    ensures r.Err? ==> r.error == RegContainerOutOfRange
  {
    hide ReadCells, LeValue;
    var stride := cells.ContainerLen();
    var start :- CheckedMul(index, stride).OkOr(RegContainerOutOfRange);
    var end :- CheckedAdd(start, stride).OkOr(RegContainerOutOfRange);
    assert end == (index + 1) * stride;
    assert 0 <= start == index * stride;
    if end > |value| then Err(RegContainerOutOfRange) else
    Ok(AddressRange(ReadCells(value, start, cells.address),
                    ReadCells(value, start + cells.address.ByteCount(), cells.size)))
  }

  /** The untranslated `reg` of a chain's target, decoded with its parent's cell counts. */
  function RegOf(blob: Slice, chain: seq<Node>, index: usize): (r: Result<AddressRange, AdtError>) {
    if |chain| < 2 then Err(MissingParentNode) else
    var cells :- CellCountsOf(blob, chain[|chain| - 2]);
    var found :- Lookup(blob, chain[|chain| - 1], Ascii("reg"));
    var property :- found.OkOr(PropertyNotFound);
    RegContainer(property.value, cells, index)
  }

  // ---- `ranges` windows -----------------------------------------------------

  datatype RangesEntry = RangesEntry(childAddress: u64, parentAddress: u64, childSize: u64) {
    /** Moves a request through this window, if the window wholly contains it. */
    function Translate(range: AddressRange): (r: Result<Option<u64>, AdtError>)
    {
      var requestEnd :- CheckedAdd(range.address, range.size).OkOr(TranslationOverflow);
      var windowEnd :- CheckedAdd(childAddress, childSize).OkOr(TranslationOverflow);
      if range.address < childAddress || requestEnd > windowEnd then Ok(None) else
      var translated :- CheckedAdd(range.address - childAddress, parentAddress).OkOr(TranslationOverflow);
      Ok(Some(translated))
    }

    ghost predicate Contains(range: AddressRange) {
      childAddress <= range.address && range.address + range.size <= childAddress + childSize
    }

    /** The window's own end is representable. */
    ghost predicate Fits() {
      childAddress + childSize < TWO_64
    }
  }

  function EntryLen(child: CellCounts, parent: CellWidth): (n: nat) {
    child.address.ByteCount() + parent.ByteCount() + child.size.ByteCount()
  }

  function EntryAt(value: Slice, position: nat, child: CellCounts, parent: CellWidth): (entry: RangesEntry)
    requires position + EntryLen(child, parent) <= |value|
  {
    var parentAt := position + child.address.ByteCount();
    RangesEntry(ReadCells(value, position, child.address),
                ReadCells(value, parentAt, parent),
                ReadCells(value, parentAt + parent.ByteCount(), child.size))
  }

  /** The whole entries from `position` on; a trailing partial entry is not one. */
  function Entries(value: Slice, position: nat, child: CellCounts, parent: CellWidth): (entries: seq<RangesEntry>)
    decreases |value| - position
  {
    var len := EntryLen(child, parent);
    if len == 0 || position + len > |value| then []
    else [EntryAt(value, position, child, parent)] + Entries(value, position + len, child, parent)
  }

  class RangesIter {
    const value: Slice
    var position: nat
    const child: CellCounts
    const parent: CellWidth

    constructor (value: Slice, child: CellCounts, parent: CellWidth)
      requires EntryLen(child, parent) > 0
      ensures Valid() && Items() == Entries(value, 0, child, parent)
    {
      this.value, this.position, this.child, this.parent := value, 0, child, parent;
    }

    predicate Valid() {
      EntryLen(child, parent) > 0
    }

    function Items(): (entries: seq<RangesEntry>)
      reads this
    {
      Entries(value, position, child, parent)
    }

    method Next() returns (item: Option<RangesEntry>)
      requires Valid()
      modifies this
      ensures Valid()
      ensures old(Items()) == match item case None => [] case Some(entry) => [entry] + Items()
      ensures item.None? ==> Items() == []
    {
      hide EntryAt;
      var end := position + EntryLen(child, parent);
      if end > |value| {
        return None;
      }
      var start, entry := position, value[position..end];
      position := end;
      EntryIsLocal(value, start, child, parent);
      var taken := TakeEntry(entry, child, parent);
      return Some(taken);
    }
  }

  /** Three runs of cells, taken in turn from one entry's words. */
  method TakeEntry(entry: Slice, child: CellCounts, parent: CellWidth) returns (e: RangesEntry)
    requires |entry| == EntryLen(child, parent)
    ensures e == EntryAt(entry, 0, child, parent)
  {
    hide LeValue, ReadCells, CellWidth.ByteCount;
    var a, p, z := child.address.ByteCount(), parent.ByteCount(), child.size.ByteCount();
    var childAddress := TakeCells(entry, child.address);
    var parentAddress := TakeCells(entry[a..], parent);
    var childSize := TakeCells(entry[a + p..], child.size);
    DropTake(entry, 0, a);
    DropTake(entry, a, p);
    DropTake(entry, a + p, z);
    assert entry[0..] == entry;
    return RangesEntry(childAddress, parentAddress, childSize);
  }

  /** An entry depends on its own bytes alone. */
  lemma EntryIsLocal(value: Slice, start: nat, child: CellCounts, parent: CellWidth)
    requires start + EntryLen(child, parent) <= |value|
    ensures EntryAt(value[start..start + EntryLen(child, parent)], 0, child, parent)
         == EntryAt(value, start, child, parent)
  {
    hide LeValue, ReadCells, CellWidth.ByteCount;
    var a, p, z := child.address.ByteCount(), parent.ByteCount(), child.size.ByteCount();
    var end := start + EntryLen(child, parent);
    SubSlice(value, start, end, 0, a);
    SubSlice(value, start, end, a, p);
    SubSlice(value, start, end, a + p, z);
  }

  function RangesOf(value: Slice, child: CellCounts, parentAddressCells: u32)
    : (r: Result<seq<RangesEntry>, AdtError>)
  {
    if parentAddressCells == 0 then Err(InvalidAddressCells) else
    var parent :- CellWidth.FromDeclared(parentAddressCells).OkOr(InvalidAddressCells);
    if EntryLen(child, parent) > |value| then Err(MalformedRangesEntry)
    else Ok(Entries(value, 0, child, parent))
  }

  // ---- Translation ------------------------------------------------------

  /** The first window that contains the request; an unrepresentable window before it denies. */
  function Through(entries: seq<RangesEntry>, range: AddressRange): (r: Result<u64, AdtError>) {
    if entries == [] then Err(NoMatchingRangesEntry)
    else
      var translated :- entries[0].Translate(range);
      if translated.Some? then Ok(translated.value) else Through(entries[1..], range)
  }

  /** One hop: the windows that apply at `level`, or none when translation stops there. */
  function WindowsAt(blob: Slice, chain: seq<Node>, level: nat): (r: Result<Option<seq<RangesEntry>>, AdtError>)
    requires level < |chain|
    ensures r.Ok? && r.value.Some? ==> level > 0
  {
    var found :- Lookup(blob, chain[level], Ascii("ranges"));
    if found.None? then Ok(None) else
    var cells :- CellCountsOf(blob, chain[level]);
    if level == 0 then Err(MissingParentNode) else
    var parentCells :- AddressCellsOf(blob, chain[level - 1]);
    var entries :- RangesOf(found.value.value, cells, parentCells);
    Ok(Some(entries))
  }

  function Climb(blob: Slice, chain: seq<Node>, level: nat, range: AddressRange): (r: Result<AddressRange, AdtError>)
    requires level < |chain|
    decreases level
  {
    var windows :- WindowsAt(blob, chain, level);
    if windows.None? then Ok(range) else
    var address :- Through(windows.value, range);
    Climb(blob, chain, level - 1, AddressRange(address, range.size))
  }

  function Translated(blob: Slice, chain: seq<Node>, index: usize): (r: Result<AddressRange, AdtError>) {
    var range :- RegOf(blob, chain, index);
    Climb(blob, chain, |chain| - 2, range)
  }

  method TranslateFirst(value: Slice, child: CellCounts, parent: CellWidth, range: AddressRange)
    returns (r: Result<u64, AdtError>)
    requires 0 < EntryLen(child, parent) <= |value|
    ensures r == Through(Entries(value, 0, child, parent), range)
  {
    hide Entries;
    var iter := new RangesIter(value, child, parent);
    while true
      invariant iter.Valid()
      invariant Through(Entries(value, 0, child, parent), range) == Through(iter.Items(), range)
      decreases |iter.Items()|
    {
      ghost var before := iter.Items();
      var item := iter.Next();
      if item.None? {
        return Err(NoMatchingRangesEntry);
      }
      assert before[1..] == iter.Items();
      var translated :- item.value.Translate(range);
      if translated.Some? {
        return Ok(translated.value);
      }
    }
  }

  /** The climbing loop of `translated_reg`. */
  method TranslatedReg(blob: Slice, chain: seq<Node>, index: usize) returns (r: Result<AddressRange, AdtError>)
    ensures r == Translated(blob, chain, index)
  {
    hide Lookup, CellCountsOf, AddressCellsOf, RegOf, Through, Entries;
    var range :- RegOf(blob, chain, index);
    RegNeedsParent(blob, chain, index);
    var level := |chain| - 2;
    while true
      invariant 0 <= level < |chain|
      invariant Translated(blob, chain, index) == Climb(blob, chain, level, range)
      decreases level
    {
      var found :- FindProperty(blob, chain[level], Ascii("ranges"));
      if found.None? {
        return Ok(range);
      }
      var cells :- CellCountsOf(blob, chain[level]);
      if level == 0 {
        return Err(MissingParentNode);
      }
      var parentCells :- AddressCellsOf(blob, chain[level - 1]);
      var parent := CellWidth.FromDeclared(parentCells).value;
      var value := found.value.value;
      if EntryLen(cells, parent) > |value| {
        return Err(MalformedRangesEntry);
      }
      var address :- TranslateFirst(value, cells, parent, range);
      range := AddressRange(address, range.size);
      level := level - 1;
    }
  }

  lemma RegNeedsParent(blob: Slice, chain: seq<Node>, index: usize)
    ensures RegOf(blob, chain, index).Ok? ==> |chain| >= 2
  {
    hide Lookup, CellCountsOf, RegContainer;
  }

  // ---- Telescoping --------------------------------------------------------

  /** `entries[k]` is the first window that contains the request. */
  ghost predicate FirstContaining(entries: seq<RangesEntry>, range: AddressRange, k: nat) {
    && k < |entries| && entries[k].Contains(range) && entries[k].Fits()
    && range.address + range.size < TWO_64
    && forall i :: 0 <= i < k ==> !entries[i].Contains(range) && entries[i].Fits()
  }

  function Shifted(range: AddressRange, window: RangesEntry): (base: int) {
    range.address - window.childAddress + window.parentAddress
  }

  lemma {:induction false} ThroughMeaning(entries: seq<RangesEntry>, range: AddressRange, address: u64)
    ensures Through(entries, range) == Ok(address) <==>
      exists k: nat :: FirstContaining(entries, range, k) && address == Shifted(range, entries[k])
  {
    if entries != [] {
      ThroughMeaning(entries[1..], range, address);
      var head := entries[0];
      if FirstContaining(entries, range, 0) {
        assert forall k: nat :: FirstContaining(entries, range, k) ==> k == 0;
      } else if head.Translate(range) == Ok(None) {
        forall k: nat | FirstContaining(entries[1..], range, k)
          ensures FirstContaining(entries, range, k + 1)
        {
          assert entries[k + 1] == entries[1..][k];
          assert forall i :: 1 <= i < k + 1 ==> entries[i] == entries[1..][i - 1];
        }
        forall k: nat | FirstContaining(entries, range, k)
          ensures k > 0 && FirstContaining(entries[1..], range, k - 1)
        {
          assert entries[k] == entries[1..][k - 1];
          assert forall i :: 0 <= i < k - 1 ==> entries[1..][i] == entries[i + 1];
        }
      }
    }
  }

  /** No window contains the request, and each of them ends inside the address width. */
  ghost predicate NoneContains(entries: seq<RangesEntry>, range: AddressRange) {
    forall i :: 0 <= i < |entries| ==> entries[i].Fits() && !entries[i].Contains(range)
  }

  /** A level is said to have no window for a request only when none contains it. */
  lemma {:induction false} ThroughDenials(entries: seq<RangesEntry>, range: AddressRange)
    ensures Through(entries, range) == Err(NoMatchingRangesEntry) <==>
      (entries != [] ==> range.address + range.size < TWO_64) && NoneContains(entries, range)
    ensures var r := Through(entries, range); r.Err? ==> r.error in {NoMatchingRangesEntry, TranslationOverflow}
  {
    if entries != [] {
      var rest := entries[1..];
      ThroughDenials(rest, range);
      assert NoneContains(entries, range) <==>
        entries[0].Fits() && !entries[0].Contains(range) && NoneContains(rest, range)
      by {
        assert forall i :: 1 <= i < |entries| ==> entries[i] == rest[i - 1];
        assert forall i :: 0 <= i < |rest| ==> rest[i] == entries[i + 1];
      }
    }
  }

  lemma FirstWindow(entries: seq<RangesEntry>, range: AddressRange, address: u64) returns (k: nat)
    requires Through(entries, range) == Ok(address)
    ensures FirstContaining(entries, range, k) && k < |entries| && address == Shifted(range, entries[k])
  {
    hide Through;
    ThroughMeaning(entries, range, address);
    k :| FirstContaining(entries, range, k) && address == Shifted(range, entries[k]);
  }

  /**
   The windows a request passed through on its way up: at each level the first
   window containing it, and no `ranges` at all where the climb stops.
   */
  ghost predicate Passage(blob: Slice, chain: seq<Node>, level: nat, range: AddressRange,
                          windows: seq<RangesEntry>, out: AddressRange)
    requires level < |chain|
    decreases level
  {
    if windows == [] then WindowsAt(blob, chain, level) == Ok(None) && out == range
    else
      var here := WindowsAt(blob, chain, level);
      && here.Ok? && here.value.Some?
      && (exists k: nat :: FirstContaining(here.value.value, range, k) && here.value.value[k] == windows[0])
      && 0 <= Shifted(range, windows[0]) < TWO_64
      && Passage(blob, chain, level - 1, AddressRange(Shifted(range, windows[0]), range.size), windows[1..], out)
  }

  function Displacement(windows: seq<RangesEntry>): (d: int) {
    if windows == [] then 0
    else windows[0].parentAddress - windows[0].childAddress + Displacement(windows[1..])
  }

  /** A passage moves the address by the sum of its windows' displacements and keeps the size. */
  lemma {:induction false} PassageTelescopes(blob: Slice, chain: seq<Node>, level: nat, range: AddressRange,
                                             windows: seq<RangesEntry>, out: AddressRange)
    requires level < |chain| && Passage(blob, chain, level, range, windows, out)
    ensures out.address == range.address + Displacement(windows) && out.size == range.size
    ensures |windows| <= level
    decreases level
  {
    hide WindowsAt, FirstContaining;
    if windows != [] {
      PassageTelescopes(blob, chain, level - 1,
                        AddressRange(Shifted(range, windows[0]), range.size), windows[1..], out);
    }
  }

  lemma {:induction false} ClimbHasPassage(blob: Slice, chain: seq<Node>, level: nat, range: AddressRange)
    returns (windows: seq<RangesEntry>)
    requires level < |chain| && Climb(blob, chain, level, range).Ok?
    ensures Passage(blob, chain, level, range, windows, Climb(blob, chain, level, range).value)
    ensures windows == [] <==> WindowsAt(blob, chain, level) == Ok(None)
    decreases level
  {
    hide WindowsAt, Through, FirstContaining;
    var here := WindowsAt(blob, chain, level).value;
    if here.None? {
      windows := [];
    } else {
      var address := Through(here.value, range).value;
      var k := FirstWindow(here.value, range, address);
      var above := ClimbHasPassage(blob, chain, level - 1, AddressRange(address, range.size));
      windows := [here.value[k]] + above;
      assert windows[1..] == above;
    }
  }

  lemma {:induction false} PassageIsClimb(blob: Slice, chain: seq<Node>, level: nat, range: AddressRange,
                                          windows: seq<RangesEntry>, out: AddressRange)
    requires level < |chain| && Passage(blob, chain, level, range, windows, out)
    ensures Climb(blob, chain, level, range) == Ok(out)
    decreases level
  {
    hide WindowsAt, Through, FirstContaining;
    if windows != [] {
      var here := WindowsAt(blob, chain, level).value.value;
      ThroughMeaning(here, range, Shifted(range, windows[0]));
      PassageIsClimb(blob, chain, level - 1, AddressRange(Shifted(range, windows[0]), range.size), windows[1..], out);
    }
  }

  /**
   A translation succeeds exactly when a passage exists, and its result is the raw
   address displaced by the windows of that passage, with nothing wrapped.
   */
  lemma TranslationTelescopes(blob: Slice, chain: seq<Node>, index: usize, out: AddressRange)
    ensures Translated(blob, chain, index) == Ok(out) <==>
      && RegOf(blob, chain, index).Ok? && |chain| >= 2
      && exists windows ::
           && Passage(blob, chain, |chain| - 2, RegOf(blob, chain, index).value, windows, out)
           && out.address == RegOf(blob, chain, index).value.address + Displacement(windows)
           && out.size == RegOf(blob, chain, index).value.size
  {
    hide RegOf, Climb, Passage;
    RegNeedsParent(blob, chain, index);
    if RegOf(blob, chain, index).Ok? {
      var raw, level := RegOf(blob, chain, index).value, |chain| - 2;
      if Climb(blob, chain, level, raw) == Ok(out) {
        var windows := ClimbHasPassage(blob, chain, level, raw);
        PassageTelescopes(blob, chain, level, raw, windows, out);
      }
      forall windows | Passage(blob, chain, level, raw, windows, out)
        ensures Climb(blob, chain, level, raw) == Ok(out)
      {
        PassageIsClimb(blob, chain, level, raw, windows, out);
      }
    }
  }
}
