/**
 What `reg` and `ranges` mean in the bytes of a parsed tree, and translation from those bytes
 alone: which cells hold an address, which hold a size, and which windows a request goes through.
 */
module AdtWindows {
  import opened Results
  import opened Bytes
  import opened AdtRaw
  import opened AdtNode
  import opened AdtPath
  import opened AdtNamed
  import opened AdtTranslate

  // ---- Cell counts -----------------------------------------------------------------------

  /** The node's one property of this name is the four-byte number `n`. */
  ghost predicate Declares(blob: Slice, node: Node, name: seq<u8>, n: u32) {
    HasValue(blob, node, name, LeBytes(n, 4))
  }

  /** The node's children take `a` address cells and `s` size cells. */
  ghost predicate Counts(blob: Slice, node: Node, a: u32, s: u32) {
    && 1 <= a <= 2 && s <= 2
    && Declares(blob, node, Ascii("#address-cells"), a) && Declares(blob, node, Ascii("#size-cells"), s)
  }

  lemma TranslationNames()
    ensures Critical(Ascii("#address-cells")) && Critical(Ascii("#size-cells"))
    ensures Critical(Ascii("reg")) && Critical(Ascii("ranges")) && Critical(Ascii("compatible"))
  {
    var names := CRITICAL_NAMES;
    assert names[1] == "compatible" && names[2] == "reg" && names[3] == "ranges";
    assert names[4] == "#address-cells" && names[5] == "#size-cells";
  }

  lemma WordMeaning(property: Property, n: u32)
    ensures property.AsU32() == Ok(n) <==> property.value == LeBytes(n, 4)
  {
    hide LeValue, LeBytes;
    PowWidths();
    LeRoundTrip(n, 4);
    if |property.value| == 4 {
      assert property.value[0..4] == property.value;
      LeCanonical(property.value);
    }
  }

  lemma DeclaredMeaning(blob: Slice, node: Node, name: seq<u8>, n: u32)
    requires Covered(blob, node) && Critical(name)
    ensures DeclaredCells(blob, node, name) == Ok(n) <==> Declares(blob, node, name, n)
  {
    hide Lookup, HasValue, Lacks, Covered, LeBytes, Property.AsU32;
    LookupIs(blob, node, name, LeBytes(n, 4));
    var found := Lookup(blob, node, name);
    if found.Ok? && found.value.Some? {
      WordMeaning(found.value.value, n);
    }
  }

  lemma CountsMeaning(blob: Slice, node: Node, cells: CellCounts)
    requires Covered(blob, node)
    ensures CellCountsOf(blob, node) == Ok(cells) <==>
      Counts(blob, node, cells.address.Cells(), cells.size.Cells())
  {
    hide DeclaredCells, Declares, Covered, Critical, Ascii;
    TranslationNames();
    DeclaredMeaning(blob, node, Ascii("#address-cells"), cells.address.Cells());
    DeclaredMeaning(blob, node, Ascii("#size-cells"), cells.size.Cells());
    CellsInjective(cells);
  }

  lemma CellsInjective(cells: CellCounts)
    ensures forall a: CellWidth, s: CellWidth ::
      a.Cells() == cells.address.Cells() && s.Cells() == cells.size.Cells() ==> CellCounts(a, s) == cells
  {
  }

  /** A node declares one pair of counts at most, and only representable ones. */
  lemma CountsDecode(blob: Slice, node: Node, a: u32, s: u32) returns (cells: CellCounts)
    requires Counts(blob, node, a, s)
    ensures CellCountsOf(blob, node) == Ok(cells) && cells.address.Cells() == a && cells.size.Cells() == s
  {
    hide CellCountsOf, Declares, Covered;
    cells := CellCounts(CellWidth.FromDeclared(a).value, CellWidth.FromDeclared(s).value);
    DeclaringIsCovered(blob, node, Ascii("#size-cells"), s);
    CountsMeaning(blob, node, cells);
  }

  lemma DeclaringIsCovered(blob: Slice, node: Node, name: seq<u8>, n: u32)
    requires Declares(blob, node, name, n)
    ensures Covered(blob, node)
  {
    hide Covered, Items;
  }

  lemma ParentCellsMeaning(blob: Slice, node: Node, p: u32)
    requires Covered(blob, node)
    ensures AddressCellsOf(blob, node) == Ok(p) <==>
      1 <= p <= 2 && Declares(blob, node, Ascii("#address-cells"), p)
  {
    hide DeclaredCells, Declares, Covered, Critical, Ascii;
    TranslationNames();
    DeclaredMeaning(blob, node, Ascii("#address-cells"), p);
  }

  // ---- `reg` -----------------------------------------------------------------------------

  /** Container `index` of `value`: `a` cells of address, then `s` cells of size. */
  ghost predicate ContainerIs(value: seq<u8>, a: nat, s: nat, index: nat, range: AddressRange) {
    var at := index * (4 * a + 4 * s);
    && at + 4 * a + 4 * s <= |value|
    && range.address == LeValue(value[at..at + 4 * a])
    && range.size == LeValue(value[at + 4 * a..at + 4 * a + 4 * s])
  }

  lemma ContainerMeaning(value: Slice, cells: CellCounts, index: usize, range: AddressRange)
    ensures RegContainer(value, cells, index) == Ok(range) <==>
      ContainerIs(value, cells.address.Cells(), cells.size.Cells(), index, range)
  {
    hide LeValue, ReadCells;
    var stride := cells.ContainerLen();
    assert (index + 1) * stride == index * stride + stride;
  }

  /** The target's `reg`, read with its parent's cell counts, has `range` as container `index`. */
  ghost predicate RegIs(blob: Slice, chain: seq<Node>, index: usize, range: AddressRange) {
    |chain| >= 2 && exists a: u32, s: u32, value: seq<u8> ::
      && Counts(blob, chain[|chain| - 2], a, s)
      && HasValue(blob, chain[|chain| - 1], Ascii("reg"), value)
      && ContainerIs(value, a, s, index, range)
  }

  lemma RegMeaning(blob: Slice, chain: seq<Node>, index: usize, range: AddressRange)
    requires |chain| >= 2 ==> Covered(blob, chain[|chain| - 2]) && Covered(blob, chain[|chain| - 1])
    ensures RegOf(blob, chain, index) == Ok(range) <==> RegIs(blob, chain, index, range)
  {
    hide CellCountsOf, Lookup, HasValue, Lacks, Covered, Counts, RegContainer, ContainerIs, Critical, Ascii;
    if |chain| >= 2 {
      var parent, target := chain[|chain| - 2], chain[|chain| - 1];
      TranslationNames();
      if RegOf(blob, chain, index) == Ok(range) {
        var cells := CellCountsOf(blob, parent).value;
        var value := Lookup(blob, target, Ascii("reg")).value.value.value;
        CountsMeaning(blob, parent, cells);
        LookupIs(blob, target, Ascii("reg"), value);
        ContainerMeaning(value, cells, index, range);
      }
      if RegIs(blob, chain, index, range) {
        var a: u32, s: u32, value :| Counts(blob, parent, a, s) && HasValue(blob, target, Ascii("reg"), value)
          && ContainerIs(value, a, s, index, range);
        var cells := CountsDecode(blob, parent, a, s);
        LookupIs(blob, target, Ascii("reg"), value);
        ContainerMeaning(Lookup(blob, target, Ascii("reg")).value.value.value, cells, index, range);
      }
    }
  }

  // ---- `ranges` ---------------------------------------------------------------------------

  /** The entry at byte `at`: `a` cells of child address, `p` of parent address, `s` of size. */
  ghost predicate EntryIs(value: seq<u8>, at: nat, a: nat, p: nat, s: nat, e: RangesEntry) {
    && at + 4 * a + 4 * p + 4 * s <= |value|
    && e.childAddress == LeValue(value[at..at + 4 * a])
    && e.parentAddress == LeValue(value[at + 4 * a..at + 4 * a + 4 * p])
    && e.childSize == LeValue(value[at + 4 * a + 4 * p..at + 4 * a + 4 * p + 4 * s])
  }

  /** `entries` lie one after another from `position` on, with less than one entry left over. */
  ghost predicate EntriesAre(value: seq<u8>, position: nat, a: nat, p: nat, s: nat, entries: seq<RangesEntry>)
    decreases |entries|
  {
    var len := 4 * a + 4 * p + 4 * s;
    if entries == [] then position <= |value| < position + len
    else EntryIs(value, position, a, p, s, entries[0]) && EntriesAre(value, position + len, a, p, s, entries[1..])
  }

  lemma EntryMeaning(value: Slice, at: nat, child: CellCounts, parent: CellWidth, e: RangesEntry)
    requires at + EntryLen(child, parent) <= |value|
    ensures EntryAt(value, at, child, parent) == e <==>
      EntryIs(value, at, child.address.Cells(), parent.Cells(), child.size.Cells(), e)
  {
    hide LeValue, ReadCells;
  }

  lemma {:induction false} EntriesMeaning(
    value: Slice, position: nat, child: CellCounts, parent: CellWidth, entries: seq<RangesEntry>)
    requires position <= |value| && EntryLen(child, parent) > 0
    ensures Entries(value, position, child, parent) == entries <==>
      EntriesAre(value, position, child.address.Cells(), parent.Cells(), child.size.Cells(), entries)
    decreases |value| - position
  {
    hide EntryIs, EntryAt, CellWidth.Cells;
    var len := EntryLen(child, parent);
    if position + len <= |value| {
      if entries != [] {
        EntryMeaning(value, position, child, parent, entries[0]);
        EntriesMeaning(value, position + len, child, parent, entries[1..]);
        assert entries == [entries[0]] + entries[1..];
      }
    } else if entries != [] {
      EntryFits(value, position, child, parent, entries[0]);
    }
  }

  lemma EntryFits(value: Slice, at: nat, child: CellCounts, parent: CellWidth, e: RangesEntry)
    requires at + EntryLen(child, parent) > |value|
    ensures !EntryIs(value, at, child.address.Cells(), parent.Cells(), child.size.Cells(), e)
  {
  }

  /** The windows at `level`: every whole entry of its node's `ranges`, read with its own and its parent's counts. */
  ghost predicate WindowsAre(blob: Slice, chain: seq<Node>, level: nat, entries: seq<RangesEntry>) {
    && 0 < level < |chain| && entries != []
    && exists a: u32, s: u32, p: u32, value: seq<u8> ::
         && Counts(blob, chain[level], a, s)
         && 1 <= p <= 2 && Declares(blob, chain[level - 1], Ascii("#address-cells"), p)
         && HasValue(blob, chain[level], Ascii("ranges"), value)
         && EntriesAre(value, 0, a, p, s, entries)
  }

  lemma RangesMeaning(value: Slice, child: CellCounts, p: u32, entries: seq<RangesEntry>)
    requires 1 <= p <= 2 && child.address.Cells() >= 1
    ensures RangesOf(value, child, p) == Ok(entries) <==>
      entries != [] && EntriesAre(value, 0, child.address.Cells(), p, child.size.Cells(), entries)
  {
    hide EntryIs, EntryAt;
    var parent := CellWidth.FromDeclared(p).value;
    EntriesMeaning(value, 0, child, parent, entries);
  }

  lemma WindowsHold(blob: Slice, chain: seq<Node>, level: nat, entries: seq<RangesEntry>)
    requires 0 < level < |chain| && Covered(blob, chain[level]) && Covered(blob, chain[level - 1])
    requires WindowsAt(blob, chain, level) == Ok(Some(entries))
    ensures WindowsAre(blob, chain, level, entries)
  {
    hide CellCountsOf, AddressCellsOf, Lookup, HasValue, Lacks, Covered, Counts, Declares, RangesOf, EntriesAre;
    hide Critical, Ascii;
    TranslationNames();
    var cells := CellCountsOf(blob, chain[level]).value;
    var p := AddressCellsOf(blob, chain[level - 1]).value;
    var value := Lookup(blob, chain[level], Ascii("ranges")).value.value.value;
    CountsMeaning(blob, chain[level], cells);
    ParentCellsMeaning(blob, chain[level - 1], p);
    LookupIs(blob, chain[level], Ascii("ranges"), value);
    CountsPositive(blob, chain[level], cells);
    RangesMeaning(value, cells, p, entries);
  }

  lemma CountsPositive(blob: Slice, node: Node, cells: CellCounts)
    requires Counts(blob, node, cells.address.Cells(), cells.size.Cells())
    ensures cells.address.Cells() >= 1
  {
    hide Declares;
  }

  lemma WindowsGive(blob: Slice, chain: seq<Node>, level: nat, entries: seq<RangesEntry>)
    requires 0 < level < |chain| && Covered(blob, chain[level]) && Covered(blob, chain[level - 1])
    requires WindowsAre(blob, chain, level, entries)
    ensures WindowsAt(blob, chain, level) == Ok(Some(entries))
  {
    hide CellCountsOf, AddressCellsOf, Lookup, HasValue, Lacks, Covered, Counts, Declares, RangesOf, EntriesAre;
    hide Critical, Ascii;
    TranslationNames();
    var a: u32, s: u32, p: u32, value :| Counts(blob, chain[level], a, s)
      && 1 <= p <= 2 && Declares(blob, chain[level - 1], Ascii("#address-cells"), p)
      && HasValue(blob, chain[level], Ascii("ranges"), value)
      && EntriesAre(value, 0, a, p, s, entries);
    var cells := CountsDecode(blob, chain[level], a, s);
    ParentCellsMeaning(blob, chain[level - 1], p);
    LookupIs(blob, chain[level], Ascii("ranges"), value);
    CountsPositive(blob, chain[level], cells);
    RangesMeaning(Lookup(blob, chain[level], Ascii("ranges")).value.value.value, cells, p, entries);
  }

  ghost predicate AllCovered(blob: Slice, chain: seq<Node>) {
    forall i :: 0 <= i < |chain| ==> Covered(blob, chain[i])
  }

  /** A level has windows exactly when its bytes spell them, and none exactly when it has no `ranges`. */
  lemma WindowsMeaning(blob: Slice, chain: seq<Node>, level: nat, entries: seq<RangesEntry>)
    requires level < |chain| && AllCovered(blob, chain)
    ensures WindowsAt(blob, chain, level) == Ok(Some(entries)) <==> WindowsAre(blob, chain, level, entries)
    ensures WindowsAt(blob, chain, level) == Ok(None) <==> Lacks(blob, chain[level], Ascii("ranges"))
  {
    hide WindowsAre, Covered, Lookup, CellCountsOf, AddressCellsOf, RangesOf, HasValue, Lacks, Critical, Ascii;
    TranslationNames();
    LookupIs(blob, chain[level], Ascii("ranges"), []);
    if WindowsAt(blob, chain, level) == Ok(Some(entries)) {
      WindowsHold(blob, chain, level, entries);
    }
    if WindowsAre(blob, chain, level, entries) {
      WindowsInside(blob, chain, level, entries);
      WindowsGive(blob, chain, level, entries);
    }
  }

  lemma WindowsInside(blob: Slice, chain: seq<Node>, level: nat, entries: seq<RangesEntry>)
    requires WindowsAre(blob, chain, level, entries)
    ensures 0 < level < |chain|
  {
    hide Counts, Declares, HasValue, EntriesAre;
  }

  // ---- Translation ---------------------------------------------------------------------------

  /**
   The way a request takes up the tree, in bytes: at each level the first of that node's windows
   that contains it, until a node without `ranges`.
   */
  ghost predicate Route(blob: Slice, chain: seq<Node>, level: nat, range: AddressRange,
                        windows: seq<RangesEntry>, out: AddressRange)
    requires level < |chain|
    decreases level
  {
    hide Lacks, Enters, Ascii;
    if windows == [] then Lacks(blob, chain[level], Ascii("ranges")) && out == range
    else
      && level > 0 && 0 <= Shifted(range, windows[0]) < TWO_64
      && Enters(blob, chain, level, range, windows[0])
      && Route(blob, chain, level - 1, AddressRange(Shifted(range, windows[0]), range.size), windows[1..], out)
  }

  /** `window` is the first of the level's windows that contains the request. */
  ghost predicate Enters(blob: Slice, chain: seq<Node>, level: nat, range: AddressRange, window: RangesEntry) {
    exists entries, k: nat :: FirstWindowAt(blob, chain, level, entries, k, range, window)
  }

  ghost predicate FirstWindowAt(blob: Slice, chain: seq<Node>, level: nat, entries: seq<RangesEntry>, k: nat,
                                range: AddressRange, window: RangesEntry)
  {
    WindowsAre(blob, chain, level, entries) && FirstContaining(entries, range, k) && entries[k] == window
  }

  lemma WindowMeaning(blob: Slice, chain: seq<Node>, level: nat, range: AddressRange, window: RangesEntry)
    requires level < |chain| && AllCovered(blob, chain)
    ensures Enters(blob, chain, level, range, window) <==>
      var here := WindowsAt(blob, chain, level);
      && here.Ok? && here.value.Some?
      && exists k: nat :: FirstContaining(here.value.value, range, k) && here.value.value[k] == window
  {
    hide WindowsAt, WindowsAre, AllCovered, FirstContaining;
    forall entries
      ensures WindowsAt(blob, chain, level) == Ok(Some(entries)) <==> WindowsAre(blob, chain, level, entries)
    {
      WindowsMeaning(blob, chain, level, entries);
    }
    forall entries, k: nat | FirstContaining(entries, range, k) ensures k < |entries| {
      ContainingIsThere(entries, range, k);
    }
    var here := WindowsAt(blob, chain, level);
    if here.Ok? && here.value.Some? {
      forall k: nat | FirstContaining(here.value.value, range, k) && here.value.value[k] == window
        ensures FirstWindowAt(blob, chain, level, here.value.value, k, range, window)
      {
      }
    }
  }

  lemma ContainingIsThere(entries: seq<RangesEntry>, range: AddressRange, k: nat)
    requires FirstContaining(entries, range, k)
    ensures k < |entries|
  {
  }

  /** The route in bytes is the passage through the windows. */
  lemma {:induction false} RouteIsPassage(blob: Slice, chain: seq<Node>, level: nat, range: AddressRange,
                                          windows: seq<RangesEntry>, out: AddressRange)
    requires level < |chain| && AllCovered(blob, chain)
    ensures Route(blob, chain, level, range, windows, out) <==> Passage(blob, chain, level, range, windows, out)
    decreases level
  {
    hide WindowsAt, Enters, FirstContaining, AllCovered, Lacks, Ascii;
    if windows == [] {
      WindowsMeaning(blob, chain, level, []);
    } else {
      WindowMeaning(blob, chain, level, range, windows[0]);
      if level > 0 && 0 <= Shifted(range, windows[0]) < TWO_64 {
        RouteIsPassage(blob, chain, level - 1, AddressRange(Shifted(range, windows[0]), range.size), windows[1..], out);
      }
    }
  }

  /** A request that is translated: its raw range, the windows it goes through and where it comes out. */
  ghost predicate Travels(blob: Slice, chain: seq<Node>, index: usize, raw: AddressRange,
                          windows: seq<RangesEntry>, out: AddressRange)
  {
    && RegIs(blob, chain, index, raw) && |chain| >= 2
    && Route(blob, chain, |chain| - 2, raw, windows, out)
  }

  /**
   On the nodes of a parsed tree a translation gives `out` exactly when the bytes of `reg` and of
   the `ranges` above it lead there; then the address has moved by the windows' displacements.
   */
  lemma TranslationMeaning(blob: Slice, chain: seq<Node>, index: usize, out: AddressRange)
    requires AllCovered(blob, chain)
    ensures Translated(blob, chain, index) == Ok(out) <==>
      exists raw, windows :: Travels(blob, chain, index, raw, windows, out)
    ensures forall raw, windows :: Travels(blob, chain, index, raw, windows, out) ==>
      out.address == raw.address + Displacement(windows) && out.size == raw.size
  {
    hide Translated, RegOf, RegIs, Route, Passage, Displacement, Covered;
    TranslationTelescopes(blob, chain, index, out);
    forall raw, windows | Travels(blob, chain, index, raw, windows, out)
      ensures out.address == raw.address + Displacement(windows) && out.size == raw.size
      ensures Translated(blob, chain, index) == Ok(out)
    {
      RegMeaning(blob, chain, index, raw);
      RouteIsPassage(blob, chain, |chain| - 2, raw, windows, out);
      PassageTelescopes(blob, chain, |chain| - 2, raw, windows, out);
    }
    if Translated(blob, chain, index) == Ok(out) {
      var raw := RegOf(blob, chain, index).value;
      var windows :| Passage(blob, chain, |chain| - 2, raw, windows, out)
        && out.address == raw.address + Displacement(windows) && out.size == raw.size;
      RegMeaning(blob, chain, index, raw);
      RouteIsPassage(blob, chain, |chain| - 2, raw, windows, out);
      assert Travels(blob, chain, index, raw, windows, out);
    }
  }
}
