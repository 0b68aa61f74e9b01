/** String lists in property values, and discovery of the boot console's register base. */
module Discover {
  import opened Results
  import opened Bytes
  import opened AdtRaw
  import opened AdtNode
  import opened AdtPath
  import opened AdtNamed
  import opened AdtTranslate
  import opened AdtWindows

  // ---- NUL-terminated string lists ------------------------------------------

  /** The non-empty terminated strings of `value` from `position` on. */
  function Strings(value: Slice, position: nat): (entries: seq<seq<u8>>)
    requires position <= |value|
    decreases |value| - position
  {
    match Position(value[position..], 0)
    case None => []
    case Some(length) =>
      var rest := Strings(value, position + length + 1);
      if length == 0 then rest else [value[position..position + length]] + rest
  }

  lemma {:induction false} StringsHead(value: Slice, position: nat)
    requires position <= |value|
    ensures var here := Position(value[position..], 0);
      && (here.None? ==> Strings(value, position) == [])
      && (here.Some? ==>
            var entry, rest := value[position..][..here.value], Strings(value, position + here.value + 1);
            && entry == value[position..position + here.value]
            && Strings(value, position) == if entry == [] then rest else [entry] + rest)
    ensures value[position..] == [] ==> Position(value[position..], 0).None?
  {
    hide Position;
    var here := Position(value[position..], 0);
    if here.Some? {
      DropTake(value, position, here.value);
      var entry := value[position..][..here.value];
      assert |entry| == here.value;
    }
  }

  class StringIter {
    const value: Slice
    var position: nat
    var done: bool

    constructor (value: Slice)
      ensures Valid() && Items() == Strings(value, 0)
    {
      this.value, this.position, this.done := value, 0, false;
    }

    predicate Valid()
      reads this
    {
      position <= |value|
    }

    function Items(): (strings: seq<seq<u8>>)
      requires Valid()
      reads this
    {
      if done then [] else Strings(value, position)
    }

    /** Skips padding NULs; a tail without a terminator ends the list. */
    method Next() returns (item: Option<seq<u8>>)
      requires Valid()
      modifies this
      ensures Valid()
      ensures old(Items()) == match item case None => [] case Some(entry) => [entry] + Items()
      ensures item.None? ==> Items() == []
    {
      hide Strings, Position;
      while true
        invariant Valid() && Items() == old(Items())
        decreases |value| - position, !done
      {
        if done {
          return None;
        }
        StringsHead(value, position);
        var rest := value[position..];
        if rest == [] {
          done := true;
          return None;
        }
        var terminator := Position(rest, 0);
        if terminator.None? {
          done := true;
          return None;
        }
        var entry := rest[..terminator.value];
        position := position + terminator.value + 1;
        if entry != [] {
          return Some(entry);
        }
      }
    }
  }

  method HasString(value: Slice, wanted: seq<u8>) returns (found: bool)
    ensures found <==> wanted in Strings(value, 0)
  {
    hide Strings;
    var iter := new StringIter(value);
    while true
      invariant iter.Valid()
      invariant wanted in Strings(value, 0) <==> wanted in iter.Items()
      decreases |iter.Items()|
    {
      var item := iter.Next();
      if item.None? {
        return false;
      }
      if item.value == wanted {
        return true;
      }
    }
  }

  /** `wanted` stands at `at`, starts the value or follows a NUL, and is terminated. */
  ghost predicate EntryAtOffset(value: seq<u8>, at: nat, wanted: seq<u8>) {
    && at + |wanted| < |value| && value[at..at + |wanted|] == wanted && value[at + |wanted|] == 0
    && 0 !in wanted && (at == 0 || value[at - 1] == 0)
  }

  /** Inside one NUL-terminated run only the run itself is an entry. */
  lemma EntryInRun(value: Slice, start: nat, end: nat, at: nat, wanted: seq<u8>)
    requires start <= at <= end < |value| && value[end] == 0 && 0 !in value[start..end]
    requires start == 0 || value[start - 1] == 0
    requires wanted != []
    ensures EntryAtOffset(value, at, wanted) <==> at == start && wanted == value[start..end]
  {
    assert forall i :: start <= i < end ==> value[i] in value[start..end];
    if EntryAtOffset(value, at, wanted) {
      assert forall i :: 0 <= i < |wanted| ==> wanted[i] == value[at + i];
    }
  }

  /** With no NUL left there is no entry left. */
  lemma NoEntryWithoutNul(value: Slice, position: nat, at: nat, wanted: seq<u8>)
    requires position <= at && position <= |value| && 0 !in value[position..]
    ensures !EntryAtOffset(value, at, wanted)
  {
    if at + |wanted| < |value| {
      assert value[position..][at + |wanted| - position] == value[at + |wanted|];
    }
  }

  lemma {:induction false} StringsUnfold(value: Slice, position: nat, wanted: seq<u8>)
    requires position <= |value|
    ensures var here := Position(value[position..], 0);
      && (here.None? ==> Strings(value, position) == [])
      && (here.Some? ==>
            var end := position + here.value;
            && value[end] == 0 && 0 !in value[position..end]
            && (wanted in Strings(value, position) <==>
                  (wanted != [] && wanted == value[position..end]) || (wanted in Strings(value, end + 1))))
    ensures [] !in Strings(value, position)
  {
    hide Position, Strings;
    StringsHead(value, position);
    NoEmptyStrings(value, position);
    var here := Position(value[position..], 0);
    if here.Some? {
      assert value[position..][here.value] == value[position + here.value];
      var rest := Strings(value, position + here.value + 1);
      assert forall entry :: wanted in [entry] + rest <==> wanted == entry || wanted in rest;
    }
  }

  lemma {:induction false} NoEmptyStrings(value: Slice, position: nat)
    requires position <= |value|
    ensures [] !in Strings(value, position)
    decreases |value| - position
  {
    hide Position;
    if Position(value[position..], 0).Some? {
      NoEmptyStrings(value, position + Position(value[position..], 0).value + 1);
    }
  }

  lemma {:induction false} StringsFrom(value: Slice, position: nat, wanted: seq<u8>)
    requires position <= |value| && (position == 0 || value[position - 1] == 0)
    ensures wanted in Strings(value, position) <==>
      wanted != [] && exists at: nat :: position <= at && EntryAtOffset(value, at, wanted)
    decreases |value| - position
  {
    hide EntryAtOffset, Position, Strings;
    StringsUnfold(value, position, wanted);
    var here := Position(value[position..], 0);
    if here.None? {
      forall at: nat | position <= at ensures !EntryAtOffset(value, at, wanted) {
        NoEntryWithoutNul(value, position, at, wanted);
      }
    } else {
      var end := position + here.value;
      StringsFrom(value, end + 1, wanted);
      if wanted != [] {
        EntryInRun(value, position, end, position, wanted);
        forall at: nat | position <= at <= end
          ensures EntryAtOffset(value, at, wanted) <==> at == position && wanted == value[position..end]
        {
          EntryInRun(value, position, end, at, wanted);
        }
      }
    }
  }

  /** A value lists `wanted` exactly when some terminated entry of it is `wanted`. */
  lemma StringsMeaning(value: Slice, wanted: seq<u8>)
    ensures wanted in Strings(value, 0) <==>
      wanted != [] && exists at: nat :: EntryAtOffset(value, at, wanted)
  {
    hide Strings;
    StringsFrom(value, 0, wanted);
  }

  // ---- Console discovery ------------------------------------------------------

  datatype DiscoverError =
    | AdtParse(reason: AdtError)
    | MarkerProbe(reason: AdtError)
    | NoUartNode
    | CompatibleMissing
    | CompatibleMismatch
    | RegUntranslatable(reason: AdtError)
    | TranslationUnavailable

  datatype SelectedNode = PreferredWithMarker | Default

  datatype UartLocation = UartLocation(base: u64, selected: SelectedNode)

  datatype ConsoleChoice =
    | DockChannel(base: u64)
    | S5lUart(location: UartLocation, dockchannelError: DiscoverError)

  const UART_COMPATIBLE := Ascii("uart-1,samsung")
  const UART_PREFERRED_PATH := Ascii("/arm-io/uart6")
  const UART_MARKER_PATH := Ascii("/arm-io/uart6/debug-console")
  const UART_DEFAULT_PATH := Ascii("/arm-io/uart0")
  const DOCKCHANNEL_PATH := Ascii("/arm-io/dockchannel-uart")
  const DOCKCHANNEL_COMPATIBLE := Ascii("aapl,dock-channels")

  /** The inner denial wrapped by the step that met it. */
  function Wrap<T>(r: Result<T, AdtError>, reason: AdtError -> DiscoverError): (w: Result<T, DiscoverError>) {
    match r
    case Ok(value) => Ok(value)
    case Err(error) => Err(reason(error))
  }

  function NodeExists(blob: Slice, path: seq<u8>): (r: Result<bool, AdtError>) {
    match Resolved(blob, path)
    case Ok(_) => Ok(true)
    case Err(error) => if error == NodeNotFound then Ok(false) else Err(error)
  }

  /** Resolve, check the claim, check that translation can happen, translate. */
  function ClaimedBase(blob: Slice, path: seq<u8>, claim: seq<u8>): (r: Result<u64, DiscoverError>) {
    match Resolved(blob, path)
    case Err(error) => Err(if error == NodeNotFound then NoUartNode else AdtParse(error))
    case Ok(chain) =>
      var found :- Wrap(Lookup(blob, chain[|chain| - 1], Ascii("compatible")), e => AdtParse(e));
      var compatible :- found.OkOr(CompatibleMissing);
      if claim !in Strings(compatible.value, 0) then Err(CompatibleMismatch) else
      if |chain| < 2 then Err(TranslationUnavailable) else
      var ranges :- Wrap(Lookup(blob, chain[|chain| - 2], Ascii("ranges")), e => AdtParse(e));
      if ranges.None? then Err(TranslationUnavailable) else
      var range :- Wrap(Translated(blob, chain, 0), e => RegUntranslatable(e));
      Ok(range.address)
  }

  function UartBase(blob: Slice): (r: Result<UartLocation, DiscoverError>) {
    var _ :- Wrap(Parsed(blob), e => AdtParse(e));
    var marked :- Wrap(NodeExists(blob, UART_MARKER_PATH), e => MarkerProbe(e));
    var base :- ClaimedBase(blob, if marked then UART_PREFERRED_PATH else UART_DEFAULT_PATH, UART_COMPATIBLE);
    Ok(UartLocation(base, if marked then PreferredWithMarker else Default))
  }

  function DockchannelBase(blob: Slice): (r: Result<u64, DiscoverError>) {
    var _ :- Wrap(Parsed(blob), e => AdtParse(e));
    ClaimedBase(blob, DOCKCHANNEL_PATH, DOCKCHANNEL_COMPATIBLE)
  }

  function Console(blob: Slice): (r: Result<ConsoleChoice, DiscoverError>) {
    match DockchannelBase(blob)
    case Ok(base) => Ok(DockChannel(base))
    case Err(dockchannelError) =>
      var location :- UartBase(blob);
      Ok(S5lUart(location, dockchannelError))
  }

  // ---- Exactly which console is chosen -------------------------------------------------

  /**
   The path leads to a node whose `compatible` lists `claim`, and whose `reg` travels through at
   least one window to `base`.
   */
  ghost predicate Claimed(blob: Slice, path: seq<u8>, claim: seq<u8>, base: u64) {
    exists chain: seq<Node>, value: seq<u8>, raw: AddressRange, windows: seq<RangesEntry>, out: AddressRange ::
      && Lists(blob, path, claim, chain, value)
      && windows != [] && Travels(blob, chain, 0, raw, windows, out) && base == out.address
  }

  ghost predicate Lists(blob: Slice, path: seq<u8>, claim: seq<u8>, chain: seq<Node>, value: seq<u8>) {
    && Leads(blob, path, chain) && |chain| >= 2
    && HasValue(blob, chain[|chain| - 1], Ascii("compatible"), value)
    && exists at: nat :: EntryAtOffset(value, at, claim)
  }

  lemma ResolvedIsCovered(blob: Slice, path: seq<u8>)
    requires Parsed(blob).Ok? && Resolved(blob, path).Ok?
    ensures AllCovered(blob, Resolved(blob, path).value)
  {
    hide Resolved, Covered, Parsed, HandsOut;
    ResolvedChain(blob, path);
    var chain := Resolved(blob, path).value;
    forall i | 0 <= i < |chain| ensures Covered(blob, chain[i]) {
      assert Reachable(blob, chain[..i + 1]);
      ReachableNodesAreCovered(blob, chain[..i + 1]);
    }
  }

  /** What a claimed base needs, as the lookups give it. */
  lemma ClaimedBaseUnfold(blob: Slice, path: seq<u8>, claim: seq<u8>, base: u64)
    ensures ClaimedBase(blob, path, claim) == Ok(base) <==>
      && Resolved(blob, path).Ok?
      && var chain := Resolved(blob, path).value;
         var compatible := Lookup(blob, chain[|chain| - 1], Ascii("compatible"));
         && compatible.Ok? && compatible.value.Some? && claim in Strings(compatible.value.value.value, 0)
         && |chain| >= 2
         && Lookup(blob, chain[|chain| - 2], Ascii("ranges")).Ok?
         && Lookup(blob, chain[|chain| - 2], Ascii("ranges")).value.Some?
         && Translated(blob, chain, 0).Ok? && Translated(blob, chain, 0).value.address == base
  {
    hide Resolved, Lookup, Strings, Translated, Ascii;
  }

  lemma HasWindows(blob: Slice, chain: seq<Node>, index: usize, raw: AddressRange, windows: seq<RangesEntry>,
                   out: AddressRange)
    requires AllCovered(blob, chain) && Travels(blob, chain, index, raw, windows, out)
    ensures |chain| >= 2
    ensures windows == [] <==> Lookup(blob, chain[|chain| - 2], Ascii("ranges")) == Ok(None)
    ensures Lookup(blob, chain[|chain| - 2], Ascii("ranges")).Ok?
  {
    hide Lookup, Covered, RegIs, Critical, Ascii, FirstContaining, EntriesAre, Counts, Declares, HasValue, Lacks;
    TranslationNames();
    var node := chain[|chain| - 2];
    if windows != [] {
      var entries, k: nat :| FirstWindowAt(blob, chain, |chain| - 2, entries, k, raw, windows[0]);
      var value :| HasValue(blob, node, Ascii("ranges"), value);
      LookupIs(blob, node, Ascii("ranges"), value);
    } else {
      LookupIs(blob, node, Ascii("ranges"), []);
    }
  }

  /** A base is handed out exactly for a node that claims it and whose translation gives it. */
  lemma ClaimedBaseExactly(blob: Slice, path: seq<u8>, claim: seq<u8>, base: u64)
    requires Parsed(blob).Ok? && claim != []
    ensures ClaimedBase(blob, path, claim) == Ok(base) <==> Claimed(blob, path, claim, base)
  {
    hide ClaimedBase, Claimed, Parsed;
    if ClaimedBase(blob, path, claim) == Ok(base) {
      BaseIsClaimed(blob, path, claim, base);
    }
    if Claimed(blob, path, claim, base) {
      ClaimIsBased(blob, path, claim, base);
    }
  }

  lemma BaseIsClaimed(blob: Slice, path: seq<u8>, claim: seq<u8>, base: u64)
    requires Parsed(blob).Ok? && claim != [] && ClaimedBase(blob, path, claim) == Ok(base)
    ensures Claimed(blob, path, claim, base)
  {
    hide ClaimedBase, Resolved, Lookup, Strings, Translated, Travels, Leads, HasValue, Covered, Critical, Ascii;
    hide EntryAtOffset, Parsed;
    ClaimedBaseUnfold(blob, path, claim, base);
    var chain := Resolved(blob, path).value;
    ResolvedMeaning(blob, path, chain);
    ResolvedIsCovered(blob, path);
    TranslationNames();
    var value := Lookup(blob, chain[|chain| - 1], Ascii("compatible")).value.value.value;
    LookupIs(blob, chain[|chain| - 1], Ascii("compatible"), value);
    StringsMeaning(value, claim);
    var out := Translated(blob, chain, 0).value;
    TranslationMeaning(blob, chain, 0, out);
    var raw, windows :| Travels(blob, chain, 0, raw, windows, out);
    HasWindows(blob, chain, 0, raw, windows, out);
    assert Lists(blob, path, claim, chain, value);
  }

  lemma ClaimIsBased(blob: Slice, path: seq<u8>, claim: seq<u8>, base: u64)
    requires Parsed(blob).Ok? && claim != [] && Claimed(blob, path, claim, base)
    ensures ClaimedBase(blob, path, claim) == Ok(base)
  {
    hide ClaimedBase, Resolved, Lookup, Strings, Translated, Travels, Leads, HasValue, Covered, Critical, Ascii;
    hide EntryAtOffset, Parsed;
    var chain: seq<Node>, value: seq<u8>, raw: AddressRange, windows: seq<RangesEntry>, out: AddressRange :|
      && Lists(blob, path, claim, chain, value)
      && windows != [] && Travels(blob, chain, 0, raw, windows, out) && base == out.address;
    ResolvedMeaning(blob, path, chain);
    ResolvedIsCovered(blob, path);
    TranslationNames();
    LookupIs(blob, chain[|chain| - 1], Ascii("compatible"), value);
    StringsMeaning(Lookup(blob, chain[|chain| - 1], Ascii("compatible")).value.value.value, claim);
    TranslationMeaning(blob, chain, 0, out);
    HasWindows(blob, chain, 0, raw, windows, out);
    ClaimedBaseUnfold(blob, path, claim, base);
  }

  /** The DockChannel of this tree is at `base`. */
  ghost predicate HasDockChannel(blob: Slice, base: u64) {
    Claimed(blob, Ascii("/arm-io/dockchannel-uart"), Ascii("aapl,dock-channels"), base)
  }

  /** The UART of this tree is at `base`: `uart6` when its debug marker is there, `uart0` when it is not. */
  ghost predicate HasUart(blob: Slice, base: u64, selected: SelectedNode) {
    match selected
    case PreferredWithMarker =>
      && (exists chain :: Leads(blob, Ascii("/arm-io/uart6/debug-console"), chain))
      && Claimed(blob, Ascii("/arm-io/uart6"), Ascii("uart-1,samsung"), base)
    case Default =>
      && LeadsNowhere(blob, Ascii("/arm-io/uart6/debug-console"))
      && Claimed(blob, Ascii("/arm-io/uart0"), Ascii("uart-1,samsung"), base)
  }

  lemma DockChannelExactly(blob: Slice, base: u64)
    ensures DockchannelBase(blob) == Ok(base) <==> Parsed(blob).Ok? && HasDockChannel(blob, base)
  {
    hide ClaimedBase, Claimed, Parsed;
    if Parsed(blob).Ok? {
      ClaimedBaseExactly(blob, DOCKCHANNEL_PATH, DOCKCHANNEL_COMPATIBLE, base);
    }
  }

  lemma UartExactly(blob: Slice, location: UartLocation)
    ensures UartBase(blob) == Ok(location) <==>
      Parsed(blob).Ok? && HasUart(blob, location.base, location.selected)
  {
    hide ClaimedBase, Claimed, Parsed, Resolved, Leads, LeadsNowhere;
    if Parsed(blob).Ok? {
      ClaimedBaseExactly(blob, UART_PREFERRED_PATH, UART_COMPATIBLE, location.base);
      ClaimedBaseExactly(blob, UART_DEFAULT_PATH, UART_COMPATIBLE, location.base);
      MissingMeaning(blob, UART_MARKER_PATH);
      forall chain ensures Resolved(blob, UART_MARKER_PATH) == Ok(chain) <==> Leads(blob, UART_MARKER_PATH, chain) {
        ResolvedMeaning(blob, UART_MARKER_PATH, chain);
      }
    }
  }

  /**
   Exactly which console is chosen, in the bytes of the tree: the DockChannel wherever one is
   claimed and translated, otherwise the UART the marker selects, and none in any other tree.
   */
  lemma ConsoleExactly(blob: Slice, choice: ConsoleChoice)
    ensures Console(blob) == Ok(choice) <==>
      && Parsed(blob).Ok?
      && match choice
         case DockChannel(base) => HasDockChannel(blob, base)
         case S5lUart(location, dockchannelError) =>
           && (forall base: u64 :: !HasDockChannel(blob, base)) && DockchannelBase(blob) == Err(dockchannelError)
           && HasUart(blob, location.base, location.selected)
  {
    hide DockchannelBase, UartBase, HasDockChannel, HasUart, Parsed;
    forall base: u64 ensures DockchannelBase(blob) == Ok(base) <==> Parsed(blob).Ok? && HasDockChannel(blob, base) {
      DockChannelExactly(blob, base);
    }
    if choice.S5lUart? {
      UartExactly(blob, choice.location);
    }
    if UartBase(blob).Ok? {
      UartExactly(blob, UartBase(blob).value);
    }
  }
}
