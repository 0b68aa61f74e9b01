# BraiNIX decoders and boot path, proved in Dafny

This project models the fail-closed decoders of BraiNIX and the boot code around
them, and proves what they promise for every input and every run.
`dafny verify dfyconfig.toml` checks all of it.

| files | what they model |
|---|---|
| `AdtRaw`, `AdtNode`, `AdtPath`, `AdtTranslate`, `AdtRoundTrip` | the Apple Device Tree decoder: the stack walk and its grammar, the cursors, path resolution, `ranges` translation, the printer and its round trip |
| `AdtNamed`, `AdtWindows`, `Discover` | what names, paths, `reg` and `ranges` mean in the bytes of a parsed tree, and console discovery |
| `Bxw1Header`, `Bxw1Table`, `Bxw1Names`, `Bxw1Shapes`, `Bxw1Payload`, `Bxw1Encode`, `Bxw1Blob`, `Bxw1Denials`, `Bxw1Build` | the BXW1 weight loader: header, tensor table, required names and their shapes, the hashing pass, the byte encodings, the whole loader and its denials, and the blob builder |
| `BspWire`, `BspMessage`, `BspRecord`, `BspResponse`, `BspReceiver`, `BspHandshake`, `BspSession`, `BspReplies` | BSP v2: the reader and writer, the message codec, record framing, responses and their reader, the handshake, the session machine and what it does with every message |
| `BootArgs`, `Paint` | the `boot_args` windows and the progress stripes |
| `Multiboot2`, `Relocation` | the boot-information walkers and the staging of the shell module |
| `Results`, `Bytes` | results, fixed-width integers and byte encodings |

## How it is modelled

- Integers are `int` subsets of the source's widths and `usize` is 64-bit. A slice is at
  most `isize::MAX` bytes. Where wrap-around or a checked operation can matter it is
  written out. A checked operation that can never fail is written as plain typed
  arithmetic, and its width obligation is the proof that it cannot.
- Objects the source updates are classes, buffers are arrays, and loops are loops. Each is
  proved equal to a function of its inputs, and the theorems are about that function.
- An iterator is specified by the items it has yet to yield.
- SHA-256 is a function parameter. The streaming hasher carries the bytes it absorbed.
- Physical memory and the framebuffer are byte arrays. Addresses are indices into them.
- A session run is a sequence of calls from a fresh session, of any length.
- Multiboot2 structures are well formed as section 3.6 of the Multiboot2 Specification has
  it: every tag has a size of at least 8, fits, and a module string ends inside its tag. The
  source's functions are `unsafe` and demand as much of their callers.

## The main results

- `AdtRaw.WalkNodeEnd`: the iterative walk over an 8-slot stack computes the recursive
  grammar, so its visit budget never runs out.
- `AdtRoundTrip.RoundTrip`, `AdtRoundTrip.SlackNeverMatters`, `AdtRoundTrip.Normalises`:
  printing and parsing are inverse, and nothing after the tree matters.
- `AdtNode.ReachableNodesAreCovered`, `AdtTranslate.TranslationTelescopes`: every cursor
  after parsing succeeds, and translation is a sum of window displacements.
- `AdtNamed.ResolvedMeaning`, `AdtWindows.TranslationMeaning`, `Discover.ConsoleExactly`:
  where a path leads, what an address translates to and which console is chosen, exactly and
  in the bytes of the tree.
- `Bxw1Names.Pigeonhole`, `Bxw1Table.StructureIsCanonical`, `Bxw1Payload.Verify`,
  `Bxw1Blob.AcceptanceExactly`: completeness from a count, one canonical layout, every byte
  hashed once, and exactly which blobs load.
- `Bxw1Denials.EveryDenialIsTrue`: every denial, in any stage, names a rule the blob breaks.
- `Bxw1Table.DerivedLength`, `Bxw1Shapes.TensorFits`, `Bxw1Blob.TensorByName`: what lengths
  are made of, and that the tensors of a loaded model compose.
- `Bxw1Build.BuiltBlobLoads`, `Bxw1Build.LoadedBlobIsBuilt`: building and loading are
  inverse, each way round.
- `BspSession.CommitConservesPrompt`, `BspSession.ErasureIsInvisible`,
  `BspSession.GrantBefore`, `BspSession.OneRequestInFlight`: what every run of the session
  machine keeps.
- `BspReplies.TakesExactly`, `BspReplies.DenialsExactly`, `BspReplies.EveryDenialIsTrue`:
  every step of that machine, from the bytes that arrive, and why it refuses.
- `BspMessage.ClientCanonical`, `BspRecord.DecodeMeaning`, `BspReceiver.ClientReadsBack`,
  `BspReceiver.AdminReadsBack`, `BspResponse.ClientInjective`,
  `BspResponse.AdminInjective`: the codecs in both directions.
- `Paint.ProgressPicture`, `Paint.PaintedElsewhere`, `Relocation.LookupExactly`,
  `Relocation.ForwardExactly`, `Relocation.StagingPreservesLookups`: what ends up in memory,
  and what does not change.

## Where the code and its comments differ

- `src/bsp/src/response.rs:102` says a stream end returns the slot to idle. The session
  machine has no such transition: `BspSession.StreamingLeavesByCancelOrClose`.
- `src/adt/src/boot_args.rs:77-83` documents two address-arithmetic denials. The derivation
  wraps and never raises them: `BootArgs.AddressArithmeticNeverDenies`.
- The Multiboot2 walkers name an end tag but do not stop at it; they stop at the
  structure's total size, and so does the model.

## Model

| member | source | states |
|---|---|---|
| `AdtRaw.RecordEnd` | src/adt/src/raw.rs:84-89 | a property record ends on the least multiple of 4 at or past its value, 36 bytes after its start plus the value |
| `AdtRaw.DecodeNodeHeader` | src/adt/src/raw.rs:105-164 | an accepted header is aligned, has 1 to the maximum properties, and leaves room for 36 bytes per property and 8 per child; its denials are structural |
| `AdtRaw.DecodeProperty` | src/adt/src/raw.rs:179-231 | an accepted property record is aligned at both ends, inside the blob and at least as long as its value |
| `AdtRaw.HeaderDenials` | src/adt/src/raw.rs:100-164 | which denial a refused node header gets, from its two counts and the room: a ceiling is named only when what is declared would have fitted |
| `AdtRaw.PropertyDenials` | src/adt/src/raw.rs:179-231 | which denial a refused property record gets, from its bytes: the top bit of the length is the placeholder flag |
| `AdtRaw.EndOfProperties` | src/adt/src/raw.rs:236-251 | the property loop returns what the recursive property grammar returns, end or first error |
| `AdtRaw.FirstChildOffset` | src/adt/src/raw.rs:265-282 | the first-child offset, or its denial, is the grammar's |
| `AdtRaw.NodeEnd` | src/adt/src/raw.rs:300-358 | the recursive tree grammar: an accepted node takes at least 44 bytes, ends aligned and inside the blob, and denies only structurally, never for budget |
| `AdtRaw.SiblingsEnd` | src/adt/src/raw.rs:300-358 | a run of n siblings takes at least 44n bytes and ends inside the blob |
| `AdtRaw.UnwindSettled` | src/adt/src/raw.rs:340-356 | popping settled frames leaves the continuation of the walk unchanged |
| `AdtRaw.WalkNodeEnd` | src/adt/src/raw.rs:300-358 | for every blob, start and depth budget the stack walk returns exactly the grammar's result, so the visit budget never runs out |
| `AdtNode.Parse` | src/adt/src/lib.rs:140-149 | parsing is the grammar at the root, with the tree length as result |
| `AdtNode.PropertyIter.constructor` | src/adt/src/node.rs:94-106 | a new property cursor holds the items the grammar gives |
| `AdtNode.PropertyIter.Next` | src/adt/src/node.rs:276-307 | each call hands out the head of the remaining items; an exhausted cursor stays exhausted, an error is the last item |
| `AdtNode.ChildIter.constructor` | src/adt/src/node.rs:109-126 | a new child cursor holds the items the grammar gives |
| `AdtNode.ChildIter.Next` | src/adt/src/node.rs:324-368 | each call hands out the head of the remaining children; an error is the last item |
| `AdtNode.ChildItemsAreSiblings` | src/adt/src/node.rs:327-368 | over a validated run of siblings the child cursor yields exactly the declared number, all without error, and their extents tile the run |
| `AdtNode.PropertyItemsAllDecode` | src/adt/src/node.rs:279-307 | over a validated property run the cursor yields exactly the declared number, all without error |
| `AdtNode.CoveredProperties` | src/adt/src/node.rs:94-106 | a covered node's property cursor yields its declared count and never an error |
| `AdtNode.CoveredChildren` | src/adt/src/node.rs:73-126 | a covered node's children number its declared count, are covered one level down, and tile the span from first-child offset to extent end |
| `AdtNode.ReachableNodesAreCovered` | src/adt/src/lib.rs:140-149 | on every parsed tree, every node reachable from the root by child cursors sits at the depth of its chain and is covered |
| `AdtPath.FindProperty` | src/adt/src/node.rs:145-161 | the search loop equals the recursive search over the cursor's items |
| `AdtPath.LookupMeaning` | src/adt/src/node.rs:126-161 | on a covered node: no match gives none; a match gives the first one, except that a repeated critical name is a duplicate denial |
| `AdtPath.LookupErrors` | src/adt/src/node.rs:145-161 | a property search denies only structurally or for a duplicate |
| `AdtNamed.IsNamedMeaning` | src/adt/src/property.rs:53-80 | a property answers to a name exactly when its 32-byte field opens with the name and a NUL, with no NUL before |
| `AdtNamed.CriticalLookup` | src/adt/src/node.rs:20-41 | a lookup of any of the ten critical names finds the one property so spelled, nothing when there is none, and denies when there are several |
| `AdtNamed.OrdinaryLookup` | src/adt/src/node.rs:126-161 | any other name is found by its first spelling, repeated or not |
| `AdtNamed.NodeNameMeaning` | src/adt/src/node.rs:175-203 | a node is called n exactly when its one `name` property is at most 64 bytes and opens with n and a NUL |
| `AdtNamed.NameRefused` | src/adt/src/node.rs:175-203 | why a node has no name: no such property, several, one over 64 bytes, or one without a NUL |
| `AdtPath.FindChild` | src/adt/src/node.rs:209-217 | the child loop equals the recursive first-match scan |
| `AdtPath.FirstChildMeaning` | src/adt/src/node.rs:204-217 | the scan returns a child exactly when it is the first of that name and every earlier one is readably named otherwise, and nothing exactly when all are |
| `AdtNamed.ChildMeaning` | src/adt/src/node.rs:204-217 | a child lookup gives the first child so called, each earlier one being called something else, and finds nothing exactly when every child is called something else |
| `AdtPath.ScanIsNeverTooDeep` | src/adt/src/node.rs:209-222 | a scan never reports an over-deep path |
| `AdtPath.HandedOutDepth` | src/adt/src/node.rs:109-126 | a handed-out child is one level below its parent and within the depth limit |
| `AdtPath.ComponentsCut` | src/adt/src/lib.rs:183-200 | cutting at the first separator gives the first part of the split path and the split of the rest |
| `AdtNamed.ComponentsMeaning` | src/adt/src/lib.rs:183-200 | the components of a path are the one way to write it as separator-free parts, each after a separator |
| `AdtPath.NodePath.constructor` | src/adt/src/lib.rs:243-249 | a fresh path holds the root alone |
| `AdtPath.NodePath.Push` | src/adt/src/lib.rs:251-257 | appends, or denies exactly when the fixed array is full and then changes nothing |
| `AdtPath.Resolve` | src/adt/src/lib.rs:178-208 | the in-place splitting loop equals the recursive first-match descent over the split path, result and error; the chain is reachable, its i-th node at depth i; an over-deep path is never reported |
| `AdtPath.ResolvedChain` | src/adt/src/lib.rs:178-208 | every resolved chain is a parent-to-child chain from the root that fits the fixed array |
| `AdtNamed.ResolvedMeaning` | src/adt/src/lib.rs:178-208 | on a parsed tree a path resolves to a chain exactly when it is / and the root, or its parts are 1 to 63 bytes and each node is the first child of the one before called as its part says |
| `AdtNamed.MissingMeaning` | src/adt/src/lib.rs:178-208 | on a parsed tree a path finds nothing exactly when it leads to a node none of whose children is called as the next part says, every part so far being well formed |
| `AdtPath.ResolutionDenials` | src/adt/src/lib.rs:178-208 | on a parsed tree a resolution denies only for a malformed path, a missing node or a naming fault, never for structure |
| `AdtTranslate.CellWidth.FromDeclared` | src/adt/src/property.rs:279-286 | exactly 0, 1 and 2 are cell widths |
| `AdtTranslate.CellCounts.New` | src/adt/src/property.rs:291-303 | accepts exactly 1 or 2 address cells and at most 2 size cells |
| `AdtTranslate.ReadCells` | src/adt/src/property.rs:339-358 | reads the little-endian value of the cells |
| `AdtTranslate.TakeCells` | src/adt/src/property.rs:498-509 | filling a zeroed buffer from words gives the little-endian value of the cells taken |
| `AdtTranslate.RegContainer` | src/adt/src/property.rs:155-172 | succeeds exactly when the indexed container lies in the value; the address is its first cells and the size the rest, little-endian |
| `AdtTranslate.RangesIter.constructor` | src/adt/src/property.rs:189-217 | a new window cursor holds every whole entry |
| `AdtTranslate.TakeEntry` | src/adt/src/property.rs:525-556 | three runs of cells taken in turn give the entry's child address, parent address and size |
| `AdtTranslate.RangesIter.Next` | src/adt/src/property.rs:525-556 | hands out the head of the remaining windows and stays exhausted |
| `AdtTranslate.TranslateFirst` | src/adt/src/lib.rs:333-340 | the window loop stops at the first containing window or its overflow |
| `AdtTranslate.TranslatedReg` | src/adt/src/lib.rs:315-348 | the climbing loop equals the recursive climb over the chain |
| `AdtTranslate.ThroughMeaning` | src/adt/src/property.rs:465-485 | one level translates to an address exactly when a first containing window exists, holds the whole request and shifts it there without wrap |
| `AdtTranslate.ThroughDenials` | src/adt/src/lib.rs:333-340 | a level has no matching window exactly when none contains the request and every end is representable; any other denial is an overflow |
| `AdtTranslate.PassageTelescopes` | src/adt/src/lib.rs:315-348 | a passage through windows moves the address by the sum of parent base minus child base |
| `AdtTranslate.PassageIsClimb` | src/adt/src/lib.rs:315-348 | every such passage is what the climb computes |
| `AdtTranslate.TranslationTelescopes` | src/adt/src/lib.rs:315-348 | a translation succeeds with a range if and only if a passage up to the nearest ancestor without windows exists, and the result is the raw address plus the summed displacements |
| `AdtWindows.CountsMeaning` | src/adt/src/node.rs:224-257 | cell counts are read exactly from the one #address-cells, of 1 or 2, and the one #size-cells, of at most 2 |
| `AdtWindows.ContainerMeaning` | src/adt/src/property.rs:155-172 | a container is exactly the address cells and then the size cells at its index |
| `AdtWindows.RegMeaning` | src/adt/src/lib.rs:289-296 | the raw range comes exactly from the target's one `reg`, read with its parent's cell counts |
| `AdtWindows.EntriesMeaning` | src/adt/src/property.rs:525-556 | the windows of a value are exactly its whole entries in order, each a child address, a parent address and a size |
| `AdtWindows.WindowsMeaning` | src/adt/src/lib.rs:315-332 | a level has windows exactly when its bytes spell them with its own and its parent's counts, and none exactly when it has no `ranges` |
| `AdtWindows.TranslationMeaning` | src/adt/src/lib.rs:298-348 | on a parsed tree a translation gives a range exactly when the bytes of `reg` and of the `ranges` above lead there, each level through its first containing window |
| `AdtRoundTrip.PrintProp` | bin/generate-adt-fuzz-corpus.py:73-81 | the printing loop pads to the name field and to a multiple of 4 |
| `AdtRoundTrip.TreeBytesAre` | bin/generate-adt-fuzz-corpus.py:84-90 | a printed node is its two counts, its properties and its children, in that order |
| `AdtRoundTrip.TreeReads` | src/adt/src/raw.rs:300-358 | a printed tree anywhere in a blob has the printed extent and reads back as itself |
| `AdtRoundTrip.RoundTrip` | src/adt/src/lib.rs:140-149 | every tree within the limits, printed and followed by any slack, parses with the printed length and reads back through the cursors as the same tree |
| `AdtRoundTrip.SlackNeverMatters` | src/adt/src/lib.rs:140-149 | replacing whatever follows a parsed tree changes neither the result nor the tree |
| `AdtRoundTrip.Normalises` | src/adt/src/raw.rs:179-282 | every parsed tree can be printed again to a blob of the same length that parses to the same tree |
| `Discover.StringIter.constructor` | src/adt/src/property.rs:123-129 | a new string cursor holds every entry |
| `Discover.StringIter.Next` | src/adt/src/property.rs:371-444 | hands out the head of the remaining entries and stays exhausted |
| `Discover.HasString` | src/adt/src/property.rs:132-134 | finds a string exactly when it is an entry |
| `Discover.StringsMeaning` | src/adt/src/property.rs:371-444 | a string is an entry exactly when it is non-empty and stands whole between terminators |
| `Discover.ClaimedBaseExactly` | src/boot-stub-apple/src/discover.rs:102-161 | on a parsed tree a base is returned exactly for a path that leads to a node listing the compatible string whose `reg` travels through at least one window to it |
| `Discover.UartExactly` | src/boot-stub-apple/src/discover.rs:163-218 | the UART is uart6 exactly when the path of its debug marker leads somewhere, uart0 exactly when it leads nowhere, and neither otherwise |
| `Discover.ConsoleExactly` | src/boot-stub-apple/src/discover.rs:219-275 | exactly which console is chosen, in the bytes of the tree: the DockChannel wherever one is claimed and translated, otherwise the UART the marker selects |
| `Bxw1Header.RoundUp` | src/bxw1/src/table.rs:295-300 | the least multiple of 128 at or above the value |
| `Bxw1Header.FiniteByFields` | src/bxw1/src/raw.rs:63-98 | the two bit-pattern rules by sign, exponent and fraction: zero or a normal finite number, positive for the first |
| `Bxw1Header.ReadIdentity` | src/bxw1/src/header.rs:189-220 | an accepted identity has only the tied flag and a count in range |
| `Bxw1Header.ReadLayout` | src/bxw1/src/header.rs:232-303 | an accepted layout ends with the blob and starts its data at the rounded end of the table |
| `Bxw1Header.ReadDimensions` | src/bxw1/src/header.rs:408-481 | accepted dimensions are in range and mutually consistent |
| `Bxw1Header.ReadTokens` | src/bxw1/src/header.rs:347-369 | accepted special tokens lie in the vocabulary, whose blob has a length in range |
| `Bxw1Header.ParseHeader` | src/bxw1/src/header.rs:136-170 | an accepted header has a valid layout and dimensions and exactly the architecture's tensor count |
| `Bxw1Encode.HeaderExactly` | src/bxw1/src/header.rs:136-170 | a blob parses to a header exactly when it opens with that header's 256 bytes and every value is in range, so each field is read from its own place |
| `Bxw1Encode.HeaderIsUnique` | src/bxw1/src/header.rs:136-170 | two blobs that parse to one header share their first 256 bytes |
| `Bxw1Encode.LayoutExactly` | src/bxw1/src/header.rs:232-303 | the layout reads back from its 80 bytes exactly when valid |
| `Bxw1Encode.DimensionsExactly` | src/bxw1/src/header.rs:408-481 | the dimensions read back from their 36 bytes exactly when valid |
| `Bxw1Encode.RopeExactly` | src/bxw1/src/header.rs:328-390 | the rotary fields and token ids read back from their 28 bytes exactly when in range |
| `Bxw1Encode.NameExactly` | src/bxw1/src/table.rs:220-260 | a name decodes exactly when it is 1 to 63 printable bytes and the rest of its field is zero |
| `Bxw1Encode.RecordExactly` | src/bxw1/src/table.rs:81-134 | a record decodes exactly from its own 160 bytes and exactly when its values obey every rule |
| `Bxw1Table.DecodeShape` | src/bxw1/src/table.rs:153-216 | the shape loop equals the slot-by-slot rules |
| `Bxw1Table.DimsMeaning` | src/bxw1/src/table.rs:153-216 | no slot faults exactly when used slots are in range, unused ones zero and the product within its ceiling; the product overflow denial never fires |
| `Bxw1Table.DerivedLength` | src/bxw1/src/table.rs:261-312 | an F32 tensor has 4 bytes an element; a blocked one a scale plane of 4 bytes per 32 elements, padded to 128, and a quant plane of one byte an element, half that for Q4 |
| `Bxw1Table.DecodeName` | src/bxw1/src/table.rs:220-260 | an accepted name is 1 to 63 bytes and holds no terminator |
| `Bxw1Table.DecodeRecord` | src/bxw1/src/table.rs:81-134 | an accepted record obeys every shape, length and alignment rule |
| `Bxw1Table.WalkExtentMeaning` | src/bxw1/src/table.rs:320-368 | a step of the walk succeeds exactly when the extent starts at the rounded cursor and ends inside the blob; three of its denials never fire |
| `Bxw1Table.WalkIsCanonical` | src/bxw1/src/table.rs:320-377 | the one-cursor walk succeeds exactly on the canonical layout |
| `Bxw1Table.StructureIsCanonical` | src/bxw1/src/lib.rs:389-394 | on an accepted header the structural stage succeeds if and only if every offset and the total size are those computed from the record lengths |
| `Bxw1Table.CanonicalTiles` | src/bxw1/src/table.rs:295-377 | canonical extents are in order, pairwise disjoint, each less than 128 bytes past the one before, and end less than 128 bytes before the region's end |
| `Bxw1Names.ParseLayerIndex` | src/bxw1/src/names.rs:296-312 | the digit loop equals the positional value of one to three digits without a leading zero |
| `Bxw1Names.LayerIndexMeaning` | src/bxw1/src/names.rs:296-312 | a string reads as an index exactly when the index is below 1000 and the string is its canonical decimal spelling |
| `Bxw1Names.ClassifyMeaning` | src/bxw1/src/names.rs:267-289 | a name classifies to a slot exactly when it is that slot's one name and the slot's layer exists, so distinct names never share a slot |
| `Bxw1Names.SlotNameInjective` | src/bxw1/src/names.rs:267-289 | distinct slots, of any layer, have distinct names |
| `Bxw1Names.BitInjective` | src/bxw1/src/names.rs:90-102 | distinct slots have distinct bits |
| `Bxw1Names.BitInRange` | src/bxw1/src/names.rs:90-102 | every bit of a model within its layer ceiling is inside the bitmap |
| `Bxw1Names.SettingOneBit` | src/bxw1/src/names.rs:216-227 | setting one bit of a word changes that bit and no other |
| `Bxw1Names.SlotSet.constructor` | src/bxw1/src/names.rs:158-162 | a new bitmap is the empty set |
| `Bxw1Names.SlotSet.Insert` | src/bxw1/src/names.rs:166-177 | the word array refines a set: a new bit is added, a known one is a duplicate, one out of range is unknown |
| `Bxw1Names.SlotSet.Contains` | src/bxw1/src/names.rs:180-184 | tests membership of that set |
| `Bxw1Names.Admit` | src/bxw1/src/names.rs:231-264 | admission equals its specification on the set, success and every denial |
| `Bxw1Names.RequireComplete` | src/bxw1/src/names.rs:191-212 | the completeness loops succeed exactly when every required bit is present |
| `Bxw1Names.RequiredSize` | src/bxw1/src/header.rs:542-558 | the required bits number exactly the architecture's tensor count |
| `Bxw1Names.Pigeonhole` | src/bxw1/src/names.rs:191-213 | once the count matches and every record is admitted, the bits seen are exactly the required ones |
| `Bxw1Names.NamesUnique` | src/bxw1/src/names.rs:231-264 | no two admitted records carry the same required name |
| `Bxw1Names.DuplicateExactly` | src/bxw1/src/names.rs:166-177 | the duplicate denial is raised exactly when a repeated name is the first thing wrong; it implies a real repeat, and no table with a repeat is accepted |
| `Bxw1Payload.Hasher.Update` | src/bxw1/src/payload.rs:41-90 | the streaming hasher absorbs exactly the bytes given, in order |
| `Bxw1Payload.Hasher.Finalize` | src/bxw1/src/payload.rs:163-170 | its digest is the hash of everything absorbed |
| `Bxw1Payload.VerifyContent` | src/bxw1/src/payload.rs:120-148 | the scanning loops report the first content rule broken, or none |
| `Bxw1Payload.ContentFault` | src/bxw1/src/payload.rs:120-148 | content checking can deny only for a scale, an element or a pad |
| `Bxw1Payload.VerifyStep` | src/bxw1/src/payload.rs:60-76 | one record's step feeds the whole-blob hasher up to the end of its extent |
| `Bxw1Payload.Verify` | src/bxw1/src/payload.rs:41-90 | the pass hashes the blob's bytes each exactly once in order, and denies only for a nonzero pad, a digest mismatch or bad content |
| `Bxw1Payload.ContentMeaning` | src/bxw1/src/payload.rs:120-148 | content has no fault exactly when an F32 payload is all finite, or a blocked one has positive finite scales and a zero plane pad |
| `Bxw1Payload.ContentByBytes` | src/bxw1/src/payload.rs:120-148 | the finite-element and positive-scale rules in the bytes of every word |
| `Bxw1Payload.PayloadMeaning` | src/bxw1/src/payload.rs:41-148 | the pass finds no fault exactly when every tensor matches its digest and content rules and every pad byte is zero, each said of the blob's bytes |
| `Bxw1Blob.Parse` | src/bxw1/src/lib.rs:369-411 | the loader equals its stages in order |
| `Bxw1Blob.WalkStructure` | src/bxw1/src/lib.rs:389-394 | the extent loop equals the recursive walk |
| `Bxw1Blob.AdmitAll` | src/bxw1/src/lib.rs:396-400 | the name loop equals the recursive admission |
| `Bxw1Blob.NeverMissing` | src/bxw1/src/lib.rs:396-402 | the missing-tensor denial has no input |
| `Bxw1Blob.AcceptedMeaning` | src/bxw1/src/lib.rs:369-411 | an accepted blob is canonical, complete, fault-free and hashed whole |
| `Bxw1Blob.AcceptanceExactly` | src/bxw1/src/lib.rs:369-411 | the loader accepts exactly the blobs that open with the bytes of an admissible header, match the table digest, are canonically laid out with zero padding, give every required name once with its shape, and whose tensors match their digests and content rules |
| `Bxw1Names.NamesExactly` | src/bxw1/src/names.rs:231-264 | the name pass succeeds exactly when every record is admissible alone and no name is used twice |
| `Bxw1Names.NamesMeaning` | src/bxw1/src/names.rs:231-264 | the name pass succeeds exactly when every record decodes, spells the name of a required slot with the shape and dtype the header dictates for it, and no two share a name |
| `Bxw1Shapes.NamedMeaning` | src/bxw1/src/names.rs:105-147 | the name pass's condition said literally: every record has a required name, spelled out, and the shape and dtype that name demands, and no two share a name |
| `Bxw1Shapes.TensorFits` | src/bxw1/src/names.rs:117-147 | the tensors compose: wq, wk, wv, w1 and w3 take dModel columns, wo and w2 give dModel rows, inner widths match, both ends are vocabSize by dModel, norms are F32 vectors of dModel |
| `Bxw1Denials.HeaderDenial` | src/bxw1/src/header.rs:136-170 | a header is refused only for a rule that its own fields, each at its offset, break |
| `Bxw1Denials.RecordDenial` | src/bxw1/src/table.rs:81-134 | a record is refused only for a rule that its own 160 bytes break |
| `Bxw1Denials.EveryDenialIsTrue` | src/bxw1/src/lib.rs:369-411 | whatever the loader denies a blob with, in any stage, is a rule that the blob's bytes really break |
| `Bxw1Build.BuiltIsCanonical` | src/bxw1/tests/common/mod.rs:351-363 | the builder's layout loop gives the canonical layout |
| `Bxw1Build.PayloadIsClean` | src/bxw1/tests/common/mod.rs:365-370 | the payload pass finds no fault in the bytes a builder lays out |
| `Bxw1Build.BuiltBlobLoads` | src/bxw1/tests/common/mod.rs:351-385 | every blob built from a complete set of valid tensors for a valid model is accepted, with the header and table written and the hash of every byte |
| `Bxw1Build.BuiltTensorsReadBack` | src/bxw1/src/lib.rs:439-455 | reading any tensor of a built blob gives back the tensor it was built from |
| `Bxw1Build.LoadedBlobIsBuilt` | src/bxw1/tests/common/mod.rs:351-385 | the other way round: every accepted blob is byte for byte the blob built from the model and tensors read out of it, and those are valid and complete |
| `Bxw1Build.LoadingIsInjective` | src/bxw1/src/lib.rs:369-411 | two accepted blobs with the same model and the same tensors in order are the same bytes |
| `Bxw1Blob.TensorAt` | src/bxw1/src/lib.rs:439-455 | every index below the count reads its tensor, every other is out of range |
| `Bxw1Blob.RequiredTensor` | src/bxw1/src/lib.rs:462-470 | on an accepted blob every required slot has exactly one tensor |
| `Bxw1Blob.TensorByName` | src/bxw1/src/lib.rs:462-470 | the scan succeeds exactly on the required names, spelled out, and returns the one tensor so named, with the shape and dtype its name demands |
| `BspWire.FieldReader.constructor` | src/bsp/src/raw.rs:62-64 | a new reader has everything left to read |
| `BspWire.FieldReader.Take` | src/bsp/src/raw.rs:67-78 | takes the front of what is left, or denies and stays |
| `BspWire.FieldReader.TakeBoundedVarBytes` | src/bsp/src/raw.rs:125-146 | length prefix, maximum, then presence, in that order |
| `BspWire.FieldReader.Finish` | src/bsp/src/raw.rs:153-158 | succeeds exactly when nothing is left |
| `BspWire.ResponseWriter.constructor` | src/bsp/src/raw.rs:173-175 | a new writer has written nothing |
| `BspWire.ResponseWriter.PushBytes` | src/bsp/src/raw.rs:178-215 | appends exactly the bytes given when they fit, or denies and changes nothing |
| `BspMessage.DecodeBegin` | src/bsp/src/message.rs:164-192 | reading field by field gives the begin at its fixed offsets, or the first denial |
| `BspMessage.DecodeChunk` | src/bsp/src/message.rs:262-268 | reading field by field gives the chunk or the first denial |
| `BspMessage.DecodeClientRequest` | src/bsp/src/message.rs:238-259 | dispatch by tag after the range check |
| `BspMessage.ClientCanonical` | bin/generate-bsp-fuzz-corpus.py:312-333 | a payload decodes to a request exactly when it is that request's encoding and the request is within its ceilings |
| `BspMessage.DecodeEnroll` | src/bsp/src/admin.rs:249-260 | the role byte is judged before the key material |
| `BspMessage.DecodeRevoke` | src/bsp/src/admin.rs:263-269 | a handle of exactly 16 bytes |
| `BspMessage.DecodeLoad` | src/bsp/src/admin.rs:272-281 | a digest of exactly 32 bytes |
| `BspMessage.DecodeAudit` | src/bsp/src/admin.rs:284-307 | a cursor and a bounded record count |
| `BspMessage.DecodeRestart` | src/bsp/src/admin.rs:310-316 | an enumerated target and nothing after it |
| `BspMessage.DecodeAdminVerb` | src/bsp/src/admin.rs:226-246 | dispatch by tag after the range check |
| `BspMessage.AdminCanonical` | bin/generate-bsp-fuzz-corpus.py:331-345 | a payload decodes to a verb exactly when it is that verb's encoding and within its ceiling |
| `BspMessage.DecodingIsUnambiguous` | src/bsp/src/message.rs:70-105 | both decoders are injective and no payload is accepted by both |
| `BspRecord.PacketLengthOf` | src/bsp/src/record.rs:77-86 | accepts exactly lengths 2 to 35000 |
| `BspRecord.SplitDataRecord` | src/bsp/src/record.rs:95-154 | splits exactly when the whole record has arrived, and the parts are the stream's |
| `BspRecord.PaddingFor` | src/bsp/src/record.rs:242-267 | padding is 4 to 11 bytes and fills the last block |
| `BspRecord.FramePlaintext` | bin/generate-bsp-fuzz-corpus.py:201-206 | the generator's counting loop frames with the block-arithmetic padding |
| `BspRecord.DecodeMeaning` | src/bsp/src/record.rs:172-220 | a plaintext decodes to a payload exactly when it has the declared, block-aligned length and is that payload framed by at least 4 padding bytes and within the bound |
| `BspRecord.FramingRoundTrip` | src/bsp/src/record.rs:172-238 | every payload up to 4096 bytes, framed, decodes to itself |
| `BspRecord.WritePadding` | src/bsp/src/record.rs:270-277 | appends zero bytes one at a time, or denies where the buffer ends |
| `BspRecord.EncodeRecordPlaintext` | src/bsp/src/record.rs:230-238 | writes the frame and nothing past it; denies exactly when the payload is over the bound or the buffer shorter than the frame |
| `BspRecord.SequenceCounter.constructor` | src/bsp/src/record.rs:294-296 | a new counter stands at zero |
| `BspRecord.SequenceCounter.Advance` | src/bsp/src/record.rs:347-356 | adds exactly one, giving a different nonce, or denies and stays; never wraps |
| `BspRecord.NonceInjective` | src/bsp/src/record.rs:322-324 | different sequence numbers never share a nonce |
| `BspRecord.NonceLayout` | src/bsp/src/record.rs:316-324 | the nonce is four zero bytes and the sequence number, most significant byte first |
| `BspResponse.ReasonFrom` | src/bsp/src/response.rs:61-83 | inverts the finish-reason byte |
| `BspResponse.PushBoundedVarBytes` | src/bsp/src/raw.rs:218-230 | judges the maximum before writing any of the field |
| `BspResponse.EncodeClient` | src/bsp/src/response.rs:123-175 | writes exactly the encoding and nothing past it; says when it denies and with what; the record bound never fires |
| `BspResponse.EncodeAdmin` | src/bsp/src/response.rs:218-304 | writes exactly the encoding and nothing past it; says when it denies and with what; the record bound never fires |
| `BspResponse.EncodingsAreBounded` | src/bsp/src/response.rs:306-320 | every response within its own chunk maximum is shorter than one record |
| `BspResponse.ClientInjective` | src/bsp/src/response.rs:133-175 | distinct client responses never encode alike |
| `BspResponse.AdminInjective` | src/bsp/src/response.rs:228-304 | distinct admin responses never encode alike |
| `BspReceiver.ClientReadsBack` | src/bsp/src/response.rs:133-175 | a reader by tag and offset reads back each client response from exactly its own bytes |
| `BspReceiver.AdminReadsBack` | src/bsp/src/response.rs:228-304 | a reader by tag and offset reads back each admin response from exactly its own bytes |
| `BspResponse.ResponsesAreNotRequests` | src/bsp/src/message.rs:70-105 | no client response encodes as an admin one, and both inbound decoders refuse every response as wrong-direction |
| `BspHandshake.DecodeHello` | src/bsp/src/handshake.rs:75-137 | length, then magic, versions and reserved, then the opaque fields |
| `BspHandshake.DecodeAuth` | src/bsp/src/handshake.rs:211-220 | exactly 32 bytes |
| `BspHandshake.HelloCanonical` | src/bsp/src/handshake.rs:75-137 | exactly one byte string decodes to each hello |
| `BspSession.Session.constructor` | src/bsp/src/session.rs:128-134 | a new session waits for a hello, with no capability and no request |
| `BspSession.Session.CloseSession` | src/bsp/src/session.rs:264-268 | closing clears all three fields |
| `BspSession.Session.DenyWith` | src/bsp/src/session.rs:288-293 | a drop closes, a kept error changes nothing |
| `BspSession.Session.RequireState` | src/bsp/src/session.rs:271-276 | passes in the expected state, otherwise denies |
| `BspSession.Session.RequireEstablished` | src/bsp/src/session.rs:279-285 | passes when established and tells closed from not yet |
| `BspSession.Session.Record` | src/bsp/src/session.rs:296-301 | passes a success and applies a failure's disposition |
| `BspSession.Session.AcceptClientHello` | src/bsp/src/session.rs:162-170 | updates the fields as the step function says |
| `BspSession.Session.AcceptClientAuth` | src/bsp/src/session.rs:179-187 | updates the fields as the step function says |
| `BspSession.Session.EstablishAs` | src/bsp/src/session.rs:200-208 | updates the fields as the step function says |
| `BspSession.Session.AcceptMessage` | src/bsp/src/session.rs:218-248 | dispatches on the granted type and updates the fields as the step function says |
| `BspSession.Session.Apply` | src/bsp/src/session.rs:251-256 | moves to the next phase or closes |
| `BspSession.EveryRunIsSafe` | src/bsp/src/session.rs:162-302 | in every run a capability exists exactly while established, a request only on a client session, and an open prompt is within its declared length and the buffer |
| `BspReplies.AnswersExactly` | src/bsp/src/error.rs:355-400 | a denial is answered with an error code exactly for the messages, spelled out in bytes and phases, that get that code |
| `BspReplies.DenialsExactly` | src/bsp/src/session.rs:287-301 | a denied event leaves a live session as it was exactly when it is one of those answered with an error, and closes it otherwise |
| `BspReplies.TakesExactly` | src/bsp/src/session.rs:162-407 | which event each accepted outcome comes from, in which state and from which bytes, and exactly the session it leaves |
| `BspReplies.EveryDenialIsTrue` | src/bsp/src/session.rs:162-442 | in every run, whatever an event is denied with is really wrong with its bytes, its phase or its session |
| `BspSession.ClosedIsAbsorbing` | src/bsp/src/session.rs:264-285 | once closed, a run stays closed and accepts nothing |
| `BspSession.CapabilityIsFrozen` | src/bsp/src/session.rs:189-208 | a granted capability stays the same until close |
| `BspSession.GrantBefore` | src/bsp/src/session.rs:162-208 | every capability was granted by an establish with that type, after an accepted auth, after an accepted hello |
| `BspSession.MessagesNeedTheirGrant` | src/bsp/src/session.rs:210-248 | every accepted request follows a client grant and every accepted verb an admin grant |
| `BspSession.OneRequestInFlight` | src/bsp/src/session.rs:321-327 | between two accepted begins the first request was cancelled |
| `BspSession.ErasureIsInvisible` | src/bsp/src/session.rs:287-301 | deleting every kept denial from a run leaves the same accepted outcomes, in order, and the same session |
| `BspSession.Reassembly` | src/bsp/src/session.rs:392-406 | an open request's accumulator is exactly the prompt bytes accepted since its begin, all of its own id |
| `BspSession.PromptNeverOverruns` | src/bsp/src/session.rs:424-442 | at no earlier point did the prompt exceed what was declared |
| `BspSession.CommitConservesPrompt` | src/bsp/src/session.rs:309-407 | whenever a commit is accepted, the requests since its begin are chunks of that id whose bytes number exactly the declared length, at most 16384 |
| `BspSession.ExactPromptCommits` | src/bsp/src/session.rs:309-407 | from an idle client session, a begin within its limits and any chunks adding up to its length are all taken and committed |
| `BspSession.StreamingLeavesByCancelOrClose` | src/bsp/src/session.rs:309-390 | a stream ends only by its own cancel or by the session closing |
| `BspSession.OverflowIsUnreachable` | src/bsp/src/session.rs:329-337 | in no run does the overflow or the prompt-buffer denial occur |
| `BootArgs.WindowMeaning` | src/adt/src/boot_args.rs:159-242 | a window is returned exactly when the words at its own offsets of the slice give it: aligned, large enough, inside the reported memory and congruent to the virtual offset modulo 2^64 |
| `BootArgs.AddressArithmeticNeverDenies` | src/adt/src/boot_args.rs:77-83 | the two address-arithmetic errors have no input |
| `BootArgs.FramebufferMeaning` | src/adt/src/boot_args.rs:358-414 | a framebuffer is returned exactly when valid, with each field from its own offset |
| `BootArgs.PixelOffsetMeaning` | src/adt/src/boot_args.rs:306-330 | in an accepted framebuffer a pixel has an offset exactly when visible, and its four bytes lie inside the span |
| `BootArgs.CellsAreDisjoint` | src/adt/src/boot_args.rs:306-330 | distinct visible pixels never share a byte |
| `Paint.Surface.PutU32` | src/boot-stub-apple/src/paint.rs:42-45 | writes four little-endian bytes and no other |
| `Paint.PaintRow` | src/boot-stub-apple/src/paint.rs:82-90 | on any surface that accepts the framebuffer's offsets, the inner loop colours one whole row and adds the number of its pixels |
| `Paint.Stripe` | src/boot-stub-apple/src/paint.rs:68-92 | on any such surface the loops colour exactly the band's visible rows and return the saturated number of points in them; a band off the panel or past the address width paints nothing |
| `Paint.Progress` | src/boot-stub-apple/src/paint.rs:99-113 | on any such surface it paints the reached stages and returns the saturated number of points in the painted set |
| `Paint.SpanIsAccepted` | src/adt/src/boot_args.rs:306-330 | a surface holding an accepted framebuffer's span takes every offset the framebuffer gives |
| `Paint.PaintedArea` | src/boot-stub-apple/src/paint.rs:99-113 | for an accepted framebuffer that number is the width times the rows covered and never saturates |
| `Paint.PaintedPixels` | src/boot-stub-apple/src/paint.rs:94-113 | afterwards exactly the visible pixels of the counted set hold their stage colour, red for the last when denied, and every other pixel is as before |
| `Paint.ProgressPicture` | src/boot-stub-apple/src/paint.rs:48-113 | the picture in bytes: a white, a cyan and a green stripe of 64 rows for the stages reached, red in place of the last when denied, every other pixel as before |
| `Paint.PaintedElsewhere` | src/boot-stub-apple/src/paint.rs:94-113 | no byte outside those pixels is written, row padding included |
| `Multiboot2.RoundUp` | src/bootloader/src/multiboot2_info.rs:172-174 | rounds up to 8 when the 32-bit sum does not wrap |
| `Multiboot2.StringMatches` | src/bootloader/src/multiboot2_info.rs:155-164 | for any name, reads no further than the first difference and matches exactly when the name and a terminator stand at the address |
| `Multiboot2.TagMatchesModuleName` | src/bootloader/src/multiboot2_info.rs:102-109 | for any name, matches exactly non-empty modules whose string spells it |
| `Multiboot2.InspectTag` | src/bootloader/src/multiboot2_info.rs:129-153 | for any name, returns the location exactly of such a module |
| `Multiboot2.Advance` | src/bootloader/src/multiboot2_info.rs:166-170 | moves to the next tag |
| `Multiboot2.FindModuleByName` | src/bootloader/src/multiboot2_info.rs:61-69 | for any name, returns the location of the first such tag |
| `Multiboot2.FindModuleTagAddressByName` | src/bootloader/src/multiboot2_info.rs:78-100 | for any name, returns the address of that same first tag |
| `Multiboot2.NulFreeWalk` | src/bootloader/src/multiboot2_info.rs:88-164 | for a name without a NUL byte every comparison stays inside its tag, and the first tag is the first whose own name it is |
| `Relocation.FirstIsEarliest` | src/bootloader/src/multiboot2_info.rs:88-127 | no matching tag is missed and none earlier is skipped |
| `Relocation.LookupExactly` | src/bootloader/src/multiboot2_info.rs:52-170 | a name is looked up to the range in the first module tag, in bytes, that has a non-empty range and that name, and to nothing when no tag has |
| `Relocation.TagIsLocal` | src/bootloader/src/multiboot2_info.rs:129-170 | a tag's answers depend on its own bytes alone |
| `Relocation.RewriteWalk` | src/bootloader/src/main.rs:169-174 | repointing one module disturbs no lookup but its own location |
| `Relocation.RewriteKeepsLookups` | src/bootloader/src/main.rs:169-174 | a rewritten structure is well formed and resolves every other name as before |
| `Relocation.CopyBytes` | src/bootloader/src/main.rs:221-230 | for any two ranges, however they overlap, the loop computes the byte-at-a-time forward copy |
| `Relocation.ForwardRepeats` | src/bootloader/src/main.rs:221-230 | copied upwards onto itself, the source repeats with the distance as its period |
| `Relocation.ForwardExactly` | src/bootloader/src/main.rs:221-230 | the copy is faithful if and only if it moves down or the source already repeats with that period |
| `Relocation.RewriteModuleTagAddresses` | src/bootloader/src/main.rs:169-174 | rewrites exactly the two address words, with the source's 32-bit truncation |
| `Relocation.CopyInfoToScratch` | src/bootloader/src/main.rs:209-218 | copies the number of bytes the structure declares to its scratch address, whatever the overlap |
| `Relocation.CopyShellModuleAndRewriteTag` | src/bootloader/src/main.rs:160-166 | copies the shell, whatever the overlap, and repoints its tag |
| `Relocation.RelocateShell` | src/bootloader/src/main.rs:148-157 | relocates the shell the structure names, or changes nothing when there is none |
| `Relocation.Stage` | src/bootloader/src/main.rs:124-157 | the two staging steps in order give the staged memory whenever the copied structure can be walked and the shell it names lies in memory |
| `Relocation.PlacedIsReady` | src/bootloader/src/main.rs:124-157 | when the scratch ranges are clear of what they receive, the structure is copied faithfully and staging can go on |
| `Relocation.StagingPreservesLookups` | src/bootloader/src/main.rs:148-230 | after staging, the scratch structure is well formed, the shell resolves to its scratch range and every other name resolves as before |
| `Relocation.StagingPreservesBytes` | src/bootloader/src/main.rs:148-230 | the shell's scratch range holds its original bytes and nothing outside the two scratch ranges changed |

## Left out

- Multiboot2.FindModuleByName: needs the well-formed structure the source's safety section demands (a tag of size 0 would make its loop endless), and memory that reaches as far as each comparison reads, which `NulFreeWalk` gives for every name without a NUL byte.
- Multiboot2.FindModuleTagAddressByName: needs the same.
- Relocation.Stage: needs the copied structure to be well formed and the shell it names to lie in memory; what the walkers do on a structure spoilt by its own copy is not modelled.
- Relocation.StagingPreservesLookups: stated where the scratch ranges are clear of what they receive and below 4 GiB; `ForwardExactly` says what a copy that overlaps does instead.
- Bxw1Denials.EveryDenialIsTrue: a blob that breaks several rules is denied for one of them; which comes first is in the code's order of checks and is stated only for a repeated name (`Bxw1Names.DuplicateExactly`).
- BspReplies.EveryDenialIsTrue: a message with several things wrong is denied for one of them; the order among those that close the session is the code's.
- BspWire.ResponseWriter.PushBytes: a sequence of pushes that denies part way has already written its earlier fields; the encoders say nothing of the buffer's contents when they deny, because a caller gets no byte count then.
- Bxw1Names.SlotSet.Insert: the bitmap's words are integers with an arithmetic bit test and bit set rather than bit-vectors.
- Bxw1Encode.RopeExactly: the rotary and epsilon ranges are compared on binary32 bit patterns, which order positive floats as their values do; float arithmetic is not modelled.
- Bxw1Build.BuiltBlobLoads: the builder writes any valid payload, rotary fields and vocabulary fields, where the repository's fixture writes fixed ones, and it is a function on values where the fixture fills a vector in place.
- transport-crypto, servd, tensor, tokenizer, transformer and kernel code are not part of this model.
- SHA-256, ChaCha20, Poly1305 and HKDF: cryptography is a parameter or absent.
- `ServerHello`, `SequenceCounter::at` and `is_exhausted`, and error-to-wire code numbers are one-line mappings with nothing to prove.
- `src/aarch64-mmu` is one branch-free encoder with nothing to prove beyond its own bit layout.
- `src/bootloader/src/elf_loader.rs` and the assembly entry code depend on the machine rather than on logic.
- UART, DockChannel and console drivers are device polling.
- The verification crates, fuzz targets and `bin/` scripts other than the two corpus encoders are tooling.
