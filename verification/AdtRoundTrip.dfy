/**
 The corpus generator's tree encoder, and the two laws that tie it to the decoder:
 what it prints is read back unchanged, and bytes past the tree never matter.
 */
module AdtRoundTrip {
  import opened Results
  import opened Bytes
  import opened AdtRaw
  import opened AdtNode

  datatype Prop = Prop(name: seq<u8>, value: seq<u8>)

  datatype Tree = Tree(props: seq<Prop>, kids: seq<Tree>)

  // ---- Printing -----------------------------------------------------------

  function PadTo4(n: nat): (pad: nat)
    ensures pad < 4 && (n + pad) % 4 == 0
  {
    (4 - n % 4) % 4
  }

  predicate Printable(p: Prop) {
    |p.name| < PROPERTY_NAME_LEN && 0 !in p.name && |p.value| <= MAX_VALUE_LEN
  }

  function PropBytes(p: Prop): (bytes: seq<u8>)
    requires |p.name| < PROPERTY_NAME_LEN
    ensures |bytes| == 36 + |p.value| + PadTo4(|p.value|)
  {
    p.name + Zeros(PROPERTY_NAME_LEN - |p.name|) + LeBytes(|p.value|, 4) + p.value + Zeros(PadTo4(|p.value|))
  }

  /** Padding one byte at a time reaches a word boundary after exactly `PadTo4` bytes. */
  lemma PaddingStops(n: nat, pad: nat)
    requires pad <= PadTo4(n)
    ensures (36 + n + pad) % 4 == 0 <==> pad == PadTo4(n)
  {
  }

  /** The generator's `prop`: fill the name field, append the value, pad to a word. */
  method PrintProp(name: seq<u8>, value: seq<u8>) returns (out: seq<u8>)
    requires |name| < PROPERTY_NAME_LEN
    ensures out == PropBytes(Prop(name, value))
  {
    hide LeBytes, PadTo4;
    out := name + Zeros(PROPERTY_NAME_LEN - |name|) + LeBytes(|value|, 4) + value;
    ghost var unpadded := out;
    var pad := 0;
    PaddingStops(|value|, 0);
    while |out| % 4 != 0
      invariant 0 <= pad <= PadTo4(|value|)
      invariant |out| == 36 + |value| + pad && out == unpadded + Zeros(pad)
      invariant |out| % 4 == 0 <==> pad == PadTo4(|value|)
      decreases PadTo4(|value|) - pad
    {
      out := out + [0];
      pad := pad + 1;
      PaddingStops(|value|, pad);
    }
  }

  predicate AllPrintable(props: seq<Prop>) {
    forall i :: 0 <= i < |props| ==> Printable(props[i])
  }

  function PropsBytes(props: seq<Prop>): (bytes: seq<u8>)
    requires AllPrintable(props)
  {
    if props == [] then [] else PropBytes(props[0]) + PropsBytes(props[1..])
  }

  lemma PropSize(p: Prop)
    requires |p.name| < PROPERTY_NAME_LEN
    ensures |PropBytes(p)| >= 36 && |PropBytes(p)| % 4 == 0
  {
    hide PropBytes, PadTo4;
    PaddingStops(|p.value|, PadTo4(|p.value|));
  }

  lemma WordsAddUp(a: nat, b: nat)
    requires a % 4 == 0 && b % 4 == 0
    ensures (a + b) % 4 == 0
  {
  }

  lemma {:induction false} PropsSize(props: seq<Prop>)
    requires AllPrintable(props)
    ensures |PropsBytes(props)| >= 36 * |props| && |PropsBytes(props)| % 4 == 0
  {
    hide PropBytes;
    if props != [] {
      PropSize(props[0]);
      PropsSize(props[1..]);
      WordsAddUp(|PropBytes(props[0])|, |PropsBytes(props[1..])|);
    }
  }

  /** Within the decoder's count, name, value and depth limits. */
  predicate Fits(t: Tree, limit: nat)
    decreases limit
  {
    && 1 <= |t.props| <= MAX_PROPERTY_COUNT && |t.kids| <= MAX_CHILD_COUNT
    && AllPrintable(t.props)
    && (t.kids == [] || (limit > 0 && forall i :: 0 <= i < |t.kids| ==> Fits(t.kids[i], limit - 1)))
  }

  predicate AllFit(kids: seq<Tree>, limit: nat) {
    forall i :: 0 <= i < |kids| ==> Fits(kids[i], limit)
  }

  function Forest(t: Tree, limit: nat): (bytes: seq<u8>)
    requires Fits(t, limit)
    decreases limit, 0
  {
    if t.kids == [] then [] else ForestBytes(t.kids, limit - 1)
  }

  function TreeBytes(t: Tree, limit: nat): (bytes: seq<u8>)
    requires Fits(t, limit)
    decreases limit, 1
  {
    LeBytes(|t.props|, 4) + LeBytes(|t.kids|, 4) + PropsBytes(t.props)
    + Forest(t, limit)
  }

  function ForestBytes(kids: seq<Tree>, limit: nat): (bytes: seq<u8>)
    requires AllFit(kids, limit)
    decreases limit, |kids| + 2
  {
    if kids == [] then [] else TreeBytes(kids[0], limit) + ForestBytes(kids[1..], limit)
  }

  lemma {:induction false} TreeSize(t: Tree, limit: nat)
    requires Fits(t, limit)
    ensures |TreeBytes(t, limit)| >= MIN_NODE_LEN && |TreeBytes(t, limit)| % 4 == 0
    ensures |TreeBytes(t, limit)| == 8 + |PropsBytes(t.props)| + |Forest(t, limit)|
    ensures |Forest(t, limit)| >= MIN_NODE_LEN * |t.kids|
    decreases limit, 1
  {
    hide LeBytes, PropsBytes, ForestBytes, Printable;
    PropsSize(t.props);
    if t.kids != [] {
      ForestSize(t.kids, limit - 1);
    }
    WordsAddUp(8 + |PropsBytes(t.props)|, |Forest(t, limit)|);
  }

  lemma {:induction false} ForestSize(kids: seq<Tree>, limit: nat)
    requires AllFit(kids, limit)
    ensures |ForestBytes(kids, limit)| >= MIN_NODE_LEN * |kids| && |ForestBytes(kids, limit)| % 4 == 0
    decreases limit, |kids| + 2
  {
    hide Fits, TreeBytes;
    if kids != [] {
      TreeSize(kids[0], limit);
      ForestSize(kids[1..], limit);
      WordsAddUp(|TreeBytes(kids[0], limit)|, |ForestBytes(kids[1..], limit)|);
    }
  }

  // ---- Reading back through the cursors -----------------------------------

  function ReadProps(items: seq<Result<Property, AdtError>>): (r: Result<seq<Prop>, AdtError>) {
    if items == [] then Ok([])
    else
      var p :- items[0];
      var rest :- ReadProps(items[1..]);
      Ok([Prop(p.Name(), p.value)] + rest)
  }

  /** The tree a consumer sees by draining both iterators of every node. */
  function ReadTree(blob: Slice, node: Node, limit: nat): (r: Result<Tree, AdtError>)
    decreases limit, 0
  {
    var items :- PropertiesOf(blob, node);
    var props :- ReadProps(items);
    var kids :- ChildrenOf(blob, node);
    if kids == [] then Ok(Tree(props, []))
    else if limit == 0 then Err(DepthLimitExceeded)
    else
      var forest :- ReadForest(blob, kids, limit - 1);
      Ok(Tree(props, forest))
  }

  function ReadForest(blob: Slice, items: seq<Result<Node, AdtError>>, limit: nat): (r: Result<seq<Tree>, AdtError>)
    decreases limit, |items| + 1
  {
    if items == [] then Ok([])
    else
      var node :- items[0];
      var tree :- ReadTree(blob, node, limit);
      var rest :- ReadForest(blob, items[1..], limit);
      Ok([tree] + rest)
  }

  // ---- Round trip -----------------------------------------------------------

  lemma ReadBack(blob: Slice, offset: nat, v: nat)
    requires v < TWO_32 && Part(blob, offset, LeBytes(v, 4))
    ensures offset < TWO_64 && ReadU32Le(blob, offset) == Some(v)
  {
    hide LeValue, LeBytes;
    PowWidths();
    LeRoundTrip(v, 4);
  }

  lemma PropReads(blob: Slice, offset: nat, p: Prop)
    requires Printable(p) && offset % 4 == 0 && Part(blob, offset, PropBytes(p))
    ensures DecodeProperty(blob, offset)
         == Ok(RawProperty(p.name + Zeros(32 - |p.name|), p.value, offset + |PropBytes(p)|))
  {
    hide PropBytes, DecodeProperty, Part, RecordEnd, ReadU32Le;
    PartIs(blob, offset, PropBytes(p));
    PropEnd(p, offset);
    PropParts(blob, offset, p);
    PropertyIntro(blob, offset, |p.value|);
  }

  lemma PropEnd(p: Prop, offset: nat)
    requires Printable(p) && offset % 4 == 0 && offset <= ISIZE_MAX
    ensures RecordEnd(offset, |p.value|) == offset + |PropBytes(p)|
  {
  }

  /** The name field, length word and value of a printed property. */
  lemma PropParts(blob: Slice, offset: nat, p: Prop)
    requires Printable(p) && Part(blob, offset, PropBytes(p))
    ensures offset + 36 + |p.value| <= |blob|
    ensures blob[offset..offset + 32] == p.name + Zeros(32 - |p.name|) && blob[offset + 31] == 0
    ensures ReadU32Le(blob, offset + 32) == Some(|p.value|)
    ensures blob[offset + 36..offset + 36 + |p.value|] == p.value
  {
    hide LeValue, LeBytes, ReadU32Le, DecodeProperty, Part, RecordEnd;
    var name, pad := p.name + Zeros(32 - |p.name|), Zeros(PadTo4(|p.value|));
    assert PropBytes(p) == name + (LeBytes(|p.value|, 4) + (p.value + pad));
    PartSplit(blob, offset, name, LeBytes(|p.value|, 4) + (p.value + pad));
    PartSplit(blob, offset + 32, LeBytes(|p.value|, 4), p.value + pad);
    PartSplit(blob, offset + 36, p.value, pad);
    PartIs(blob, offset, name);
    PartIs(blob, offset + 36, p.value);
    assert blob[offset + 31] == name[31];
    ReadBack(blob, offset + 32, |p.value|);
  }

  lemma FieldName(p: Prop)
    requires Printable(p)
    ensures Property(p.name + Zeros(32 - |p.name|), p.value).Name() == p.name
  {
    var field := p.name + Zeros(32 - |p.name|);
    assert field[..|p.name|] == p.name;
    PositionUnique(field, 0, |p.name|);
  }

  /** Draining one more property puts it in front of the rest. */
  lemma ReadsProp(blob: Slice, offset: usize, raw: RawProperty, rest: seq<Prop>)
    requires DecodeProperty(blob, offset) == Ok(raw)
    requires ReadProps(PropertyItems(blob, raw.end, |rest|)) == Ok(rest)
    ensures PropertiesEnd(blob, offset, 1 + |rest|) == PropertiesEnd(blob, raw.end, |rest|)
    ensures ReadProps(PropertyItems(blob, offset, 1 + |rest|))
         == Ok([Prop(Property(raw.name, raw.value).Name(), raw.value)] + rest)
  {
    hide DecodeProperty, IsStructural, Position;
    var items := PropertyItems(blob, offset, 1 + |rest|);
    assert items[1..] == PropertyItems(blob, raw.end, |rest|);
  }

  /** `props` are what draining the property run at `offset` gives, and where it ends. */
  ghost predicate PropsAreRead(blob: Slice, offset: nat, props: seq<Prop>, end: nat) {
    && offset < TWO_64 && end < TWO_64 && PropertiesEnd(blob, offset, |props|) == Ok(end)
    && ReadProps(PropertyItems(blob, offset, |props|)) == Ok(props)
  }

  lemma NoPropsAreRead(blob: Slice, offset: nat)
    requires offset < TWO_64
    ensures PropsAreRead(blob, offset, [], offset)
  {
  }

  lemma PrintedPropIsRead(blob: Slice, offset: nat, p: Prop, rest: seq<Prop>, end: nat)
    requires Printable(p) && offset % 4 == 0 && Part(blob, offset, PropBytes(p))
    requires PropsAreRead(blob, offset + |PropBytes(p)|, rest, end)
    ensures PropsAreRead(blob, offset, [p] + rest, end)
  {
    hide DecodeProperty, PropBytes, Part, PropertiesEnd, PropertyItems, ReadProps, Property.Name;
    PropReads(blob, offset, p);
    FieldName(p);
    ReadsProp(blob, offset, DecodeProperty(blob, offset).value, rest);
  }

  lemma {:induction false} PropsRead(blob: Slice, offset: nat, props: seq<Prop>)
    requires AllPrintable(props)
    requires offset % 4 == 0 && Part(blob, offset, PropsBytes(props))
    ensures PropsAreRead(blob, offset, props, offset + |PropsBytes(props)|)
    decreases |props|
  {
    hide PropBytes, Part, PropsAreRead;
    PartFits(blob, offset, PropsBytes(props));
    if props == [] {
      NoPropsAreRead(blob, offset);
    } else {
      var p, rest := props[0], props[1..];
      var next := offset + |PropBytes(p)|;
      PartSplit(blob, offset, PropBytes(p), PropsBytes(rest));
      PropSize(p);
      WordsAddUp(offset, |PropBytes(p)|);
      PropsRead(blob, next, rest);
      PrintedPropIsRead(blob, offset, p, rest, next + |PropsBytes(rest)|);
      assert props == [p] + rest;
    }
  }

  lemma PartFits(s: seq<u8>, at: nat, part: seq<u8>)
    requires Part(s, at, part)
    ensures at + |part| <= |s|
  {
  }

  lemma HeaderReads(blob: Slice, offset: nat, t: Tree, limit: nat)
    requires Fits(t, limit) && offset % 4 == 0 && Part(blob, offset, TreeBytes(t, limit))
    ensures offset + |TreeBytes(t, limit)| <= |blob|
    ensures AllPrintable(t.props) && (t.kids != [] ==> limit > 0 && AllFit(t.kids, limit - 1))
    ensures DecodeNodeHeader(blob, offset) == Ok(NodeHeader(|t.props|, |t.kids|))
    ensures Part(blob, offset + 8, PropsBytes(t.props))
    ensures |TreeBytes(t, limit)| == 8 + |PropsBytes(t.props)| + |Forest(t, limit)|
    ensures Part(blob, offset + 8 + |PropsBytes(t.props)|, Forest(t, limit))
  {
    hide LeValue, LeBytes, ReadU32Le, Fits, TreeBytes, Forest, PropsBytes, Part, DecodeNodeHeader;
    hide AllPrintable, AllFit;
    FitsCounts(t, limit);
    TreeBytesAre(t, limit);
    TreeSize(t, limit);
    PropsSize(t.props);
    PartFits(blob, offset, TreeBytes(t, limit));
    var counts, kidCounts := LeBytes(|t.props|, 4), LeBytes(|t.kids|, 4);
    var props, forest := PropsBytes(t.props), Forest(t, limit);
    PartSplit(blob, offset, counts, kidCounts + (props + forest));
    PartSplit(blob, offset + 4, kidCounts, props + forest);
    PartSplit(blob, offset + 8, props, forest);
    ReadBack(blob, offset, |t.props|);
    ReadBack(blob, offset + 4, |t.kids|);
    HeaderIntro(blob, offset, |t.props|, |t.kids|);
  }

  lemma TreeBytesAre(t: Tree, limit: nat)
    requires Fits(t, limit)
    ensures TreeBytes(t, limit)
         == LeBytes(|t.props|, 4) + (LeBytes(|t.kids|, 4) + (PropsBytes(t.props) + Forest(t, limit)))
  {
    hide LeBytes, PropsBytes, ForestBytes, Printable;
  }

  lemma FitsCounts(t: Tree, limit: nat)
    requires Fits(t, limit)
    ensures 1 <= |t.props| <= MAX_PROPERTY_COUNT && |t.kids| <= MAX_CHILD_COUNT
    ensures AllPrintable(t.props)
    ensures t.kids != [] ==> limit > 0 && AllFit(t.kids, limit - 1)
  {
  }

  lemma {:induction false} TreeReads(blob: Slice, offset: nat, t: Tree, depth: nat)
    requires depth <= MAX_TREE_DEPTH && Fits(t, MAX_TREE_DEPTH - depth)
    requires offset % 4 == 0 && Part(blob, offset, TreeBytes(t, MAX_TREE_DEPTH - depth))
    ensures var limit := MAX_TREE_DEPTH - depth;
      && NodeEnd(blob, offset, limit) == Ok(offset + |TreeBytes(t, limit)|)
      && ReadTree(blob, Node(offset, depth), limit) == Ok(t)
    decreases MAX_TREE_DEPTH - depth, 0
  {
    hide TreeBytes, Forest, ForestBytes, PropsBytes, Fits, AllFit, AllPrintable, Part;
    hide DecodeNodeHeader, PropertiesEnd, FirstChild, NodeEnd, SiblingsEnd, PropertyItems, ChildItems;
    hide ReadTree, ReadForest, ReadProps;
    var limit := MAX_TREE_DEPTH - depth;
    FitsCounts(t, limit);
    var header := NodeHeader(|t.props|, |t.kids|);
    HeaderReads(blob, offset, t, limit);
    PropsRead(blob, offset + 8, t.props);
    var first := offset + 8 + |PropsBytes(t.props)|;
    ForestIs(t, limit);
    TreeSize(t, limit);
    NodeIntro(blob, offset, header, first, limit);
    if t.kids == [] {
      NoChildItems(blob, first, depth + 1);
      ReadsNode(blob, Node(offset, depth), limit, header, first, t.props, []);
    } else {
      ForestReads(blob, first, t.kids, depth + 1);
      ReadsNode(blob, Node(offset, depth), limit, header, first, t.props, t.kids);
    }
  }

  lemma ForestIs(t: Tree, limit: nat)
    requires Fits(t, limit)
    ensures t.kids == [] ==> Forest(t, limit) == []
    ensures t.kids != [] ==>
      limit > 0 && AllFit(t.kids, limit - 1) && Forest(t, limit) == ForestBytes(t.kids, limit - 1)
  {
    hide ForestBytes;
  }

  /** Draining a node whose parts have been read assembles the tree. */
  lemma ReadsNode(blob: Slice, node: Node, limit: nat, header: NodeHeader, first: usize,
                  props: seq<Prop>, kids: seq<Tree>)
    requires node.depth < MAX_TREE_DEPTH || header.childCount == 0
    requires node.depth <= MAX_TREE_DEPTH
    requires DecodeNodeHeader(blob, node.offset) == Ok(header) && FirstChild(blob, node.offset, header) == Ok(first)
    requires ReadProps(PropertyItems(blob, node.offset + 8, header.propertyCount)) == Ok(props)
    requires header.childCount == |kids| == |ChildItems(blob, first, header.childCount, node.depth + 1)|
    requires kids != [] ==>
      limit > 0 && ReadForest(blob, ChildItems(blob, first, header.childCount, node.depth + 1), limit - 1) == Ok(kids)
    ensures ReadTree(blob, node, limit) == Ok(Tree(props, kids))
  {
    hide DecodeNodeHeader, FirstChild, PropertyItems, ReadProps, ChildItems, ReadForest;
  }

  /** `kids` are what draining the run of siblings at `offset` gives, and where it ends. */
  ghost predicate ForestIsRead(blob: Slice, offset: nat, kids: seq<Tree>, depth: nat, end: nat) {
    && depth <= MAX_TREE_DEPTH && offset < TWO_64 && end < TWO_64
    && SiblingsEnd(blob, offset, |kids|, MAX_TREE_DEPTH - depth) == Ok(end)
    && |ChildItems(blob, offset, |kids|, depth)| == |kids|
    && ReadForest(blob, ChildItems(blob, offset, |kids|, depth), MAX_TREE_DEPTH - depth) == Ok(kids)
  }

  /** Draining one more sibling puts its tree in front of the rest. */
  lemma ReadsSibling(blob: Slice, offset: nat, tree: Tree, rest: seq<Tree>, depth: nat, next: nat, end: nat)
    requires depth <= MAX_TREE_DEPTH && offset < TWO_64 && next < TWO_64
    requires NodeEnd(blob, offset, MAX_TREE_DEPTH - depth) == Ok(next)
    requires ReadTree(blob, Node(offset, depth), MAX_TREE_DEPTH - depth) == Ok(tree)
    requires ForestIsRead(blob, next, rest, depth, end)
    ensures ForestIsRead(blob, offset, [tree] + rest, depth, end)
  {
    hide NodeEnd, ReadTree, IsStructural;
    var items := ChildItems(blob, offset, 1 + |rest|, depth);
    assert items == [Ok(Node(offset, depth))] + ChildItems(blob, next, |rest|, depth);
    assert items[1..] == ChildItems(blob, next, |rest|, depth);
  }

  lemma NothingIsRead(blob: Slice, offset: nat, depth: nat)
    requires depth <= MAX_TREE_DEPTH && offset < TWO_64
    ensures ForestIsRead(blob, offset, [], depth, offset)
  {
  }

  lemma {:induction false} ForestReads(blob: Slice, offset: nat, kids: seq<Tree>, depth: nat)
    requires depth <= MAX_TREE_DEPTH && AllFit(kids, MAX_TREE_DEPTH - depth)
    requires offset % 4 == 0 && Part(blob, offset, ForestBytes(kids, MAX_TREE_DEPTH - depth))
    ensures ForestIsRead(blob, offset, kids, depth, offset + |ForestBytes(kids, MAX_TREE_DEPTH - depth)|)
    decreases MAX_TREE_DEPTH - depth, |kids| + 1
  {
    hide NodeEnd, Fits, ReadTree, TreeBytes, Part, ForestIsRead;
    var limit := MAX_TREE_DEPTH - depth;
    PartFits(blob, offset, ForestBytes(kids, limit));
    if kids == [] {
      NothingIsRead(blob, offset, depth);
    } else {
      var head, rest := TreeBytes(kids[0], limit), kids[1..];
      var next := offset + |head|;
      PartSplit(blob, offset, head, ForestBytes(rest, limit));
      TreeSize(kids[0], limit);
      WordsAddUp(offset, |head|);
      TreeReads(blob, offset, kids[0], depth);
      ForestReads(blob, next, rest, depth);
      ReadsSibling(blob, offset, kids[0], rest, depth, next, next + |ForestBytes(rest, limit)|);
      assert kids == [kids[0]] + rest;
    }
  }

  /** Every tree within the limits, printed and followed by any slack, parses and reads back as itself. */
  lemma RoundTrip(t: Tree, slack: seq<u8>)
    requires Fits(t, MAX_TREE_DEPTH)
    requires |TreeBytes(t, MAX_TREE_DEPTH)| + |slack| <= ISIZE_MAX
    ensures Parsed(TreeBytes(t, MAX_TREE_DEPTH) + slack) == Ok(|TreeBytes(t, MAX_TREE_DEPTH)|)
    ensures ReadTree(TreeBytes(t, MAX_TREE_DEPTH) + slack, ROOT, MAX_TREE_DEPTH) == Ok(t)
  {
    hide TreeBytes, ReadTree, NodeEnd, Fits;
    var bytes := TreeBytes(t, MAX_TREE_DEPTH);
    assert (bytes + slack)[0..|bytes|] == bytes;
    TreeReads(bytes + slack, 0, t, 0);
  }

  // ---- Slack never matters ----------------------------------------------------

  lemma HeaderLocal(a: Slice, b: Slice, offset: usize, end: nat)
    requires DecodeNodeHeader(a, offset).Ok? && Agree(a, b, 0, end)
    requires var h := DecodeNodeHeader(a, offset).value; offset + 8 + 36 * h.propertyCount + 8 * h.childCount <= end
    ensures DecodeNodeHeader(b, offset) == DecodeNodeHeader(a, offset)
  {
    hide LeValue, ReadU32Le;
    SliceSame(a, b, 0, end, offset, offset + 4);
    SliceSame(a, b, 0, end, offset + 4, offset + 8);
  }

  lemma PropertyLocal(a: Slice, b: Slice, offset: usize, end: nat)
    requires DecodeProperty(a, offset).Ok? && DecodeProperty(a, offset).value.end <= end && Agree(a, b, 0, end)
    ensures DecodeProperty(b, offset) == DecodeProperty(a, offset)
  {
    hide LeValue, ReadU32Le;
    var raw := DecodeProperty(a, offset).value;
    SliceSame(a, b, 0, end, offset, offset + 32);
    SliceSame(a, b, 0, end, offset + 32, offset + 36);
    SliceSame(a, b, 0, end, offset + 36, offset + 36 + |raw.value|);
  }

  lemma {:induction false} PropertiesLocal(a: Slice, b: Slice, offset: usize, count: nat, end: nat)
    requires PropertiesEnd(a, offset, count).Ok? && PropertiesEnd(a, offset, count).value <= end && Agree(a, b, 0, end)
    ensures PropertiesEnd(b, offset, count) == PropertiesEnd(a, offset, count)
    ensures PropertyItems(b, offset, count) == PropertyItems(a, offset, count)
    decreases count
  {
    hide DecodeProperty, Agree;
    if count > 0 {
      PropertyLocal(a, b, offset, end);
      PropertiesLocal(a, b, DecodeProperty(a, offset).value.end, count - 1, end);
    }
  }

  lemma {:induction false} NodeLocal(a: Slice, b: Slice, offset: usize, limit: nat, end: nat)
    requires NodeEnd(a, offset, limit).Ok? && NodeEnd(a, offset, limit).value <= end && Agree(a, b, 0, end)
    ensures NodeEnd(b, offset, limit) == NodeEnd(a, offset, limit)
    decreases limit, 0
  {
    hide DecodeNodeHeader, PropertiesEnd, FirstChild, NodeEnd, SiblingsEnd, PropertyItems, Agree, IsStructural;
    var header, first := NodeElim(a, offset, limit);
    SliceSame(a, b, 0, end, end, end);
    HeaderLocal(a, b, offset, end);
    PropertiesLocal(a, b, offset + 8, header.propertyCount, end);
    NodeIntro(b, offset, header, first, limit);
    if header.childCount > 0 {
      SiblingsLocal(a, b, first, header.childCount, limit - 1, end);
    }
  }

  lemma {:induction false} SiblingsLocal(a: Slice, b: Slice, offset: usize, count: nat, limit: nat, end: nat)
    requires SiblingsEnd(a, offset, count, limit).Ok? && SiblingsEnd(a, offset, count, limit).value <= end
    requires Agree(a, b, 0, end)
    ensures SiblingsEnd(b, offset, count, limit) == SiblingsEnd(a, offset, count, limit)
    decreases limit, count + 1
  {
    hide NodeEnd, Agree, IsStructural;
    if count > 0 {
      NodeLocal(a, b, offset, limit, end);
      SiblingsLocal(a, b, NodeEnd(a, offset, limit).value, count - 1, limit, end);
    }
  }

  lemma {:induction false} TreeLocal(a: Slice, b: Slice, node: Node, end: nat)
    requires Covered(a, node) && ExtentEnd(a, node).value <= end && Agree(a, b, 0, end)
    ensures ReadTree(b, node, MAX_TREE_DEPTH - node.depth) == ReadTree(a, node, MAX_TREE_DEPTH - node.depth)
    decreases MAX_TREE_DEPTH - node.depth, 0
  {
    hide DecodeNodeHeader, PropertiesEnd, FirstChild, NodeEnd, SiblingsEnd, PropertyItems, ChildItems;
    hide Agree, IsStructural, ReadProps, ReadForest;
    var limit := MAX_TREE_DEPTH - node.depth;
    var header, first := NodeElim(a, node.offset, limit);
    NodeLocal(a, b, node.offset, limit, end);
    var headerB, firstB := NodeElim(b, node.offset, limit);
    HeaderLocal(a, b, node.offset, end);
    PropertiesLocal(a, b, node.offset + 8, header.propertyCount, end);
    if header.childCount == 0 {
      NoChildItems(a, first, node.depth + 1);
      NoChildItems(b, first, node.depth + 1);
    } else {
      ForestLocal(a, b, first, header.childCount, node.depth + 1, end);
    }
  }

  lemma {:induction false} ForestLocal(a: Slice, b: Slice, offset: usize, count: nat, depth: nat, end: nat)
    requires depth <= MAX_TREE_DEPTH && Agree(a, b, 0, end)
    requires SiblingsEnd(a, offset, count, MAX_TREE_DEPTH - depth).Ok?
    requires SiblingsEnd(a, offset, count, MAX_TREE_DEPTH - depth).value <= end
    ensures ChildItems(b, offset, count, depth) == ChildItems(a, offset, count, depth)
    ensures ReadForest(b, ChildItems(a, offset, count, depth), MAX_TREE_DEPTH - depth)
         == ReadForest(a, ChildItems(a, offset, count, depth), MAX_TREE_DEPTH - depth)
    decreases MAX_TREE_DEPTH - depth, count + 1
  {
    hide NodeEnd, Agree, IsStructural, ReadTree;
    if count > 0 {
      var node := Node(offset, depth);
      var next := ExtentEnd(a, node).value;
      NodeLocal(a, b, offset, MAX_TREE_DEPTH - depth, end);
      TreeLocal(a, b, node, end);
      ForestLocal(a, b, next, count - 1, depth, end);
      assert ChildItems(a, offset, count, depth)[1..] == ChildItems(a, next, count - 1, depth);
    }
  }

  lemma PrefixAgrees(blob: Slice, end: nat, slack: seq<u8>)
    requires end <= |blob|
    ensures Agree(blob, blob[..end] + slack, 0, end)
  {
  }

  /** Replacing everything past an accepted tree changes neither its length nor what is read from it. */
  lemma SlackNeverMatters(blob: Slice, slack: seq<u8>)
    requires Parsed(blob).Ok? && Parsed(blob).value + |slack| <= ISIZE_MAX
    ensures Parsed(blob).value <= |blob|
    ensures Parsed(blob[..Parsed(blob).value] + slack) == Parsed(blob)
    ensures ReadTree(blob[..Parsed(blob).value] + slack, ROOT, MAX_TREE_DEPTH) == ReadTree(blob, ROOT, MAX_TREE_DEPTH)
  {
    hide NodeEnd, ReadTree, Agree;
    var end := Parsed(blob).value;
    PrefixAgrees(blob, end, slack);
    NodeLocal(blob, blob[..end] + slack, 0, MAX_TREE_DEPTH, end);
    TreeLocal(blob, blob[..end] + slack, ROOT, end);
  }

  // ---- Every accepted blob reads as a printable tree ------------------------------

  lemma PropIsPrintable(blob: Slice, offset: usize)
    requires DecodeProperty(blob, offset).Ok?
    ensures var raw := DecodeProperty(blob, offset).value;
      var p := Prop(Property(raw.name, raw.value).Name(), raw.value);
      Printable(p) && offset + |PropBytes(p)| == raw.end
  {
    hide LeBytes, ReadU32Le, LeValue, PropBytes, PadTo4, RecordEnd, Position;
    var raw := DecodeProperty(blob, offset).value;
    assert raw.name[31] == blob[offset + 31] == 0;
    PropEnd(Prop(Property(raw.name, raw.value).Name(), raw.value), offset);
  }

  lemma {:induction false} PropsArePrintable(blob: Slice, offset: usize, count: nat)
    requires PropertiesEnd(blob, offset, count).Ok?
    ensures var r := ReadProps(PropertyItems(blob, offset, count));
      && r.Ok? && |r.value| == count && AllPrintable(r.value)
      && offset + |PropsBytes(r.value)| == PropertiesEnd(blob, offset, count).value
    decreases count
  {
    hide DecodeProperty, PropBytes, Printable, IsStructural;
    if count > 0 {
      var raw := DecodeProperty(blob, offset).value;
      PropIsPrintable(blob, offset);
      PropsArePrintable(blob, raw.end, count - 1);
      hide PropertyItems, ReadProps;
      var rest := ReadProps(PropertyItems(blob, raw.end, count - 1)).value;
      ReadsProp(blob, offset, raw, rest);
      var props := ReadProps(PropertyItems(blob, offset, count)).value;
      assert props[0] == Prop(Property(raw.name, raw.value).Name(), raw.value) && props[1..] == rest;
    }
  }

  /** A covered node reads as a tree within the limits whose printed form is as long as its extent. */
  ghost predicate TreePrints(blob: Slice, node: Node, t: Tree) {
    && Covered(blob, node) && ReadTree(blob, node, MAX_TREE_DEPTH - node.depth) == Ok(t)
    && Fits(t, MAX_TREE_DEPTH - node.depth)
    && node.offset + |TreeBytes(t, MAX_TREE_DEPTH - node.depth)| == ExtentEnd(blob, node).value
  }

  /** The same of a run of siblings. */
  ghost predicate ForestPrints(blob: Slice, offset: usize, kids: seq<Tree>, depth: nat) {
    && depth <= MAX_TREE_DEPTH && AllFit(kids, MAX_TREE_DEPTH - depth)
    && ForestIsRead(blob, offset, kids, depth, offset + |ForestBytes(kids, MAX_TREE_DEPTH - depth)|)
  }

  lemma {:induction false} TreeIsPrintable(blob: Slice, node: Node) returns (t: Tree)
    requires Covered(blob, node)
    ensures TreePrints(blob, node, t)
    decreases MAX_TREE_DEPTH - node.depth, 0
  {
    hide DecodeNodeHeader, PropertiesEnd, FirstChild, NodeEnd, SiblingsEnd, PropertyItems, ChildItems;
    hide IsStructural, ReadProps, ReadForest, AllPrintable;
    hide TreeBytes, PropsBytes, LeBytes, ForestBytes, ReadTree, Forest;
    hide AllFit, Fits;
    var limit := MAX_TREE_DEPTH - node.depth;
    var header, first := NodeElim(blob, node.offset, limit);
    PropsArePrintable(blob, node.offset + 8, header.propertyCount);
    var props := ReadProps(PropertyItems(blob, node.offset + 8, header.propertyCount)).value;
    var kids: seq<Tree> := [];
    if header.childCount == 0 {
      NoChildItems(blob, first, node.depth + 1);
    } else {
      kids := ForestIsPrintable(blob, first, header.childCount, node.depth + 1);
    }
    t := Tree(props, kids);
    ReadsNode(blob, node, limit, header, first, props, kids);
    FitsFrom(t, limit);
    ForestIs(t, limit);
    TreeSize(t, limit);
  }

  lemma FitsFrom(t: Tree, limit: nat)
    requires 1 <= |t.props| <= MAX_PROPERTY_COUNT && |t.kids| <= MAX_CHILD_COUNT && AllPrintable(t.props)
    requires t.kids != [] ==> limit > 0 && AllFit(t.kids, limit - 1)
    ensures Fits(t, limit)
  {
  }

  lemma {:induction false} ForestIsPrintable(blob: Slice, offset: usize, count: nat, depth: nat)
    returns (kids: seq<Tree>)
    requires depth <= MAX_TREE_DEPTH && SiblingsEnd(blob, offset, count, MAX_TREE_DEPTH - depth).Ok?
    ensures |kids| == count && ForestPrints(blob, offset, kids, depth)
    decreases MAX_TREE_DEPTH - depth, count + 1
  {
    hide NodeEnd, ReadTree, TreeBytes, Fits, ForestIsRead, IsStructural;
    var limit, node := MAX_TREE_DEPTH - depth, Node(offset, depth);
    if count == 0 {
      kids := [];
      NothingIsRead(blob, offset, depth);
    } else {
      var next := ExtentEnd(blob, node).value;
      var tree := TreeIsPrintable(blob, node);
      var rest := ForestIsPrintable(blob, next, count - 1, depth);
      kids := [tree] + rest;
      assert kids[0] == tree && kids[1..] == rest;
      ReadsSibling(blob, offset, tree, rest, depth, next, next + |ForestBytes(rest, limit)|);
    }
  }

  /**
   Every accepted blob reads as a tree within the limits whose printed form has the
   same length and reads back as that same tree: printing normalises padding only.
   */
  lemma Normalises(blob: Slice)
    requires Parsed(blob).Ok?
    ensures var r := ReadTree(blob, ROOT, MAX_TREE_DEPTH);
      && r.Ok? && Fits(r.value, MAX_TREE_DEPTH)
      && |TreeBytes(r.value, MAX_TREE_DEPTH)| == Parsed(blob).value <= |blob|
      && Parsed(TreeBytes(r.value, MAX_TREE_DEPTH)) == Parsed(blob)
      && ReadTree(TreeBytes(r.value, MAX_TREE_DEPTH), ROOT, MAX_TREE_DEPTH) == r
  {
    hide NodeEnd, ReadTree, TreeBytes, Fits;
    var t := TreeIsPrintable(blob, ROOT);
    RoundTrip(t, []);
    assert TreeBytes(t, MAX_TREE_DEPTH) + [] == TreeBytes(t, MAX_TREE_DEPTH);
  }
}
