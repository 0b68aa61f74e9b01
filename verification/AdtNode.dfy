/**
 Node cursors, the two iterators over a node, and lookups by name.

 An iterator's abstract state is the sequence of items it has still to yield.
 */
module AdtNode {
  import opened Results
  import opened Bytes
  import opened AdtRaw

  const MAX_NODE_NAME_LEN: int := 63
  const MAX_NODE_VALUE_LEN: int := 64

  datatype Property = Property(nameField: seq<u8>, value: Slice) {
    /** The name field up to its first NUL. */
    function Name(): (name: seq<u8>) {
      match Position(nameField, 0)
      case Some(index) => nameField[..index]
      case None => nameField
    }

    predicate IsNamed(wanted: seq<u8>) {
      |wanted| <= PROPERTY_NAME_LEN && Name() == wanted
    }

    /** The value up to its first NUL; a value without one denies. */
    function AsCStr(): (r: Result<seq<u8>, AdtError>) {
      var index :- Position(value, 0).OkOr(UnterminatedStringValue);
      Ok(value[..index])
    }

    function AsU32(): (r: Result<u32, AdtError>) {
      if |value| != 4 then Err(PropertyLengthMismatch) else Ok(ReadU32Le(value, 0).value)
    }
  }

  datatype Node = Node(offset: usize, depth: usize)

  const ROOT: Node := Node(0, 0)

  function Saturating(a: usize, b: usize): (r: usize) {
    if a >= b then a - b else 0
  }

  /** The extent end of a node, walked with the depth budget left to it. */
  function ExtentEnd(blob: Slice, node: Node): (r: Result<usize, AdtError>) {
    NodeEnd(blob, node.offset, Saturating(MAX_TREE_DEPTH, node.depth))
  }

  /** `DeviceTree::parse`: the occupied length of an accepted tree. */
  method Parse(blob: Slice) returns (r: Result<usize, AdtError>)
    ensures r == Parsed(blob)
  {
    if blob == [] {
      return Err(EmptyBlob);
    }
    if |blob| < NODE_HEADER_LEN {
      return Err(BlobTooSmallForRoot);
    }
    r := WalkNodeEnd(blob, 0, MAX_TREE_DEPTH);
  }

  function Parsed(blob: Slice): (r: Result<usize, AdtError>) {
    if blob == [] then Err(EmptyBlob)
    else if |blob| < NODE_HEADER_LEN then Err(BlobTooSmallForRoot)
    else ExtentEnd(blob, ROOT)
  }

  // ---- Iterators --------------------------------------------------------

  /** What a property iterator at `offset` with `remaining` records to go yields. */
  function PropertyItems(blob: Slice, offset: usize, remaining: nat): (items: seq<Result<Property, AdtError>>)
    decreases remaining
  {
    if remaining == 0 then []
    else
      match DecodeProperty(blob, offset)
      case Err(error) => [Err(error)]
      case Ok(raw) => [Ok(Property(raw.name, raw.value))] + PropertyItems(blob, raw.end, remaining - 1)
  }

  /** What a child iterator at `offset` with `remaining` subtrees to go yields. */
  function ChildItems(blob: Slice, offset: usize, remaining: nat, depth: usize): (items: seq<Result<Node, AdtError>>)
    decreases remaining
  {
    if remaining == 0 then []
    else if depth > MAX_TREE_DEPTH then [Err(DepthLimitExceeded)]
    else
      match ExtentEnd(blob, Node(offset, depth))
      case Err(error) => [Err(error)]
      case Ok(end) => [Ok(Node(offset, depth))] + ChildItems(blob, end, remaining - 1, depth)
  }

  class PropertyIter {
    const blob: Slice
    var offset: usize
    var remaining: u32
    var done: bool

    constructor (blob: Slice, offset: usize, remaining: u32)
      ensures Items() == PropertyItems(blob, offset, remaining)
    {
      this.blob, this.offset, this.remaining, this.done := blob, offset, remaining, false;
    }

    function Items(): (items: seq<Result<Property, AdtError>>)
      reads this
    {
      if done then [] else PropertyItems(blob, offset, remaining)
    }

    method Next() returns (item: Option<Result<Property, AdtError>>)
      modifies this
      ensures old(Items()) == match item case None => [] case Some(x) => [x] + Items()
      ensures item.None? ==> Items() == []
    {
      hide DecodeProperty;
      if done || remaining == 0 {
        return None;
      }
      var decoded := DecodeProperty(blob, offset);
      if decoded.Err? {
        done := true;
        return Some(Err(decoded.error));
      }
      offset := decoded.value.end;
      remaining := remaining - 1;
      return Some(Ok(Property(decoded.value.name, decoded.value.value)));
    }
  }

  class ChildIter {
    const blob: Slice
    var offset: usize
    var remaining: u32
    const depth: usize
    var done: bool

    constructor (blob: Slice, offset: usize, remaining: u32, depth: usize)
      ensures Items() == ChildItems(blob, offset, remaining, depth)
    {
      this.blob, this.offset, this.remaining, this.depth, this.done := blob, offset, remaining, depth, false;
    }

    function Items(): (items: seq<Result<Node, AdtError>>)
      reads this
    {
      if done then [] else ChildItems(blob, offset, remaining, depth)
    }

    method Next() returns (item: Option<Result<Node, AdtError>>)
      modifies this
      ensures old(Items()) == match item case None => [] case Some(x) => [x] + Items()
      ensures item.None? ==> Items() == []
    {
      hide FirstChild, SiblingsEnd, DecodeNodeHeader;
      if done || remaining == 0 {
        return None;
      }
      if depth > MAX_TREE_DEPTH {
        done := true;
        return Some(Err(DepthLimitExceeded));
      }
      var header := DecodeNodeHeader(blob, offset);
      if header.Err? {
        done := true;
        return Some(Err(header.error));
      }
      var node := Node(offset, depth);
      var end := WalkNodeEnd(blob, offset, Saturating(MAX_TREE_DEPTH, depth));
      if end.Err? {
        done := true;
        return Some(Err(end.error));
      }
      offset := end.value;
      remaining := remaining - 1;
      return Some(Ok(node));
    }
  }

  function PropertiesOf(blob: Slice, node: Node): (r: Result<seq<Result<Property, AdtError>>, AdtError>) {
    var header :- DecodeNodeHeader(blob, node.offset);
    Ok(PropertyItems(blob, node.offset + NODE_HEADER_LEN, header.propertyCount))
  }

  /** Beyond the depth limit a node that declares children denies before yielding any. */
  function ChildrenOf(blob: Slice, node: Node): (r: Result<seq<Result<Node, AdtError>>, AdtError>) {
    var header :- DecodeNodeHeader(blob, node.offset);
    var first :- FirstChild(blob, node.offset, header);
    var childDepth :- CheckedAdd(node.depth, 1).OkOr(DepthLimitExceeded);
    if header.childCount > 0 && childDepth > MAX_TREE_DEPTH then Err(DepthLimitExceeded)
    else Ok(ChildItems(blob, first, header.childCount, childDepth))
  }

  // ---- Every reachable node is sound -------------------------------------

  /** The cursors of up to `count` well-formed sibling subtrees from `offset`. */
  ghost function Siblings(blob: Slice, offset: usize, count: nat, depth: usize): (kids: seq<Node>)
    decreases count
  {
    if count == 0 || ExtentEnd(blob, Node(offset, depth)).Err? then []
    else [Node(offset, depth)] + Siblings(blob, ExtentEnd(blob, Node(offset, depth)).value, count - 1, depth)
  }

  /** Extents laid end to end cover exactly `[start, end)`. */
  ghost predicate Tiles(blob: Slice, kids: seq<Node>, start: usize, end: usize) {
    if kids == [] then start == end
    else
      && kids[0].offset == start
      && ExtentEnd(blob, kids[0]).Ok?
      && Tiles(blob, kids[1..], ExtentEnd(blob, kids[0]).value, end)
  }

  function Yield<T>(items: seq<T>): (r: seq<Result<T, AdtError>>)
    ensures |r| == |items|
    ensures forall i :: 0 <= i < |items| ==> r[i] == Ok(items[i])
  {
    seq(|items|, i requires 0 <= i < |items| => Ok(items[i]))
  }

  /** What one well-formed sibling adds to the run after it. */
  lemma SiblingStep(blob: Slice, offset: usize, count: nat, depth: usize)
    requires depth <= MAX_TREE_DEPTH && count > 0
    requires SiblingsEnd(blob, offset, count, MAX_TREE_DEPTH - depth).Ok?
    ensures ExtentEnd(blob, Node(offset, depth)).Ok?
    ensures var next := ExtentEnd(blob, Node(offset, depth)).value;
      && SiblingsEnd(blob, next, count - 1, MAX_TREE_DEPTH - depth)
           == SiblingsEnd(blob, offset, count, MAX_TREE_DEPTH - depth)
      && Siblings(blob, offset, count, depth) == [Node(offset, depth)] + Siblings(blob, next, count - 1, depth)
      && ChildItems(blob, offset, count, depth)
           == [Ok(Node(offset, depth))] + ChildItems(blob, next, count - 1, depth)
  {
    hide NodeEnd, IsStructural;
  }

  lemma {:induction false} SiblingsAreCovered(blob: Slice, offset: usize, count: nat, depth: usize)
    requires depth <= MAX_TREE_DEPTH
    requires SiblingsEnd(blob, offset, count, MAX_TREE_DEPTH - depth).Ok?
    ensures |Siblings(blob, offset, count, depth)| == count
    ensures forall kid <- Siblings(blob, offset, count, depth) ::
              kid.depth == depth && ExtentEnd(blob, kid).Ok?
    decreases count
  {
    hide SiblingsEnd, ExtentEnd, ChildItems;
    if count == 0 {
      assert Siblings(blob, offset, 0, depth) == [];
    } else {
      SiblingStep(blob, offset, count, depth);
      hide Siblings;
      SiblingsAreCovered(blob, ExtentEnd(blob, Node(offset, depth)).value, count - 1, depth);
    }
  }

  lemma {:induction false} SiblingsAreYielded(blob: Slice, offset: usize, count: nat, depth: usize)
    requires depth <= MAX_TREE_DEPTH
    requires SiblingsEnd(blob, offset, count, MAX_TREE_DEPTH - depth).Ok?
    ensures ChildItems(blob, offset, count, depth) == Yield(Siblings(blob, offset, count, depth))
    decreases count
  {
    hide SiblingsEnd, ExtentEnd;
    if count == 0 {
      assert Siblings(blob, offset, 0, depth) == [];
    } else {
      SiblingStep(blob, offset, count, depth);
      hide Siblings, ChildItems, Yield;
      var next := ExtentEnd(blob, Node(offset, depth)).value;
      SiblingsAreYielded(blob, next, count - 1, depth);
      YieldStep(Node(offset, depth), Siblings(blob, next, count - 1, depth));
    }
  }

  lemma YieldStep<T>(head: T, rest: seq<T>)
    ensures Yield([head] + rest) == [Ok(head)] + Yield(rest)
  {
  }

  lemma {:induction false} SiblingsTile(blob: Slice, offset: usize, count: nat, depth: usize)
    requires depth <= MAX_TREE_DEPTH
    requires SiblingsEnd(blob, offset, count, MAX_TREE_DEPTH - depth).Ok?
    ensures Tiles(blob, Siblings(blob, offset, count, depth), offset,
                  SiblingsEnd(blob, offset, count, MAX_TREE_DEPTH - depth).value)
    decreases count
  {
    hide ExtentEnd, ChildItems, IsStructural, NodeEnd;
    if count == 0 {
      assert Siblings(blob, offset, 0, depth) == [];
    } else {
      SiblingStep(blob, offset, count, depth);
      hide Siblings, SiblingsEnd;
      var next := ExtentEnd(blob, Node(offset, depth)).value;
      SiblingsTile(blob, next, count - 1, depth);
      var kids := Siblings(blob, offset, count, depth);
      assert kids[1..] == Siblings(blob, next, count - 1, depth);
    }
  }

  /** A validated run of siblings is yielded whole, without error, and tiles its span. */
  lemma ChildItemsAreSiblings(blob: Slice, offset: usize, count: nat, depth: usize)
    requires depth <= MAX_TREE_DEPTH
    requires SiblingsEnd(blob, offset, count, MAX_TREE_DEPTH - depth).Ok?
    ensures |Siblings(blob, offset, count, depth)| == count
    ensures ChildItems(blob, offset, count, depth) == Yield(Siblings(blob, offset, count, depth))
    ensures Tiles(blob, Siblings(blob, offset, count, depth), offset,
                  SiblingsEnd(blob, offset, count, MAX_TREE_DEPTH - depth).value)
    ensures forall kid <- Siblings(blob, offset, count, depth) ::
              kid.depth == depth && ExtentEnd(blob, kid).Ok?
  {
    hide Siblings, SiblingsEnd, ChildItems, Tiles, ExtentEnd, Yield;
    SiblingsAreCovered(blob, offset, count, depth);
    SiblingsAreYielded(blob, offset, count, depth);
    SiblingsTile(blob, offset, count, depth);
  }

  lemma {:induction false} PropertyItemsAllDecode(blob: Slice, offset: usize, count: nat)
    requires PropertiesEnd(blob, offset, count).Ok?
    ensures |PropertyItems(blob, offset, count)| == count
    ensures forall item <- PropertyItems(blob, offset, count) :: item.Ok?
    decreases count
  {
    hide DecodeProperty;
    if count > 0 {
      PropertyItemsAllDecode(blob, DecodeProperty(blob, offset).value.end, count - 1);
    }
  }

  /** A node the up-front walk has covered, at its depth. */
  ghost predicate Covered(blob: Slice, node: Node) {
    node.depth <= MAX_TREE_DEPTH && ExtentEnd(blob, node).Ok?
  }

  ghost function Header(blob: Slice, node: Node): (header: NodeHeader)
    requires Covered(blob, node)
  {
    DecodeNodeHeader(blob, node.offset).value
  }

  ghost function First(blob: Slice, node: Node): (offset: usize)
    requires Covered(blob, node)
  {
    FirstChild(blob, node.offset, Header(blob, node)).value
  }

  /** The child cursors of a covered node. */
  ghost function Kids(blob: Slice, node: Node): (kids: seq<Node>)
    requires Covered(blob, node)
  {
    if Header(blob, node).childCount == 0 then []
    else Siblings(blob, First(blob, node), Header(blob, node).childCount, node.depth + 1)
  }

  /** The property iterator of a covered node yields every declared property and no error. */
  lemma CoveredProperties(blob: Slice, node: Node)
    requires Covered(blob, node)
    ensures PropertiesOf(blob, node).Ok?
    ensures |PropertiesOf(blob, node).value| == Header(blob, node).propertyCount
    ensures forall item <- PropertiesOf(blob, node).value :: item.Ok?
  {
    hide DecodeNodeHeader, DecodeProperty, SiblingsEnd, PropertyItems;
    PropertyItemsAllDecode(blob, node.offset + NODE_HEADER_LEN, Header(blob, node).propertyCount);
  }

  /**
   The child iterator of a covered node yields every declared child and no error;
   the children are covered one level down and tile the span to the node's end.
   */
  lemma CoveredChildren(blob: Slice, node: Node)
    requires Covered(blob, node)
    ensures ChildrenOf(blob, node) == Ok(Yield(Kids(blob, node)))
    ensures |Kids(blob, node)| == Header(blob, node).childCount
    ensures forall kid <- Kids(blob, node) :: kid.depth == node.depth + 1 && Covered(blob, kid)
    ensures Tiles(blob, Kids(blob, node), First(blob, node), ExtentEnd(blob, node).value)
  {
    hide DecodeNodeHeader, FirstChild, SiblingsEnd, ChildItems;
    var header := Header(blob, node);
    if header.childCount > 0 {
      ChildItemsAreSiblings(blob, First(blob, node), header.childCount, node.depth + 1);
    } else {
      NoChildItems(blob, First(blob, node), node.depth + 1);
      assert Yield<Node>([]) == [];
    }
  }

  lemma NoChildItems(blob: Slice, offset: usize, depth: usize)
    ensures ChildItems(blob, offset, 0, depth) == []
  {
  }

  /** `child` is handed out by `node`'s child iterator. */
  ghost predicate HandsOut(blob: Slice, node: Node, child: Node) {
    ChildrenOf(blob, node).Ok? && Ok(child) in ChildrenOf(blob, node).value
  }

  /** A chain of cursors from the root, each handed out by its predecessor. */
  ghost predicate Reachable(blob: Slice, chain: seq<Node>) {
    && chain != [] && chain[0] == ROOT
    && forall i :: 0 < i < |chain| ==> HandsOut(blob, chain[i - 1], chain[i])
  }

  /** One accepted parse covers every cursor any later navigation can reach. */
  lemma {:induction false} ReachableNodesAreCovered(blob: Slice, chain: seq<Node>)
    requires Parsed(blob).Ok? && Reachable(blob, chain)
    ensures var node := chain[|chain| - 1];
      node.depth == |chain| - 1 && Covered(blob, node)
    decreases |chain|
  {
    hide NodeEnd, ChildrenOf, Kids;
    var last := |chain| - 1;
    if last > 0 {
      ReachableNodesAreCovered(blob, chain[..last]);
      CoveredChildren(blob, chain[last - 1]);
      assert HandsOut(blob, chain[last - 1], chain[last]);
    }
  }
}
