/** Lookup of properties and children by name, and absolute path resolution. */
module AdtPath {
  import opened Results
  import opened Bytes
  import opened AdtRaw
  import opened AdtNode

  const MAX_PATH_NODES: int := 9
  const SLASH: u8 := 0x2f

  /** The properties for which a repeated name denies the lookup. */
  predicate IsCritical(name: seq<u8>) {
    name in {Ascii("name"), Ascii("compatible"), Ascii("reg"), Ascii("ranges"),
             Ascii("#address-cells"), Ascii("#size-cells"), Ascii("cpu-impl-reg"),
             Ascii("chip-id"), Ascii("device_type"), Ascii("state")}
  }

  // ---- Properties by name -------------------------------------------------

  /** Scans the items an iterator yields; `found` is the match met so far. */
  function Search(items: seq<Result<Property, AdtError>>, name: seq<u8>, critical: bool, found: Option<Property>)
    : (r: Result<Option<Property>, AdtError>)
  {
    if items == [] then Ok(found)
    else
      var property :- items[0];
      if !property.IsNamed(name) then Search(items[1..], name, critical, found)
      else if found.Some? then Err(DuplicateProperty)
      else if !critical then Ok(Some(property))
      else Search(items[1..], name, critical, Some(property))
  }

  function Lookup(blob: Slice, node: Node, name: seq<u8>): (r: Result<Option<Property>, AdtError>) {
    var items :- PropertiesOf(blob, node);
    Search(items, name, IsCritical(name), None)
  }

  lemma {:induction false} PropertyItemErrors(blob: Slice, offset: usize, remaining: nat)
    requires offset <= |blob|
    ensures forall item <- PropertyItems(blob, offset, remaining) :: item.Err? ==> IsStructural(item.error)
    decreases remaining
  {
    hide DecodeProperty, IsStructural;
    if remaining > 0 && DecodeProperty(blob, offset).Ok? {
      PropertyItemErrors(blob, DecodeProperty(blob, offset).value.end, remaining - 1);
    }
  }

  lemma {:induction false} SearchErrors(
    items: seq<Result<Property, AdtError>>, name: seq<u8>, critical: bool, found: Option<Property>)
    requires forall item <- items :: item.Err? ==> IsStructural(item.error)
    ensures var r := Search(items, name, critical, found);
      r.Err? ==> IsStructural(r.error) || r.error == DuplicateProperty
  {
    hide IsStructural;
    if items != [] && items[0].Ok? {
      SearchErrors(items[1..], name, critical, found);
      SearchErrors(items[1..], name, critical, Some(items[0].value));
    }
  }

  /** On any cursor at all, a lookup denies only for malformed structure or a duplicate. */
  lemma LookupErrors(blob: Slice, node: Node, name: seq<u8>)
    ensures var r := Lookup(blob, node, name);
      r.Err? ==> IsStructural(r.error) || r.error == DuplicateProperty
  {
    hide DecodeNodeHeader, PropertyItems, Search, IsCritical, IsStructural;
    var header := DecodeNodeHeader(blob, node.offset);
    if header.Ok? {
      PropertyItemErrors(blob, node.offset + NODE_HEADER_LEN, header.value.propertyCount);
      SearchErrors(PropertiesOf(blob, node).value, name, IsCritical(name), None);
    }
  }

  method FindProperty(blob: Slice, node: Node, name: seq<u8>) returns (r: Result<Option<Property>, AdtError>)
    ensures r == Lookup(blob, node, name)
  {
    hide DecodeNodeHeader, PropertyItems, IsCritical;
    var critical := IsCritical(name);
    var found: Option<Property> := None;
    var header :- DecodeNodeHeader(blob, node.offset);
    var iter := new PropertyIter(blob, node.offset + NODE_HEADER_LEN, header.propertyCount);
    while true
      invariant Lookup(blob, node, name) == Search(iter.Items(), name, critical, found)
      decreases |iter.Items()|
    {
      ghost var before := iter.Items();
      var item := iter.Next();
      if item.None? {
        return Ok(found);
      }
      assert before[1..] == iter.Items();
      var property :- item.value;
      if property.IsNamed(name) {
        if found.Some? {
          return Err(DuplicateProperty);
        }
        found := Some(property);
        if !critical {
          return Ok(found);
        }
      }
    }
  }

  ghost predicate FirstNamed(items: seq<Result<Property, AdtError>>, name: seq<u8>, k: nat) {
    && k < |items| && items[k].Ok? && items[k].value.IsNamed(name)
    && forall i :: 0 <= i < k ==> items[i].Ok? && !items[i].value.IsNamed(name)
  }

  ghost predicate NoneNamed(items: seq<Result<Property, AdtError>>, name: seq<u8>, from: nat) {
    forall i :: from <= i < |items| ==> items[i].Ok? && !items[i].value.IsNamed(name)
  }

  /** Once a critical match is held, the rest of the list must hold no second one. */
  lemma {:induction false} SearchAfterMatch(items: seq<Result<Property, AdtError>>, name: seq<u8>, held: Property)
    requires forall item <- items :: item.Ok?
    ensures Search(items, name, true, Some(held))
         == if NoneNamed(items, name, 0) then Ok(Some(held)) else Err(DuplicateProperty)
  {
    if items != [] {
      SearchAfterMatch(items[1..], name, held);
      assert NoneNamed(items, name, 0) <==>
        !items[0].value.IsNamed(name) && NoneNamed(items[1..], name, 0)
      by {
        assert forall i :: 1 <= i < |items| ==> items[i] == items[1..][i - 1];
        assert forall i :: 0 <= i < |items| - 1 ==> items[1..][i] == items[i + 1];
      }
    }
  }

  /** First match wins; a second match denies exactly for the critical names. */
  lemma {:induction false} SearchFindsFirst(
    items: seq<Result<Property, AdtError>>, name: seq<u8>, critical: bool, k: nat)
    requires forall item <- items :: item.Ok?
    requires FirstNamed(items, name, k)
    ensures Search(items, name, critical, None)
         == if critical && !NoneNamed(items, name, k + 1) then Err(DuplicateProperty)
            else Ok(Some(items[k].value))
    decreases k
  {
    hide Position;
    if k > 0 {
      assert FirstNamed(items[1..], name, k - 1);
      SearchFindsFirst(items[1..], name, critical, k - 1);
      ShiftNoneNamed(items, name, k);
    } else {
      SearchAfterMatch(items[1..], name, items[0].value);
      ShiftNoneNamed(items, name, 0);
    }
  }

  lemma ShiftNoneNamed(items: seq<Result<Property, AdtError>>, name: seq<u8>, k: nat)
    requires items != []
    ensures NoneNamed(items[1..], name, k) <==> NoneNamed(items, name, k + 1)
  {
    assert forall i :: 1 <= i < |items| ==> items[i] == items[1..][i - 1];
    assert forall i :: 0 <= i < |items| - 1 ==> items[1..][i] == items[i + 1];
  }

  lemma {:induction false} SearchFindsNothing(items: seq<Result<Property, AdtError>>, name: seq<u8>, critical: bool)
    requires NoneNamed(items, name, 0)
    ensures Search(items, name, critical, None) == Ok(None)
  {
    if items != [] {
      ShiftNoneNamed(items, name, 0);
      SearchFindsNothing(items[1..], name, critical);
    }
  }

  /**
   On any node of a parsed tree a lookup is decided by the declared property list
   alone: absent, the first match, or a duplicate of a critical name.
   */
  lemma LookupMeaning(blob: Slice, node: Node, name: seq<u8>)
    requires Covered(blob, node)
    ensures PropertiesOf(blob, node).Ok?
    ensures var items := PropertiesOf(blob, node).value;
      && (NoneNamed(items, name, 0) ==> Lookup(blob, node, name) == Ok(None))
      && (forall k: nat :: FirstNamed(items, name, k) ==>
            Lookup(blob, node, name)
              == if IsCritical(name) && !NoneNamed(items, name, k + 1) then Err(DuplicateProperty)
                 else Ok(Some(items[k].value)))
      && (NoneNamed(items, name, 0) || exists k: nat :: FirstNamed(items, name, k))
  {
    hide PropertiesOf, IsCritical, Search;
    CoveredProperties(blob, node);
    var items := PropertiesOf(blob, node).value;
    var critical := IsCritical(name);
    if NoneNamed(items, name, 0) {
      SearchFindsNothing(items, name, critical);
    } else {
      var _ := FirstMatchExists(items, name);
    }
    forall k: nat | FirstNamed(items, name, k)
      ensures Search(items, name, critical, None)
           == if critical && !NoneNamed(items, name, k + 1) then Err(DuplicateProperty)
              else Ok(Some(items[k].value))
    {
      SearchFindsFirst(items, name, critical, k);
    }
  }

  lemma FirstMatchExists(items: seq<Result<Property, AdtError>>, name: seq<u8>) returns (k: nat)
    requires forall item <- items :: item.Ok?
    requires !NoneNamed(items, name, 0)
    ensures FirstNamed(items, name, k)
  {
    hide Position;
    k := 0;
    while !items[k].value.IsNamed(name)
      invariant k < |items|
      invariant forall i :: 0 <= i < k ==> !items[i].value.IsNamed(name)
      invariant !NoneNamed(items, name, k)
      decreases |items| - k
    {
      k := k + 1;
    }
  }

  // ---- Node names and children by name --------------------------------------

  /** A node's name. The length ceiling on the value makes the ceiling on the name redundant. */
  function NodeName(blob: Slice, node: Node): (r: Result<seq<u8>, AdtError>)
    ensures r.Err? ==> r.error !in {NodeNameTooLong, PathTooDeep}
    ensures r.Ok? ==> |r.value| <= MAX_NODE_NAME_LEN && 0 !in r.value
  {
    hide Lookup, IsStructural;
    LookupErrors(blob, node, Ascii("name"));
    var found :- Lookup(blob, node, Ascii("name"));
    var property :- found.OkOr(MissingNameProperty);
    if |property.value| > MAX_NODE_VALUE_LEN then Err(NodeNameValueTooLong) else
    var name :- property.AsCStr();
    if |name| > MAX_NODE_NAME_LEN then Err(NodeNameTooLong) else Ok(name)
  }

  /** The first child named `name`; a child whose own name does not decode denies the scan. */
  function FirstChildNamed(blob: Slice, items: seq<Result<Node, AdtError>>, name: seq<u8>)
    : (r: Result<Option<Node>, AdtError>)
    ensures r.Ok? && r.value.Some? ==> Ok(r.value.value) in items
  {
    if items == [] then Ok(None)
    else
      var child :- items[0];
      var its :- NodeName(blob, child);
      if its == name then Ok(Some(child)) else FirstChildNamed(blob, items[1..], name)
  }

  /** Item `i` is a child with a readable name other than `name`. */
  ghost predicate NamedOtherwise(blob: Slice, item: Result<Node, AdtError>, name: seq<u8>) {
    item.Ok? && NodeName(blob, item.value).Ok? && NodeName(blob, item.value).value != name
  }

  /** Item `k` is the first child named `name`, and every earlier one has a readable other name. */
  ghost predicate FirstChildAt(blob: Slice, items: seq<Result<Node, AdtError>>, name: seq<u8>, k: nat) {
    && k < |items| && items[k].Ok? && NodeName(blob, items[k].value) == Ok(name)
    && forall i :: 0 <= i < k ==> NamedOtherwise(blob, items[i], name)
  }

  /** The first match wins, and nothing is found exactly when every child is readably named otherwise. */
  lemma {:induction false} FirstChildMeaning(blob: Slice, items: seq<Result<Node, AdtError>>, name: seq<u8>)
    ensures forall k: nat :: FirstChildAt(blob, items, name, k) ==>
      FirstChildNamed(blob, items, name) == Ok(Some(items[k].value))
    ensures var r := FirstChildNamed(blob, items, name);
      r.Ok? && r.value.Some? ==> exists k: nat :: FirstChildAt(blob, items, name, k)
    ensures FirstChildNamed(blob, items, name) == Ok(None) <==>
      forall i :: 0 <= i < |items| ==> NamedOtherwise(blob, items[i], name)
  {
    hide NodeName;
    if items != [] {
      var rest := items[1..];
      FirstChildMeaning(blob, rest, name);
      forall k: nat | FirstChildAt(blob, items, name, k)
        ensures FirstChildNamed(blob, items, name) == Ok(Some(items[k].value))
      {
        if k > 0 {
          assert NamedOtherwise(blob, items[0], name);
          assert forall i :: 0 <= i < k - 1 ==> rest[i] == items[i + 1];
          assert FirstChildAt(blob, rest, name, k - 1);
        }
      }
      var r := FirstChildNamed(blob, items, name);
      if r.Ok? && r.value.Some? {
        if NamedOtherwise(blob, items[0], name) {
          var k: nat :| FirstChildAt(blob, rest, name, k);
          assert forall i :: 1 <= i < k + 1 ==> items[i] == rest[i - 1];
          assert FirstChildAt(blob, items, name, k + 1);
        } else {
          assert FirstChildAt(blob, items, name, 0);
        }
      }
    }
  }

  function Scan(blob: Slice, node: Node, name: seq<u8>): (r: Result<Option<Node>, AdtError>)
    ensures r.Ok? && r.value.Some? ==> HandsOut(blob, node, r.value.value)
  {
    var items :- ChildrenOf(blob, node);
    FirstChildNamed(blob, items, name)
  }

  function ChildNamed(blob: Slice, node: Node, name: seq<u8>): (r: Result<Node, AdtError>)
    ensures r.Ok? ==> HandsOut(blob, node, r.value)
  {
    var found :- Scan(blob, node, name);
    found.OkOr(NodeNotFound)
  }

  lemma ScanIsNeverTooDeep(blob: Slice, node: Node, name: seq<u8>)
    ensures Scan(blob, node, name) != Err(PathTooDeep)
  {
    hide DecodeNodeHeader, FirstChild, ChildItems, FirstChildNamed;
    if ChildrenOf(blob, node).Ok? {
      var header := DecodeNodeHeader(blob, node.offset).value;
      ScanErrors(blob, FirstChild(blob, node.offset, header).value, header.childCount, node.depth + 1, name);
    }
  }

  lemma {:induction false} ScanErrors(blob: Slice, offset: usize, remaining: nat, depth: usize, name: seq<u8>)
    ensures FirstChildNamed(blob, ChildItems(blob, offset, remaining, depth), name) != Err(PathTooDeep)
    decreases remaining
  {
    hide NodeEnd, NodeName;
    if remaining > 0 && depth <= MAX_TREE_DEPTH && ExtentEnd(blob, Node(offset, depth)).Ok? {
      var end := ExtentEnd(blob, Node(offset, depth)).value;
      ScanErrors(blob, end, remaining - 1, depth, name);
      assert ChildItems(blob, offset, remaining, depth)[1..] == ChildItems(blob, end, remaining - 1, depth);
    }
  }

  method FindChild(blob: Slice, node: Node, name: seq<u8>) returns (r: Result<Option<Node>, AdtError>)
    ensures r == Scan(blob, node, name)
  {
    hide DecodeNodeHeader, FirstChild, NodeName, ChildItems;
    var header :- DecodeNodeHeader(blob, node.offset);
    var first :- FirstChildOffset(blob, node.offset, header);
    var childDepth :- CheckedAdd(node.depth, 1).OkOr(DepthLimitExceeded);
    if header.childCount > 0 && childDepth > MAX_TREE_DEPTH {
      return Err(DepthLimitExceeded);
    }
    var iter := new ChildIter(blob, first, header.childCount, childDepth);
    while true
      invariant FirstChildNamed(blob, ChildItems(blob, first, header.childCount, childDepth), name)
             == FirstChildNamed(blob, iter.Items(), name)
      decreases |iter.Items()|
    {
      ghost var before := iter.Items();
      var item := iter.Next();
      if item.None? {
        return Ok(None);
      }
      assert before[1..] == iter.Items();
      var child :- item.value;
      var its :- NodeName(blob, child);
      if its == name {
        return Ok(Some(child));
      }
    }
  }

  lemma {:induction false} ChildDepth(blob: Slice, offset: usize, remaining: nat, depth: usize, child: Node)
    requires Ok(child) in ChildItems(blob, offset, remaining, depth)
    ensures child.depth == depth <= MAX_TREE_DEPTH
    decreases remaining
  {
    hide NodeEnd;
    if remaining > 0 && ExtentEnd(blob, Node(offset, depth)).Ok? && child != Node(offset, depth) {
      ChildDepth(blob, ExtentEnd(blob, Node(offset, depth)).value, remaining - 1, depth, child);
    }
  }

  lemma HandedOutDepth(blob: Slice, node: Node, child: Node)
    requires HandsOut(blob, node, child)
    ensures child.depth == node.depth + 1 <= MAX_TREE_DEPTH
  {
    hide DecodeNodeHeader, FirstChild, ChildItems;
    var header := DecodeNodeHeader(blob, node.offset).value;
    ChildDepth(blob, FirstChild(blob, node.offset, header).value, header.childCount, node.depth + 1, child);
  }

  // ---- Paths ------------------------------------------------------------

  /** `rest` cut at every separator. */
  function Components(rest: seq<u8>): (parts: seq<seq<u8>>)
    ensures parts != []
    ensures forall part <- parts :: SLASH !in part
    decreases |rest|
  {
    match Position(rest, SLASH)
    case None => [rest]
    case Some(index) => [rest[..index]] + Components(rest[index + 1..])
  }

  /** Descends one component at a time, first match at each level. */
  function Descent(blob: Slice, node: Node, parts: seq<seq<u8>>): (r: Result<seq<Node>, AdtError>)
    requires parts != []
    ensures r.Ok? ==> |r.value| == |parts|
    decreases |parts|
  {
    if parts[1..] == [[]] || parts[0] == [] || |parts[0]| > MAX_NODE_NAME_LEN then Err(MalformedPath)
    else
      var child :- ChildNamed(blob, node, parts[0]);
      if |parts| == 1 then Ok([child])
      else
        var below :- Descent(blob, child, parts[1..]);
        Ok([child] + below)
  }

  /** The chain of nodes an absolute path names, root first. */
  function Resolved(blob: Slice, path: seq<u8>): (r: Result<seq<Node>, AdtError>)
    ensures r.Ok? ==> r.value != [] && r.value[0] == ROOT
  {
    hide Descent;
    if path == [] || path[0] != SLASH then Err(MalformedPath)
    else if |path| == 1 then Ok([ROOT])
    else
      var below :- Descent(blob, ROOT, Components(path[1..]));
      Ok([ROOT] + below)
  }

  /** A resolved path: a fixed array of nodes, root first, and its target. */
  class NodePath {
    const nodes: array<Node>
    var len: usize
    var target: Node

    ghost predicate Valid()
      reads this, nodes
    {
      nodes.Length == MAX_PATH_NODES && 1 <= len <= MAX_PATH_NODES && target == nodes[len - 1]
    }

    ghost function Chain(): (chain: seq<Node>)
      requires Valid()
      reads this, nodes
    {
      nodes[..len]
    }

    constructor (root: Node)
      ensures Valid() && fresh(nodes) && Chain() == [root]
    {
      nodes := new Node[MAX_PATH_NODES](_ => root);
      len := 1;
      target := root;
    }

    method Push(node: Node) returns (r: Result<(), AdtError>)
      requires Valid()
      modifies this, nodes
      ensures Valid()
      ensures r == if |old(Chain())| < MAX_PATH_NODES then Ok(()) else Err(PathTooDeep)
      ensures Chain() == if r.Ok? then old(Chain()) + [node] else old(Chain())
    {
      if len >= nodes.Length {
        return Err(PathTooDeep);
      }
      nodes[len] := node;
      len := len + 1;
      target := node;
      return Ok(());
    }
  }

  /** How the recursive lookup continues from `chain` with `rest` still to consume. */
  ghost function Onward(blob: Slice, chain: seq<Node>, rest: seq<u8>): (r: Result<seq<Node>, AdtError>)
    requires chain != []
  {
    if rest == [] then Ok(chain)
    else
      match Descent(blob, chain[|chain| - 1], Components(rest))
      case Err(error) => Err(error)
      case Ok(below) => Ok(chain + below)
  }

  lemma OnwardStart(blob: Slice, path: seq<u8>)
    requires path != [] && path[0] == SLASH
    ensures Onward(blob, [ROOT], path[1..]) == Resolved(blob, path)
  {
    hide Descent, Components;
  }

  lemma OnwardEnd(blob: Slice, chain: seq<Node>)
    requires chain != []
    ensures Onward(blob, chain, []) == Ok(chain)
  {
  }

  /** The next component of `rest` and what follows its separator. */
  ghost predicate Cut(rest: seq<u8>, part: seq<u8>, remainder: seq<u8>) {
    match Position(rest, SLASH)
    case None => part == rest && remainder == []
    case Some(index) => part == rest[..index] && remainder == rest[index + 1..]
  }

  lemma ComponentsCut(rest: seq<u8>, part: seq<u8>, remainder: seq<u8>)
    requires Cut(rest, part, remainder)
    ensures Components(rest)[0] == part
    ensures Components(rest)[1..] == if Position(rest, SLASH).None? then [] else Components(remainder)
    ensures Components(remainder) == [[]] <==> remainder == []
  {
    hide Position;
  }

  /** Consuming one accepted component moves the lookup one node down. */
  lemma OnwardStep(blob: Slice, chain: seq<Node>, rest: seq<u8>, part: seq<u8>, remainder: seq<u8>, child: Node)
    requires chain != [] && rest != [] && Cut(rest, part, remainder)
    requires Position(rest, SLASH).Some? ==> remainder != []
    requires part != [] && |part| <= MAX_NODE_NAME_LEN
    requires ChildNamed(blob, chain[|chain| - 1], part) == Ok(child)
    ensures Onward(blob, chain, rest) == Onward(blob, chain + [child], remainder)
  {
    hide *;
    ComponentsCut(rest, part, remainder);
    var node, tail := chain[|chain| - 1], Components(rest)[1..];
    assert Components(rest) == [part] + tail;
    DescentStep(blob, node, part, tail, child);
    OnwardIs(blob, chain, rest);
    OnwardIs(blob, chain + [child], remainder);
    if Position(rest, SLASH).Some? {
      var below := Descent(blob, child, Components(remainder));
      assert below.Ok? ==> chain + ([child] + below.value) == chain + [child] + below.value;
    } else {
      CutLast(rest, part, remainder);
    }
  }

  lemma OnwardIs(blob: Slice, chain: seq<Node>, rest: seq<u8>)
    requires chain != []
    ensures rest == [] ==> Onward(blob, chain, rest) == Ok(chain)
    ensures rest != [] ==>
      var below := Descent(blob, chain[|chain| - 1], Components(rest));
      Onward(blob, chain, rest) == if below.Err? then Err(below.error) else Ok(chain + below.value)
  {
    hide Descent, Components;
  }

  lemma DescentStep(blob: Slice, node: Node, part: seq<u8>, tail: seq<seq<u8>>, child: Node)
    requires part != [] && |part| <= MAX_NODE_NAME_LEN && tail != [[]]
    requires ChildNamed(blob, node, part) == Ok(child)
    ensures Descent(blob, node, [part] + tail)
         == if tail == [] then Ok([child])
            else if Descent(blob, child, tail).Err? then Descent(blob, child, tail)
            else Ok([child] + Descent(blob, child, tail).value)
  {
    hide ChildNamed;
    assert ([part] + tail)[1..] == tail;
  }

  lemma CutLast(rest: seq<u8>, part: seq<u8>, remainder: seq<u8>)
    requires Cut(rest, part, remainder) && Position(rest, SLASH).None?
    ensures remainder == []
  {
  }

  /** A component the loop refuses, or whose child lookup denies, denies the recursive lookup too. */
  lemma OnwardDenies(blob: Slice, chain: seq<Node>, rest: seq<u8>, part: seq<u8>, remainder: seq<u8>)
    requires chain != [] && rest != [] && Cut(rest, part, remainder)
    ensures (Position(rest, SLASH).Some? && remainder == []) || part == [] || |part| > MAX_NODE_NAME_LEN
      ==> Onward(blob, chain, rest) == Err(MalformedPath)
    ensures var child := ChildNamed(blob, chain[|chain| - 1], part);
      child.Err? && !(Position(rest, SLASH).Some? && remainder == []) && part != [] && |part| <= MAX_NODE_NAME_LEN
      ==> Onward(blob, chain, rest) == Err(child.error)
  {
    hide ChildNamed, Components, Cut, Position;
    ComponentsCut(rest, part, remainder);
  }

  /**
   The resolving loop agrees with the recursive lookup over the split path. Every
   node of the chain is handed out by the one before it, at its own depth, so the
   fixed array never overflows: `PathTooDeep` cannot be returned.
   */
  method Resolve(blob: Slice, path: seq<u8>) returns (r: Result<NodePath, AdtError>)
    ensures r.Ok? ==> fresh(r.value) && fresh(r.value.nodes) && r.value.Valid()
    ensures Resolved(blob, path) == (match r case Ok(found) => Ok(found.Chain()) case Err(error) => Err(error))
    ensures r.Ok? ==> Reachable(blob, r.value.Chain())
    ensures r.Ok? ==> forall i :: 0 <= i < |r.value.Chain()| ==> r.value.Chain()[i].depth == i
    ensures r != Err(PathTooDeep)
  {
    hide Scan, Descent, Components, ChildrenOf, Position, Onward;
    if path == [] || path[0] != SLASH {
      return Err(MalformedPath);
    }
    var chain := new NodePath(ROOT);
    var rest := path[1..];
    OnwardStart(blob, path);

    while rest != []
      invariant chain.Valid() && fresh(chain) && fresh(chain.nodes)
      invariant Onward(blob, chain.Chain(), rest) == Resolved(blob, path)
      invariant Reachable(blob, chain.Chain())
      invariant forall i :: 0 <= i < |chain.Chain()| ==> chain.Chain()[i].depth == i
      decreases |rest|
    {
      var separator := Position(rest, SLASH);
      var part, remainder := rest, [];
      if separator.Some? {
        part, remainder := rest[..separator.value], rest[separator.value + 1..];
      }
      OnwardDenies(blob, chain.Chain(), rest, part, remainder);
      if separator.Some? && remainder == [] {
        return Err(MalformedPath);
      }
      if part == [] || |part| > MAX_NODE_NAME_LEN {
        return Err(MalformedPath);
      }
      var found := FindChild(blob, chain.target, part);
      ScanIsNeverTooDeep(blob, chain.target, part);
      if found.Err? {
        return Err(found.error);
      }
      if found.value.None? {
        return Err(NodeNotFound);
      }
      var child := found.value.value;
      HandedOutDepth(blob, chain.target, child);
      OnwardStep(blob, chain.Chain(), rest, part, remainder, child);
      var pushed := chain.Push(child);
      if pushed.Err? {
        return Err(PathTooDeep);
      }
      rest := remainder;
    }
    OnwardEnd(blob, chain.Chain());
    return Ok(chain);
  }

  // ---- Resolution on a parsed tree ----------------------------------------

  lemma {:induction false} DescentReachable(blob: Slice, above: seq<Node>, parts: seq<seq<u8>>)
    requires parts != [] && Reachable(blob, above)
    requires forall i :: 0 <= i < |above| ==> above[i].depth == i
    requires Descent(blob, above[|above| - 1], parts).Ok?
    ensures var chain := above + Descent(blob, above[|above| - 1], parts).value;
      Reachable(blob, chain) && forall i :: 0 <= i < |chain| ==> chain[i].depth == i
    decreases |parts|
  {
    hide ChildNamed, ChildrenOf;
    var node := above[|above| - 1];
    var child := ChildNamed(blob, node, parts[0]).value;
    HandedOutDepth(blob, node, child);
    var further := above + [child];
    assert Reachable(blob, further);
    if |parts| > 1 {
      DescentReachable(blob, further, parts[1..]);
      assert further + Descent(blob, child, parts[1..]).value == above + Descent(blob, node, parts).value;
    }
  }

  /** Each node of a resolved chain is handed out by the one before it, one level down. */
  lemma ResolvedChain(blob: Slice, path: seq<u8>)
    requires Resolved(blob, path).Ok?
    ensures var chain := Resolved(blob, path).value;
      && Reachable(blob, chain) && |chain| <= MAX_PATH_NODES
      && forall i :: 0 <= i < |chain| ==> chain[i].depth == i
  {
    hide Descent, Components, ChildrenOf;
    if |path| > 1 {
      DescentReachable(blob, [ROOT], Components(path[1..]));
    }
    var chain := Resolved(blob, path).value;
    if |chain| > 1 {
      assert HandsOut(blob, chain[|chain| - 2], chain[|chain| - 1]);
      HandedOutDepth(blob, chain[|chain| - 2], chain[|chain| - 1]);
    }
  }

  /** The denials a lookup by name can still raise once the structure has been validated. */
  predicate IsNaming(error: AdtError) {
    || error.DuplicateProperty? || error.MissingNameProperty? || error.NodeNameValueTooLong?
    || error.UnterminatedStringValue? || error.NodeNotFound? || error.MalformedPath?
  }

  lemma NameDenials(blob: Slice, node: Node)
    requires Covered(blob, node)
    ensures var r := NodeName(blob, node); r.Err? ==> IsNaming(r.error)
  {
    hide Lookup, FirstNamed, NoneNamed, Covered;
    LookupMeaning(blob, node, Ascii("name"));
  }

  lemma {:induction false} ScanDenials(blob: Slice, kids: seq<Node>, name: seq<u8>)
    requires forall kid <- kids :: Covered(blob, kid)
    ensures var r := FirstChildNamed(blob, Yield(kids), name); r.Err? ==> IsNaming(r.error)
  {
    hide NodeName, Covered, IsNaming;
    if kids != [] {
      NameDenials(blob, kids[0]);
      ScanDenials(blob, kids[1..], name);
      assert Yield(kids)[1..] == Yield(kids[1..]);
    }
  }

  lemma {:induction false} DescentDenials(blob: Slice, node: Node, parts: seq<seq<u8>>)
    requires parts != [] && Covered(blob, node)
    ensures var r := Descent(blob, node, parts); r.Err? ==> IsNaming(r.error)
    decreases |parts|
  {
    hide ChildrenOf, FirstChildNamed, Covered, Kids;
    CoveredChildren(blob, node);
    ScanDenials(blob, Kids(blob, node), parts[0]);
    var child := ChildNamed(blob, node, parts[0]);
    if child.Ok? && |parts| > 1 {
      assert HandsOut(blob, node, child.value);
      DescentDenials(blob, child.value, parts[1..]);
    }
  }

  /** On a parsed tree no path, of any length, meets malformed structure or the depth limit. */
  lemma ResolutionDenials(blob: Slice, path: seq<u8>)
    requires Parsed(blob).Ok?
    ensures var r := Resolved(blob, path); r.Err? ==> IsNaming(r.error)
  {
    hide Descent, Components, NodeEnd;
    if |path| > 1 && path[0] == SLASH {
      DescentDenials(blob, ROOT, Components(path[1..]));
    }
  }
}
