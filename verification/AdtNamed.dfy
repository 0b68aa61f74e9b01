/**
 What names and paths mean in the bytes of a parsed tree: which property a lookup finds, what
 a node is called, and which nodes a path leads through.
 */
module AdtNamed {
  import opened Results
  import opened Bytes
  import opened AdtRaw
  import opened AdtNode
  import opened AdtPath

  // ---- Property names -------------------------------------------------------------------

  /** `field` opens with `name` and a NUL, and has no NUL before that one. */
  ghost predicate Spells(field: seq<u8>, name: seq<u8>) {
    |name| < |field| && field[..|name|] == name && field[|name|] == 0 && 0 !in name
  }

  /** A decoded property: its name field is 32 bytes and ends in a NUL. */
  ghost predicate Decoded(item: Result<Property, AdtError>) {
    item.Ok? && |item.value.nameField| == 32 && item.value.nameField[31] == 0
  }

  lemma {:induction false} ItemsDecode(blob: Slice, offset: usize, count: nat)
    requires PropertiesEnd(blob, offset, count).Ok?
    ensures forall item <- PropertyItems(blob, offset, count) :: Decoded(item)
    decreases count
  {
    hide DecodeProperty;
    if count > 0 {
      var raw := DecodeProperty(blob, offset).value;
      ItemsDecode(blob, raw.end, count - 1);
      NameFieldOf(blob, offset);
    }
  }

  lemma NameFieldOf(blob: Slice, offset: usize)
    requires DecodeProperty(blob, offset).Ok?
    ensures var name := DecodeProperty(blob, offset).value.name; |name| == 32 && name[31] == 0
  {
    hide PropertyValueLen, RecordEnd;
    assert blob[offset..offset + 32][31] == blob[offset + 31];
  }

  /** A property answers to `name` exactly when its name field spells it. */
  lemma IsNamedMeaning(property: Property, name: seq<u8>)
    requires Decoded(Ok(property))
    ensures property.IsNamed(name) <==> Spells(property.nameField, name)
  {
    hide Position;
    var field := property.nameField;
    assert field[31] in field;
    var at := Position(field, 0).value;
    if Spells(field, name) {
      PositionUnique(field, 0, |name|);
    }
  }

  ghost function Items(blob: Slice, node: Node): (items: seq<Result<Property, AdtError>>)
    requires Covered(blob, node)
  {
    hide Covered, PropertiesOf;
    CoveredProperties(blob, node);
    PropertiesOf(blob, node).value
  }

  /** Property `k` of the node. */
  ghost predicate SpelledAt(items: seq<Result<Property, AdtError>>, k: int, name: seq<u8>) {
    0 <= k < |items| && items[k].Ok? && Spells(items[k].value.nameField, name)
  }

  lemma AllDecoded(blob: Slice, node: Node)
    requires Covered(blob, node)
    ensures PropertiesOf(blob, node).Ok? && forall item <- PropertiesOf(blob, node).value :: Decoded(item)
  {
    hide DecodeNodeHeader, PropertyItems, SiblingsEnd, Decoded;
    ItemsDecode(blob, node.offset + NODE_HEADER_LEN, Header(blob, node).propertyCount);
  }

  lemma CoveredItems(blob: Slice, node: Node, name: seq<u8>)
    requires Covered(blob, node)
    ensures PropertiesOf(blob, node) == Ok(Items(blob, node))
    ensures forall i :: 0 <= i < |Items(blob, node)| ==>
      Items(blob, node)[i].Ok? && (Items(blob, node)[i].value.IsNamed(name) <==> SpelledAt(Items(blob, node), i, name))
  {
    hide Covered, PropertiesOf, Spells, Property.IsNamed;
    CoveredProperties(blob, node);
    var items := Items(blob, node);
    AllDecoded(blob, node);
    forall i | 0 <= i < |items| ensures items[i].Ok? && (items[i].value.IsNamed(name) <==> SpelledAt(items, i, name)) {
      assert items[i] in items;
      IsNamedMeaning(items[i].value, name);
    }
  }

  // ---- Properties of a node -------------------------------------------------------------

  /** The node has exactly one property of this name, and `value` is its value. */
  ghost predicate HasValue(blob: Slice, node: Node, name: seq<u8>, value: seq<u8>) {
    Covered(blob, node) && exists k :: OnlyAt(Items(blob, node), k, name) && Items(blob, node)[k].value.value == value
  }

  ghost predicate OnlyAt(items: seq<Result<Property, AdtError>>, k: int, name: seq<u8>) {
    SpelledAt(items, k, name) && forall i :: SpelledAt(items, i, name) ==> i == k
  }

  ghost predicate FirstAt(items: seq<Result<Property, AdtError>>, k: int, name: seq<u8>) {
    SpelledAt(items, k, name) && forall i :: 0 <= i < k ==> !SpelledAt(items, i, name)
  }

  /** The node has no property of this name. */
  ghost predicate Lacks(blob: Slice, node: Node, name: seq<u8>) {
    Covered(blob, node) && forall i :: !SpelledAt(Items(blob, node), i, name)
  }

  lemma ValueIsUnique(blob: Slice, node: Node, name: seq<u8>, a: seq<u8>, b: seq<u8>)
    requires HasValue(blob, node, name, a) && HasValue(blob, node, name, b)
    ensures a == b
  {
    hide Covered, Items, SpelledAt;
  }

  /** The properties whose repetition denies a lookup. */
  const CRITICAL_NAMES: seq<string> := [
    "name", "compatible", "reg", "ranges", "#address-cells", "#size-cells", "cpu-impl-reg", "chip-id",
    "device_type", "state"
  ]

  ghost predicate Critical(name: seq<u8>) {
    exists i :: 0 <= i < |CRITICAL_NAMES| && name == Ascii(CRITICAL_NAMES[i])
  }

  lemma CriticalIs(name: seq<u8>)
    ensures IsCritical(name) <==> Critical(name)
  {
    hide Ascii;
    var names := CRITICAL_NAMES;
    assert names[0] == "name" && names[1] == "compatible" && names[2] == "reg" && names[3] == "ranges";
    assert names[4] == "#address-cells" && names[5] == "#size-cells" && names[6] == "cpu-impl-reg";
    assert names[7] == "chip-id" && names[8] == "device_type" && names[9] == "state";
  }

  lemma FirstIsOnly(items: seq<Result<Property, AdtError>>, name: seq<u8>, k: nat)
    requires forall i :: 0 <= i < |items| ==>
      items[i].Ok? && (items[i].value.IsNamed(name) <==> SpelledAt(items, i, name))
    requires FirstNamed(items, name, k)
    ensures NoneNamed(items, name, k + 1) <==> OnlyAt(items, k, name)
    ensures !NoneNamed(items, name, k + 1) ==> forall j :: !OnlyAt(items, j, name)
  {
    hide Position, Spells;
    if !NoneNamed(items, name, k + 1) {
      var i :| k + 1 <= i < |items| && items[i].value.IsNamed(name);
      assert SpelledAt(items, i, name) && SpelledAt(items, k, name);
    }
  }

  /**
   A lookup of a critical name finds the one property so spelled, finds nothing when there is
   none, and denies when there are several.
   */
  lemma CriticalLookup(blob: Slice, node: Node, name: seq<u8>)
    requires Covered(blob, node) && Critical(name)
    ensures match Lookup(blob, node, name)
      case Ok(found) =>
        if found.None? then Lacks(blob, node, name) else HasValue(blob, node, name, found.value.value)
      case Err(error) =>
        && error == DuplicateProperty && !Lacks(blob, node, name)
        && forall value :: !HasValue(blob, node, name, value)
  {
    hide Lookup, IsCritical, Critical, Covered, Spells, Items, PropertiesOf, Property.IsNamed;
    CriticalIs(name);
    CoveredItems(blob, node, name);
    LookupMeaning(blob, node, name);
    var items := Items(blob, node);
    if !NoneNamed(items, name, 0) {
      var k: nat :| FirstNamed(items, name, k);
      FirstIsOnly(items, name, k);
      assert SpelledAt(items, k, name);
    }
  }

  /** A value is found exactly when it is the one of that name. */
  lemma LookupIs(blob: Slice, node: Node, name: seq<u8>, value: seq<u8>)
    requires Covered(blob, node) && Critical(name)
    ensures HasValue(blob, node, name, value) <==>
      Lookup(blob, node, name).Ok? && Lookup(blob, node, name).value.Some?
      && Lookup(blob, node, name).value.value.value == value
    ensures Lacks(blob, node, name) <==> Lookup(blob, node, name) == Ok(None)
  {
    hide Lookup, Covered, Items, SpelledAt;
    CriticalLookup(blob, node, name);
    forall other | HasValue(blob, node, name, other) && HasValue(blob, node, name, value) ensures other == value {
      ValueIsUnique(blob, node, name, other, value);
    }
  }

  /** Any other name is found by its first spelling, repeated or not. */
  lemma OrdinaryLookup(blob: Slice, node: Node, name: seq<u8>)
    requires Covered(blob, node) && !Critical(name)
    ensures Lookup(blob, node, name).Ok?
    ensures Lookup(blob, node, name) == Ok(None) <==> Lacks(blob, node, name)
    ensures forall k :: FirstAt(Items(blob, node), k, name) ==>
      Lookup(blob, node, name) == Ok(Some(Items(blob, node)[k].value))
  {
    hide Lookup, IsCritical, Critical, Covered, Spells, Items, PropertiesOf, Property.IsNamed;
    CriticalIs(name);
    CoveredItems(blob, node, name);
    LookupMeaning(blob, node, name);
    var items := Items(blob, node);
    if !NoneNamed(items, name, 0) {
      var k: nat :| FirstNamed(items, name, k);
      assert SpelledAt(items, k, name);
    }
    forall k | FirstAt(items, k, name)
      ensures Lookup(blob, node, name) == Ok(Some(items[k].value))
    {
      assert FirstNamed(items, name, k);
    }
  }

  // ---- What a node is called ---------------------------------------------------------------

  /** The node's one `name` property holds `name` and a NUL, in at most 64 bytes. */
  ghost predicate Called(blob: Slice, node: Node, name: seq<u8>) {
    exists value :: HasValue(blob, node, Ascii("name"), value) && |value| <= 64 && Spells(value, name)
  }

  lemma NameIsCritical()
    ensures Critical(Ascii("name"))
  {
    assert CRITICAL_NAMES[0] == "name";
  }

  lemma NodeNameMeaning(blob: Slice, node: Node, name: seq<u8>)
    requires Covered(blob, node)
    ensures NodeName(blob, node) == Ok(name) <==> Called(blob, node, name)
  {
    hide Lookup, HasValue, Covered, Position, Critical, Ascii;
    NameIsCritical();
    CriticalLookup(blob, node, Ascii("name"));
    var found := Lookup(blob, node, Ascii("name"));
    if found.Ok? && found.value.Some? {
      var value := found.value.value.value;
      forall other | HasValue(blob, node, Ascii("name"), other) ensures other == value {
        ValueIsUnique(blob, node, Ascii("name"), other, value);
      }
      if Spells(value, name) {
        PositionUnique(value, 0, |name|);
      }
    } else if found.Ok? {
      LacksHasNone(blob, node, Ascii("name"));
    }
  }

  /** Why a node has no name: no such property, several, one over 64 bytes, or one without a NUL. */
  lemma NameRefused(blob: Slice, node: Node)
    requires Covered(blob, node)
    ensures var name := Ascii("name");
      match NodeName(blob, node)
      case Ok(_) => true
      case Err(error) =>
        || (error == MissingNameProperty && Lacks(blob, node, name))
        || (&& error == DuplicateProperty && !Lacks(blob, node, name)
            && forall value :: !HasValue(blob, node, name, value))
        || (error == NodeNameValueTooLong && exists value :: HasValue(blob, node, name, value) && |value| > 64)
        || (error == UnterminatedStringValue && exists value :: HasValue(blob, node, name, value) && 0 !in value)
  {
    hide Lookup, HasValue, Lacks, Covered, Position, Critical, Ascii;
    NameIsCritical();
    CriticalLookup(blob, node, Ascii("name"));
  }

  lemma LacksHasNone(blob: Slice, node: Node, name: seq<u8>)
    requires Lacks(blob, node, name)
    ensures forall value :: !HasValue(blob, node, name, value)
  {
    hide Covered, Items, SpelledAt;
  }

  // ---- Children by name ----------------------------------------------------------------------

  ghost predicate CalledElse(blob: Slice, node: Node, name: seq<u8>) {
    exists other :: other != name && Called(blob, node, other)
  }

  /** `child` is the first child called `name`, and every child before it is called something else. */
  ghost predicate FirstCalled(blob: Slice, node: Node, name: seq<u8>, child: Node) {
    Covered(blob, node) && exists k: nat :: FirstKid(blob, Kids(blob, node), name, k) && Kids(blob, node)[k] == child
  }

  ghost predicate FirstKid(blob: Slice, kids: seq<Node>, name: seq<u8>, k: nat) {
    k < |kids| && Called(blob, kids[k], name) && forall i :: 0 <= i < k ==> CalledElse(blob, kids[i], name)
  }

  /** Every child is called something else. */
  ghost predicate NoneCalled(blob: Slice, node: Node, name: seq<u8>) {
    Covered(blob, node) && forall i :: 0 <= i < |Kids(blob, node)| ==> CalledElse(blob, Kids(blob, node)[i], name)
  }

  lemma ElseMeaning(blob: Slice, node: Node, name: seq<u8>)
    requires Covered(blob, node)
    ensures NamedOtherwise(blob, Ok(node), name) <==> CalledElse(blob, node, name)
  {
    hide NodeName, Called, Covered;
    forall other ensures NodeName(blob, node) == Ok(other) <==> Called(blob, node, other) {
      NodeNameMeaning(blob, node, other);
    }
  }

  /** The first child by name, in terms of what children are called. */
  lemma KidsMeaning(blob: Slice, kids: seq<Node>, name: seq<u8>)
    requires forall kid <- kids :: Covered(blob, kid)
    ensures forall k: nat :: FirstChildAt(blob, Yield(kids), name, k) <==> FirstKid(blob, kids, name, k)
    ensures (forall i :: 0 <= i < |kids| ==> NamedOtherwise(blob, Yield(kids)[i], name)) <==>
      forall i :: 0 <= i < |kids| ==> CalledElse(blob, kids[i], name)
  {
    hide NodeName, Called, CalledElse, NamedOtherwise, Covered;
    var items := Yield(kids);
    forall i | 0 <= i < |kids|
      ensures items[i] == Ok(kids[i])
      ensures NodeName(blob, kids[i]) == Ok(name) <==> Called(blob, kids[i], name)
      ensures NamedOtherwise(blob, items[i], name) <==> CalledElse(blob, kids[i], name)
    {
      NodeNameMeaning(blob, kids[i], name);
      ElseMeaning(blob, kids[i], name);
    }
  }

  lemma {:induction false} ScanNeverLoses(blob: Slice, kids: seq<Node>, name: seq<u8>)
    ensures FirstChildNamed(blob, Yield(kids), name) != Err(NodeNotFound)
  {
    hide NodeName;
    if kids != [] {
      ScanNeverLoses(blob, kids[1..], name);
      NamesAreNeverLost(blob, kids[0]);
      assert Yield(kids)[1..] == Yield(kids[1..]);
    }
  }

  lemma NamesAreNeverLost(blob: Slice, node: Node)
    ensures NodeName(blob, node) != Err(NodeNotFound)
  {
    hide Lookup, Position;
    LookupErrors(blob, node, Ascii("name"));
  }

  /** A child lookup gives the first child so called, and loses its way exactly when none is. */
  lemma ChildMeaning(blob: Slice, node: Node, name: seq<u8>, child: Node)
    requires Covered(blob, node)
    ensures ChildNamed(blob, node, name) == Ok(child) <==> FirstCalled(blob, node, name, child)
    ensures ChildNamed(blob, node, name) == Err(NodeNotFound) <==> NoneCalled(blob, node, name)
  {
    hide FirstChildNamed, FirstChildAt, FirstKid, CalledElse, NamedOtherwise, Kids, ChildrenOf, Covered, Yield;
    CoveredChildren(blob, node);
    var kids := Kids(blob, node);
    KidsMeaning(blob, kids, name);
    FirstChildMeaning(blob, Yield(kids), name);
    ScanNeverLoses(blob, kids, name);
    var r := FirstChildNamed(blob, Yield(kids), name);
    if r.Ok? && r.value.Some? {
      var k: nat :| FirstChildAt(blob, Yield(kids), name, k);
      KidAt(blob, kids, name, k);
    }
    forall k: nat | FirstKid(blob, kids, name, k)
      ensures k < |kids| && r == Ok(Some(kids[k]))
    {
      KidAt(blob, kids, name, k);
    }
  }

  lemma KidAt(blob: Slice, kids: seq<Node>, name: seq<u8>, k: nat)
    requires FirstKid(blob, kids, name, k)
    ensures k < |kids| && Yield(kids)[k] == Ok(kids[k])
  {
    hide Called, CalledElse;
  }

  // ---- Paths ------------------------------------------------------------------------------------

  /** The path of these parts: each after a separator. */
  function Joined(parts: seq<seq<u8>>): (path: seq<u8>) {
    if parts == [] then [] else [SLASH] + parts[0] + Joined(parts[1..])
  }

  ghost predicate Slashless(parts: seq<seq<u8>>) {
    forall part <- parts :: SLASH !in part
  }

  lemma {:induction false} ComponentsJoin(rest: seq<u8>)
    ensures [SLASH] + rest == Joined(Components(rest))
    decreases |rest|
  {
    hide Position;
    var parts := Components(rest);
    match Position(rest, SLASH)
    case None =>
      assert Joined(parts[1..]) == [];
    case Some(at) =>
      ComponentsJoin(rest[at + 1..]);
      assert parts[1..] == Components(rest[at + 1..]);
      assert rest == rest[..at] + ([SLASH] + rest[at + 1..]);
  }

  lemma JoinedTail(rest: seq<u8>, parts: seq<seq<u8>>)
    requires parts != [] && [SLASH] + rest == Joined(parts)
    ensures rest == parts[0] + Joined(parts[1..])
  {
    hide Joined;
    JoinedIs(parts);
    SameAfterHead(SLASH, rest, parts[0] + Joined(parts[1..]));
  }

  lemma JoinedIs(parts: seq<seq<u8>>)
    requires parts != []
    ensures Joined(parts) == [SLASH] + (parts[0] + Joined(parts[1..]))
  {
    var tail := Joined(parts[1..]);
    assert [SLASH] + parts[0] + tail == [SLASH] + (parts[0] + tail);
  }

  lemma SameAfterHead(head: u8, a: seq<u8>, b: seq<u8>)
    requires [head] + a == [head] + b
    ensures a == b
  {
    assert ([head] + a)[1..] == a && ([head] + b)[1..] == b;
  }

  lemma JoinedOpens(parts: seq<seq<u8>>)
    requires parts != []
    ensures Joined(parts) != [] && Joined(parts)[0] == SLASH
  {
  }

  lemma {:induction false} JoinedIsCut(rest: seq<u8>, parts: seq<seq<u8>>)
    requires parts != [] && Slashless(parts) && [SLASH] + rest == Joined(parts)
    ensures Components(rest) == parts
    decreases |parts|
  {
    hide Position, Joined;
    JoinedTail(rest, parts);
    var tail, at := Joined(parts[1..]), |parts[0]|;
    assert SLASH !in parts[0];
    if |parts| == 1 {
      assert tail == [] by { NothingJoined(); }
      assert rest == parts[0] && parts == [rest];
    } else {
      JoinedOpens(parts[1..]);
      assert rest[..at] == parts[0] && rest[at..] == tail;
      PositionUnique(rest, SLASH, at);
      assert [SLASH] + rest[at + 1..] == tail;
      JoinedIsCut(rest[at + 1..], parts[1..]);
    }
  }

  lemma NothingJoined()
    ensures Joined([]) == []
  {
  }

  /** Cutting a path at every separator is the one way to write it as parts. */
  lemma ComponentsMeaning(rest: seq<u8>, parts: seq<seq<u8>>)
    ensures Components(rest) == parts <==> parts != [] && Slashless(parts) && [SLASH] + rest == Joined(parts)
  {
    hide Components, Joined;
    ComponentsJoin(rest);
    if parts != [] && Slashless(parts) && [SLASH] + rest == Joined(parts) {
      JoinedIsCut(rest, parts);
    }
  }

  /** Each node of `chain` is the first child so called of the one before it. */
  ghost predicate Along(blob: Slice, chain: seq<Node>, parts: seq<seq<u8>>) {
    && |chain| == |parts| + 1
    && forall i :: 0 <= i < |parts| ==> FirstCalled(blob, chain[i], parts[i], chain[i + 1])
  }

  lemma AlongStep(blob: Slice, node: Node, below: seq<Node>, parts: seq<seq<u8>>)
    requires parts != []
    ensures Along(blob, [node] + below, parts) <==>
      below != [] && FirstCalled(blob, node, parts[0], below[0]) && Along(blob, below, parts[1..])
  {
    hide FirstCalled;
    var chain, rest := [node] + below, parts[1..];
    if |below| == |parts| {
      if Along(blob, chain, parts) {
        assert FirstCalled(blob, chain[0], parts[0], chain[1]);
        forall i | 0 <= i < |rest| ensures FirstCalled(blob, below[i], rest[i], below[i + 1]) {
          var next := i + 1;
          assert FirstCalled(blob, chain[next], parts[next], chain[next + 1]);
        }
      }
      if FirstCalled(blob, node, parts[0], below[0]) && Along(blob, below, rest) {
        forall i | 0 <= i < |parts| ensures FirstCalled(blob, chain[i], parts[i], chain[i + 1]) {
          if i > 0 {
            var before := i - 1;
            assert FirstCalled(blob, below[before], rest[before], below[before + 1]);
          }
        }
      }
    }
  }

  lemma CalledIsCovered(blob: Slice, node: Node, name: seq<u8>, child: Node)
    requires FirstCalled(blob, node, name, child)
    ensures Covered(blob, child)
  {
    hide Covered, Items, SpelledAt;
  }

  ghost predicate AllPlain(parts: seq<seq<u8>>) {
    forall part <- parts :: 1 <= |part| <= 63
  }

  /** A descent gives the chain that its parts spell. */
  lemma {:induction false} DescentMeaning(blob: Slice, node: Node, parts: seq<seq<u8>>, below: seq<Node>)
    requires parts != [] && Covered(blob, node)
    ensures Descent(blob, node, parts) == Ok(below) <==> AllPlain(parts) && Along(blob, [node] + below, parts)
    decreases |parts|
  {
    hide Descent, ChildNamed, Covered, FirstCalled, Along, AllPlain;
    AlongStep(blob, node, below, parts);
    DescentUnfold(blob, node, parts, below);
    SplitParts(parts);
    if below != [] {
      var child := below[0];
      ChildMeaning(blob, node, parts[0], child);
      assert [child] + below[1..] == below;
      if FirstCalled(blob, node, parts[0], child) {
        CalledIsCovered(blob, node, parts[0], child);
        if |parts| > 1 {
          DescentMeaning(blob, child, parts[1..], below[1..]);
        } else {
          LastAlong(blob, below, parts[1..]);
        }
      }
    }
  }

  lemma SplitParts(parts: seq<seq<u8>>)
    requires parts != []
    ensures AllPlain(parts) <==> 1 <= |parts[0]| <= 63 && AllPlain(parts[1..])
    ensures parts[1..] == [[]] ==> !AllPlain(parts)
    ensures |parts| == 1 ==> parts[1..] == [] && AllPlain(parts[1..])
  {
    assert parts == [parts[0]] + parts[1..];
    if parts[1..] == [[]] {
      assert parts[1] in parts;
    }
  }

  lemma LastAlong(blob: Slice, chain: seq<Node>, parts: seq<seq<u8>>)
    requires parts == []
    ensures Along(blob, chain, parts) <==> |chain| == 1
  {
  }

  lemma {:induction false} DescentForm(blob: Slice, node: Node, parts: seq<seq<u8>>)
    requires parts != []
    ensures Descent(blob, node, parts) ==
      if parts[1..] == [[]] || parts[0] == [] || |parts[0]| > 63 then Err(MalformedPath)
      else match ChildNamed(blob, node, parts[0])
        case Err(error) => Err(error)
        case Ok(child) =>
          if |parts| == 1 then Ok([child]) else Prepended(child, Descent(blob, child, parts[1..]))
  {
    hide ChildNamed;
  }

  function Prepended(child: Node, below: Result<seq<Node>, AdtError>): (r: Result<seq<Node>, AdtError>) {
    match below
    case Err(error) => Err(error)
    case Ok(chain) => Ok([child] + chain)
  }

  lemma PrependedIs(child: Node, below: Result<seq<Node>, AdtError>, chain: seq<Node>)
    ensures Prepended(child, below) == Ok(chain) <==>
      chain != [] && chain[0] == child && below == Ok(chain[1..])
  {
    if chain != [] {
      assert chain == [chain[0]] + chain[1..];
    }
  }

  lemma {:induction false} DescentUnfold(blob: Slice, node: Node, parts: seq<seq<u8>>, below: seq<Node>)
    requires parts != []
    ensures Descent(blob, node, parts) == Ok(below) <==>
      && parts[1..] != [[]] && 1 <= |parts[0]| <= 63
      && below != [] && ChildNamed(blob, node, parts[0]) == Ok(below[0])
      && if |parts| == 1 then |below| == 1 else Descent(blob, below[0], parts[1..]) == Ok(below[1..])
  {
    hide ChildNamed, Descent, Prepended;
    DescentForm(blob, node, parts);
    var child := ChildNamed(blob, node, parts[0]);
    if parts[1..] != [[]] && 1 <= |parts[0]| <= 63 && child.Ok? {
      if |parts| == 1 {
        assert [child.value] == below <==> |below| == 1 && below[0] == child.value;
      } else {
        PrependedIs(child.value, Descent(blob, child.value, parts[1..]), below);
      }
    }
  }

  /** The nodes an absolute path names: the root alone, or the chain its parts spell. */
  ghost predicate Leads(blob: Slice, path: seq<u8>, chain: seq<Node>) {
    || (path == Ascii("/") && chain == [ROOT])
    || exists parts :: PartsLead(blob, path, parts, chain)
  }

  ghost predicate PartsLead(blob: Slice, path: seq<u8>, parts: seq<seq<u8>>, chain: seq<Node>) {
    && parts != [] && path == Joined(parts) && Slashless(parts) && AllPlain(parts)
    && chain != [] && chain[0] == ROOT && Along(blob, chain, parts)
  }

  /** On a parsed tree a path resolves exactly to the chain it leads along. */
  lemma ResolvedMeaning(blob: Slice, path: seq<u8>, chain: seq<Node>)
    requires Parsed(blob).Ok?
    ensures Resolved(blob, path) == Ok(chain) <==> Leads(blob, path, chain)
  {
    hide Resolved, Descent, Components, Joined, Along, AllPlain, Slashless, NodeEnd, Ascii;
    RootPath();
    RootResolves(blob, path);
    if |path| > 1 && path[0] == SLASH {
      var rest := path[1..];
      assert path == [SLASH] + rest;
      var parts := Components(rest);
      ComponentsMeaning(rest, parts);
      LongPath(blob, path, chain);
      if chain != [] && chain[0] == ROOT {
        DescentMeaning(blob, ROOT, parts, chain[1..]);
        assert chain == [ROOT] + chain[1..];
      }
      forall other | PartsLead(blob, path, other, chain) ensures other == parts {
        ComponentsMeaning(rest, other);
      }
      assert PartsLead(blob, path, parts, chain) <==> Resolved(blob, path) == Ok(chain);
    } else {
      forall parts ensures !PartsLead(blob, path, parts, chain) {
        if parts != [] && AllPlain(parts) {
          SplitParts(parts);
          ShortPath(path, parts);
        }
      }
    }
  }

  lemma LongPath(blob: Slice, path: seq<u8>, chain: seq<Node>)
    requires |path| > 1 && path[0] == SLASH
    ensures Resolved(blob, path) == Ok(chain) <==>
      chain != [] && chain[0] == ROOT && Descent(blob, ROOT, Components(path[1..])) == Ok(chain[1..])
  {
    hide Descent, Components;
    if chain != [] {
      assert chain == [chain[0]] + chain[1..];
    }
  }

  lemma RootPath()
    ensures Ascii("/") == [SLASH]
  {
  }

  lemma RootResolves(blob: Slice, path: seq<u8>)
    ensures path == [SLASH] ==> Resolved(blob, path) == Ok([ROOT])
    ensures path == [] || path[0] != SLASH ==> Resolved(blob, path).Err?
  {
  }

  /** What has a part of its own is longer than a separator. */
  lemma ShortPath(path: seq<u8>, parts: seq<seq<u8>>)
    requires |path| <= 1 || path[0] != SLASH
    ensures !(parts != [] && path == Joined(parts) && 1 <= |parts[0]|)
  {
    if parts != [] && path == Joined(parts) {
      assert path == [SLASH] + (parts[0] + Joined(parts[1..]));
    }
  }

  // ---- Paths that lead nowhere -----------------------------------------------------------------

  /** Part `j` can be looked up: it is not empty or too long, and no separator ends the path after it. */
  ghost predicate Passable(parts: seq<seq<u8>>, j: nat) {
    j < |parts| && 1 <= |parts[j]| <= 63 && !(j + 2 == |parts| && parts[j + 1] == [])
  }

  /** The parts lead along `chain`, whose last node has no child called as the next part says. */
  ghost predicate Lost(blob: Slice, parts: seq<seq<u8>>, chain: seq<Node>) {
    && 1 <= |chain| <= |parts| && Along(blob, chain, parts[..|chain| - 1])
    && (forall j: nat :: j < |chain| ==> Passable(parts, j))
    && NoneCalled(blob, chain[|chain| - 1], parts[|chain| - 1])
  }

  lemma PassableTail(parts: seq<seq<u8>>, n: nat)
    requires parts != []
    ensures (forall j: nat :: j < n + 1 ==> Passable(parts, j)) <==>
      Passable(parts, 0) && forall j: nat :: j < n ==> Passable(parts[1..], j)
  {
    forall j: nat ensures Passable(parts, j + 1) <==> Passable(parts[1..], j) {
    }
    if Passable(parts, 0) && forall j: nat :: j < n ==> Passable(parts[1..], j) {
      forall j: nat | j < n + 1 ensures Passable(parts, j) {
        if j > 0 {
          var before := j - 1;
          assert Passable(parts[1..], before);
        }
      }
    }
    if forall j: nat :: j < n + 1 ==> Passable(parts, j) {
      forall j: nat | j < n ensures Passable(parts[1..], j) {
        var next := j + 1;
        assert Passable(parts, next);
      }
    }
  }

  lemma LostHere(blob: Slice, node: Node, parts: seq<seq<u8>>)
    requires parts != []
    ensures Lost(blob, parts, [node]) <==> Passable(parts, 0) && NoneCalled(blob, node, parts[0])
  {
    hide NoneCalled, Passable;
    assert parts[..0] == [];
  }

  lemma LostBelow(blob: Slice, node: Node, below: seq<Node>, parts: seq<seq<u8>>)
    requires parts != [] && below != []
    ensures Lost(blob, parts, [node] + below) <==>
      Passable(parts, 0) && FirstCalled(blob, node, parts[0], below[0]) && Lost(blob, parts[1..], below)
  {
    hide NoneCalled, Passable, Along, FirstCalled;
    var chain := [node] + below;
    if |below| < |parts| {
      PassableTail(parts, |below|);
      var front := parts[..|below|];
      AlongStep(blob, node, below, front);
      assert front[1..] == parts[1..][..|below| - 1];
      assert chain[|chain| - 1] == below[|below| - 1];
    }
  }

  lemma DescentLoses(blob: Slice, node: Node, parts: seq<seq<u8>>)
    requires parts != []
    ensures Descent(blob, node, parts) == Err(NodeNotFound) <==>
      && Passable(parts, 0)
      && (|| ChildNamed(blob, node, parts[0]) == Err(NodeNotFound)
          || (&& ChildNamed(blob, node, parts[0]).Ok? && |parts| > 1
              && Descent(blob, ChildNamed(blob, node, parts[0]).value, parts[1..]) == Err(NodeNotFound)))
  {
    hide ChildNamed, Descent;
    DescentForm(blob, node, parts);
    assert parts[1..] == [[]] <==> |parts| == 2 && parts[1] == [];
  }

  lemma {:induction false} LosesItsWay(blob: Slice, node: Node, parts: seq<seq<u8>>) returns (chain: seq<Node>)
    requires parts != [] && Covered(blob, node)
    requires Descent(blob, node, parts) == Err(NodeNotFound)
    ensures Lost(blob, parts, chain) && chain[0] == node
    decreases |parts|
  {
    hide Descent, ChildNamed, Covered, FirstCalled, NoneCalled, Lost, Passable;
    DescentLoses(blob, node, parts);
    var child := ChildNamed(blob, node, parts[0]);
    if child.Ok? {
      ChildMeaning(blob, node, parts[0], child.value);
      CalledIsCovered(blob, node, parts[0], child.value);
      var below := LosesItsWay(blob, child.value, parts[1..]);
      LostIsLong(blob, parts[1..], below);
      LostBelow(blob, node, below, parts);
      chain := [node] + below;
    } else {
      ChildMeaning(blob, node, parts[0], node);
      LostHere(blob, node, parts);
      chain := [node];
    }
  }

  /** A descent finds nothing exactly when it gets lost on the way. */
  lemma DescentLost(blob: Slice, node: Node, parts: seq<seq<u8>>)
    requires parts != [] && Covered(blob, node)
    ensures Descent(blob, node, parts) == Err(NodeNotFound) <==>
      exists chain :: Lost(blob, parts, chain) && chain[0] == node
  {
    hide Descent, Covered, Along, Passable, NoneCalled;
    if Descent(blob, node, parts) == Err(NodeNotFound) {
      var chain := LosesItsWay(blob, node, parts);
    }
    forall chain | Lost(blob, parts, chain) && chain[0] == node
      ensures Descent(blob, node, parts) == Err(NodeNotFound)
    {
      LostMeansLost(blob, node, parts, chain);
    }
  }

  lemma LostIsLong(blob: Slice, parts: seq<seq<u8>>, chain: seq<Node>)
    requires Lost(blob, parts, chain)
    ensures 1 <= |chain| <= |parts|
  {
  }

  lemma {:induction false} LostMeansLost(blob: Slice, node: Node, parts: seq<seq<u8>>, chain: seq<Node>)
    requires parts != [] && Covered(blob, node)
    requires Lost(blob, parts, chain) && chain[0] == node
    ensures Descent(blob, node, parts) == Err(NodeNotFound)
    decreases |parts|
  {
    hide Descent, ChildNamed, Covered, FirstCalled, NoneCalled, Lost, Passable;
    LostIsLong(blob, parts, chain);
    var below := chain[1..];
    assert chain == [node] + below;
    DescentLoses(blob, node, parts);
    if below == [] {
      assert chain == [node];
      LostHere(blob, node, parts);
      ChildMeaning(blob, node, parts[0], node);
    } else {
      LostBelow(blob, node, below, parts);
      LostIsLong(blob, parts[1..], below);
      ChildMeaning(blob, node, parts[0], below[0]);
      CalledIsCovered(blob, node, parts[0], below[0]);
      LostMeansLost(blob, below[0], parts[1..], below);
    }
  }

  /** The path gets lost: some node on its way has no child called as the next part says. */
  ghost predicate LeadsNowhere(blob: Slice, path: seq<u8>) {
    exists parts, chain ::
      && parts != [] && path == Joined(parts) && Slashless(parts)
      && Lost(blob, parts, chain) && chain[0] == ROOT
  }

  /** On a parsed tree a path finds nothing exactly when it gets lost. */
  lemma MissingMeaning(blob: Slice, path: seq<u8>)
    requires Parsed(blob).Ok?
    ensures Resolved(blob, path) == Err(NodeNotFound) <==> LeadsNowhere(blob, path)
  {
    hide Resolved, Descent, Components, Joined, Lost, Slashless, NodeEnd;
    MissingPath(blob, path);
    if |path| > 1 && path[0] == SLASH {
      var rest := path[1..];
      assert path == [SLASH] + rest;
      var parts := Components(rest);
      ComponentsMeaning(rest, parts);
      DescentLost(blob, ROOT, parts);
      forall other | other != [] && path == Joined(other) && Slashless(other) ensures other == parts {
        ComponentsMeaning(rest, other);
      }
    } else {
      forall parts, chain | parts != [] && path == Joined(parts)
        ensures !Lost(blob, parts, chain)
      {
        ShortPath(path, parts);
        NotPassable(blob, parts, chain);
      }
    }
  }

  lemma NotPassable(blob: Slice, parts: seq<seq<u8>>, chain: seq<Node>)
    requires parts != [] && |parts[0]| == 0
    ensures !Lost(blob, parts, chain)
  {
    hide Along, NoneCalled;
    assert !Passable(parts, 0);
  }

  lemma MissingPath(blob: Slice, path: seq<u8>)
    ensures Resolved(blob, path) == Err(NodeNotFound) <==>
      |path| > 1 && path[0] == SLASH && Descent(blob, ROOT, Components(path[1..])) == Err(NodeNotFound)
  {
    hide Descent, Components;
  }
}
