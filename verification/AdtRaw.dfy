/**
 The structural layer of the Apple Device Tree decoder: record decoding and the
 iterative walk that validates a subtree, refined against a recursive grammar.
 */
module AdtRaw {
  import opened Results
  import opened Bytes

  datatype AdtError =
    | EmptyBlob | BlobTooSmallForRoot | MisalignedRecord | OffsetOverflow
    | TruncatedNodeHeader | ZeroPropertyCount
    | PropertyCountExceedsBuffer | PropertyCountExceedsCeiling
    | ChildCountExceedsBuffer | ChildCountExceedsCeiling
    | TruncatedPropertyHeader | PropertyNameNotTerminated | PlaceholderFlagSet
    | ValueLengthExceedsCeiling | TruncatedPropertyValue
    | DepthLimitExceeded | WalkBudgetExhausted
    | DuplicateProperty | PropertyNotFound | MissingNameProperty
    | NodeNameValueTooLong | NodeNameTooLong | UnterminatedStringValue
    | NodeNotFound | MalformedPath | PathTooDeep
    | PropertyLengthMismatch | MissingCellCounts | InvalidAddressCells | InvalidSizeCells
    | MissingParentNode | RegContainerOutOfRange
    | MalformedRangesEntry | NoMatchingRangesEntry | TranslationOverflow

  /** The denials the structural grammar can raise on offsets inside the blob. */
  predicate IsStructural(error: AdtError) {
    || error.MisalignedRecord? || error.TruncatedNodeHeader? || error.ZeroPropertyCount?
    || error.PropertyCountExceedsBuffer? || error.PropertyCountExceedsCeiling?
    || error.ChildCountExceedsBuffer? || error.ChildCountExceedsCeiling?
    || error.TruncatedPropertyHeader? || error.PropertyNameNotTerminated? || error.PlaceholderFlagSet?
    || error.ValueLengthExceedsCeiling? || error.TruncatedPropertyValue? || error.DepthLimitExceeded?
  }

  const NODE_HEADER_LEN: int := 8
  const PROPERTY_NAME_LEN: int := 32
  const PROPERTY_NAME_LAST: int := 31
  const PROPERTY_HEADER_LEN: int := 36
  const PLACEHOLDER_FLAG: int := 0x8000_0000
  const MAX_PROPERTY_COUNT: int := 2048
  const MAX_CHILD_COUNT: int := 2048
  const MAX_VALUE_LEN: int := 0x000f_ffff
  const MAX_TREE_DEPTH: int := 8

  /** The smallest accepted node: its header and one property header. */
  const MIN_NODE_LEN: int := 44

  datatype NodeHeader = NodeHeader(propertyCount: u32, childCount: u32)

  datatype RawProperty = RawProperty(name: seq<u8>, value: Slice, end: usize)

  /** Where an aligned property record with `valueLen` value bytes ends, its padding included. */
  function RecordEnd(offset: usize, valueLen: usize): (end: usize)
    requires offset <= ISIZE_MAX && offset % 4 == 0 && valueLen <= MAX_VALUE_LEN
    ensures end % 4 == 0 && offset + 36 + valueLen <= end < offset + 40 + valueLen
  {
    var raised := valueLen + 3;
    offset + PROPERTY_HEADER_LEN + (raised - raised % 4)
  }

  /** Accepting a header means its declared minimum fits and both ceilings hold. */
  function DecodeNodeHeader(blob: Slice, offset: usize): (r: Result<NodeHeader, AdtError>)
    ensures r.Ok? ==>
      && offset % 4 == 0
      && 1 <= r.value.propertyCount <= MAX_PROPERTY_COUNT
      && r.value.childCount <= MAX_CHILD_COUNT
      && offset + 8 + 36 * r.value.propertyCount + 8 * r.value.childCount <= |blob|
    ensures r.Err? ==> IsStructural(r.error)
  {
    hide LeValue, ReadU32Le;
    if offset % 4 != 0 then Err(MisalignedRecord) else
    if offset > |blob| then Err(TruncatedNodeHeader) else
    var remaining: usize := |blob| - offset;
    if remaining < NODE_HEADER_LEN then Err(TruncatedNodeHeader) else
    var propertyCount := ReadU32Le(blob, offset).value;
    var childCount := ReadU32Le(blob, offset + 4).value;
    if propertyCount == 0 then Err(ZeroPropertyCount) else
    var throughProperties: usize := NODE_HEADER_LEN + propertyCount * PROPERTY_HEADER_LEN;
    if throughProperties > remaining then Err(PropertyCountExceedsBuffer) else
    if propertyCount > MAX_PROPERTY_COUNT then Err(PropertyCountExceedsCeiling) else
    var throughChildren: usize := throughProperties + childCount * NODE_HEADER_LEN;
    if throughChildren > remaining then Err(ChildCountExceedsBuffer) else
    if childCount > MAX_CHILD_COUNT then Err(ChildCountExceedsCeiling) else
    Ok(NodeHeader(propertyCount, childCount))
  }

  /** The declared value length of the property record at `offset`, its fixed part checked. */
  function PropertyValueLen(blob: Slice, offset: usize): (r: Result<usize, AdtError>)
    ensures r.Ok? ==>
      offset % 4 == 0 && offset + 36 <= |blob| && r.value <= MAX_VALUE_LEN && blob[offset + 31] == 0
    ensures r.Err? && offset <= |blob| ==> IsStructural(r.error)
  {
    hide LeValue, ReadU32Le;
    if offset % 4 != 0 then Err(MisalignedRecord) else
    if offset + PROPERTY_HEADER_LEN >= TWO_64 then Err(OffsetOverflow) else
    if offset + PROPERTY_HEADER_LEN > |blob| then Err(TruncatedPropertyHeader) else
    if blob[offset + PROPERTY_NAME_LAST] != 0 then Err(PropertyNameNotTerminated) else
    var lengthWord := ReadU32Le(blob, offset + PROPERTY_NAME_LEN).value;
    if lengthWord >= PLACEHOLDER_FLAG then Err(PlaceholderFlagSet) else
    if lengthWord > MAX_VALUE_LEN then Err(ValueLengthExceedsCeiling) else
    Ok(lengthWord)
  }

  /** Accepting a property means its padded record lies inside the blob. */
  function DecodeProperty(blob: Slice, offset: usize): (r: Result<RawProperty, AdtError>)
    ensures r.Ok? ==>
      && offset % 4 == 0 && r.value.end % 4 == 0
      && offset + 36 + |r.value.value| <= r.value.end <= |blob|
    ensures r.Err? && offset <= |blob| ==> IsStructural(r.error)
  {
    hide PropertyValueLen, RecordEnd;
    var valueLen :- PropertyValueLen(blob, offset);
    var headerEnd := offset + PROPERTY_HEADER_LEN;
    var end := RecordEnd(offset, valueLen);
    if end > |blob| then Err(TruncatedPropertyValue) else
    Ok(RawProperty(blob[offset..offset + PROPERTY_NAME_LEN], blob[headerEnd..headerEnd + valueLen], end))
  }

  // ---- What each denial of a record means --------------------------------

  /**
   Why a node header is refused. A count is over its ceiling only when what it declares would
   have fitted, so an absurd count is refused for space.
   */
  ghost predicate HeaderRefused(blob: Slice, offset: usize, error: AdtError) {
    if offset % 4 != 0 then error == MisalignedRecord
    else if offset + 8 > |blob| then error == TruncatedNodeHeader
    else
      var properties, children := LeValue(blob[offset..offset + 4]), LeValue(blob[offset + 4..offset + 8]);
      CountsRefused(properties, children, |blob| - offset - 8, error)
  }

  ghost predicate CountsRefused(properties: nat, children: nat, room: nat, error: AdtError) {
    match error
    case ZeroPropertyCount => properties == 0
    case PropertyCountExceedsBuffer => 36 * properties > room
    case PropertyCountExceedsCeiling => 36 * properties <= room && properties > 2048
    case ChildCountExceedsBuffer =>
      1 <= properties <= 2048 && 36 * properties <= room < 36 * properties + 8 * children
    case ChildCountExceedsCeiling =>
      1 <= properties <= 2048 && 36 * properties + 8 * children <= room && children > 2048
    case _ => false
  }

  lemma HeaderDenials(blob: Slice, offset: usize, error: AdtError)
    ensures DecodeNodeHeader(blob, offset) == Err(error) <==> HeaderRefused(blob, offset, error)
  {
    hide LeValue, ReadU32Le, IsStructural, CountsRefused;
    if offset % 4 == 0 && offset + 8 <= |blob| {
      var properties, children := ReadU32Le(blob, offset).value, ReadU32Le(blob, offset + 4).value;
      assert properties == LeValue(blob[offset..offset + 4]) && children == LeValue(blob[offset + 4..offset + 8]);
      CountDenials(properties, children, |blob| - offset - 8, error);
    }
  }

  lemma CountDenials(properties: u32, children: u32, room: nat, error: AdtError)
    ensures CountsRefused(properties, children, room, error) <==>
      Some(error) == if properties == 0 then Some(ZeroPropertyCount)
                     else if 36 * properties > room then Some(PropertyCountExceedsBuffer)
                     else if properties > 2048 then Some(PropertyCountExceedsCeiling)
                     else if 36 * properties + 8 * children > room then Some(ChildCountExceedsBuffer)
                     else if children > 2048 then Some(ChildCountExceedsCeiling)
                     else None
  {
  }

  /** Why a property record is refused: the top bit of its length is a flag, the rest the length. */
  ghost predicate PropertyRefused(blob: Slice, offset: usize, error: AdtError) {
    if offset % 4 != 0 then error == MisalignedRecord
    else if offset + 36 > |blob| then error == if offset + 36 >= TWO_64 then OffsetOverflow else TruncatedPropertyHeader
    else if blob[offset + 31] != 0 then error == PropertyNameNotTerminated
    else if blob[offset + 35] >= 0x80 then error == PlaceholderFlagSet
    else
      var length := LeValue(blob[offset + 32..offset + 36]);
      match error
      case ValueLengthExceedsCeiling => length > 0xF_FFFF
      case TruncatedPropertyValue => length <= 0xF_FFFF && offset + 36 + (length + 3) / 4 * 4 > |blob|
      case _ => false
  }

  lemma PropertyDenials(blob: Slice, offset: usize, error: AdtError)
    ensures DecodeProperty(blob, offset) == Err(error) <==> PropertyRefused(blob, offset, error)
  {
    hide PropertyValueLen, LeValue, IsStructural, RecordEnd;
    LengthDenials(blob, offset);
    if offset % 4 == 0 && offset + 36 <= |blob| {
      var length := LeValue(blob[offset + 32..offset + 36]);
      if length <= 0xF_FFFF {
        PaddedEnd(offset, length);
      }
    }
  }

  lemma PaddedEnd(offset: usize, length: usize)
    requires offset <= ISIZE_MAX && offset % 4 == 0 && length <= MAX_VALUE_LEN
    ensures RecordEnd(offset, length) == offset + 36 + (length + 3) / 4 * 4
  {
  }

  lemma LengthDenials(blob: Slice, offset: usize)
    ensures PropertyValueLen(blob, offset) ==
      if offset % 4 != 0 then Err(MisalignedRecord)
      else if offset + 36 > |blob| then Err(if offset + 36 >= TWO_64 then OffsetOverflow else TruncatedPropertyHeader)
      else if blob[offset + 31] != 0 then Err(PropertyNameNotTerminated)
      else if blob[offset + 35] >= 0x80 then Err(PlaceholderFlagSet)
      else
        var length := LeValue(blob[offset + 32..offset + 36]);
        if length > 0xF_FFFF then Err(ValueLengthExceedsCeiling) else Ok(length)
  {
    hide LeValue, IsStructural;
    if offset % 4 == 0 && offset + 36 <= |blob| {
      ByteOrder(blob[offset + 32..offset + 36]);
    }
  }

  // ---- The recursive grammar -------------------------------------------

  /** Where `count` consecutive property records starting at `cursor` end. */
  function PropertiesEnd(blob: Slice, cursor: usize, count: nat): (r: Result<usize, AdtError>)
    ensures r.Ok? ==> cursor + 36 * count <= r.value
    ensures r.Ok? && cursor <= |blob| ==> r.value <= |blob|
    ensures r.Ok? && count > 0 ==> r.value % 4 == 0
    ensures r.Err? && cursor <= |blob| ==> IsStructural(r.error)
    decreases count
  {
    if count == 0 then Ok(cursor)
    else
      var property :- DecodeProperty(blob, cursor);
      PropertiesEnd(blob, property.end, count - 1)
  }

  /** The offset of a node's first child, once its declared children can fit after it. */
  function FirstChild(blob: Slice, offset: usize, header: NodeHeader): (r: Result<usize, AdtError>)
    requires offset + 8 <= |blob|
    ensures r.Ok? ==>
      && offset + 8 + 36 * header.propertyCount <= r.value
      && r.value + 8 * header.childCount <= |blob|
    ensures r.Ok? && header.propertyCount > 0 ==> r.value % 4 == 0
    ensures r.Err? ==> IsStructural(r.error)
  {
    var first :- PropertiesEnd(blob, offset + NODE_HEADER_LEN, header.propertyCount);
    var available: usize := |blob| - first;
    var childrenMinimum: usize := header.childCount * NODE_HEADER_LEN;
    if childrenMinimum > available then Err(ChildCountExceedsBuffer) else Ok(first)
  }

  /**
   The recursive grammar of a node: header, properties, then its children in turn.
   `limit` is how many levels may still be descended. The result is the offset
   just past the subtree, or the first violation met left to right.
   */
  function NodeEnd(blob: Slice, offset: usize, limit: nat): (r: Result<usize, AdtError>)
    ensures r.Ok? ==> offset + MIN_NODE_LEN <= r.value <= |blob| && r.value % 4 == 0
    ensures r.Err? ==> IsStructural(r.error)
    decreases limit, 0
  {
    var header :- DecodeNodeHeader(blob, offset);
    var first :- FirstChild(blob, offset, header);
    if header.childCount == 0 then Ok(first)
    else if limit == 0 then Err(DepthLimitExceeded)
    else SiblingsEnd(blob, first, header.childCount, limit - 1)
  }

  /** `count` consecutive subtrees starting at `offset`. */
  function SiblingsEnd(blob: Slice, offset: usize, count: nat, limit: nat): (r: Result<usize, AdtError>)
    ensures r.Ok? ==> offset + MIN_NODE_LEN * count <= r.value
    ensures r.Ok? && (count > 0 || offset <= |blob|) ==> r.value <= |blob|
    ensures r.Ok? && (count > 0 || offset % 4 == 0) ==> r.value % 4 == 0
    ensures r.Err? ==> IsStructural(r.error)
    decreases limit, count + 1
  {
    if count == 0 then Ok(offset)
    else
      var end :- NodeEnd(blob, offset, limit);
      SiblingsEnd(blob, end, count - 1, limit)
  }

  // ---- Introduction rules -----------------------------------------------

  lemma HeaderIntro(blob: Slice, offset: usize, propertyCount: u32, childCount: u32)
    requires offset % 4 == 0 && offset + 8 + 36 * propertyCount + 8 * childCount <= |blob|
    requires 1 <= propertyCount <= MAX_PROPERTY_COUNT && childCount <= MAX_CHILD_COUNT
    requires ReadU32Le(blob, offset) == Some(propertyCount)
    requires ReadU32Le(blob, offset + 4) == Some(childCount)
    ensures DecodeNodeHeader(blob, offset) == Ok(NodeHeader(propertyCount, childCount))
  {
    hide ReadU32Le, LeValue;
  }

  lemma PropertyIntro(blob: Slice, offset: usize, valueLen: usize)
    requires valueLen <= MAX_VALUE_LEN
    requires offset <= |blob| && offset % 4 == 0 && RecordEnd(offset, valueLen) <= |blob|
    requires blob[offset + 31] == 0 && ReadU32Le(blob, offset + 32) == Some(valueLen)
    ensures DecodeProperty(blob, offset)
         == Ok(RawProperty(blob[offset..offset + 32], blob[offset + 36..offset + 36 + valueLen],
                           RecordEnd(offset, valueLen)))
  {
    hide ReadU32Le, LeValue, RecordEnd;
  }

  lemma NodeIntro(blob: Slice, offset: usize, header: NodeHeader, first: usize, limit: nat)
    requires DecodeNodeHeader(blob, offset) == Ok(header)
    requires PropertiesEnd(blob, offset + 8, header.propertyCount) == Ok(first)
    requires first + 8 * header.childCount <= |blob|
    ensures FirstChild(blob, offset, header) == Ok(first)
    ensures NodeEnd(blob, offset, limit)
         == if header.childCount == 0 then Ok(first)
            else if limit == 0 then Err(DepthLimitExceeded)
            else SiblingsEnd(blob, first, header.childCount, limit - 1)
  {
    hide DecodeNodeHeader, PropertiesEnd, SiblingsEnd, IsStructural;
  }

  lemma NodeElim(blob: Slice, offset: usize, limit: nat) returns (header: NodeHeader, first: usize)
    requires NodeEnd(blob, offset, limit).Ok?
    ensures DecodeNodeHeader(blob, offset) == Ok(header)
    ensures PropertiesEnd(blob, offset + 8, header.propertyCount) == Ok(first)
    ensures FirstChild(blob, offset, header) == Ok(first) && first + 8 * header.childCount <= |blob|
    ensures header.childCount > 0 ==>
      limit > 0 && NodeEnd(blob, offset, limit) == SiblingsEnd(blob, first, header.childCount, limit - 1)
    ensures header.childCount == 0 ==> NodeEnd(blob, offset, limit) == Ok(first)
  {
    hide DecodeNodeHeader, PropertiesEnd, SiblingsEnd, IsStructural;
    header := DecodeNodeHeader(blob, offset).value;
    first := FirstChild(blob, offset, header).value;
  }

  // ---- The iterative walk ----------------------------------------------

  method EndOfProperties(blob: Slice, offset: usize, propertyCount: u32) returns (r: Result<usize, AdtError>)
    requires offset + 8 <= |blob|
    ensures r == PropertiesEnd(blob, offset + NODE_HEADER_LEN, propertyCount)
  {
    var cursor: usize := offset + NODE_HEADER_LEN;
    var walked: u32 := 0;
    while walked < propertyCount
      invariant walked <= propertyCount
      invariant PropertiesEnd(blob, offset + NODE_HEADER_LEN, propertyCount)
             == PropertiesEnd(blob, cursor, propertyCount - walked)
    {
      var property :- DecodeProperty(blob, cursor);
      cursor := property.end;
      walked := walked + 1;
    }
    return Ok(cursor);
  }

  method FirstChildOffset(blob: Slice, offset: usize, header: NodeHeader) returns (r: Result<usize, AdtError>)
    requires offset + 8 <= |blob|
    ensures r == FirstChild(blob, offset, header)
  {
    var first :- EndOfProperties(blob, offset, header.propertyCount);
    var available: usize := |blob| - first;
    var childrenMinimum: usize := header.childCount * NODE_HEADER_LEN;
    if childrenMinimum > available {
      return Err(ChildCountExceedsBuffer);
    }
    return Ok(first);
  }

  /**
   What the whole walk still owes once the node at depth `|frames|` has ended
   with `outcome`: `frames[d]` siblings remain at depth `d + 1`.
   */
  ghost function Unwind(blob: Slice, outcome: Result<usize, AdtError>, frames: seq<u32>, limit: nat)
    : (r: Result<usize, AdtError>)
    requires |frames| <= limit
    ensures outcome.Err? || frames == [] ==> r == outcome
    decreases |frames|
  {
    if outcome.Err? || frames == [] then outcome
    else
      var top := |frames| - 1;
      Unwind(blob, SiblingsEnd(blob, outcome.value, frames[top], limit - |frames|), frames[..top], limit)
  }

  /** A node with children owes one fewer sibling after its first child. */
  lemma Descend(blob: Slice, offset: usize, header: NodeHeader, first: usize, frames: seq<u32>, limit: nat)
    requires |frames| < limit && header.childCount > 0
    requires DecodeNodeHeader(blob, offset) == Ok(header) && FirstChild(blob, offset, header) == Ok(first)
    ensures Unwind(blob, NodeEnd(blob, offset, limit - |frames|), frames, limit)
         == Unwind(blob, NodeEnd(blob, first, limit - |frames| - 1), frames + [header.childCount - 1], limit)
  {
    hide DecodeNodeHeader, FirstChild;
    assert (frames + [header.childCount - 1])[..|frames|] == frames;
  }

  /** Resuming at an owed sibling takes it off the frame that owed it. */
  lemma NextSibling(blob: Slice, cursor: usize, frames: seq<u32>, owed: u32, limit: nat)
    requires |frames| < limit && owed > 0
    ensures Unwind(blob, Ok(cursor), frames + [owed], limit)
         == Unwind(blob, NodeEnd(blob, cursor, limit - |frames| - 1), frames + [owed - 1], limit)
  {
    hide NodeEnd;
    assert (frames + [owed])[..|frames|] == frames;
    assert (frames + [owed - 1])[..|frames|] == frames;
  }

  /** A frame that owes nothing passes its child's end upward unchanged. */
  lemma PopFrame(blob: Slice, cursor: usize, frames: seq<u32>, limit: nat)
    requires |frames| < limit
    ensures Unwind(blob, Ok(cursor), frames + [0], limit) == Unwind(blob, Ok(cursor), frames, limit)
  {
    assert (frames + [0])[..|frames|] == frames;
  }

  /** Pops settled frames; stops at the root or at a frame that still owes a sibling. */
  method UnwindSettled(blob: Slice, cursor: usize, pending: array<u32>, depth: nat, limit: nat)
    returns (remaining: nat)
    requires depth <= limit <= pending.Length
    modifies pending
    ensures remaining <= depth
    ensures remaining == 0 ==> Ok(cursor) == old(Unwind(blob, Ok(cursor), pending[..depth], limit))
    ensures remaining > 0 ==>
      Unwind(blob, NodeEnd(blob, cursor, limit - remaining), pending[..remaining], limit)
        == old(Unwind(blob, Ok(cursor), pending[..depth], limit))
  {
    hide NodeEnd, SiblingsEnd, Unwind;
    remaining := depth;
    while remaining > 0
      invariant remaining <= depth
      invariant forall i :: 0 <= i < pending.Length ==> pending[i] == old(pending[i])
      invariant Unwind(blob, Ok(cursor), pending[..remaining], limit)
             == old(Unwind(blob, Ok(cursor), pending[..depth], limit))
    {
      var index := remaining - 1;
      ghost var below := pending[..index];
      assert pending[..remaining] == below + [pending[index]];
      if pending[index] > 0 {
        NextSibling(blob, cursor, below, pending[index], limit);
        pending[index] := pending[index] - 1;
        assert pending[..remaining] == below + [pending[index]];
        return;
      }
      PopFrame(blob, cursor, below, limit);
      remaining := index;
    }
  }

  /** The walk over an 8-slot stack of owed siblings returns exactly what the grammar returns. */
  method WalkNodeEnd(blob: Slice, start: usize, depthBudget: usize) returns (r: Result<usize, AdtError>)
    ensures r == NodeEnd(blob, start, Min(depthBudget, MAX_TREE_DEPTH))
  {
    hide DecodeNodeHeader, FirstChild, SiblingsEnd, Unwind;
    var limit: nat := Min(depthBudget, MAX_TREE_DEPTH);
    var pending := new u32[MAX_TREE_DEPTH](_ => 0);
    var depth: nat := 0;
    var offset: usize := start;
    var budget: usize := |blob| / NODE_HEADER_LEN + 1;
    ghost var visited := 0;
    ghost var goal := NodeEnd(blob, start, limit);

    while true
      invariant depth <= limit <= pending.Length
      invariant visited + budget == |blob| / NODE_HEADER_LEN + 1
      invariant visited > 0 ==> MIN_NODE_LEN * visited <= offset <= |blob|
      invariant goal == Unwind(blob, NodeEnd(blob, offset, limit - depth), pending[..depth], limit)
      decreases budget
    {
      if budget == 0 {
        r := Err(WalkBudgetExhausted);
        break;
      }
      budget := budget - 1;
      visited := visited + 1;

      var decoded := DecodeNodeHeader(blob, offset);
      if decoded.Err? {
        r := Err(decoded.error);
        break;
      }
      var header := decoded.value;
      var located := FirstChildOffset(blob, offset, header);
      if located.Err? {
        r := located;
        break;
      }
      var cursor := located.value;

      if header.childCount > 0 {
        if depth >= limit {
          r := Err(DepthLimitExceeded);
          break;
        }
        ghost var below := pending[..depth];
        Descend(blob, offset, header, cursor, below, limit);
        pending[depth] := header.childCount - 1;
        depth := depth + 1;
        assert pending[..depth] == below + [header.childCount - 1];
        offset := cursor;
      } else {
        depth := UnwindSettled(blob, cursor, pending, depth, limit);
        if depth == 0 {
          r := Ok(cursor);
          break;
        }
        offset := cursor;
      }
    }
  }
}
