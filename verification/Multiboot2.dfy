/**
 The boot information structure of section 3.6 of the Multiboot2 Specification: the two
 tag walkers, and the relocation that stages the structure and the shell module.
 */
module Multiboot2 {
  import opened Results
  import opened Bytes

  const TAG_TYPE_MODULE: int := 3
  const MODULE_TAG_FIXED_BYTES: int := 16
  const INFO_SCRATCH: int := 0x00C0_0000
  const SHELL_SCRATCH: int := 0x0100_0000

  function ShellName(): (name: seq<u8>)
    ensures NulFree(name) && name == Ascii("shell")
  {
    [0x73, 0x68, 0x65, 0x6c, 0x6c]
  }

  predicate NulFree(name: seq<u8>) {
    0 !in name
  }

  datatype ModuleLocation = ModuleLocation(start: u32, end: u32)

  // ---- The structure, as a byte sequence starting at its own first byte ---------------

  /** Rounds up to 8 with the source's 32-bit wrap-around. */
  function RoundUp(size: u32): (padded: u32)
    ensures size + 7 < TWO_32 ==> size <= padded < size + 8 && padded % 8 == 0
  {
    (size + 7) % TWO_32 / 8 * 8
  }

  /** One tag at `t`: it fits, it advances the walk, and a module tag's string ends inside it. */
  predicate TagFits(info: seq<u8>, t: nat) {
    && t + 8 <= |info| < TWO_32
    && 8 <= U32At(info, t + 4) && t + U32At(info, t + 4) <= t + RoundUp(U32At(info, t + 4)) <= |info|
    && (U32At(info, t) == TAG_TYPE_MODULE ==>
          && MODULE_TAG_FIXED_BYTES <= U32At(info, t + 4)
          && 0 in info[t + MODULE_TAG_FIXED_BYTES..t + U32At(info, t + 4)])
  }

  function NextTag(info: seq<u8>, t: nat): (next: nat)
    requires TagFits(info, t)
    ensures t + 8 <= next <= |info|
  {
    t + RoundUp(U32At(info, t + 4))
  }

  predicate WellFormedFrom(info: seq<u8>, t: nat)
    decreases |info| - t
  {
    t == |info| || (TagFits(info, t) && WellFormedFrom(info, NextTag(info, t)))
  }

  predicate WellFormed(info: seq<u8>) {
    8 <= |info| < TWO_32 && U32At(info, 0) == |info| && WellFormedFrom(info, 8)
  }

  predicate IsModule(info: seq<u8>, t: nat) {
    TagFits(info, t) && U32At(info, t) == TAG_TYPE_MODULE
  }

  /** A module tag's string, up to its terminator. */
  function ModuleName(info: seq<u8>, t: nat): (name: seq<u8>)
    requires IsModule(info, t)
    ensures NulFree(name)
  {
    var s := info[t + MODULE_TAG_FIXED_BYTES..t + U32At(info, t + 4)];
    s[..Position(s, 0).value]
  }

  function LocationAt(info: seq<u8>, t: nat): (location: ModuleLocation)
    requires IsModule(info, t)
  {
    ModuleLocation(U32At(info, t + 8), U32At(info, t + 12))
  }

  /** A non-empty module of this name. */
  predicate Matches(info: seq<u8>, t: nat, name: seq<u8>)
    requires TagFits(info, t)
  {
    IsModule(info, t) && LocationAt(info, t).end > LocationAt(info, t).start && ModuleName(info, t) == name
  }

  /** The first matching tag from `t` on. */
  function First(info: seq<u8>, t: nat, name: seq<u8>): (r: Option<nat>)
    requires WellFormedFrom(info, t)
    ensures r.Some? ==> t <= r.value && TagFits(info, r.value) && Matches(info, r.value, name)
    decreases |info| - t
  {
    if t == |info| then None
    else if Matches(info, t, name) then Some(t)
    else First(info, NextTag(info, t), name)
  }

  /** Where a module of this name lies. */
  function Lookup(info: seq<u8>, name: seq<u8>): (r: Option<ModuleLocation>)
    requires WellFormed(info)
  {
    match First(info, 8, name)
    case Some(t) => Some(LocationAt(info, t))
    case None => None
  }

  // ---- Comparing a string in memory --------------------------------------------------------

  /** `name` and a terminator lie at `address`. */
  ghost predicate StringAt(m: seq<u8>, address: nat, name: seq<u8>) {
    Part(m, address, name + [0])
  }

  /** Comparing `name` at `address` stays inside memory: as long as the bytes agree there is another one. */
  ghost predicate Comparable(m: seq<u8>, address: nat, name: seq<u8>) {
    address < |m| && forall i :: 0 <= i <= |name| && Part(m, address, name[..i]) ==> address + i < |m|
  }

  /** One more byte agrees exactly when one more byte of the name is in place. */
  lemma PartGrows(m: seq<u8>, address: nat, name: seq<u8>, i: nat)
    requires i < |name| && address + i < |m| && Part(m, address, name[..i])
    ensures Part(m, address, name[..i + 1]) <==> m[address + i] == name[i]
  {
    PartSplit(m, address, name[..i], [name[i]]);
    assert name[..i] + [name[i]] == name[..i + 1];
  }

  lemma PrefixOfString(m: seq<u8>, address: nat, name: seq<u8>, i: nat)
    requires i <= |name| && StringAt(m, address, name)
    ensures Part(m, address, name[..i])
  {
    PartSplit(m, address, name[..i], name[i..] + [0]);
    assert name[..i] + (name[i..] + [0]) == name + [0];
  }

  lemma WholeString(m: seq<u8>, address: nat, name: seq<u8>)
    requires address + |name| < |m| && Part(m, address, name)
    ensures StringAt(m, address, name) <==> m[address + |name|] == 0
  {
    PartSplit(m, address, name, [0]);
  }

  /** Compares byte by byte and then requires the terminator; it reads nothing past the first difference. */
  method StringMatches(memory: array<u8>, address: nat, name: seq<u8>) returns (r: bool)
    requires Comparable(memory[..], address, name)
    ensures r == StringAt(memory[..], address, name)
  {
    ghost var m := memory[..];
    var i := 0;
    assert Part(m, address, name[..0]);
    hide StringAt, Part;
    while i < |name|
      invariant 0 <= i <= |name| && Part(m, address, name[..i])
    {
      PartGrows(m, address, name, i);
      if memory[address + i] != name[i] {
        if StringAt(m, address, name) {
          PrefixOfString(m, address, name, i + 1);
        }
        return false;
      }
      i := i + 1;
    }
    assert name[..i] == name;
    WholeString(m, address, name);
    r := memory[address + |name|] == 0;
  }

  // ---- The walkers, over physical memory ------------------------------------------------------

  /** The structure at `base`, as its own total size delimits it. */
  function InfoAt(m: seq<u8>, base: nat): (info: seq<u8>)
    requires base + 4 <= |m| && base + U32At(m, base) <= |m|
  {
    m[base..base + U32At(m, base)]
  }

  predicate Structure(m: seq<u8>, base: nat) {
    base + 4 <= |m| && base + U32At(m, base) <= |m| && WellFormed(InfoAt(m, base))
  }

  /** A non-empty module tag whose string in memory is `name`; the name may hold any bytes. */
  ghost predicate MatchesAt(m: seq<u8>, base: nat, info: seq<u8>, t: nat, name: seq<u8>)
    requires TagFits(info, t)
  {
    && IsModule(info, t) && LocationAt(info, t).end > LocationAt(info, t).start
    && StringAt(m, base + t + MODULE_TAG_FIXED_BYTES, name)
  }

  /** From tag `t` on, every comparison a walk makes stays inside memory. */
  ghost predicate ComparableFrom(m: seq<u8>, base: nat, info: seq<u8>, t: nat, name: seq<u8>)
    requires WellFormedFrom(info, t)
    decreases |info| - t
  {
    t == |info| ||
    (&& (IsModule(info, t) ==> Comparable(m, base + t + MODULE_TAG_FIXED_BYTES, name))
     && ComparableFrom(m, base, info, NextTag(info, t), name))
  }

  /** The first tag from `t` on that matches in memory. */
  ghost function FirstAt(m: seq<u8>, base: nat, info: seq<u8>, t: nat, name: seq<u8>): (r: Option<nat>)
    requires WellFormedFrom(info, t)
    ensures r.Some? ==> t <= r.value && TagFits(info, r.value) && MatchesAt(m, base, info, r.value, name)
    decreases |info| - t
  {
    if t == |info| then None
    else if MatchesAt(m, base, info, t, name) then Some(t)
    else FirstAt(m, base, info, NextTag(info, t), name)
  }

  method ReadU32At(memory: array<u8>, address: nat) returns (value: u32)
    requires address + 4 <= memory.Length
    ensures value == U32At(memory[..], address)
  {
    assert memory[address..address + 4] == memory[..][address..address + 4];
    PowWidths();
    value := LeValue(memory[address..address + 4]);
  }

  lemma WordInPart(m: seq<u8>, base: nat, info: seq<u8>, offset: nat)
    requires Part(m, base, info) && offset + 4 <= |info|
    ensures base + offset + 4 <= |m| && U32At(m, base + offset) == U32At(info, offset)
  {
    hide LeValue, U32At;
    SubSlice(m, base, base + |info|, offset, 4);
  }

  /** A word of the structure, read at its physical address. */
  method ReadInfoWord(memory: array<u8>, base: nat, offset: nat, ghost info: seq<u8>) returns (value: u32)
    requires Part(memory[..], base, info) && offset + 4 <= |info|
    ensures value == U32At(info, offset)
  {
    hide Part, U32At;
    WordInPart(memory[..], base, info, offset);
    value := ReadU32At(memory, base + offset);
  }

  method TagMatchesModuleName(memory: array<u8>, base: nat, t: nat, name: seq<u8>, ghost info: seq<u8>)
    returns (r: bool)
    requires Part(memory[..], base, info) && TagFits(info, t)
    requires IsModule(info, t) ==> Comparable(memory[..], base + t + MODULE_TAG_FIXED_BYTES, name)
    ensures r == MatchesAt(memory[..], base, info, t, name)
  {
    hide U32At, StringAt, Comparable, Part;
    var tagType := ReadInfoWord(memory, base, t, info);
    if tagType != TAG_TYPE_MODULE {
      return false;
    }
    var start := ReadInfoWord(memory, base, t + 8, info);
    var end := ReadInfoWord(memory, base, t + 12, info);
    if end <= start {
      return false;
    }
    r := StringMatches(memory, base + t + MODULE_TAG_FIXED_BYTES, name);
  }

  method InspectTag(memory: array<u8>, base: nat, t: nat, name: seq<u8>, ghost info: seq<u8>)
    returns (r: Option<ModuleLocation>)
    requires Part(memory[..], base, info) && TagFits(info, t)
    requires IsModule(info, t) ==> Comparable(memory[..], base + t + MODULE_TAG_FIXED_BYTES, name)
    ensures r == if MatchesAt(memory[..], base, info, t, name) then Some(LocationAt(info, t)) else None
  {
    hide U32At, StringAt, Comparable, Part;
    var tagType := ReadInfoWord(memory, base, t, info);
    if tagType == 0 {
      return None;
    }
    if tagType != TAG_TYPE_MODULE {
      return None;
    }
    var start := ReadInfoWord(memory, base, t + 8, info);
    var end := ReadInfoWord(memory, base, t + 12, info);
    if end <= start {
      return None;
    }
    var same := StringMatches(memory, base + t + MODULE_TAG_FIXED_BYTES, name);
    if !same {
      return None;
    }
    return Some(ModuleLocation(start, end));
  }

  method Advance(memory: array<u8>, base: nat, tag: nat, ghost info: seq<u8>) returns (next: nat)
    requires Part(memory[..], base, info) && base <= tag && TagFits(info, tag - base)
    ensures next == base + NextTag(info, tag - base)
  {
    hide U32At, Part;
    var size := ReadInfoWord(memory, base, tag - base + 4, info);
    next := tag + RoundUp(size);
  }

  /** Reading the structure from memory: where its bytes are and where its first tag is. */
  lemma StructureMeaning(m: seq<u8>, base: nat)
    requires Structure(m, base)
    ensures base + 4 <= |m| && base + U32At(m, base) <= |m|
    ensures WellFormed(InfoAt(m, base)) && WellFormedFrom(InfoAt(m, base), 8)
    ensures |InfoAt(m, base)| == U32At(m, base) >= 8 && Part(m, base, InfoAt(m, base))
  {
  }

  /** The location walker. */
  method FindModuleByName(memory: array<u8>, base: nat, name: seq<u8>) returns (r: Option<ModuleLocation>)
    requires Structure(memory[..], base)
    requires ComparableFrom(memory[..], base, InfoAt(memory[..], base), 8, name)
    ensures var info := InfoAt(memory[..], base);
      r == match FirstAt(memory[..], base, info, 8, name)
           case Some(t) => Some(LocationAt(info, t))
           case None => None
  {
    hide U32At, MatchesAt, TagFits, LocationAt, Structure, WellFormed, InfoAt, Part, Comparable;
    StructureMeaning(memory[..], base);
    ghost var m, info := memory[..], InfoAt(memory[..], base);
    var total := ReadU32At(memory, base);
    var tag, end := base + 8, base + total;
    while tag < end
      invariant base + 8 <= tag <= end && WellFormedFrom(info, tag - base)
      invariant ComparableFrom(m, base, info, tag - base, name)
      invariant FirstAt(m, base, info, 8, name) == FirstAt(m, base, info, tag - base, name)
    {
      var found := InspectTag(memory, base, tag - base, name, info);
      if found.Some? {
        return found;
      }
      tag := Advance(memory, base, tag, info);
    }
    return None;
  }

  /** The address walker: it finds the same tag. */
  method FindModuleTagAddressByName(memory: array<u8>, base: nat, name: seq<u8>) returns (r: Option<nat>)
    requires Structure(memory[..], base)
    requires ComparableFrom(memory[..], base, InfoAt(memory[..], base), 8, name)
    ensures r == match FirstAt(memory[..], base, InfoAt(memory[..], base), 8, name)
                 case Some(t) => Some(base + t)
                 case None => None
  {
    hide U32At, MatchesAt, TagFits, Structure, WellFormed, InfoAt, Part, Comparable;
    StructureMeaning(memory[..], base);
    ghost var m, info := memory[..], InfoAt(memory[..], base);
    var total := ReadU32At(memory, base);
    var tag, end := base + 8, base + total;
    while tag < end
      invariant base + 8 <= tag <= end && WellFormedFrom(info, tag - base)
      invariant ComparableFrom(m, base, info, tag - base, name)
      invariant FirstAt(m, base, info, 8, name) == FirstAt(m, base, info, tag - base, name)
    {
      var found := TagMatchesModuleName(memory, base, tag - base, name, info);
      if found {
        return Some(tag);
      }
      tag := Advance(memory, base, tag, info);
    }
    return None;
  }

  // ---- Names without a terminator inside -------------------------------------------------------

  lemma SpelledOut(s: seq<u8>, name: seq<u8>)
    ensures Part(s, 0, name + [0]) <==> |name| < |s| && s[..|name|] == name && s[|name|] == 0
  {
    PartSplit(s, 0, name, [0]);
  }

  /** In a terminated string, exactly a NUL-free name's own bytes and terminator spell it. */
  lemma NameByBytes(s: seq<u8>, name: seq<u8>)
    requires 0 in s && NulFree(name)
    ensures s[..Position(s, 0).value] == name <==> Part(s, 0, name + [0])
  {
    hide Part, Position;
    SpelledOut(s, name);
    if |name| < |s| && s[..|name|] == name && s[|name|] == 0 {
      PositionUnique(s, 0, |name|);
    }
  }

  /** Agreement with a NUL-free name never outruns a terminated string. */
  lemma AgreementStops(s: seq<u8>, name: seq<u8>, i: nat)
    requires 0 in s && NulFree(name) && i <= |name| && i <= |s| && s[..i] == name[..i]
    ensures i < |s|
  {
    assert forall k :: 0 <= k < i ==> s[..i][k] == s[k] && name[..i][k] == name[k] && name[k] != 0;
  }

  /** A slice of memory: what is part of it is part of memory, as far as it reaches. */
  lemma PartInside(m: seq<u8>, at: nat, s: seq<u8>, part: seq<u8>)
    requires Part(m, at, s) && |part| <= |s|
    ensures Part(m, at, part) <==> Part(s, 0, part)
  {
    assert m[at..at + |part|] == s[0..|part|];
  }

  /** A module's string, inside its tag and inside memory. */
  lemma ModuleString(m: seq<u8>, base: nat, info: seq<u8>, t: nat) returns (s: seq<u8>)
    requires Part(m, base, info) && IsModule(info, t)
    ensures 0 in s && ModuleName(info, t) == s[..Position(s, 0).value]
    ensures Part(m, base + t + MODULE_TAG_FIXED_BYTES, s)
  {
    hide U32At, Position, LeValue;
    var lo, hi := t + MODULE_TAG_FIXED_BYTES, t + U32At(info, t + 4);
    s := info[lo..hi];
    SubSlice(m, base, base + |info|, lo, hi - lo);
  }

  /** For a NUL-free name the comparison stays inside the tag and asks for the module's own name. */
  lemma NulFreeMatches(m: seq<u8>, base: nat, info: seq<u8>, t: nat, name: seq<u8>)
    requires Part(m, base, info) && IsModule(info, t) && NulFree(name)
    ensures Comparable(m, base + t + MODULE_TAG_FIXED_BYTES, name)
    ensures StringAt(m, base + t + MODULE_TAG_FIXED_BYTES, name) <==> ModuleName(info, t) == name
  {
    hide ModuleName, IsModule, Part, Comparable, StringAt, Position;
    var s := ModuleString(m, base, info, t);
    var at := base + t + MODULE_TAG_FIXED_BYTES;
    TerminatedIsComparable(m, at, s, name);
    NameByBytes(s, name);
    if |name| < |s| {
      StringInside(m, at, s, name);
    } else {
      AgreementOverruns(m, at, s, name);
    }
  }

  lemma StringInside(m: seq<u8>, at: nat, s: seq<u8>, name: seq<u8>)
    requires Part(m, at, s) && |name| < |s|
    ensures StringAt(m, at, name) <==> Part(s, 0, name + [0])
  {
    hide Part;
    PartInside(m, at, s, name + [0]);
  }

  lemma TerminatedIsComparable(m: seq<u8>, at: nat, s: seq<u8>, name: seq<u8>)
    requires Part(m, at, s) && 0 in s && NulFree(name)
    ensures Comparable(m, at, name)
  {
    forall i | 0 <= i <= |name| && Part(m, at, name[..i]) ensures at + i < |m| {
      if i <= |s| {
        PartInside(m, at, s, name[..i]);
        AgreementStops(s, name, i);
      } else {
        Shorter(m, at, s, name, i);
      }
    }
  }

  /** A NUL-free name at least as long as a terminated string never agrees with all of it. */
  lemma Shorter(m: seq<u8>, at: nat, s: seq<u8>, name: seq<u8>, i: nat)
    requires Part(m, at, s) && 0 in s && NulFree(name) && |s| <= i <= |name|
    ensures !Part(m, at, name[..i])
  {
    var k := Position(s, 0).value;
    assert s[k] == 0 && name[..i][k] == name[k] != 0;
    PartIs(m, at, s);
    if Part(m, at, name[..i]) {
      PartIs(m, at, name[..i]);
    }
  }

  lemma AgreementOverruns(m: seq<u8>, at: nat, s: seq<u8>, name: seq<u8>)
    requires Part(m, at, s) && 0 in s && NulFree(name) && |s| <= |name|
    ensures !StringAt(m, at, name) && !Part(s, 0, name + [0])
  {
    if StringAt(m, at, name) {
      PrefixOfString(m, at, name, |s|);
      Shorter(m, at, s, name, |s|);
    }
  }

  /** For NUL-free names the walk in memory is the lookup by module name. */
  lemma {:induction false} NulFreeWalk(m: seq<u8>, base: nat, info: seq<u8>, t: nat, name: seq<u8>)
    requires Part(m, base, info) && WellFormedFrom(info, t) && NulFree(name)
    ensures ComparableFrom(m, base, info, t, name)
    ensures FirstAt(m, base, info, t, name) == First(info, t, name)
    decreases |info| - t
  {
    hide TagFits, LocationAt, ModuleName, StringAt, Comparable, Part;
    if t < |info| {
      if IsModule(info, t) {
        NulFreeMatches(m, base, info, t, name);
      }
      NulFreeWalk(m, base, info, NextTag(info, t), name);
    }
  }
}
