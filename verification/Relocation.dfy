/** Staging the boot information and the shell module in scratch memory before the kernel is loaded. */
module Relocation {
  import opened Results
  import opened Bytes
  import opened Multiboot2

  // ---- What rewriting one tag does to the structure --------------------------------------

  /** The structure with the module tag at `t` pointing somewhere else. */
  function Rewritten(info: seq<u8>, t: nat, start: u32, end: u32): (b: seq<u8>)
    requires t + 16 <= |info|
    ensures |b| == |info|
    ensures Agree(info, b, 0, t + 8) && Agree(info, b, t + 16, |info|)
  {
    hide LeBytes;
    info[..t + 8] + LeBytes(start, 4) + LeBytes(end, 4) + info[t + 16..]
  }

  /** `t` is a tag the walk from `from` visits. */
  predicate IsTag(info: seq<u8>, from: nat, t: nat)
    decreases |info| - from
  {
    TagFits(info, from) && (from == t || IsTag(info, NextTag(info, from), t))
  }

  lemma {:induction false} FirstIsTag(info: seq<u8>, from: nat, name: seq<u8>)
    requires WellFormedFrom(info, from) && First(info, from, name).Some?
    ensures IsTag(info, from, First(info, from, name).value)
    decreases |info| - from
  {
    hide TagFits, Matches;
    if !Matches(info, from, name) {
      FirstIsTag(info, NextTag(info, from), name);
    }
  }

  /** No matching tag comes before the one found, and none is missed. */
  lemma {:induction false} FirstIsEarliest(info: seq<u8>, from: nat, t: nat, name: seq<u8>)
    requires WellFormedFrom(info, from) && IsTag(info, from, t) && TagFits(info, t) && Matches(info, t, name)
    ensures First(info, from, name).Some? && First(info, from, name).value <= t
    decreases |info| - from
  {
    hide TagFits, Matches;
    assert NextTag(info, from) <= |info|;
    if !Matches(info, from, name) {
      FirstIsEarliest(info, NextTag(info, from), t, name);
    } else {
      TagsComeLater(info, from, t);
    }
  }

  lemma {:induction false} TagsComeLater(info: seq<u8>, from: nat, t: nat)
    requires IsTag(info, from, t)
    ensures from <= t && TagFits(info, t)
    decreases |info| - from
  {
    hide TagFits;
    if from != t {
      TagsComeLater(info, NextTag(info, from), t);
    }
  }

  /** In bytes: a module tag with a non-empty range whose string, inside the tag, is `name`. */
  ghost predicate ModuleBytes(info: seq<u8>, t: nat, name: seq<u8>) {
    && t + 16 <= |info| && U32At(info, t) == 3 && U32At(info, t + 8) < U32At(info, t + 12)
    && 17 + |name| <= U32At(info, t + 4) && Part(info, t + 16, name + [0])
  }

  lemma MatchesMeaning(info: seq<u8>, t: nat, name: seq<u8>)
    requires TagFits(info, t) && NulFree(name)
    ensures Matches(info, t, name) <==> ModuleBytes(info, t, name)
  {
    hide U32At, RoundUp, Position, Part;
    if IsModule(info, t) {
      var end := t + U32At(info, t + 4);
      var s := info[t + 16..end];
      NameByBytes(s, name);
      assert Part(info, t + 16, s) by { Whole(info, t + 16, end); }
      if |name| + 1 <= |s| {
        PartInside(info, t + 16, s, name + [0]);
      } else {
        TooLong(s, name + [0]);
      }
    }
  }

  lemma Whole(s: seq<u8>, i: nat, j: nat)
    requires i <= j <= |s|
    ensures Part(s, i, s[i..j])
  {
  }

  lemma TooLong(s: seq<u8>, part: seq<u8>)
    requires |part| > |s|
    ensures !Part(s, 0, part)
  {
  }

  /** The first tag of the structure that is such a module. */
  ghost predicate FirstModule(info: seq<u8>, name: seq<u8>, t: nat) {
    && IsTag(info, 8, t) && ModuleBytes(info, t, name)
    && forall u: nat :: u < t && IsTag(info, 8, u) ==> !ModuleBytes(info, u, name)
  }

  /** A name is looked up to the range in the first module tag that carries it, and to nothing when none does. */
  lemma LookupExactly(info: seq<u8>, name: seq<u8>, at: ModuleLocation)
    requires WellFormed(info) && NulFree(name)
    ensures Lookup(info, name) == Some(at) <==>
      exists t: nat :: FirstModule(info, name, t) && at.start == U32At(info, t + 8) && at.end == U32At(info, t + 12)
    ensures Lookup(info, name) == None <==> forall t: nat :: IsTag(info, 8, t) ==> !ModuleBytes(info, t, name)
  {
    hide IsTag, First, U32At, TagFits, WellFormedFrom, Part;
    forall t: nat | IsTag(info, 8, t)
      ensures TagFits(info, t) && (Matches(info, t, name) <==> ModuleBytes(info, t, name))
      ensures ModuleBytes(info, t, name) ==> First(info, 8, name).Some? && First(info, 8, name).value <= t
    {
      TagsComeLater(info, 8, t);
      MatchesMeaning(info, t, name);
      if ModuleBytes(info, t, name) {
        FirstIsEarliest(info, 8, t, name);
      }
    }
    var found := First(info, 8, name);
    if found.Some? {
      FirstIsTag(info, 8, name);
      assert FirstModule(info, name, found.value);
    }
  }

  lemma WordSame(a: seq<u8>, b: seq<u8>, low: nat, high: nat, at: nat)
    requires Agree(a, b, low, high) && low <= at && at + 4 <= high
    ensures U32At(a, at) == U32At(b, at)
  {
    hide LeValue, U32At;
    SliceSame(a, b, low, high, at, at + 4);
  }

  /** `b` has the same tag at `t` as `a`, for every question the walkers ask. */
  ghost predicate SameTag(a: seq<u8>, b: seq<u8>, t: nat) {
    && TagFits(a, t) && TagFits(b, t) && NextTag(a, t) == NextTag(b, t)
    && (IsModule(a, t) <==> IsModule(b, t))
    && (IsModule(a, t) ==> LocationAt(a, t) == LocationAt(b, t) && ModuleName(a, t) == ModuleName(b, t))
  }

  /** A tag depends on its own bytes alone. */
  lemma TagIsLocal(a: seq<u8>, b: seq<u8>, t: nat)
    requires |a| == |b| && TagFits(a, t) && Agree(a, b, t, NextTag(a, t))
    ensures SameTag(a, b, t)
  {
    hide U32At, RoundUp, Agree, Position;
    var next := NextTag(a, t);
    WordSame(a, b, t, next, t);
    WordSame(a, b, t, next, t + 4);
    if U32At(a, t) == TAG_TYPE_MODULE {
      WordSame(a, b, t, next, t + 8);
      WordSame(a, b, t, next, t + 12);
      SliceSame(a, b, t, next, t + 16, t + U32At(a, t + 4));
    }
  }

  lemma TagRewritten(info: seq<u8>, t: nat, start: u32, end: u32)
    requires IsModule(info, t)
    ensures var b := Rewritten(info, t, start, end);
      && IsModule(b, t) && NextTag(b, t) == NextTag(info, t)
      && ModuleName(b, t) == ModuleName(info, t) && LocationAt(b, t) == ModuleLocation(start, end)
  {
    hide U32At, RoundUp, Agree, Position, Rewritten;
    var b := Rewritten(info, t, start, end);
    WordSame(info, b, 0, t + 8, t);
    WordSame(info, b, 0, t + 8, t + 4);
    SliceSame(info, b, t + 16, |info|, t + 16, t + U32At(info, t + 4));
    RewrittenWords(info, t, start, end);
  }

  lemma RewrittenWords(info: seq<u8>, t: nat, start: u32, end: u32)
    requires t + 16 <= |info|
    ensures U32At(Rewritten(info, t, start, end), t + 8) == start
    ensures U32At(Rewritten(info, t, start, end), t + 12) == end
  {
    hide LeBytes, LeValue;
    var b := Rewritten(info, t, start, end);
    assert b[t + 8..t + 12] == LeBytes(start, 4) && b[t + 12..t + 16] == LeBytes(end, 4);
    PowWidths();
    LeRoundTrip(start, 4);
    LeRoundTrip(end, 4);
  }

  /** `b` answers every lookup from `from` on as `a` does, except for where tag `t` points. */
  ghost predicate SameWalk(a: seq<u8>, b: seq<u8>, from: nat, t: nat, name: seq<u8>) {
    && WellFormedFrom(a, from) && WellFormedFrom(b, from) && First(a, from, name) == First(b, from, name)
    && var u := First(a, from, name);
       u.Some? && u.value != t ==> LocationAt(a, u.value) == LocationAt(b, u.value)
  }

  lemma {:induction false} SuffixWalk(a: seq<u8>, b: seq<u8>, from: nat, t: nat, name: seq<u8>)
    requires |a| == |b| && WellFormedFrom(a, from) && from <= |a| && Agree(a, b, from, |a|)
    ensures SameWalk(a, b, from, t, name)
    decreases |a| - from
  {
    hide TagFits, IsModule, LocationAt, ModuleName;
    if from < |a| {
      var next := NextTag(a, from);
      TagIsLocal(a, b, from);
      SuffixWalk(a, b, next, t, name);
    }
  }

  /** Rewriting a non-empty module to another non-empty place disturbs no lookup but its own location. */
  lemma {:induction false} RewriteWalk(info: seq<u8>, t: nat, start: u32, end: u32, from: nat, name: seq<u8>)
    requires WellFormedFrom(info, from) && IsTag(info, from, t) && IsModule(info, t)
    requires LocationAt(info, t).start < LocationAt(info, t).end && start < end
    ensures SameWalk(info, Rewritten(info, t, start, end), from, t, name)
    decreases |info| - from
  {
    hide TagFits, LocationAt, ModuleName, Rewritten, U32At;
    ModuleSpan(info, t);
    var b := Rewritten(info, t, start, end);
    var next := NextTag(info, from);
    if from == t {
      TagRewritten(info, t, start, end);
      SuffixWalk(info, b, next, t, name);
    } else {
      TagsComeLater(info, next, t);
      TagIsLocal(info, b, from);
      RewriteWalk(info, t, start, end, next, name);
    }
  }

  lemma ModuleSpan(info: seq<u8>, t: nat)
    requires IsModule(info, t)
    ensures t + 16 <= NextTag(info, t) && t + 16 <= |info|
  {
  }

  /** The header word survives, so the rewritten structure is well formed and resolves every other name as before. */
  lemma RewriteKeepsLookups(info: seq<u8>, start: u32, end: u32, moved: seq<u8>, name: seq<u8>)
    requires WellFormed(info) && First(info, 8, moved).Some? && start < end
    ensures var t := First(info, 8, moved).value;
      && t + 16 <= |info| && WellFormed(Rewritten(info, t, start, end))
      && Lookup(Rewritten(info, t, start, end), name)
           == if name == moved then Some(ModuleLocation(start, end)) else Lookup(info, name)
  {
    hide TagFits, LocationAt, ModuleName, Rewritten, WellFormedFrom, U32At;
    var t := First(info, 8, moved).value;
    ModuleSpan(info, t);
    var b := Rewritten(info, t, start, end);
    FirstIsTag(info, 8, moved);
    RewriteWalk(info, t, start, end, 8, name);
    TagRewritten(info, t, start, end);
    WordSame(info, b, 0, t + 8, 0);
  }

  // ---- The bootloader's copies ---------------------------------------------------------------

  /** `n` bytes from `source` laid over those at `destination`. */
  function Copied(m: seq<u8>, source: nat, destination: nat, n: nat): (r: seq<u8>)
    requires source + n <= |m| && destination + n <= |m|
    ensures |r| == |m| && r[destination..destination + n] == m[source..source + n]
    ensures Agree(m, r, 0, destination) && Agree(m, r, destination + n, |m|)
  {
    m[..destination] + m[source..source + n] + m[destination + n..]
  }

  lemma CopiedAt(m: seq<u8>, source: nat, destination: nat, n: nat, k: nat)
    requires source + n <= |m| && destination + n <= |m| && k < |m|
    ensures Copied(m, source, destination, n)[k]
         == if destination <= k < destination + n then m[source + (k - destination)] else m[k]
  {
    hide Agree;
    var part := m[source..source + n];
    assert Copied(m, source, destination, n) == m[..destination] + (part + m[destination + n..]);
    assert destination <= k < destination + n ==> part[k - destination] == m[source + (k - destination)];
  }

  /** What copying one byte at a time, lowest first, leaves: a later byte may read an earlier one's copy. */
  function Forward(m: seq<u8>, source: nat, destination: nat, n: nat): (r: seq<u8>)
    requires source + n <= |m| && destination + n <= |m|
    ensures |r| == |m|
    decreases n
  {
    if n == 0 then m else
    var r := Forward(m, source, destination, n - 1);
    r[destination + (n - 1) := r[source + (n - 1)]]
  }

  method CopyBytes(memory: array<u8>, source: nat, destination: nat, n: nat)
    requires source + n <= memory.Length && destination + n <= memory.Length
    modifies memory
    ensures memory[..] == Forward(old(memory[..]), source, destination, n)
  {
    ghost var before := memory[..];
    for i := 0 to n
      invariant memory[..] == Forward(before, source, destination, i)
    {
      memory[destination + i] := memory[source + i];
    }
  }

  /** Bytes outside the destination are never written. */
  lemma {:induction false} ForwardElsewhere(m: seq<u8>, source: nat, destination: nat, n: nat, k: nat)
    requires source + n <= |m| && destination + n <= |m| && k < |m| && !(destination <= k < destination + n)
    ensures Forward(m, source, destination, n)[k] == m[k]
    decreases n
  {
    if n > 0 {
      ForwardElsewhere(m, source, destination, n - 1, k);
    }
  }

  /** Moving down, or clear of the source, each byte read is still the original. */
  lemma {:induction false} ForwardReads(m: seq<u8>, source: nat, destination: nat, n: nat, k: nat)
    requires source + n <= |m| && destination + n <= |m| && k < n
    requires destination <= source || source + n <= destination
    ensures Forward(m, source, destination, n)[destination + k] == m[source + k]
    decreases n
  {
    if k < n - 1 {
      ForwardReads(m, source, destination, n - 1, k);
    } else {
      ForwardElsewhere(m, source, destination, n - 1, source + (n - 1));
    }
  }

  /** Where `k` falls within its period. */
  function Phase(k: nat, period: nat): (phase: nat)
    requires 0 < period
    ensures phase < period && phase <= k
  {
    if k < period then k else Phase(k - period, period)
  }

  /** Moving up over its own source, the copy repeats the gap between the two. */
  lemma {:induction false} ForwardRepeats(m: seq<u8>, source: nat, destination: nat, n: nat, k: nat)
    requires source + n <= |m| && destination + n <= |m| && source < destination && k < n
    ensures Forward(m, source, destination, n)[destination + k] == m[source + Phase(k, destination - source)]
    decreases n
  {
    var period := destination - source;
    if k < n - 1 {
      ForwardRepeats(m, source, destination, n - 1, k);
    } else {
      if k < period {
        ForwardElsewhere(m, source, destination, n - 1, source + k);
      } else {
        ForwardRepeats(m, source, destination, n - 1, k - period);
      }
    }
  }

  /** Copying is faithful when it moves down or does not overlap. */
  lemma ForwardIsCopied(m: seq<u8>, source: nat, destination: nat, n: nat)
    requires source + n <= |m| && destination + n <= |m|
    requires destination <= source || source + n <= destination
    ensures Forward(m, source, destination, n) == Copied(m, source, destination, n)
  {
    hide Forward, Copied, Agree;
    forall k | 0 <= k < |m| ensures Forward(m, source, destination, n)[k] == Copied(m, source, destination, n)[k] {
      CopiedAt(m, source, destination, n, k);
      if destination <= k < destination + n {
        ForwardReads(m, source, destination, n, k - destination);
      } else {
        ForwardElsewhere(m, source, destination, n, k);
      }
    }
  }

  /** The source range repeats with the distance to the destination. */
  ghost predicate Periodic(m: seq<u8>, source: nat, n: nat, period: nat)
    requires 0 < period && source + n <= |m|
  {
    forall k :: 0 <= k < n ==> m[source + Phase(k, period)] == m[source + k]
  }

  /** Exactly when a forward copy is faithful: it moves down, or its source repeats over the overlap. */
  lemma ForwardExactly(m: seq<u8>, source: nat, destination: nat, n: nat)
    requires source + n <= |m| && destination + n <= |m|
    ensures Forward(m, source, destination, n) == Copied(m, source, destination, n) <==>
      destination <= source || Periodic(m, source, n, destination - source)
  {
    hide Forward, Phase, Periodic;
    if destination <= source {
      ForwardIsCopied(m, source, destination, n);
    } else if Forward(m, source, destination, n) == Copied(m, source, destination, n) {
      FaithfulIsPeriodic(m, source, destination, n);
    } else if Periodic(m, source, n, destination - source) {
      PeriodicIsFaithful(m, source, destination, n);
    }
  }

  lemma FaithfulIsPeriodic(m: seq<u8>, source: nat, destination: nat, n: nat)
    requires source + n <= |m| && destination + n <= |m| && source < destination
    requires Forward(m, source, destination, n) == Copied(m, source, destination, n)
    ensures Periodic(m, source, n, destination - source)
  {
    hide Forward, Phase, Copied;
    var period := destination - source;
    forall k | 0 <= k < n ensures m[source + Phase(k, period)] == m[source + k] {
      ForwardRepeats(m, source, destination, n, k);
      CopiedAt(m, source, destination, n, destination + k);
    }
  }

  lemma PeriodicIsFaithful(m: seq<u8>, source: nat, destination: nat, n: nat)
    requires source + n <= |m| && destination + n <= |m| && source < destination
    requires Periodic(m, source, n, destination - source)
    ensures Forward(m, source, destination, n) == Copied(m, source, destination, n)
  {
    hide Forward, Copied, Agree, Phase;
    forall k | 0 <= k < |m| ensures Forward(m, source, destination, n)[k] == Copied(m, source, destination, n)[k] {
      CopiedAt(m, source, destination, n, k);
      if destination <= k < destination + n {
        var i := k - destination;
        ForwardRepeats(m, source, destination, n, i);
        assert m[source + Phase(i, destination - source)] == m[source + i];
      } else {
        ForwardElsewhere(m, source, destination, n, k);
      }
    }
  }

  method WriteU32At(memory: array<u8>, address: nat, value: u32)
    requires address + 4 <= memory.Length
    modifies memory
    ensures memory[..] == old(memory[..])[..address] + LeBytes(value, 4) + old(memory[..])[address + 4..]
  {
    var cell := LeBytes(value, 4);
    memory[address], memory[address + 1] := cell[0], cell[1];
    memory[address + 2], memory[address + 3] := cell[2], cell[3];
  }

  /** Memory with the module tag at `tag` pointing at `n` bytes of shell scratch. */
  function Repointed(m: seq<u8>, tag: nat, n: nat): (r: seq<u8>)
    requires tag + 16 <= |m|
    ensures |r| == |m|
  {
    Rewritten(m, tag, SHELL_SCRATCH, (SHELL_SCRATCH + n) % TWO_32)
  }

  method RewriteModuleTagAddresses(memory: array<u8>, tag: nat, n: nat)
    requires tag + 16 <= memory.Length
    modifies memory
    ensures memory[..] == Repointed(old(memory[..]), tag, n)
  {
    hide LeBytes;
    ghost var before := memory[..];
    WriteU32At(memory, tag + 8, SHELL_SCRATCH);
    WriteU32At(memory, tag + 12, (SHELL_SCRATCH + n) % TWO_32);
  }

  /** Reads the structure's own total size and copies that many bytes; nothing need be well formed. */
  method CopyInfoToScratch(memory: array<u8>, base: nat) returns (scratch: nat)
    requires base + 4 <= memory.Length
    requires base + U32At(memory[..], base) <= memory.Length
    requires INFO_SCRATCH + U32At(memory[..], base) <= memory.Length
    modifies memory
    ensures scratch == INFO_SCRATCH
    ensures memory[..] == Forward(old(memory[..]), base, INFO_SCRATCH, U32At(old(memory[..]), base))
  {
    hide U32At;
    var total := ReadU32At(memory, base);
    CopyBytes(memory, base, INFO_SCRATCH, total);
    return INFO_SCRATCH;
  }

  /** The staged structure has room below the shell's scratch and does not overlap its source from above. */
  ghost predicate InfoPlaced(m: seq<u8>, base: nat)
    requires Structure(m, base)
  {
    var n := |InfoAt(m, base)|;
    INFO_SCRATCH + n <= |m| && INFO_SCRATCH + n <= SHELL_SCRATCH && (INFO_SCRATCH <= base || base + n <= INFO_SCRATCH)
  }

  /** The shell lies in memory, clear of the staged structure, and its scratch range fits. */
  ghost predicate ShellPlaced(room: nat, at: ModuleLocation, infoLength: nat) {
    && at.start <= at.end <= room && (at.end <= INFO_SCRATCH || INFO_SCRATCH + infoLength <= at.start)
    && SHELL_SCRATCH + (at.end - at.start) <= room && SHELL_SCRATCH + (at.end - at.start) < TWO_32
    && (SHELL_SCRATCH <= at.start || at.end <= SHELL_SCRATCH)
  }

  method CopyShellModuleAndRewriteTag(memory: array<u8>, tag: nat, ghost at: ModuleLocation)
    requires tag + 16 <= memory.Length
    requires U32At(memory[..], tag + 8) == at.start && U32At(memory[..], tag + 12) == at.end
    requires at.start <= at.end <= memory.Length && SHELL_SCRATCH + (at.end - at.start) <= memory.Length
    modifies memory
    ensures memory[..] == Moved(old(memory[..]), at, tag)
  {
    hide U32At, Forward, Repointed;
    var start := ReadU32At(memory, tag + 8);
    var end := ReadU32At(memory, tag + 12);
    CopyBytes(memory, start, SHELL_SCRATCH, end - start);
    RewriteModuleTagAddresses(memory, tag, end - start);
  }

  /** Memory with the shell copied to its scratch and its tag repointed. */
  function Moved(m: seq<u8>, at: ModuleLocation, tag: nat): (r: seq<u8>)
    requires at.start <= at.end <= |m| && SHELL_SCRATCH + (at.end - at.start) <= |m| && tag + 16 <= |m|
    ensures |r| == |m|
  {
    Repointed(Forward(m, at.start, SHELL_SCRATCH, at.end - at.start), tag, at.end - at.start)
  }

  // ---- Staging as a whole -----------------------------------------------------------------------

  /** Everything staging needs of the machine's layout. */
  ghost predicate Placed(m: seq<u8>, base: nat) {
    && Structure(m, base) && InfoPlaced(m, base)
    && var shell := Lookup(InfoAt(m, base), ShellName());
       shell.Some? ==> ShellPlaced(|m|, shell.value, |InfoAt(m, base)|)
  }

  /** The structure's copy is a structure, and the shell it names and its scratch range lie in memory. */
  ghost predicate Ready(m: seq<u8>, base: nat) {
    && Structure(m, base) && INFO_SCRATCH + |InfoAt(m, base)| <= |m|
    && var copied := Forward(m, base, INFO_SCRATCH, |InfoAt(m, base)|);
       && Structure(copied, INFO_SCRATCH)
       && var shell := Lookup(InfoAt(copied, INFO_SCRATCH), ShellName());
          shell.Some? ==> InMemory(|m|, shell.value)
  }

  predicate InMemory(room: nat, at: ModuleLocation) {
    at.start <= at.end <= room && SHELL_SCRATCH + (at.end - at.start) <= room
  }

  /** Memory after the structure is copied and the shell its copy names, if any, is moved. */
  ghost function Staged(m: seq<u8>, base: nat): (r: seq<u8>)
    requires Ready(m, base)
    ensures |r| == |m|
  {
    hide WellFormedFrom, U32At;
    var copied := Forward(m, base, INFO_SCRATCH, |InfoAt(m, base)|);
    StructureMeaning(copied, INFO_SCRATCH);
    var info := InfoAt(copied, INFO_SCRATCH);
    match First(info, 8, ShellName())
    case None => copied
    case Some(t) => ModuleSpan(info, t); Moved(copied, LocationAt(info, t), INFO_SCRATCH + t)
  }

  /** A structure is wherever its bytes are. */
  lemma InfoIsWhereItsBytesAre(m: seq<u8>, base: nat, info: seq<u8>)
    requires WellFormed(info) && Part(m, base, info)
    ensures Structure(m, base) && InfoAt(m, base) == info
  {
    hide LeValue, WellFormedFrom, U32At;
    WordInPart(m, base, info, 0);
  }

  /** A placed structure's copy holds the same structure, and staging is ready. */
  lemma PlacedIsReady(m: seq<u8>, base: nat)
    requires Placed(m, base)
    ensures Ready(m, base)
    ensures var info := InfoAt(m, base);
      var copied := Copied(m, base, INFO_SCRATCH, |info|);
      && Forward(m, base, INFO_SCRATCH, |info|) == copied
      && Structure(copied, INFO_SCRATCH) && InfoAt(copied, INFO_SCRATCH) == info
  {
    hide WellFormed, Agree, U32At, Copied, Forward, Structure, InfoAt, Lookup;
    StructureMeaning(m, base);
    var info := InfoAt(m, base);
    ForwardIsCopied(m, base, INFO_SCRATCH, |info|);
    var copied := Copied(m, base, INFO_SCRATCH, |info|);
    InfoIsWhereItsBytesAre(copied, INFO_SCRATCH, info);
  }

  /** What staging does to a placed structure, the copy being faithful. */
  lemma StagedIs(m: seq<u8>, base: nat)
    requires Placed(m, base)
    ensures Ready(m, base) && Structure(m, base)
    ensures INFO_SCRATCH + |InfoAt(m, base)| <= SHELL_SCRATCH && INFO_SCRATCH + |InfoAt(m, base)| <= |m|
    ensures var info := InfoAt(m, base);
      var copied := Copied(m, base, INFO_SCRATCH, |info|);
      && Structure(copied, INFO_SCRATCH) && InfoAt(copied, INFO_SCRATCH) == info
      && match First(info, 8, ShellName())
         case None => Lookup(info, ShellName()) == None && Staged(m, base) == copied
         case Some(t) =>
           var at := LocationAt(info, t);
           && Lookup(info, ShellName()) == Some(at) && ShellPlaced(|m|, at, |info|) && t + 16 <= |info|
           && Staged(m, base) == Moved(copied, at, INFO_SCRATCH + t)
  {
    hide WellFormed, Structure, WellFormedFrom, Copied, Moved, U32At, LocationAt, First, InfoAt, Forward, ShellName;
    StructureMeaning(m, base);
    PlacedIsReady(m, base);
    var info := InfoAt(m, base);
    if First(info, 8, ShellName()).Some? {
      ModuleSpan(info, First(info, 8, ShellName()).value);
    }
  }

  /** What moving the shell leaves where, byte for byte. */
  lemma MovedMeaning(m: seq<u8>, at: ModuleLocation, tag: nat)
    requires at.start <= at.end <= |m| && SHELL_SCRATCH + (at.end - at.start) <= |m| && tag + 16 <= SHELL_SCRATCH
    requires SHELL_SCRATCH <= at.start || at.end <= SHELL_SCRATCH
    ensures var n, moved := at.end - at.start, Moved(m, at, tag);
      && Agree(m, moved, 0, tag + 8) && Agree(m, moved, tag + 16, SHELL_SCRATCH)
      && Agree(m, moved, SHELL_SCRATCH + n, |m|)
      && moved[SHELL_SCRATCH..SHELL_SCRATCH + n] == m[at.start..at.end]
      && moved[tag + 8..tag + 16] == LeBytes(SHELL_SCRATCH, 4) + LeBytes((SHELL_SCRATCH + n) % TWO_32, 4)
  {
    hide LeBytes, Forward;
    var n := at.end - at.start;
    ForwardIsCopied(m, at.start, SHELL_SCRATCH, n);
    var copied := Copied(m, at.start, SHELL_SCRATCH, n);
    var moved := Moved(m, at, tag);
    assert moved == copied[..tag + 8] + LeBytes(SHELL_SCRATCH, 4)
                    + LeBytes((SHELL_SCRATCH + n) % TWO_32, 4) + copied[tag + 16..];
    SliceSame(copied, moved, tag + 16, |m|, SHELL_SCRATCH, SHELL_SCRATCH + n);
  }

  lemma Thirds(s: seq<u8>, a: nat, b: nat, c: nat, d: nat)
    requires a <= b <= c <= d <= |s|
    ensures s[a..d] == s[a..b] + s[b..c] + s[c..d]
  {
  }

  /** Moving the shell rewrites exactly its tag in the staged structure. */
  lemma MovedInfo(m: seq<u8>, info: seq<u8>, t: nat, at: ModuleLocation)
    requires INFO_SCRATCH + |info| <= SHELL_SCRATCH && t + 16 <= |info| && ShellPlaced(|m|, at, |info|)
    requires m[INFO_SCRATCH..INFO_SCRATCH + |info|] == info
    ensures Moved(m, at, INFO_SCRATCH + t)[INFO_SCRATCH..INFO_SCRATCH + |info|]
         == Rewritten(info, t, SHELL_SCRATCH, SHELL_SCRATCH + (at.end - at.start))
  {
    hide LeBytes, Moved, Agree;
    var tag := INFO_SCRATCH + t;
    MovedMeaning(m, at, tag);
    AgreeWithin(m, Moved(m, at, tag), tag + 16, SHELL_SCRATCH, tag + 16, INFO_SCRATCH + |info|);
    Patched(m, Moved(m, at, tag), INFO_SCRATCH, info, t + 8, 8);
  }

  /** A structure changed only in `n` bytes of its own from `from` on. */
  lemma Patched(m: seq<u8>, moved: seq<u8>, base: nat, info: seq<u8>, from: nat, n: nat)
    requires base + |info| <= |m| && from + n <= |info| && m[base..base + |info|] == info
    requires Agree(m, moved, 0, base + from) && Agree(m, moved, base + from + n, base + |info|)
    ensures moved[base..base + |info|]
         == info[..from] + moved[base + from..base + from + n] + info[from + n..]
  {
    hide Agree;
    var stop := base + |info|;
    SliceSame(m, moved, 0, base + from, base, base + from);
    SliceSame(m, moved, base + from + n, stop, base + from + n, stop);
    SubSlice(m, base, stop, 0, from);
    SubSlice(m, base, stop, from + n, |info| - (from + n));
    Thirds(moved, base, base + from, base + from + n, stop);
  }

  /**
   After staging, the scratch structure is well formed, the shell resolves to its scratch
   range, and every other name resolves exactly as in the original.
   */
  lemma StagingPreservesLookups(m: seq<u8>, base: nat, name: seq<u8>)
    requires Placed(m, base)
    ensures Ready(m, base)
    ensures var info, staged := InfoAt(m, base), Staged(m, base);
      && Structure(staged, INFO_SCRATCH)
      && Lookup(InfoAt(staged, INFO_SCRATCH), name) ==
           var shell := Lookup(info, ShellName());
           if name == ShellName() && shell.Some?
           then Some(ModuleLocation(SHELL_SCRATCH, SHELL_SCRATCH + (shell.value.end - shell.value.start)))
           else Lookup(info, name)
  {
    hide WellFormed, Structure, WellFormedFrom, Copied, Moved, U32At, LocationAt, First, ShellPlaced, Agree, ShellName;
    hide InfoAt, Forward, Ready, Staged, Placed, Lookup, IsModule;
    StagedIs(m, base);
    StructureMeaning(m, base);
    var info := InfoAt(m, base);
    match First(info, 8, ShellName())
    case None =>
    case Some(t) =>
      MovedLookups(Copied(m, base, INFO_SCRATCH, |info|), info, name);
  }

  lemma MovedLookups(m: seq<u8>, info: seq<u8>, name: seq<u8>)
    requires Structure(m, INFO_SCRATCH) && InfoAt(m, INFO_SCRATCH) == info && WellFormedFrom(info, 8)
    requires First(info, 8, ShellName()).Some? && INFO_SCRATCH + |info| <= SHELL_SCRATCH
    requires ShellPlaced(|m|, LocationAt(info, First(info, 8, ShellName()).value), |info|)
    ensures var t := First(info, 8, ShellName()).value;
      var at := LocationAt(info, t);
      && t + 16 <= |info| && Structure(Moved(m, at, INFO_SCRATCH + t), INFO_SCRATCH)
      && Lookup(InfoAt(Moved(m, at, INFO_SCRATCH + t), INFO_SCRATCH), name) ==
           if name == ShellName()
           then Some(ModuleLocation(SHELL_SCRATCH, SHELL_SCRATCH + (at.end - at.start)))
           else Lookup(info, name)
  {
    hide WellFormedFrom, Moved, U32At, Rewritten, LocationAt, First, Lookup;
    var t := First(info, 8, ShellName()).value;
    ModuleSpan(info, t);
    var at := LocationAt(info, t);
    var end := SHELL_SCRATCH + (at.end - at.start);
    MovedInfo(m, info, t, at);
    RewriteKeepsLookups(info, SHELL_SCRATCH, end, ShellName(), name);
    InfoIsWhereItsBytesAre(Moved(m, at, INFO_SCRATCH + t), INFO_SCRATCH, Rewritten(info, t, SHELL_SCRATCH, end));
  }

  lemma AgreeThrough(a: seq<u8>, b: seq<u8>, c: seq<u8>, low: nat, high: nat, from: nat, to: nat)
    requires Agree(a, b, low, high) && Agree(b, c, from, to)
    requires low <= from && to <= high
    ensures Agree(a, c, from, to)
  {
  }

  lemma AgreeWithin(a: seq<u8>, b: seq<u8>, low: nat, high: nat, from: nat, to: nat)
    requires Agree(a, b, low, high) && low <= from && to <= high
    ensures Agree(a, b, from, to)
  {
  }

  /** Copying a structure of `n` bytes and then moving the shell touches only the two scratch ranges. */
  lemma MovedBytes(m: seq<u8>, base: nat, n: nat, at: ModuleLocation, tag: nat)
    requires base + n <= |m| && INFO_SCRATCH + n <= |m| && INFO_SCRATCH + n <= SHELL_SCRATCH
    requires INFO_SCRATCH <= tag && tag + 16 <= INFO_SCRATCH + n && ShellPlaced(|m|, at, n)
    ensures var moved := Moved(Copied(m, base, INFO_SCRATCH, n), at, tag);
      && Agree(m, moved, 0, INFO_SCRATCH) && Agree(m, moved, INFO_SCRATCH + n, SHELL_SCRATCH)
      && Agree(m, moved, SHELL_SCRATCH + (at.end - at.start), |m|)
      && moved[SHELL_SCRATCH..SHELL_SCRATCH + (at.end - at.start)] == m[at.start..at.end]
  {
    hide Agree, Copied, Moved, LeBytes;
    var copied, stop := Copied(m, base, INFO_SCRATCH, n), SHELL_SCRATCH + (at.end - at.start);
    var moved := Moved(copied, at, tag);
    MovedMeaning(copied, at, tag);
    AgreeWithin(copied, moved, 0, tag + 8, 0, INFO_SCRATCH);
    AgreeThrough(m, copied, moved, 0, INFO_SCRATCH, 0, INFO_SCRATCH);
    AgreeWithin(copied, moved, tag + 16, SHELL_SCRATCH, INFO_SCRATCH + n, SHELL_SCRATCH);
    AgreeThrough(m, copied, moved, INFO_SCRATCH + n, |m|, INFO_SCRATCH + n, SHELL_SCRATCH);
    AgreeThrough(m, copied, moved, INFO_SCRATCH + n, |m|, stop, |m|);
    if at.end <= INFO_SCRATCH {
      SliceSame(m, copied, 0, INFO_SCRATCH, at.start, at.end);
    } else {
      SliceSame(m, copied, INFO_SCRATCH + n, |m|, at.start, at.end);
    }
  }

  /** The shell's scratch range holds the shell's original bytes, and nothing outside the two ranges changed. */
  lemma StagingPreservesBytes(m: seq<u8>, base: nat)
    requires Placed(m, base)
    ensures Ready(m, base)
    ensures var n, staged := |InfoAt(m, base)|, Staged(m, base);
      && Agree(m, staged, 0, INFO_SCRATCH)
      && match Lookup(InfoAt(m, base), ShellName())
         case None => Agree(m, staged, INFO_SCRATCH + n, |m|)
         case Some(at) =>
           && staged[SHELL_SCRATCH..SHELL_SCRATCH + (at.end - at.start)] == m[at.start..at.end]
           && Agree(m, staged, INFO_SCRATCH + n, SHELL_SCRATCH)
           && Agree(m, staged, SHELL_SCRATCH + (at.end - at.start), |m|)
  {
    hide WellFormed, Structure, WellFormedFrom, Copied, Moved, U32At, LocationAt, First, InfoAt, Forward, ShellName;
    hide Agree, ShellPlaced, Ready, Staged, Placed, Lookup, IsModule;
    StagedIs(m, base);
    StructureMeaning(m, base);
    var info := InfoAt(m, base);
    match First(info, 8, ShellName())
    case None =>
    case Some(t) =>
      MovedBytes(m, base, |info|, LocationAt(info, t), INFO_SCRATCH + t);
  }

  /** A module tag's location can be read at its physical address. */
  lemma TagInMemory(m: seq<u8>, base: nat, t: nat)
    requires Structure(m, base) && IsModule(InfoAt(m, base), t)
    ensures base + t + 16 <= |m|
    ensures ModuleLocation(U32At(m, base + t + 8), U32At(m, base + t + 12)) == LocationAt(InfoAt(m, base), t)
  {
    hide U32At, Structure, WellFormed, InfoAt, Part;
    StructureMeaning(m, base);
    ModuleSpan(InfoAt(m, base), t);
    WordInPart(m, base, InfoAt(m, base), t + 8);
    WordInPart(m, base, InfoAt(m, base), t + 12);
  }

  /** Relocates the shell named by the structure at `base`, or leaves memory alone when there is none. */
  method RelocateShell(memory: array<u8>, base: nat, ghost info: seq<u8>)
    requires Structure(memory[..], base) && InfoAt(memory[..], base) == info && WellFormedFrom(info, 8)
    requires var t := First(info, 8, ShellName()); t.Some? ==> InMemory(memory.Length, LocationAt(info, t.value))
    modifies memory
    ensures match First(info, 8, ShellName())
      case None => memory[..] == old(memory[..])
      case Some(t) =>
        && base + t + 16 <= memory.Length
        && memory[..] == Moved(old(memory[..]), LocationAt(info, t), base + t)
  {
    hide Structure, WellFormed, WellFormedFrom, Moved, U32At, First, FirstAt, InfoAt, LocationAt, ShellName, Part;
    hide ComparableFrom, NulFree;
    StructureMeaning(memory[..], base);
    NulFreeWalk(memory[..], base, info, 8, ShellName());
    var tag := FindModuleTagAddressByName(memory, base, ShellName());
    if tag.Some? {
      TagInMemory(memory[..], base, tag.value - base);
      CopyShellModuleAndRewriteTag(memory, tag.value, LocationAt(info, tag.value - base));
    }
  }

  /** The bootloader's staging steps, in order: copy the structure, then relocate the shell its copy names. */
  method Stage(memory: array<u8>, base: nat) returns (scratch: nat)
    requires Ready(memory[..], base)
    modifies memory
    ensures scratch == INFO_SCRATCH
    ensures memory[..] == Staged(old(memory[..]), base)
  {
    hide Structure, WellFormed, WellFormedFrom, Forward, Moved, U32At, LocationAt, First, InfoAt, ShellName;
    StructureMeaning(memory[..], base);
    scratch := CopyInfoToScratch(memory, base);
    StructureMeaning(memory[..], INFO_SCRATCH);
    RelocateShell(memory, scratch, InfoAt(memory[..], INFO_SCRATCH));
  }
}
