/**
  The memory of a snapshot while it is being built: mappings, negative mappings and bytes,
  with the checks that keep them consistent.
 */
module Snapshots {
  import opened MemoryPerms
  import opened RangeMaps
  import opened MappedMemoryMaps
  import opened MemoryTypes
  import opened MappingCommands
  import opened SnapshotMemories
  import opened DeltaMappings
  import opened NormalForms
  import opened Normalization

  const MAX_ADDRESS: nat := 0xffff_ffff_ffff_ffff
  const PAGE_SIZE: nat := 4096

  datatype Status =
    | Ok
    | EmptyPerms
    | EmptyRange
    | NotPageAligned
    | Overlapping
    | Conflicting
    | NotMapped
    | TooLarge
    | NotExecutable

  /** Whether `numBytes` from `start` on is a range of representable addresses. */
  predicate CanMakeSized(start: nat, numBytes: nat) {
    numBytes > 0 && numBytes <= MAX_ADDRESS && start <= MAX_ADDRESS - numBytes
  }

  predicate PageAligned(x: MemoryMapping) {
    x.start % PAGE_SIZE == 0 && x.limit % PAGE_SIZE == 0
  }

  /** Negative mappings may also end at the very last address. */
  predicate NegativePageAligned(x: MemoryMapping) {
    x.start % PAGE_SIZE == 0 && (x.limit % PAGE_SIZE == 0 || x.limit == MAX_ADDRESS)
  }

  /** Whole pages, where the last of them may end at `end` already. */
  predicate OnPages(start: nat, limit: nat, end: nat) {
    start % PAGE_SIZE == 0 && (limit % PAGE_SIZE == 0 || limit == end) && limit <= end
  }

  /** Mappings of whole pages, with representable limits. */
  ghost predicate AllAligned(list: seq<MemoryMapping>) {
    forall i | 0 <= i < |list| :: PageAligned(list[i]) && list[i].limit <= MAX_ADDRESS
  }

  ghost predicate AllNegativeAligned(list: seq<MemoryMapping>) {
    forall i | 0 <= i < |list| :: NegativePageAligned(list[i]) && list[i].limit <= MAX_ADDRESS
  }

  /** Below `end`, all addresses of a page are mapped alike; from `end` on nothing is. */
  ghost predicate PageUniform(m: PermsMap, end: nat) {
    && (forall a | a in m :: a < end)
    && (forall a: nat, b: nat | a < end && b < end && a / PAGE_SIZE == b / PAGE_SIZE :: At(m, a) == At(m, b))
  }

  /** Whole pages hold an address exactly when they hold its neighbours on the page. */
  lemma OnSamePage(start: nat, limit: nat, end: nat, a: nat, b: nat)
    requires OnPages(start, limit, end) && a < end && b < end && a / PAGE_SIZE == b / PAGE_SIZE
    ensures start <= a < limit <==> start <= b < limit
  {}

  lemma AlignedUniform(list: seq<MemoryMapping>, m: PermsMap, end: nat)
    requires ListMapAgree(list, m) && forall i | 0 <= i < |list| :: OnPages(list[i].start, list[i].limit, end)
    ensures PageUniform(m, end)
  {
    forall a | a in m
      ensures a < end
    {
      var i := AgreedMapping(list, m, a);
    }
    forall a: nat, b: nat | a < end && b < end && a / PAGE_SIZE == b / PAGE_SIZE
      ensures At(m, a) == At(m, b)
    {
      if a in m {
        SamePageSameList(list, m, end, a, b);
      } else if b in m {
        SamePageSameList(list, m, end, b, a);
      }
    }
  }

  lemma SamePageSameList(list: seq<MemoryMapping>, m: PermsMap, end: nat, a: nat, b: nat)
    requires ListMapAgree(list, m) && forall i | 0 <= i < |list| :: OnPages(list[i].start, list[i].limit, end)
    requires a < end && b < end && a / PAGE_SIZE == b / PAGE_SIZE && a in m
    ensures b in m && m[b] == m[a]
  {
    var i := AgreedMapping(list, m, a);
    OnSamePage(list[i].start, list[i].limit, end, a, b);
    assert list[i].Has(b);
  }

  lemma AddedUniform(m: PermsMap, x: MemoryMapping, end: nat)
    requires PageUniform(m, end) && OnPages(x.start, x.limit, end)
    ensures PageUniform(Added(m, x.start, x.limit, x.perms), end)
  {
    var m' := Added(m, x.start, x.limit, x.perms);
    forall a: nat, b: nat | a < end && b < end && a / PAGE_SIZE == b / PAGE_SIZE
      ensures At(m', a) == At(m', b)
    {
      OnSamePage(x.start, x.limit, end, a, b);
      assert At(m, a) == At(m, b);
    }
  }

  /** The ranges of a map of whole pages are whole pages. */
  lemma RunsOnPages(m: PermsMap, end: nat, i: nat)
    requires PageUniform(m, end) && i < |Runs(m)|
    ensures OnPages(Runs(m)[i].start, Runs(m)[i].limit, end)
  {
    var r := Runs(m)[i];
    RunEdges(m, i);
    RunAtIndex(m, i, r.start);
    RunAtIndex(m, i, r.limit - 1);
    PageNeighbours(m, end, r.start);
    PageNeighbours(m, end, r.limit);
  }

  lemma PageNeighbours(m: PermsMap, end: nat, a: nat)
    requires PageUniform(m, end)
    ensures 0 < a < end && a % PAGE_SIZE != 0 ==> At(m, a - 1) == At(m, a)
  {}

  /** So they are when such a map is made a list again, and its last address stays out. */
  lemma RebuiltNegativeAligned(m: PermsMap)
    requires PageUniform(m, MAX_ADDRESS)
    ensures AllNegativeAligned(SortedMemoryMappingList(m))
  {
    forall i | 0 <= i < |Runs(m)|
      ensures OnPages(Runs(m)[i].start, Runs(m)[i].limit, MAX_ADDRESS)
    {
      RunsOnPages(m, MAX_ADDRESS, i);
    }
  }

  lemma RebuiltAligned(list: seq<MemoryMapping>, m: PermsMap)
    requires ListMapAgree(list, m) && AllAligned(list)
    ensures AllAligned(SortedMemoryMappingList(m))
  {
    AlignedUniform(list, m, MAX_ADDRESS + 1);
    forall i | 0 <= i < |Runs(m)|
      ensures PageAligned(MappingOf(Runs(m)[i])) && Runs(m)[i].limit <= MAX_ADDRESS
    {
      RunsOnPages(m, MAX_ADDRESS + 1, i);
      RunEdges(m, i);
      RunAtIndex(m, i, Runs(m)[i].limit - 1);
      var j := AgreedMapping(list, m, Runs(m)[i].limit - 1);
    }
  }

  /** Some address of the range has one of the permissions. */
  ghost predicate ConflictsWith(m: PermsMap, x: MemoryMapping) {
    exists a :: x.Has(a) && PermsAt(m, a).HasSomeOf(x.perms)
  }

  lemma UnionConflicts(m: PermsMap, x: MemoryMapping, r: Perms)
    requires IsJoin(m, x.start, x.limit, Or, r)
    ensures x.perms.HasSomeOf(r) <==> ConflictsWith(m, x)
  {
    assert r.HasSomeOf(x.perms) <==> x.perms.HasSomeOf(r);
    if ConflictsWith(m, x) {
      var a: nat :| x.Has(a) && PermsAt(m, a).HasSomeOf(x.perms);
      assert x.start <= a < x.limit;
    }
    if r.HasSomeOf(x.perms) {
      var a :| x.start <= a < x.limit && PermsAt(m, a).HasSomeOf(x.perms);
      assert x.Has(a);
    }
  }

  /**
    Whether a range may be added: it has permissions, is not empty, aligned, overlaps nothing on
    its own side, and has no permission that conflicts with the other side; or the first reason
    why not.
   */
  ghost function RangeStatus(x: MemoryMapping, aligned: bool, own: PermsMap, other: PermsMap): Status {
    if x.perms.IsEmpty() then EmptyPerms
    else if x.start == x.limit then EmptyRange
    else if !aligned then NotPageAligned
    else if OverlapsRange(own, x.start, x.limit) then Overlapping
    else if ConflictsWith(other, x) then Conflicting
    else Ok
  }

  // ----- endpoints -----

  datatype SigCause = GenericSigCause | CantExec | CantWrite | CantRead | GeneralProtection | Overflow

  datatype Endpoint =
    | InstructionEnd(instructionAddress: nat)
    | SignalEnd(segv: bool, cause: SigCause, sigAddress: nat, sigInstructionAddress: nat)

  /** An endpoint that says that a page may not be accessed in some way. */
  predicate NeedsNegativeMapping(e: Endpoint) {
    e.SignalEnd? && e.segv && (e.cause.CantExec? || e.cause.CantWrite? || e.cause.CantRead?)
  }

  /** The permissions that explain the fault: without reading there is no writing and no executing either. */
  function NegativePerms(cause: SigCause): Perms {
    match cause
    case CantExec => Perms(false, false, true, false)
    case CantWrite => Perms(false, true, false, false)
    case CantRead => ALL
    case _ => NONE
  }

  /** The page of an address; of the very last page, the last byte is left out. */
  function FaultPage(address: nat): (nat, nat) {
    var start := address / PAGE_SIZE * PAGE_SIZE;
    (start, if address >= MAX_ADDRESS - PAGE_SIZE + 1 then PAGE_SIZE - 1 else PAGE_SIZE)
  }

  /** What is to be forbidden for a fault. */
  function FaultMapping(e: Endpoint): MemoryMapping
    requires e.SignalEnd?
  {
    var (start, size) := FaultPage(e.sigAddress);
    MemoryMapping(start, start + size, NegativePerms(e.cause))
  }

  /** A fault is recorded exactly when no mapping allows it; otherwise nothing changes. */
  ghost predicate FaultRecorded(status: Status, before: SnapshotMemory, now: SnapshotMemory, x: MemoryMapping) {
    if ConflictsWith(before.mapped, x) then status.Conflicting? && now == before
    else
      && status.Ok?
      && now == before.(
           negative := Added(before.negative, x.start, x.limit, x.perms),
           negativeMappings := ListWithAdded(before.negativeMappings, before.negative, x))
  }

  /** The address is on the page of the fault; the last address of all counts as on no page. */
  predicate OnFaultPage(faultAddress: nat, a: nat) {
    a / PAGE_SIZE == faultAddress / PAGE_SIZE && a != MAX_ADDRESS
  }

  /** On the page of the fault, reading, writing or executing is forbidden from now on; nothing else changes. */
  ghost predicate Forbids(faultAddress: nat, before: PermsMap, now: PermsMap, read: bool, write: bool, execute: bool) {
    forall a: nat ::
      var was := PermsAt(before, a);
      PermsAt(now, a) ==
        if OnFaultPage(faultAddress, a) then
          Perms(was.readable || read, was.writable || write, was.executable || execute, was.mapped)
        else was
  }

  /** A fault is refused if and only if its page has one of the permissions, and is explained otherwise. */
  ghost predicate FaultExplained(status: Status, faultAddress: nat, mapped: PermsMap, before: PermsMap, now: PermsMap,
                                 read: bool, write: bool, execute: bool)
  {
    && (status.Conflicting? <==> AllowedOnPage(faultAddress, mapped, read, write, execute))
    && (status.Conflicting? ==> now == before)
    && (status.Ok? ==> Forbids(faultAddress, before, now, read, write, execute))
  }

  ghost predicate AllowedOnPage(faultAddress: nat, mapped: PermsMap, read: bool, write: bool, execute: bool) {
    exists a | a in mapped :: OnFaultPage(faultAddress, a)
      && ((read && mapped[a].readable) || (write && mapped[a].writable) || (execute && mapped[a].executable))
  }

  lemma OnPageOfMapping(e: Endpoint, a: nat)
    requires e.SignalEnd? && e.sigAddress <= MAX_ADDRESS
    ensures OnFaultPage(e.sigAddress, a) <==> FaultMapping(e).Has(a)
  {}

  lemma CauseExplained(e: Endpoint, status: Status, before: SnapshotMemory, now: SnapshotMemory)
    requires NeedsNegativeMapping(e) && e.sigAddress <= MAX_ADDRESS
    requires FaultRecorded(status, before, now, FaultMapping(e))
    ensures e.cause.CantExec? ==>
      FaultExplained(status, e.sigAddress, before.mapped, before.negative, now.negative, false, false, true)
    ensures e.cause.CantWrite? ==>
      FaultExplained(status, e.sigAddress, before.mapped, before.negative, now.negative, false, true, false)
    ensures e.cause.CantRead? ==>
      FaultExplained(status, e.sigAddress, before.mapped, before.negative, now.negative, true, true, true)
  {
    var x := FaultMapping(e);
    forall a: nat
      ensures OnFaultPage(e.sigAddress, a) <==> x.Has(a)
    {
      OnPageOfMapping(e, a);
    }
    if ConflictsWith(before.mapped, x) {
      var a: nat :| x.Has(a) && PermsAt(before.mapped, a).HasSomeOf(x.perms);
      assert a in before.mapped && OnFaultPage(e.sigAddress, a);
    } else {
      forall a: nat | a in before.mapped && OnFaultPage(e.sigAddress, a)
        ensures !before.mapped[a].HasSomeOf(x.perms)
      {
        assert PermsAt(before.mapped, a) == before.mapped[a];
      }
    }
  }

  /** For every 64-bit address that page is a legal mapping that holds it, or all but the last address. */
  lemma FaultPageLegal(address: nat)
    requires address <= MAX_ADDRESS
    ensures var (start, size) := FaultPage(address);
      && CanMakeSized(start, size)
      && start % PAGE_SIZE == 0
      && ((start + size) % PAGE_SIZE == 0 || start + size == MAX_ADDRESS)
      && (if address == MAX_ADDRESS then start <= address - 1 < start + size else start <= address < start + size)
  {}

  /** The address is mapped, or known to be faulty; of the last page, the last byte counts like the one before. */
  predicate AddressKnown(s: SnapshotMemory, address: nat, segv: bool) {
    || address in s.mapped
    || (segv && (address in s.negative || (address == MAX_ADDRESS && MAX_ADDRESS - 1 in s.negative)))
  }

  // ----- lists and maps -----

  function MappingOf(r: Range<Perms>): MemoryMapping {
    MemoryMapping(r.start, r.limit, r.value)
  }

  /** The ranges of a map as a list. */
  function SortedMemoryMappingList(m: PermsMap): (list: seq<MemoryMapping>)
    ensures |list| == |Runs(m)|
    ensures forall i | 0 <= i < |list| :: list[i] == MappingOf(Runs(m)[i])
  {
    seq(|Runs(m)|, i requires 0 <= i < |Runs(m)| => MappingOf(Runs(m)[i]))
  }

  /** A list of mappings with one added: rebuilt if it overlaps some, and extended otherwise. */
  ghost function ListWithAdded(list: seq<MemoryMapping>, m: PermsMap, x: MemoryMapping): seq<MemoryMapping> {
    if OverlapsRange(m, x.start, x.limit) then SortedMemoryMappingList(Added(m, x.start, x.limit, x.perms)) else list + [x]
  }

  lemma SortedListAgrees(m: PermsMap)
    requires forall a | a in m :: !m[a].mapped && !m[a].IsEmpty()
    ensures ListMapAgree(SortedMemoryMappingList(m), m)
  {
    var list := SortedMemoryMappingList(m);
    SortedListShape(m);
    forall i, a: nat | 0 <= i < |list| && list[i].Has(a)
      ensures a in m && m[a] == list[i].perms
    {
      RunAtIndex(m, i, a);
    }
    forall a | a in m
      ensures SomeMappingHas(list, a)
    {
      var r := RunAt(m, a);
      var i :| 0 <= i < |Runs(m)| && Runs(m)[i] == r;
      assert list[i].Has(a);
    }
  }

  lemma SortedListShape(m: PermsMap)
    requires forall a | a in m :: !m[a].mapped && !m[a].IsEmpty()
    ensures AllMappingsValid(SortedMemoryMappingList(m)) && MappingsDisjoint(SortedMemoryMappingList(m))
  {
    var list, runs := SortedMemoryMappingList(m), Runs(m);
    RunsAreIteration(m);
    forall i | 0 <= i < |list|
      ensures list[i].Valid() && !list[i].perms.IsEmpty()
    {
      assert runs[i].Has(runs[i].start);
      assert m[runs[i].start] == runs[i].value;
    }
    forall i, j | 0 <= i < j < |list|
      ensures Apart(list[i], list[j])
    {
      assert runs[i].limit <= runs[j].start;
    }
  }

  /** A mapping that overlaps nothing can be added to list and map alike. */
  lemma AppendAgrees(list: seq<MemoryMapping>, m: PermsMap, x: MemoryMapping)
    requires ListMapAgree(list, m) && x.Valid() && !x.perms.IsEmpty() && !OverlapsRange(m, x.start, x.limit)
    ensures ListMapAgree(list + [x], Assigned(m, x.start, x.limit, x.perms))
  {
    var list' := list + [x];
    var m' := Assigned(m, x.start, x.limit, x.perms);
    forall i | 0 <= i < |list|
      ensures Apart(list[i], x)
    {
      MustBeApart(list, m, i, x);
    }
    forall i, a: nat | 0 <= i < |list'| && list'[i].Has(a)
      ensures a in m' && m'[a] == list'[i].perms
    {
      if i < |list| {
        assert list[i].Has(a) && Apart(list[i], x);
      }
    }
    forall a | a in m'
      ensures SomeMappingHas(list', a)
    {
      if x.Has(a) {
        assert list'[|list|].Has(a);
      } else {
        var i := AgreedMapping(list, m, a);
        assert list'[i].Has(a);
      }
    }
  }

  lemma MustBeApart(list: seq<MemoryMapping>, m: PermsMap, i: nat, x: MemoryMapping)
    requires ListMapAgree(list, m) && i < |list| && x.Valid() && !OverlapsRange(m, x.start, x.limit)
    ensures Apart(list[i], x)
  {
    var a := if list[i].start < x.start then x.start else list[i].start;
    assert list[i].Valid();
    assert list[i].Has(a) ==> a in m;
  }

  class Snapshot {
    const mapped: MappedMemoryMap
    const negative: MappedMemoryMap
    var memoryMappings: seq<MemoryMapping>
    var negativeMemoryMappings: seq<MemoryMapping>
    var writtenMemorySet: set<nat>
    var memoryBytes: seq<MemoryBytes>

    function Memory(): SnapshotMemory
      reads this, mapped, negative
    {
      SnapshotMemory(memoryMappings, mapped.rep, negativeMemoryMappings, negative.rep, memoryBytes)
    }

    ghost predicate Valid()
      reads this, mapped, negative
    {
      && mapped != negative
      && WellFormedMemory(Memory())
      && AllAligned(memoryMappings)
      && AllNegativeAligned(negativeMemoryMappings)
      && (forall a :: a in writtenMemorySet <==> InSome(memoryBytes, a))
    }

    constructor ()
      ensures Valid() && Memory() == SnapshotMemory([], map[], [], map[], [])
      ensures fresh(mapped) && fresh(negative)
    {
      mapped := new MappedMemoryMap();
      negative := new MappedMemoryMap();
      memoryMappings := [];
      negativeMemoryMappings := [];
      writtenMemorySet := {};
      memoryBytes := [];
    }

    // ----- mappings -----

    method CanAddMemoryMapping(x: MemoryMapping) returns (status: Status)
      requires Valid() && x.start <= x.limit <= MAX_ADDRESS
      ensures status == RangeStatus(x, PageAligned(x), mapped.rep, negative.rep)
      ensures status.Ok? <==>
        && x.start < x.limit && !x.perms.IsEmpty() && PageAligned(x)
        && !OverlapsRange(mapped.rep, x.start, x.limit) && !ConflictsWith(negative.rep, x)
    {
      if x.perms.IsEmpty() {
        return EmptyPerms;
      }
      if x.start == x.limit {
        return EmptyRange;
      }
      if !PageAligned(x) {
        return NotPageAligned;
      }
      var overlaps := mapped.Overlaps(x.start, x.limit);
      if overlaps {
        return Overlapping;
      }
      var forbidden := negative.Perms(x.start, x.limit, Or);
      UnionConflicts(negative.rep, x, forbidden);
      if x.perms.HasSomeOf(forbidden) {
        return Conflicting;
      }
      return Ok;
    }

    method AddMemoryMapping(x: MemoryMapping)
      requires Valid() && x.Valid() && !x.perms.IsEmpty()
      requires PageAligned(x) && x.limit <= MAX_ADDRESS
      requires !OverlapsRange(mapped.rep, x.start, x.limit) && !ConflictsWith(negative.rep, x)
      modifies this`memoryMappings, mapped
      ensures Valid()
      ensures Memory() == old(Memory()).(
        mappings := old(memoryMappings) + [x],
        mapped := Assigned(old(mapped.rep), x.start, x.limit, x.perms))
    {
      AppendAgrees(memoryMappings, mapped.rep, x);
      AssignedConflictFree(negative.rep, mapped.rep, x);
      mapped.AddNew(x.start, x.limit, x.perms);
      memoryMappings := memoryMappings + [x];
    }

    // ----- negative mappings -----

    method CanAddNegativeMemoryMapping(x: MemoryMapping, overlapOk: bool) returns (status: Status)
      requires Valid() && x.start <= x.limit <= MAX_ADDRESS
      ensures status == RangeStatus(x, NegativePageAligned(x), if overlapOk then map[] else negative.rep, mapped.rep)
      ensures status.Ok? <==>
        && x.start < x.limit && !x.perms.IsEmpty() && NegativePageAligned(x)
        && (overlapOk || !OverlapsRange(negative.rep, x.start, x.limit)) && !ConflictsWith(mapped.rep, x)
    {
      if x.perms.IsEmpty() {
        return EmptyPerms;
      }
      if x.start == x.limit {
        return EmptyRange;
      }
      if !NegativePageAligned(x) {
        return NotPageAligned;
      }
      if !overlapOk {
        var overlaps := negative.Overlaps(x.start, x.limit);
        if overlaps {
          return Overlapping;
        }
      }
      var allowed := mapped.Perms(x.start, x.limit, Or);
      UnionConflicts(mapped.rep, x, allowed);
      if x.perms.HasSomeOf(allowed) {
        return Conflicting;
      }
      return Ok;
    }

    method AddNegativeMemoryMapping(x: MemoryMapping)
      requires Valid() && x.Valid() && !x.perms.IsEmpty()
      requires NegativePageAligned(x) && x.limit <= MAX_ADDRESS
      requires !OverlapsRange(negative.rep, x.start, x.limit) && !ConflictsWith(mapped.rep, x)
      modifies this`negativeMemoryMappings, negative
      ensures Valid()
      ensures Memory() == old(Memory()).(
        negativeMappings := old(negativeMemoryMappings) + [x],
        negative := Assigned(old(negative.rep), x.start, x.limit, x.perms))
    {
      AppendAgrees(negativeMemoryMappings, negative.rep, x);
      AssignedConflictFree(mapped.rep, negative.rep, x);
      negative.AddNew(x.start, x.limit, x.perms);
      negativeMemoryMappings := negativeMemoryMappings + [x];
    }

    /** Adds forbidden permissions where there may be some already; the list is rebuilt then. */
    method AddNegativeMemoryMappingOverlapOk(x: MemoryMapping)
      requires Valid() && x.Valid() && !x.perms.IsEmpty() && !ConflictsWith(mapped.rep, x)
      requires NegativePageAligned(x) && x.limit <= MAX_ADDRESS
      modifies this`negativeMemoryMappings, negative
      ensures Valid()
      ensures negative.rep == Added(old(negative.rep), x.start, x.limit, x.perms)
      ensures negativeMemoryMappings == ListWithAdded(old(negativeMemoryMappings), old(negative.rep), x)
      ensures Memory() == old(Memory()).(negativeMappings := negativeMemoryMappings, negative := negative.rep)
    {
      var overlaps := negative.Overlaps(x.start, x.limit);
      if overlaps {
        AddedAgrees(negativeMemoryMappings, negative.rep, x);
        AlignedUniform(negativeMemoryMappings, negative.rep, MAX_ADDRESS);
        AddedUniform(negative.rep, x, MAX_ADDRESS);
        RebuiltNegativeAligned(Added(negative.rep, x.start, x.limit, x.perms));
        AddedConflictFree(mapped.rep, negative.rep, x);
        negative.Add(x.start, x.limit, x.perms);
        negativeMemoryMappings := SortedMemoryMappingList(negative.rep);
      } else {
        AddedIsAssigned(negative.rep, x);
        AddNegativeMemoryMapping(x);
      }
    }

    /** Without reading there is no writing and no executing either. */
    static method FaultPerms(cause: SigCause) returns (perms: Perms)
      requires cause.CantExec? || cause.CantWrite? || cause.CantRead?
      ensures perms == NegativePerms(cause)
    {
      perms := NONE;
      match cause {
        case CantExec => perms := perms.Plus(Perms(false, false, true, false));
        case CantWrite => perms := perms.Plus(Perms(false, true, false, false));
        case CantRead => perms := perms.Plus(Perms(true, false, false, false));
      }
      if cause.CantRead? {
        perms := perms.Plus(Perms(false, false, true, false));
        perms := perms.Plus(Perms(false, true, false, false));
      }
    }

    /** Records for a fault why its page may not be accessed, unless the mappings allow it. */
    method AddNegativeMemoryMappingsFor(e: Endpoint) returns (status: Status)
      requires Valid()
      requires e.SignalEnd? && e.segv ==> !e.cause.GenericSigCause? && e.sigAddress <= MAX_ADDRESS
      modifies this`negativeMemoryMappings, negative
      ensures Valid()
      ensures !NeedsNegativeMapping(e) ==> status.Ok? && Memory() == old(Memory())
      ensures NeedsNegativeMapping(e) ==> FaultRecorded(status, old(Memory()), Memory(), FaultMapping(e))
      ensures NeedsNegativeMapping(e) ==> (status.Ok? || status.Conflicting?) && mapped.rep == old(mapped.rep)
      ensures NeedsNegativeMapping(e) && e.cause.CantExec? ==>
        FaultExplained(status, e.sigAddress, mapped.rep, old(negative.rep), negative.rep, false, false, true)
      ensures NeedsNegativeMapping(e) && e.cause.CantWrite? ==>
        FaultExplained(status, e.sigAddress, mapped.rep, old(negative.rep), negative.rep, false, true, false)
      ensures NeedsNegativeMapping(e) && e.cause.CantRead? ==>
        FaultExplained(status, e.sigAddress, mapped.rep, old(negative.rep), negative.rep, true, true, true)
    {
      if !e.SignalEnd? || !e.segv || e.cause.GeneralProtection? || e.cause.Overflow? {
        return Ok;
      }
      var perms := FaultPerms(e.cause);
      var lastPage := e.sigAddress >= MAX_ADDRESS - PAGE_SIZE + 1;
      var page := e.sigAddress / PAGE_SIZE;
      var start := page * PAGE_SIZE;
      var size := if lastPage then PAGE_SIZE - 1 else PAGE_SIZE;
      FaultPageLegal(e.sigAddress);
      if !CanMakeSized(start, size) {
        return TooLarge;
      }
      var x := MemoryMapping(start, start + size, perms);
      assert x == FaultMapping(e);
      ghost var before := Memory();
      status := AddIfFree(x);
      CauseExplained(e, status, before, Memory());
    }

    /** Adds forbidden permissions unless mappings have them. */
    method AddIfFree(x: MemoryMapping) returns (status: Status)
      requires Valid() && x.Valid() && !x.perms.IsEmpty() && NegativePageAligned(x) && x.limit <= MAX_ADDRESS
      modifies this`negativeMemoryMappings, negative
      ensures Valid()
      ensures FaultRecorded(status, old(Memory()), Memory(), x)
    {
      status := CanAddNegativeMemoryMapping(x, true);
      if status.Ok? {
        AddNegativeMemoryMappingOverlapOk(x);
      }
    }

    // ----- bytes -----

    method CanAddMemoryBytes(b: MemoryBytes) returns (status: Status)
      requires Valid() && b.Valid()
      ensures status.Ok? <==> ContainsRange(mapped.rep, b.start, b.Limit()) && Addresses(b.start, b.Limit()) !! writtenMemorySet
      ensures status.NotMapped? <==> !ContainsRange(mapped.rep, b.start, b.Limit())
      ensures status.Ok? || status.NotMapped? || status.Overlapping?
    {
      var contained := mapped.ContainsAll(b.start, b.Limit());
      if !contained {
        return NotMapped;
      }
      if !(Addresses(b.start, b.Limit()) !! writtenMemorySet) {
        return Overlapping;
      }
      return Ok;
    }

    method AddMemoryBytes(b: MemoryBytes)
      requires Valid() && b.Valid()
      requires ContainsRange(mapped.rep, b.start, b.Limit()) && Addresses(b.start, b.Limit()) !! writtenMemorySet
      modifies this`writtenMemorySet, this`memoryBytes
      ensures Valid()
      ensures Memory() == old(Memory()).(bytes := old(memoryBytes) + [b])
      ensures writtenMemorySet == old(writtenMemorySet) + Addresses(b.start, b.Limit())
    {
      AppendBytes(Memory(), writtenMemorySet, b);
      writtenMemorySet := writtenMemorySet + Addresses(b.start, b.Limit());
      memoryBytes := memoryBytes + [b];
    }

    // ----- normalisation -----

    method NormalizeMemoryMappings()
      requires Valid()
      modifies this`memoryMappings, this`negativeMemoryMappings
      ensures Valid()
      ensures Memory() == old(Memory()).(
        mappings := SortedMemoryMappingList(mapped.rep),
        negativeMappings := SortedMemoryMappingList(negative.rep))
    {
      AgreedUnmarked(memoryMappings, mapped.rep);
      AgreedUnmarked(negativeMemoryMappings, negative.rep);
      SortedListAgrees(mapped.rep);
      SortedListAgrees(negative.rep);
      RebuiltAligned(memoryMappings, mapped.rep);
      AlignedUniform(negativeMemoryMappings, negative.rep, MAX_ADDRESS);
      RebuiltNegativeAligned(negative.rep);
      memoryMappings := SortedMemoryMappingList(mapped.rep);
      negativeMemoryMappings := SortedMemoryMappingList(negative.rep);
    }

    method NormalizeBytes()
      requires Valid()
      modifies this`memoryBytes
      ensures Valid()
      ensures memoryBytes == NormalForm(mapped.rep, Content(old(memoryBytes)))
      ensures Content(memoryBytes) == Content(old(memoryBytes))
    {
      ghost var before := memoryBytes;
      memoryBytes := NormalizeMemoryBytes(mapped, memoryBytes);
      NormalBytesFit(mapped.rep, before);
    }

    // ----- end states -----

    /** The address checks for an expected end state. */
    method CanAddEndpoint(e: Endpoint, unmappedEndpointOk: bool) returns (status: Status)
      requires Valid()
      ensures e.SignalEnd? ==> (status.Ok? <==>
        && (|| e.sigAddress == 0
            || e.sigAddress in mapped.rep
            || (e.segv && e.sigAddress in negative.rep)
            || (e.segv && e.sigAddress == MAX_ADDRESS && MAX_ADDRESS - 1 in negative.rep))
        && (|| unmappedEndpointOk
            || e.sigInstructionAddress in mapped.rep
            || (e.segv && e.sigInstructionAddress in negative.rep)
            || (e.segv && e.sigInstructionAddress == MAX_ADDRESS && MAX_ADDRESS - 1 in negative.rep)))
      ensures e.InstructionEnd? ==> (status.Ok? <==>
        && e.instructionAddress < MAX_ADDRESS
        && (unmappedEndpointOk || PermsAt(mapped.rep, e.instructionAddress).executable))
      ensures e.SignalEnd? ==> status.Ok? || status.NotMapped?
      ensures e.InstructionEnd? ==> (status.TooLarge? <==> e.instructionAddress >= MAX_ADDRESS)
      ensures e.InstructionEnd? ==> status.Ok? || status.TooLarge? || status.NotExecutable?
    {
      match e
      case InstructionEnd(address) =>
        if !CanMakeSized(address, 1) {
          return TooLarge;
        }
        var perms := mapped.Perms(address, address + 1, And);
        OneAddress(mapped.rep, address);
        if !unmappedEndpointOk && !perms.executable {
          return NotExecutable;
        }
        return Ok;
      case SignalEnd(segv, _, sigAddress, sigInstructionAddress) =>
        if sigAddress != 0 {
          if !AddressKnown(Memory(), sigAddress, segv) {
            return NotMapped;
          }
        }
        if !unmappedEndpointOk && !AddressKnown(Memory(), sigInstructionAddress, segv) {
          return NotMapped;
        }
        return Ok;
    }
  }

  lemma OneAddress(m: PermsMap, address: nat)
    ensures JoinOver(m, address, address + 1, And) == PermsAt(m, address)
  {}

  /** Once a fault has been recorded, its address passes the check for expected end states. */
  method FaultIsAccepted(s: Snapshot, e: Endpoint) returns (recorded: Status, checked: Status)
    requires s.Valid() && NeedsNegativeMapping(e) && e.sigAddress <= MAX_ADDRESS
    modifies s`negativeMemoryMappings, s.negative
    ensures recorded.Ok? ==> checked.Ok?
    ensures s.Valid()
  {
    recorded := s.AddNegativeMemoryMappingsFor(e);
    FaultPageLegal(e.sigAddress);
    checked := s.CanAddEndpoint(e, true);
  }

  /**
    A snapshot as its own checks admit it, made from two faults, on which the mapping delta and
    setting the initial state differ.
   */
  method RecordTwoWriteFaults() returns (s: Snapshot)
    ensures s.Valid() && s.Memory() == UNWRITABLE
  {
    s := new Snapshot();
    var first, second := SignalEnd(true, CantWrite, FIRST_PAGE, FIRST_PAGE), SignalEnd(true, CantWrite, SECOND_PAGE, FIRST_PAGE);
    TwoWriteFaults(first, second);
    var _ := s.AddNegativeMemoryMappingsFor(first);
    var _ := s.AddNegativeMemoryMappingsFor(second);
  }

  lemma TwoWriteFaults(first: Endpoint, second: Endpoint)
    requires first == SignalEnd(true, CantWrite, FIRST_PAGE, FIRST_PAGE)
    requires second == SignalEnd(true, CantWrite, SECOND_PAGE, FIRST_PAGE)
    ensures FaultMapping(first) == UNWRITABLE.negativeMappings[0] && FaultMapping(second) == UNWRITABLE.negativeMappings[1]
    ensures !ConflictsWith(map[], FaultMapping(first)) && !ConflictsWith(map[], FaultMapping(second))
    ensures ListWithAdded([], map[], FaultMapping(first)) == [FaultMapping(first)]
    ensures var one := Added(map[], FIRST_PAGE, SECOND_PAGE, WRITE);
      && ListWithAdded([FaultMapping(first)], one, FaultMapping(second)) == UNWRITABLE.negativeMappings
      && Added(one, SECOND_PAGE, PAGES_END, WRITE) == UNWRITABLE.negative
  {}

  // ----- what adding keeps -----

  /** Permissions that conflict with nothing on the other side can be set. */
  lemma AssignedConflictFree(other: PermsMap, m: PermsMap, x: MemoryMapping)
    requires !ConflictsWith(other, x)
    ensures ConflictFree(m, other) ==> ConflictFree(Assigned(m, x.start, x.limit, x.perms), other)
    ensures ConflictFree(other, m) ==> ConflictFree(other, Assigned(m, x.start, x.limit, x.perms))
  {
    forall a | x.start <= a < x.limit && a in other
      ensures !other[a].HasSomeOf(x.perms) && !x.perms.HasSomeOf(other[a])
    {
      assert x.Has(a) && PermsAt(other, a) == other[a];
    }
  }

  lemma AddedIsAssigned(m: PermsMap, x: MemoryMapping)
    requires !OverlapsRange(m, x.start, x.limit)
    ensures Added(m, x.start, x.limit, x.perms) == Assigned(m, x.start, x.limit, x.perms)
  {}

  lemma AddedAgrees(list: seq<MemoryMapping>, m: PermsMap, x: MemoryMapping)
    requires ListMapAgree(list, m) && x.Valid() && !x.perms.IsEmpty()
    ensures var m' := Added(m, x.start, x.limit, x.perms); ListMapAgree(SortedMemoryMappingList(m'), m')
  {
    AgreedUnmarked(list, m);
    SortedListAgrees(Added(m, x.start, x.limit, x.perms));
  }

  lemma AddedConflictFree(mapped: PermsMap, negative: PermsMap, x: MemoryMapping)
    requires ConflictFree(mapped, negative) && !ConflictsWith(mapped, x)
    ensures ConflictFree(mapped, Added(negative, x.start, x.limit, x.perms))
  {
    var negative' := Added(negative, x.start, x.limit, x.perms);
    forall a | a in mapped && a in negative'
      ensures !mapped[a].HasSomeOf(negative'[a])
    {
      if x.Has(a) {
        assert !PermsAt(mapped, a).HasSomeOf(x.perms);
      }
    }
  }

  lemma AppendBytes(s: SnapshotMemory, written: set<nat>, b: MemoryBytes)
    requires WellFormedMemory(s) && (forall a :: a in written <==> InSome(s.bytes, a)) && b.Valid()
    requires ContainsRange(s.mapped, b.start, b.Limit()) && Addresses(b.start, b.Limit()) !! written
    ensures WellFormedMemory(s.(bytes := s.bytes + [b]))
    ensures forall a :: a in written + Addresses(b.start, b.Limit()) <==> InSome(s.bytes + [b], a)
  {
    var bytes := s.bytes + [b];
    assert bytes[..|s.bytes|] == s.bytes;
    forall a
      ensures a in written + Addresses(b.start, b.Limit()) <==> InSome(bytes, a)
    {
      InSomeOfLast(bytes, a);
    }
    forall i | 0 <= i < |s.bytes|
      ensures ApartBytes(s.bytes[i], b)
    {
      var a := if s.bytes[i].start < b.start then b.start else s.bytes[i].start;
      assert s.bytes[i].Has(a) ==> InSome(s.bytes, a);
      assert b.Has(a) ==> a in Addresses(b.start, b.Limit());
    }
  }

  /** Normalised bytes are well formed again and cover the same addresses. */
  lemma NormalBytesFit(m: PermsMap, bytes: seq<MemoryBytes>)
    requires Normalizable(m, bytes)
    ensures var now := NormalForm(m, Content(bytes));
      && Normalizable(m, now)
      && Content(now) == Content(bytes)
      && (forall a :: InSome(now, a) <==> InSome(bytes, a))
  {
    var now := NormalForm(m, Content(bytes));
    NormalFormIsNormal(m, Content(bytes));
    NormalFormContent(m, Content(bytes));
    InOrderIsDisjoint(now);
    forall a
      ensures InSome(now, a) <==> InSome(bytes, a)
      ensures InSome(bytes, a) ==> a in m
    {
      WrittenDomain(map[], now, a);
      WrittenDomain(map[], bytes, a);
    }
    forall i, a: nat | 0 <= i < |now| && now[i].Has(a)
      ensures a in m
    {
      assert InSome(now, a);
    }
  }
}
