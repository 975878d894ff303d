/**
  The state of memory in a process that plays snapshots: what is mapped, which bytes were
  written, and which byte values are known.
 */
module MemoryStates {
  import opened Wrappers
  import opened MemoryPerms
  import opened RangeMaps
  import opened MappedMemoryMaps
  import opened MemoryTypes
  import opened MappingCommands
  import opened SnapshotMemories
  import opened DeltaMappings
  import opened DeltaBytes

  datatype ExactnessMode = UnmapUnused | ProtectUnused

  // ----- what mutators do, on values -----

  /** Zero at some addresses. */
  function Zeroed(m: ByteMap, addresses: set<nat>): ByteMap {
    map a | a in m.Keys + addresses :: if a in addresses then 0 else m[a]
  }

  /** Known bytes after setting the initial state of a snapshot. */
  function InitialBytes(m: PermsMap, known: ByteMap, s: SnapshotMemory, zeroing: bool): ByteMap {
    WrittenAll(if zeroing then Zeroed(known, s.mapped.Keys - m.Keys) else known, s.bytes)
  }

  /** The bytes of the snapshot are known, new memory outside them is zero if asked for, and nothing else changes. */
  lemma InitialByteAt(m: PermsMap, known: ByteMap, s: SnapshotMemory, zeroing: bool, a: nat)
    requires WellFormedMemory(s)
    ensures forall i | 0 <= i < |s.bytes| && s.bytes[i].Has(a) ::
      a in InitialBytes(m, known, s, zeroing) && InitialBytes(m, known, s, zeroing)[a] == s.bytes[i].ByteAt(a)
    ensures zeroing && a in s.mapped && a !in m && !InSome(s.bytes, a) ==>
      a in InitialBytes(m, known, s, zeroing) && InitialBytes(m, known, s, zeroing)[a] == 0
    ensures !(zeroing && a in s.mapped && a !in m) && !InSome(s.bytes, a) ==>
      && (a in InitialBytes(m, known, s, zeroing) <==> a in known)
      && (a in known ==> InitialBytes(m, known, s, zeroing)[a] == known[a])
  {
    var start := if zeroing then Zeroed(known, s.mapped.Keys - m.Keys) else known;
    forall i | 0 <= i < |s.bytes| && s.bytes[i].Has(a)
      ensures a in WrittenAll(start, s.bytes) && WrittenAll(start, s.bytes)[a] == s.bytes[i].ByteAt(a)
    {
      WrittenAt(start, s.bytes, i, a);
    }
    if !InSome(s.bytes, a) {
      WrittenUntouched(start, s.bytes, a);
    }
  }

  /** Permissions without the rwx bits at some addresses. */
  function ClearedAt(m: PermsMap, addresses: set<nat>): (r: PermsMap)
    ensures r.Keys == m.Keys
  {
    map a | a in m :: if a in addresses then m[a].Minus(ALL) else m[a]
  }

  /** After taking the permissions of the first `i` ranges away; mapped memory stays mapped. */
  function TakenAway(m: PermsMap, x: PermsMap, covered: set<nat>): (r: PermsMap)
    ensures r.Keys == m.Keys
  {
    map a | a in m :: if a in covered && a in x then m[a].Minus(x[a]) else m[a]
  }

  /** Where being mapped is not taken away, no entry goes. */
  lemma RemovedUnmarked(m: PermsMap, start: nat, limit: nat, perms: Perms)
    requires AllMapped(m) && !perms.mapped
    ensures Removed(m, start, limit, perms) == map a | a in m :: if start <= a < limit then m[a].Minus(perms) else m[a]
  {}

  lemma TakenStaysMapped(m: PermsMap, x: PermsMap, covered: set<nat>)
    requires AllMapped(m) && NoneMarked(x)
    ensures AllMapped(TakenAway(m, x, covered))
    ensures TakenAway(m, x, {}) == m
  {}

  lemma TakeRange(m: PermsMap, x: PermsMap, i: nat)
    requires i < |Runs(x)| && AllMapped(m) && NoneMarked(x)
    ensures var r := Runs(x)[i];
      && r.start < r.limit
      && Removed(TakenAway(m, x, CoveredUpTo(Runs(x), i)), r.start, r.limit, r.value)
         == TakenAway(m, x, CoveredUpTo(Runs(x), i + 1))
  {
    var r := Runs(x)[i];
    var covered := CoveredUpTo(Runs(x), i);
    NextRun(x, i);
    TakenStaysMapped(m, x, covered);
    assert r.start in Addresses(r.start, r.limit) && x[r.start] == r.value;
    RemovedUnmarked(TakenAway(m, x, covered), r.start, r.limit, r.value);
  }

  /** The mapped memory after setting some mappings. */
  function MappingsSet(m: PermsMap, list: seq<MemoryMapping>): PermsMap {
    if list == [] then m
    else
      var last := list[|list| - 1];
      Assigned(MappingsSet(m, list[..|list| - 1]), last.start, last.limit, last.perms.Plus(MAPPED))
  }

  lemma {:induction false} MappingsSetReach(m: PermsMap, list: seq<MemoryMapping>)
    ensures MappingsSet(m, list) == Reached(m, ListTargets(list, NONE))
    decreases |list|
  {
    if list != [] {
      var last := list[|list| - 1];
      MappingsSetReach(m, list[..|list| - 1]);
      assert last.perms.Plus(NONE) == last.perms;
      ReachOneMore(m, ListTargets(list[..|list| - 1], NONE), last);
    }
  }

  lemma ReachOneMore(m: PermsMap, t: Targets, x: MemoryMapping)
    ensures Assigned(Reached(m, t), x.start, x.limit, x.perms.Plus(MAPPED))
      == Reached(m, t + MappingTargets(x.start, x.limit, x.perms))
  {}

  lemma InitialMappedAt(m: PermsMap, s: SnapshotMemory, base: PermsMap, a: nat)
    requires WellFormedMemory(s) && NoneMarked(s.negative) && base == Reached(m, PositiveTargets(s.mapped, NONE))
    ensures var x := Forbidden(base, s); At(TakenAway(base, x, x.Keys), a) == At(InitialMapped(m, s), a)
  {}

  /** Taking away what is forbidden, after setting the snapshot's mappings, gives the initial permissions. */
  lemma InitialMappedSteps(m: PermsMap, s: SnapshotMemory)
    requires WellFormedMemory(s)
    ensures var base := Reached(m, PositiveTargets(s.mapped, NONE));
      var x := Forbidden(base, s);
      && NoneMarked(x)
      && TakenAway(base, x, x.Keys) == InitialMapped(m, s)
  {
    var base := Reached(m, PositiveTargets(s.mapped, NONE));
    var x := Forbidden(base, s);
    AgreedUnmarked(s.negativeMappings, s.negative);
    forall a
      ensures At(TakenAway(base, x, x.Keys), a) == At(InitialMapped(m, s), a)
    {
      InitialMappedAt(m, s, base, a);
    }
    SameEverywhere(TakenAway(base, x, x.Keys), InitialMapped(m, s));
  }

  lemma BytesStayWithin(m: PermsMap, s: SnapshotMemory)
    requires WellFormedMemory(s)
    ensures BytesWithin(s.bytes, InitialMapped(m, s))
  {}

  /** In the initial state of a snapshot all targets of its delta are reached. */
  lemma InitialAchieved(m: PermsMap, s: SnapshotMemory, cmds: seq<Cmd>)
    requires AllMapped(m) && WellFormedMemory(s)
    requires Achieves(InitialMapped(m, s), DeltaTargets(InitialMapped(m, s), s, NONE), cmds)
    ensures cmds == []
  {
    var now := InitialMapped(m, s);
    var t := DeltaTargets(now, s, NONE);
    AgreedUnmarked(s.negativeMappings, s.negative);
    forall a | a in t
      ensures At(now, a) == t[a]
    {
      ForbiddenAt(now, s, a);
      assert a in s.mapped ==> s.mapped[a].Plus(NONE) == s.mapped[a];
    }
    NothingToDo(now, t, cmds);
  }

  lemma NothingToDo(m: PermsMap, t: Targets, cmds: seq<Cmd>)
    requires Achieves(m, t, cmds) && forall a | a in t :: At(m, a) == t[a]
    ensures cmds == []
  {
    if cmds != [] {
      assert Serves(m, t, cmds[0]);
      assert cmds[0].Has(cmds[0].mapping.start);
    }
  }

  /** Without forbidden permissions no command is needed. */
  lemma NothingForbidden(m: PermsMap, s: SnapshotMemory)
    requires WellFormedMemory(s) && (s.negativeMappings == [] || m == map[])
    ensures Achieves(m, NegativeTargets(m, Forbidden(m, s)), [])
  {
    forall a | a in s.negative
      ensures m == map[]
    {
      assert SomeMappingHas(s.negativeMappings, a);
    }
  }

  // ----- memory outside the snapshot -----

  function UnusedTargets(m: PermsMap, mapped: PermsMap, mode: ExactnessMode): Targets {
    match mode
    case UnmapUnused => UnmapTargets(m, mapped)
    case ProtectUnused => ProtectTargets(m, mapped)
  }

  /** What is done about one range outside the snapshot; nothing, if it is only to be protected and is already. */
  function UnusedCmds(r: Range<Perms>, mode: ExactnessMode): seq<Cmd> {
    match mode
    case UnmapUnused => [Cmd(MemoryMapping(r.start, r.limit, READ), Unmap)]
    case ProtectUnused => if r.value.HasSomeOf(ALL) then [Cmd(MemoryMapping(r.start, r.limit, NONE), Protect)] else []
  }

  lemma UnusedAchieves(m: PermsMap, r: Range<Perms>, mode: ExactnessMode)
    requires AllMapped(m) && r.start < r.limit
    requires forall a | r.start <= a < r.limit :: At(m, a) == Some(r.value)
    ensures Achieves(m, SameTarget(Addresses(r.start, r.limit), UnusedTarget(mode)), UnusedCmds(r, mode))
  {
    assert At(m, r.start) == Some(r.value) && r.value.mapped;
    if UnusedCmds(r, mode) == [] {
      assert r.value == MAPPED;
      NoCommand(m, Addresses(r.start, r.limit), UnusedTarget(mode));
    } else {
      var c := UnusedCmds(r, mode)[0];
      forall a | c.Has(a)
        ensures a in m && At(m, a) != c.Effect()
      {
        assert At(m, a) == Some(r.value);
      }
      OneCommand(m, c);
    }
  }

  function UnusedTarget(mode: ExactnessMode): Option<Perms> {
    if mode.UnmapUnused? then None else Some(MAPPED)
  }

  /** One more range outside the snapshot is taken care of. */
  lemma UnusedStep(m: PermsMap, mapped: PermsMap, i: nat, mode: ExactnessMode, cmds: seq<Cmd>)
    requires AllMapped(m) && i < |Runs(Excluding(m, mapped))|
    requires Achieves(m, SameTarget(CoveredUpTo(Runs(Excluding(m, mapped)), i), UnusedTarget(mode)), cmds)
    ensures Achieves(m, SameTarget(CoveredUpTo(Runs(Excluding(m, mapped)), i + 1), UnusedTarget(mode)),
      cmds + UnusedCmds(Runs(Excluding(m, mapped))[i], mode))
  {
    var unused := Excluding(m, mapped);
    var r := Runs(unused)[i];
    NextRun(unused, i);
    forall a | r.start <= a < r.limit
      ensures At(m, a) == Some(r.value)
    {
      assert a in Addresses(r.start, r.limit);
      assert unused[a] == r.value;
    }
    UnusedAchieves(m, r, mode);
    RunsAreIteration(unused);
    OneMoreRange(m, Runs(unused), i, UnusedTarget(mode), cmds, UnusedCmds(r, mode));
  }

  lemma UnusedEnd(m: PermsMap, mapped: PermsMap, mode: ExactnessMode)
    ensures var runs := Runs(Excluding(m, mapped));
      SameTarget(CoveredUpTo(runs, |runs|), UnusedTarget(mode)) == UnusedTargets(m, mapped, mode)
  {
    RunsCover(Excluding(m, mapped));
  }

  lemma RemovedTwice<V>(m: map<nat, V>, p: set<nat>, q: set<nat>)
    ensures m - p - q == m - (p + q)
  {}

  lemma KeptInside<V>(m: map<nat, V>, all: set<nat>, mapped: PermsMap)
    requires m.Keys <= all
    ensures m - (all - mapped.Keys) == map a | a in m && a in mapped :: m[a]
  {}

  lemma UnionInOrder(s: set<nat>, p: set<nat>, q: set<nat>)
    ensures (s + p) + q == s + (p + q)
  {}

  lemma ZeroedTwice(m: ByteMap, p: set<nat>, q: set<nat>)
    ensures Zeroed(Zeroed(m, p), q) == Zeroed(m, p + q)
  {}

  lemma ClearedStaysMapped(m: PermsMap, p: set<nat>)
    requires AllMapped(m)
    ensures AllMapped(ClearedAt(m, p))
    ensures ClearedAt(m, {}) == m
  {}

  lemma ClearTwice(m: PermsMap, p: set<nat>, start: nat, limit: nat)
    requires AllMapped(m)
    ensures Removed(ClearedAt(m, p), start, limit, ALL) == ClearedAt(m, p + Addresses(start, limit))
  {}

  class MemoryState {
    const mapped: MappedMemoryMap
    var writtenMemorySet: set<nat>
    var writtenMemoryBytes: ByteMap

    /** Known bytes are written, written bytes are mapped, and every entry is marked as mapped. */
    ghost predicate Valid()
      reads this, mapped
    {
      && AllMapped(mapped.rep)
      && writtenMemorySet <= mapped.rep.Keys
      && writtenMemoryBytes.Keys <= writtenMemorySet
    }

    /** Nothing was forgotten: the known bytes are exactly the written ones. */
    ghost predicate NothingForgotten()
      reads this
    {
      writtenMemorySet == writtenMemoryBytes.Keys
    }

    constructor ()
      ensures Valid() && NothingForgotten()
      ensures mapped.rep == map[] && writtenMemoryBytes == map[]
      ensures fresh(mapped)
    {
      mapped := new MappedMemoryMap();
      writtenMemorySet := {};
      writtenMemoryBytes := map[];
    }

    // ----- mutators -----

    method AddNewMemoryMapping(m: MemoryMapping)
      requires Valid() && m.Valid() && !m.perms.IsEmpty() && !OverlapsRange(mapped.rep, m.start, m.limit)
      modifies mapped
      ensures Valid()
      ensures mapped.rep == Assigned(old(mapped.rep), m.start, m.limit, m.perms.Plus(MAPPED))
    {
      mapped.AddNew(m.start, m.limit, m.perms.Plus(MAPPED));
    }

    method SetMemoryMapping(m: MemoryMapping)
      requires Valid() && m.Valid() && !m.perms.IsEmpty()
      modifies mapped
      ensures Valid()
      ensures mapped.rep == Assigned(old(mapped.rep), m.start, m.limit, m.perms.Plus(MAPPED))
    {
      SetMemoryMappingEmptyPermsOk(m);
    }

    method SetMemoryMappingEmptyPermsOk(m: MemoryMapping)
      requires Valid() && m.Valid()
      modifies mapped
      ensures Valid()
      ensures mapped.rep == Assigned(old(mapped.rep), m.start, m.limit, m.perms.Plus(MAPPED))
    {
      mapped.Set(m.start, m.limit, m.perms.Plus(MAPPED));
    }

    method RemoveMemoryMapping(start: nat, limit: nat)
      requires Valid() && start < limit
      modifies this, mapped
      ensures Valid()
      ensures mapped.rep == old(mapped.rep) - Addresses(start, limit)
      ensures writtenMemorySet == old(writtenMemorySet) - Addresses(start, limit)
      ensures writtenMemoryBytes == old(writtenMemoryBytes) - Addresses(start, limit)
    {
      mapped.Remove(start, limit, ALL_PLUS_MAPPED);
      writtenMemorySet := writtenMemorySet - Addresses(start, limit);
      writtenMemoryBytes := writtenMemoryBytes - Addresses(start, limit);
    }

    /** Forgets all memory outside the snapshot. */
    method RemoveMemoryMappingsNotIn(s: SnapshotMemory)
      requires Valid()
      modifies this, mapped
      ensures Valid() && (old(NothingForgotten()) ==> NothingForgotten())
      ensures mapped.rep == map a | a in old(mapped.rep) && a in s.mapped :: old(mapped.rep)[a]
      ensures writtenMemorySet == old(writtenMemorySet) * s.mapped.Keys
      ensures writtenMemoryBytes == map a | a in old(writtenMemoryBytes) && a in s.mapped :: old(writtenMemoryBytes)[a]
    {
      var extra := new MappedMemoryMap.CopyOf(mapped.rep);
      extra.RemoveRangesOf(s.mapped);
      var runs := Runs(extra.rep);
      ghost var outside := extra.rep;
      RunsCover(outside);
      for i := 0 to |runs|
        invariant Valid()
        invariant mapped.rep == old(mapped.rep) - CoveredUpTo(runs, i)
        invariant writtenMemorySet == old(writtenMemorySet) - CoveredUpTo(runs, i)
        invariant writtenMemoryBytes == old(writtenMemoryBytes) - CoveredUpTo(runs, i)
      {
        NextRun(outside, i);
        ghost var covered, next := CoveredUpTo(runs, i), Addresses(runs[i].start, runs[i].limit);
        RemovedTwice(old(mapped.rep), covered, next);
        RemovedTwice(old(writtenMemoryBytes), covered, next);
        RemoveMemoryMapping(runs[i].start, runs[i].limit);
      }
      KeptInside(old(mapped.rep), old(mapped.rep).Keys, s.mapped);
      KeptInside(old(writtenMemoryBytes), old(mapped.rep).Keys, s.mapped);
    }

    /** Takes all permissions from memory outside the snapshot, which stays mapped. */
    method ClearMemoryMappingsPermsNotIn(s: SnapshotMemory)
      requires Valid()
      modifies mapped
      ensures Valid()
      ensures mapped.rep == ClearedAt(old(mapped.rep), old(mapped.rep).Keys - s.mapped.Keys)
    {
      var extra := new MappedMemoryMap.CopyOf(mapped.rep);
      extra.RemoveRangesOf(s.mapped);
      var runs := Runs(extra.rep);
      RunsCover(extra.rep);
      ClearedStaysMapped(mapped.rep, {});
      for i := 0 to |runs|
        invariant runs == Runs(extra.rep)
        invariant mapped.rep == ClearedAt(old(mapped.rep), CoveredUpTo(runs, i))
      {
        NextRun(extra.rep, i);
        ClearTwice(old(mapped.rep), CoveredUpTo(runs, i), runs[i].start, runs[i].limit);
        mapped.Remove(runs[i].start, runs[i].limit, ALL);
      }
      assert CoveredUpTo(runs, |runs|) == old(mapped.rep).Keys - s.mapped.Keys;
      ClearedStaysMapped(old(mapped.rep), extra.rep.Keys);
    }

    method SetMemoryBytes(b: MemoryBytes)
      requires Valid() && ContainsRange(mapped.rep, b.start, b.Limit())
      modifies this
      ensures Valid() && (old(NothingForgotten()) ==> NothingForgotten())
      ensures writtenMemorySet == old(writtenMemorySet) + Addresses(b.start, b.Limit())
      ensures writtenMemoryBytes == Written(old(writtenMemoryBytes), b)
    {
      writtenMemorySet := writtenMemorySet + Addresses(b.start, b.Limit());
      writtenMemoryBytes := Written(writtenMemoryBytes, b);
    }

    method SetMemoryBytesList(list: seq<MemoryBytes>)
      requires Valid() && BytesWithin(list, mapped.rep)
      modifies this
      ensures Valid() && (old(NothingForgotten()) ==> NothingForgotten())
      ensures writtenMemorySet == old(writtenMemorySet) + Covered(list)
      ensures writtenMemoryBytes == WrittenAll(old(writtenMemoryBytes), list)
    {
      for i := 0 to |list|
        invariant Valid() && (old(NothingForgotten()) ==> NothingForgotten())
        invariant writtenMemorySet == old(writtenMemorySet) + Covered(list[..i])
        invariant writtenMemoryBytes == WrittenAll(old(writtenMemoryBytes), list[..i])
      {
        assert list[..i + 1][..i] == list[..i];
        assert forall a | list[i].start <= a < list[i].Limit() :: list[i].Has(a);
        SetMemoryBytes(list[i]);
      }
      assert list[..|list|] == list;
    }

    /** Forgets byte values; the bytes still count as written. */
    method ForgetMemoryBytes(start: nat, limit: nat)
      requires Valid()
      modifies this`writtenMemoryBytes
      ensures Valid()
      ensures writtenMemoryBytes == old(writtenMemoryBytes) - Addresses(start, limit)
    {
      writtenMemoryBytes := writtenMemoryBytes - Addresses(start, limit);
    }

    method ZeroRange(start: nat, limit: nat)
      requires Valid() && start < limit && ContainsRange(mapped.rep, start, limit)
      modifies this
      ensures Valid() && (old(NothingForgotten()) ==> NothingForgotten())
      ensures writtenMemorySet == old(writtenMemorySet) + Addresses(start, limit)
      ensures writtenMemoryBytes == Zeroed(old(writtenMemoryBytes), Addresses(start, limit))
    {
      var zeros := MemoryBytes(start, seq(limit - start, _ => 0));
      SetMemoryBytes(zeros);
    }

    method ZeroMappedMemoryBytes(m: MemoryMapping)
      requires Valid() && m.Valid() && !m.perms.IsEmpty() && ContainsRange(mapped.rep, m.start, m.limit)
      modifies this
      ensures Valid() && (old(NothingForgotten()) ==> NothingForgotten())
      ensures writtenMemorySet == old(writtenMemorySet) + Addresses(m.start, m.limit)
      ensures writtenMemoryBytes == Zeroed(old(writtenMemoryBytes), Addresses(m.start, m.limit))
      ensures forall a | m.Has(a) :: a in writtenMemoryBytes && writtenMemoryBytes[a] == 0
    {
      ZeroRange(m.start, m.limit);
    }

    /** Sets the mappings of a list, one after the other. */
    method SetMemoryMappings(list: seq<MemoryMapping>)
      requires Valid() && AllMappingsValid(list)
      modifies mapped
      ensures Valid()
      ensures mapped.rep == MappingsSet(old(mapped.rep), list)
    {
      for i := 0 to |list|
        invariant Valid()
        invariant mapped.rep == MappingsSet(old(mapped.rep), list[..i])
      {
        assert list[..i + 1][..i] == list[..i];
        SetMemoryMapping(list[i]);
      }
      assert list[..|list|] == list;
    }

    /** Takes forbidden permissions away, range by range. */
    method TakeForbidden(s: SnapshotMemory)
      requires Valid() && NoneMarked(Forbidden(mapped.rep, s))
      modifies mapped
      ensures Valid()
      ensures mapped.rep == TakenAway(old(mapped.rep), Forbidden(old(mapped.rep), s), Forbidden(old(mapped.rep), s).Keys)
    {
      var filtered := new MappedMemoryMap.CopyOf(s.negative);
      filtered.RemoveRangesOf(s.mapped);
      var delta := Intersection(mapped.rep, filtered.rep);
      var runs := Runs(delta);
      RunsCover(delta);
      TakenStaysMapped(mapped.rep, delta, {});
      for i := 0 to |runs|
        invariant mapped.rep == TakenAway(old(mapped.rep), delta, CoveredUpTo(runs, i))
      {
        TakeRange(old(mapped.rep), delta, i);
        mapped.Remove(runs[i].start, runs[i].limit, runs[i].value);
      }
      TakenStaysMapped(old(mapped.rep), delta, delta.Keys);
    }

    /** Zeroes the memory of a map, range by range. */
    method ZeroNew(m: PermsMap)
      requires Valid() && m.Keys <= mapped.rep.Keys
      modifies this
      ensures Valid() && (old(NothingForgotten()) ==> NothingForgotten())
      ensures writtenMemorySet == old(writtenMemorySet) + m.Keys
      ensures writtenMemoryBytes == Zeroed(old(writtenMemoryBytes), m.Keys)
    {
      var runs := Runs(m);
      RunsCover(m);
      for i := 0 to |runs|
        invariant Valid() && (old(NothingForgotten()) ==> NothingForgotten())
        invariant writtenMemorySet == old(writtenMemorySet) + CoveredUpTo(runs, i)
        invariant writtenMemoryBytes == Zeroed(old(writtenMemoryBytes), CoveredUpTo(runs, i))
      {
        NextRun(m, i);
        assert forall a | runs[i].start <= a < runs[i].limit :: a in Addresses(runs[i].start, runs[i].limit);
        UnionInOrder(old(writtenMemorySet), CoveredUpTo(runs, i), Addresses(runs[i].start, runs[i].limit));
        ZeroedTwice(old(writtenMemoryBytes), CoveredUpTo(runs, i), Addresses(runs[i].start, runs[i].limit));
        ZeroRange(runs[i].start, runs[i].limit);
      }
    }

    /** Brings the snapshot's starting state in; anything outside its memory stays. */
    method SetInitialState(s: SnapshotMemory, zeroing: bool)
      requires Valid() && WellFormedMemory(s)
      modifies this, mapped
      ensures Valid() && (old(NothingForgotten()) ==> NothingForgotten())
      ensures mapped.rep == InitialMapped(old(mapped.rep), s)
      ensures writtenMemorySet == old(writtenMemorySet)
        + (if zeroing then s.mapped.Keys - old(mapped.rep).Keys else {}) + Covered(s.bytes)
      ensures writtenMemoryBytes == InitialBytes(old(mapped.rep), old(writtenMemoryBytes), s, zeroing)
      ensures zeroing ==> forall a | a in s.mapped && a !in old(mapped.rep) && !InSome(s.bytes, a) ::
        a in writtenMemoryBytes && writtenMemoryBytes[a] == 0
    {
      ghost var before, known := mapped.rep, writtenMemoryBytes;
      var newMappings := new MappedMemoryMap.CopyOf(s.mapped);
      newMappings.RemoveRangesOf(mapped.rep);
      SetMemoryMappings(s.mappings);
      MappingsSetReach(before, s.mappings);
      ListTargetsAgree(s.mappings, s.mapped, NONE);
      InitialMappedSteps(before, s);
      TakeForbidden(s);
      if zeroing {
        assert newMappings.rep.Keys == s.mapped.Keys - before.Keys;
        ZeroNew(newMappings.rep);
      } else {
        assert writtenMemorySet + {} == writtenMemorySet;
      }
      BytesStayWithin(before, s);
      SetMemoryBytesList(s.bytes);
      forall a | zeroing && a in s.mapped && a !in before && !InSome(s.bytes, a)
        ensures a in writtenMemoryBytes && writtenMemoryBytes[a] == 0
      {
        InitialByteAt(before, known, s, zeroing, a);
      }
    }
  
    // ----- mapping deltas -----

    /** The commands that set one mapping with added permissions. */
    method DeltaMemoryMapping(mapping: MemoryMapping, added: Perms) returns (cmds: seq<Cmd>)
      requires Valid() && mapping.Valid() && !added.mapped && !mapping.perms.Plus(added).IsEmpty()
      ensures Achieves(mapped.rep, MappingTargets(mapping.start, mapping.limit, mapping.perms.Plus(added)), cmds)
    {
      var m := mapping.(perms := mapping.perms.Plus(added));
      if mapped.rep == map[] {
        MapAll(mapped.rep, m);
        return [Cmd(m, Map)];
      }
      var delta := Difference(m.start, m.limit, m.perms.Plus(MAPPED), mapped.rep);
      var runs := Runs(delta);
      cmds := [];
      for i := 0 to |runs|
        invariant |cmds| == i && forall j | 0 <= j < i :: cmds[j] == DifferenceCmd(m, runs[j])
      {
        var d := MemoryMapping(runs[i].start, runs[i].limit, m.perms);
        if runs[i].value == m.perms.Plus(MAPPED) {
          cmds := cmds + [Cmd(d, Map)];
        } else {
          cmds := cmds + [Cmd(d, Protect)];
        }
      }
      DifferenceAchieves(mapped.rep, m, cmds);
    }

    /** The commands for all mappings of a snapshot, one mapping after the other. */
    method DeltaPositiveMappings(s: SnapshotMemory, added: Perms) returns (cmds: seq<Cmd>)
      requires Valid() && WellFormedMemory(s) && !added.mapped
      ensures Achieves(mapped.rep, PositiveTargets(s.mapped, added), cmds)
    {
      cmds := [];
      for i := 0 to |s.mappings|
        invariant Achieves(mapped.rep, ListTargets(s.mappings[..i], added), cmds)
      {
        var x := s.mappings[i];
        var more := DeltaMemoryMapping(x, added);
        NextTargetsApart(s.mappings, i, added);
        AchievesBoth(mapped.rep, ListTargets(s.mappings[..i], added), cmds,
          MappingTargets(x.start, x.limit, x.perms.Plus(added)), more);
        cmds := cmds + more;
      }
      assert s.mappings[..|s.mappings|] == s.mappings;
      ListTargetsAgree(s.mappings, s.mapped, added);
    }

    /** The commands that take forbidden permissions away, range by range. */
    method DeltaNegativeMappings(s: SnapshotMemory) returns (cmds: seq<Cmd>)
      requires Valid() && NoneMarked(s.negative)
      ensures Achieves(mapped.rep, NegativeTargets(mapped.rep, Forbidden(mapped.rep, s)), cmds)
    {
      var filtered := new MappedMemoryMap.CopyOf(s.negative);
      filtered.RemoveRangesOf(s.mapped);
      var delta := Intersection(mapped.rep, filtered.rep);
      var runs := Runs(delta);
      RunsAreIteration(delta);
      cmds := [];
      for i := 0 to |runs|
        invariant |cmds| == i && forall j | 0 <= j < i :: cmds[j] == ReprotectCmd(mapped.rep, runs[j])
      {
        var p := mapped.Perms(runs[i].start, runs[i].limit, And);
        p := p.Minus(runs[i].value);
        p := p.Minus(MAPPED);
        cmds := cmds + [Cmd(MemoryMapping(runs[i].start, runs[i].limit, p), Protect)];
      }
      ReprotectAchieves(mapped.rep, s, cmds);
    }

    /** The commands for a snapshot: its mappings, and then no forbidden permissions elsewhere. */
    method DeltaMemoryMappings(s: SnapshotMemory, added: Perms) returns (cmds: seq<Cmd>)
      requires Valid() && WellFormedMemory(s) && !added.mapped
      ensures Achieves(mapped.rep, DeltaTargets(mapped.rep, s, added), cmds)
    {
      AgreedUnmarked(s.negativeMappings, s.negative);
      cmds := DeltaPositiveMappings(s, added);
      var more: seq<Cmd> := [];
      if s.negativeMappings != [] && mapped.rep != map[] {
        more := DeltaNegativeMappings(s);
      } else {
        NothingForbidden(mapped.rep, s);
      }
      AchievesBoth(mapped.rep, PositiveTargets(s.mapped, added), cmds,
        NegativeTargets(mapped.rep, Forbidden(mapped.rep, s)), more);
      cmds := cmds + more;
    }

    /** The commands that unmap or protect what is mapped outside the snapshot. */
    method DeltaUnusedMappings(s: SnapshotMemory, mode: ExactnessMode) returns (cmds: seq<Cmd>)
      requires Valid()
      ensures Achieves(mapped.rep, UnusedTargets(mapped.rep, s.mapped, mode), cmds)
    {
      cmds := [];
      var unused := new MappedMemoryMap.CopyOf(mapped.rep);
      unused.RemoveRangesOf(s.mapped);
      var runs := Runs(unused.rep);
      for i := 0 to |runs|
        invariant runs == Runs(Excluding(mapped.rep, s.mapped))
        invariant Achieves(mapped.rep, SameTarget(CoveredUpTo(runs, i), UnusedTarget(mode)), cmds)
      {
        UnusedStep(mapped.rep, s.mapped, i, mode, cmds);
        cmds := cmds + UnusedCmds(runs[i], mode);
      }
      UnusedEnd(mapped.rep, s.mapped, mode);
    }

    /** The commands that leave exactly the snapshot's memory, and unmap or protect everything else. */
    method DeltaMemoryMappingsExact(s: SnapshotMemory, added: Perms, mode: ExactnessMode) returns (cmds: seq<Cmd>)
      requires Valid() && WellFormedMemory(s) && !added.mapped
      ensures Achieves(mapped.rep, PositiveTargets(s.mapped, added) + UnusedTargets(mapped.rep, s.mapped, mode), cmds)
    {
      cmds := DeltaPositiveMappings(s, added);
      var more := DeltaUnusedMappings(s, mode);
      AchievesBoth(mapped.rep, PositiveTargets(s.mapped, added), cmds,
        UnusedTargets(mapped.rep, s.mapped, mode), more);
      cmds := cmds + more;
    }

    // ----- byte deltas -----

    /** Adds `size` bytes from `addr` on to the last chunk, or starts a new one. */
    static method GrowResultChunk(bytes: MemoryBytes, addr: nat, size: nat, chunk: Option<MemoryBytes>, result: seq<MemoryBytes>)
      returns (chunk': Option<MemoryBytes>, result': seq<MemoryBytes>)
      requires bytes.start <= addr && addr + size <= bytes.Limit()
      requires chunk.Some? ==> SliceOf(bytes, chunk.value) && chunk.value.Limit() <= addr
      ensures (chunk', result') == Grown(bytes, addr, size, chunk, result)
    {
      result' := result;
      var offset := addr - bytes.start;
      if chunk.Some? {
        SliceJoin(bytes, chunk.value, addr + size);
      }
      if chunk.None? {
        chunk' := Some(MemoryBytes(addr, bytes.values[offset..offset + size]));
      } else if chunk.value.Limit() == addr {
        var c := chunk.value;
        chunk' := Some(MemoryBytes(c.start, c.values + bytes.values[offset..offset + size]));
      } else {
        var c := chunk.value;
        if addr - c.Limit() < MIN_SKIP_OVER_BYTES {
          var from := c.Limit() - bytes.start;
          chunk' := Some(MemoryBytes(c.start, c.values + bytes.values[from..from + (addr - c.Limit() + size)]));
        } else {
          result' := result + [c];
          chunk' := Some(MemoryBytes(addr, bytes.values[offset..offset + size]));
        }
      }
    }

    /** Passes one byte, of which the old value is given if it is known. */
    static method PassByte(bytes: MemoryBytes, addr: nat, oldByte: Option<Byte>,
                           chunk: Option<MemoryBytes>, result: seq<MemoryBytes>, ghost known: ByteMap)
      returns (chunk': Option<MemoryBytes>, result': seq<MemoryBytes>)
      requires bytes.start <= addr < bytes.Limit() && Growing(known, bytes, addr, chunk, result)
      requires oldByte == if addr in known then Some(known[addr]) else None
      ensures Growing(known, bytes, addr + 1, chunk', result')
    {
      chunk', result' := chunk, result;
      var newByte := bytes.values[addr - bytes.start];
      if oldByte.None? || oldByte.value != newByte {
        assert Differs(known, bytes, addr);
        GrowStep(known, bytes, addr, 1, chunk, result);
        chunk', result' := GrowResultChunk(bytes, addr, 1, chunk, result);
      } else {
        PassKnown(known, bytes, addr, chunk, result);
      }
    }

    /** Passes the rest, of which no value is known. */
    static method PassTail(bytes: MemoryBytes, addr: nat, chunk: Option<MemoryBytes>, result: seq<MemoryBytes>, ghost known: ByteMap)
      returns (chunk': Option<MemoryBytes>, result': seq<MemoryBytes>)
      requires bytes.start <= addr <= bytes.Limit() && Growing(known, bytes, addr, chunk, result)
      requires AllDiffer(known, bytes, addr, bytes.Limit())
      ensures Growing(known, bytes, bytes.Limit(), chunk', result')
    {
      chunk', result' := chunk, result;
      var tail := bytes.Limit() - addr;
      if tail != 0 {
        GrowStep(known, bytes, addr, tail, chunk, result);
        chunk', result' := GrowResultChunk(bytes, addr, tail, chunk, result);
      }
    }

    /** One byte of the walk; after the last known range the rest is passed at once. */
    method ScanByte(bytes: MemoryBytes, ranges: seq<Range<()>>, end: nat, addr: nat, it: nat,
                    chunk: Option<MemoryBytes>, result: seq<MemoryBytes>)
      returns (it': nat, atEnd: bool, chunk': Option<MemoryBytes>, result': seq<MemoryBytes>)
      requires addr < bytes.Limit() && Scanning(writtenMemoryBytes, bytes, ranges, end, addr, it)
      requires Growing(writtenMemoryBytes, bytes, addr, chunk, result)
      ensures !atEnd ==> Scanning(writtenMemoryBytes, bytes, ranges, end, addr + 1, it')
      ensures Growing(writtenMemoryBytes, bytes, if atEnd then bytes.Limit() else addr + 1, chunk', result')
    {
      ghost var known := writtenMemoryBytes;
      KnownByRange(known, bytes, ranges, end, addr, it);
      ScanStep(known, bytes, ranges, end, addr, it);
      var oldByte :=
        if ranges[it].start <= addr < ranges[it].limit then Some(writtenMemoryBytes[addr]) else None;
      chunk', result' := PassByte(bytes, addr, oldByte, chunk, result, known);
      it', atEnd := it, false;
      if addr + 1 >= ranges[it].limit {
        it' := it + 1;
        if it' == end {
          chunk', result' := PassTail(bytes, addr + 1, chunk', result', known);
          atEnd := true;
        }
      }
    }

    /** Walks over the bytes and the known ranges at the same time. */
    method ScanKnown(bytes: MemoryBytes, ranges: seq<Range<()>>, first: nat, end: nat) returns (result: seq<MemoryBytes>)
      requires Scanning(writtenMemoryBytes, bytes, ranges, end, bytes.start, first)
      ensures IsFullDelta(writtenMemoryBytes, bytes, result)
    {
      result := [];
      var chunk: Option<MemoryBytes> := None;
      var addr: nat := bytes.start;
      var it: nat := first;
      var atEnd := false;
      while addr < bytes.Limit() && !atEnd
        invariant !atEnd ==> Scanning(writtenMemoryBytes, bytes, ranges, end, addr, it)
        invariant Growing(writtenMemoryBytes, bytes, if atEnd then bytes.Limit() else addr, chunk, result)
        decreases bytes.Limit() - addr
      {
        it, atEnd, chunk, result := ScanByte(bytes, ranges, end, addr, it, chunk, result);
        addr := addr + 1;
      }
      if chunk.Some? {
        result := result + [chunk.value];
      }
    }

    /** The chunks of `bytes` that have to be written. */
    method DeltaMemoryBytes(bytes: MemoryBytes) returns (result: seq<MemoryBytes>)
      requires bytes.Valid()
      ensures IsFullDelta(writtenMemoryBytes, bytes, result)
    {
      var ranges := Runs(KnownAt(writtenMemoryBytes));
      ScanStart(writtenMemoryBytes, bytes, ranges);
      if |ranges| == 0 {
        UnknownDelta(writtenMemoryBytes, bytes);
        return [bytes];
      }
      var found := Find(ranges, bytes.start, bytes.Limit());
      if found.0 == |ranges| {
        UnknownDelta(writtenMemoryBytes, bytes);
        return [bytes];
      }
      result := ScanKnown(bytes, ranges, found.0, found.1);
    }

    /** The deltas of several chunks, one after the other. */
    method DeltaMemoryBytesList(list: seq<MemoryBytes>) returns (result: seq<MemoryBytes>)
      requires DisjointChunks(list) && forall i | 0 <= i < |list| :: list[i].Valid()
      ensures IsListDelta(writtenMemoryBytes, list, result)
    {
      result := [];
      for i := 0 to |list|
        invariant IsListDelta(writtenMemoryBytes, list[..i], result)
      {
        var more := DeltaMemoryBytes(list[i]);
        NextListDelta(writtenMemoryBytes, list, i, result, more);
        result := result + more;
      }
      assert list[..|list|] == list;
    }
  }

  /** Writing the delta of disjoint chunks has the same effect on the state as writing the chunks. */
  method WriteDelta(state: MemoryState, list: seq<MemoryBytes>)
    requires state.Valid() && DisjointChunks(list) && (forall i | 0 <= i < |list| :: list[i].Valid())
    requires BytesWithin(list, state.mapped.rep)
    modifies state
    ensures state.Valid() && state.mapped.rep == old(state.mapped.rep)
    ensures state.writtenMemorySet == old(state.writtenMemorySet) + Covered(list)
    ensures state.writtenMemoryBytes == WrittenAll(old(state.writtenMemoryBytes), list)
  {
    var chunks := state.DeltaMemoryBytesList(list);
    ListDeltaRefinesWrite(state.writtenMemoryBytes, list, chunks);
    ListDeltaRefinesWrittenSet(state.writtenMemorySet, state.writtenMemoryBytes, list, chunks);
    ListDeltaWithin(state.writtenMemoryBytes, list, chunks, state.mapped.rep);
    state.SetMemoryBytesList(chunks);
  }

  /** The delta stays within the memory of the chunks. */
  lemma ListDeltaWithin(known: ByteMap, list: seq<MemoryBytes>, chunks: seq<MemoryBytes>, m: PermsMap)
    requires DisjointChunks(list) && IsListDelta(known, list, chunks) && BytesWithin(list, m)
    ensures BytesWithin(chunks, m)
  {
    ListDeltaCovers(known, list, chunks);
    forall i, a: nat | 0 <= i < |chunks| && chunks[i].Has(a)
      ensures a in m
    {
      CoveredIsInSome(chunks, a);
      CoveredIsInSome(list, a);
      assert InSome(chunks, a);
    }
  }

  lemma {:induction false} ListDeltaCovers(known: ByteMap, list: seq<MemoryBytes>, chunks: seq<MemoryBytes>)
    requires IsListDelta(known, list, chunks)
    ensures Covered(chunks) <= Covered(list)
    decreases |list|
  {
    if list != [] {
      var front, last := list[..|list| - 1], list[|list| - 1];
      var k :| 0 <= k <= |chunks| && SplitsAt(known, list, chunks, k);
      ListDeltaCovers(known, front, chunks[..k]);
      SlicesCovered(last, chunks[k..]);
      CoveredInParts(chunks[..k], chunks[k..]);
      SplitChunks(chunks, k);
    }
  }

  lemma {:induction false} SlicesCovered(b: MemoryBytes, chunks: seq<MemoryBytes>)
    requires AllSlices(b, chunks)
    ensures Covered(chunks) <= Addresses(b.start, b.Limit())
    decreases |chunks|
  {
    if chunks != [] {
      var last := chunks[|chunks| - 1];
      assert SliceOf(b, last);
      SlicesCovered(b, chunks[..|chunks| - 1]);
    }
  }

  /** Right after the initial state was set, nothing is left to do for the same snapshot. */
  method InitialStateNeedsNothing(state: MemoryState, s: SnapshotMemory, zeroing: bool)
    returns (cmds: seq<Cmd>, chunks: seq<MemoryBytes>)
    requires state.Valid() && WellFormedMemory(s)
    modifies state, state.mapped
    ensures cmds == [] && chunks == []
  {
    ghost var before, known := state.mapped.rep, state.writtenMemoryBytes;
    state.SetInitialState(s, zeroing);
    cmds := state.DeltaMemoryMappings(s, NONE);
    InitialAchieved(before, s, cmds);
    chunks := state.DeltaMemoryBytesList(s.bytes);
    ghost var base := if zeroing then Zeroed(known, s.mapped.Keys - before.Keys) else known;
    forall i | 0 <= i < |s.bytes|
      ensures Written(state.writtenMemoryBytes, s.bytes[i]) == state.writtenMemoryBytes
    {
      WrittenIsKnown(base, s.bytes, i);
    }
    EmptyListDelta(state.writtenMemoryBytes, s.bytes, chunks);
  }
}
