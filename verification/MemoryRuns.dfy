/** Runs of mutators of the memory state, in any order that respects what each one demands. */
module MemoryRuns {
  import opened MemoryPerms
  import opened RangeMaps
  import opened MappedMemoryMaps
  import opened MemoryTypes
  import opened MappingCommands
  import opened SnapshotMemories
  import opened DeltaMappings
  import opened MemoryStates

  datatype Mutator =
    | AddNew(mapping: MemoryMapping)
    | SetMapping(mapping: MemoryMapping)
    | SetMappingEmptyPermsOk(mapping: MemoryMapping)
    | Remove(start: nat, limit: nat)
    | RemoveNotIn(snapshot: SnapshotMemory)
    | ClearPermsNotIn(snapshot: SnapshotMemory)
    | SetBytes(bytes: MemoryBytes)
    | Forget(start: nat, limit: nat)
    | Zero(mapping: MemoryMapping)
    | SetInitial(snapshot: SnapshotMemory, zeroing: bool)

  /** What a mutator demands of mapped memory and of its arguments. */
  ghost predicate Allowed(m: PermsMap, x: Mutator) {
    match x
    case AddNew(y) => y.Valid() && !y.perms.IsEmpty() && !OverlapsRange(m, y.start, y.limit)
    case SetMapping(y) => y.Valid() && !y.perms.IsEmpty()
    case SetMappingEmptyPermsOk(y) => y.Valid()
    case Remove(start, limit) => start < limit
    case RemoveNotIn(_) => true
    case ClearPermsNotIn(_) => true
    case SetBytes(b) => b.Valid() && ContainsRange(m, b.start, b.Limit())
    case Forget(_, _) => true
    case Zero(y) => y.Valid() && !y.perms.IsEmpty() && ContainsRange(m, y.start, y.limit)
    case SetInitial(s, _) => WellFormedMemory(s)
  }

  /** Mapped memory after a mutator. */
  function MappedAfter(m: PermsMap, x: Mutator): PermsMap {
    match x
    case AddNew(y) => Assigned(m, y.start, y.limit, y.perms.Plus(MAPPED))
    case SetMapping(y) => Assigned(m, y.start, y.limit, y.perms.Plus(MAPPED))
    case SetMappingEmptyPermsOk(y) => Assigned(m, y.start, y.limit, y.perms.Plus(MAPPED))
    case Remove(start, limit) => m - Addresses(start, limit)
    case RemoveNotIn(s) => map a | a in m && a in s.mapped :: m[a]
    case ClearPermsNotIn(s) => ClearedAt(m, m.Keys - s.mapped.Keys)
    case SetBytes(_) => m
    case Forget(_, _) => m
    case Zero(_) => m
    case SetInitial(s, _) => InitialMapped(m, s)
  }

  ghost predicate AllowedRun(m: PermsMap, run: seq<Mutator>)
    decreases |run|
  {
    run == [] || (Allowed(m, run[0]) && AllowedRun(MappedAfter(m, run[0]), run[1..]))
  }

  method Perform(state: MemoryState, x: Mutator)
    requires state.Valid() && Allowed(state.mapped.rep, x)
    modifies state, state.mapped
    ensures state.Valid()
    ensures state.mapped.rep == MappedAfter(old(state.mapped.rep), x)
    ensures old(state.NothingForgotten()) && !x.Forget? ==> state.NothingForgotten()
  {
    match x
    case AddNew(y) => state.AddNewMemoryMapping(y);
    case SetMapping(y) => state.SetMemoryMapping(y);
    case SetMappingEmptyPermsOk(y) => state.SetMemoryMappingEmptyPermsOk(y);
    case Remove(start, limit) => state.RemoveMemoryMapping(start, limit);
    case RemoveNotIn(s) => state.RemoveMemoryMappingsNotIn(s);
    case ClearPermsNotIn(s) => state.ClearMemoryMappingsPermsNotIn(s);
    case SetBytes(b) => state.SetMemoryBytes(b);
    case Forget(start, limit) => state.ForgetMemoryBytes(start, limit);
    case Zero(y) => state.ZeroMappedMemoryBytes(y);
    case SetInitial(s, zeroing) => state.SetInitialState(s, zeroing);
  }

  /**
    Along every run the known bytes stay within the written ones, those within mapped memory,
    and every entry keeps its mark; without forgetting, known and written are the same.
   */
  method PerformRun(state: MemoryState, run: seq<Mutator>)
    requires state.Valid() && AllowedRun(state.mapped.rep, run)
    modifies state, state.mapped
    ensures state.Valid()
    ensures old(state.NothingForgotten()) && (forall i | 0 <= i < |run| :: !run[i].Forget?) ==> state.NothingForgotten()
  {
    for i := 0 to |run|
      invariant state.Valid()
      invariant AllowedRun(state.mapped.rep, run[i..])
      invariant old(state.NothingForgotten()) && (forall j | 0 <= j < i :: !run[j].Forget?) ==> state.NothingForgotten()
    {
      assert run[i..][0] == run[i] && run[i..][1..] == run[i + 1..];
      Perform(state, run[i]);
    }
  }

  /** Setting a mapping through its delta is setting it. */
  lemma MappingDeltaEffect(m: PermsMap, mapping: MemoryMapping, added: Perms, cmds: seq<Cmd>)
    requires Achieves(m, MappingTargets(mapping.start, mapping.limit, mapping.perms.Plus(added)), cmds)
    ensures AllApplicable(m, cmds)
    ensures ExecuteAll(m, cmds) == Assigned(m, mapping.start, mapping.limit, mapping.perms.Plus(added).Plus(MAPPED))
  {
    AchievesEffect(m, MappingTargets(mapping.start, mapping.limit, mapping.perms.Plus(added)), cmds);
  }

  /** The exact delta with unmapping leaves what adding the snapshot's mappings to an empty state would. */
  lemma ExactDeltaEffect(m: PermsMap, s: SnapshotMemory, added: Perms, mode: ExactnessMode, cmds: seq<Cmd>)
    requires Achieves(m, PositiveTargets(s.mapped, added) + UnusedTargets(m, s.mapped, mode), cmds)
    ensures AllApplicable(m, cmds)
    ensures mode.UnmapUnused? ==>
      ExecuteAll(m, cmds) == map a | a in s.mapped :: s.mapped[a].Plus(added).Plus(MAPPED)
    ensures mode.ProtectUnused? ==>
      ExecuteAll(m, cmds) == map a | a in m.Keys + s.mapped.Keys ::
        if a in s.mapped then s.mapped[a].Plus(added).Plus(MAPPED) else MAPPED
  {
    AchievesEffect(m, PositiveTargets(s.mapped, added) + UnusedTargets(m, s.mapped, mode), cmds);
    ExactUnmapEffect(m, s.mapped, added);
    ExactProtectEffect(m, s.mapped, added);
  }

  /**
    The delta for a snapshot, negative mappings included, can be executed and reaches its
    targets; without added permissions it leaves the initial mapped memory of the snapshot if
    and only if every range of forbidden permissions is uniform.
   */
  lemma SnapshotDeltaEffect(m: PermsMap, s: SnapshotMemory, added: Perms, cmds: seq<Cmd>)
    requires AllMapped(m) && WellFormedMemory(s) && Achieves(m, DeltaTargets(m, s, added), cmds)
    ensures AllApplicable(m, cmds)
    ensures ExecuteAll(m, cmds) == Reached(m, DeltaTargets(m, s, added))
    ensures added == NONE ==> (ExecuteAll(m, cmds) == InitialMapped(m, s) <==> ForbiddenUniform(m, s))
  {
    AchievesEffect(m, DeltaTargets(m, s, added), cmds);
    DeltaIsInitial(m, s);
  }
}
