/**
  The targets of the mapping deltas, and how they relate to setting the initial state of a
  snapshot.
 */
module DeltaMappings {
  import opened Wrappers
  import opened MemoryPerms
  import opened RangeMaps
  import opened MappedMemoryMaps
  import opened MemoryTypes
  import opened MappingCommands
  import opened SnapshotMemories

  // ----- invariants of mapped memory -----

  /** Every entry carries the mark for being mapped. */
  ghost predicate AllMapped(m: PermsMap) {
    forall a | a in m :: m[a].mapped
  }

  ghost predicate NoneMarked(m: PermsMap) {
    forall a | a in m :: !m[a].mapped
  }

  lemma AgreedUnmarked(list: seq<MemoryMapping>, m: PermsMap)
    requires ListMapAgree(list, m)
    ensures NoneMarked(m)
    ensures forall a | a in m :: !m[a].IsEmpty()
  {
    forall a | a in m
      ensures !m[a].mapped && !m[a].IsEmpty()
    {
      var i := AgreedMapping(list, m, a);
    }
  }

  // ----- targets -----

  /** Setting one mapping. */
  function MappingTargets(start: nat, limit: nat, perms: Perms): Targets {
    map a | a in Addresses(start, limit) :: Some(perms.Plus(MAPPED))
  }

  /** Setting some mappings with added permissions. */
  function PositiveTargets(mapped: PermsMap, added: Perms): Targets {
    map a | a in mapped :: Some(mapped[a].Plus(added).Plus(MAPPED))
  }

  /** The forbidden permissions that mapped addresses outside the positive mappings have. */
  function Forbidden(m: PermsMap, s: SnapshotMemory): PermsMap {
    Intersection(m, Excluding(s.negative, s.mapped))
  }

  /** What one range of forbidden permissions is re-protected to: what all its addresses have, without those. */
  function Reprotected(m: PermsMap, r: Range<Perms>): Perms
    requires r.start <= r.limit
  {
    JoinOver(m, r.start, r.limit, And).Minus(r.value).Minus(MAPPED)
  }

  ghost function NegativeTargets(m: PermsMap, forbidden: PermsMap): Targets {
    map a | a in forbidden :: Some(Reprotected(m, RunAt(forbidden, a)).Plus(MAPPED))
  }

  /** Memory outside the snapshot is to be unmapped. */
  function UnmapTargets(m: PermsMap, mapped: PermsMap): Targets {
    map a | a in m && a !in mapped :: None
  }

  /** Memory outside the snapshot is to keep no permission. */
  function ProtectTargets(m: PermsMap, mapped: PermsMap): Targets {
    map a | a in m && a !in mapped :: Some(MAPPED)
  }

  // ----- one mapping -----

  /** The command for one range of the difference between a mapping and mapped memory. */
  function DifferenceCmd(mapping: MemoryMapping, r: Range<Perms>): Cmd {
    Cmd(MemoryMapping(r.start, r.limit, mapping.perms),
        if r.value == mapping.perms.Plus(MAPPED) then Map else Protect)
  }

  /** A difference is the whole of the permissions exactly where nothing was mapped. */
  lemma DifferenceServes(m: PermsMap, mapping: MemoryMapping, i: nat)
    requires mapping.Valid() && AllMapped(m)
    requires var d := Difference(mapping.start, mapping.limit, mapping.perms.Plus(MAPPED), m); i < |Runs(d)|
    ensures var d := Difference(mapping.start, mapping.limit, mapping.perms.Plus(MAPPED), m);
      Serves(m, MappingTargets(mapping.start, mapping.limit, mapping.perms), DifferenceCmd(mapping, Runs(d)[i]))
  {
    var d := Difference(mapping.start, mapping.limit, mapping.perms.Plus(MAPPED), m);
    RunsAreIteration(d);
    var r := Runs(d)[i];
    var c := DifferenceCmd(mapping, r);
    forall a | c.Has(a)
      ensures a in Addresses(mapping.start, mapping.limit)
      ensures (a in m <==> !c.action.Map?) && At(m, a) != Some(mapping.perms.Plus(MAPPED))
    {
      assert r.Has(a);
      assert d[a] == r.value;
    }
  }

  /** Commands for the ranges of a map, one each, are disjoint and mention just its addresses. */
  lemma RunCommands(runs: seq<Range<Perms>>, cmds: seq<Cmd>)
    requires Ordered(runs) && |cmds| == |runs|
    requires forall i | 0 <= i < |cmds| :: cmds[i].mapping.start == runs[i].start && cmds[i].mapping.limit == runs[i].limit
    ensures Disjoint(cmds)
    ensures forall a :: Mentions(cmds, a) <==> Covers(runs, a)
  {}

  /** The commands for the ranges of the difference set the mapping. */
  lemma DifferenceAchieves(m: PermsMap, mapping: MemoryMapping, cmds: seq<Cmd>)
    requires mapping.Valid() && AllMapped(m)
    requires var d := Difference(mapping.start, mapping.limit, mapping.perms.Plus(MAPPED), m);
      && |cmds| == |Runs(d)|
      && forall i | 0 <= i < |cmds| :: cmds[i] == DifferenceCmd(mapping, Runs(d)[i])
    ensures Achieves(m, MappingTargets(mapping.start, mapping.limit, mapping.perms), cmds)
  {
    var d := Difference(mapping.start, mapping.limit, mapping.perms.Plus(MAPPED), m);
    var t := MappingTargets(mapping.start, mapping.limit, mapping.perms);
    var runs := Runs(d);
    RunsAreIteration(d);
    forall i | 0 <= i < |cmds|
      ensures Serves(m, t, cmds[i])
    {
      DifferenceServes(m, mapping, i);
    }
    RunCommands(runs, cmds);
    forall a | a in t && At(m, a) != t[a]
      ensures Mentions(cmds, a)
    {
      assert a in d;
      assert Covers(runs, a);
    }
  }

  /** When nothing is mapped, mapping everything is right. */
  lemma MapAll(m: PermsMap, mapping: MemoryMapping)
    requires mapping.Valid() && m == map[]
    ensures Achieves(m, MappingTargets(mapping.start, mapping.limit, mapping.perms), [Cmd(mapping, Map)])
  {
    var cmds := [Cmd(mapping, Map)];
    forall a | a in MappingTargets(mapping.start, mapping.limit, mapping.perms)
      ensures Mentions(cmds, a)
    {
      assert cmds[0].Has(a);
    }
  }

  // ----- all mappings of a list -----

  function ListTargets(list: seq<MemoryMapping>, added: Perms): Targets {
    if list == [] then map[]
    else
      var last := list[|list| - 1];
      ListTargets(list[..|list| - 1], added) + MappingTargets(last.start, last.limit, last.perms.Plus(added))
  }

  lemma {:induction false} ListTargetsHas(list: seq<MemoryMapping>, added: Perms, a: nat)
    ensures a in ListTargets(list, added) <==> SomeMappingHas(list, a)
    decreases |list|
  {
    if list != [] {
      var front := list[..|list| - 1];
      ListTargetsHas(front, added, a);
      if SomeMappingHas(front, a) {
        var i :| 0 <= i < |front| && front[i].Has(a);
        assert list[i].Has(a);
      }
      if SomeMappingHas(list, a) {
        var i :| 0 <= i < |list| && list[i].Has(a);
        assert i < |front| ==> front[i].Has(a);
      }
    }
  }

  /** The next mapping of a disjoint list has its targets to itself. */
  lemma NextTargetsApart(list: seq<MemoryMapping>, i: nat, added: Perms)
    requires MappingsDisjoint(list) && i < |list|
    ensures ListTargets(list[..i], added).Keys !! MappingTargets(list[i].start, list[i].limit, list[i].perms.Plus(added)).Keys
    ensures ListTargets(list[..i + 1], added) ==
      ListTargets(list[..i], added) + MappingTargets(list[i].start, list[i].limit, list[i].perms.Plus(added))
  {
    var before := list[..i];
    assert list[..i + 1][..i] == before;
    forall a | a in ListTargets(before, added)
      ensures !list[i].Has(a)
    {
      ListTargetsHas(before, added, a);
      var j :| 0 <= j < i && before[j].Has(a);
      assert Apart(list[j], list[i]);
    }
  }

  lemma {:induction false} ListTargetsAt(list: seq<MemoryMapping>, m: PermsMap, added: Perms, n: nat, a: nat)
    requires ListMapAgree(list, m) && n <= |list|
    requires a in ListTargets(list[..n], added)
    ensures a in m && ListTargets(list[..n], added)[a] == Some(m[a].Plus(added).Plus(MAPPED))
    decreases n
  {
    assert list[..n][..n - 1] == list[..n - 1];
    if !list[n - 1].Has(a) {
      ListTargetsAt(list, m, added, n - 1, a);
    }
  }

  /** The list and the map of a snapshot give the same targets. */
  lemma ListTargetsAgree(list: seq<MemoryMapping>, m: PermsMap, added: Perms)
    requires ListMapAgree(list, m)
    ensures ListTargets(list, added) == PositiveTargets(m, added)
  {
    assert list[..|list|] == list;
    forall a
      ensures a in ListTargets(list, added) <==> a in PositiveTargets(m, added)
      ensures a in m ==> ListTargets(list, added)[a] == PositiveTargets(m, added)[a]
    {
      ListTargetsHas(list, added, a);
      if a in ListTargets(list, added) {
        ListTargetsAt(list, m, added, |list|, a);
      }
      if a in m {
        assert SomeMappingHas(list, a);
      }
    }
  }

  // ----- negative mappings -----

  /** The command that takes the forbidden permissions of one range away. */
  function ReprotectCmd(m: PermsMap, r: Range<Perms>): Cmd
    requires r.start <= r.limit
  {
    Cmd(MemoryMapping(r.start, r.limit, Reprotected(m, r)), Protect)
  }

  lemma ForbiddenAt(m: PermsMap, s: SnapshotMemory, a: nat)
    requires NoneMarked(s.negative)
    ensures a in Forbidden(m, s) <==> a in m && a in s.negative && a !in s.mapped && m[a].HasSomeOf(s.negative[a])
    ensures a in Forbidden(m, s) ==>
      && Forbidden(m, s)[a] == m[a].Intersect(s.negative[a])
      && !Forbidden(m, s)[a].mapped
      && !Forbidden(m, s)[a].IsEmpty()
  {}

  /** What a re-protected range keeps at one of its addresses. */
  lemma ReprotectedWithin(m: PermsMap, r: Range<Perms>, a: nat)
    requires r.Has(a) && AllMapped(m) && a in m && !r.value.mapped
    ensures var p := Reprotected(m, r);
      !p.mapped && m[a].Has(p.Plus(MAPPED)) && !p.HasSomeOf(r.value)
  {
    JoinOverIsJoin(m, r.start, r.limit, And);
    var common := JoinOver(m, r.start, r.limit, And);
    assert common.Has(common);
    assert PermsAt(m, a).Has(common);
  }

  lemma ReprotectServes(m: PermsMap, s: SnapshotMemory, i: nat)
    requires AllMapped(m) && NoneMarked(s.negative) && i < |Runs(Forbidden(m, s))|
    ensures Runs(Forbidden(m, s))[i].start <= Runs(Forbidden(m, s))[i].limit
    ensures Serves(m, NegativeTargets(m, Forbidden(m, s)), ReprotectCmd(m, Runs(Forbidden(m, s))[i]))
  {
    var forbidden := Forbidden(m, s);
    RunsAreIteration(forbidden);
    var r := Runs(forbidden)[i];
    var c := ReprotectCmd(m, r);
    var t := NegativeTargets(m, forbidden);
    forall a | c.Has(a)
      ensures a in t && c.Effect() == t[a] && a in m && At(m, a) != t[a]
    {
      assert r.Has(a);
      RunAtIndex(forbidden, i, a);
      ForbiddenAt(m, s, a);
      ReprotectedWithin(m, r, a);
    }
  }

  /** The commands for the ranges of forbidden permissions reach the negative targets. */
  lemma ReprotectAchieves(m: PermsMap, s: SnapshotMemory, cmds: seq<Cmd>)
    requires AllMapped(m) && NoneMarked(s.negative)
    requires Ordered(Runs(Forbidden(m, s)))
    requires |cmds| == |Runs(Forbidden(m, s))|
    requires forall i | 0 <= i < |cmds| :: cmds[i] == ReprotectCmd(m, Runs(Forbidden(m, s))[i])
    ensures Achieves(m, NegativeTargets(m, Forbidden(m, s)), cmds)
  {
    var forbidden := Forbidden(m, s);
    var t := NegativeTargets(m, forbidden);
    var runs := Runs(forbidden);
    RunsAreIteration(forbidden);
    forall i | 0 <= i < |cmds|
      ensures Serves(m, t, cmds[i])
    {
      ReprotectServes(m, s, i);
    }
    RunCommands(runs, cmds);
    forall a | a in t
      ensures Mentions(cmds, a)
    {
      assert Covers(runs, a);
    }
  }

  // ----- what the deltas do -----

  /** All that a delta for a snapshot is to reach. */
  ghost function DeltaTargets(m: PermsMap, s: SnapshotMemory, added: Perms): Targets {
    PositiveTargets(s.mapped, added) + NegativeTargets(m, Forbidden(m, s))
  }

  /**
    After the delta the snapshot's memory has its permissions with the added ones.  Elsewhere
    nothing is unmapped and nothing gains a permission, no forbidden permission is left, and
    what has no forbidden permission is untouched.
   */
  lemma DeltaEffect(m: PermsMap, s: SnapshotMemory, added: Perms, a: nat)
    requires AllMapped(m) && WellFormedMemory(s)
    ensures var after := Reached(m, DeltaTargets(m, s, added));
      && (a in s.mapped ==> At(after, a) == Some(s.mapped[a].Plus(added).Plus(MAPPED)))
      && (a !in s.mapped ==>
            && (a in after <==> a in m)
            && (a in m ==> after[a].mapped && m[a].Has(after[a]))
            && (a in m && a in s.negative ==> !after[a].HasSomeOf(s.negative[a]))
            && (a in m && (a in s.negative ==> !m[a].HasSomeOf(s.negative[a])) ==> after[a] == m[a]))
  {
    AgreedUnmarked(s.negativeMappings, s.negative);
    ForbiddenAt(m, s, a);
    if a in Forbidden(m, s) {
      ForbiddenTarget(m, s, a);
    }
  }

  /** The target of an address with forbidden permissions. */
  lemma ForbiddenTarget(m: PermsMap, s: SnapshotMemory, a: nat)
    requires AllMapped(m) && NoneMarked(s.negative) && a in Forbidden(m, s)
    ensures NegativeTargets(m, Forbidden(m, s))[a].Some?
    ensures var p := NegativeTargets(m, Forbidden(m, s))[a].value;
      a in m && a in s.negative && p.mapped && m[a].Has(p) && !p.HasSomeOf(s.negative[a])
  {
    ForbiddenAt(m, s, a);
    var r := RunAt(Forbidden(m, s), a);
    RunsAreIteration(Forbidden(m, s));
    ReprotectedWithin(m, r, a);
    RunValue(Forbidden(m, s), a);
  }

  lemma RunValue(m: PermsMap, a: nat)
    requires a in m
    ensures RunAt(m, a).value == m[a]
  {
    var r := RunAt(m, a);
    var i :| 0 <= i < |Runs(m)| && Runs(m)[i] == r;
    RunAtIndex(m, i, a);
  }

  /** Mapped memory after setting the initial state of a snapshot. */
  function InitialMapped(m: PermsMap, s: SnapshotMemory): PermsMap {
    map a | a in m.Keys + s.mapped.Keys ::
      if a in s.mapped then s.mapped[a].Plus(MAPPED)
      else if a in s.negative then m[a].Minus(s.negative[a])
      else m[a]
  }

  /** All addresses of the range have the same permissions. */
  ghost predicate Uniform(m: PermsMap, r: Range<Perms>) {
    forall a, b | r.Has(a) && r.Has(b) :: PermsAt(m, a) == PermsAt(m, b)
  }

  /** On a range of uniform permissions those are what is common; otherwise some address loses some. */
  lemma CommonIsUniform(m: PermsMap, r: Range<Perms>)
    requires r.start < r.limit
    ensures Uniform(m, r) <==> forall a | r.Has(a) :: JoinOver(m, r.start, r.limit, And) == PermsAt(m, a)
  {
    JoinOverIsJoin(m, r.start, r.limit, And);
    var common := JoinOver(m, r.start, r.limit, And);
    assert r.Has(r.start);
    if Uniform(m, r) {
      assert common.Has(PermsAt(m, r.start));
      assert common.Has(common);
      forall a | r.Has(a)
        ensures common == PermsAt(m, a)
      {
        assert PermsAt(m, a).Has(common);
      }
    }
  }

  /** At an address that has all of the forbidden permissions, both ways leave the same or not. */
  lemma SameAfterMinus(common: Perms, p: Perms, forbidden: Perms)
    requires p.Has(forbidden) && p.mapped && !forbidden.mapped && common.Has(forbidden) && p.Has(common)
    ensures common.Minus(forbidden).Minus(MAPPED).Plus(MAPPED) == p.Minus(forbidden) <==> common == p || common == p.Minus(MAPPED)
  {}

  /** One address of a range of forbidden permissions. */
  lemma ForbiddenRangeAt(m: PermsMap, s: SnapshotMemory, a: nat, b: nat)
    requires NoneMarked(s.negative) && a in Forbidden(m, s) && RunAt(Forbidden(m, s), a).Has(b)
    ensures var r := RunAt(Forbidden(m, s), a);
      b in Forbidden(m, s) && b in m && m[b].Has(r.value) && r.value == Forbidden(m, s)[a] && !r.value.mapped
  {
    var forbidden := Forbidden(m, s);
    var r := RunAt(forbidden, a);
    var i :| 0 <= i < |Runs(forbidden)| && Runs(forbidden)[i] == r;
    RunAtIndex(forbidden, i, a);
    RunAtIndex(forbidden, i, b);
    ForbiddenAt(m, s, b);
  }

  lemma ForbiddenRange(m: PermsMap, s: SnapshotMemory, a: nat)
    requires AllMapped(m) && NoneMarked(s.negative) && a in Forbidden(m, s)
    ensures var r := RunAt(Forbidden(m, s), a);
      && r.start < r.limit
      && (forall b | r.Has(b) :: b in Forbidden(m, s) && b in m && m[b].Has(r.value) && PermsAt(m, b) == m[b])
      && r.value == Forbidden(m, s)[a]
      && r.Has(a)
      && !r.value.mapped
  {
    var r := RunAt(Forbidden(m, s), a);
    forall b | r.Has(b)
      ensures b in Forbidden(m, s) && b in m && m[b].Has(r.value)
    {
      ForbiddenRangeAt(m, s, a, b);
    }
    ForbiddenRangeAt(m, s, a, a);
  }

  /** What is common to a range of forbidden permissions includes them. */
  lemma ForbiddenCommon(m: PermsMap, s: SnapshotMemory, a: nat)
    requires AllMapped(m) && NoneMarked(s.negative) && a in Forbidden(m, s)
    ensures var r := RunAt(Forbidden(m, s), a);
      && r.start < r.limit && a in m
      && JoinOver(m, r.start, r.limit, And).Has(r.value.Plus(MAPPED))
      && m[a].Has(JoinOver(m, r.start, r.limit, And))
  {
    ForbiddenRange(m, s, a);
    var r := RunAt(Forbidden(m, s), a);
    var common := JoinOver(m, r.start, r.limit, And);
    JoinOverIsJoin(m, r.start, r.limit, And);
    assert forall b | r.start <= b < r.limit :: r.Has(b) && PermsAt(m, b).Has(r.value.Plus(MAPPED));
    assert common.Has(common);
    assert PermsAt(m, a).Has(common);
  }

  /** Every range of forbidden permissions has uniform permissions in mapped memory. */
  ghost predicate ForbiddenUniform(m: PermsMap, s: SnapshotMemory) {
    forall a | a in Forbidden(m, s) :: Uniform(m, RunAt(Forbidden(m, s), a))
  }

  /** Where the permissions common to a range are those of the address, the delta does what setting the state does. */
  lemma SameAtForbidden(m: PermsMap, s: SnapshotMemory, a: nat)
    requires AllMapped(m) && WellFormedMemory(s) && a in Forbidden(m, s)
    ensures var r := RunAt(Forbidden(m, s), a);
      && r.start < r.limit && a in m
      && (At(Reached(m, DeltaTargets(m, s, NONE)), a) == At(InitialMapped(m, s), a) <==>
          JoinOver(m, r.start, r.limit, And) == m[a])
  {
    AgreedUnmarked(s.negativeMappings, s.negative);
    var r := RunAt(Forbidden(m, s), a);
    ForbiddenRange(m, s, a);
    ForbiddenCommon(m, s, a);
    ForbiddenAt(m, s, a);
    var common := JoinOver(m, r.start, r.limit, And);
    SameAfterMinus(common, m[a], r.value);
    assert m[a].Minus(s.negative[a]) == m[a].Minus(r.value);
    assert At(Reached(m, DeltaTargets(m, s, NONE)), a) == Some(Reprotected(m, r).Plus(MAPPED));
  }

  lemma SameElsewhere(m: PermsMap, s: SnapshotMemory, a: nat)
    requires AllMapped(m) && WellFormedMemory(s) && a !in Forbidden(m, s)
    ensures At(Reached(m, DeltaTargets(m, s, NONE)), a) == At(InitialMapped(m, s), a)
  {}

  /**
    The delta without added permissions leaves mapped memory as setting the initial state
    does, if and only if every range of forbidden permissions is uniform in mapped memory:
    over a merged range only the permissions common to all of it are kept.
   */
  lemma DeltaIsInitial(m: PermsMap, s: SnapshotMemory)
    requires AllMapped(m) && WellFormedMemory(s)
    ensures Reached(m, DeltaTargets(m, s, NONE)) == InitialMapped(m, s) <==> ForbiddenUniform(m, s)
  {
    var forbidden := Forbidden(m, s);
    AgreedUnmarked(s.negativeMappings, s.negative);
    if Reached(m, DeltaTargets(m, s, NONE)) == InitialMapped(m, s) {
      forall a | a in forbidden
        ensures Uniform(m, RunAt(forbidden, a))
      {
        ForbiddenRange(m, s, a);
        var r := RunAt(forbidden, a);
        forall b | r.Has(b)
          ensures JoinOver(m, r.start, r.limit, And) == PermsAt(m, b)
        {
          SameRange(forbidden, a, b);
          SameAtForbidden(m, s, b);
        }
        CommonIsUniform(m, r);
      }
    }
    if ForbiddenUniform(m, s) {
      forall a
        ensures At(Reached(m, DeltaTargets(m, s, NONE)), a) == At(InitialMapped(m, s), a)
      {
        if a in forbidden {
          ForbiddenRange(m, s, a);
          CommonIsUniform(m, RunAt(forbidden, a));
          SameAtForbidden(m, s, a);
        } else {
          SameElsewhere(m, s, a);
        }
      }
      SameEverywhere(Reached(m, DeltaTargets(m, s, NONE)), InitialMapped(m, s));
    }
  }

  lemma SameRange(m: PermsMap, a: nat, b: nat)
    requires a in m && RunAt(m, a).Has(b)
    ensures b in m && RunAt(m, b) == RunAt(m, a)
  {
    var i :| 0 <= i < |Runs(m)| && Runs(m)[i] == RunAt(m, a);
    RunAtIndex(m, i, b);
  }

  const READ := Perms(true, false, false, false)
  const WRITE := Perms(false, true, false, false)
  const EXECUTE := Perms(false, false, true, false)

  /** Two pages next to each other. */
  const FIRST_PAGE: nat := 0x1_0000
  const SECOND_PAGE: nat := 0x1_1000
  const PAGES_END: nat := 0x1_2000

  /** Both pages can be read and written, and the second can be executed too. */
  const WRITABLE_PAGES: PermsMap :=
    map a | a in Addresses(FIRST_PAGE, PAGES_END) ::
      if a < SECOND_PAGE then READ.Plus(WRITE).Plus(MAPPED) else READ.Plus(WRITE).Plus(EXECUTE).Plus(MAPPED)

  /** A snapshot with two faults, one on each page, that say that it cannot be written. */
  const UNWRITABLE := SnapshotMemory(
    [], map[],
    [MemoryMapping(FIRST_PAGE, SECOND_PAGE, WRITE), MemoryMapping(SECOND_PAGE, PAGES_END, WRITE)],
    map a | a in Addresses(FIRST_PAGE, PAGES_END) :: WRITE,
    [])

  lemma UnwritableWellFormed()
    ensures AllMapped(WRITABLE_PAGES) && WellFormedMemory(UNWRITABLE)
  {
    var list := UNWRITABLE.negativeMappings;
    forall a | a in UNWRITABLE.negative
      ensures SomeMappingHas(list, a)
    {
      assert list[0].Has(a) || list[1].Has(a);
    }
  }

  /** Both pages have the same forbidden permission, so they are one range. */
  lemma UnwritableForbidden(a: nat)
    requires FIRST_PAGE <= a < PAGES_END
    ensures a in Forbidden(WRITABLE_PAGES, UNWRITABLE)
    ensures RunAt(Forbidden(WRITABLE_PAGES, UNWRITABLE), a) == Range(FIRST_PAGE, PAGES_END, WRITE)
  {
    var forbidden := Forbidden(WRITABLE_PAGES, UNWRITABLE);
    assert forbidden == UNWRITABLE.negative;
    var runs := [Range(FIRST_PAGE, PAGES_END, WRITE)];
    forall b | b in forbidden
      ensures Covers(runs, b)
    {
      assert runs[0].Has(b);
    }
    IterationIsUnique(forbidden, runs);
    RunAtIndex(forbidden, 0, a);
  }

  lemma CommonOfPages()
    ensures JoinOver(WRITABLE_PAGES, FIRST_PAGE, PAGES_END, And) == READ.Plus(WRITE).Plus(MAPPED)
  {
    JoinStretch(WRITABLE_PAGES, FIRST_PAGE, FIRST_PAGE, SECOND_PAGE, And, READ.Plus(WRITE).Plus(MAPPED));
    JoinStretch(WRITABLE_PAGES, FIRST_PAGE, SECOND_PAGE, PAGES_END, And, READ.Plus(WRITE).Plus(EXECUTE).Plus(MAPPED));
  }

  /** The condition matters: here the delta takes the permission to execute away, from the whole second page. */
  lemma MergedRangeLosesPermissions(a: nat)
    requires SECOND_PAGE <= a < PAGES_END
    ensures AllMapped(WRITABLE_PAGES) && WellFormedMemory(UNWRITABLE)
    ensures At(InitialMapped(WRITABLE_PAGES, UNWRITABLE), a) == Some(READ.Plus(EXECUTE).Plus(MAPPED))
    ensures At(Reached(WRITABLE_PAGES, DeltaTargets(WRITABLE_PAGES, UNWRITABLE, NONE)), a) == Some(READ.Plus(MAPPED))
  {
    UnwritableWellFormed();
    UnwritableForbidden(a);
    CommonOfPages();
  }

  // ----- exact deltas -----

  /** Unmapping the rest leaves exactly the snapshot's memory. */
  lemma ExactUnmapEffect(m: PermsMap, mapped: PermsMap, added: Perms)
    ensures Reached(m, PositiveTargets(mapped, added) + UnmapTargets(m, mapped))
      == map a | a in mapped :: mapped[a].Plus(added).Plus(MAPPED)
  {}

  /** Protecting the rest leaves it mapped without any permission. */
  lemma ExactProtectEffect(m: PermsMap, mapped: PermsMap, added: Perms)
    ensures Reached(m, PositiveTargets(mapped, added) + ProtectTargets(m, mapped))
      == map a | a in m.Keys + mapped.Keys :: if a in mapped then mapped[a].Plus(added).Plus(MAPPED) else MAPPED
  {}

  /** The same target everywhere. */
  function SameTarget(addresses: set<nat>, p: Option<Perms>): Targets {
    map a | a in addresses :: p
  }

  /** The next range of an ordered list shares no address with the ones before. */
  lemma NextRangeApart<V>(runs: seq<Range<V>>, i: nat)
    requires Ordered(runs) && i < |runs|
    ensures CoveredUpTo(runs, i) !! Addresses(runs[i].start, runs[i].limit)
  {
    forall a | a in CoveredUpTo(runs, i)
      ensures !runs[i].Has(a)
    {
      CoveredHas(runs, i, a);
      var j :| 0 <= j < i && runs[j].Has(a);
      assert runs[j].limit <= runs[i].start;
    }
  }

  lemma OneMoreRange(m: PermsMap, runs: seq<Range<Perms>>, i: nat, p: Option<Perms>, cmds: seq<Cmd>, more: seq<Cmd>)
    requires Ordered(runs) && i < |runs|
    requires Achieves(m, SameTarget(CoveredUpTo(runs, i), p), cmds)
    requires Achieves(m, SameTarget(Addresses(runs[i].start, runs[i].limit), p), more)
    ensures Achieves(m, SameTarget(CoveredUpTo(runs, i + 1), p), cmds + more)
  {
    var covered, next := CoveredUpTo(runs, i), Addresses(runs[i].start, runs[i].limit);
    NextRangeApart(runs, i);
    AchievesBoth(m, SameTarget(covered, p), cmds, SameTarget(next, p), more);
    assert SameTarget(covered, p) + SameTarget(next, p) == SameTarget(CoveredUpTo(runs, i + 1), p);
  }

  /** One command, for a range whose addresses all have to change. */
  lemma OneCommand(m: PermsMap, c: Cmd)
    requires c.mapping.Valid()
    requires forall a {:trigger c.Has(a)} | c.Has(a) :: (a in m <==> !c.action.Map?) && At(m, a) != c.Effect()
    ensures Achieves(m, SameTarget(Addresses(c.mapping.start, c.mapping.limit), c.Effect()), [c])
  {
    var t := SameTarget(Addresses(c.mapping.start, c.mapping.limit), c.Effect());
    var cmds := [c];
    forall a | a in t
      ensures Mentions(cmds, a)
    {
      assert cmds[0].Has(a);
    }
  }

  /** No command, where nothing has to change. */
  lemma NoCommand(m: PermsMap, addresses: set<nat>, p: Option<Perms>)
    requires forall a | a in addresses :: At(m, a) == p
    ensures Achieves(m, SameTarget(addresses, p), [])
  {}
}
