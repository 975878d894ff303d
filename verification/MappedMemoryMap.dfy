/**
  Maps from addresses to permissions.  The operations are those of a range map whose values
  are combined as permissions; each is given pointwise, and the class performs it in place.
 */
module MappedMemoryMaps {
  import opened Wrappers
  import opened MemoryPerms
  import opened RangeMaps

  type PermsMap = map<nat, Perms>

  // ----- the operations, pointwise -----

  function Added(m: PermsMap, start: nat, limit: nat, perms: Perms): PermsMap {
    map a | a in m.Keys + Addresses(start, limit) ::
      if start <= a < limit then (if a in m then m[a].Plus(perms) else perms) else m[a]
  }

  /** Takes permissions away; where nothing remains, not even being mapped, the entry goes too. */
  function Removed(m: PermsMap, start: nat, limit: nat, perms: Perms): PermsMap {
    map a | a in m && !(start <= a < limit && m[a].Minus(perms).IsEmpty()) ::
      if start <= a < limit then m[a].Minus(perms) else m[a]
  }

  function Assigned(m: PermsMap, start: nat, limit: nat, perms: Perms): PermsMap {
    map a | a in m.Keys + Addresses(start, limit) :: if start <= a < limit then perms else m[a]
  }

  /** What is left of `m` outside the addresses of `y`. */
  function Excluding(m: PermsMap, y: PermsMap): (r: PermsMap)
    ensures r.Keys == m.Keys - y.Keys
  {
    map a | a in m && a !in y :: m[a]
  }

  function Intersection(x: PermsMap, y: PermsMap): PermsMap {
    map a | a in x && a in y && x[a].HasSomeOf(y[a]) :: x[a].Intersect(y[a])
  }

  /** The range with `perms`, where `y` differs; this keeps entries with no permissions left. */
  function Difference(start: nat, limit: nat, perms: Perms, y: PermsMap): PermsMap {
    map a | a in Addresses(start, limit) && (a !in y || y[a] != perms) ::
      if a in y then perms.Minus(y[a]) else perms
  }

  function PermsAt(m: PermsMap, a: nat): Perms {
    if a in m then m[a] else NONE
  }

  ghost predicate ContainsRange(m: PermsMap, start: nat, limit: nat) {
    forall a | start <= a < limit :: a in m
  }

  ghost predicate OverlapsRange(m: PermsMap, start: nat, limit: nat) {
    exists a :: start <= a < limit && a in m
  }

  /** Removing everything and then adding leaves exactly the added permissions. */
  lemma RemoveThenAdd(m: PermsMap, start: nat, limit: nat, perms: Perms)
    ensures Added(Removed(m, start, limit, ALL_PLUS_MAPPED), start, limit, perms) == Assigned(m, start, limit, perms)
  {}

  // ----- joining the permissions of a range -----

  /** `r` has exactly the permissions that every address of the range has. */
  ghost predicate IsCommon(m: PermsMap, start: nat, limit: nat, r: Perms) {
    forall q: Perms :: r.Has(q) <==> forall a | start <= a < limit :: PermsAt(m, a).Has(q)
  }

  /** `r` has exactly the permissions that some address of the range has. */
  ghost predicate IsUnion(m: PermsMap, start: nat, limit: nat, r: Perms) {
    forall q: Perms :: r.HasSomeOf(q) <==> exists a :: start <= a < limit && PermsAt(m, a).HasSomeOf(q)
  }

  ghost predicate IsJoin(m: PermsMap, start: nat, limit: nat, mode: JoinMode, r: Perms) {
    match mode
    case And => IsCommon(m, start, limit, r)
    case Or => IsUnion(m, start, limit, r)
  }

  function JoinStart(mode: JoinMode): Perms {
    match mode
    case And => ALL_PLUS_MAPPED
    case Or => NONE
  }

  /** The permissions of the addresses from `start` up to `limit`, joined one by one. */
  function JoinOver(m: PermsMap, start: nat, limit: nat, mode: JoinMode): Perms
    requires start <= limit
    decreases limit
  {
    if start == limit then JoinStart(mode)
    else Join(JoinOver(m, start, limit - 1, mode), PermsAt(m, limit - 1), mode)
  }

  lemma {:induction false} JoinOverIsJoin(m: PermsMap, start: nat, limit: nat, mode: JoinMode)
    requires start <= limit
    ensures IsJoin(m, start, limit, mode, JoinOver(m, start, limit, mode))
    decreases limit
  {
    if start < limit {
      var before := JoinOver(m, start, limit - 1, mode);
      var last := PermsAt(m, limit - 1);
      JoinOverIsJoin(m, start, limit - 1, mode);
      match mode
      case And =>
        forall q: Perms
          ensures before.Intersect(last).Has(q) <==> forall a | start <= a < limit :: PermsAt(m, a).Has(q)
        {
          assert before.Has(q) <==> forall a | start <= a < limit - 1 :: PermsAt(m, a).Has(q);
          assert before.Intersect(last).Has(q) <==> before.Has(q) && last.Has(q);
        }
      case Or =>
        forall q: Perms
          ensures before.Plus(last).HasSomeOf(q) <==> exists a :: start <= a < limit && PermsAt(m, a).HasSomeOf(q)
        {
          assert before.HasSomeOf(q) <==> exists a :: start <= a < limit - 1 && PermsAt(m, a).HasSomeOf(q);
          assert before.Plus(last).HasSomeOf(q) <==> before.HasSomeOf(q) || last.HasSomeOf(q);
        }
    }
  }

  /** A stretch of equal permissions is joined like a single address. */
  lemma {:induction false} JoinStretch(m: PermsMap, start: nat, from: nat, limit: nat, mode: JoinMode, perms: Perms)
    requires start <= from < limit
    requires forall a | from <= a < limit :: PermsAt(m, a) == perms
    ensures JoinOver(m, start, limit, mode) == Join(JoinOver(m, start, from, mode), perms, mode)
    decreases limit
  {
    if from < limit - 1 {
      JoinStretch(m, start, from, limit - 1, mode, perms);
    }
  }

  /** `r` joins the permissions up to `upTo`; once an address was missing, joining all gives nothing. */
  predicate JoinedSoFar(m: PermsMap, start: nat, upTo: nat, mode: JoinMode, r: Perms, covered: bool)
    requires start <= upTo
  {
    if mode.And? && !covered then JoinOver(m, start, upTo, mode) == NONE
    else r == JoinOver(m, start, upTo, mode)
  }

  lemma JoinGap(m: PermsMap, start: nat, prev: nat, from: nat, mode: JoinMode, r: Perms, covered: bool)
    requires start <= prev <= from && JoinedSoFar(m, start, prev, mode, r, covered)
    requires forall a | prev <= a < from :: a !in m
    ensures JoinedSoFar(m, start, from, mode, r, covered && prev == from)
  {
    if prev < from {
      JoinStretch(m, start, prev, from, mode, NONE);
    }
  }

  lemma JoinRange(m: PermsMap, start: nat, from: nat, upTo: nat, mode: JoinMode, r: Perms, covered: bool, perms: Perms)
    requires start <= from < upTo && JoinedSoFar(m, start, from, mode, r, covered)
    requires forall a | from <= a < upTo :: PermsAt(m, a) == perms
    ensures JoinedSoFar(m, start, upTo, mode, Join(r, perms, mode), covered)
  {
    JoinStretch(m, start, from, upTo, mode, perms);
  }

  /** The state of joining after the ranges before `i`; `prev` is where the last of them ends. */
  ghost predicate JoinState(m: PermsMap, ranges: seq<Range<Perms>>, start: nat, limit: nat, mode: JoinMode,
                            i: nat, prev: nat, r: Perms, covered: bool)
    requires i <= |ranges| && start <= limit
  {
    && start <= prev
    && (forall j | 0 <= j < i :: ranges[j].limit <= prev)
    && (i < |ranges| && ranges[i].start < prev ==> prev == start)
    && JoinedSoFar(m, start, if prev < limit then prev else limit, mode, r, covered)
  }

  lemma JoinStep(m: PermsMap, ranges: seq<Range<Perms>>, start: nat, limit: nat, mode: JoinMode,
                 i: nat, prev: nat, r: Perms, covered: bool)
    requires IsIteration(m, ranges) && i < |ranges|
    requires start < limit && ranges[i].start < limit && start < ranges[i].limit
    requires JoinState(m, ranges, start, limit, mode, i, prev, r, covered)
    ensures JoinState(m, ranges, start, limit, mode, i + 1, ranges[i].limit,
      Join(r, ranges[i].value, mode), covered && ranges[i].start <= prev)
  {
    var range := ranges[i];
    var from := if range.start > prev then range.start else prev;
    var upTo := if range.limit < limit then range.limit else limit;
    NothingIn(m, ranges, i, prev, range.start);
    JoinGap(m, start, prev, from, mode, r, covered);
    assert forall a | from <= a < upTo :: range.Has(a);
    JoinRange(m, start, from, upTo, mode, r, covered && prev == from, range.value);
  }

  lemma JoinEnd(m: PermsMap, ranges: seq<Range<Perms>>, start: nat, limit: nat, mode: JoinMode,
                i: nat, prev: nat, r: Perms, covered: bool)
    requires IsIteration(m, ranges) && i <= |ranges| && start < limit
    requires i < |ranges| ==> limit <= ranges[i].start
    requires JoinState(m, ranges, start, limit, mode, i, prev, r, covered)
    ensures var all := covered && prev >= limit;
      (if all then r else Join(r, NONE, mode)) == JoinOver(m, start, limit, mode)
  {
    if prev < limit {
      NothingIn(m, ranges, i, prev, limit);
      JoinGap(m, start, prev, limit, mode, r, covered);
    }
  }

  // ----- removing the ranges of another map -----

  /** `m` is `before` without what `y` holds below `upTo`, and perhaps without more of `y`. */
  ghost predicate PartlyExcluded(before: PermsMap, y: PermsMap, m: PermsMap, upTo: nat) {
    && (forall a | a in m :: a in before && m[a] == before[a])
    && (forall a | a in before && a !in y :: a in m)
    && (forall a | a in m && a in y :: a >= upTo)
  }

  /** On the way from `start` to `m`, the ranges of `y` from `first` up to `i` have been removed. */
  ghost predicate RemovingState(before: PermsMap, y: PermsMap, upTo: nat, start: PermsMap, m: PermsMap,
                                ys: seq<Range<Perms>>, first: nat, i: nat)
  {
    && PartlyExcluded(before, y, m, upTo)
    && m.Keys <= start.Keys
    && i <= |ys|
    && (forall j, a | first <= j < i && ys[j].Has(a) :: a !in m)
  }

  lemma RemovingStep(before: PermsMap, y: PermsMap, upTo: nat, start: PermsMap, m: PermsMap,
                     ys: seq<Range<Perms>>, first: nat, i: nat)
    requires RemovingState(before, y, upTo, start, m, ys, first, i) && first <= i < |ys|
    requires IsIteration(y, ys)
    ensures RemovingState(before, y, upTo, start, Removed(m, ys[i].start, ys[i].limit, ALL_PLUS_MAPPED), ys, first, i + 1)
  {}

  lemma OverlapsRemoved(before: PermsMap, y: PermsMap, upTo: nat, start: PermsMap, m: PermsMap,
                        ys: seq<Range<Perms>>, r: Range<Perms>)
    requires IsIteration(y, ys) && r.start < r.limit
    requires var found := Find(ys, r.start, r.limit);
      RemovingState(before, y, upTo, start, m, ys, found.0, if found.0 < found.1 then found.1 else found.0)
    ensures forall a | a in m && r.Has(a) :: a !in y
  {}

  /** Moving on to `upTo'` is right when no address in between is left in both. */
  lemma MoveOn(before: PermsMap, y: PermsMap, m: PermsMap, upTo: nat, upTo': nat)
    requires PartlyExcluded(before, y, m, upTo)
    requires forall a | upTo <= a < upTo' && a in m :: a !in y
    ensures PartlyExcluded(before, y, m, upTo')
  {}

  /** Range `r` is the first that ends after `upTo`; the exclusion is complete up to there. */
  ghost predicate ExcludingState(before: PermsMap, y: PermsMap, m: PermsMap, ranges: seq<Range<Perms>>, r: nat, upTo: nat) {
    && PartlyExcluded(before, y, m, upTo)
    && r <= |ranges|
    && (r < |ranges| ==> upTo < ranges[r].limit <= Bound(before.Keys))
    && (forall j | 0 <= j < r :: ranges[j].limit <= upTo)
  }

  lemma ExcludingStep(before: PermsMap, y: PermsMap, m: PermsMap, m': PermsMap,
                      ranges: seq<Range<Perms>>, r: nat, upTo: nat)
    requires IsIteration(m, ranges) && ExcludingState(before, y, m, ranges, r, upTo) && r < |ranges|
    requires PartlyExcluded(before, y, m', upTo) && m'.Keys <= m.Keys
    requires forall a | a in m' && ranges[r].Has(a) :: a !in y
    ensures var ranges' := Runs(m');
      ExcludingState(before, y, m', ranges', LowerBoundFrom(ranges', ranges[r].limit, 0), ranges[r].limit)
  {
    NothingIn(m, ranges, r, upTo, ranges[r].start);
    assert forall a | upTo <= a < ranges[r].limit && a in m' :: a in m.Keys && ranges[r].Has(a);
    MoveOn(before, y, m', upTo, ranges[r].limit);
    EndsWithin(before, y, m', ranges[r].limit);
  }

  /** Every range ends at the bound at the latest. */
  lemma EndsWithin(before: PermsMap, y: PermsMap, m: PermsMap, upTo: nat)
    requires PartlyExcluded(before, y, m, upTo)
    ensures forall i | 0 <= i < |Runs(m)| :: Runs(m)[i].limit <= Bound(before.Keys)
  {
    forall i | 0 <= i < |Runs(m)|
      ensures Runs(m)[i].limit <= Bound(before.Keys)
    {
      RunEdges(m, i);
      RunAtIndex(m, i, Runs(m)[i].limit - 1);
      assert Runs(m)[i].limit - 1 in before.Keys;
    }
  }

  lemma NothingLeft(before: PermsMap, y: PermsMap, m: PermsMap, ranges: seq<Range<Perms>>, upTo: nat)
    requires IsIteration(m, ranges) && ExcludingState(before, y, m, ranges, |ranges|, upTo)
    ensures m == Excluding(before, y)
  {}

  lemma FoundOverlaps(m: PermsMap, start: nat, limit: nat)
    requires start < limit && Find(Runs(m), start, limit).0 < Find(Runs(m), start, limit).1
    ensures OverlapsRange(m, start, limit)
  {
    var i := Find(Runs(m), start, limit).0;
    RunsAreIteration(m);
    FindOverlaps(Runs(m), start, limit, i);
    var r := Runs(m)[i];
    var a := if r.start < start then start else r.start;
    RunEdges(m, i);
    RunAtIndex(m, i, a);
    assert start <= a < limit;
  }

  lemma OverlapsAreFound(m: PermsMap, start: nat, limit: nat, a: nat)
    requires start <= a < limit && a in m
    ensures Find(Runs(m), start, limit).0 < Find(Runs(m), start, limit).1
  {
    var r := RunAt(m, a);
    var i :| 0 <= i < |Runs(m)| && Runs(m)[i] == r;
    RunsAreIteration(m);
    FindOverlaps(Runs(m), start, limit, i);
  }

  lemma OverlapFound(m: PermsMap, start: nat, limit: nat)
    requires start < limit
    ensures var found := Find(Runs(m), start, limit); found.0 < found.1 <==> OverlapsRange(m, start, limit)
  {
    if Find(Runs(m), start, limit).0 < Find(Runs(m), start, limit).1 {
      FoundOverlaps(m, start, limit);
    }
    if OverlapsRange(m, start, limit) {
      var a :| start <= a < limit && a in m;
      OverlapsAreFound(m, start, limit, a);
    }
  }

  /** `r` says whether everything before `prev` is covered. */
  ghost predicate CoveringState(m: PermsMap, ranges: seq<Range<Perms>>, start: nat, limit: nat, i: nat, prev: nat, r: bool) {
    && i <= |ranges| && start <= prev
    && (forall j | 0 <= j < i :: ranges[j].limit <= prev)
    && (i < |ranges| && ranges[i].start < prev ==> prev == start)
    && (r ==> forall a | start <= a < prev && a < limit :: a in m)
    && (!r ==> !ContainsRange(m, start, limit))
  }

  lemma CoveringStep(m: PermsMap, ranges: seq<Range<Perms>>, start: nat, limit: nat, i: nat, prev: nat, r: bool)
    requires IsIteration(m, ranges) && i < |ranges| && start < limit
    requires ranges[i].start < limit && start < ranges[i].limit
    requires CoveringState(m, ranges, start, limit, i, prev, r)
    ensures CoveringState(m, ranges, start, limit, i + 1, ranges[i].limit, r && ranges[i].start <= prev)
  {
    if prev < ranges[i].start {
      NothingBetween(m, ranges, i, prev, prev);
    }
    forall a | start <= a < ranges[i].limit && a < limit && r && ranges[i].start <= prev
      ensures a in m
    {
      assert a >= prev ==> ranges[i].Has(a);
    }
  }

  lemma CoveringEnd(m: PermsMap, ranges: seq<Range<Perms>>, start: nat, limit: nat, i: nat, prev: nat, r: bool)
    requires IsIteration(m, ranges) && i <= |ranges| && start < limit
    requires i < |ranges| ==> limit <= ranges[i].start
    requires CoveringState(m, ranges, start, limit, i, prev, r)
    ensures r && limit <= prev <==> ContainsRange(m, start, limit)
  {
    if prev < limit {
      NothingBetween(m, ranges, i, prev, prev);
    }
  }

  /** The maximal range of equal permissions around an address, without the mark for being mapped. */
  ghost predicate IsMapping(m: PermsMap, address: nat, mapping: Range<Perms>) {
    mapping.Has(address) && exists full :: full in Runs(m) && mapping == full.(value := full.value.Minus(MAPPED))
  }

  // ----- the map, updated in place -----

  class MappedMemoryMap {
    var rep: PermsMap

    constructor ()
      ensures rep == map[]
    {
      rep := map[];
    }

    constructor CopyOf(m: PermsMap)
      ensures rep == m
    {
      rep := m;
    }

    method Add(start: nat, limit: nat, perms: Perms)
      requires start < limit && !perms.IsEmpty()
      modifies this
      ensures rep == Added(old(rep), start, limit, perms)
    {
      rep := Added(rep, start, limit, perms);
    }

    method AddNew(start: nat, limit: nat, perms: Perms)
      requires start < limit && !perms.IsEmpty() && !OverlapsRange(rep, start, limit)
      modifies this
      ensures rep == Assigned(old(rep), start, limit, perms)
    {
      ghost var before := rep;
      Add(start, limit, perms);
      assert forall a | start <= a < limit :: a !in before;
    }

    method Set(start: nat, limit: nat, perms: Perms)
      requires start < limit && !perms.IsEmpty()
      modifies this
      ensures rep == Assigned(old(rep), start, limit, perms)
    {
      RemoveThenAdd(rep, start, limit, perms);
      Remove(start, limit, ALL_PLUS_MAPPED);
      rep := Added(rep, start, limit, perms);
    }

    method Remove(start: nat, limit: nat, perms: Perms)
      requires start < limit
      modifies this
      ensures rep == Removed(old(rep), start, limit, perms)
    {
      rep := Removed(rep, start, limit, perms);
    }

    /** Removes the ranges of `y` that overlap one range of this map. */
    method RemoveOverlaps(y: PermsMap, r: Range<Perms>, ghost before: PermsMap, ghost upTo: nat)
      requires r.start < r.limit && PartlyExcluded(before, y, rep, upTo)
      modifies this
      ensures PartlyExcluded(before, y, rep, upTo)
      ensures rep.Keys <= old(rep).Keys
      ensures forall a | a in rep && r.Has(a) :: a !in y
    {
      var ys := Runs(y);
      RunsAreIteration(y);
      var found := Find(ys, r.start, r.limit);
      var end := if found.0 < found.1 then found.1 else found.0;
      ghost var first := found.0;
      for i := found.0 to end
        invariant RemovingState(before, y, upTo, old(rep), rep, ys, first, i)
      {
        RemovingStep(before, y, upTo, old(rep), rep, ys, first, i);
        Remove(ys[i].start, ys[i].limit, ALL_PLUS_MAPPED);
      }
      OverlapsRemoved(before, y, upTo, old(rep), rep, ys, r);
    }

    /** Removes all addresses of `y`: goes over its own ranges, re-reading them after each removal. */
    method RemoveRangesOf(y: PermsMap)
      modifies this
      ensures rep == Excluding(old(rep), y)
    {
      ghost var before := rep;
      ghost var upTo := 0;
      var ranges := Runs(rep);
      var r: nat := 0;
      EndsWithin(before, y, rep, 0);
      RunsAreIteration(rep);
      assert r < |ranges| ==> ranges[r].start < ranges[r].limit;
      while r < |ranges|
        invariant ranges == Runs(rep)
        invariant ExcludingState(before, y, rep, ranges, r, upTo)
        decreases Bound(before.Keys) - upTo
      {
        RunsAreIteration(rep);
        var range := ranges[r];
        ghost var at := rep;
        RemoveOverlaps(y, range, before, upTo);
        ExcludingStep(before, y, at, rep, ranges, r, upTo);
        upTo := range.limit;
        ranges := Runs(rep);
        r := LowerBoundFrom(ranges, range.limit, 0);
        RunsAreIteration(rep);
      }
      RunsAreIteration(rep);
      NothingLeft(before, y, rep, ranges, upTo);
    }

    /** Whether some range overlaps. */
    method Overlaps(start: nat, limit: nat) returns (r: bool)
      requires start <= limit
      ensures r <==> OverlapsRange(rep, start, limit)
    {
      var ranges := Runs(rep);
      var found := Find(ranges, start, limit);
      r := found.0 < found.1;
      if start < limit {
        OverlapFound(rep, start, limit);
      }
    }

    /** Whether the ranges cover everything. */
    method ContainsAll(start: nat, limit: nat) returns (r: bool)
      requires start <= limit
      ensures r <==> ContainsRange(rep, start, limit)
    {
      if start == limit {
        return true;
      }
      var ranges := Runs(rep);
      var found := Find(ranges, start, limit);
      OverlapFound(rep, start, limit);
      if found.0 >= found.1 {
        assert start !in rep;
        return false;
      }
      RunsAreIteration(rep);
      r := true;
      var prev: nat := start;
      for i := found.0 to found.1
        invariant CoveringState(rep, ranges, start, limit, i, prev, r)
      {
        FindOverlaps(ranges, start, limit, i);
        CoveringStep(rep, ranges, start, limit, i, prev, r);
        r := r && ranges[i].start <= prev;
        prev := ranges[i].limit;
      }
      AfterFound(ranges, start, limit);
      CoveringEnd(rep, ranges, start, limit, found.1, prev, r);
      r := r && limit <= prev;
    }

    /** The permissions of a range, joined: what all its addresses have, or what some of them have. */
    method Perms(start: nat, limit: nat, mode: JoinMode) returns (r: Perms)
      requires start <= limit
      ensures start == limit ==> r == NONE
      ensures start < limit ==> r == JoinOver(rep, start, limit, mode) && IsJoin(rep, start, limit, mode, r)
    {
      if start >= limit {
        return NONE;
      }
      var ranges := Runs(rep);
      RunsAreIteration(rep);
      var found := Find(ranges, start, limit);
      var end := if found.0 < found.1 then found.1 else found.0;
      r := JoinStart(mode);
      var covered := true;
      var prev: nat := start;
      for i := found.0 to end
        invariant JoinState(rep, ranges, start, limit, mode, i, prev, r, covered)
      {
        FindOverlaps(ranges, start, limit, i);
        JoinStep(rep, ranges, start, limit, mode, i, prev, r, covered);
        covered := covered && ranges[i].start <= prev;
        r := Join(r, ranges[i].value, mode);
        prev := ranges[i].limit;
      }
      AfterFound(ranges, start, limit);
      JoinEnd(rep, ranges, start, limit, mode, end, prev, r, covered);
      covered := covered && prev >= limit;
      if !covered {
        r := Join(r, NONE, mode);
      }
      JoinOverIsJoin(rep, start, limit, mode);
    }

    /** The range of equal permissions around an address, without the mark for being mapped. */
    method MappingAt(address: nat) returns (r: Option<Range<Perms>>)
      ensures r.None? <==> address !in rep
      ensures r.Some? ==> IsMapping(rep, address, r.value) && r.value.value == rep[address].Minus(MAPPED)
    {
      var ranges := Runs(rep);
      RunsAreIteration(rep);
      var i := LowerBoundFrom(ranges, address, 0);
      if i < |ranges| && ranges[i].start <= address {
        assert ranges[i].Has(address);
        assert ranges[i] in Runs(rep);
        return Some(ranges[i].(value := ranges[i].value.Minus(MAPPED)));
      }
      NothingBetween(rep, ranges, i, address, address);
      return None;
    }
  }
}
