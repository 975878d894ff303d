/**
  Why a branch loses its target in the displacement fixup: in some pass, when the branch was
  visited, the distance to that very target did not fit its encoding.
 */
module FixupTargets {
  import opened Wrappers
  import opened Instructions
  import opened ProgramLayout
  import opened Encodings
  import opened FixupPasses

  /** `now` is a list that the fixup of `before` comes to just before it visits instruction `k`. */
  ghost predicate AboutToVisit(a: Arch, before: seq<Instruction>, now: seq<Instruction>, k: nat) {
    exists passes, visits :: VisitPending(a, before, now, k, passes, visits)
  }

  ghost predicate VisitPending(a: Arch, before: seq<Instruction>, now: seq<Instruction>, k: nat,
                               passes: seq<seq<Instruction>>, visits: seq<seq<Instruction>>)
  {
    && k < |before|
    && Passes(a, before, passes)
    && VisitedBy(a, passes[|passes| - 1], now, k, visits)
  }

  /** Where it is visited, branch `k` cannot encode the distance to its target. */
  predicate OutOfReach(a: Arch, now: seq<Instruction>, k: nat) {
    && k < |now|
    && now[k].branch.boundary.Some? && now[k].branch.boundary.value <= |now|
    && !a.reencode(now[k].encoded, AskedDistance(now, k, OffsetOf(now, k))).1
  }

  ghost predicate GivenUpIn(a: Arch, before: seq<Instruction>, now: seq<Instruction>, k: nat) {
    && k < |now| == |before|
    && now[k].branch.boundary == before[k].branch.boundary
    && AboutToVisit(a, before, now, k)
    && OutOfReach(a, now, k)
  }

  /** At some visit of branch `k`, its original target was out of reach. */
  ghost predicate GivenUp(a: Arch, before: seq<Instruction>, k: nat) {
    exists now :: GivenUpIn(a, before, now, k)
  }

  // ----- one pass -----

  /** A visit changes no other instruction, and the boundary of its own only if that is out of reach. */
  lemma VisitKeeps(a: Arch, i: nat, before: seq<Instruction>, now: seq<Instruction>, k: nat)
    requires VisitStep(a, i, before, now) && k < |before|
    ensures k != i ==> now[k] == before[k]
    ensures now[k].branch.boundary != before[k].branch.boundary ==> k == i && OutOfReach(a, before, k)
  {
    var changed :| Visited(a, i, OffsetOf(before, i), before, now, changed);
  }

  lemma {:induction false} VisitsKeepLength(a: Arch, states: seq<seq<Instruction>>, i: nat)
    requires VisitsInOrder(a, states) && i < |states|
    ensures |states[i]| == |states[0]|
    decreases i
  {
    if i > 0 {
      VisitsKeepLength(a, states, i - 1);
      assert VisitAt(a, states, i - 1);
    }
  }

  /** Until its visit a branch is as before the pass. */
  lemma {:induction false} NotVisitedYet(a: Arch, states: seq<seq<Instruction>>, i: nat, k: nat)
    requires VisitsInOrder(a, states) && i < |states| && i <= k < |states[0]|
    ensures |states[i]| == |states[0]| && states[i][k] == states[0][k]
    decreases i
  {
    if i > 0 {
      NotVisitedYet(a, states, i - 1, k);
      assert VisitAt(a, states, i - 1);
      VisitKeeps(a, i - 1, states[i - 1], states[i], k);
    }
  }

  /** After its visit a branch stays as it is until the end of the pass. */
  lemma {:induction false} NotVisitedAgain(a: Arch, states: seq<seq<Instruction>>, i: nat, k: nat)
    requires VisitsInOrder(a, states) && k < i < |states| && k < |states[0]|
    ensures |states[i]| == |states[k + 1]| == |states[0]| && states[i][k] == states[k + 1][k]
    decreases i
  {
    VisitsKeepLength(a, states, k + 1);
    if i > k + 1 {
      NotVisitedAgain(a, states, i - 1, k);
      assert VisitAt(a, states, i - 1);
      VisitKeeps(a, i - 1, states[i - 1], states[i], k);
    }
  }

  lemma VisitsPrefix(a: Arch, states: seq<seq<Instruction>>, i: nat)
    requires VisitsInOrder(a, states) && i < |states|
    ensures VisitedBy(a, states[0], states[i], i, states[..i + 1])
  {
    var part := states[..i + 1];
    forall j | 0 <= j < i
      ensures VisitAt(a, part, j)
    {
      assert VisitAt(a, states, j);
    }
  }

  /** A pass in which a branch loses its boundary visits it when that is out of reach. */
  lemma LostInPass(a: Arch, before: seq<Instruction>, passes: seq<seq<Instruction>>,
                   now: seq<Instruction>, k: nat) returns (seen: seq<Instruction>)
    requires Passes(a, before, passes) && k < |before| == |passes[|passes| - 1]|
    requires VisitedUpTo(a, passes[|passes| - 1], now, |before|)
    requires |now| == |before|
    requires now[k].branch.boundary != passes[|passes| - 1][k].branch.boundary
    ensures |seen| == |before| && seen[k] == passes[|passes| - 1][k]
    ensures AboutToVisit(a, before, seen, k) && OutOfReach(a, seen, k)
  {
    var states :| VisitedBy(a, passes[|passes| - 1], now, |before|, states);
    NotVisitedYet(a, states, k, k);
    NotVisitedAgain(a, states, |before|, k);
    assert VisitAt(a, states, k);
    VisitKeeps(a, k, states[k], states[k + 1], k);
    VisitsPrefix(a, states, k);
    seen := states[k];
    assert VisitPending(a, before, seen, k, passes, states[..k + 1]);
  }

  // ----- all passes -----

  lemma {:induction false} PassesKeepLength(a: Arch, before: seq<Instruction>, states: seq<seq<Instruction>>, p: nat)
    requires Passes(a, before, states) && p < |states|
    ensures |states[p]| == |before|
    decreases p
  {
    if p > 0 {
      PassesKeepLength(a, before, states, p - 1);
      assert PassAt(a, states, p - 1);
      var visits :| VisitedBy(a, states[p - 1], states[p], |states[p - 1]|, visits);
      VisitsKeepLength(a, visits, |before|);
    }
  }

  lemma PassesPrefix(a: Arch, before: seq<Instruction>, states: seq<seq<Instruction>>, p: nat)
    requires Passes(a, before, states) && p < |states|
    ensures Passes(a, before, states[..p + 1])
  {
    var part := states[..p + 1];
    forall j | 0 <= j < p
      ensures PassAt(a, part, j)
    {
      assert PassAt(a, states, j);
    }
  }

  lemma {:induction false} LostSometime(a: Arch, before: seq<Instruction>, states: seq<seq<Instruction>>, p: nat, k: nat)
    requires Passes(a, before, states) && p < |states| && k < |before| == |states[p]|
    requires states[p][k].branch.boundary != before[k].branch.boundary
    ensures GivenUp(a, before, k)
    decreases p
  {
    if p > 0 {
      PassesKeepLength(a, before, states, p - 1);
      if states[p - 1][k].branch.boundary != before[k].branch.boundary {
        LostSometime(a, before, states, p - 1, k);
      } else {
        assert PassAt(a, states, p - 1);
        PassesPrefix(a, before, states, p - 1);
        assert states[..p][|states[..p]| - 1] == states[p - 1];
        var seen := LostInPass(a, before, states[..p], states[p], k);
        assert GivenUpIn(a, before, seen, k);
      }
    }
  }

  /** The fixup changes the target of a branch only if that was out of reach when the branch was visited. */
  lemma LostOnlyOutOfReach(a: Arch, before: seq<Instruction>, now: seq<Instruction>, modified: bool, k: nat)
    requires FixupDone(a, before, now, modified) && k < |before|
    ensures |now| == |before|
    ensures now[k].branch.boundary != before[k].branch.boundary ==> GivenUp(a, before, k)
  {
    var states :| PassedBy(a, before, now, states);
    if now[k].branch.boundary != before[k].branch.boundary {
      LostSometime(a, before, states, |states| - 1, k);
    }
  }

  // ----- targets that are never given up -----

  /** No instruction is larger than the buffer, so no distance is larger than so many buffers. */
  predicate Sized(a: Arch, insns: seq<Instruction>) {
    forall k | 0 <= k < |insns| :: |insns[k].encoded| <= a.bufferSize && insns[k].offset <= k * a.bufferSize
  }

  /** A list that the fixup of `before` can come to. */
  ghost predicate Descendant(a: Arch, before: seq<Instruction>, now: seq<Instruction>) {
    && |now| == |before|
    && Sized(a, now)
    && forall k | 0 <= k < |now| :: Rewritten(a, before[k], now[k])
  }

  lemma {:induction false} OffsetWithin(a: Arch, insns: seq<Instruction>, k: nat)
    requires k <= |insns| && forall j | 0 <= j < |insns| :: |insns[j].encoded| <= a.bufferSize
    ensures OffsetOf(insns, k) <= k * a.bufferSize
    decreases k
  {
    if k > 0 {
      OffsetWithin(a, insns, k - 1);
    }
  }

  lemma LaidOutDescendant(a: Arch, before: seq<Instruction>)
    requires WellFormed(a, before)
    ensures Descendant(a, before, Relaid(before))
  {
    forall k | 0 <= k < |before|
      ensures |before[k].encoded| <= a.bufferSize
    {
      assert WellFormedInstruction(a, before[k], |before| + 1);
    }
    forall k | 0 <= k < |before|
      ensures Relaid(before)[k].offset <= k * a.bufferSize
      ensures Rewritten(a, before[k], Relaid(before)[k])
    {
      RelaidOffset(before, |before|, k);
      OffsetWithin(a, before, k);
      RewrittenAlready(a, before[k], Relaid(before)[k]);
    }
  }

  lemma VisitDescendant(a: Arch, before: seq<Instruction>, i: nat, mid: seq<Instruction>, now: seq<Instruction>)
    requires Descendant(a, before, mid) && VisitStep(a, i, mid, now)
    ensures Descendant(a, before, now)
  {
    var changed :| Visited(a, i, OffsetOf(mid, i), mid, now, changed);
    OffsetWithin(a, mid, i);
    RewrittenTransitive(a, before[i], mid[i], now[i]);
  }

  lemma {:induction false} VisitsDescendant(a: Arch, before: seq<Instruction>, states: seq<seq<Instruction>>, i: nat)
    requires VisitsInOrder(a, states) && i < |states| && Descendant(a, before, states[0])
    ensures Descendant(a, before, states[i])
    decreases i
  {
    if i > 0 {
      VisitsDescendant(a, before, states, i - 1);
      assert VisitAt(a, states, i - 1);
      VisitDescendant(a, before, i - 1, states[i - 1], states[i]);
    }
  }

  lemma {:induction false} PassesDescendant(a: Arch, before: seq<Instruction>, states: seq<seq<Instruction>>, p: nat)
    requires WellFormed(a, before) && Passes(a, before, states) && p < |states|
    ensures Descendant(a, before, states[p])
    decreases p
  {
    if p == 0 {
      LaidOutDescendant(a, before);
    } else {
      PassesDescendant(a, before, states, p - 1);
      assert PassAt(a, states, p - 1);
      var visits :| VisitedBy(a, states[p - 1], states[p], |states[p - 1]|, visits);
      VisitsDescendant(a, before, visits, |before|);
    }
  }

  /** The distance from one place of the list to another. */
  lemma AskedWithin(a: Arch, now: seq<Instruction>, k: nat)
    requires Sized(a, now) && k < |now|
    requires now[k].branch.boundary.Some? && now[k].branch.boundary.value <= |now|
    ensures -(|now| * a.bufferSize) <= AskedDistance(now, k, OffsetOf(now, k)) <= |now| * a.bufferSize
  {
    var size, b := a.bufferSize, now[k].branch.boundary.value;
    OffsetWithin(a, now, k);
    Products(k, |now|, size);
    var last := if b < |now| then b else |now| - 1;
    Products(last, |now|, size);
  }

  lemma {:induction false} Products(k: nat, n: nat, size: nat)
    requires k < n
    ensures k * size + size <= n * size
    decreases n
  {
    OneMoreProduct(n - 1, size);
    if k < n - 1 {
      Products(k, n - 1, size);
    }
  }

  lemma OneMoreProduct(n: nat, size: nat)
    ensures (n + 1) * size == n * size + size
  {}

  /** Whatever the bytes were re-encoded for, they can be encoded for every displacement up to a limit. */
  ghost predicate EncodesWithin(a: Arch, bytes: seq<bv8>, limit: int) {
    forall ds, d | -limit <= d <= limit :: a.reencode(ReencodedAlong(a, bytes, ds), d).1
  }

  lemma NeverOutOfReach(a: Arch, before: seq<Instruction>, now: seq<Instruction>, k: nat)
    requires WellFormed(a, before) && AboutToVisit(a, before, now, k)
    requires EncodesWithin(a, before[k].encoded, |before| * a.bufferSize)
    ensures !OutOfReach(a, now, k)
  {
    var passes, visits :| VisitPending(a, before, now, k, passes, visits);
    PassesDescendant(a, before, passes, |passes| - 1);
    VisitsDescendant(a, before, visits, k);
    var ds :| RewrittenBy(a, before[k], now[k], ds);
    if now[k].branch.boundary.Some? && now[k].branch.boundary.value <= |now| {
      AskedWithin(a, now, k);
      assert a.reencode(ReencodedAlong(a, before[k].encoded, ds), AskedDistance(now, k, OffsetOf(now, k))).1;
    }
  }

  /** A branch that can encode every distance within a program of this length keeps its target. */
  lemma FarReachingKeepsTarget(a: Arch, before: seq<Instruction>, now: seq<Instruction>, modified: bool, k: nat)
    requires WellFormed(a, before) && FixupDone(a, before, now, modified) && k < |before|
    requires EncodesWithin(a, before[k].encoded, |before| * a.bufferSize)
    ensures |now| == |before| && now[k].branch.boundary == before[k].branch.boundary
  {
    LostOnlyOutOfReach(a, before, now, modified, k);
    forall seen | AboutToVisit(a, before, seen, k)
      ensures !GivenUpIn(a, before, seen, k)
    {
      NeverOutOfReach(a, before, seen, k);
    }
  }
}
