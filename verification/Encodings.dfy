/**
  The laws of an encoder at work on one branch: a first attempt to encode a distance, and
  further attempts elsewhere.
 */
module Encodings {
  import opened Wrappers
  import opened Instructions
  import opened ProgramLayout

  lemma ReencodeLaw(a: Arch, bytes: seq<bv8>, d: int)
    requires Lawful(a) && a.Branch(bytes)
    ensures ReencodesSoundly(a, bytes, d)
  {}

  /** The two lists differ at most at index `i`. */
  predicate OnlyAt(i: nat, before: seq<Instruction>, now: seq<Instruction>)
    requires i < |before|
  {
    |now| == |before| && forall k | 0 <= k < |now| && k != i :: now[k] == before[k]
  }

  lemma SameBoundaryOffset(i: nat, before: seq<Instruction>, now: seq<Instruction>, b: nat)
    requires i < |before| && OnlyAt(i, before, now) && b <= |before|
    requires now[i].offset == before[i].offset && |now[i].encoded| == |before[i].encoded|
    ensures BoundaryOffset(now, b) == BoundaryOffset(before, b)
  {}

  lemma FitLaw(a: Arch, bytes: seq<bv8>, d: int, d': int)
    requires Lawful(a) && a.Branch(bytes) && a.canonical(bytes)
    ensures FitsStably(a, bytes, d, d')
  {}

  /** The first displacement for which the bytes were re-encoded is `d`. */
  ghost predicate RewrittenFrom(a: Arch, before: Instruction, now: Instruction, d: int) {
    exists ds :: RewrittenFirst(a, before, now, d, ds)
  }

  predicate RewrittenFirst(a: Arch, before: Instruction, now: Instruction, d: int, ds: seq<int>) {
    ds != [] && ds[0] == d && RewrittenBy(a, before, now, ds)
  }

  /**
    Asked for distance `d`, the editor tries it first, and keeps the boundary of a branch when `d`
    fits its encoding; it gives it up when `d` does not, provided the encoding cannot change size.
   */
  ghost predicate Fitted(a: Arch, before: Instruction, now: Instruction, d: int) {
    && RewrittenFrom(a, before, now, d)
    && (a.reencode(before.encoded, d).1 ==>
          now.branch.boundary == before.branch.boundary && now.encoded == a.reencode(before.encoded, d).0)
    && (a.canonical(before.encoded) && !a.reencode(before.encoded, d).1 ==>
          now.branch.boundary != before.branch.boundary)
  }

  /**
    `cur` is a state of re-encoding `was`, which was asked for distance `d`: `ok` says
    whether the last attempt succeeded, `once` that it was the first.
   */
  ghost predicate Attempt(a: Arch, was: Instruction, cur: Instruction, d: int, once: bool, ok: bool) {
    && RewrittenFrom(a, was, cur, d)
    && cur.offset == was.offset
    && cur.branch.Valid()
    && a.Branch(cur.encoded)
    && (ok <==> a.displacementOf(cur.encoded) == cur.branch.byteDisplacement)
    && a.canonical(cur.encoded)
    && (a.canonical(was.encoded) ==> |cur.encoded| == |was.encoded|)
    && (a.acceptable(was.encoded) ==> a.acceptable(cur.encoded))
    && (a.canonical(was.encoded) ==> a.reencode(cur.encoded, d).1 == a.reencode(was.encoded, d).1)
    && (once ==> cur.branch.boundary == was.branch.boundary && (cur.encoded, ok) == a.reencode(was.encoded, d))
    && (!once ==> !a.reencode(was.encoded, d).1)
    && (a.canonical(was.encoded) && !once && ok ==> cur.branch.boundary != was.branch.boundary)
  }

  lemma FirstAttempt(a: Arch, was: Instruction, d: int)
    requires Lawful(a) && a.Branch(was.encoded) && was.branch.byteDisplacement == Some(d)
    ensures var r := a.reencode(was.encoded, d); Attempt(a, was, was.(encoded := r.0), d, true, r.1)
  {
    ReencodeLaw(a, was.encoded, d);
    var r := a.reencode(was.encoded, d);
    assert [d][..0] == [] && ReencodedAlong(a, was.encoded, []) == was.encoded;
    assert RewrittenFirst(a, was, was.(encoded := r.0), d, [d]);
    if a.canonical(was.encoded) {
      FitLaw(a, was.encoded, d, d);
    }
  }

  lemma NextAttempt(a: Arch, was: Instruction, cur: Instruction, d: int, once: bool, b: nat, e: int)
    requires Lawful(a) && Attempt(a, was, cur, d, once, false)
    requires a.canonical(was.encoded) && Some(b) == was.branch.boundary ==> e == d
    ensures var r := a.reencode(cur.encoded, e);
      Attempt(a, was, Instruction(r.0, DisplacementInfo(Some(e), Some(b)), cur.offset), d, false, r.1)
  {
    ReencodeLaw(a, cur.encoded, e);
    FitLaw(a, cur.encoded, e, d);
    OneMore(a, was, cur, d, Instruction(a.reencode(cur.encoded, e).0, DisplacementInfo(Some(e), Some(b)), cur.offset), e);
  }

  lemma OneMore(a: Arch, was: Instruction, cur: Instruction, d: int, next: Instruction, e: int)
    requires RewrittenFrom(a, was, cur, d)
    requires next.encoded == a.reencode(cur.encoded, e).0 && next.branch.byteDisplacement == Some(e)
    ensures RewrittenFrom(a, was, next, d)
  {
    var ds :| RewrittenFirst(a, was, cur, d, ds);
    assert (ds + [e])[..|ds|] == ds;
    assert RewrittenFirst(a, was, next, d, ds + [e]);
  }

  /** What a successful attempt leaves. */
  lemma AttemptSucceeded(a: Arch, was: Instruction, cur: Instruction, d: int, once: bool, numBoundaries: nat)
    requires Attempt(a, was, cur, d, once, true)
    requires was.branch.Valid() && was.branch.boundary.Some?
    requires cur.branch.boundary.Some? && cur.branch.boundary.value < numBoundaries
    requires 0 < |was.encoded| && (|cur.encoded| != |was.encoded| ==> a.canonical(cur.encoded))
    ensures WellFormedInstruction(a, cur, numBoundaries)
    ensures Reworked(a, was, cur)
    ensures Fitted(a, was, cur, d)
  {
    var ds :| RewrittenFirst(a, was, cur, d, ds);
    assert RewrittenBy(a, was, cur, ds);
  }

  /** What re-encoding did does not depend on the displacement and the place recorded before. */
  lemma SyncedFirst(a: Arch, before: Instruction, was: Instruction, now: Instruction, d: int)
    requires was.encoded == before.encoded && was.branch.boundary == before.branch.boundary
    requires Fitted(a, was, now, d)
    ensures Fitted(a, before, now, d) && Rewritten(a, before, now)
  {
    var ds :| RewrittenFirst(a, was, now, d, ds);
    assert RewrittenFirst(a, before, now, d, ds);
  }

  /** The distance instruction `i` is asked to cover when it is visited at `offset`. */
  function AskedDistance(before: seq<Instruction>, i: nat, offset: nat): int
    requires i < |before| && before[i].branch.boundary.Some? && before[i].branch.boundary.value <= |before|
  {
    BoundaryOffset(before[i := before[i].(offset := offset)], before[i].branch.boundary.value) - offset
  }

  /** What visiting instruction `i` at `offset` does to it. */
  ghost predicate Visited(a: Arch, i: nat, offset: nat, before: seq<Instruction>, now: seq<Instruction>, changed: bool)
    requires i < |before| == |now|
    requires WellFormedInstruction(a, before[i], |before| + 1)
  {
    && now[i].offset == offset
    && WellFormedInstruction(a, now[i], |now| + 1)
    && Reworked(a, before[i], now[i])
    && (!changed ==> now[i] == before[i].(offset := offset))
    && (now[i].branch.Valid() ==>
          && changed == (before[i].branch.byteDisplacement != Some(AskedDistance(before, i, offset)))
          && (changed ==> Fitted(a, before[i], now[i], AskedDistance(before, i, offset)))
          && (|now[i].encoded| == |before[i].encoded| ==>
                now[i].branch.byteDisplacement == Some(BoundaryOffset(now, now[i].branch.boundary.value) - offset)))
    && (!now[i].branch.Valid() ==> !changed)
  }
}
