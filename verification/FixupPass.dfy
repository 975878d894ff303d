/**
  One pass of the displacement fixup, as a relation between the list before the pass and
  the list when the first `i` instructions have been visited.
 */
module FixupPasses {
  import opened Wrappers
  import opened Instructions
  import opened ProgramLayout
  import opened Encodings

  /** The visited instructions lie end to end, up to `offset`; the others are untouched. */
  predicate Packed(before: seq<Instruction>, now: seq<Instruction>, i: nat, offset: nat) {
    && i <= |now| == |before|
    && (forall k | i <= k < |now| :: now[k] == before[k])
    && offset == OffsetOf(now, i)
    && (forall k | 0 <= k < i :: OffsetRecorded(now, k))
  }

  /** Every visited instruction is well formed and at most re-encoded. */
  ghost predicate Processed(a: Arch, before: seq<Instruction>, now: seq<Instruction>, i: nat)
    requires i <= |now| == |before|
  {
    && (forall k | 0 <= k < i :: WellFormedInstruction(a, now[k], |now| + 1))
    && (forall k | 0 <= k < i :: Reworked(a, before[k], now[k]))
  }

  predicate Resized(before: seq<Instruction>, now: seq<Instruction>, k: nat)
    requires k < |now| == |before|
  {
    |now[k].encoded| != |before[k].encoded|
  }

  /** Unless some size changed, branch `k` now covers the distance measured before the pass. */
  predicate SettledAt(before: seq<Instruction>, now: seq<Instruction>, k: nat)
    requires k < |now| == |before|
  {
    now[k].branch.Valid() && !Resized(before, now, k) ==>
      && now[k].branch.boundary.Some?
      && now[k].branch.boundary.value <= |before|
      && now[k].branch.byteDisplacement == Some(OffsetOf(before, now[k].branch.boundary.value) - OffsetOf(before, k))
  }

  /** What the `stable` flag says about the visited part. */
  predicate Tracked(before: seq<Instruction>, now: seq<Instruction>, i: nat, stable: bool)
    requires i <= |now| == |before|
  {
    && (stable ==> forall k | 0 <= k < i :: now[k].offset == before[k].offset)
    && (stable ==> forall k | 0 <= k < i :: SettledAt(before, now, k))
    && (!stable ==> exists k :: 0 <= k < i && Resized(before, now, k))
  }

  /** What the `modified` flag says: whether some visited branch was out of place. */
  predicate Noticed(before: seq<Instruction>, now: seq<Instruction>, i: nat, modified: bool)
    requires i <= |now| == |before|
  {
    && (modified ==> !Exact(before))
    && (!modified ==> forall k | 0 <= k < i :: now[k] == before[k])
    && (!modified ==> forall k {:trigger ExactAt(before, k)} | 0 <= k < i && before[k].branch.Valid() :: ExactAt(before, k))
  }

  /** The boundary of branch `k` is kept exactly when the distance to it fits. */
  predicate KeptAt(a: Arch, before: seq<Instruction>, now: seq<Instruction>, k: nat)
    requires k < |now| == |before|
  {
    before[k].branch.Valid() && before[k].branch.boundary.Some? && before[k].branch.boundary.value <= |before| ==>
      (now[k].branch.boundary == before[k].branch.boundary <==>
       a.reencode(before[k].encoded, TargetDistance(before, k)).1)
  }

  predicate Kept(a: Arch, before: seq<Instruction>, now: seq<Instruction>, i: nat)
    requires i <= |now| == |before|
  {
    AllCanonical(a, before) ==> forall k | 0 <= k < i :: KeptAt(a, before, now, k)
  }

  // ----- one visit -----

  lemma PackedStep(before: seq<Instruction>, now: seq<Instruction>, next: seq<Instruction>, i: nat, offset: nat)
    requires i < |now| && Packed(before, now, i, offset)
    requires OnlyAt(i, now, next) && next[i].offset == offset
    ensures Packed(before, next, i + 1, offset + |next[i].encoded|)
  {
    OffsetDependsOnSizes(now, next, i);
    OffsetStep(next, i);
    forall k | 0 <= k < i + 1
      ensures OffsetRecorded(next, k)
    {
      if k < i {
        assert OffsetRecorded(now, k);
        OffsetDependsOnSizes(now, next, k);
      }
    }
  }

  lemma ProcessedStep(a: Arch, before: seq<Instruction>, now: seq<Instruction>, next: seq<Instruction>, i: nat)
    requires i < |now| == |before| && Processed(a, before, now, i) && now[i] == before[i]
    requires OnlyAt(i, now, next)
    requires WellFormedInstruction(a, next[i], |next| + 1) && Reworked(a, before[i], next[i])
    ensures Processed(a, before, next, i + 1)
  {}

  /** When every earlier size is unchanged, the visited offsets are the old ones. */
  lemma UnchangedOffset(before: seq<Instruction>, now: seq<Instruction>, i: nat, offset: nat)
    requires Packed(before, now, i, offset) && LaidOut(before)
    requires forall k | 0 <= k < i :: !Resized(before, now, k)
    ensures offset == OffsetOf(before, i)
    ensures i < |before| ==> before[i].offset == offset
  {
    forall k | 0 <= k < i
      ensures |now[k].encoded| == |before[k].encoded|
    {
      assert !Resized(before, now, k);
    }
    OffsetDependsOnSizes(now, before, i);
    if i < |before| {
      assert OffsetRecorded(before, i);
    }
  }

  /** Equal offsets at `k` and `k + 1` mean an equal size in between. */
  lemma StableSizes(before: seq<Instruction>, now: seq<Instruction>, i: nat, offset: nat, k: nat)
    requires Packed(before, now, i, offset) && LaidOut(before)
    requires Tracked(before, now, i, true)
    requires k < i && offset == OffsetOf(before, i)
    ensures !Resized(before, now, k)
  {
    OffsetStep(before, k);
    OffsetStep(now, k);
    assert OffsetRecorded(now, k) && OffsetRecorded(before, k);
    if k + 1 < i {
      assert OffsetRecorded(now, k + 1) && OffsetRecorded(before, k + 1);
      assert now[k + 1].offset == before[k + 1].offset;
    }
  }

  /** The boundaries as they stand while instruction `i` is visited, in a stable pass. */
  lemma StableBoundary(before: seq<Instruction>, now: seq<Instruction>, i: nat, offset: nat, b: nat)
    requires i < |now| && b <= |now| && LaidOut(before)
    requires Packed(before, now, i + 1, offset)
    requires !Resized(before, now, i)
    requires forall k | 0 <= k < i + 1 :: now[k].offset == before[k].offset
    ensures BoundaryOffset(now, b) == OffsetOf(before, b)
  {
    BoundaryOffsetExact(before, b);
  }

  lemma TrackedStep(a: Arch, before: seq<Instruction>, now: seq<Instruction>, next: seq<Instruction>,
                    i: nat, offset: nat, stable: bool, changed: bool)
    requires i < |now| == |before| && LaidOut(before) && WellFormed(a, before)
    requires Packed(before, now, i, offset) && Tracked(before, now, i, stable)
    requires OnlyAt(i, now, next) && Visited(a, i, offset, now, next, changed)
    ensures Tracked(before, next, i + 1, stable && before[i].offset == offset)
  {
    if stable && before[i].offset == offset {
      PackedStep(before, now, next, i, offset);
      forall k | 0 <= k < i + 1
        ensures SettledAt(before, next, k)
      {
        if k < i {
          assert SettledAt(before, now, k);
        } else if next[i].branch.Valid() && !Resized(before, next, i) {
          StableBoundary(before, next, i, offset + |next[i].encoded|, next[i].branch.boundary.value);
          assert OffsetRecorded(before, i);
        }
      }
    } else if stable {
      ResizedBefore(before, now, i, offset);
      var k :| 0 <= k < i && Resized(before, now, k);
      assert Resized(before, next, k);
    } else {
      var k :| 0 <= k < i && Resized(before, now, k);
      assert Resized(before, next, k);
    }
  }

  lemma ResizedBefore(before: seq<Instruction>, now: seq<Instruction>, i: nat, offset: nat)
    requires i < |now| && Packed(before, now, i, offset) && LaidOut(before)
    requires before[i].offset != offset
    ensures exists k :: 0 <= k < i && Resized(before, now, k)
  {
    if forall k | 0 <= k < i :: !Resized(before, now, k) {
      UnchangedOffset(before, now, i, offset);
    }
  }

  /** In a list whose visited part is unchanged, the asked distance is the real one. */
  lemma AskedExactly(before: seq<Instruction>, now: seq<Instruction>, i: nat, offset: nat)
    requires i < |now| && LaidOut(before) && Packed(before, now, i, offset)
    requires forall k | 0 <= k < i :: !Resized(before, now, k)
    requires before[i].branch.boundary.Some? && before[i].branch.boundary.value <= |before|
    ensures AskedDistance(now, i, offset) == TargetDistance(before, i)
  {
    var b := before[i].branch.boundary.value;
    UnchangedOffset(before, now, i, offset);
    BoundaryOffsetExact(before, b);
    if b < i {
      assert OffsetRecorded(now, b);
      forall k | 0 <= k < b
        ensures |now[k].encoded| == |before[k].encoded|
      {
        assert !Resized(before, now, k);
      }
      OffsetDependsOnSizes(now, before, b);
    }
  }

  lemma NoticedStep(a: Arch, before: seq<Instruction>, now: seq<Instruction>, next: seq<Instruction>,
                    i: nat, offset: nat, modified: bool, changed: bool)
    requires i < |now| == |before| && LaidOut(before) && WellFormed(a, before)
    requires Packed(before, now, i, offset) && Noticed(before, now, i, modified)
    requires OnlyAt(i, now, next) && Visited(a, i, offset, now, next, changed)
    ensures Noticed(before, next, i + 1, modified || changed)
  {
    if !modified {
      assert forall k | 0 <= k < i :: !Resized(before, now, k);
      UnchangedOffset(before, now, i, offset);
      assert WellFormedInstruction(a, before[i], |before| + 1);
      if before[i].branch.Valid() {
        AskedExactly(before, now, i, offset);
        assert ExactAt(before, i) <==> !changed;
      }
    }
  }

  lemma KeptStep(a: Arch, before: seq<Instruction>, now: seq<Instruction>, next: seq<Instruction>,
                 i: nat, offset: nat, changed: bool)
    requires Lawful(a)
    requires i < |now| == |before| && LaidOut(before) && WellFormed(a, before)
    requires Packed(before, now, i, offset) && Processed(a, before, now, i) && Kept(a, before, now, i)
    requires OnlyAt(i, now, next) && Visited(a, i, offset, now, next, changed)
    ensures Kept(a, before, next, i + 1)
  {
    if AllCanonical(a, before) {
      forall k | 0 <= k < i
        ensures !Resized(before, now, k)
      {
        assert Reworked(a, before[k], now[k]);
      }
      forall k | 0 <= k < i + 1
        ensures KeptAt(a, before, next, k)
      {
        if k < i {
          assert KeptAt(a, before, now, k);
        } else if before[i].branch.Valid() {
          assert WellFormedInstruction(a, before[i], |before| + 1);
          AskedExactly(before, now, i, offset);
          ReencodeLaw(a, before[i].encoded, TargetDistance(before, i));
        }
      }
    }
  }

  // ----- a whole pass -----

  /** The state of a pass that has visited `i` instructions. */
  ghost predicate PassState(a: Arch, before: seq<Instruction>, now: seq<Instruction>,
                      i: nat, offset: nat, stable: bool, modified: bool)
  {
    && Packed(before, now, i, offset)
    && Processed(a, before, now, i)
    && Tracked(before, now, i, stable)
    && Noticed(before, now, i, modified)
    && Kept(a, before, now, i)
  }

  lemma PassStep(a: Arch, before: seq<Instruction>, now: seq<Instruction>, next: seq<Instruction>,
                 i: nat, offset: nat, stable: bool, modified: bool, changed: bool)
    requires Lawful(a) && LaidOut(before) && WellFormed(a, before)
    requires i < |now| && PassState(a, before, now, i, offset, stable, modified)
    requires OnlyAt(i, now, next) && Visited(a, i, offset, now, next, changed)
    ensures PassState(a, before, next, i + 1, offset + |next[i].encoded|,
      stable && before[i].offset == offset, modified || changed)
  {
    PackedStep(before, now, next, i, offset);
    ProcessedStep(a, before, now, next, i);
    TrackedStep(a, before, now, next, i, offset, stable, changed);
    NoticedStep(a, before, now, next, i, offset, modified, changed);
    KeptStep(a, before, now, next, i, offset, changed);
  }

  /** The state of a pass, with the lists that its visits came to. */
  ghost predicate PassUnderway(a: Arch, before: seq<Instruction>, now: seq<Instruction>, i: nat, offset: nat,
                               stable: bool, modified: bool, states: seq<seq<Instruction>>)
  {
    PassState(a, before, now, i, offset, stable, modified) && VisitedBy(a, before, now, i, states)
  }

  lemma PassAdvances(a: Arch, before: seq<Instruction>, now: seq<Instruction>, next: seq<Instruction>, i: nat, offset: nat,
                     stable: bool, modified: bool, changed: bool, states: seq<seq<Instruction>>)
    requires Lawful(a) && LaidOut(before) && WellFormed(a, before)
    requires i < |now| && PassUnderway(a, before, now, i, offset, stable, modified, states)
    requires OnlyAt(i, now, next) && Visited(a, i, offset, now, next, changed)
    ensures PassUnderway(a, before, next, i + 1, offset + |next[i].encoded|,
      stable && before[i].offset == offset, modified || changed, states + [next])
  {
    PassStep(a, before, now, next, i, offset, stable, modified, changed);
    VisitOne(a, before, now, next, i, offset, changed, states);
  }

  /** What a finished pass has achieved. */
  ghost predicate PassDone(a: Arch, before: seq<Instruction>, now: seq<Instruction>, stable: bool, modified: bool)
  {
    && LaidOut(now)
    && WellFormed(a, now)
    && AllReworked(a, before, now)
    && (stable ==> Exact(now))
    && (!stable ==> CanonicalCount(a, before) < CanonicalCount(a, now))
    && (modified <==> !Exact(before))
    && (!modified ==> stable && now == before)
    && (AllCanonical(a, before) ==> stable && forall k | 0 <= k < |now| :: KeptAt(a, before, now, k))
  }

  lemma PassEnd(a: Arch, before: seq<Instruction>, now: seq<Instruction>, offset: nat, stable: bool, modified: bool)
    requires LaidOut(before) && WellFormed(a, before)
    requires PassState(a, before, now, |now|, offset, stable, modified)
    ensures offset == ByteSize(now)
    ensures PassDone(a, before, now, stable && ByteSize(before) == offset, modified)
  {
    assert AllReworked(a, before, now);
    CanonicalCountGrows(a, before, now);
    if stable && ByteSize(before) == offset {
      StablePassIsExact(a, before, now, offset);
    } else if stable {
      ResizedSomewhere(before, now, offset);
    } else {
      ResizedIsResized(before, now);
    }
    if !modified {
      assert now == before;
    }
    if AllCanonical(a, before) {
      forall k | 0 <= k < |now|
        ensures !Resized(before, now, k)
      {
        assert Reworked(a, before[k], now[k]);
      }
      UnchangedOffset(before, now, |now|, offset);
    }
  }

  lemma ResizedIsResized(before: seq<Instruction>, now: seq<Instruction>)
    requires |now| == |before|
    requires exists k :: 0 <= k < |now| && Resized(before, now, k)
    ensures exists k | 0 <= k < |now| :: |now[k].encoded| != |before[k].encoded|
  {}

  lemma ResizedSomewhere(before: seq<Instruction>, now: seq<Instruction>, offset: nat)
    requires LaidOut(before) && Packed(before, now, |now|, offset)
    requires ByteSize(before) != offset
    ensures exists k | 0 <= k < |now| :: |now[k].encoded| != |before[k].encoded|
  {
    if forall k | 0 <= k < |now| :: |now[k].encoded| == |before[k].encoded| {
      OffsetDependsOnSizes(now, before, |now|);
    }
  }

  lemma StablePassIsExact(a: Arch, before: seq<Instruction>, now: seq<Instruction>, offset: nat)
    requires LaidOut(before) && Packed(before, now, |now|, offset)
    requires Processed(a, before, now, |now|) && Tracked(before, now, |now|, true)
    requires ByteSize(before) == offset
    ensures Exact(now)
  {
    forall k | 0 <= k < |now|
      ensures |now[k].encoded| == |before[k].encoded|
    {
      StableSizes(before, now, |now|, offset, k);
    }
    forall k | 0 <= k < |now| && now[k].branch.Valid()
      ensures ExactAt(now, k)
    {
      assert SettledAt(before, now, k);
      OffsetDependsOnSizes(now, before, k);
      OffsetDependsOnSizes(now, before, now[k].branch.boundary.value);
    }
  }

  // ----- the order of visits -----

  /** Instruction `i` is visited where the instructions before it end. */
  ghost predicate VisitStep(a: Arch, i: nat, before: seq<Instruction>, now: seq<Instruction>) {
    && i < |before| == |now|
    && WellFormedInstruction(a, before[i], |before| + 1)
    && OnlyAt(i, before, now)
    && exists changed :: Visited(a, i, OffsetOf(before, i), before, now, changed)
  }

  /** The instructions are visited in order, starting with the first; `states` are the lists in between. */
  ghost predicate VisitsInOrder(a: Arch, states: seq<seq<Instruction>>) {
    forall i | 0 <= i < |states| - 1 :: VisitAt(a, states, i)
  }

  ghost predicate VisitAt(a: Arch, states: seq<seq<Instruction>>, i: nat)
    requires i + 1 < |states|
  {
    VisitStep(a, i, states[i], states[i + 1])
  }

  /** The first `i` instructions are visited in order. */
  ghost predicate VisitedUpTo(a: Arch, before: seq<Instruction>, now: seq<Instruction>, i: nat) {
    exists states :: VisitedBy(a, before, now, i, states)
  }

  ghost predicate VisitedBy(a: Arch, before: seq<Instruction>, now: seq<Instruction>, i: nat,
                            states: seq<seq<Instruction>>)
  {
    |states| == i + 1 && states[0] == before && states[i] == now && VisitsInOrder(a, states)
  }

  lemma VisitOne(a: Arch, before: seq<Instruction>, now: seq<Instruction>, next: seq<Instruction>,
                 i: nat, offset: nat, changed: bool, states: seq<seq<Instruction>>)
    requires VisitedBy(a, before, now, i, states) && i < |now| == |next|
    requires WellFormedInstruction(a, now[i], |now| + 1)
    requires OnlyAt(i, now, next) && offset == OffsetOf(now, i) && Visited(a, i, offset, now, next, changed)
    ensures VisitedBy(a, before, next, i + 1, states + [next])
  {
    var states' := states + [next];
    forall k | 0 <= k < |states'| - 1
      ensures VisitAt(a, states', k)
    {
      if k < i {
        assert VisitAt(a, states, k);
      }
    }
  }

  /** All instructions are laid out, and then, in every pass, visited in order. */
  ghost predicate Passes(a: Arch, before: seq<Instruction>, states: seq<seq<Instruction>>) {
    && states != [] && states[0] == Relaid(before)
    && forall p | 0 <= p < |states| - 1 :: PassAt(a, states, p)
  }

  ghost predicate PassAt(a: Arch, states: seq<seq<Instruction>>, p: nat)
    requires p + 1 < |states|
  {
    VisitedUpTo(a, states[p], states[p + 1], |states[p]|)
  }

  lemma PassOne(a: Arch, before: seq<Instruction>, now: seq<Instruction>, states: seq<seq<Instruction>>)
    requires Passes(a, before, states)
    requires VisitedUpTo(a, states[|states| - 1], now, |states[|states| - 1]|)
    ensures Passes(a, before, states + [now])
  {
    var states' := states + [now];
    forall p | 0 <= p < |states'| - 1
      ensures PassAt(a, states', p)
    {
      if p < |states| - 1 {
        assert PassAt(a, states, p);
      }
    }
  }

  /** At most one pass more than there are instructions leads from `before` to `now`. */
  ghost predicate Passed(a: Arch, before: seq<Instruction>, now: seq<Instruction>) {
    exists states :: PassedBy(a, before, now, states)
  }

  ghost predicate PassedBy(a: Arch, before: seq<Instruction>, now: seq<Instruction>, states: seq<seq<Instruction>>) {
    Passes(a, before, states) && states[|states| - 1] == now && |states| <= |before| + 2
  }

  // ----- the whole fixup -----

  /** What a finished fixup has achieved, compared with the program it was given. */
  ghost predicate FixupDone(a: Arch, before: seq<Instruction>, now: seq<Instruction>, modified: bool)
  {
    && LaidOut(now)
    && WellFormed(a, now)
    && Exact(now)
    && AllReworked(a, before, now)
    && Passed(a, before, now)
    && (modified <==> !Exact(before))
    && (!modified ==> now == Relaid(before))
    && (AllCanonical(a, before) ==> forall k | 0 <= k < |now| :: KeptAt(a, before, now, k))
  }

  /** Every instruction is at least a reworked copy of itself when only offsets change. */
  lemma RelaidIsReworked(a: Arch, insns: seq<Instruction>)
    ensures AllReworked(a, insns, Relaid(insns))
  {
    forall k | 0 <= k < |insns|
      ensures Reworked(a, insns[k], Relaid(insns)[k])
    {
      RewrittenAlready(a, insns[k], Relaid(insns)[k]);
    }
  }

  lemma RelaidCanonical(a: Arch, insns: seq<Instruction>)
    requires AllCanonical(a, insns)
    ensures AllCanonical(a, Relaid(insns))
  {}

  lemma SameDistance(s: seq<Instruction>, t: seq<Instruction>, k: nat)
    requires SameShape(s, t) && k < |s|
    requires s[k].branch.boundary.Some? && s[k].branch.boundary.value <= |s|
    ensures TargetDistance(s, k) == TargetDistance(t, k)
  {
    OffsetDependsOnSizes(s, t, k);
    OffsetDependsOnSizes(s, t, s[k].branch.boundary.value);
  }

  lemma KeptFromLaid(a: Arch, laid: seq<Instruction>, before: seq<Instruction>, now: seq<Instruction>, k: nat)
    requires SameShape(laid, before) && k < |now| == |before|
    requires laid[k].encoded == before[k].encoded
    requires KeptAt(a, laid, now, k)
    ensures KeptAt(a, before, now, k)
  {
    if before[k].branch.Valid() && before[k].branch.boundary.Some? && before[k].branch.boundary.value <= |before| {
      SameDistance(laid, before, k);
    }
  }

  /** The first pass over a freshly laid out program, when it is already stable. */
  lemma FirstPassSuffices(a: Arch, before: seq<Instruction>, now: seq<Instruction>, modified: bool)
    requires WellFormed(a, before) && WellFormed(a, Relaid(before))
    requires PassDone(a, Relaid(before), now, true, modified)
    requires Passed(a, before, now)
    ensures FixupDone(a, before, now, modified)
  {
    RelaidIsReworked(a, before);
    ReworkedTransitive(a, before, Relaid(before), now);
    ExactIgnoresOffsets(before);
    if AllCanonical(a, before) {
      RelaidCanonical(a, before);
      forall k | 0 <= k < |now|
        ensures KeptAt(a, before, now, k)
      {
        KeptFromLaid(a, Relaid(before), before, now, k);
      }
    }
  }

  /** An unstable pass leaves work for the next one. */
  ghost predicate Underway(a: Arch, before: seq<Instruction>, now: seq<Instruction>, iteration: nat)
    requires WellFormed(a, before)
  {
    && LaidOut(now)
    && WellFormed(a, now)
    && AllReworked(a, before, now)
    && iteration <= CanonicalCount(a, now)
    && !Exact(before)
    && !AllCanonical(a, before)
  }

  lemma FirstPassUnstable(a: Arch, before: seq<Instruction>, now: seq<Instruction>, modified: bool)
    requires WellFormed(a, before) && WellFormed(a, Relaid(before))
    requires PassDone(a, Relaid(before), now, false, modified)
    ensures modified && Underway(a, before, now, 1)
  {
    RelaidIsReworked(a, before);
    ReworkedTransitive(a, before, Relaid(before), now);
    ExactIgnoresOffsets(before);
    if AllCanonical(a, before) {
      RelaidCanonical(a, before);
    }
  }

  lemma LaterPass(a: Arch, before: seq<Instruction>, mid: seq<Instruction>, now: seq<Instruction>,
                  iteration: nat, stable: bool, modified: bool)
    requires WellFormed(a, before) && Underway(a, before, mid, iteration)
    requires PassDone(a, mid, now, stable, modified)
    requires Passed(a, before, now)
    ensures !stable ==> Underway(a, before, now, iteration + 1)
    ensures stable ==> FixupDone(a, before, now, true)
  {
    ReworkedTransitive(a, before, mid, now);
  }

  /** The state of a fixup after `iteration` passes. */
  ghost predicate FixupState(a: Arch, before: seq<Instruction>, now: seq<Instruction>,
                             iteration: nat, stable: bool, modified: bool, states: seq<seq<Instruction>>)
    requires WellFormed(a, before)
  {
    && Passes(a, before, states) && |states| == iteration + 1 && states[iteration] == now
    && (iteration == 0 ==> !stable && !modified && now == Relaid(before))
    && (iteration > 0 && !stable ==> modified && Underway(a, before, now, iteration))
    && (stable ==> iteration <= |now| + 1 && FixupDone(a, before, now, modified))
  }

  /** One more pass. */
  lemma AnotherPass(a: Arch, before: seq<Instruction>, mid: seq<Instruction>, now: seq<Instruction>,
                    iteration: nat, modified: bool, stable: bool, changed: bool, states: seq<seq<Instruction>>)
    requires WellFormed(a, before) && WellFormed(a, Relaid(before))
    requires FixupState(a, before, mid, iteration, false, modified, states)
    requires PassDone(a, mid, now, stable, changed) && VisitedUpTo(a, mid, now, |mid|)
    ensures FixupState(a, before, now, iteration + 1, stable, modified || changed, states + [now])
  {
    PassOne(a, before, now, states);
    assert PassedBy(a, before, now, states + [now]);
    if iteration > 0 {
      LaterPass(a, before, mid, now, iteration, stable, changed);
    } else if stable {
      FirstPassSuffices(a, before, now, changed);
    } else {
      FirstPassUnstable(a, before, now, changed);
    }
  }
}
