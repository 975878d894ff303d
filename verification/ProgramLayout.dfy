/**
  Sequences of instructions as values: where instructions lie, what it means for branches
  to be consistent and to be encoded exactly, and the effect of every edit.
 */
module ProgramLayout {
  import opened Wrappers
  import opened Instructions

  // ----- offsets -----

  /** The number of bytes before instruction `k`. */
  function OffsetOf(insns: seq<Instruction>, k: nat): nat
    requires k <= |insns|
    decreases k
  {
    if k == 0 then 0 else OffsetOf(insns, k - 1) + |insns[k - 1].encoded|
  }

  lemma OffsetStep(insns: seq<Instruction>, k: nat)
    requires k < |insns|
    ensures OffsetOf(insns, k + 1) == OffsetOf(insns, k) + |insns[k].encoded|
  {}

  function ByteSize(insns: seq<Instruction>): nat {
    OffsetOf(insns, |insns|)
  }

  /** The instructions are packed end to end, and every one knows its offset. */
  predicate LaidOut(insns: seq<Instruction>) {
    forall k | 0 <= k < |insns| :: OffsetRecorded(insns, k)
  }

  predicate OffsetRecorded(insns: seq<Instruction>, k: nat)
    requires k < |insns|
  {
    insns[k].offset == OffsetOf(insns, k)
  }

  /** The first `k` instructions, laid out. */
  function RelaidUpTo(insns: seq<Instruction>, k: nat): (r: seq<Instruction>)
    requires k <= |insns|
    ensures |r| == k
    ensures forall j {:trigger r[j]} | 0 <= j < k ::
      r[j].encoded == insns[j].encoded && r[j].branch == insns[j].branch
    decreases k
  {
    if k == 0 then []
    else RelaidUpTo(insns, k - 1) + [insns[k - 1].(offset := OffsetOf(insns, k - 1))]
  }

  /** The same instructions, laid out: what recomputing all offsets leaves. */
  function Relaid(insns: seq<Instruction>): (r: seq<Instruction>)
    ensures SameButOffsets(r, insns)
  {
    RelaidUpTo(insns, |insns|)
  }

  predicate SameButOffsets(s: seq<Instruction>, t: seq<Instruction>) {
    && |s| == |t|
    && forall k {:trigger s[k]} | 0 <= k < |s| :: s[k].encoded == t[k].encoded && s[k].branch == t[k].branch
  }

  lemma {:induction false} RelaidOffset(insns: seq<Instruction>, k: nat, j: nat)
    requires j < k <= |insns|
    ensures RelaidUpTo(insns, k)[j] == insns[j].(offset := OffsetOf(insns, j))
    decreases k
  {
    if j < k - 1 {
      RelaidOffset(insns, k - 1, j);
    }
  }

  /** The recorded offset of an instruction boundary; the last one is the end of the program. */
  function BoundaryOffset(insns: seq<Instruction>, b: nat): nat
    requires 0 < |insns| && b <= |insns|
  {
    if b < |insns| then insns[b].offset else insns[|insns| - 1].offset + |insns[|insns| - 1].encoded|
  }

  lemma {:induction false} OffsetDependsOnSizes(s: seq<Instruction>, t: seq<Instruction>, k: nat)
    requires k <= |s| && k <= |t|
    requires forall j | 0 <= j < k :: |s[j].encoded| == |t[j].encoded|
    ensures OffsetOf(s, k) == OffsetOf(t, k)
    decreases k
  {
    if k > 0 {
      OffsetDependsOnSizes(s, t, k - 1);
    }
  }

  lemma RelaidIsLaidOut(insns: seq<Instruction>)
    ensures LaidOut(Relaid(insns))
    ensures ByteSize(Relaid(insns)) == ByteSize(insns)
  {
    var r := Relaid(insns);
    OffsetDependsOnSizes(r, insns, |insns|);
    forall k | 0 <= k < |r|
      ensures OffsetRecorded(r, k)
    {
      RelaidOffset(insns, |insns|, k);
      OffsetDependsOnSizes(r, insns, k);
    }
  }

  /** The layout of a program is determined by its encodings. */
  lemma LayoutIsUnique(s: seq<Instruction>, t: seq<Instruction>)
    requires SameButOffsets(s, t) && LaidOut(s) && LaidOut(t)
    ensures s == t
  {
    forall k | 0 <= k < |s|
      ensures s[k] == t[k]
    {
      assert OffsetRecorded(s, k) && OffsetRecorded(t, k);
      OffsetDependsOnSizes(s, t, k);
    }
  }

  /** In a laid out program the recorded boundaries are the real ones. */
  lemma BoundaryOffsetExact(insns: seq<Instruction>, b: nat)
    requires 0 < |insns| && b <= |insns| && LaidOut(insns)
    ensures BoundaryOffset(insns, b) == OffsetOf(insns, b)
  {
    if b == |insns| {
      assert OffsetRecorded(insns, b - 1);
      OffsetStep(insns, b - 1);
    } else {
      assert OffsetRecorded(insns, b);
    }
  }

  // ----- consistency -----

  /** What `CheckConsistency` demands of one displacement. */
  predicate ConsistentBranch(info: DisplacementInfo, numBoundaries: nat) {
    if info.Valid() then info.boundary.Some? && info.boundary.value < numBoundaries else info.boundary.None?
  }

  /** The recorded displacement is the one that the bytes encode. */
  predicate InSync(a: Arch, insn: Instruction) {
    && 0 < |insn.encoded| <= a.bufferSize
    && (insn.branch.Valid() ==> a.displacementOf(insn.encoded) == insn.branch.byteDisplacement)
  }

  /** An instruction that may stand in a program with `numBoundaries` boundaries. */
  predicate WellFormedInstruction(a: Arch, insn: Instruction, numBoundaries: nat) {
    InSync(a, insn) && ConsistentBranch(insn.branch, numBoundaries)
  }

  predicate WellFormedBlock(a: Arch, insns: seq<Instruction>, numBoundaries: nat) {
    forall k | 0 <= k < |insns| :: WellFormedInstruction(a, insns[k], numBoundaries)
  }

  predicate WellFormed(a: Arch, insns: seq<Instruction>) {
    WellFormedBlock(a, insns, |insns| + 1)
  }

  /** The distance a branch has to cover. */
  function TargetDistance(insns: seq<Instruction>, k: nat): int
    requires k < |insns| && insns[k].branch.boundary.Some? && insns[k].branch.boundary.value <= |insns|
  {
    OffsetOf(insns, insns[k].branch.boundary.value) - OffsetOf(insns, k)
  }

  /** Every branch has its boundary within the program and records exactly that distance. */
  predicate Exact(insns: seq<Instruction>) {
    forall k {:trigger ExactAt(insns, k)} | 0 <= k < |insns| && insns[k].branch.Valid() :: ExactAt(insns, k)
  }

  predicate ExactAt(insns: seq<Instruction>, k: nat)
    requires k < |insns|
  {
    && insns[k].branch.boundary.Some?
    && insns[k].branch.boundary.value <= |insns|
    && insns[k].branch.byteDisplacement == Some(TargetDistance(insns, k))
  }

  /** The two programs differ in recorded offsets at most, as far as `Exact` can see. */
  predicate SameShape(s: seq<Instruction>, t: seq<Instruction>) {
    && |s| == |t|
    && (forall k | 0 <= k < |s| :: |s[k].encoded| == |t[k].encoded|)
    && (forall k | 0 <= k < |s| :: s[k].branch == t[k].branch)
  }

  lemma ExactOfShape(s: seq<Instruction>, t: seq<Instruction>)
    requires SameShape(s, t) && Exact(s)
    ensures Exact(t)
  {
    forall k | 0 <= k < |t| && t[k].branch.Valid()
      ensures ExactAt(t, k)
    {
      assert ExactAt(s, k);
      OffsetDependsOnSizes(s, t, k);
      OffsetDependsOnSizes(s, t, s[k].branch.boundary.value);
    }
  }

  lemma ExactIgnoresOffsets(insns: seq<Instruction>)
    ensures Exact(Relaid(insns)) <==> Exact(insns)
  {
    if Exact(insns) {
      ExactOfShape(insns, Relaid(insns));
    }
    if Exact(Relaid(insns)) {
      ExactOfShape(Relaid(insns), insns);
    }
  }

  // ----- canonical forms -----

  /** How many instructions have an encoding that no longer changes size. */
  function CanonicalCount(a: Arch, insns: seq<Instruction>): (n: nat)
    ensures n <= |insns|
  {
    if insns == [] then 0
    else (if a.canonical(insns[0].encoded) then 1 else 0) + CanonicalCount(a, insns[1..])
  }

  predicate AllCanonical(a: Arch, insns: seq<Instruction>) {
    forall k | 0 <= k < |insns| && insns[k].branch.Valid() :: a.canonical(insns[k].encoded)
  }

  // ----- re-encoding a branch again and again -----

  /** Bytes that were re-encoded for some displacements, one after the other. */
  function ReencodedAlong(a: Arch, bytes: seq<bv8>, ds: seq<int>): seq<bv8> {
    if ds == [] then bytes else a.reencode(ReencodedAlong(a, bytes, ds[..|ds| - 1]), ds[|ds| - 1]).0
  }

  /** `now` holds the bytes of `before` re-encoded for some displacements, and records the last of these. */
  predicate RewrittenBy(a: Arch, before: Instruction, now: Instruction, ds: seq<int>) {
    && now.encoded == ReencodedAlong(a, before.encoded, ds)
    && now.branch.byteDisplacement == if ds == [] then before.branch.byteDisplacement else Some(ds[|ds| - 1])
  }

  ghost predicate Rewritten(a: Arch, before: Instruction, now: Instruction) {
    exists ds :: RewrittenBy(a, before, now, ds)
  }

  lemma {:induction false} AlongBoth(a: Arch, bytes: seq<bv8>, ds: seq<int>, es: seq<int>)
    ensures ReencodedAlong(a, bytes, ds + es) == ReencodedAlong(a, ReencodedAlong(a, bytes, ds), es)
    decreases |es|
  {
    if es == [] {
      assert ds + es == ds;
    } else {
      AlongBoth(a, bytes, ds, es[..|es| - 1]);
      assert (ds + es)[..|ds + es| - 1] == ds + es[..|es| - 1];
    }
  }

  lemma RewrittenTransitive(a: Arch, s: Instruction, t: Instruction, u: Instruction)
    requires Rewritten(a, s, t) && Rewritten(a, t, u)
    ensures Rewritten(a, s, u)
  {
    var ds :| RewrittenBy(a, s, t, ds);
    var es :| RewrittenBy(a, t, u, es);
    AlongBoth(a, s.encoded, ds, es);
    assert RewrittenBy(a, s, u, ds + es);
  }

  lemma RewrittenAlready(a: Arch, before: Instruction, now: Instruction)
    requires now.encoded == before.encoded && now.branch.byteDisplacement == before.branch.byteDisplacement
    ensures Rewritten(a, before, now)
  {
    assert RewrittenBy(a, before, now, []);
  }

  /** `now` is `before` after its branch, if it has one, was re-encoded any number of times. */
  ghost predicate Reworked(a: Arch, before: Instruction, now: Instruction) {
    && Rewritten(a, before, now)
    && now.branch.Valid() == before.branch.Valid()
    && (!now.branch.Valid() ==> now.encoded == before.encoded && now.branch == before.branch)
    && (a.canonical(before.encoded) ==> a.canonical(now.encoded) && |now.encoded| == |before.encoded|)
    && (|now.encoded| != |before.encoded| ==> a.canonical(now.encoded))
    && (a.acceptable(before.encoded) ==> a.acceptable(now.encoded))
  }

  ghost predicate AllReworked(a: Arch, before: seq<Instruction>, now: seq<Instruction>) {
    |now| == |before| && forall k | 0 <= k < |now| :: Reworked(a, before[k], now[k])
  }

  lemma ReworkedTransitive(a: Arch, s: seq<Instruction>, t: seq<Instruction>, u: seq<Instruction>)
    requires AllReworked(a, s, t) && AllReworked(a, t, u)
    ensures AllReworked(a, s, u)
  {
    forall k | 0 <= k < |s|
      ensures Reworked(a, s[k], u[k])
    {
      assert Reworked(a, s[k], t[k]) && Reworked(a, t[k], u[k]);
      RewrittenTransitive(a, s[k], t[k], u[k]);
    }
  }

  /** Re-encoding never loses a canonical form, and gains one whenever a size changes. */
  lemma {:induction false} CanonicalCountGrows(a: Arch, before: seq<Instruction>, now: seq<Instruction>)
    requires AllReworked(a, before, now)
    ensures CanonicalCount(a, before) <= CanonicalCount(a, now)
    ensures (exists k | 0 <= k < |now| :: |now[k].encoded| != |before[k].encoded|) ==>
      CanonicalCount(a, before) < CanonicalCount(a, now)
    decreases |now|
  {
    if now != [] {
      assert Reworked(a, before[0], now[0]);
      forall k | 0 <= k < |now[1..]|
        ensures Reworked(a, before[1..][k], now[1..][k])
      {
        assert Reworked(a, before[k + 1], now[k + 1]);
      }
      CanonicalCountGrows(a, before[1..], now[1..]);
      if k :| 0 <= k < |now| && |now[k].encoded| != |before[k].encoded| && k > 0 {
        assert |now[1..][k - 1].encoded| != |before[1..][k - 1].encoded|;
      }
    }
  }
}
