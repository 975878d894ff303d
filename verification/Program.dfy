/**
  The program editor of the fuzzer: a list of instructions with symbolic branch targets,
  and the pass that brings the encoded displacements back in line with them.
 */
module Programs {
  import opened Wrappers
  import opened Instructions
  import opened ProgramLayout
  import opened Encodings
  import opened FixupPasses
  import opened ProgramEdits
  import opened ProgramDecoding
  import opened MutatorRngs

  /** `moved` is `insn` with its boundary, if it has a branch, drawn at random. */
  predicate Redrawn(insn: Instruction, moved: Instruction, draws: nat -> nat, k: nat, numBoundaries: nat)
    requires 0 < numBoundaries
  {
    if insn.branch.Valid() then
      && moved.branch.boundary.Some?
      && moved.branch.boundary.value < numBoundaries
      && Hits(draws, k, numBoundaries, moved.branch.boundary.value)
      && moved == insn.(branch := insn.branch.(boundary := moved.branch.boundary))
    else moved == insn
  }

  /** Without a draw the boundary is the same; otherwise it is the last one drawn. */
  predicate RedrawnLast(before: Instruction, now: Instruction, draws: nat -> nat, from: nat, to: nat, numBoundaries: nat)
    requires 0 < numBoundaries
  {
    && from <= to
    && now.branch.boundary ==
         if from == to then before.branch.boundary else Some(IndexDrawn(draws, to - 1, numBoundaries))
  }

  /** The branch of instruction `i` records the distance to its boundary. */
  predicate SyncedAt(insns: seq<Instruction>, i: nat)
    requires i < |insns|
  {
    && insns[i].branch.boundary.Some?
    && insns[i].branch.boundary.value <= |insns|
    && insns[i].branch.byteDisplacement ==
         Some(BoundaryOffset(insns, insns[i].branch.boundary.value) - insns[i].offset)
  }

  /** `now` is a state of re-encoding instruction `i` of `before`, with the draws from `from` up to `next`. */
  ghost predicate Retrying(a: Arch, i: nat, before: seq<Instruction>, now: seq<Instruction>, d: int, once: bool, ok: bool,
                           draws: nat -> nat, from: nat, next: nat, numBoundaries: nat)
    requires i < |before|
  {
    && OnlyAt(i, before, now)
    && Attempt(a, before[i], now[i], d, once, ok)
    && now[i].branch.boundary.Some? && now[i].branch.boundary.value <= |now|
    && (|now[i].encoded| == |before[i].encoded| ==> SyncedAt(now, i))
    && numBoundaries == |now| + 1
    && RedrawnLast(before[i], now[i], draws, from, next, numBoundaries)
  }

  lemma SyncedStill(i: nat, before: seq<Instruction>, now: seq<Instruction>)
    requires i < |before| && OnlyAt(i, before, now) && now[i] == before[i].(encoded := now[i].encoded)
    requires SyncedAt(before, i)
    ensures |now[i].encoded| == |before[i].encoded| ==> SyncedAt(now, i)
  {
    if |now[i].encoded| == |before[i].encoded| {
      SameBoundaryOffset(i, before, now, before[i].branch.boundary.value);
    }
  }

  lemma FirstTry(a: Arch, i: nat, before: seq<Instruction>, now: seq<Instruction>, d: int,
                 draws: nat -> nat, from: nat, numBoundaries: nat)
    requires Lawful(a) && i < |before| && SyncedAt(before, i) && a.Branch(before[i].encoded)
    requires before[i].branch.byteDisplacement == Some(d) && numBoundaries == |before| + 1
    requires now == before[i := before[i].(encoded := a.reencode(before[i].encoded, d).0)]
    ensures Retrying(a, i, before, now, d, true, a.reencode(before[i].encoded, d).1, draws, from, from, numBoundaries)
  {
    FirstAttempt(a, before[i], d);
    SyncedStill(i, before, now);
  }

  lemma BeforeRetry(a: Arch, i: nat, before: seq<Instruction>, now: seq<Instruction>, d: int, once: bool,
                    draws: nat -> nat, from: nat, next: nat, numBoundaries: nat)
    requires i < |before| && SyncedAt(before, i) && before[i].branch.byteDisplacement == Some(d)
    requires Retrying(a, i, before, now, d, once, false, draws, from, next, numBoundaries)
    ensures |now[i].encoded| == |before[i].encoded| ==>
      d == BoundaryOffset(now, before[i].branch.boundary.value) - before[i].offset
  {
    if |now[i].encoded| == |before[i].encoded| {
      SameBoundaryOffset(i, before, now, before[i].branch.boundary.value);
    }
  }

  lemma AfterRetry(a: Arch, i: nat, before: seq<Instruction>, mid: seq<Instruction>, now: seq<Instruction>, d: int,
                   once: bool, ok: bool, draws: nat -> nat, from: nat, next: nat, numBoundaries: nat)
    requires 0 < numBoundaries && i < |before| && Retrying(a, i, before, mid, d, once, false, draws, from, next, numBoundaries)
    requires OnlyAt(i, mid, now) && |now[i].encoded| == |mid[i].encoded| && SyncedAt(now, i)
    requires Attempt(a, before[i], now[i], d, false, ok)
    requires now[i].branch.boundary == Some(IndexDrawn(draws, next, numBoundaries))
    ensures Retrying(a, i, before, now, d, false, ok, draws, from, next + 1, numBoundaries)
  {}

  lemma RetriesDone(a: Arch, i: nat, before: seq<Instruction>, now: seq<Instruction>, d: int, once: bool,
                    draws: nat -> nat, from: nat, next: nat, numBoundaries: nat)
    requires i < |before| && SyncedAt(before, i) && 0 < |before[i].encoded|
    requires Retrying(a, i, before, now, d, once, true, draws, from, next, numBoundaries)
    ensures WellFormedInstruction(a, now[i], |now| + 1)
    ensures Reworked(a, before[i], now[i])
    ensures Fitted(a, before[i], now[i], d)
  {
    AttemptSucceeded(a, before[i], now[i], d, once, |now| + 1);
  }

  lemma VisitInSync(a: Arch, i: nat, offset: nat, before: seq<Instruction>, now: seq<Instruction>)
    requires i < |before| && WellFormedInstruction(a, before[i], |before| + 1)
    requires now == before[i := before[i].(offset := offset)]
    requires before[i].branch.Valid() ==> before[i].branch.byteDisplacement == Some(AskedDistance(before, i, offset))
    ensures Visited(a, i, offset, before, now, false)
  {
    RewrittenAlready(a, before[i], now[i]);
  }

  lemma VisitOutOfSync(a: Arch, i: nat, offset: nat, before: seq<Instruction>, mid: seq<Instruction>, now: seq<Instruction>)
    requires i < |before| && WellFormedInstruction(a, before[i], |before| + 1) && before[i].branch.Valid()
    requires var d := AskedDistance(before, i, offset);
      && before[i].branch.byteDisplacement != Some(d)
      && mid == before[i := Instruction(before[i].encoded, before[i].branch.(byteDisplacement := Some(d)), offset)]
    requires OnlyAt(i, mid, now) && now[i].offset == offset
    requires Fitted(a, mid[i], now[i], AskedDistance(before, i, offset))
    requires WellFormedInstruction(a, now[i], |now| + 1) && Reworked(a, mid[i], now[i])
    requires |now[i].encoded| == |mid[i].encoded| ==> SyncedAt(now, i)
    ensures Visited(a, i, offset, before, now, true)
  {
    SyncedFirst(a, before[i], mid[i], now[i], AskedDistance(before, i, offset));
  }

  /** Points the branch of an instruction, if it has one, to a random boundary. */
  method RandomizeInstructionDisplacementBoundaries(insn: Instruction, numBoundaries: nat, rng: MutatorRng)
    returns (moved: Instruction)
    requires 0 < numBoundaries
    modifies rng
    ensures rng.next == if insn.branch.Valid() then old(rng.next) + 1 else old(rng.next)
    ensures Redrawn(insn, moved, rng.draws, old(rng.next), numBoundaries)
  {
    moved := insn;
    if insn.branch.Valid() {
      var b := rng.RandomIndex(numBoundaries);
      moved := insn.(branch := insn.branch.(boundary := Some(b)));
    }
  }

  lemma AppendOne(s: seq<Instruction>, x: Instruction, t: seq<Instruction>)
    ensures s + ([x] + t) == (s + [x]) + t
  {}

  class Program {
    const arch: Arch
    var instructions: seq<Instruction>
    var byteLen: nat
    var encodingsMayBeInvalid: bool

    ghost predicate Valid()
      reads this
    {
      && WellFormed(arch, instructions)
      && byteLen == ByteSize(instructions)
      && (!encodingsMayBeInvalid ==> LaidOut(instructions) && Exact(instructions))
    }

    /** Recomputes every offset and the program size. */
    method FixupInvariants()
      modifies this`instructions, this`byteLen
      ensures instructions == Relaid(old(instructions))
      ensures byteLen == ByteSize(instructions)
    {
      ghost var before := instructions;
      ghost var after := Relaid(before);
      var offset := 0;
      for i := 0 to |instructions|
        invariant |instructions| == |before|
        invariant offset == OffsetOf(before, i)
        invariant forall k | 0 <= k < i :: instructions[k] == after[k]
        invariant forall k | i <= k < |before| :: instructions[k] == before[k]
      {
        RelaidOffset(before, |before|, i);
        OffsetStep(before, i);
        var insn := instructions[i];
        instructions := instructions[i := insn.(offset := offset)];
        offset := offset + |insn.encoded|;
      }
      byteLen := offset;
      RelaidIsLaidOut(before);
    }

    /** Makes the displacement of instruction `i` match its boundary; tells whether it changed. */
    method SyncByteDisplacement(i: nat) returns (changed: bool)
      requires i < |instructions|
      requires ConsistentBranch(instructions[i].branch, |instructions| + 1)
      modifies this`instructions
      ensures !old(instructions)[i].branch.Valid() ==> !changed && instructions == old(instructions)
      ensures old(instructions)[i].branch.Valid() ==>
        var insn := old(instructions)[i];
        var target := BoundaryOffset(old(instructions), insn.branch.boundary.value) - insn.offset;
        && changed == (insn.branch.byteDisplacement != Some(target))
        && instructions == old(instructions)[i := insn.(branch := insn.branch.(byteDisplacement := Some(target)))]
    {
      var insn := instructions[i];
      if !insn.branch.Valid() {
        return false;
      }
      var target := BoundaryOffset(instructions, insn.branch.boundary.value) - insn.offset;
      if Some(target) == insn.branch.byteDisplacement {
        return false;
      }
      instructions := instructions[i := insn.(branch := insn.branch.(byteDisplacement := Some(target)))];
      return true;
    }

    /** Rewrites the bytes of instruction `i` for its displacement, in place. */
    method TryToReencodeInstructionDisplacements(i: nat) returns (ok: bool)
      requires i < |instructions| && instructions[i].branch.Valid()
      modifies this`instructions
      ensures
        var insn := old(instructions)[i];
        var r := arch.reencode(insn.encoded, insn.branch.byteDisplacement.value);
        ok == r.1 && instructions == old(instructions)[i := insn.(encoded := r.0)]
    {
      var insn := instructions[i];
      var r := arch.reencode(insn.encoded, insn.branch.byteDisplacement.value);
      instructions := instructions[i := insn.(encoded := r.0)];
      ok := r.1;
    }

    /** The branch of instruction `i` records the distance to its boundary as laid out now. */
    predicate Synced(i: nat)
      requires i < |instructions|
      reads this
    {
      SyncedAt(instructions, i)
    }

    /** One more attempt, with a random boundary. */
    method RetryElsewhere(i: nat, rng: MutatorRng, ghost was: Instruction, ghost d: int, ghost once: bool, ghost numBoundaries: nat)
      returns (ok: bool)
      requires Lawful(arch) && i < |instructions| && numBoundaries == |instructions| + 1
      requires Attempt(arch, was, instructions[i], d, once, false)
      requires was.branch.boundary.Some? && was.branch.boundary.value <= |instructions|
      requires |instructions[i].encoded| == |was.encoded| ==>
        d == BoundaryOffset(instructions, was.branch.boundary.value) - was.offset
      modifies this`instructions, rng
      ensures OnlyAt(i, old(instructions), instructions)
      ensures Attempt(arch, was, instructions[i], d, false, ok)
      ensures |instructions[i].encoded| == |old(instructions)[i].encoded|
      ensures Synced(i)
      ensures rng.next == old(rng.next) + 1
      ensures instructions[i].branch.boundary == Some(IndexDrawn(rng.draws, old(rng.next), numBoundaries))
      ensures instructions[i].branch.boundary == Some(i) ==> ok
    {
      var cur := instructions[i];
      var moved := RandomizeInstructionDisplacementBoundaries(cur, |instructions| + 1, rng);
      instructions := instructions[i := moved];
      var _ := SyncByteDisplacement(i);
      ghost var info := instructions[i].branch;
      ReencodeLaw(arch, cur.encoded, info.byteDisplacement.value);
      NextAttempt(arch, was, cur, d, once, info.boundary.value, info.byteDisplacement.value);
      ok := TryToReencodeInstructionDisplacements(i);
    }

    /** Re-encodes a branch, moving it to random boundaries until one can be encoded. */
    method ReencodeUntilEncodable(i: nat, rng: MutatorRng)
      requires Lawful(arch) && Fair(rng.draws)
      requires i < |instructions| && Synced(i) && arch.Branch(instructions[i].encoded)
      modifies this`instructions, rng
      ensures OnlyAt(i, old(instructions), instructions)
      ensures instructions[i].offset == old(instructions)[i].offset
      ensures WellFormedInstruction(arch, instructions[i], |instructions| + 1)
      ensures Reworked(arch, old(instructions)[i], instructions[i])
      ensures |instructions[i].encoded| == |old(instructions)[i].encoded| ==> Synced(i)
      ensures Fitted(arch, old(instructions)[i], instructions[i], old(instructions)[i].branch.byteDisplacement.value)
      ensures RedrawnLast(old(instructions)[i], instructions[i], rng.draws, old(rng.next), rng.next, |instructions| + 1)
    {
      ghost var before, from := instructions, rng.next;
      ghost var was, d := before[i], before[i].branch.byteDisplacement.value;
      var ok := TryToReencodeInstructionDisplacements(i);
      ghost var once, numBoundaries := true, |before| + 1;
      FirstTry(arch, i, before, instructions, d, rng.draws, from, numBoundaries);
      assert Reaches(rng.draws, rng.next, numBoundaries, i);
      ghost var hit: nat :| rng.next <= hit && Hits(rng.draws, hit, numBoundaries, i);
      while !ok
        invariant Retrying(arch, i, before, instructions, d, once, ok, rng.draws, from, rng.next, numBoundaries)
        invariant !ok ==> rng.next <= hit
        decreases if ok then 0 else 1 + hit - rng.next
      {
        ghost var mid, drawn := instructions, rng.next;
        BeforeRetry(arch, i, before, mid, d, once, rng.draws, from, drawn, numBoundaries);
        ok := RetryElsewhere(i, rng, was, d, once, numBoundaries);
        AfterRetry(arch, i, before, mid, instructions, d, once, ok, rng.draws, from, drawn, numBoundaries);
        once := false;
      }
      RetriesDone(arch, i, before, instructions, d, once, rng.draws, from, rng.next, numBoundaries);
    }

    /** The visit of one instruction: records its offset, and re-encodes it if it is out of sync. */
    method FixupInstruction(i: nat, offset: nat, rng: MutatorRng) returns (changed: bool)
      requires Lawful(arch) && Fair(rng.draws)
      requires i < |instructions| && WellFormedInstruction(arch, instructions[i], |instructions| + 1)
      modifies this`instructions, rng
      ensures OnlyAt(i, old(instructions), instructions)
      ensures Visited(arch, i, offset, old(instructions), instructions, changed)
    {
      ghost var before := instructions;
      instructions := instructions[i := instructions[i].(offset := offset)];
      changed := SyncByteDisplacement(i);
      if changed {
        ghost var mid := instructions;
        ReencodeUntilEncodable(i, rng);
        VisitOutOfSync(arch, i, offset, before, mid, instructions);
      } else {
        VisitInSync(arch, i, offset, before, instructions);
      }
    }

    /** One pass over all instructions; `stable` says that nothing moved. */
    method FixupPass(rng: MutatorRng) returns (stable: bool, modified: bool)
      requires Lawful(arch) && Fair(rng.draws)
      requires WellFormed(arch, instructions) && LaidOut(instructions) && byteLen == ByteSize(instructions)
      modifies this`instructions, this`byteLen, rng
      ensures PassDone(arch, old(instructions), instructions, stable, modified)
      ensures VisitedUpTo(arch, old(instructions), instructions, |old(instructions)|)
      ensures byteLen == ByteSize(instructions)
    {
      ghost var before := instructions;
      var offset: nat := 0;
      stable, modified := true, false;
      ghost var states := [before];
      for i := 0 to |instructions|
        invariant |instructions| == |before| && byteLen == ByteSize(before)
        invariant PassUnderway(arch, before, instructions, i, offset, stable, modified, states)
      {
        ghost var now := instructions;
        assert WellFormedInstruction(arch, before[i], |before| + 1);
        var inPlace := instructions[i].offset == offset;
        var changed := FixupInstruction(i, offset, rng);
        PassAdvances(arch, before, now, instructions, i, offset, stable, modified, changed, states);
        states := states + [instructions];
        stable := stable && inPlace;
        modified := modified || changed;
        offset := offset + |instructions[i].encoded|;
      }
      PassEnd(arch, before, instructions, offset, stable, modified);
      stable := stable && byteLen == offset;
      byteLen := offset;
    }

    /**
      Brings every encoded displacement in line with its boundary, repeating the pass until
      nothing moves.  `passes` counts the passes; the bound on it is the one the fixup checks.
     */
    method FixupEncodedDisplacements(rng: MutatorRng) returns (modified: bool, ghost passes: nat)
      requires Lawful(arch) && Fair(rng.draws) && Valid()
      modifies this, rng
      ensures Valid() && !encodingsMayBeInvalid
      ensures FixupDone(arch, old(instructions), instructions, modified)
      ensures passes <= |instructions| + 1
    {
      ghost var before := instructions;
      FixupInvariants();
      RelaidIsLaidOut(before);
      RelaidWellFormed(arch, before);
      modified := false;
      var stable := false;
      var iteration := 0;
      ghost var states := [instructions];
      while !stable
        invariant byteLen == ByteSize(instructions)
        invariant FixupState(arch, before, instructions, iteration, stable, modified, states)
        decreases if stable then 0 else 1, if iteration == 0 then 1 else 0, |before| - CanonicalCount(arch, instructions)
      {
        assert iteration <= |instructions|;
        ghost var mid := instructions;
        var changed;
        stable, changed := FixupPass(rng);
        AnotherPass(arch, before, mid, instructions, iteration, modified, stable, changed, states);
        states := states + [instructions];
        modified := modified || changed;
        iteration := iteration + 1;
      }
      encodingsMayBeInvalid := false;
      passes := iteration;
    }

    // ----- edits -----

    method SetInstructionBlock(index: nat, insns: seq<Instruction>)
      requires Valid() && index + |insns| <= |instructions|
      requires WellFormedBlock(arch, insns, |instructions| + 1)
      modifies this
      ensures Valid()
      ensures instructions == Overwritten(old(instructions), index, insns)
      ensures encodingsMayBeInvalid
    {
      ghost var before := instructions;
      assert Overwritten(before, index, insns[..0]) == before;
      for i := 0 to |insns|
        invariant instructions == Overwritten(before, index, insns[..i])
        invariant byteLen == ByteSize(instructions)
      {
        OverwrittenStep(before, index, insns, i);
        SizeOfUpdate(instructions, index + i, insns[i]);
        byteLen := byteLen - |instructions[index + i].encoded|;
        byteLen := byteLen + |insns[i].encoded|;
        instructions := instructions[index + i := insns[i]];
      }
      assert insns[..|insns|] == insns;
      OverwritingWellFormed(arch, before, index, insns);
      encodingsMayBeInvalid := true;
    }

    method SetInstruction(index: nat, insn: Instruction)
      requires Valid() && index < |instructions|
      requires WellFormedInstruction(arch, insn, |instructions| + 1)
      modifies this
      ensures Valid()
      ensures instructions == old(instructions)[index := insn]
      ensures encodingsMayBeInvalid
    {
      SetInstructionBlock(index, [insn]);
    }

    /** Moves every boundary from `boundary` on by `amount`. */
    method AdjustInstructionIndexes(boundary: nat, amount: int)
      requires boundary <= |instructions| + 1 && 0 <= boundary + amount
      modifies this`instructions
      ensures instructions == Adjusted(old(instructions), boundary, amount)
    {
      ghost var before := instructions;
      ghost var after := Adjusted(before, boundary, amount);
      for i := 0 to |instructions|
        invariant |instructions| == |before|
        invariant forall k | 0 <= k < i :: instructions[k] == after[k]
        invariant forall k | i <= k < |before| :: instructions[k] == before[k]
      {
        var insn := instructions[i];
        if insn.branch.Valid() {
          if insn.branch.boundary.Some? && insn.branch.boundary.value >= boundary {
            instructions := instructions[i :=
              insn.(branch := insn.branch.(boundary := Some(insn.branch.boundary.value + amount)))];
          }
        }
      }
    }

    /** Inserts a block as it is; a block that fits the longer program keeps the program consistent. */
    method InsertInstructionBlock(boundary: nat, stealDisplacements: bool, insns: seq<Instruction>)
      requires Valid() && boundary <= |instructions|
      modifies this
      ensures WellFormedBlock(arch, insns, |old(instructions)| + |insns| + 1) ==> Valid()
      ensures instructions == Relaid(Inserted(old(instructions), boundary, stealDisplacements, insns))
      ensures byteLen == ByteSize(instructions)
      ensures encodingsMayBeInvalid
    {
      ghost var before := instructions;
      var adjusted := boundary;
      if stealDisplacements {
        adjusted := adjusted + 1;
      }
      AdjustInstructionIndexes(adjusted, |insns|);
      instructions := instructions[..boundary] + insns + instructions[boundary..];
      encodingsMayBeInvalid := true;
      assert instructions == Inserted(before, boundary, stealDisplacements, insns);
      if WellFormedBlock(arch, insns, |before| + |insns| + 1) {
        InsertionWellFormed(arch, before, boundary, stealDisplacements, insns);
        RelaidWellFormed(arch, instructions);
      }
      RelaidIsLaidOut(instructions);
      FixupInvariants();
    }

    method InsertInstruction(boundary: nat, stealDisplacements: bool, insn: Instruction)
      requires Valid() && boundary <= |instructions|
      modifies this
      ensures WellFormedInstruction(arch, insn, |old(instructions)| + 2) ==> Valid()
      ensures instructions == Relaid(Inserted(old(instructions), boundary, stealDisplacements, [insn]))
      ensures byteLen == ByteSize(instructions)
      ensures encodingsMayBeInvalid
    {
      InsertInstructionBlock(boundary, stealDisplacements, [insn]);
    }

    method RemoveInstruction(index: nat)
      requires Valid() && index < |instructions|
      modifies this
      ensures Valid()
      ensures instructions == Relaid(Removed(old(instructions), index))
      ensures encodingsMayBeInvalid
    {
      ghost var before := instructions;
      AdjustInstructionIndexes(index + 1, -1);
      instructions := instructions[..index] + instructions[index + 1..];
      encodingsMayBeInvalid := true;
      assert instructions == Removed(before, index);
      RemovalWellFormed(arch, before, index);
      RelaidWellFormed(arch, instructions);
      RelaidIsLaidOut(instructions);
      FixupInvariants();
    }

    // ----- construction and printing -----

    constructor Empty(arch: Arch)
      ensures Valid() && this.arch == arch && instructions == [] && !encodingsMayBeInvalid
    {
      this.arch := arch;
      instructions := [];
      byteLen := 0;
      encodingsMayBeInvalid := false;
    }

    /** A copy of another program. */
    constructor Copy(other: Program)
      requires other.Valid()
      ensures Valid() && arch == other.arch && instructions == other.instructions
      ensures encodingsMayBeInvalid == other.encodingsMayBeInvalid
    {
      arch := other.arch;
      instructions := other.instructions;
      byteLen := other.byteLen;
      encodingsMayBeInvalid := other.encodingsMayBeInvalid;
    }

    /** The decoding loop of the construction from bytes. */
    static method DecodeInstructions(arch: Arch, bytes: seq<bv8>, config: InstructionConfig, strict: bool)
      returns (insns: seq<Instruction>)
      requires Lawful(arch)
      requires strict ==> AllDecode(arch, config, bytes, 0)
      ensures insns == DecodeFrom(arch, config, bytes, 0)
    {
      insns := [];
      var offset: nat := 0;
      while offset < |bytes|
        invariant insns + DecodeFrom(arch, config, bytes, offset) == DecodeFrom(arch, config, bytes, 0)
        invariant strict ==> AllDecode(arch, config, bytes, offset)
        decreases |bytes| - offset
      {
        var r := arch.fromBytes(bytes[offset..], config);
        assert DecodesSoundly(arch, bytes[offset..], config);
        if r.accepted {
          var insn := Instruction(bytes[offset..offset + r.size], DisplacementInfo(r.displacement, None), offset);
          ghost var rest := DecodeFrom(arch, config, bytes, offset + r.size);
          assert DecodeFrom(arch, config, bytes, offset) == [insn] + rest;
          AppendOne(insns, insn, rest);
          insns := insns + [insn];
          offset := offset + r.size;
        } else {
          assert !strict;
          offset := offset + SkippedBytes(arch, r);
        }
      }
    }

    /**
      Decodes bytes into a program, dropping what is not accepted.  A strict construction
      checks that nothing is dropped and that every branch lands on a boundary.
     */
    constructor FromBytes(arch: Arch, bytes: seq<bv8>, config: InstructionConfig, strict: bool)
      requires Lawful(arch)
      requires strict ==> StrictlyDecodable(arch, config, bytes)
      ensures Valid() && this.arch == arch
      ensures instructions == Relaid(Resolved(DecodeFrom(arch, config, bytes, 0)))
      ensures config.filter ==> AllAcceptable(arch, instructions)
    {
      this.arch := arch;
      encodingsMayBeInvalid := true;
      byteLen := 0;
      var insns := DecodeInstructions(arch, bytes, config, strict);
      instructions := insns;
      new;
      ResolveDisplacements(strict);
      FixupInvariants();
      DecodedProgram(arch, config, bytes);
    }

    /** The nearest boundary to a position of the program, the lower one of two equally near. */
    method FindClosestInstructionBoundary(position: int) returns (closest: nat)
      requires 0 < |instructions|
      ensures closest == ClosestBoundary(instructions, position)
    {
      closest := 0;
      var smallest := Distance(BoundaryOffset(instructions, 0), position);
      for i := 1 to |instructions| + 1
        invariant closest == ClosestUpTo(instructions, position, i - 1)
        invariant smallest == Distance(BoundaryOffset(instructions, closest), position)
      {
        var diff := Distance(BoundaryOffset(instructions, i), position);
        if diff < smallest {
          smallest := diff;
          closest := i;
        }
      }
    }

    method ResolveDisplacements(strict: bool)
      requires strict ==> AllLand(instructions)
      modifies this`instructions
      ensures instructions == Resolved(old(instructions))
    {
      ghost var before := instructions;
      for i := 0 to |instructions|
        invariant ResolvedUpTo(before, instructions, i)
      {
        ghost var now := instructions;
        var insn := instructions[i];
        if insn.branch.Valid() && insn.branch.boundary.None? {
          var position := insn.offset + insn.branch.byteDisplacement.value;
          var boundary := FindClosestInstructionBoundary(position);
          SameClosestSoFar(before, now, i, position);
          if strict {
            assert Lands(before, i);
            LandingIsExact(before, i);
            assert BoundaryOffset(instructions, boundary) == position;
          }
          instructions := instructions[i := insn.(branch := insn.branch.(boundary := Some(boundary)))];
        }
        ResolveOne(before, now, i, instructions);
      }
    }

    /** The program as bytes; the displacements must have been fixed up before. */
    method ToBytes() returns (output: seq<bv8>)
      requires Valid() && !encodingsMayBeInvalid
      ensures output == Encoding(instructions)
      ensures |output| == byteLen
    {
      output := [];
      for i := 0 to |instructions|
        invariant output == EncodingUpTo(instructions, i)
      {
        assert OffsetRecorded(instructions, i);
        assert instructions[i].offset == |output|;
        output := output + instructions[i].encoded;
      }
    }
  }
}
