/**
  The mutators applied to whole programs, alone and in any sequence.
 */
module Mutators {
  import opened Instructions
  import opened ProgramLayout
  import opened Encodings
  import opened ProgramEdits
  import opened ProgramDecoding
  import opened MutatorRngs
  import opened RandomBuffers
  import opened Programs
  import opened MutationOps

  /** `now` is `before` with `block` inserted somewhere, in one of the two modes. */
  ghost predicate InsertedSomewhere(before: seq<Instruction>, block: seq<Instruction>, now: seq<Instruction>) {
    exists boundary: nat, steal :: boundary <= |before| && now == Relaid(Inserted(before, boundary, steal, block))
  }

  ghost predicate RemovedSomewhere(before: seq<Instruction>, now: seq<Instruction>) {
    exists index: nat :: RemovedAt(before, now, index)
  }

  predicate RemovedAt(before: seq<Instruction>, now: seq<Instruction>, index: nat) {
    index < |before| && now == Relaid(Removed(before, index))
  }

  /** `block` holds the instructions of `other` from `src` on, boundaries shifted along or redrawn. */
  predicate CopiedFrom(other: seq<Instruction>, block: seq<Instruction>, src: nat, dst: nat, numBoundaries: nat) {
    && src + |block| <= |other|
    && BlockShifted(other[src..src + |block|], block, dst as int - src as int, numBoundaries)
  }

  ghost predicate CopiedBlock(other: seq<Instruction>, block: seq<Instruction>, dst: nat, numBoundaries: nat) {
    exists src: nat :: CopiedFrom(other, block, src, dst, numBoundaries)
  }

  /** An acceptable new instruction was inserted. */
  ghost predicate GeneratedInto(a: Arch, before: seq<Instruction>, now: seq<Instruction>) {
    exists insn: Instruction ::
      0 < |insn.encoded| && a.acceptable(insn.encoded) && InsertedSomewhere(before, [insn], now)
  }

  /** The boundary of the new branch, if it is one, the place and the mode are drawn in this order. */
  predicate DrawnInOrder(generated: Instruction, insn: Instruction, boundary: nat, steal: nat, numBoundaries: nat,
                         draws: nat -> nat, from: nat)
    requires 0 < numBoundaries
  {
    var at := if generated.branch.Valid() then from + 1 else from;
    && Redrawn(generated, insn, draws, from, numBoundaries + 1)
    && boundary == IndexDrawn(draws, at, numBoundaries)
    && steal == IndexDrawn(draws, at + 1, 2)
  }

  /** The instruction of the first draw that generates one was inserted where the following draws say. */
  ghost predicate GeneratedAsDrawn(a: Arch, before: seq<Instruction>, now: seq<Instruction>, draws: nat -> nat, from: nat) {
    exists k: nat, generated, insn, boundary: nat, steal: nat ::
      GeneratedAndPlaced(a, before, generated, insn, boundary, steal, now, draws, from, k)
  }

  predicate PlacedAt(before: seq<Instruction>, generated: Instruction, insn: Instruction, boundary: nat, steal: nat,
                     now: seq<Instruction>, draws: nat -> nat, from: nat)
  {
    && DrawnInOrder(generated, insn, boundary, steal, |before| + 1, draws, from)
    && boundary <= |before|
    && now == Relaid(Inserted(before, boundary, steal != 0, [insn]))
  }

  predicate GeneratedAndPlaced(a: Arch, before: seq<Instruction>, generated: Instruction, insn: Instruction, boundary: nat,
                               steal: nat, now: seq<Instruction>, draws: nat -> nat, from: nat, k: nat)
  {
    GeneratedAt(a, generated, draws, from, k) && PlacedAt(before, generated, insn, boundary, steal, now, draws, k + 1)
  }

  lemma PlacedAfterGeneration(a: Arch, before: seq<Instruction>, generated: Instruction, insn: Instruction, boundary: nat,
                              steal: nat, now: seq<Instruction>, draws: nat -> nat, from: nat, k: nat)
    requires from <= k < from + 64 && NoneGenerates(a, draws, from, k)
    requires FirstInstruction(a, FillBuffer(draws(k), a.bufferSize), generated)
    requires PlacedAt(before, generated, insn, boundary, steal, now, draws, k + 1)
    ensures GeneratedAsDrawn(a, before, now, draws, from)
  {
    assert GeneratedAndPlaced(a, before, generated, insn, boundary, steal, now, draws, from, k);
  }

  predicate GeneratedAt(a: Arch, generated: Instruction, draws: nat -> nat, from: nat, k: nat) {
    && from <= k < from + 64
    && NoneGenerates(a, draws, from, k)
    && FirstInstruction(a, FillBuffer(draws(k), a.bufferSize), generated)
  }

  /** One instruction was replaced by a near mutation of itself. */
  ghost predicate MutatedSomewhere(before: seq<Instruction>, now: seq<Instruction>) {
    exists target: nat, insn: Instruction, start: seq<bv8>, bits: seq<nat> ::
      && target < |before|
      && NearMutation(before[target], insn, start, bits)
      && KeepsBoundary(before[target], insn)
      && now == before[target := insn]
  }

  /** A branch whose displacement is untouched keeps its boundary. */
  predicate KeepsBoundary(original: Instruction, insn: Instruction) {
    insn.branch.Valid() && insn.branch.byteDisplacement == original.branch.byteDisplacement ==>
      insn.branch.boundary == original.branch.boundary
  }

  ghost predicate SwappedSomewhere(before: seq<Instruction>, now: seq<Instruction>) {
    exists i: nat, j: nat ::
      i < |before| && j < |before| && i != j && now == before[i := before[j]][j := before[i]]
  }

  /** The first of the two was drawn first, the second last, and in between only the first again. */
  predicate SwappedAsDrawn(before: seq<Instruction>, now: seq<Instruction>, draws: nat -> nat, from: nat, to: nat) {
    && before != [] && from + 2 <= to
    && (forall k | from <= k < to - 1 :: Hits(draws, k, |before|, IndexDrawn(draws, from, |before|)))
    && var i, j := IndexDrawn(draws, from, |before|), IndexDrawn(draws, to - 1, |before|);
    && i != j && now == before[i := before[j]][j := before[i]]
  }

  /** A run of `other` was inserted. */
  ghost predicate CrossedIn(before: seq<Instruction>, other: seq<Instruction>, now: seq<Instruction>) {
    exists block: seq<Instruction>, boundary: nat, steal ::
      && 1 <= |block| && boundary <= |before|
      && CopiedBlock(other, block, boundary, |before| + 1 + |block|)
      && now == Relaid(Inserted(before, boundary, steal, block))
  }

  /** A run of `other`, at most half the program unless it is one instruction, was copied over it. */
  ghost predicate CrossedOver(before: seq<Instruction>, other: seq<Instruction>, now: seq<Instruction>) {
    exists block: seq<Instruction>, index: nat ::
      && 1 <= |block| && index + |block| <= |before|
      && (|block| == 1 || 2 * |block| <= |before|)
      && CopiedBlock(other, block, index, |before| + 1)
      && now == Overwritten(before, index, block)
  }

  /** The size of a run of `m` instructions, at most `maxSize`, and then where it starts. */
  predicate RunDrawn(m: nat, maxSize: nat, size: nat, src: nat, draws: nat -> nat, from: nat) {
    && 0 < maxSize && 1 <= size <= m
    && size - 1 == IndexDrawn(draws, from, maxSize)
    && src == IndexDrawn(draws, from + 1, m - size + 1)
  }

  /** The run, its place and, last, the mode are drawn. */
  ghost predicate CrossedInAsDrawn(before: seq<Instruction>, other: seq<Instruction>, now: seq<Instruction>,
                                   draws: nat -> nat, from: nat, to: nat)
  {
    exists block, src: nat, dst: nat, steal: nat ::
      CrossedInBy(before, other, now, block, src, dst, steal, draws, from, to)
  }

  predicate CrossedInBy(before: seq<Instruction>, other: seq<Instruction>, now: seq<Instruction>, block: seq<Instruction>,
                        src: nat, dst: nat, steal: nat, draws: nat -> nat, from: nat, to: nat)
  {
    && InsertionDrawn(|before|, other, block, src, dst, steal, draws, from, to)
    && now == Relaid(Inserted(before, dst, steal != 0, block))
  }

  /** The copied run, for a program of `n` instructions. */
  predicate InsertionDrawn(n: nat, other: seq<Instruction>, block: seq<Instruction>, src: nat, dst: nat, steal: nat,
                           draws: nat -> nat, from: nat, to: nat)
  {
    && RunDrawn(|other|, |other|, |block|, src, draws, from)
    && from + 3 < to
    && dst == IndexDrawn(draws, from + 2, n + 1) && dst <= n
    && steal == IndexDrawn(draws, to - 1, 2)
    && CopiedFrom(other, block, src, dst, n + 1 + |block|)
  }

  /** The run and its place are drawn; it is at most half of the program, or one instruction. */
  ghost predicate CrossedOverAsDrawn(before: seq<Instruction>, other: seq<Instruction>, now: seq<Instruction>,
                                     draws: nat -> nat, from: nat)
  {
    exists block, src: nat, dst: nat :: CrossedOverBy(before, other, now, block, src, dst, draws, from)
  }

  /** How much of one program may be overwritten by parts of another. */
  function OverwriteLimit(n: nat, m: nat): nat {
    var half := if n / 2 > 1 then n / 2 else 1;
    if half < m then half else m
  }

  predicate CrossedOverBy(before: seq<Instruction>, other: seq<Instruction>, now: seq<Instruction>, block: seq<Instruction>,
                          src: nat, dst: nat, draws: nat -> nat, from: nat)
  {
    && OverwritingDrawn(|before|, other, block, src, dst, draws, from)
    && now == Overwritten(before, dst, block)
  }

  predicate OverwritingDrawn(n: nat, other: seq<Instruction>, block: seq<Instruction>, src: nat, dst: nat,
                             draws: nat -> nat, from: nat)
  {
    && RunDrawn(|other|, OverwriteLimit(n, |other|), |block|, src, draws, from)
    && |block| <= n
    && dst == IndexDrawn(draws, from + 2, n - |block| + 1) && dst + |block| <= n
    && CopiedFrom(other, block, src, dst, n + 1)
  }

  lemma InsertionAcceptable(a: Arch, insns: seq<Instruction>, boundary: nat, steal: bool, block: seq<Instruction>)
    requires AllAcceptable(a, insns) && AllAcceptable(a, block) && boundary <= |insns|
    ensures AllAcceptable(a, Relaid(Inserted(insns, boundary, steal, block)))
  {}

  lemma RemovalAcceptable(a: Arch, insns: seq<Instruction>, index: nat)
    requires AllAcceptable(a, insns) && index < |insns|
    ensures AllAcceptable(a, Relaid(Removed(insns, index)))
  {}

  lemma InsertionSize(insns: seq<Instruction>, boundary: nat, steal: bool, insn: Instruction)
    requires boundary <= |insns|
    ensures ByteSize(Relaid(Inserted(insns, boundary, steal, [insn]))) == ByteSize(insns) + |insn.encoded|
  {
    SizeOfInsertion(insns, boundary, steal, [insn]);
    SizeOfOne(insn);
    RelaidIsLaidOut(Inserted(insns, boundary, steal, [insn]));
  }

  lemma InsertionDone(a: Arch, before: seq<Instruction>, insn: Instruction, boundary: nat, steal: bool, now: seq<Instruction>)
    requires boundary <= |before| && 0 < |insn.encoded| && a.acceptable(insn.encoded)
    requires now == Relaid(Inserted(before, boundary, steal, [insn]))
    ensures GeneratedInto(a, before, now)
    ensures ByteSize(now) > ByteSize(before)
    ensures AllAcceptable(a, before) ==> AllAcceptable(a, now)
  {
    assert InsertedSomewhere(before, [insn], now);
    InsertionSize(before, boundary, steal, insn);
    if AllAcceptable(a, before) {
      InsertionAcceptable(a, before, boundary, steal, [insn]);
    }
  }

  lemma CrossInDone(a: Arch, before: seq<Instruction>, other: seq<Instruction>, block: seq<Instruction>,
                    src: nat, dst: nat, steal: bool)
    requires WellFormed(a, other) && 1 <= |block| && dst <= |before|
    requires CopiedFrom(other, block, src, dst, |before| + 1 + |block|)
    ensures var now := Relaid(Inserted(before, dst, steal, block));
      && CrossedIn(before, other, now)
      && (AllAcceptable(a, before) && AllAcceptable(a, other) ==> AllAcceptable(a, now))
  {
    assert CopiedBlock(other, block, dst, |before| + 1 + |block|);
    BlockWellFormed(a, other, src, block, dst as int - src as int, |before| + 1 + |block|);
    if AllAcceptable(a, before) && AllAcceptable(a, other) {
      InsertionAcceptable(a, before, dst, steal, block);
    }
  }

  lemma CrossOverDone(a: Arch, before: seq<Instruction>, other: seq<Instruction>, block: seq<Instruction>,
                      src: nat, dst: nat)
    requires WellFormed(a, other) && 1 <= |block| && dst + |block| <= |before|
    requires |block| == 1 || 2 * |block| <= |before|
    requires CopiedFrom(other, block, src, dst, |before| + 1)
    ensures var now := Overwritten(before, dst, block);
      && CrossedOver(before, other, now)
      && (AllAcceptable(a, before) && AllAcceptable(a, other) ==> AllAcceptable(a, now))
  {}

  /** The instructions a crossover copies have their boundaries. */
  lemma CopiedHaveBoundaries(a: Arch, insns: seq<Instruction>, src: nat, size: nat)
    requires WellFormed(a, insns) && src + size <= |insns|
    ensures forall insn | insn in insns[src..src + size] :: insn.branch.Valid() <==> insn.branch.boundary.Some?
  {}

  /** Draws the boundary of a new branch, its place and the mode; the program will have one boundary more. */
  method DrawPlacement(generated: Instruction, numBoundaries: nat, rng: MutatorRng)
    returns (insn: Instruction, boundary: nat, steal: nat)
    requires 0 < numBoundaries
    modifies rng
    ensures rng.next >= old(rng.next)
    ensures boundary < numBoundaries
    ensures DrawnInOrder(generated, insn, boundary, steal, numBoundaries, rng.draws, old(rng.next))
  {
    insn := RandomizeInstructionDisplacementBoundaries(generated, numBoundaries + 1, rng);
    boundary := rng.RandomIndex(numBoundaries);
    steal := rng.RandomIndex(2);
  }

  /** Inserts an instruction, its boundary drawn at random, at a random boundary. */
  method InsertAnywhere(program: Program, generated: Instruction, rng: MutatorRng)
    returns (ghost insn: Instruction, ghost boundary: nat, ghost steal: nat)
    requires Lawful(program.arch) && program.Valid()
    requires FreshInstruction(program.arch, DEFAULT_CONFIG, generated)
    modifies program, rng
    ensures program.Valid()
    ensures rng.next >= old(rng.next)
    ensures GeneratedInto(program.arch, old(program.instructions), program.instructions)
    ensures PlacedAt(old(program.instructions), generated, insn, boundary, steal, program.instructions,
      rng.draws, old(rng.next))
    ensures program.byteLen > old(program.byteLen)
    ensures AllAcceptable(program.arch, old(program.instructions)) ==> AllAcceptable(program.arch, program.instructions)
  {
    ghost var before := program.instructions;
    var moved, place, mode := DrawPlacement(generated, |program.instructions| + 1, rng);
    program.InsertInstruction(place, mode != 0, moved);
    InsertionDone(program.arch, before, moved, place, mode != 0, program.instructions);
    insn, boundary, steal := moved, place, mode;
  }

  /** Inserts a random instruction at a random boundary. */
  method InsertGeneratedInstruction(program: Program, rng: MutatorRng) returns (ok: bool)
    requires Lawful(program.arch) && program.Valid()
    modifies program, rng
    ensures program.Valid()
    ensures rng.next >= old(rng.next)
    ensures !ok ==> program.instructions == old(program.instructions) && program.byteLen == old(program.byteLen)
    ensures !ok ==> rng.next > old(rng.next)
    ensures !ok ==> NoneGenerates(program.arch, rng.draws, old(rng.next), rng.next)
    ensures ok ==> GeneratedInto(program.arch, old(program.instructions), program.instructions)
    ensures ok ==>
      GeneratedAsDrawn(program.arch, old(program.instructions), program.instructions, rng.draws, old(rng.next))
    ensures ok ==> program.byteLen > old(program.byteLen)
    ensures AllAcceptable(program.arch, old(program.instructions)) ==> AllAcceptable(program.arch, program.instructions)
  {
    var insn;
    ok, insn := GenerateSingleInstruction(program.arch, rng);
    if ok {
      ghost var k := rng.next - 1;
      ghost var inserted, boundary, steal := InsertAnywhere(program, insn, rng);
      PlacedAfterGeneration(program.arch, old(program.instructions), insn, inserted, boundary, steal,
        program.instructions, rng.draws, old(rng.next), k);
    }
  }

  /** Flips bits of a random instruction. */
  method MutateInstruction(program: Program, rng: MutatorRng) returns (ok: bool)
    requires Lawful(program.arch) && program.Valid()
    modifies program, rng
    ensures program.Valid()
    ensures !ok ==> program.instructions == old(program.instructions)
    ensures ok ==> MutatedSomewhere(old(program.instructions), program.instructions)
    ensures ok ==>
      OnlyAt(IndexDrawn(rng.draws, old(rng.next), |old(program.instructions)|), old(program.instructions), program.instructions)
    ensures AllAcceptable(program.arch, old(program.instructions)) ==> AllAcceptable(program.arch, program.instructions)
  {
    if |program.instructions| == 0 {
      return false;
    }
    var target := rng.RandomIndex(|program.instructions|);
    var original := program.instructions[target];
    assert WellFormedInstruction(program.arch, original, |program.instructions| + 1);
    var mutated;
    ok, mutated := MutateSingleInstruction(program.arch, original, rng);
    if ok {
      ghost var start, bits :| NearMutation(original, mutated, start, bits);
      var insn := CopyOrRandomizeInstructionDisplacementBoundaries(
        original, mutated, |program.instructions| + 1, rng);
      program.SetInstruction(target, insn);
      assert NearMutation(original, insn, start, bits) && KeepsBoundary(original, insn);
    }
  }

  /** Removes a random instruction, unless too few would be left. */
  method DeleteInstruction(program: Program, minimumInstructions: nat, rng: MutatorRng) returns (ok: bool)
    requires program.Valid()
    modifies program, rng
    ensures program.Valid()
    ensures ok <==> |old(program.instructions)| > minimumInstructions
    ensures !ok ==> program.instructions == old(program.instructions)
    ensures ok ==> RemovedSomewhere(old(program.instructions), program.instructions)
    ensures ok ==> |program.instructions| == |old(program.instructions)| - 1
    ensures ok ==>
      RemovedAt(old(program.instructions), program.instructions, IndexDrawn(rng.draws, old(rng.next), |old(program.instructions)|))
    ensures AllAcceptable(program.arch, old(program.instructions)) ==> AllAcceptable(program.arch, program.instructions)
  {
    ghost var before := program.instructions;
    if |program.instructions| <= minimumInstructions {
      return false;
    }
    var victim := rng.RandomIndex(|program.instructions|);
    program.RemoveInstruction(victim);
    assert RemovedAt(before, program.instructions, victim);
    if AllAcceptable(program.arch, before) {
      RemovalAcceptable(program.arch, before, victim);
    }
    return true;
  }

  /** Draws until it is not `i`. */
  method DrawOther(i: nat, n: nat, rng: MutatorRng) returns (j: nat)
    requires i < n && 2 <= n && Fair(rng.draws)
    modifies rng
    ensures j < n && j != i && rng.next > old(rng.next)
    ensures j == IndexDrawn(rng.draws, rng.next - 1, n)
    ensures forall k | old(rng.next) <= k < rng.next - 1 :: Hits(rng.draws, k, n, i)
  {
    j := rng.RandomIndex(n);
    ghost var wanted: nat := if i == 0 then 1 else 0;
    assert Reaches(rng.draws, rng.next, n, wanted);
    ghost var hit: nat :| rng.next <= hit && Hits(rng.draws, hit, n, wanted);
    while i == j
      invariant 0 <= j < n && rng.next > old(rng.next)
      invariant j == IndexDrawn(rng.draws, rng.next - 1, n)
      invariant forall k | old(rng.next) <= k < rng.next - 1 :: Hits(rng.draws, k, n, i)
      invariant i == j ==> rng.next <= hit
      decreases if i == j then 1 + hit - rng.next else 0
    {
      j := rng.RandomIndex(n);
    }
  }

  lemma SwapDrawn(before: seq<Instruction>, now: seq<Instruction>, draws: nat -> nat, from: nat, to: nat, i: nat, j: nat)
    requires i < |before| && j < |before| && i != j && from + 2 <= to
    requires now == before[i := before[j]][j := before[i]]
    requires i == IndexDrawn(draws, from, |before|) && j == IndexDrawn(draws, to - 1, |before|)
    requires forall k | from < k < to - 1 :: Hits(draws, k, |before|, i)
    ensures SwappedAsDrawn(before, now, draws, from, to)
  {}

  /** Swaps two random instructions; their branches keep their absolute targets. */
  method SwapInstructions(program: Program, rng: MutatorRng) returns (ok: bool)
    requires program.Valid() && Fair(rng.draws)
    modifies program, rng
    ensures program.Valid()
    ensures ok <==> |old(program.instructions)| >= 2
    ensures !ok ==> program.instructions == old(program.instructions)
    ensures ok ==> SwappedSomewhere(old(program.instructions), program.instructions)
    ensures ok ==>
      SwappedAsDrawn(old(program.instructions), program.instructions, rng.draws, old(rng.next), rng.next)
    ensures AllAcceptable(program.arch, old(program.instructions)) ==> AllAcceptable(program.arch, program.instructions)
  {
    var n := |program.instructions|;
    if n < 2 {
      return false;
    }
    ghost var before, from := program.instructions, rng.next;
    var i := rng.RandomIndex(n);
    var j := DrawOther(i, n, rng);
    var first := program.instructions[i];
    var second := program.instructions[j];
    assert WellFormedInstruction(program.arch, first, n + 1);
    assert WellFormedInstruction(program.arch, second, n + 1);
    program.SetInstruction(i, second);
    program.SetInstruction(j, first);
    SwapDrawn(before, program.instructions, rng.draws, from, rng.next, i, j);
    return true;
  }

  /** Copies instructions of another program, to be placed at `dst`. */
  method CopyShifted(other: Program, src: nat, size: nat, dst: nat, numBoundaries: nat, rng: MutatorRng)
    returns (block: seq<Instruction>)
    requires other.Valid() && src + size <= |other.instructions| && 0 < numBoundaries
    modifies rng
    ensures |block| == size
    ensures CopiedFrom(other.instructions, block, src, dst, numBoundaries)
    ensures WellFormedBlock(other.arch, block, numBoundaries)
    ensures rng.next >= old(rng.next)
  {
    var copied := other.instructions[src..src + size];
    CopiedHaveBoundaries(other.arch, other.instructions, src, size);
    var indexOffset: int := dst as int - src as int;
    block := ShiftOrRandomizeBlock(copied, indexOffset, numBoundaries, rng);
    BlockWellFormed(other.arch, other.instructions, src, block, indexOffset, numBoundaries);
  }

  /** Draws the size of a run of `m` instructions, and where it starts. */
  method DrawRun(m: nat, maxSize: nat, rng: MutatorRng) returns (size: nat, src: nat)
    requires 0 < maxSize <= m
    modifies rng
    ensures rng.next == old(rng.next) + 2
    ensures 1 <= size <= maxSize && src + size <= m
    ensures RunDrawn(m, maxSize, size, src, rng.draws, old(rng.next))
  {
    size := rng.RandomIndex(maxSize);
    size := size + 1;
    src := rng.RandomIndex(m - size + 1);
  }

  /** Draws and copies a run of another program, to be inserted into one of `n` instructions. */
  method DrawInsertion(n: nat, other: Program, rng: MutatorRng)
    returns (block: seq<Instruction>, ghost src: nat, dst: nat, steal: nat)
    requires other.Valid() && other.instructions != []
    modifies rng
    ensures WellFormedBlock(other.arch, block, n + 1 + |block|)
    ensures InsertionDrawn(n, other.instructions, block, src, dst, steal, rng.draws, old(rng.next), rng.next)
  {
    var m := |other.instructions|;
    var size, start := DrawRun(m, m, rng);
    src := start;
    dst := rng.RandomIndex(n + 1);
    block := CopyShifted(other, start, size, dst, n + 1 + size, rng);
    steal := rng.RandomIndex(2);
  }

  /** Copies a random run of another program and inserts it at a random boundary. */
  method CrossoverInsert(program: Program, other: Program, rng: MutatorRng) returns (ok: bool)
    requires program.Valid() && other.Valid() && program.arch == other.arch
    modifies program, rng
    ensures program.Valid()
    ensures ok <==> |old(other.instructions)| > 0
    ensures !ok ==> program.instructions == old(program.instructions)
    ensures ok ==> CrossedIn(old(program.instructions), old(other.instructions), program.instructions)
    ensures ok ==> CrossedInAsDrawn(old(program.instructions), old(other.instructions), program.instructions,
      rng.draws, old(rng.next), rng.next)
    ensures AllAcceptable(program.arch, old(program.instructions)) && AllAcceptable(program.arch, old(other.instructions)) ==>
      AllAcceptable(program.arch, program.instructions)
  {
    ghost var before, source := program.instructions, other.instructions;
    if |other.instructions| == 0 {
      return false;
    }
    ghost var src;
    var block, dst, steal;
    block, src, dst, steal := DrawInsertion(|program.instructions|, other, rng);
    CrossInDone(program.arch, before, source, block, src, dst, steal != 0);
    program.InsertInstructionBlock(dst, steal != 0, block);
    assert CrossedInBy(before, source, program.instructions, block, src, dst, steal, rng.draws, old(rng.next), rng.next);
    return true;
  }

  /** Draws and copies a run of another program, to be put over part of one of `n` instructions. */
  method DrawOverwriting(n: nat, other: Program, rng: MutatorRng)
    returns (block: seq<Instruction>, ghost src: nat, dst: nat)
    requires other.Valid() && other.instructions != [] && 0 < n
    modifies rng
    ensures WellFormedBlock(other.arch, block, n + 1)
    ensures |block| == 1 || 2 * |block| <= n
    ensures OverwritingDrawn(n, other.instructions, block, src, dst, rng.draws, old(rng.next))
  {
    var m := |other.instructions|;
    var half := if n / 2 > 1 then n / 2 else 1;
    var maxSize := if half < m then half else m;
    var size, start := DrawRun(m, maxSize, rng);
    src := start;
    dst := rng.RandomIndex(n - size + 1);
    block := CopyShifted(other, start, size, dst, n + 1, rng);
  }

  /** Copies a random run of another program over a random part of this one. */
  method CrossoverOverwrite(program: Program, other: Program, rng: MutatorRng) returns (ok: bool)
    requires program.Valid() && other.Valid() && program.arch == other.arch
    modifies program, rng
    ensures program.Valid()
    ensures ok <==> |old(program.instructions)| > 0 && |old(other.instructions)| > 0
    ensures !ok ==> program.instructions == old(program.instructions)
    ensures ok ==> CrossedOver(old(program.instructions), old(other.instructions), program.instructions)
    ensures ok ==> CrossedOverAsDrawn(old(program.instructions), old(other.instructions), program.instructions,
      rng.draws, old(rng.next))
    ensures AllAcceptable(program.arch, old(program.instructions)) && AllAcceptable(program.arch, old(other.instructions)) ==>
      AllAcceptable(program.arch, program.instructions)
  {
    ghost var before, source := program.instructions, other.instructions;
    if |program.instructions| == 0 {
      return false;
    }
    if |other.instructions| == 0 {
      return false;
    }
    ghost var src;
    var block, dst;
    block, src, dst := DrawOverwriting(|program.instructions|, other, rng);
    CrossOverDone(program.arch, before, source, block, src, dst);
    program.SetInstructionBlock(dst, block);
    assert CrossedOverBy(before, source, program.instructions, block, src, dst, rng.draws, old(rng.next));
    return true;
  }
}
