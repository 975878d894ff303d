/**
  One mutated output of the batch mutator: a copy of the input, any sequence of mutations,
  and the steps that make the result printable and short enough.
 */
module BatchMutators {
  import opened Instructions
  import opened ProgramLayout
  import opened FixupPasses
  import opened ProgramDecoding
  import opened MutatorRngs
  import opened RandomBuffers
  import opened Programs
  import opened Mutators

  /** The choices of the mutation policy; any sequence of them is possible. */
  datatype Mutation =
    | InsertGenerated
    | Mutate
    | Swap
    | Delete(minimumInstructions: nat)
    | CrossInsert
    | CrossOverwrite

  /** What a successful mutation does. */
  ghost predicate Effect(a: Arch, mutation: Mutation, before: seq<Instruction>, other: seq<Instruction>, now: seq<Instruction>) {
    match mutation
    case InsertGenerated => GeneratedInto(a, before, now)
    case Mutate => MutatedSomewhere(before, now)
    case Swap => SwappedSomewhere(before, now)
    case Delete(minimum) => |before| > minimum && RemovedSomewhere(before, now)
    case CrossInsert => CrossedIn(before, other, now)
    case CrossOverwrite => CrossedOver(before, other, now)
  }

  method ApplyMutation(mutation: Mutation, program: Program, other: Program, rng: MutatorRng) returns (ok: bool)
    requires Lawful(program.arch) && Fair(rng.draws)
    requires program.Valid() && other.Valid() && program.arch == other.arch
    modifies program, rng
    ensures program.Valid()
    ensures ok ==>
      Effect(program.arch, mutation, old(program.instructions), old(other.instructions), program.instructions)
    ensures !ok ==> program.instructions == old(program.instructions)
    ensures AllAcceptable(program.arch, old(program.instructions)) && AllAcceptable(program.arch, old(other.instructions)) ==>
      AllAcceptable(program.arch, program.instructions)
  {
    match mutation
    case InsertGenerated => ok := InsertGeneratedInstruction(program, rng);
    case Mutate => ok := MutateInstruction(program, rng);
    case Swap => ok := SwapInstructions(program, rng);
    case Delete(minimum) => ok := DeleteInstruction(program, minimum, rng);
    case CrossInsert => ok := CrossoverInsert(program, other, rng);
    case CrossOverwrite => ok := CrossoverOverwrite(program, other, rng);
  }

  /** One step of a run: nothing, or the effect of the mutation. */
  ghost predicate MutationStep(a: Arch, mutation: Mutation, before: seq<Instruction>, other: seq<Instruction>, now: seq<Instruction>) {
    now == before || Effect(a, mutation, before, other, now)
  }

  /** The programs along a run of mutations. */
  ghost predicate IsRun(a: Arch, script: seq<Mutation>, other: seq<Instruction>, trace: seq<seq<Instruction>>) {
    && |trace| == |script| + 1
    && forall i | 0 <= i < |script| :: MutationStep(a, script[i], trace[i], other, trace[i + 1])
  }

  lemma ExtendRun(a: Arch, script: seq<Mutation>, i: nat, other: seq<Instruction>, trace: seq<seq<Instruction>>, now: seq<Instruction>)
    requires i < |script| && IsRun(a, script[..i], other, trace) && MutationStep(a, script[i], trace[i], other, now)
    ensures IsRun(a, script[..i + 1], other, trace + [now])
  {
    var longer := trace + [now];
    forall j | 0 <= j < i + 1
      ensures MutationStep(a, script[..i + 1][j], longer[j], other, longer[j + 1])
    {
      if j < i {
        assert MutationStep(a, script[..i][j], trace[j], other, trace[j + 1]);
      }
    }
  }

  /** Any finite sequence of mutations keeps a program well formed and acceptable. */
  method RunMutations(script: seq<Mutation>, program: Program, other: Program, rng: MutatorRng)
    returns (ghost trace: seq<seq<Instruction>>)
    requires Lawful(program.arch) && Fair(rng.draws)
    requires program.Valid() && other.Valid() && program.arch == other.arch && program != other
    modifies program, rng
    ensures program.Valid()
    ensures IsRun(program.arch, script, other.instructions, trace)
    ensures trace[0] == old(program.instructions) && trace[|script|] == program.instructions
    ensures AllAcceptable(program.arch, old(program.instructions)) && AllAcceptable(program.arch, other.instructions) ==>
      AllAcceptable(program.arch, program.instructions)
  {
    ghost var acceptable := AllAcceptable(program.arch, program.instructions)
                            && AllAcceptable(program.arch, other.instructions);
    trace := [program.instructions];
    for i := 0 to |script|
      invariant program.Valid() && other.Valid()
      invariant IsRun(program.arch, script[..i], other.instructions, trace)
      invariant trace[0] == old(program.instructions) && trace[i] == program.instructions
      invariant acceptable ==> AllAcceptable(program.arch, program.instructions)
    {
      var _ := ApplyMutation(script[i], program, other, rng);
      ExtendRun(program.arch, script, i, other.instructions, trace, program.instructions);
      trace := trace + [program.instructions];
    }
    assert script[..|script|] == script;
  }

  /** A program of no bytes has no instructions. */
  lemma NoBytesNoInstructions(a: Arch, insns: seq<Instruction>)
    requires WellFormed(a, insns)
    ensures ByteSize(insns) == 0 <==> insns == []
  {}

  /** Adds random instructions to an empty program. */
  method AddInstructionIfZeroLength(program: Program, rng: MutatorRng)
    requires Lawful(program.arch) && Fair(rng.draws) && CanGenerate(program.arch)
    requires program.Valid()
    modifies program, rng
    ensures program.Valid() && program.byteLen > 0
    ensures old(program.byteLen) > 0 ==> program.instructions == old(program.instructions)
    ensures old(program.byteLen) == 0 ==>
      GeneratedInto(program.arch, old(program.instructions), program.instructions)
    ensures AllAcceptable(program.arch, old(program.instructions)) ==> AllAcceptable(program.arch, program.instructions)
  {
    EventuallyGenerates(program.arch, rng.draws, rng.next);
    ghost var hit: nat :| rng.next <= hit && Generates(program.arch, rng.draws(hit));
    while program.byteLen == 0
      invariant program.Valid()
      invariant program.byteLen == 0 || old(program.byteLen) > 0 ==> program.instructions == old(program.instructions)
      invariant program.byteLen > 0 && old(program.byteLen) == 0 ==>
        GeneratedInto(program.arch, old(program.instructions), program.instructions)
      invariant AllAcceptable(program.arch, old(program.instructions)) ==>
        AllAcceptable(program.arch, program.instructions)
      invariant program.byteLen == 0 ==> rng.next <= hit
      decreases if program.byteLen == 0 then 1 + hit - rng.next else 0
    {
      var _ := InsertGeneratedInstruction(program, rng);
    }
  }

  /** One removal from a program that is too long. */
  ghost predicate RemovalStep(before: seq<Instruction>, now: seq<Instruction>, maxLen: nat) {
    ByteSize(before) > maxLen && RemovedSomewhere(before, now)
  }

  ghost predicate Thinning(run: seq<seq<Instruction>>, maxLen: nat) {
    && 0 < |run|
    && forall i | 1 <= i < |run| :: RemovalStep(run[i - 1], run[i], maxLen)
  }

  /** `now` is left of `before` after removing instructions, one after the other, as long as it was too long. */
  ghost predicate Thinned(before: seq<Instruction>, now: seq<Instruction>, maxLen: nat) {
    exists run :: Thinning(run, maxLen) && run[0] == before && run[|run| - 1] == now && |run| == 1 + |before| - |now|
  }

  /** A program of one instruction is no longer than any instruction. */
  lemma OneInstructionSize(a: Arch, insns: seq<Instruction>)
    requires WellFormed(a, insns)
    ensures |insns| <= 1 ==> ByteSize(insns) <= a.bufferSize
  {}

  /** What throwing instructions away leaves of a program. */
  ghost predicate LeftOver(a: Arch, before: seq<Instruction>, now: seq<Instruction>, maxLen: nat) {
    && |now| <= |before|
    && Thinned(before, now, maxLen)
    && (a.bufferSize <= maxLen && before != [] ==> now != [])
    && (AllAcceptable(a, before) ==> AllAcceptable(a, now))
  }

  /** Removing one more instruction from a program that is too long. */
  lemma ThinnedFurther(before: seq<Instruction>, mid: seq<Instruction>, now: seq<Instruction>, maxLen: nat)
    requires Thinned(before, mid, maxLen) && RemovalStep(mid, now, maxLen)
    ensures Thinned(before, now, maxLen) && |now| == |mid| - 1
  {
    var run :| Thinning(run, maxLen) && run[0] == before && run[|run| - 1] == mid && |run| == 1 + |before| - |mid|;
    var index :| RemovedAt(mid, now, index);
    RemovedSize(mid, now, index);
    LongerThinning(run, now, maxLen);
  }

  lemma RemovedSize(before: seq<Instruction>, now: seq<Instruction>, index: nat)
    requires RemovedAt(before, now, index)
    ensures |now| == |before| - 1
  {}

  lemma LongerThinning(run: seq<seq<Instruction>>, now: seq<Instruction>, maxLen: nat)
    requires Thinning(run, maxLen) && RemovalStep(run[|run| - 1], now, maxLen)
    ensures Thinning(run + [now], maxLen)
  {
    var longer := run + [now];
    forall i | 1 <= i < |longer|
      ensures RemovalStep(longer[i - 1], longer[i], maxLen)
    {
      if i < |run| {
        assert RemovalStep(run[i - 1], run[i], maxLen);
      }
    }
  }

  method RemoveAnother(program: Program, maxLen: nat, rng: MutatorRng, ghost before: seq<Instruction>)
    requires program.Valid() && program.byteLen > maxLen
    requires LeftOver(program.arch, before, program.instructions, maxLen)
    modifies program, rng
    ensures program.Valid()
    ensures |program.instructions| < |old(program.instructions)|
    ensures LeftOver(program.arch, before, program.instructions, maxLen)
  {
    ghost var mid := program.instructions;
    NoBytesNoInstructions(program.arch, mid);
    OneInstructionSize(program.arch, mid);
    assert |program.instructions| > 0;
    var _ := DeleteInstruction(program, 0, rng);
    ThinnedFurther(before, mid, program.instructions, maxLen);
  }

  /** Throws random instructions away until the program is short enough. */
  method LimitProgramLength(program: Program, maxLen: nat, rng: MutatorRng) returns (modified: bool)
    requires program.Valid()
    modifies program, rng
    ensures program.Valid() && program.byteLen <= maxLen
    ensures modified <==> old(program.byteLen) > maxLen
    ensures !modified ==>
      && program.instructions == old(program.instructions)
      && program.encodingsMayBeInvalid == old(program.encodingsMayBeInvalid)
    ensures modified ==> |program.instructions| < |old(program.instructions)|
    ensures LeftOver(program.arch, old(program.instructions), program.instructions, maxLen)
  {
    ghost var before := program.instructions;
    assert Thinning([before], maxLen);
    modified := false;
    while program.byteLen > maxLen
      invariant program.Valid()
      invariant modified || program.byteLen > maxLen <==> old(program.byteLen) > maxLen
      invariant !modified ==>
        && program.instructions == before
        && program.encodingsMayBeInvalid == old(program.encodingsMayBeInvalid)
      invariant modified ==> |program.instructions| < |before|
      invariant LeftOver(program.arch, before, program.instructions, maxLen)
      decreases |program.instructions|
    {
      RemoveAnother(program, maxLen, rng, before);
      modified := true;
    }
  }

  /** The fixup neither adds nor loses instructions, and keeps them acceptable. */
  lemma FixupKeepsAcceptable(a: Arch, before: seq<Instruction>, now: seq<Instruction>, modified: bool)
    requires FixupDone(a, before, now, modified) && AllAcceptable(a, before)
    ensures AllAcceptable(a, now)
  {}

  /** A fixup that changes nothing keeps the length. */
  lemma UnmodifiedSize(a: Arch, before: seq<Instruction>, now: seq<Instruction>)
    requires FixupDone(a, before, now, false)
    ensures ByteSize(now) == ByteSize(before)
  {
    RelaidIsLaidOut(before);
  }

  // ----- the final steps -----

  /** Throwing instructions away, or one fixup. */
  ghost predicate FinalStep(a: Arch, maxLen: nat, before: seq<Instruction>, now: seq<Instruction>) {
    Thinned(before, now, maxLen) || FixupDone(a, before, now, !Exact(before))
  }

  ghost predicate FinalSteps(a: Arch, maxLen: nat, steps: seq<seq<Instruction>>) {
    && 0 < |steps|
    && forall i | 1 <= i < |steps| :: FinalStep(a, maxLen, steps[i - 1], steps[i])
  }

  /** Final steps start with the program itself, or with one generated instruction if it is empty. */
  ghost predicate StartsFrom(a: Arch, before: seq<Instruction>, start: seq<Instruction>) {
    if before == [] then GeneratedInto(a, before, start) else start == before
  }

  /** `now` is what throwing instructions away and fixing up makes of `before`. */
  ghost predicate FinalizedFrom(a: Arch, maxLen: nat, before: seq<Instruction>, now: seq<Instruction>) {
    exists steps :: FinalSteps(a, maxLen, steps) && StartsFrom(a, before, steps[0]) && steps[|steps| - 1] == now
  }

  lemma OneMoreStep(a: Arch, maxLen: nat, steps: seq<seq<Instruction>>, now: seq<Instruction>)
    requires FinalSteps(a, maxLen, steps) && FinalStep(a, maxLen, steps[|steps| - 1], now)
    ensures FinalSteps(a, maxLen, steps + [now])
  {
    var more := steps + [now];
    forall i | 1 <= i < |more|
      ensures FinalStep(a, maxLen, more[i - 1], more[i])
    {
      if i < |steps| {
        assert FinalStep(a, maxLen, steps[i - 1], steps[i]);
      }
    }
  }

  /** One fixup, and what it does to the state of finalisation. */
  method FixupStep(program: Program, maxLen: nat, rng: MutatorRng, ghost steps: seq<seq<Instruction>>)
    returns (modified: bool, ghost steps': seq<seq<Instruction>>)
    requires Lawful(program.arch) && Fair(rng.draws) && program.Valid()
    requires FinalSteps(program.arch, maxLen, steps) && steps[|steps| - 1] == program.instructions
    modifies program, rng
    ensures program.Valid() && !program.encodingsMayBeInvalid
    ensures modified <==> !Exact(old(program.instructions))
    ensures !modified ==>
      program.instructions == Relaid(old(program.instructions)) && program.byteLen == old(program.byteLen)
    ensures |program.instructions| == |old(program.instructions)|
    ensures AllAcceptable(program.arch, old(program.instructions)) ==> AllAcceptable(program.arch, program.instructions)
    ensures FinalSteps(program.arch, maxLen, steps') && steps'[0] == steps[0]
    ensures steps'[|steps'| - 1] == program.instructions
  {
    ghost var before := program.instructions;
    ghost var passes;
    modified, passes := program.FixupEncodedDisplacements(rng);
    if AllAcceptable(program.arch, before) {
      FixupKeepsAcceptable(program.arch, before, program.instructions, modified);
    }
    if !modified {
      UnmodifiedSize(program.arch, before, program.instructions);
    }
    OneMoreStep(program.arch, maxLen, steps, program.instructions);
    steps' := steps + [program.instructions];
  }

  /** Shortens the program if it is too long. */
  method LimitStep(program: Program, maxLen: nat, rng: MutatorRng, ghost steps: seq<seq<Instruction>>)
    returns (modified: bool, ghost steps': seq<seq<Instruction>>)
    requires program.Valid()
    requires FinalSteps(program.arch, maxLen, steps) && steps[|steps| - 1] == program.instructions
    modifies program, rng
    ensures program.Valid() && program.byteLen <= maxLen
    ensures modified <==> old(program.byteLen) > maxLen
    ensures !modified ==>
      && program.instructions == old(program.instructions)
      && program.encodingsMayBeInvalid == old(program.encodingsMayBeInvalid)
    ensures modified ==> |program.instructions| < |old(program.instructions)|
    ensures program.arch.bufferSize <= maxLen && old(program.instructions) != [] ==> program.instructions != []
    ensures AllAcceptable(program.arch, old(program.instructions)) ==> AllAcceptable(program.arch, program.instructions)
    ensures FinalSteps(program.arch, maxLen, steps') && steps'[0] == steps[0]
    ensures steps'[|steps'| - 1] == program.instructions
  {
    modified := LimitProgramLength(program, maxLen, rng);
    OneMoreStep(program.arch, maxLen, steps, program.instructions);
    steps' := steps + [program.instructions];
  }

  /** Fixes the program up, and shortens it again, until neither changes anything. */
  method SettleProgram(program: Program, maxLen: nat, rng: MutatorRng, ghost steps: seq<seq<Instruction>>)
    returns (ghost steps': seq<seq<Instruction>>)
    requires Lawful(program.arch) && Fair(rng.draws) && program.Valid() && program.byteLen <= maxLen
    requires FinalSteps(program.arch, maxLen, steps) && steps[|steps| - 1] == program.instructions
    modifies program, rng
    ensures program.Valid() && !program.encodingsMayBeInvalid && program.byteLen <= maxLen
    ensures program.arch.bufferSize <= maxLen && old(program.instructions) != [] ==> program.instructions != []
    ensures AllAcceptable(program.arch, old(program.instructions)) ==> AllAcceptable(program.arch, program.instructions)
    ensures Exact(old(program.instructions)) ==> program.instructions == Relaid(old(program.instructions))
    ensures FinalSteps(program.arch, maxLen, steps') && steps'[0] == steps[0]
    ensures steps'[|steps'| - 1] == program.instructions
  {
    ghost var given := program.instructions;
    ghost var settled, acceptable := Exact(given), AllAcceptable(program.arch, given);
    steps' := steps;
    var done := false;
    while !done
      invariant program.Valid() && program.byteLen <= maxLen
      invariant done ==> !program.encodingsMayBeInvalid
      invariant program.arch.bufferSize <= maxLen && given != [] ==> program.instructions != []
      invariant FinalSteps(program.arch, maxLen, steps') && steps'[0] == steps[0]
      invariant steps'[|steps'| - 1] == program.instructions
      invariant acceptable ==> AllAcceptable(program.arch, program.instructions)
      invariant settled ==> program.instructions == if done then Relaid(given) else given
      decreases !done, |program.instructions|
    {
      var modified;
      modified, steps' := FixupStep(program, maxLen, rng, steps');
      if !modified {
        done := true;
      } else {
        modified, steps' := LimitStep(program, maxLen, rng, steps');
        if !modified {
          done := true;
        }
      }
    }
  }

  /** Makes a program printable and at most `maxLen` bytes long. */
  method FinalizeProgram(program: Program, maxLen: nat, rng: MutatorRng)
    requires Lawful(program.arch) && Fair(rng.draws) && CanGenerate(program.arch)
    requires program.Valid()
    modifies program, rng
    ensures program.Valid() && !program.encodingsMayBeInvalid
    ensures program.byteLen <= maxLen
    ensures program.arch.bufferSize <= maxLen ==> program.byteLen > 0
    ensures FinalizedFrom(program.arch, maxLen, old(program.instructions), program.instructions)
    ensures AllAcceptable(program.arch, old(program.instructions)) ==> AllAcceptable(program.arch, program.instructions)
    ensures 0 < old(program.byteLen) <= maxLen && Exact(old(program.instructions)) ==>
      program.instructions == Relaid(old(program.instructions))
  {
    ghost var given := program.instructions;
    NoBytesNoInstructions(program.arch, given);
    AddInstructionIfZeroLength(program, rng);
    NoBytesNoInstructions(program.arch, program.instructions);
    ghost var steps := [program.instructions];
    assert StartsFrom(program.arch, given, steps[0]);
    var _, limited := LimitStep(program, maxLen, rng, steps);
    ghost var settled := SettleProgram(program, maxLen, rng, limited);
    NoBytesNoInstructions(program.arch, program.instructions);
    assert StartsFrom(program.arch, given, settled[0]);
  }

  /** `output` prints this program, whose branches are exact and whose instructions are acceptable. */
  predicate Printed(a: Arch, output: seq<bv8>, acceptable: bool, insns: seq<Instruction>) {
    && WellFormed(a, insns)
    && LaidOut(insns)
    && Exact(insns)
    && (acceptable ==> AllAcceptable(a, insns))
    && output == Encoding(insns)
  }

  /** `output` prints what finalising makes of the last program of a run of mutations of `input`. */
  ghost predicate MutatedTo(a: Arch, input: seq<Instruction>, other: seq<Instruction>, script: seq<Mutation>, maxLen: nat,
                            output: seq<bv8>, trace: seq<seq<Instruction>>, insns: seq<Instruction>) {
    && IsRun(a, script, other, trace)
    && trace[0] == input
    && FinalizedFrom(a, maxLen, trace[|script|], insns)
    && Printed(a, output, AllAcceptable(a, input) && AllAcceptable(a, other), insns)
  }

  ghost predicate IsOutput(a: Arch, input: seq<Instruction>, other: seq<Instruction>, script: seq<Mutation>, maxLen: nat,
                           output: seq<bv8>) {
    exists trace, insns :: MutatedTo(a, input, other, script, maxLen, output, trace, insns)
  }

  /** One mutated output. */
  method GenerateSingleOutput(input: Program, other: Program, script: seq<Mutation>, maxLen: nat, rng: MutatorRng)
    returns (output: seq<bv8>)
    requires Lawful(input.arch) && Fair(rng.draws) && CanGenerate(input.arch)
    requires input.Valid() && other.Valid() && input.arch == other.arch
    modifies rng
    ensures |output| <= maxLen
    ensures input.arch.bufferSize <= maxLen ==> |output| > 0
    ensures IsOutput(input.arch, input.instructions, other.instructions, script, maxLen, output)
  {
    var program := new Program.Copy(input);
    ghost var trace := RunMutations(script, program, other, rng);
    FinalizeProgram(program, maxLen, rng);
    output := program.ToBytes();
    assert MutatedTo(input.arch, input.instructions, other.instructions, script, maxLen, output, trace, program.instructions);
  }

  /** Constructing strictly, fixing up and printing gives the bytes back, and modifies nothing. */
  method StrictRoundTrip(arch: Arch, bytes: seq<bv8>, config: InstructionConfig, rng: MutatorRng)
    returns (output: seq<bv8>, modified: bool)
    requires Lawful(arch) && Fair(rng.draws)
    requires StrictlyDecodable(arch, config, bytes)
    modifies rng
    ensures output == bytes && !modified
  {
    var program := new Program.FromBytes(arch, bytes, config, true);
    StrictDecodeIsExact(arch, config, bytes);
    ghost var before := program.instructions;
    ghost var passes;
    modified, passes := program.FixupEncodedDisplacements(rng);
    EncodingDependsOnBytes(program.instructions, before, |before|);
    output := program.ToBytes();
  }
}
