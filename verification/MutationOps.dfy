/**
  The mutators of the fuzzer.  Each edits a program in place and tells whether it did
  anything; all of them keep the program well formed.
 */
module MutationOps {
  import opened Wrappers
  import opened Instructions
  import opened ProgramLayout
  import opened ProgramDecoding
  import opened MutatorRngs
  import opened RandomBuffers
  import opened Programs

  // ----- single instructions -----

  const GENERATION_ATTEMPTS: nat := 64

  /** `insn` is what the buffer starts with, which is accepted. */
  predicate FirstInstruction(a: Arch, buffer: seq<bv8>, insn: Instruction) {
    var r := a.fromBytes(buffer, DEFAULT_CONFIG);
    r.accepted && r.size <= |buffer| && insn == Instruction(buffer[..r.size], DisplacementInfo(r.displacement, None), 0)
  }

  /** Tries to find a random buffer that decodes to an acceptable instruction. */
  method GenerateSingleInstruction(a: Arch, rng: MutatorRng) returns (ok: bool, insn: Instruction)
    requires Lawful(a)
    modifies rng
    ensures ok ==> FreshInstruction(a, DEFAULT_CONFIG, insn)
    ensures ok ==>
      && old(rng.next) < rng.next <= old(rng.next) + 64
      && NoneGenerates(a, rng.draws, old(rng.next), rng.next - 1)
      && FirstInstruction(a, FillBuffer(rng.draws(rng.next - 1), a.bufferSize), insn)
    ensures !ok ==> rng.next == old(rng.next) + 64
    ensures !ok ==> NoneGenerates(a, rng.draws, old(rng.next), rng.next)
    ensures rng.next >= old(rng.next)
  {
    insn := Instruction([], NO_DISPLACEMENT, 0);
    for i := 0 to GENERATION_ATTEMPTS
      invariant rng.next == old(rng.next) + i
      invariant NoneGenerates(a, rng.draws, old(rng.next), rng.next)
    {
      var draw := rng.Draw();
      var buffer := FillBuffer(draw, a.bufferSize);
      var r := a.fromBytes(buffer, DEFAULT_CONFIG);
      assert DecodesSoundly(a, buffer, DEFAULT_CONFIG);
      if r.accepted {
        insn := Instruction(buffer[..r.size], DisplacementInfo(r.displacement, None), 0);
        return true, insn;
      }
    }
    return false, insn;
  }

  /** The bit of a byte with a given number, counted from the lowest. */
  function BitMask(j: nat): bv8
    requires j < 8
  {
    if j == 0 then 0x01 else if j == 1 then 0x02 else if j == 2 then 0x04 else if j == 3 then 0x08
    else if j == 4 then 0x10 else if j == 5 then 0x20 else if j == 6 then 0x40 else 0x80
  }

  /** That is 1, shifted. */
  lemma ShiftedBit(k: nat)
    requires k < 8
    ensures (1 as bv8) << k == BitMask(k)
  {}

  function FlippedInByte(b: bv8, k: nat): bv8
    requires k < 8
  {
    b ^ BitMask(k)
  }

  function FlipBit(buffer: seq<bv8>, bit: nat): seq<bv8>
    requires bit < 8 * |buffer|
  {
    buffer[bit / 8 := FlippedInByte(buffer[bit / 8], bit % 8)]
  }

  predicate SetInByte(b: bv8, j: nat)
    requires j < 8
  {
    b & BitMask(j) != 0
  }

  predicate DifferInByte(b: bv8, c: bv8, k: nat) {
    forall j | 0 <= j < 8 :: SetInByte(c, j) != SetInByte(b, j) <==> j == k
  }

  /** The two differ in exactly one bit. */
  predicate DifferInBit(before: seq<bv8>, now: seq<bv8>, bit: nat)
    requires bit < 8 * |before|
  {
    && |now| == |before|
    && (forall i | 0 <= i < |now| && i != bit / 8 :: now[i] == before[i])
    && DifferInByte(before[bit / 8], now[bit / 8], bit % 8)
  }

  lemma OneBitOfByte(b: bv8, k: nat)
    requires k < 8
    ensures DifferInByte(b, FlippedInByte(b, k), k)
  {
    forall j | 0 <= j < 8
      ensures SetInByte(FlippedInByte(b, k), j) != SetInByte(b, j) <==> j == k
    {
      FlippedBit(b, k, j);
    }
  }

  lemma FlippedBit(b: bv8, k: nat, j: nat)
    requires k < 8 && j < 8
    ensures SetInByte(FlippedInByte(b, k), j) != SetInByte(b, j) <==> j == k
  {
    FlippedMask(b, BitMask(k), BitMask(j));
  }

  lemma FlippedMask(b: bv8, m: bv8, n: bv8)
    requires n != 0 && n & (n - 1) == 0 && (m == n || m & n == 0)
    ensures ((b ^ m) & n != 0) != (b & n != 0) <==> m == n
  {}

  lemma FlipsOneBit(buffer: seq<bv8>, bit: nat)
    requires bit < 8 * |buffer|
    ensures DifferInBit(buffer, FlipBit(buffer, bit), bit)
  {
    OneBitOfByte(buffer[bit / 8], bit % 8);
  }

  /** Flips some bits, one after the other. */
  function FlipBits(buffer: seq<bv8>, bits: seq<nat>): (r: seq<bv8>)
    requires forall i | 0 <= i < |bits| :: bits[i] < 8 * |buffer|
    ensures |r| == |buffer|
  {
    if bits == [] then buffer else FlipBit(FlipBits(buffer, bits[..|bits| - 1]), bits[|bits| - 1])
  }

  /** Whether bit `p` is set, counted from the lowest bit of the first byte. */
  predicate BitSet(buffer: seq<bv8>, p: nat)
    requires p < 8 * |buffer|
  {
    SetInByte(buffer[p / 8], p % 8)
  }

  /** Flipping one bit toggles it and leaves all others. */
  lemma FlipToggles(buffer: seq<bv8>, bit: nat, p: nat)
    requires bit < 8 * |buffer| && p < 8 * |buffer|
    ensures |FlipBit(buffer, bit)| == |buffer|
    ensures BitSet(FlipBit(buffer, bit), p) != BitSet(buffer, p) <==> p == bit
  {
    FlipsOneBit(buffer, bit);
    SamePlace(p, bit);
  }

  lemma SamePlace(p: nat, q: nat)
    ensures p == q <==> p / 8 == q / 8 && p % 8 == q % 8
  {}

  /** A bit has changed if and only if it was flipped an odd number of times. */
  lemma {:induction false} FlipsToggle(buffer: seq<bv8>, bits: seq<nat>, p: nat)
    requires p < 8 * |buffer| && forall i | 0 <= i < |bits| :: bits[i] < 8 * |buffer|
    ensures BitSet(FlipBits(buffer, bits), p) != BitSet(buffer, p) <==> multiset(bits)[p] % 2 == 1
    decreases |bits|
  {
    if bits != [] {
      var front, last := bits[..|bits| - 1], bits[|bits| - 1];
      assert bits == front + [last];
      FlipsToggle(buffer, front, p);
      FlipToggles(FlipBits(buffer, front), last, p);
    }
  }

  /** `mutated` decodes from `start`, which begins with the original, with up to three bits of it flipped. */
  predicate NearMutation(original: Instruction, mutated: Instruction, start: seq<bv8>, bits: seq<nat>) {
    && original.encoded <= start
    && 1 <= |bits| <= 3
    && (forall i | 0 <= i < |bits| :: bits[i] < 8 * |original.encoded|)
    && mutated.encoded <= FlipBits(start, bits)
  }

  // The draws of one attempt: what fills the buffer, if sizes vary at all, and three bits.

  function FirstBit(a: Arch): nat {
    if a.maxSize != a.minSize then 1 else 0
  }

  function AttemptAt(a: Arch, from: nat, i: nat): nat {
    from + if a.maxSize != a.minSize then 4 * i else 3 * i
  }

  /** The original with random bytes behind it. */
  function AttemptStart(a: Arch, original: seq<bv8>, draws: nat -> nat, at: nat): (buffer: seq<bv8>)
    requires |original| <= a.bufferSize
    ensures |buffer| == a.bufferSize
  {
    original + FillBuffer(if a.maxSize != a.minSize then draws(at) else 0, a.bufferSize)[|original|..]
  }

  /** A random bit of `size` bytes. */
  function DrawnBit(draws: nat -> nat, k: nat, size: nat): (bit: nat)
    requires 0 < size
    ensures bit < 8 * size
  {
    IndexDrawn(draws, k, 8 * size)
  }

  /** The bits are those that the draws from `from` on give, for `size` bytes. */
  predicate AreDrawn(bits: seq<nat>, draws: nat -> nat, from: nat, size: nat)
    requires 0 < size
  {
    forall i | 0 <= i < |bits| :: bits[i] == DrawnBit(draws, from + i, size)
  }

  /** What the buffer holds after flipping these bits is accepted. */
  predicate AcceptedAfter(a: Arch, start: seq<bv8>, bits: seq<nat>) {
    && (forall i | 0 <= i < |bits| :: bits[i] < 8 * |start|)
    && a.fromBytes(FlipBits(start, bits), DEFAULT_CONFIG).accepted
  }

  /** Flipping the bits one after the other, nothing is accepted after any of the first `j` flips. */
  predicate NoneAccepted(a: Arch, start: seq<bv8>, bits: seq<nat>, j: nat)
    requires j <= |bits|
  {
    forall l | 1 <= l <= j :: !AcceptedAfter(a, start, bits[..l])
  }

  /** An attempt with the draws from `at` on gives nothing. */
  ghost predicate Fails(a: Arch, original: seq<bv8>, draws: nat -> nat, at: nat)
    requires 0 < |original| <= a.bufferSize
  {
    exists bits: seq<nat> ::
      && AreDrawn(bits, draws, at + FirstBit(a), |original|)
      && |bits| == 3 && NoneAccepted(a, AttemptStart(a, original, draws, at), bits, 3)
  }

  /** An attempt with the draws from `at` on gives `mutated`, with the last of some flips, and not before. */
  predicate Succeeds(a: Arch, original: seq<bv8>, draws: nat -> nat, at: nat, bits: seq<nat>, mutated: Instruction)
    requires 0 < |original| <= a.bufferSize
  {
    var start := AttemptStart(a, original, draws, at);
    && 1 <= |bits| <= 3
    && AreDrawn(bits, draws, at + FirstBit(a), |original|)
    && (forall i | 0 <= i < |bits| :: bits[i] < 8 * |original|)
    && NoneAccepted(a, start, bits, |bits| - 1)
    && FirstInstruction(a, FlipBits(start, bits), mutated)
  }

  /** Flips a random bit of the first `size` bytes. */
  method FlipRandomBit(rng: MutatorRng, buffer: seq<bv8>, size: nat) returns (flipped: seq<bv8>, ghost bit: nat)
    requires 0 < size <= |buffer|
    modifies rng
    ensures rng.next == old(rng.next) + 1
    ensures bit == DrawnBit(rng.draws, old(rng.next), size)
    ensures flipped == FlipBit(buffer, bit)
  {
    var index := rng.RandomIndex(8 * size);
    flipped := FlipBit(buffer, index);
    bit := index;
  }

  /** One attempt: flips up to three bits until something is accepted. */
  method TryMutation(a: Arch, original: Instruction, rng: MutatorRng)
    returns (ok: bool, mutated: Instruction, ghost bits: seq<nat>)
    requires Lawful(a) && 0 < |original.encoded| <= a.bufferSize
    modifies rng
    ensures rng.next == old(rng.next) + FirstBit(a) + |bits|
    ensures ok ==> Succeeds(a, original.encoded, rng.draws, old(rng.next), bits, mutated)
    ensures !ok ==> |bits| == 3 && Fails(a, original.encoded, rng.draws, old(rng.next))
  {
    mutated := Instruction([], NO_DISPLACEMENT, 0);
    ghost var at := rng.next;
    var size := |original.encoded|;
    var draw := 0;
    if a.maxSize != a.minSize {
      draw := rng.Draw();
    }
    var buffer := original.encoded + FillBuffer(draw, a.bufferSize)[size..];
    bits := [];
    for j := 0 to 3
      invariant |bits| == j && rng.next == at + FirstBit(a) + j
      invariant Trying(a, original.encoded, rng.draws, at, bits, buffer)
      invariant j == 3 ==> Fails(a, original.encoded, rng.draws, at)
    {
      ghost var front, before := bits, buffer;
      ghost var bit;
      buffer, bit := FlipRandomBit(rng, buffer, size);
      bits := front + [bit];
      var r := a.fromBytes(buffer, DEFAULT_CONFIG);
      FlippedOnce(a, original.encoded, rng.draws, at, front, before, bit, buffer);
      if r.accepted {
        mutated := Instruction(buffer[..r.size], DisplacementInfo(r.displacement, None), 0);
        return true, mutated, bits;
      }
    }
    return false, mutated, bits;
  }

  /** The state of an attempt: nothing was accepted after flipping these bits one after the other. */
  predicate Trying(a: Arch, original: seq<bv8>, draws: nat -> nat, at: nat, bits: seq<nat>, buffer: seq<bv8>)
    requires 0 < |original| <= a.bufferSize
  {
    && AreDrawn(bits, draws, at + FirstBit(a), |original|)
    && (forall i | 0 <= i < |bits| :: bits[i] < 8 * |original|)
    && buffer == FlipBits(AttemptStart(a, original, draws, at), bits)
    && NoneAccepted(a, AttemptStart(a, original, draws, at), bits, |bits|)
  }

  lemma FlippedOnce(a: Arch, original: seq<bv8>, draws: nat -> nat, at: nat, front: seq<nat>, before: seq<bv8>,
                    bit: nat, buffer: seq<bv8>)
    requires Lawful(a) && 0 < |original| <= a.bufferSize && |front| < 3
    requires Trying(a, original, draws, at, front, before)
    requires bit == DrawnBit(draws, at + FirstBit(a) + |front|, |original|) && buffer == FlipBit(before, bit)
    ensures var r := a.fromBytes(buffer, DEFAULT_CONFIG);
      if r.accepted then
        && r.size <= |buffer|
        && Succeeds(a, original, draws, at, front + [bit],
             Instruction(buffer[..r.size], DisplacementInfo(r.displacement, None), 0))
      else
        && Trying(a, original, draws, at, front + [bit], buffer)
        && (|front| == 2 ==> Fails(a, original, draws, at))
  {
    var start, bits := AttemptStart(a, original, draws, at), front + [bit];
    assert DecodesSoundly(a, buffer, DEFAULT_CONFIG);
    OneMoreFlip(a, start, front, bit);
    assert AreDrawn(bits, draws, at + FirstBit(a), |original|);
    if !a.fromBytes(buffer, DEFAULT_CONFIG).accepted && |front| == 2 {
      AttemptFails(a, original, draws, at, bits);
    }
  }

  lemma AttemptFails(a: Arch, original: seq<bv8>, draws: nat -> nat, at: nat, bits: seq<nat>)
    requires 0 < |original| <= a.bufferSize
    requires |bits| == 3 && AreDrawn(bits, draws, at + FirstBit(a), |original|)
    requires NoneAccepted(a, AttemptStart(a, original, draws, at), bits, 3)
    ensures Fails(a, original, draws, at)
  {}

  lemma OneMoreFlip(a: Arch, start: seq<bv8>, front: seq<nat>, bit: nat)
    requires forall i | 0 <= i < |front| :: front[i] < 8 * |start|
    requires bit < 8 * |start| && NoneAccepted(a, start, front, |front|)
    ensures FlipBits(start, front + [bit]) == FlipBit(FlipBits(start, front), bit)
    ensures NoneAccepted(a, start, front + [bit], |front|)
    ensures !a.fromBytes(FlipBits(start, front + [bit]), DEFAULT_CONFIG).accepted ==>
      NoneAccepted(a, start, front + [bit], |front| + 1)
  {
    var bits := front + [bit];
    assert bits[..|front|] == front && bits[..|bits|] == bits;
    forall l | 1 <= l <= |front|
      ensures !AcceptedAfter(a, start, bits[..l])
    {
      assert bits[..l] == front[..l];
    }
  }

  /** The draws of the first `i` attempts gave nothing. */
  ghost predicate AllFail(a: Arch, original: seq<bv8>, draws: nat -> nat, from: nat, i: nat)
    requires 0 < |original| <= a.bufferSize
  {
    forall k: nat | k < i :: Fails(a, original, draws, AttemptAt(a, from, k))
  }

  lemma OneMoreFails(a: Arch, original: seq<bv8>, draws: nat -> nat, from: nat, i: nat)
    requires 0 < |original| <= a.bufferSize
    requires AllFail(a, original, draws, from, i) && Fails(a, original, draws, AttemptAt(a, from, i))
    ensures AllFail(a, original, draws, from, i + 1)
  {
    forall k: nat | k < i + 1
      ensures Fails(a, original, draws, AttemptAt(a, from, k))
    {
      if k < i {
        assert Fails(a, original, draws, AttemptAt(a, from, k));
      }
    }
  }

  /** Attempt `i` was the first to succeed. */
  ghost predicate SucceedsAt(a: Arch, original: seq<bv8>, draws: nat -> nat, from: nat, to: nat, mutated: Instruction,
                             i: nat, bits: seq<nat>)
    requires 0 < |original| <= a.bufferSize
  {
    && i < 64
    && AllFail(a, original, draws, from, i)
    && Succeeds(a, original, draws, AttemptAt(a, from, i), bits, mutated)
    && to == AttemptAt(a, from, i) + FirstBit(a) + |bits|
  }

  lemma SuccessIsNear(a: Arch, original: Instruction, draws: nat -> nat, at: nat, bits: seq<nat>, mutated: Instruction)
    requires Lawful(a) && 0 < |original.encoded| <= a.bufferSize
    requires Succeeds(a, original.encoded, draws, at, bits, mutated)
    ensures FreshInstruction(a, DEFAULT_CONFIG, mutated)
    ensures exists start: seq<bv8>, bits: seq<nat> :: NearMutation(original, mutated, start, bits)
  {
    var start := AttemptStart(a, original.encoded, draws, at);
    assert DecodesSoundly(a, FlipBits(start, bits), DEFAULT_CONFIG);
    assert NearMutation(original, mutated, start, bits);
  }

  /** Tries to flip bits of an instruction until it decodes to an acceptable one, at most 64 times. */
  method MutateSingleInstruction(a: Arch, original: Instruction, rng: MutatorRng)
    returns (ok: bool, mutated: Instruction)
    requires Lawful(a) && 0 < |original.encoded| <= a.bufferSize
    modifies rng
    ensures ok ==> FreshInstruction(a, DEFAULT_CONFIG, mutated)
    ensures ok ==> exists start: seq<bv8>, bits: seq<nat> :: NearMutation(original, mutated, start, bits)
    ensures ok ==> exists i, bits ::
      SucceedsAt(a, original.encoded, rng.draws, old(rng.next), rng.next, mutated, i, bits)
    ensures !ok ==>
      && AllFail(a, original.encoded, rng.draws, old(rng.next), 64)
      && rng.next == AttemptAt(a, old(rng.next), 64)
  {
    mutated := Instruction([], NO_DISPLACEMENT, 0);
    for i := 0 to 64
      invariant AllFail(a, original.encoded, rng.draws, old(rng.next), i)
      invariant rng.next == AttemptAt(a, old(rng.next), i)
    {
      ghost var at := rng.next;
      ghost var bits;
      ok, mutated, bits := TryMutation(a, original, rng);
      if ok {
        SuccessIsNear(a, original, rng.draws, at, bits, mutated);
        assert SucceedsAt(a, original.encoded, rng.draws, old(rng.next), rng.next, mutated, i, bits);
        return true, mutated;
      }
      OneMoreFails(a, original.encoded, rng.draws, old(rng.next), i);
    }
    return false, mutated;
  }

  // ----- boundaries of copied instructions -----

  /** Keeps the boundary of a mutated instruction if its displacement is untouched. */
  method CopyOrRandomizeInstructionDisplacementBoundaries(
    original: Instruction, mutated: Instruction, numBoundaries: nat, rng: MutatorRng) returns (r: Instruction)
    requires ConsistentBranch(original.branch, numBoundaries) && 0 < numBoundaries
    requires mutated.branch.boundary.None?
    modifies rng
    ensures r.encoded == mutated.encoded && r.branch.byteDisplacement == mutated.branch.byteDisplacement
    ensures ConsistentBranch(r.branch, numBoundaries)
    ensures mutated.branch.Valid() && original.branch.byteDisplacement == mutated.branch.byteDisplacement ==>
      r.branch.boundary == original.branch.boundary
    ensures mutated.branch.Valid() && original.branch.byteDisplacement != mutated.branch.byteDisplacement ==>
      r.branch.boundary == Some(IndexDrawn(rng.draws, old(rng.next), numBoundaries))
  {
    if mutated.branch.Valid() && original.branch.Valid()
       && mutated.branch.byteDisplacement == original.branch.byteDisplacement {
      r := mutated.(branch := mutated.branch.(boundary := original.branch.boundary));
    } else {
      r := RandomizeInstructionDisplacementBoundaries(mutated, numBoundaries, rng);
    }
  }

  /** `moved` is `insn` with its boundary shifted, or anywhere if that would leave the program. */
  predicate ShiftedOrRedrawn(insn: Instruction, moved: Instruction, indexOffset: int, numBoundaries: nat) {
    && moved.encoded == insn.encoded
    && moved.branch.byteDisplacement == insn.branch.byteDisplacement
    && ConsistentBranch(moved.branch, numBoundaries)
    && (insn.branch.Valid() && insn.branch.boundary.Some?
        && 0 <= insn.branch.boundary.value + indexOffset < numBoundaries ==>
          moved.branch.boundary == Some(insn.branch.boundary.value + indexOffset))
  }

  method ShiftOrRandomizeInstructionDisplacementBoundaries(
    insn: Instruction, indexOffset: int, numBoundaries: nat, rng: MutatorRng) returns (r: Instruction)
    requires 0 < numBoundaries && (insn.branch.Valid() <==> insn.branch.boundary.Some?)
    modifies rng
    ensures rng.next >= old(rng.next)
    ensures ShiftedOrRedrawn(insn, r, indexOffset, numBoundaries)
    ensures insn.branch.Valid() && !(0 <= insn.branch.boundary.value + indexOffset < numBoundaries) ==>
      r.branch.boundary == Some(IndexDrawn(rng.draws, old(rng.next), numBoundaries))
  {
    r := insn;
    if insn.branch.Valid() {
      var shifted: int := insn.branch.boundary.value + indexOffset;
      if shifted < 0 || shifted >= numBoundaries {
        shifted := rng.RandomIndex(numBoundaries);
      }
      r := insn.(branch := insn.branch.(boundary := Some(shifted)));
    }
  }

  predicate BlockShifted(source: seq<Instruction>, block: seq<Instruction>, indexOffset: int, numBoundaries: nat) {
    && |block| == |source|
    && forall j | 0 <= j < |block| :: ShiftedOrRedrawn(source[j], block[j], indexOffset, numBoundaries)
  }

  method ShiftOrRandomizeBlock(source: seq<Instruction>, indexOffset: int, numBoundaries: nat, rng: MutatorRng)
    returns (block: seq<Instruction>)
    requires 0 < numBoundaries
    requires forall insn | insn in source :: insn.branch.Valid() <==> insn.branch.boundary.Some?
    modifies rng
    ensures BlockShifted(source, block, indexOffset, numBoundaries)
    ensures rng.next >= old(rng.next)
  {
    block := [];
    for j := 0 to |source|
      invariant BlockShifted(source[..j], block, indexOffset, numBoundaries)
      invariant rng.next >= old(rng.next)
    {
      var insn := ShiftOrRandomizeInstructionDisplacementBoundaries(source[j], indexOffset, numBoundaries, rng);
      block := block + [insn];
    }
    assert source[..|source|] == source;
  }

  lemma BlockWellFormed(a: Arch, insns: seq<Instruction>, index: nat, block: seq<Instruction>,
                        indexOffset: int, numBoundaries: nat)
    requires WellFormed(a, insns) && index + |block| <= |insns|
    requires BlockShifted(insns[index..index + |block|], block, indexOffset, numBoundaries)
    ensures WellFormedBlock(a, block, numBoundaries)
    ensures AllAcceptable(a, insns) ==> AllAcceptable(a, block)
  {}
}
