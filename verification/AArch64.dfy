/**
  AArch64 as an architecture of the program editor: four-byte instructions, whose bytes are
  little-endian words.  The disassembler that decides whether bytes are a valid encoding is
  a parameter.
 */
module AArch64 {
  import opened Wrappers
  import opened Instructions
  import opened ProgramLayout
  import opened ProgramDecoding
  import opened FixupPasses
  import opened RandomBuffers
  import opened BatchMutators
  import opened MutatorRngs
  import opened Programs
  import Filter = StaticInsnFilter
  import opened AArch64Branches
  import opened FilteredClasses
  import opened FilterTables

  // ----- words -----

  function Join(b0: bv8, b1: bv8, b2: bv8, b3: bv8): bv32 {
    (b0 as bv32) | ((b1 as bv32) << 8) | ((b2 as bv32) << 16) | ((b3 as bv32) << 24)
  }

  function ByteOf(w: bv32, i: nat): bv8
    requires i < 4
  {
    if i == 0 then (w & 0xff) as bv8
    else if i == 1 then ((w >> 8) & 0xff) as bv8
    else if i == 2 then ((w >> 16) & 0xff) as bv8
    else ((w >> 24) & 0xff) as bv8
  }

  /** The word that starts at byte `at`. */
  function WordAt(code: seq<bv8>, at: nat): bv32
    requires at + 4 <= |code|
  {
    Join(code[at], code[at + 1], code[at + 2], code[at + 3])
  }

  function WordBytes(w: bv32): (bytes: seq<bv8>)
    ensures |bytes| == 4
  {
    [ByteOf(w, 0), ByteOf(w, 1), ByteOf(w, 2), ByteOf(w, 3)]
  }

  /** The word that the bytes of a rewritten instruction hold. */
  lemma WordOfBytes(w: bv32)
    ensures WordAt(WordBytes(w), 0) == w
  {}

  /** The word is little-endian: its value in terms of its bytes. */
  lemma WordValue(b0: bv8, b1: bv8, b2: bv8, b3: bv8)
    ensures WordAt([b0, b1, b2, b3], 0)
      == (b0 as bv32) + 256 * (b1 as bv32) + 65536 * (b2 as bv32) + 16777216 * (b3 as bv32)
  {
    JoinIsSum(b0 as bv32, b1 as bv32, b2 as bv32, b3 as bv32);
  }

  lemma JoinIsSum(x0: bv32, x1: bv32, x2: bv32, x3: bv32)
    requires x0 < 256 && x1 < 256 && x2 < 256 && x3 < 256
    ensures x0 | (x1 << 8) | (x2 << 16) | (x3 << 24) == x0 + 256 * x1 + 65536 * x2 + 16777216 * x3
  {}

  /** Four bytes are determined by the word they hold. */
  lemma BytesOfWord(bytes: seq<bv8>)
    requires |bytes| == 4
    ensures WordBytes(WordAt(bytes, 0)) == bytes
  {
    JoinedBytes(bytes[0], bytes[1], bytes[2], bytes[3]);
  }

  lemma JoinedBytes(b0: bv8, b1: bv8, b2: bv8, b3: bv8)
    ensures WordBytes(Join(b0, b1, b2, b3)) == [b0, b1, b2, b3]
  {}

  // ----- the static filter over code -----

  /** Code passes the filter when it consists of whole words that all pass. */
  predicate StaticInstructionFilter(code: seq<bv8>, config: Filter.InstructionFilterConfig) {
    && |code| % 4 == 0
    && forall k | 0 <= k < |code| / 4 :: Filter.InstructionIsOK(WordAt(code, 4 * k), config)
  }

  method FilterCode(code: seq<bv8>, config: Filter.InstructionFilterConfig) returns (ok: bool)
    ensures ok == StaticInstructionFilter(code, config)
  {
    if |code| % 4 != 0 {
      return false;
    }
    for k := 0 to |code| / 4
      invariant forall j | 0 <= j < k :: Filter.InstructionIsOK(WordAt(code, 4 * j), config)
    {
      if !Filter.InstructionIsOK(WordAt(code, 4 * k), config) {
        return false;
      }
    }
    return true;
  }

  lemma FilterConcatenation(s: seq<bv8>, t: seq<bv8>, config: Filter.InstructionFilterConfig)
    requires StaticInstructionFilter(s, config) && StaticInstructionFilter(t, config)
    ensures StaticInstructionFilter(s + t, config)
  {
    var code := s + t;
    forall k | 0 <= k < |code| / 4
      ensures Filter.InstructionIsOK(WordAt(code, 4 * k), config)
    {
      if k < |s| / 4 {
        assert WordAt(code, 4 * k) == WordAt(s, 4 * k);
      } else {
        assert WordAt(code, 4 * k) == WordAt(t, 4 * (k - |s| / 4));
      }
    }
  }

  // ----- the architecture -----

  function DisplacementOf(bytes: seq<bv8>): Option<int> {
    if |bytes| == 4 && FindBranchInfo(WordAt(bytes, 0)).Some? then
      Some(EncodedDisplacement(WordAt(bytes, 0), FindBranchInfo(WordAt(bytes, 0)).value))
    else None
  }

  predicate Acceptable(bytes: seq<bv8>) {
    StaticInstructionFilter(bytes, Filter.DEFAULT_CONFIG)
  }

  function InstructionFromBytes(disassembles: seq<bv8> -> bool, bytes: seq<bv8>, config: InstructionConfig): Decoded {
    if |bytes| < 4 then Decoded(false, 0, None)
    else if config.requireValidEncoding && !disassembles(bytes) then Decoded(false, 4, None)
    else
      var displacement := LimitedDisplacement(DisplacementOf(bytes[..4]), config.displacementFixupLimit);
      Decoded(config.filter ==> Acceptable(bytes[..4]), 4, displacement)
  }

  function Reencode(bytes: seq<bv8>, d: int): (seq<bv8>, bool) {
    if DisplacementOf(bytes).Some? then
      var r := Reencoded(WordAt(bytes, 0), d);
      (WordBytes(r.0), r.1)
    else (bytes, false)
  }

  function AArch64Arch(disassembles: seq<bv8> -> bool): Arch {
    Arch(4, 4, 4,
      (bytes, config) => InstructionFromBytes(disassembles, bytes, config),
      Reencode,
      DisplacementOf,
      _ => true,
      Acceptable)
  }

  /** Acceptable are whole words that are in no class that is to be rejected. */
  lemma AcceptableWords(bytes: seq<bv8>)
    ensures Acceptable(bytes) <==>
      |bytes| % 4 == 0 && forall k | 0 <= k < |bytes| / 4 :: !AlwaysRejected(WordAt(bytes, 4 * k))
  {
    forall k | 0 <= k < |bytes| / 4
      ensures Filter.InstructionIsOK(WordAt(bytes, 4 * k), Filter.DEFAULT_CONFIG) <==>
        !AlwaysRejected(WordAt(bytes, 4 * k))
    {
      DefaultFilter(WordAt(bytes, 4 * k));
    }
  }

  /** Re-encoding a branch gives a branch of the same class, which decodes to what was asked if that fits. */
  lemma ReencodedBranch(bytes: seq<bv8>, d: int)
    requires DisplacementOf(bytes).Some?
    ensures var info := FindBranchInfo(WordAt(bytes, 0)).value;
      var r := Reencode(bytes, d);
      && |r.0| == 4
      && FindBranchInfo(WordAt(r.0, 0)) == Some(info)
      && DisplacementOf(r.0).Some?
      && (r.1 <==> DisplacementOf(r.0) == Some(d))
      && (r.1 <==> Encodable(d, Width(info)))
  {
    var insn := WordAt(bytes, 0);
    WordOfBytes(Reencoded(insn, d).0);
    ReencodeKeepsClass(insn, d);
    ReencodeExact(insn, d);
  }

  lemma BranchAcceptable(bytes: seq<bv8>)
    requires DisplacementOf(bytes).Some?
    ensures Acceptable(bytes)
  {
    BranchesPassFilter(WordAt(bytes, 0), Filter.DEFAULT_CONFIG);
  }

  lemma ReencodesBranch(disassembles: seq<bv8> -> bool, bytes: seq<bv8>, d: int)
    requires AArch64Arch(disassembles).Branch(bytes)
    ensures ReencodesSoundly(AArch64Arch(disassembles), bytes, d)
  {
    var info := FindBranchInfo(WordAt(bytes, 0)).value;
    ReencodedBranch(bytes, d);
    BranchAcceptable(Reencode(bytes, d).0);
    EncodedIsEncodable(WordAt(bytes, 0));
    ZeroIsEncodable(Width(info));
  }

  lemma ZeroIsEncodable(width: nat)
    ensures Encodable(0, width)
  {}

  lemma FitsAnyBranch(disassembles: seq<bv8> -> bool, bytes: seq<bv8>, d: int, d': int)
    requires AArch64Arch(disassembles).Branch(bytes)
    ensures FitsStably(AArch64Arch(disassembles), bytes, d, d')
  {
    ReencodedBranch(bytes, d);
    ReencodedBranch(bytes, d');
    ReencodedBranch(Reencode(bytes, d).0, d');
  }

  /** AArch64 is an architecture as the editor requires it, whatever the disassembler accepts. */
  lemma AArch64Lawful(disassembles: seq<bv8> -> bool)
    ensures Lawful(AArch64Arch(disassembles))
  {
    var a := AArch64Arch(disassembles);
    forall bytes, config
      ensures DecodesSoundly(a, bytes, config)
    {
    }
    forall bytes, d | a.Branch(bytes)
      ensures ReencodesSoundly(a, bytes, d)
    {
      ReencodesBranch(disassembles, bytes, d);
    }
    forall bytes, d, d' | a.Branch(bytes) && a.canonical(bytes)
      ensures FitsStably(a, bytes, d, d')
    {
      FitsAnyBranch(disassembles, bytes, d, d');
    }
  }

  method StoreWord(buffer: array<bv8>, w: bv32)
    requires buffer.Length == 4
    modifies buffer
    ensures buffer[..] == WordBytes(w)
  {
    buffer[0], buffer[1], buffer[2], buffer[3] := ByteOf(w, 0), ByteOf(w, 1), ByteOf(w, 2), ByteOf(w, 3);
  }

  /** Re-encodes the branch at the start of a buffer in place: the first matching class decides. */
  method TryToReencodeInstructionDisplacements(buffer: array<bv8>, d: int) returns (ok: bool)
    requires DisplacementOf(buffer[..]).Some?
    modifies buffer
    ensures (buffer[..], ok) == Reencode(old(buffer[..]), d)
  {
    var insn := WordAt(buffer[..], 0);
    var info := FindBranch(insn);
    var insn' := RewrittenWord(insn, info.value, d);
    StoreWord(buffer, insn');
    ok := EncodedDisplacement(insn', info.value) == d;
  }

  // ----- which targets survive the fixup -----

  /**
    On AArch64, where instructions never change size, the fixup keeps the target of a branch
    exactly when the distance to it fits the displacement field of the branch.
   */
  lemma FixupKeepsReachableTargets(
    disassembles: seq<bv8> -> bool, before: seq<Instruction>, now: seq<Instruction>, modified: bool, k: nat)
    requires WellFormed(AArch64Arch(disassembles), before)
    requires FixupDone(AArch64Arch(disassembles), before, now, modified)
    requires k < |before| && before[k].branch.Valid()
    ensures DisplacementOf(before[k].encoded).Some?
    ensures before[k].branch.boundary.Some? && before[k].branch.boundary.value <= |before|
    ensures now[k].branch.boundary == before[k].branch.boundary <==>
      Encodable(TargetDistance(before, k), Width(FindBranchInfo(WordAt(before[k].encoded, 0)).value))
  {
    var a := AArch64Arch(disassembles);
    assert WellFormedInstruction(a, before[k], |before| + 1);
    assert AllCanonical(a, before);
    assert KeptAt(a, before, now, k);
    ReencodedBranch(before[k].encoded, TargetDistance(before, k));
  }

  /** However often a branch is re-encoded, it stays in its class and keeps all bits outside its field. */
  lemma {:induction false} AlongKeepsFixedBits(disassembles: seq<bv8> -> bool, bytes: seq<bv8>, ds: seq<int>)
    requires DisplacementOf(bytes).Some?
    ensures var info := FindBranchInfo(WordAt(bytes, 0)).value;
      var along := ReencodedAlong(AArch64Arch(disassembles), bytes, ds);
      && DisplacementOf(along).Some?
      && FindBranchInfo(WordAt(along, 0)) == Some(info)
      && FixedBits(WordAt(along, 0), info) == FixedBits(WordAt(bytes, 0), info)
    decreases |ds|
  {
    if ds != [] {
      AlongKeepsFixedBits(disassembles, bytes, ds[..|ds| - 1]);
      var last := ReencodedAlong(AArch64Arch(disassembles), bytes, ds[..|ds| - 1]);
      ReencodedBranch(last, ds[|ds| - 1]);
      ReencodeKeepsClass(WordAt(last, 0), ds[|ds| - 1]);
      WordOfBytes(Reencoded(WordAt(last, 0), ds[|ds| - 1]).0);
    }
  }

  /**
    The fixup rewrites nothing but displacement fields: a branch stays in its class with all other
    bits, and is its original word re-encoded for the distance to its target; everything else keeps
    its bytes.
   */
  lemma FixupRewritesFields(
    disassembles: seq<bv8> -> bool, before: seq<Instruction>, now: seq<Instruction>, modified: bool, k: nat)
    requires WellFormed(AArch64Arch(disassembles), before)
    requires FixupDone(AArch64Arch(disassembles), before, now, modified) && k < |before|
    ensures |now| == |before|
    ensures !before[k].branch.Valid() ==> now[k].encoded == before[k].encoded
    ensures before[k].branch.Valid() ==>
      && DisplacementOf(before[k].encoded).Some? && DisplacementOf(now[k].encoded).Some?
      && var info := FindBranchInfo(WordAt(before[k].encoded, 0)).value;
      && FindBranchInfo(WordAt(now[k].encoded, 0)) == Some(info)
      && FixedBits(WordAt(now[k].encoded, 0), info) == FixedBits(WordAt(before[k].encoded, 0), info)
      && now[k].branch.boundary.Some? && now[k].branch.boundary.value <= |now|
      && Reencode(before[k].encoded, TargetDistance(now, k)) == (now[k].encoded, true)
  {
    var a := AArch64Arch(disassembles);
    assert WellFormedInstruction(a, before[k], |before| + 1) && WellFormedInstruction(a, now[k], |now| + 1);
    assert Reworked(a, before[k], now[k]);
    if before[k].branch.Valid() {
      var ds :| RewrittenBy(a, before[k], now[k], ds);
      AlongKeepsFixedBits(disassembles, before[k].encoded, ds);
      assert ExactAt(now, k);
      ReencodedIs(WordAt(before[k].encoded, 0), WordAt(now[k].encoded, 0), TargetDistance(now, k));
      BytesOfWord(now[k].encoded);
    }
  }

  // ----- which instructions are decoded -----

  /** Decoding comes to every fourth byte. */
  lemma {:induction false} EveryFourthByte(
    disassembles: seq<bv8> -> bool, config: InstructionConfig, bytes: seq<bv8>, positions: seq<nat>, j: nat)
    requires Positions(AArch64Arch(disassembles), config, bytes, 0, positions) && j < |positions|
    ensures positions[j] == 4 * j
    decreases j
  {
    if j > 0 {
      EveryFourthByte(disassembles, config, bytes, positions, j - 1);
      assert FollowsOn(AArch64Arch(disassembles), config, bytes, positions, j - 1);
    }
  }

  /** The word at offset `o` becomes an instruction. */
  predicate WordDecodes(disassembles: seq<bv8> -> bool, config: InstructionConfig, bytes: seq<bv8>, o: nat) {
    && o % 4 == 0 && o + 4 <= |bytes|
    && (config.requireValidEncoding ==> disassembles(bytes[o..]))
    && (config.filter ==> Filter.InstructionIsOK(WordAt(bytes, o), Filter.DEFAULT_CONFIG))
  }

  /** The displacement of a word if it is a direct branch by less than `limit` bytes, either way. */
  function ShortDisplacement(word: seq<bv8>, limit: nat): Option<int> {
    match DisplacementOf(word)
    case None => None
    case Some(d) => if -(limit as int) < d < limit then Some(d) else None
  }

  lemma DecodedFields(disassembles: seq<bv8> -> bool, config: InstructionConfig, bytes: seq<bv8>, o: nat, insn: Instruction)
    requires DecodedAt(AArch64Arch(disassembles), config, bytes, o, insn)
    ensures insn.offset == o && o + 4 <= |bytes| && insn.encoded == bytes[o..o + 4]
    ensures insn.branch.boundary.None?
    ensures insn.branch.byteDisplacement == ShortDisplacement(bytes[o..o + 4], config.displacementFixupLimit)
  {
    assert bytes[o..][..4] == bytes[o..o + 4];
  }

  /** Whatever comes before it, a word is decoded if and only if it is valid and passes the filter. */
  lemma DecodedWords(
    disassembles: seq<bv8> -> bool, config: InstructionConfig, bytes: seq<bv8>, insns: seq<Instruction>, o: nat)
    requires Lawful(AArch64Arch(disassembles)) && insns == DecodeFrom(AArch64Arch(disassembles), config, bytes, 0)
    ensures (exists k :: 0 <= k < |insns| && insns[k].offset == o) <==> WordDecodes(disassembles, config, bytes, o)
    ensures forall k | 0 <= k < |insns| && insns[k].offset == o ::
      && o + 4 <= |bytes| && insns[k].encoded == bytes[o..o + 4]
      && insns[k].branch.boundary.None?
      && insns[k].branch.byteDisplacement == ShortDisplacement(bytes[o..o + 4], config.displacementFixupLimit)
  {
    var a := AArch64Arch(disassembles);
    var positions := DecodesAccepted(a, config, bytes, 0);
    var accepted := Accepted(a, config, bytes, positions);
    forall k | 0 <= k < |insns|
      ensures insns[k].offset == accepted[k]
      ensures accepted[k] + 4 <= |bytes| && insns[k].encoded == bytes[accepted[k]..accepted[k] + 4]
      ensures insns[k].branch == DisplacementInfo(
        ShortDisplacement(bytes[accepted[k]..accepted[k] + 4], config.displacementFixupLimit), None)
    {
      DecodedFields(disassembles, config, bytes, accepted[k], insns[k]);
    }
    AcceptedOffsets(disassembles, config, bytes, positions, o);
    if o in accepted {
      var k :| 0 <= k < |accepted| && accepted[k] == o;
      assert insns[k].offset == o;
    }
  }

  lemma AcceptedOffsets(
    disassembles: seq<bv8> -> bool, config: InstructionConfig, bytes: seq<bv8>, positions: seq<nat>, o: nat)
    requires Positions(AArch64Arch(disassembles), config, bytes, 0, positions)
    ensures o in Accepted(AArch64Arch(disassembles), config, bytes, positions) <==>
      WordDecodes(disassembles, config, bytes, o)
  {
    AcceptedContains(AArch64Arch(disassembles), config, bytes, positions, o);
    EveryPosition(disassembles, config, bytes, positions, o);
    if o < |bytes| {
      AcceptedWord(disassembles, config, bytes, o);
    }
  }

  /** By default: if and only if it disassembles and is not in a class that is to be rejected. */
  lemma DecodedByDefault(disassembles: seq<bv8> -> bool, bytes: seq<bv8>, insns: seq<Instruction>, o: nat)
    requires Lawful(AArch64Arch(disassembles))
    requires insns == DecodeFrom(AArch64Arch(disassembles), DEFAULT_CONFIG, bytes, 0)
    ensures (exists k :: 0 <= k < |insns| && insns[k].offset == o) <==>
      o % 4 == 0 && o + 4 <= |bytes| && disassembles(bytes[o..]) && !AlwaysRejected(WordAt(bytes, o))
  {
    DecodedWords(disassembles, DEFAULT_CONFIG, bytes, insns, o);
    if o + 4 <= |bytes| {
      DefaultFilter(WordAt(bytes, o));
    }
  }

  lemma EveryPosition(
    disassembles: seq<bv8> -> bool, config: InstructionConfig, bytes: seq<bv8>, positions: seq<nat>, o: nat)
    requires Positions(AArch64Arch(disassembles), config, bytes, 0, positions)
    ensures o < |bytes| ==> (o in positions <==> o % 4 == 0)
  {
    var last := |positions| - 1;
    EveryFourthByte(disassembles, config, bytes, positions, last);
    if o < |bytes| && o % 4 == 0 {
      EveryFourthByte(disassembles, config, bytes, positions, o / 4);
      assert positions[o / 4] == o;
    }
    if o in positions {
      var j :| 0 <= j < |positions| && positions[j] == o;
      EveryFourthByte(disassembles, config, bytes, positions, j);
    }
  }

  lemma OneWord(bytes: seq<bv8>, o: nat)
    requires o + 4 <= |bytes|
    ensures Acceptable(bytes[o..][..4]) <==> Filter.InstructionIsOK(WordAt(bytes, o), Filter.DEFAULT_CONFIG)
  {
    var word := bytes[o..][..4];
    assert WordAt(word, 4 * 0) == WordAt(bytes, o);
  }

  lemma AcceptedWord(disassembles: seq<bv8> -> bool, config: InstructionConfig, bytes: seq<bv8>, o: nat)
    requires o < |bytes|
    ensures AArch64Arch(disassembles).fromBytes(bytes[o..], config).accepted && o % 4 == 0
      <==> WordDecodes(disassembles, config, bytes, o)
  {
    if o + 4 <= |bytes| {
      OneWord(bytes, o);
    }
  }

  // ----- outputs -----

  lemma {:induction false} AcceptableEncoding(disassembles: seq<bv8> -> bool, insns: seq<Instruction>, k: nat)
    requires AllAcceptable(AArch64Arch(disassembles), insns) && k <= |insns|
    ensures Acceptable(EncodingUpTo(insns, k))
    decreases k
  {
    if k > 0 {
      AcceptableEncoding(disassembles, insns, k - 1);
      assert Acceptable(insns[k - 1].encoded);
      FilterConcatenation(EncodingUpTo(insns, k - 1), insns[k - 1].encoded, Filter.DEFAULT_CONFIG);
    }
  }

  lemma OutputPassesFilter(disassembles: seq<bv8> -> bool, input: seq<Instruction>, other: seq<Instruction>,
                           script: seq<Mutation>, maxLen: nat, output: seq<bv8>)
    requires IsOutput(AArch64Arch(disassembles), input, other, script, maxLen, output)
    requires AllAcceptable(AArch64Arch(disassembles), input) && AllAcceptable(AArch64Arch(disassembles), other)
    ensures Acceptable(output)
  {
    var trace, insns :| MutatedTo(AArch64Arch(disassembles), input, other, script, maxLen, output, trace, insns);
    AcceptableEncoding(disassembles, insns, |insns|);
  }

  const SELF_BRANCH: seq<bv8> := [0, 0, 0, 0x14]

  lemma SelfBranchFilled()
    ensures FillBuffer(0x1400_0000, 4) == SELF_BRANCH
  {
    assert FillBuffer(0x14, 1) == [0x14];
    FillZero(0x1400, 0x14, 1);
    FillZero(0x14_0000, 0x1400, 2);
    FillZero(0x1400_0000, 0x14_0000, 3);
  }

  lemma SelfBranchWord()
    ensures WordAt(SELF_BRANCH, 0) == 0x1400_0000
  {}

  /** A branch to itself can be generated if it disassembles. */
  lemma SelfBranchCanBeGenerated(disassembles: seq<bv8> -> bool)
    requires disassembles(SELF_BRANCH)
    ensures CanGenerate(AArch64Arch(disassembles))
  {
    SelfBranchFilled();
    SelfBranchWord();
    BranchAcceptable(SELF_BRANCH);
    assert SELF_BRANCH[..4] == SELF_BRANCH;
    assert Generates(AArch64Arch(disassembles), 0x1400_0000);
  }

  /**
    Whatever two inputs are decoded, and whatever sequence of mutations is applied to them,
    the output passes the default static filter.
   */
  method MutateInputs(
    disassembles: seq<bv8> -> bool, input: seq<bv8>, other: seq<bv8>, script: seq<Mutation>, maxLen: nat, rng: MutatorRng)
    returns (output: seq<bv8>)
    requires Fair(rng.draws) && CanGenerate(AArch64Arch(disassembles))
    modifies rng
    ensures |output| <= maxLen
    ensures maxLen >= 4 ==> |output| > 0
    ensures Acceptable(output)
    ensures |output| % 4 == 0 && forall k | 0 <= k < |output| / 4 :: !AlwaysRejected(WordAt(output, 4 * k))
  {
    var a := AArch64Arch(disassembles);
    AArch64Lawful(disassembles);
    var program := new Program.FromBytes(a, input, DEFAULT_CONFIG, false);
    var second := new Program.FromBytes(a, other, DEFAULT_CONFIG, false);
    output := GenerateSingleOutput(program, second, script, maxLen, rng);
    OutputPassesFilter(disassembles, program.instructions, second.instructions, script, maxLen, output);
    AcceptableWords(output);
  }
}
