/**
  The static instruction filter for AArch64 (section C4.1 of the Arm Architecture
  Reference Manual, DDI 0487): tables of banned encodings and of required bits, and the
  predicate that scans an instruction word against them.
 */
module StaticInsnFilter {
  import opened BitMatchers

  datatype InstructionFilterConfig = InstructionFilterConfig(
    sveInstructionsAllowed: bool,
    loadStoreInstructionsAllowed: bool,
    indirectBranchesAllowed: bool,
    scalarFpAndAdvancedSimdAllowed: bool)

  const DEFAULT_CONFIG := InstructionFilterConfig(true, true, true, true)

  // Store exclusive, pointer authentication, WFE and WFI.
  const BANNED_UNRELIABLE: seq<BitMatcher> := [
    BitMatcher(0x3fc0_0000, 0x0800_0000),
    BitMatcher(0x3b20_0400, 0x3820_0400),
    BitMatcher(0xfe00_0800, 0xd600_0800),
    BitMatcher(0xffff_fd1f, 0xd503_211f),
    BitMatcher(0xffff_0000, 0xdac1_0000),
    BitMatcher(0xffe0_fc00, 0x9ac0_3000),
    BitMatcher(0xffff_ffff, 0xd503_205f),
    BitMatcher(0xffff_ffff, 0xd503_207f),
    BitMatcher(0xffff_f000, 0xd503_1000)
  ]

  // Encodings that always fault or are not allocated.
  const BANNED_UNALLOCATED: seq<BitMatcher> := [
    BitMatcher(0x9e00_0000, 0x0000_0000),
    BitMatcher(0x1e00_0000, 0x0200_0000),
    BitMatcher(0x1e00_0000, 0x0600_0000),
    BitMatcher(0x3f20_ec00, 0x3820_e000),
    BitMatcher(0x3fa0_fc00, 0x3820_c000),
    BitMatcher(0x3f20_0c00, 0x3c20_0000)
  ]

  // SVE non-fault, first-fault and gather loads.
  const BANNED_SVE_32BIT: seq<BitMatcher> := [
    BitMatcher(0xfe10_e000, 0xa410_a000),
    BitMatcher(0xffa0_a000, 0x84a0_2000),
    BitMatcher(0xffa0_a000, 0x8520_2000),
    BitMatcher(0xffa0_a000, 0x8400_2000),
    BitMatcher(0xffa0_a000, 0x8480_2000),
    BitMatcher(0xffa0_a000, 0x8500_2000),
    BitMatcher(0xffe0_a000, 0x8420_a000),
    BitMatcher(0xffe0_a000, 0x84a0_a000),
    BitMatcher(0xffe0_a000, 0x8520_a000),
    BitMatcher(0xfe00_e000, 0xa400_6000)
  ]

  const BANNED_SVE_64BIT: seq<BitMatcher> := [
    BitMatcher(0xffe0_a000, 0xc4e0_a000),
    BitMatcher(0xffe0_a000, 0xc560_a000),
    BitMatcher(0xffe0_a000, 0xc5e0_a000),
    BitMatcher(0xffa0_a000, 0xc4a0_2000),
    BitMatcher(0xffa0_a000, 0xc520_2000),
    BitMatcher(0xffa0_a000, 0xc5a0_2000),
    BitMatcher(0xfe60_a000, 0xc420_a000),
    BitMatcher(0xfe60_a000, 0xc440_a000),
    BitMatcher(0xfe20_a000, 0xc400_2000)
  ]

  const BANNED_INSTRUCTIONS := BANNED_UNRELIABLE + BANNED_UNALLOCATED + BANNED_SVE_32BIT + BANNED_SVE_64BIT

  const REQUIRED_SYSTEM_AND_MEMORY: seq<RequiredBits> := [
    RequiredBits(BitMatcher(0xff00_0000, 0xd500_0000), BitMatcher(0x00c0_0000, 0x0000_0000)),
    RequiredBits(BitMatcher(0xbf00_0000, 0x0c00_0000), BitMatcher(0x0020_0000, 0x0000_0000)),
    RequiredBits(BitMatcher(0xbe80_0000, 0x0c00_0000), BitMatcher(0x001f_0000, 0x0000_0000)),
    RequiredBits(BitMatcher(0xba00_0000, 0x8800_0000), BitMatcher(0x0400_0000, 0x0000_0000)),
    RequiredBits(BitMatcher(0x3fa0_0000, 0x08a0_0000), BitMatcher(0x0000_7c00, 0x0000_7c00))
  ]

  const REQUIRED_DATA_PROCESSING: seq<RequiredBits> := [
    RequiredBits(BitMatcher(0x5fe0_0000, 0x5ac0_0000), BitMatcher(0x201e_8000, 0x0000_0000)),
    RequiredBits(BitMatcher(0x7fff_0000, 0x5ac0_0000), BitMatcher(0x0000_6000, 0x0000_0000)),
    RequiredBits(BitMatcher(0x1f20_0000, 0x0b20_0000), BitMatcher(0x00c0_0000, 0x0000_0000)),
    RequiredBits(BitMatcher(0x5f20_0c00, 0x1e20_0800), BitMatcher(0xa000_0000, 0x0000_0000)),
    RequiredBits(BitMatcher(0x5f00_0000, 0x1f00_0000), BitMatcher(0xa000_0000, 0x0000_0000)),
    RequiredBits(BitMatcher(0x5f20_1c00, 0x1e20_1000), BitMatcher(0xa000_03e0, 0x0000_0000))
  ]

  const REQUIRED_INSTRUCTION_BITS := REQUIRED_SYSTEM_AND_MEMORY + REQUIRED_DATA_PROCESSING

  const SVE_INSTRUCTION := BitMatcher(0x1e00_0000, 0x0400_0000)
  const SCALAR_FP_AND_ADVANCED_SIMD_INSTRUCTION := BitMatcher(0x0e00_0000, 0x0e00_0000)
  const SYSREG_INSTRUCTION := BitMatcher(0xffd0_0000, 0xd510_0000)
  const SYSTEM_INSTRUCTION := BitMatcher(0xffd8_0000, 0xd508_0000)
  const LOAD_STORE_INSTRUCTION := BitMatcher(0x0a00_0000, 0x0800_0000)
  const FP_SIMD_LOAD_STORE_INSTRUCTION := BitMatcher(0x0e00_0000, 0x0c00_0000)
  const SVE_MEMORY_OPERATION_INSTRUCTION := BitMatcher(0x9e00_0000, 0x8400_0000)
  const SME_MEMORY_OPERATION_INSTRUCTION := BitMatcher(0xfe00_0000, 0xe000_0000)
  const BRANCH_TO_REGISTER_INSTRUCTIONS := BitMatcher(0xfe00_0000, 0xd600_0000)

  function Sysreg(op0: bv32, op1: bv32, crn: bv32, crm: bv32, op2: bv32): bv32
    requires op0 < 4 && op1 < 8 && crn < 16 && crm < 16 && op2 < 8
  {
    (op0 << 19) | (op1 << 16) | (crn << 12) | (crm << 8) | (op2 << 5)
  }

  /** The bits of a system register move that select the register. */
  const SYSREG_MASK: bv32 := Sysreg(3, 7, 15, 15, 7)

  const ALLOWED_SYSREGS: seq<bv32> := [
    Sysreg(3, 3, 4, 2, 0),
    Sysreg(3, 3, 4, 4, 0),
    Sysreg(3, 3, 4, 4, 1),
    Sysreg(3, 3, 13, 0, 2),
    Sysreg(3, 3, 13, 0, 3)
  ]

  predicate IsLoadStoreInsn(insn: bv32) {
    || LOAD_STORE_INSTRUCTION.Matches(insn)
    || SME_MEMORY_OPERATION_INSTRUCTION.Matches(insn)
    || SVE_MEMORY_OPERATION_INSTRUCTION.Matches(insn)
  }

  predicate MatchesSome(table: seq<BitMatcher>, insn: bv32) {
    exists i | 0 <= i < |table| :: table[i].Matches(insn)
  }

  predicate ViolatesSome(table: seq<RequiredBits>, insn: bv32) {
    exists i | 0 <= i < |table| :: table[i].ViolatesRequirements(insn)
  }

  predicate InstructionIsOK(insn: bv32, config: InstructionFilterConfig) {
    if MatchesSome(BANNED_INSTRUCTIONS, insn) then false
    else if !config.loadStoreInstructionsAllowed && IsLoadStoreInsn(insn) then false
    else if !config.sveInstructionsAllowed && SVE_INSTRUCTION.Matches(insn) then false
    else if !config.scalarFpAndAdvancedSimdAllowed
         && (SCALAR_FP_AND_ADVANCED_SIMD_INSTRUCTION.Matches(insn) || FP_SIMD_LOAD_STORE_INSTRUCTION.Matches(insn)) then false
    else if !config.indirectBranchesAllowed && BRANCH_TO_REGISTER_INSTRUCTIONS.Matches(insn) then false
    else if ViolatesSome(REQUIRED_INSTRUCTION_BITS, insn) then false
    else if SYSREG_INSTRUCTION.Matches(insn) then insn & SYSREG_MASK in ALLOWED_SYSREGS
    else !SYSTEM_INSTRUCTION.Matches(insn)
  }

  // ----- which patterns the filter never reacts to -----

  predicate ExclusiveWithPatterns(c: BitMatcher, table: seq<RequiredBits>) {
    table == [] || (Exclusive(c, table[0].pattern) && ExclusiveWithPatterns(c, table[1..]))
  }

  /** `c` conflicts with every pattern that can make the filter reject a word. */
  predicate Unfiltered(c: BitMatcher) {
    && ExclusiveWithAll(c, BANNED_UNRELIABLE)
    && ExclusiveWithAll(c, BANNED_UNALLOCATED)
    && ExclusiveWithAll(c, BANNED_SVE_32BIT)
    && ExclusiveWithAll(c, BANNED_SVE_64BIT)
    && ExclusiveWithPatterns(c, REQUIRED_SYSTEM_AND_MEMORY)
    && ExclusiveWithPatterns(c, REQUIRED_DATA_PROCESSING)
    && ExclusiveWithSingles(c)
  }

  /** The patterns that the filter tests one by one, outside its tables. */
  predicate ExclusiveWithSingles(c: BitMatcher) {
    && Exclusive(c, SVE_INSTRUCTION)
    && Exclusive(c, SCALAR_FP_AND_ADVANCED_SIMD_INSTRUCTION)
    && Exclusive(c, SYSREG_INSTRUCTION)
    && Exclusive(c, SYSTEM_INSTRUCTION)
    && Exclusive(c, LOAD_STORE_INSTRUCTION)
    && Exclusive(c, FP_SIMD_LOAD_STORE_INSTRUCTION)
    && Exclusive(c, SVE_MEMORY_OPERATION_INSTRUCTION)
    && Exclusive(c, SME_MEMORY_OPERATION_INSTRUCTION)
    && Exclusive(c, BRANCH_TO_REGISTER_INSTRUCTIONS)
  }

  lemma {:induction false} NoneViolates(c: BitMatcher, table: seq<RequiredBits>, insn: bv32)
    requires ExclusiveWithPatterns(c, table) && c.Matches(insn)
    ensures !ViolatesSome(table, insn)
  {
    if table != [] {
      ExclusiveMatchers(c, table[0].pattern, insn);
      NoneViolates(c, table[1..], insn);
      forall i | 0 <= i < |table|
        ensures !table[i].ViolatesRequirements(insn)
      {
        if i > 0 {
          assert table[i] == table[1..][i - 1];
        }
      }
    }
  }

  lemma NotBanned(c: BitMatcher, insn: bv32)
    requires Unfiltered(c) && c.Matches(insn)
    ensures !MatchesSome(BANNED_INSTRUCTIONS, insn)
  {
    NoneMatches(c, BANNED_UNRELIABLE, insn);
    NoneMatches(c, BANNED_UNALLOCATED, insn);
    NoneMatches(c, BANNED_SVE_32BIT, insn);
    NoneMatches(c, BANNED_SVE_64BIT, insn);
    NoneInConcatenation(BANNED_UNRELIABLE, BANNED_UNALLOCATED, insn);
    NoneInConcatenation(BANNED_UNRELIABLE + BANNED_UNALLOCATED, BANNED_SVE_32BIT, insn);
    NoneInConcatenation(BANNED_UNRELIABLE + BANNED_UNALLOCATED + BANNED_SVE_32BIT, BANNED_SVE_64BIT, insn);
  }

  lemma NoneInConcatenation(a: seq<BitMatcher>, b: seq<BitMatcher>, insn: bv32)
    requires !MatchesSome(a, insn) && !MatchesSome(b, insn)
    ensures !MatchesSome(a + b, insn)
  {}

  /** A word of an unfiltered class passes, whatever its other bits and whatever the configuration. */
  lemma UnfilteredIsOK(c: BitMatcher, insn: bv32, config: InstructionFilterConfig)
    requires Unfiltered(c) && c.Matches(insn)
    ensures InstructionIsOK(insn, config)
  {
    NotBanned(c, insn);
    NoneViolates(c, REQUIRED_SYSTEM_AND_MEMORY, insn);
    NoneViolates(c, REQUIRED_DATA_PROCESSING, insn);
    assert !ViolatesSome(REQUIRED_INSTRUCTION_BITS, insn);
    NoSinglePattern(c, insn);
  }

  lemma NoSinglePattern(c: BitMatcher, insn: bv32)
    requires Unfiltered(c) && c.Matches(insn)
    ensures !SVE_INSTRUCTION.Matches(insn)
    ensures !SCALAR_FP_AND_ADVANCED_SIMD_INSTRUCTION.Matches(insn)
    ensures !SYSREG_INSTRUCTION.Matches(insn)
    ensures !SYSTEM_INSTRUCTION.Matches(insn)
    ensures !IsLoadStoreInsn(insn)
    ensures !FP_SIMD_LOAD_STORE_INSTRUCTION.Matches(insn)
    ensures !BRANCH_TO_REGISTER_INSTRUCTIONS.Matches(insn)
  {
    ExclusiveMatchers(c, SVE_INSTRUCTION, insn);
    ExclusiveMatchers(c, SCALAR_FP_AND_ADVANCED_SIMD_INSTRUCTION, insn);
    ExclusiveMatchers(c, SYSREG_INSTRUCTION, insn);
    ExclusiveMatchers(c, SYSTEM_INSTRUCTION, insn);
    ExclusiveMatchers(c, LOAD_STORE_INSTRUCTION, insn);
    ExclusiveMatchers(c, FP_SIMD_LOAD_STORE_INSTRUCTION, insn);
    ExclusiveMatchers(c, SVE_MEMORY_OPERATION_INSTRUCTION, insn);
    ExclusiveMatchers(c, SME_MEMORY_OPERATION_INSTRUCTION, insn);
    ExclusiveMatchers(c, BRANCH_TO_REGISTER_INSTRUCTIONS, insn);
  }
}
