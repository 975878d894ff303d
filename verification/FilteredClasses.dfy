/**
  The instructions that the static filter for AArch64 is to reject, by class and in terms of
  the fields of a word (section C4.1 of the Arm Architecture Reference Manual, DDI 0487).
 */
module FilteredClasses {
  import opened StaticInsnFilter

  /** The bits of a word from `hi` down to `lo`, as a number. */
  function Bits(insn: bv32, hi: bv8, lo: bv8): bv32
    requires lo <= hi < 32
  {
    (insn >> lo) & ((0xffff_ffff as bv32) >> (31 - (hi - lo)))
  }

  // ----- what makes a runner unreliable -----

  predicate StoreExclusive(insn: bv32) {
    Bits(insn, 29, 24) == 8 && Bits(insn, 23, 23) == 0 && Bits(insn, 22, 22) == 0
  }

  predicate AuthenticatedLoadStore(insn: bv32) {
    Bits(insn, 29, 27) == 7 && Bits(insn, 25, 24) == 0 && Bits(insn, 21, 21) == 1 && Bits(insn, 10, 10) == 1
  }

  predicate BranchToRegister(insn: bv32) {
    Bits(insn, 31, 25) == 107
  }

  /** The second lowest bit of `op3` is set. */
  predicate AuthenticatedBranch(insn: bv32) {
    BranchToRegister(insn) && Bits(insn, 11, 11) == 1
  }

  predicate Hint(insn: bv32) {
    Bits(insn, 31, 12) == 0xd5032 && Bits(insn, 4, 0) == 31
  }

  /** `CRm` is 1 or 3. */
  predicate AuthenticationHint(insn: bv32) {
    Hint(insn) && (Bits(insn, 11, 8) == 1 || Bits(insn, 11, 8) == 3)
  }

  /** WFE and WFI: `CRm` is 0, and `op2` is 2 or 3. */
  predicate WaitHint(insn: bv32) {
    Hint(insn) && Bits(insn, 11, 8) == 0 && (Bits(insn, 7, 5) == 2 || Bits(insn, 7, 5) == 3)
  }

  /** WFET and WFIT. */
  predicate WaitWithTimeout(insn: bv32) {
    Bits(insn, 31, 12) == 0xd5031
  }

  /** Data processing with one source, apart from `sf` and `S`. */
  predicate OneSource(insn: bv32) {
    Bits(insn, 30, 30) == 1 && Bits(insn, 28, 21) == 214
  }

  /** `sf` is 1, `S` is 0 and `opcode2` is 1. */
  predicate AuthenticatingOneSource(insn: bv32) {
    OneSource(insn) && Bits(insn, 31, 31) == 1 && Bits(insn, 29, 29) == 0 && Bits(insn, 20, 16) == 1
  }

  /** Data processing with two sources, `sf` 1, `S` 0 and opcode 12. */
  predicate GenericAuthentication(insn: bv32) {
    Bits(insn, 31, 21) == 1238 && Bits(insn, 15, 10) == 12
  }

  predicate Unreliable(insn: bv32) {
    || StoreExclusive(insn)
    || AuthenticatedLoadStore(insn)
    || AuthenticatedBranch(insn)
    || AuthenticationHint(insn)
    || AuthenticatingOneSource(insn)
    || GenericAuthentication(insn)
    || WaitHint(insn)
    || WaitWithTimeout(insn)
  }

  // ----- what is not allocated -----

  /** The group of a word: `op1` of the top-level encoding. */
  function Group(insn: bv32): bv32 {
    Bits(insn, 28, 25)
  }

  /** Atomic memory operations. */
  predicate Atomic(insn: bv32) {
    Bits(insn, 29, 27) == 7 && Bits(insn, 25, 24) == 0 && Bits(insn, 21, 21) == 1 && Bits(insn, 11, 10) == 0
  }

  /** `V` is 1, or `o3` is 1 and `opc` is 6 or 7, or `A` is 0, `o3` is 1 and `opc` is 4. */
  predicate UnallocatedAtomic(insn: bv32) {
    Atomic(insn)
    && (|| Bits(insn, 26, 26) == 1
        || (Bits(insn, 15, 15) == 1
            && (Bits(insn, 14, 13) == 3 || (Bits(insn, 23, 23) == 0 && Bits(insn, 14, 12) == 4))))
  }

  predicate Unallocated(insn: bv32) {
    || (Bits(insn, 31, 31) == 0 && Group(insn) == 0)
    || Group(insn) == 1
    || Group(insn) == 3
    || UnallocatedAtomic(insn)
  }

  // ----- SVE loads that do not fault -----

  predicate NonFaultLoad(insn: bv32) {
    Bits(insn, 31, 25) == 82 && Bits(insn, 20, 20) == 1 && Bits(insn, 15, 13) == 5
  }

  predicate ContiguousFirstFaultLoad(insn: bv32) {
    Bits(insn, 31, 25) == 82 && Bits(insn, 15, 13) == 3
  }

  /** 32-bit gathers with `ff` set: scaled, unscaled, and from a vector plus an immediate. */
  predicate FirstFaultGather32(insn: bv32) {
    Bits(insn, 31, 25) == 66 && Bits(insn, 13, 13) == 1
    && (|| (Bits(insn, 15, 15) == 0 && Bits(insn, 21, 21) == 1 && (Bits(insn, 24, 23) == 1 || Bits(insn, 24, 23) == 2))
        || (Bits(insn, 15, 15) == 0 && Bits(insn, 21, 21) == 0 && Bits(insn, 24, 23) != 3)
        || (Bits(insn, 15, 15) == 1 && Bits(insn, 22, 21) == 1 && Bits(insn, 24, 23) != 3))
  }

  /** 64-bit gathers with `ff` set: with 64-bit and unpacked 32-bit offsets, scaled and not, and from a vector. */
  predicate FirstFaultGather64(insn: bv32) {
    Bits(insn, 31, 25) == 98 && Bits(insn, 13, 13) == 1
    && (|| (Bits(insn, 15, 15) == 1 && Bits(insn, 22, 21) == 3 && Bits(insn, 24, 23) != 0)
        || (Bits(insn, 15, 15) == 0 && Bits(insn, 21, 21) == 1 && Bits(insn, 24, 23) != 0)
        || (Bits(insn, 15, 15) == 1 && (Bits(insn, 22, 21) == 1 || Bits(insn, 22, 21) == 2))
        || (Bits(insn, 15, 15) == 0 && Bits(insn, 21, 21) == 0))
  }

  predicate FirstFaultOrNonFault(insn: bv32) {
    NonFaultLoad(insn) || ContiguousFirstFaultLoad(insn) || FirstFaultGather32(insn) || FirstFaultGather64(insn)
  }

  // ----- fields with a required value -----

  /** System instructions with bits 22 and 23 not zero. */
  predicate MalformedSystem(insn: bv32) {
    Bits(insn, 31, 24) == 213 && Bits(insn, 23, 22) != 0
  }

  /** Loads and stores of SIMD structures: bit 21 is zero, and without post-index there is no register. */
  predicate MalformedStructureAccess(insn: bv32) {
    || (Bits(insn, 31, 31) == 0 && Bits(insn, 29, 24) == 12 && Bits(insn, 21, 21) != 0)
    || (Bits(insn, 31, 31) == 0 && Bits(insn, 29, 25) == 6 && Bits(insn, 23, 23) == 0 && Bits(insn, 20, 16) != 0)
  }

  /** `op0` is 1x00 and `op1` is not zero. */
  predicate MalformedLoadStore(insn: bv32) {
    Bits(insn, 31, 31) == 1 && Bits(insn, 29, 27) == 1 && Bits(insn, 25, 25) == 0 && Bits(insn, 26, 26) != 0
  }

  /** Compare and swap with `Rt2` not 31. */
  predicate MalformedCompareAndSwap(insn: bv32) {
    Bits(insn, 29, 24) == 8 && Bits(insn, 23, 23) == 1 && Bits(insn, 21, 21) == 1 && Bits(insn, 14, 10) != 31
  }

  /** `S`, the upper part of `opcode2`, and parts of `opcode` have to be zero. */
  predicate MalformedOneSource(insn: bv32) {
    OneSource(insn)
    && (|| Bits(insn, 29, 29) != 0
        || Bits(insn, 20, 17) != 0
        || Bits(insn, 15, 15) != 0
        || (Bits(insn, 20, 16) == 0 && Bits(insn, 14, 13) != 0))
  }

  /** Addition and subtraction of an extended register with `opt` not zero. */
  predicate MalformedExtendedAdd(insn: bv32) {
    Bits(insn, 28, 24) == 11 && Bits(insn, 21, 21) == 1 && Bits(insn, 23, 22) != 0
  }

  /** Floating-point data processing with `M` or `S` set, or an immediate move with `imm5` not zero. */
  predicate MalformedFloatingPoint(insn: bv32) {
    Bits(insn, 30, 30) == 0
    && (|| (Bits(insn, 28, 24) == 30 && Bits(insn, 21, 21) == 1 && Bits(insn, 11, 10) == 2 && MOrS(insn))
        || (Bits(insn, 28, 24) == 31 && MOrS(insn))
        || (Bits(insn, 28, 24) == 30 && Bits(insn, 21, 21) == 1 && Bits(insn, 12, 10) == 4
            && (MOrS(insn) || Bits(insn, 9, 5) != 0)))
  }

  predicate MOrS(insn: bv32) {
    Bits(insn, 31, 31) != 0 || Bits(insn, 29, 29) != 0
  }

  predicate MalformedSystemOrMemory(insn: bv32) {
    MalformedSystem(insn) || MalformedStructureAccess(insn) || MalformedLoadStore(insn) || MalformedCompareAndSwap(insn)
  }

  predicate MalformedDataProcessing(insn: bv32) {
    MalformedOneSource(insn) || MalformedExtendedAdd(insn) || MalformedFloatingPoint(insn)
  }

  predicate Malformed(insn: bv32) {
    MalformedSystemOrMemory(insn) || MalformedDataProcessing(insn)
  }

  // ----- system instructions -----

  predicate SystemRegisterMove(insn: bv32) {
    Bits(insn, 31, 24) == 213 && Bits(insn, 23, 22) == 0 && Bits(insn, 20, 20) == 1
  }

  predicate SystemInstruction(insn: bv32) {
    Bits(insn, 31, 24) == 213 && Bits(insn, 23, 22) == 0 && Bits(insn, 20, 19) == 1
  }

  /** Whether `op0`, `op1`, `CRn`, `CRm` and `op2` name NZCV, FPCR, FPSR, TPIDR_EL0 or TPIDRRO_EL0. */
  predicate AllowedRegister(op0: bv32, op1: bv32, crn: bv32, crm: bv32, op2: bv32) {
    && op0 == 3 && op1 == 3
    && (|| (crn == 4 && crm == 2 && op2 == 0)
        || (crn == 4 && crm == 4 && (op2 == 0 || op2 == 1))
        || (crn == 13 && crm == 0 && (op2 == 2 || op2 == 3)))
  }

  predicate NamesAllowedRegister(insn: bv32) {
    AllowedRegister(Bits(insn, 20, 19), Bits(insn, 18, 16), Bits(insn, 15, 12), Bits(insn, 11, 8), Bits(insn, 7, 5))
  }

  /** What every configuration rejects. */
  predicate AlwaysRejected(insn: bv32) {
    || Unreliable(insn)
    || Unallocated(insn)
    || FirstFaultOrNonFault(insn)
    || Malformed(insn)
    || SystemInstruction(insn)
    || (SystemRegisterMove(insn) && !NamesAllowedRegister(insn))
  }

  // ----- what the configuration takes away -----

  /** Group x1x0, SME memory operations, and SVE ones. */
  predicate LoadOrStore(insn: bv32) {
    || (Bits(insn, 27, 27) == 1 && Bits(insn, 25, 25) == 0)
    || Bits(insn, 31, 25) == 112
    || (Bits(insn, 31, 31) == 1 && Group(insn) == 2)
  }

  predicate Sve(insn: bv32) {
    Group(insn) == 2
  }

  /** Group x111, and loads and stores with `V` set. */
  predicate ScalarFpOrSimd(insn: bv32) {
    Bits(insn, 27, 25) == 7 || Bits(insn, 27, 25) == 6
  }

  /** What a configuration takes away. */
  predicate TakenAway(insn: bv32, config: InstructionFilterConfig) {
    || (!config.loadStoreInstructionsAllowed && LoadOrStore(insn))
    || (!config.sveInstructionsAllowed && Sve(insn))
    || (!config.scalarFpAndAdvancedSimdAllowed && ScalarFpOrSimd(insn))
    || (!config.indirectBranchesAllowed && BranchToRegister(insn))
  }
}
