/**
  Words of some classes built from their fields, for all operands, and whether the static
  filter lets them pass.
 */
module FilterWords {
  import opened StaticInsnFilter
  import opened FilteredClasses
  import opened FilterTables

  // ----- hints -----

  function HintWord(crm: bv4, op2: bv3): bv32 {
    0xd503_201f | ((crm as bv32) << 8) | ((op2 as bv32) << 5)
  }

  lemma HintFields(crm: bv4, op2: bv3)
    ensures var w := HintWord(crm, op2); Hint(w) && Bits(w, 11, 8) == crm as bv32 && Bits(w, 7, 5) == op2 as bv32
  {}

  /** Of the hints, those of pointer authentication, WFE and WFI are rejected, and only those. */
  lemma HintFilter(crm: bv4, op2: bv3, config: InstructionFilterConfig)
    ensures InstructionIsOK(HintWord(crm, op2), config) <==>
      !(crm == 1 || crm == 3 || (crm == 0 && (op2 == 2 || op2 == 3)))
  {
    var w := HintWord(crm, op2);
    HintFields(crm, op2);
    HintClass(w, config);
    FilterByFields(w, config);
  }

  lemma HintClass(insn: bv32, config: InstructionFilterConfig)
    requires Hint(insn)
    ensures AlwaysRejected(insn) <==> AuthenticationHint(insn) || WaitHint(insn)
    ensures !TakenAway(insn, config)
  {}

  // ----- system instructions and register moves -----

  function SystemWord(l: bv1, op0: bv2, op1: bv3, crn: bv4, crm: bv4, op2: bv3, rt: bv5): bv32 {
    0xd500_0000 | ((l as bv32) << 21) | ((op0 as bv32) << 19) | ((op1 as bv32) << 16) | ((crn as bv32) << 12)
    | ((crm as bv32) << 8) | ((op2 as bv32) << 5) | (rt as bv32)
  }

  lemma SystemClass(insn: bv32, config: InstructionFilterConfig)
    requires Bits(insn, 31, 24) == 213 && Bits(insn, 23, 22) == 0 && Bits(insn, 20, 19) != 0
    ensures AlwaysRejected(insn) <==> SystemInstruction(insn) || !NamesAllowedRegister(insn)
    ensures !TakenAway(insn, config)
  {}

  lemma SystemFields(l: bv1, op0: bv2, op1: bv3, crn: bv4, crm: bv4, op2: bv3, rt: bv5)
    ensures var w := SystemWord(l, op0, op1, crn, crm, op2, rt);
      && Bits(w, 31, 24) == 213 && Bits(w, 23, 22) == 0 && Bits(w, 20, 19) == op0 as bv32
      && Bits(w, 18, 16) == op1 as bv32 && Bits(w, 15, 12) == crn as bv32
      && Bits(w, 11, 8) == crm as bv32 && Bits(w, 7, 5) == op2 as bv32
  {}

  /** A system register is moved, either way, if and only if it is one of the five; system instructions never pass. */
  lemma SystemFilter(l: bv1, op0: bv2, op1: bv3, crn: bv4, crm: bv4, op2: bv3, rt: bv5, config: InstructionFilterConfig)
    requires op0 != 0
    ensures InstructionIsOK(SystemWord(l, op0, op1, crn, crm, op2, rt), config) <==>
      AllowedRegister(op0 as bv32, op1 as bv32, crn as bv32, crm as bv32, op2 as bv32)
  {
    var w := SystemWord(l, op0, op1, crn, crm, op2, rt);
    SystemFields(l, op0, op1, crn, crm, op2, rt);
    SystemClass(w, config);
    FilterByFields(w, config);
  }

  // ----- exclusive accesses -----

  function ExclusiveWord(size: bv2, l: bv1, o1: bv1, rs: bv5, o0: bv1, rt2: bv5, rn: bv5, rt: bv5): bv32 {
    0x0800_0000 | ((size as bv32) << 30) | ((l as bv32) << 22) | ((o1 as bv32) << 21) | ((rs as bv32) << 16)
    | ((o0 as bv32) << 15) | ((rt2 as bv32) << 10) | ((rn as bv32) << 5) | (rt as bv32)
  }

  /** Exclusive accesses, ordered accesses, and compare and swap. */
  lemma ExclusiveRejected(insn: bv32)
    requires Bits(insn, 29, 24) == 8
    ensures AlwaysRejected(insn) <==> StoreExclusive(insn) || MalformedCompareAndSwap(insn)
  {}

  lemma ExclusiveTakenAway(insn: bv32, config: InstructionFilterConfig)
    requires Bits(insn, 29, 24) == 8
    ensures TakenAway(insn, config) <==> !config.loadStoreInstructionsAllowed
  {}

  lemma ExclusiveFields(size: bv2, l: bv1, o1: bv1, rs: bv5, o0: bv1, rt2: bv5, rn: bv5, rt: bv5)
    ensures var w := ExclusiveWord(size, l, o1, rs, o0, rt2, rn, rt);
      Bits(w, 29, 24) == 8 && Bits(w, 23, 23) == 0 && Bits(w, 22, 22) == l as bv32
  {}

  /** Exclusive stores never pass, exclusive loads if loads are allowed at all. */
  lemma ExclusiveFilter(size: bv2, l: bv1, o1: bv1, rs: bv5, o0: bv1, rt2: bv5, rn: bv5, rt: bv5,
                        config: InstructionFilterConfig)
    ensures InstructionIsOK(ExclusiveWord(size, l, o1, rs, o0, rt2, rn, rt), config) <==>
      l == 1 && config.loadStoreInstructionsAllowed
  {
    var w := ExclusiveWord(size, l, o1, rs, o0, rt2, rn, rt);
    ExclusiveFields(size, l, o1, rs, o0, rt2, rn, rt);
    ExclusiveRejected(w);
    ExclusiveTakenAway(w, config);
    FilterByFields(w, config);
  }

  /** Compare and swap: `Rt2` has to be 31. */
  function CompareAndSwapWord(size: bv2, l: bv1, rs: bv5, o0: bv1, rt2: bv5, rn: bv5, rt: bv5): bv32 {
    ExclusiveWord(size, l, 1, rs, o0, rt2, rn, rt) | 0x0080_0000
  }

  lemma CompareAndSwapFields(size: bv2, l: bv1, rs: bv5, o0: bv1, rt2: bv5, rn: bv5, rt: bv5)
    ensures var w := CompareAndSwapWord(size, l, rs, o0, rt2, rn, rt);
      Bits(w, 29, 24) == 8 && Bits(w, 23, 23) == 1 && Bits(w, 21, 21) == 1 && Bits(w, 14, 10) == rt2 as bv32
  {}

  lemma CompareAndSwapFilter(size: bv2, l: bv1, rs: bv5, o0: bv1, rt2: bv5, rn: bv5, rt: bv5,
                             config: InstructionFilterConfig)
    ensures InstructionIsOK(CompareAndSwapWord(size, l, rs, o0, rt2, rn, rt), config) <==>
      rt2 == 31 && config.loadStoreInstructionsAllowed
  {
    var w := CompareAndSwapWord(size, l, rs, o0, rt2, rn, rt);
    CompareAndSwapFields(size, l, rs, o0, rt2, rn, rt);
    ExclusiveRejected(w);
    ExclusiveTakenAway(w, config);
    FilterByFields(w, config);
  }

  // ----- branches to registers -----

  function BranchToRegisterWord(opc: bv4, op2: bv5, op3: bv6, rn: bv5, op4: bv5): bv32 {
    0xd600_0000 | ((opc as bv32) << 21) | ((op2 as bv32) << 16) | ((op3 as bv32) << 10) | ((rn as bv32) << 5) | (op4 as bv32)
  }

  lemma BranchToRegisterClass(insn: bv32, config: InstructionFilterConfig)
    requires BranchToRegister(insn)
    ensures AlwaysRejected(insn) <==> AuthenticatedBranch(insn)
    ensures TakenAway(insn, config) <==> !config.indirectBranchesAllowed
  {}

  lemma BranchToRegisterFields(opc: bv4, op2: bv5, op3: bv6, rn: bv5, op4: bv5)
    ensures var w := BranchToRegisterWord(opc, op2, op3, rn, op4);
      BranchToRegister(w) && (Bits(w, 11, 11) == 1 <==> op3 & 2 != 0)
  {}

  /** Branches with pointer authentication never pass, the others if indirect branches are allowed. */
  lemma BranchToRegisterFilter(opc: bv4, op2: bv5, op3: bv6, rn: bv5, op4: bv5, config: InstructionFilterConfig)
    ensures InstructionIsOK(BranchToRegisterWord(opc, op2, op3, rn, op4), config) <==>
      op3 & 2 == 0 && config.indirectBranchesAllowed
  {
    var w := BranchToRegisterWord(opc, op2, op3, rn, op4);
    BranchToRegisterFields(opc, op2, op3, rn, op4);
    BranchToRegisterClass(w, config);
    FilterByFields(w, config);
  }

  // ----- data processing with one source -----

  function OneSourceWord(sf: bv1, s: bv1, opcode2: bv5, opcode: bv6, rn: bv5, rd: bv5): bv32 {
    0x5ac0_0000 | ((sf as bv32) << 31) | ((s as bv32) << 29) | ((opcode2 as bv32) << 16) | ((opcode as bv32) << 10)
    | ((rn as bv32) << 5) | (rd as bv32)
  }

  lemma OneSourceClass(insn: bv32, config: InstructionFilterConfig)
    requires OneSource(insn)
    ensures AlwaysRejected(insn) <==> AuthenticatingOneSource(insn) || MalformedOneSource(insn)
    ensures !TakenAway(insn, config)
  {}

  lemma OneSourceFields(sf: bv1, s: bv1, opcode2: bv5, opcode: bv6, rn: bv5, rd: bv5)
    ensures var w := OneSourceWord(sf, s, opcode2, opcode, rn, rd);
      && OneSource(w) && Bits(w, 31, 31) == sf as bv32 && Bits(w, 29, 29) == s as bv32
      && Bits(w, 20, 16) == opcode2 as bv32 && (Bits(w, 20, 17) == 0 <==> opcode2 < 2)
      && (Bits(w, 15, 15) == 0 <==> opcode < 32) && (opcode < 32 ==> (Bits(w, 14, 13) == 0 <==> opcode < 8))
  {}

  /** Nothing that authenticates passes, and nothing outside the allocated part of the space. */
  lemma OneSourceFilter(sf: bv1, s: bv1, opcode2: bv5, opcode: bv6, rn: bv5, rd: bv5, config: InstructionFilterConfig)
    ensures InstructionIsOK(OneSourceWord(sf, s, opcode2, opcode, rn, rd), config) <==>
      && s == 0 && opcode < 32
      && (opcode2 == 0 ==> opcode < 8)
      && (opcode2 == 0 || (opcode2 == 1 && sf == 0))
  {
    var w := OneSourceWord(sf, s, opcode2, opcode, rn, rd);
    OneSourceFields(sf, s, opcode2, opcode, rn, rd);
    OneSourceClass(w, config);
    FilterByFields(w, config);
  }

  // ----- reserved words -----

  /** UDF never passes, nor anything else in its group with bit 31 clear. */
  lemma UndefinedRejected(imm16: bv16, config: InstructionFilterConfig)
    ensures !InstructionIsOK(imm16 as bv32, config)
  {
    FilterByFields(imm16 as bv32, config);
  }

  /** WFET and WFIT never pass, nor anything else in their space. */
  lemma WaitWithTimeoutRejected(operands: bv12, config: InstructionFilterConfig)
    ensures !InstructionIsOK(0xd503_1000 | (operands as bv32), config)
  {
    var w := 0xd503_1000 | (operands as bv32);
    WaitWithTimeoutFields(operands);
    FilterByFields(w, config);
  }

  lemma WaitWithTimeoutFields(operands: bv12)
    ensures WaitWithTimeout(0xd503_1000 | (operands as bv32))
  {}
}
