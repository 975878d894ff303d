/**
  Direct branches of AArch64 in terms of the fields of a word: which words they are, and what
  displacement the immediate of a branch stands for.
 */
module BranchEncodings {
  import opened Wrappers
  import TwosComplement
  import opened BranchFields
  import opened FilteredClasses
  import opened AArch64Branches

  // ----- the four classes -----

  /** B and BL. */
  predicate IsBranch(insn: bv32) {
    Bits(insn, 30, 26) == 5
  }

  /** B.cond and BC.cond. */
  predicate IsConditionalBranch(insn: bv32) {
    Bits(insn, 31, 24) == 84
  }

  /** CBZ and CBNZ. */
  predicate IsCompareAndBranch(insn: bv32) {
    Bits(insn, 30, 25) == 26
  }

  /** TBZ and TBNZ. */
  predicate IsTestAndBranch(insn: bv32) {
    Bits(insn, 30, 25) == 27
  }

  lemma UnconditionalMatches(insn: bv32)
    ensures UNCONDITIONAL.matcher.Matches(insn) <==> IsBranch(insn)
  {}

  lemma ConditionalMatches(insn: bv32)
    ensures CONDITIONAL.matcher.Matches(insn) <==> IsConditionalBranch(insn)
  {}

  lemma CompareMatches(insn: bv32)
    ensures COMPARE.matcher.Matches(insn) <==> IsCompareAndBranch(insn)
  {}

  lemma TestMatches(insn: bv32)
    ensures TEST.matcher.Matches(insn) <==> IsTestAndBranch(insn)
  {}

  /** Which words are direct branches, and how wide their displacements are. */
  lemma BranchesByFields(insn: bv32)
    ensures FindBranchInfo(insn).Some? <==>
      IsBranch(insn) || IsConditionalBranch(insn) || IsCompareAndBranch(insn) || IsTestAndBranch(insn)
    ensures FindBranchInfo(insn).Some? ==>
      Width(FindBranchInfo(insn).value) == if IsBranch(insn) then 26 else if IsTestAndBranch(insn) then 14 else 19
  {
    UnconditionalMatches(insn);
    ConditionalMatches(insn);
    CompareMatches(insn);
    TestMatches(insn);
    if FindBranchInfo(insn).Some? {
      var info := FindBranchInfo(insn).value;
      if IsBranch(insn) {
        UniqueClass(insn, UNCONDITIONAL);
      } else if IsTestAndBranch(insn) {
        UniqueClass(insn, TEST);
      }
    }
  }

  // ----- immediates -----

  /** A displacement is the immediate scaled by four, with `ones` above it if it is negative. */
  predicate SignExtended(displacement: bv32, imm: bv32, sign: bv32, ones: bv32) {
    displacement == if sign == 0 then imm << 2 else (imm << 2) | ones
  }

  lemma NegativeImmediate26(insn: bv32)
    requires insn & 0x0200_0000 != 0
    ensures ExtractBranchDisplacement(insn, 0, 26) == (((insn >> 0) & 0x03ff_ffff) << 2) | 0xf000_0000
  {}

  lemma OtherImmediate26(insn: bv32)
    requires insn & 0x0200_0000 == 0
    ensures ExtractBranchDisplacement(insn, 0, 26) == ((insn >> 0) & 0x03ff_ffff) << 2
  {}

  lemma ImmediateBits26(insn: bv32)
    ensures Bits(insn, 25, 0) == (insn >> 0) & 0x03ff_ffff
    ensures Bits(insn, 25, 25) == 0 <==> insn & 0x0200_0000 == 0
  {}

  lemma Immediate26(insn: bv32)
    ensures SignExtended(ExtractBranchDisplacement(insn, 0, 26), Bits(insn, 25, 0), Bits(insn, 25, 25), 0xf000_0000)
  {
    ImmediateBits26(insn);
    if insn & 0x0200_0000 != 0 {
      NegativeImmediate26(insn);
    } else {
      OtherImmediate26(insn);
    }
  }

  lemma NegativeField19(x: bv32)
    requires x & 0x0004_0000 != 0
    ensures ArithmeticShiftRight(x << 13, 11) == ((x & 0x0007_ffff) << 2) | 0xffe0_0000
  {}

  lemma OtherField19(x: bv32)
    requires x & 0x0004_0000 == 0
    ensures ArithmeticShiftRight(x << 13, 11) == (x & 0x0007_ffff) << 2
  {}

  lemma SignOfField19(insn: bv32)
    ensures (insn >> 5) & 0x0004_0000 == 0 <==> insn & 0x0080_0000 == 0
  {}

  lemma NegativeImmediate19(insn: bv32)
    requires insn & 0x0080_0000 != 0
    ensures ExtractBranchDisplacement(insn, 5, 19) == (((insn >> 5) & 0x0007_ffff) << 2) | 0xffe0_0000
  {
    Taken19(insn);
    SignOfField19(insn);
    NegativeField19(insn >> 5);
  }

  lemma OtherImmediate19(insn: bv32)
    requires insn & 0x0080_0000 == 0
    ensures ExtractBranchDisplacement(insn, 5, 19) == ((insn >> 5) & 0x0007_ffff) << 2
  {
    Taken19(insn);
    SignOfField19(insn);
    OtherField19(insn >> 5);
  }

  lemma ImmediateBits19(insn: bv32)
    ensures Bits(insn, 23, 5) == (insn >> 5) & 0x0007_ffff
    ensures Bits(insn, 23, 23) == 0 <==> insn & 0x0080_0000 == 0
  {}

  lemma Immediate19(insn: bv32)
    ensures SignExtended(ExtractBranchDisplacement(insn, 5, 19), Bits(insn, 23, 5), Bits(insn, 23, 23), 0xffe0_0000)
  {
    ImmediateBits19(insn);
    if insn & 0x0080_0000 != 0 {
      NegativeImmediate19(insn);
    } else {
      OtherImmediate19(insn);
    }
  }

  lemma NegativeField14(x: bv32)
    requires x & 0x2000 != 0
    ensures ArithmeticShiftRight(x << 18, 16) == ((x & 0x3fff) << 2) | 0xffff_0000
  {}

  lemma OtherField14(x: bv32)
    requires x & 0x2000 == 0
    ensures ArithmeticShiftRight(x << 18, 16) == (x & 0x3fff) << 2
  {}

  lemma SignOfField14(insn: bv32)
    ensures (insn >> 5) & 0x2000 == 0 <==> insn & 0x0004_0000 == 0
  {}

  lemma NegativeImmediate14(insn: bv32)
    requires insn & 0x0004_0000 != 0
    ensures ExtractBranchDisplacement(insn, 5, 14) == (((insn >> 5) & 0x3fff) << 2) | 0xffff_0000
  {
    Taken14(insn);
    SignOfField14(insn);
    NegativeField14(insn >> 5);
  }

  lemma OtherImmediate14(insn: bv32)
    requires insn & 0x0004_0000 == 0
    ensures ExtractBranchDisplacement(insn, 5, 14) == ((insn >> 5) & 0x3fff) << 2
  {
    Taken14(insn);
    SignOfField14(insn);
    OtherField14(insn >> 5);
  }

  lemma ImmediateBits14(insn: bv32)
    ensures Bits(insn, 18, 5) == (insn >> 5) & 0x3fff
    ensures Bits(insn, 18, 18) == 0 <==> insn & 0x0004_0000 == 0
  {}

  lemma Immediate14(insn: bv32)
    ensures SignExtended(ExtractBranchDisplacement(insn, 5, 14), Bits(insn, 18, 5), Bits(insn, 18, 18), 0xffff_0000)
  {
    ImmediateBits14(insn);
    if insn & 0x0004_0000 != 0 {
      NegativeImmediate14(insn);
    } else {
      OtherImmediate14(insn);
    }
  }
}
