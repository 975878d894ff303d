/**
  Displacement fields inside AArch64 instruction words, as bit operations: reading a field
  sign-extends it and scales it by four, rewriting it replaces the bits of the field.
 */
module BranchFields {
  import TwosComplement

  /** The arithmetic right shift of a signed 32-bit integer. */
  function ArithmeticShiftRight(x: bv32, k: bv8): bv32
    requires k < 32
  {
    if x & 0x8000_0000 != 0 then !((!x) >> k) else x >> k
  }

  function ShiftLeft(x: bv32, k: bv8): bv32
    requires k <= 32
  {
    x << k
  }

  /** Sign-extends the displacement field and scales it by four; the result is an `int32_t`. */
  function ExtractBranchDisplacement(insn: bv32, lsb: bv8, width: bv8): bv32
    requires 0 < width <= 30 && lsb <= 32 - width
  {
    var shift := 32 - width;
    ArithmeticShiftRight(ShiftLeft(ArithmeticShiftRight(insn, lsb), shift), shift - 2)
  }

  function DisplacementMask(lsb: bv8, width: bv8): bv32
    requires 0 < width <= 30 && lsb <= 32 - width
  {
    ((1 << width) - 1) << lsb
  }

  function ReplaceBits(insn: bv32, mask: bv32, field: bv32): bv32 {
    (insn & !mask) | (field & mask)
  }

  /** Replaces the displacement field by the displacement divided by four. */
  function RewriteBranchDisplacement(insn: bv32, lsb: bv8, width: bv8, displacement: bv32): bv32
    requires 0 < width <= 30 && lsb <= 32 - width
  {
    ReplaceBits(insn, DisplacementMask(lsb, width), ShiftLeft(ArithmeticShiftRight(displacement, 2), lsb))
  }

  function ShiftRight(x: bv32, k: bv8): bv32
    requires k <= 32
  {
    x >> k
  }

  /** The bits of `x` from position `k` up are all equal. */
  predicate TopUniform(x: bv32, k: bv8)
    requires k <= 32
  {
    ShiftRight(x, k) == 0 || ShiftRight(x, k) == ShiftRight(0xffff_ffff, k)
  }

  /** A multiple of four that fits `k` bits plus sign. */
  predicate WellScaled(x: bv32, k: bv8)
    requires k <= 32
  {
    TwosComplement.LowTwoClear(x) && TopUniform(x, k)
  }

  /** `e` is `x` narrowed to `k` bits plus sign and a multiple of four. */
  predicate ReadsBack(e: bv32, x: bv32, k: bv8)
    requires k <= 32
  {
    && WellScaled(e, k)
    && (WellScaled(x, k) ==> e == x)
  }

  // ----- fields of 26 bits at position 0 -----

  lemma Mask26()
    ensures DisplacementMask(0, 26) == 0x03ff_ffff
  {}

  lemma Scaled26(x: bv32)
    ensures ShiftLeft(ArithmeticShiftRight(x, 2), 0) & 0x03ff_ffff == ((x >> 2) << 0) & 0x03ff_ffff
  {
    if x & 0x8000_0000 != 0 {
      assert (!((!x) >> 2) << 0) & 0x03ff_ffff == ((x >> 2) << 0) & 0x03ff_ffff;
    } else {
      assert ((x >> 2) << 0) & 0x03ff_ffff == ((x >> 2) << 0) & 0x03ff_ffff;
    }
  }

  lemma Field26(insn: bv32, field: bv32)
    ensures ReplaceBits(insn, 0x03ff_ffff, field) & 0x03ff_ffff == field & 0x03ff_ffff
    ensures ReplaceBits(insn, 0x03ff_ffff, field) & 0xfc00_0000 == insn & 0xfc00_0000
  {}

  lemma Raised26(r: bv32, x: bv32)
    requires r & 0x03ff_ffff == ((x >> 2) << 0) & 0x03ff_ffff
    ensures ShiftLeft(ArithmeticShiftRight(r, 0), 6) == (x >> 2) << 6
  {
    if r & 0x8000_0000 != 0 {
      assert (!((!r) >> 0)) << 6 == (x >> 2) << 6;
    } else {
      assert (r >> 0) << 6 == (x >> 2) << 6;
    }
  }

  lemma Lowered26(x: bv32, y: bv32)
    requires y == (x >> 2) << 6
    ensures ReadsBack(ArithmeticShiftRight(y, 4), x, 27)
  {
    if y & 0x8000_0000 != 0 {
      LoweredOnes26(x, y);
    } else {
      LoweredZeros26(x, y);
    }
  }

  lemma LoweredOnes26(x: bv32, y: bv32)
    requires y == (x >> 2) << 6 && y & 0x8000_0000 != 0
    ensures ReadsBack(!((!y) >> 4), x, 27)
  {}

  lemma LoweredZeros26(x: bv32, y: bv32)
    requires y == (x >> 2) << 6 && y & 0x8000_0000 == 0
    ensures ReadsBack(y >> 4, x, 27)
  {}

  lemma Extracted26(insn: bv32)
    ensures WellScaled(ExtractBranchDisplacement(insn, 0, 26), 27)
  {}

  lemma ReadBack26(insn: bv32, x: bv32)
    ensures ReadsBack(ExtractBranchDisplacement(RewriteBranchDisplacement(insn, 0, 26, x), 0, 26), x, 27)
  {
    var field := ShiftLeft(ArithmeticShiftRight(x, 2), 0);
    Mask26();
    Scaled26(x);
    Field26(insn, field);
    Raised26(ReplaceBits(insn, 0x03ff_ffff, field), x);
    Lowered26(x, (x >> 2) << 6);
  }

  // ----- fields of 19 bits at position 5 -----

  lemma Mask19()
    ensures DisplacementMask(5, 19) == 0x00ff_ffe0
  {}

  lemma Scaled19(x: bv32)
    ensures ShiftLeft(ArithmeticShiftRight(x, 2), 5) & 0x00ff_ffe0 == ((x >> 2) << 5) & 0x00ff_ffe0
  {
    if x & 0x8000_0000 != 0 {
      assert (!((!x) >> 2) << 5) & 0x00ff_ffe0 == ((x >> 2) << 5) & 0x00ff_ffe0;
    } else {
      assert ((x >> 2) << 5) & 0x00ff_ffe0 == ((x >> 2) << 5) & 0x00ff_ffe0;
    }
  }

  lemma Field19(insn: bv32, field: bv32)
    ensures ReplaceBits(insn, 0x00ff_ffe0, field) & 0x00ff_ffe0 == field & 0x00ff_ffe0
    ensures ReplaceBits(insn, 0x00ff_ffe0, field) & 0xff00_001f == insn & 0xff00_001f
  {}

  lemma Raised19(r: bv32, x: bv32)
    requires r & 0x00ff_ffe0 == ((x >> 2) << 5) & 0x00ff_ffe0
    ensures ShiftLeft(ArithmeticShiftRight(r, 5), 13) == (x >> 2) << 13
  {
    if r & 0x8000_0000 != 0 {
      assert (!((!r) >> 5)) << 13 == (x >> 2) << 13;
    } else {
      assert (r >> 5) << 13 == (x >> 2) << 13;
    }
  }

  lemma Lowered19(x: bv32, y: bv32)
    requires y == (x >> 2) << 13
    ensures ReadsBack(ArithmeticShiftRight(y, 11), x, 20)
  {
    if y & 0x8000_0000 != 0 {
      LoweredOnes19(x, y);
    } else {
      LoweredZeros19(x, y);
    }
  }

  lemma LoweredOnes19(x: bv32, y: bv32)
    requires y == (x >> 2) << 13 && y & 0x8000_0000 != 0
    ensures ReadsBack(!((!y) >> 11), x, 20)
  {}

  lemma LoweredZeros19(x: bv32, y: bv32)
    requires y == (x >> 2) << 13 && y & 0x8000_0000 == 0
    ensures ReadsBack(y >> 11, x, 20)
  {}

  lemma Extracted19(insn: bv32)
    ensures WellScaled(ExtractBranchDisplacement(insn, 5, 19), 20)
  {}

  lemma ReadBack19(insn: bv32, x: bv32)
    ensures ReadsBack(ExtractBranchDisplacement(RewriteBranchDisplacement(insn, 5, 19, x), 5, 19), x, 20)
  {
    var field := ShiftLeft(ArithmeticShiftRight(x, 2), 5);
    Mask19();
    Scaled19(x);
    Field19(insn, field);
    Raised19(ReplaceBits(insn, 0x00ff_ffe0, field), x);
    Lowered19(x, (x >> 2) << 13);
  }

  // ----- fields of 14 bits at position 5 -----

  lemma Mask14()
    ensures DisplacementMask(5, 14) == 0x0007_ffe0
  {}

  lemma Scaled14(x: bv32)
    ensures ShiftLeft(ArithmeticShiftRight(x, 2), 5) & 0x0007_ffe0 == ((x >> 2) << 5) & 0x0007_ffe0
  {
    if x & 0x8000_0000 != 0 {
      assert (!((!x) >> 2) << 5) & 0x0007_ffe0 == ((x >> 2) << 5) & 0x0007_ffe0;
    } else {
      assert ((x >> 2) << 5) & 0x0007_ffe0 == ((x >> 2) << 5) & 0x0007_ffe0;
    }
  }

  lemma Field14(insn: bv32, field: bv32)
    ensures ReplaceBits(insn, 0x0007_ffe0, field) & 0x0007_ffe0 == field & 0x0007_ffe0
    ensures ReplaceBits(insn, 0x0007_ffe0, field) & 0xfff8_001f == insn & 0xfff8_001f
  {}

  lemma Raised14(r: bv32, x: bv32)
    requires r & 0x0007_ffe0 == ((x >> 2) << 5) & 0x0007_ffe0
    ensures ShiftLeft(ArithmeticShiftRight(r, 5), 18) == (x >> 2) << 18
  {
    if r & 0x8000_0000 != 0 {
      assert (!((!r) >> 5)) << 18 == (x >> 2) << 18;
    } else {
      assert (r >> 5) << 18 == (x >> 2) << 18;
    }
  }

  lemma Lowered14(x: bv32, y: bv32)
    requires y == (x >> 2) << 18
    ensures ReadsBack(ArithmeticShiftRight(y, 16), x, 15)
  {
    if y & 0x8000_0000 != 0 {
      LoweredOnes14(x, y);
    } else {
      LoweredZeros14(x, y);
    }
  }

  lemma LoweredOnes14(x: bv32, y: bv32)
    requires y == (x >> 2) << 18 && y & 0x8000_0000 != 0
    ensures ReadsBack(!((!y) >> 16), x, 15)
  {}

  lemma LoweredZeros14(x: bv32, y: bv32)
    requires y == (x >> 2) << 18 && y & 0x8000_0000 == 0
    ensures ReadsBack(y >> 16, x, 15)
  {}

  lemma Extracted14(insn: bv32)
    ensures WellScaled(ExtractBranchDisplacement(insn, 5, 14), 15)
  {}

  lemma ReadBack14(insn: bv32, x: bv32)
    ensures ReadsBack(ExtractBranchDisplacement(RewriteBranchDisplacement(insn, 5, 14, x), 5, 14), x, 15)
  {
    var field := ShiftLeft(ArithmeticShiftRight(x, 2), 5);
    Mask14();
    Scaled14(x);
    Field14(insn, field);
    Raised14(ReplaceBits(insn, 0x0007_ffe0, field), x);
    Lowered14(x, (x >> 2) << 18);
  }

  // ----- fields are determined by what they encode -----

  lemma TakenNegative26(insn: bv32)
    requires insn & 0x8000_0000 != 0
    ensures ShiftLeft(ArithmeticShiftRight(insn, 0), 6) == (insn >> 0) << 6
  {}

  lemma TakenPositive26(insn: bv32)
    requires insn & 0x8000_0000 == 0
    ensures ShiftLeft(ArithmeticShiftRight(insn, 0), 6) == (insn >> 0) << 6
  {}

  lemma Taken26(insn: bv32)
    ensures ShiftLeft(ArithmeticShiftRight(insn, 0), 6) == (insn >> 0) << 6
  {
    if insn & 0x8000_0000 != 0 {
      TakenNegative26(insn);
    } else {
      TakenPositive26(insn);
    }
  }

  lemma Kept26(y: bv32)
    ensures (ArithmeticShiftRight(y, 4) >> 2) & 0x03ff_ffff == y >> 6
  {
    if y & 0x8000_0000 != 0 {
      assert ((!((!y) >> 4)) >> 2) & 0x03ff_ffff == y >> 6;
    } else {
      assert ((y >> 4) >> 2) & 0x03ff_ffff == y >> 6;
    }
  }

  lemma Placed26(insn: bv32)
    ensures ((((insn >> 0) << 6) >> 6) << 0) == insn & 0x03ff_ffff
  {}

  lemma Field26Encoded(insn: bv32)
    ensures ((ExtractBranchDisplacement(insn, 0, 26) >> 2) & 0x03ff_ffff) << 0 == insn & 0x03ff_ffff
  {
    Taken26(insn);
    Kept26((insn >> 0) << 6);
    Placed26(insn);
  }

  lemma TakenNegative19(insn: bv32)
    requires insn & 0x8000_0000 != 0
    ensures ShiftLeft(ArithmeticShiftRight(insn, 5), 13) == (insn >> 5) << 13
  {}

  lemma TakenPositive19(insn: bv32)
    requires insn & 0x8000_0000 == 0
    ensures ShiftLeft(ArithmeticShiftRight(insn, 5), 13) == (insn >> 5) << 13
  {}

  lemma Taken19(insn: bv32)
    ensures ShiftLeft(ArithmeticShiftRight(insn, 5), 13) == (insn >> 5) << 13
  {
    if insn & 0x8000_0000 != 0 {
      TakenNegative19(insn);
    } else {
      TakenPositive19(insn);
    }
  }

  lemma Kept19(y: bv32)
    ensures (ArithmeticShiftRight(y, 11) >> 2) & 0x0007_ffff == y >> 13
  {
    if y & 0x8000_0000 != 0 {
      assert ((!((!y) >> 11)) >> 2) & 0x0007_ffff == y >> 13;
    } else {
      assert ((y >> 11) >> 2) & 0x0007_ffff == y >> 13;
    }
  }

  lemma Placed19(insn: bv32)
    ensures ((((insn >> 5) << 13) >> 13) << 5) == insn & 0x00ff_ffe0
  {}

  lemma Field19Encoded(insn: bv32)
    ensures ((ExtractBranchDisplacement(insn, 5, 19) >> 2) & 0x0007_ffff) << 5 == insn & 0x00ff_ffe0
  {
    Taken19(insn);
    Kept19((insn >> 5) << 13);
    Placed19(insn);
  }

  lemma TakenNegative14(insn: bv32)
    requires insn & 0x8000_0000 != 0
    ensures ShiftLeft(ArithmeticShiftRight(insn, 5), 18) == (insn >> 5) << 18
  {}

  lemma TakenPositive14(insn: bv32)
    requires insn & 0x8000_0000 == 0
    ensures ShiftLeft(ArithmeticShiftRight(insn, 5), 18) == (insn >> 5) << 18
  {}

  lemma Taken14(insn: bv32)
    ensures ShiftLeft(ArithmeticShiftRight(insn, 5), 18) == (insn >> 5) << 18
  {
    if insn & 0x8000_0000 != 0 {
      TakenNegative14(insn);
    } else {
      TakenPositive14(insn);
    }
  }

  lemma Kept14(y: bv32)
    ensures (ArithmeticShiftRight(y, 16) >> 2) & 0x3fff == y >> 18
  {
    if y & 0x8000_0000 != 0 {
      assert ((!((!y) >> 16)) >> 2) & 0x3fff == y >> 18;
    } else {
      assert ((y >> 16) >> 2) & 0x3fff == y >> 18;
    }
  }

  lemma Placed14(insn: bv32)
    ensures ((((insn >> 5) << 18) >> 18) << 5) == insn & 0x0007_ffe0
  {}

  lemma Field14Encoded(insn: bv32)
    ensures ((ExtractBranchDisplacement(insn, 5, 14) >> 2) & 0x3fff) << 5 == insn & 0x0007_ffe0
  {
    Taken14(insn);
    Kept14((insn >> 5) << 18);
    Placed14(insn);
  }

  // ----- two words with known displacements -----

  /** A conditional branch by 4 and by -4 bytes: each is the other, rewritten. */
  lemma RewriteExamples()
    ensures RewriteBranchDisplacement(0x5400_002f, 5, 19, 0xffff_fffc) == 0x54ff_ffef
    ensures RewriteBranchDisplacement(0x54ff_ffef, 5, 19, 4) == 0x5400_002f
  {}
}
