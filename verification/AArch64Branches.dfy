/**
  Direct branches of AArch64: the classes of instruction words that carry a displacement,
  and re-encoding a word for a new displacement (section C4.1 of DDI 0487).
 */
module AArch64Branches {
  import opened Wrappers
  import opened BitMatchers
  import TwosComplement
  import opened BranchFields
  import opened StaticInsnFilter

  datatype FieldLocation = FieldLocation(lsb: bv8, width: bv8)

  datatype BranchInstructionInfo = BranchInstructionInfo(matcher: BitMatcher, displacement: FieldLocation)

  // b and bl
  const UNCONDITIONAL := BranchInstructionInfo(BitMatcher(0x7c00_0000, 0x1400_0000), FieldLocation(0, 26))
  // b.cond and bc.cond
  const CONDITIONAL := BranchInstructionInfo(BitMatcher(0xff00_0000, 0x5400_0000), FieldLocation(5, 19))
  // cbz and cbnz
  const COMPARE := BranchInstructionInfo(BitMatcher(0x7e00_0000, 0x3400_0000), FieldLocation(5, 19))
  // tbz and tbnz
  const TEST := BranchInstructionInfo(BitMatcher(0x7e00_0000, 0x3600_0000), FieldLocation(5, 14))

  predicate IsBranchClass(info: BranchInstructionInfo) {
    info == UNCONDITIONAL || info == CONDITIONAL || info == COMPARE || info == TEST
  }

  /** The branch class of a word: the first entry of the table that matches. */
  function FindBranchInfo(insn: bv32): (r: Option<BranchInstructionInfo>)
    ensures r.Some? ==> IsBranchClass(r.value) && r.value.matcher.Matches(insn)
    ensures r.None? ==> forall info | IsBranchClass(info) :: !info.matcher.Matches(insn)
  {
    if UNCONDITIONAL.matcher.Matches(insn) then Some(UNCONDITIONAL)
    else if CONDITIONAL.matcher.Matches(insn) then Some(CONDITIONAL)
    else if COMPARE.matcher.Matches(insn) then Some(COMPARE)
    else if TEST.matcher.Matches(insn) then Some(TEST)
    else None
  }

  const BRANCH_INSTRUCTION_INFO: seq<BranchInstructionInfo> := [UNCONDITIONAL, CONDITIONAL, COMPARE, TEST]

  /** Scans the table for the first entry that matches. */
  method FindBranch(insn: bv32) returns (r: Option<BranchInstructionInfo>)
    ensures r == FindBranchInfo(insn)
  {
    var table := BRANCH_INSTRUCTION_INFO;
    assert table[0] == UNCONDITIONAL && table[1] == CONDITIONAL && table[2] == COMPARE && table[3] == TEST;
    for i := 0 to |table|
      invariant forall j | 0 <= j < i :: !table[j].matcher.Matches(insn)
    {
      if table[i].matcher.Matches(insn) {
        return Some(table[i]);
      }
    }
    return None;
  }

  /** The width of the displacement field, as a number. */
  function Width(info: BranchInstructionInfo): nat
    requires IsBranchClass(info)
  {
    if info == UNCONDITIONAL then 26 else if info == TEST then 14 else 19
  }

  const INT32_BITS: nat := 32

  /** The displacements that fit a field of `width` bits: multiples of four, sign included. */
  predicate Encodable(d: int, width: nat) {
    d % 4 == 0 && -TwosComplement.Pow2(width + 1) <= d < TwosComplement.Pow2(width + 1)
  }

  /** The displacement that the word encodes, in bytes from the branch itself. */
  function EncodedDisplacement(insn: bv32, info: BranchInstructionInfo): int
    requires IsBranchClass(info)
  {
    TwosComplement.SignedValue(
      ExtractBranchDisplacement(insn, info.displacement.lsb, info.displacement.width), INT32_BITS)
  }

  /** The word with its field set for displacement `d`, which is first narrowed to 32 bits. */
  function RewrittenWord(insn: bv32, info: BranchInstructionInfo, d: int): bv32
    requires IsBranchClass(info)
  {
    RewriteBranchDisplacement(
      insn, info.displacement.lsb, info.displacement.width, TwosComplement.Truncate(d, INT32_BITS))
  }

  /** Rewrites a branch word and reports whether reading it back gives the displacement. */
  function Reencoded(insn: bv32, d: int): (r: (bv32, bool))
    requires FindBranchInfo(insn).Some?
  {
    var info := FindBranchInfo(insn).value;
    var insn' := RewrittenWord(insn, info, d);
    (insn', EncodedDisplacement(insn', info) == d)
  }

  // ----- classes -----

  /** The classes exclude each other, so the order of the table does not matter. */
  lemma ClassesExclusive(a: BranchInstructionInfo, b: BranchInstructionInfo, insn: bv32)
    requires IsBranchClass(a) && IsBranchClass(b) && a != b
    requires a.matcher.Matches(insn)
    ensures !b.matcher.Matches(insn)
  {}

  // ----- exactness of re-encoding -----

  lemma HalfThenShift(x: bv32, k: bv8)
    requires 0 < k <= 32
    ensures ShiftRight(x >> 1, k - 1) == ShiftRight(x, k)
  {}

  lemma {:induction false} DropIsShift(x: bv32, j: nat, k: bv8)
    requires j <= 32 && k as int == j
    ensures k <= 32
    ensures TwosComplement.Drop(x, j) == ShiftRight(x, k)
    decreases j
  {
    if j > 0 {
      DropIsShift(TwosComplement.Half(x), j - 1, k - 1);
      HalfThenShift(x, k);
    }
  }

  lemma {:induction false} Pow2Grows(i: nat, j: nat)
    requires i <= j
    ensures TwosComplement.Pow2(i) <= TwosComplement.Pow2(j)
    decreases j
  {
    if i < j {
      Pow2Grows(i, j - 1);
    }
  }

  /** A well scaled word stands for an encodable displacement. */
  lemma WellScaledValue(x: bv32, bits: nat, k: bv8, w: nat)
    requires 3 <= w + 1 < bits <= 32 && k as int == w + 1 && k <= 32
    requires ShiftRight(0xffff_ffff, k) == TwosComplement.Limit(bits - w - 1)
    requires WellScaled(x, k)
    ensures Encodable(TwosComplement.SignedValue(x, bits), w)
  {
    DropIsShift(x, w + 1, k);
    TwosComplement.SmallValue(x, bits, w + 1);
    TwosComplement.MultipleOfFour(x, bits);
  }

  /** An encodable displacement survives narrowing, and its word is well scaled. */
  lemma EncodableWord(d: int, bits: nat, k: bv8, w: nat)
    requires 3 <= w + 1 < bits <= 32 && k as int == w + 1 && k <= 32
    requires ShiftRight(0xffff_ffff, k) == TwosComplement.Limit(bits - w - 1)
    requires Encodable(d, w)
    ensures WellScaled(TwosComplement.Truncate(d, bits), k)
    ensures TwosComplement.SignedValue(TwosComplement.Truncate(d, bits), bits) == d
  {
    TwosComplement.TruncatedSmall(d, bits, w + 1);
    TwosComplement.TruncatedMultipleOfFour(d, bits);
    DroppedWord(TwosComplement.Truncate(d, bits), bits, k, w);
    Pow2Grows(w + 1, bits - 1);
    TwosComplement.TruncationExact(d, bits);
  }

  lemma DroppedWord(x: bv32, bits: nat, k: bv8, w: nat)
    requires 3 <= w + 1 < bits <= 32 && k as int == w + 1 && k <= 32
    requires ShiftRight(0xffff_ffff, k) == TwosComplement.Limit(bits - w - 1)
    requires TwosComplement.LowTwoClear(x)
    requires TwosComplement.Drop(x, w + 1) == 0 || TwosComplement.Drop(x, w + 1) == TwosComplement.Limit(bits - w - 1)
    ensures WellScaled(x, k)
  {
    DropIsShift(x, w + 1, k);
  }

  lemma ReadBackExact(e: bv32, d: int, bits: nat, k: bv8, w: nat)
    requires 3 <= w + 1 < bits <= 32 && k as int == w + 1 && k <= 32
    requires ShiftRight(0xffff_ffff, k) == TwosComplement.Limit(bits - w - 1)
    requires ReadsBack(e, TwosComplement.Truncate(d, bits), k)
    ensures TwosComplement.SignedValue(e, bits) == d <==> Encodable(d, w)
  {
    WellScaledValue(e, bits, k, w);
    if Encodable(d, w) {
      EncodableWord(d, bits, k, w);
    }
  }

  lemma OnesOfClass()
    ensures ShiftRight(0xffff_ffff, 27) == TwosComplement.Limit(5)
    ensures ShiftRight(0xffff_ffff, 20) == TwosComplement.Limit(12)
    ensures ShiftRight(0xffff_ffff, 15) == TwosComplement.Limit(17)
  {}

  lemma Exact26(insn: bv32, d: int, bits: nat)
    requires bits == 32
    ensures TwosComplement.SignedValue(ExtractBranchDisplacement(
        RewriteBranchDisplacement(insn, 0, 26, TwosComplement.Truncate(d, bits)), 0, 26), bits) == d
      <==> Encodable(d, 26)
  {
    var x := TwosComplement.Truncate(d, bits);
    ReadBack26(insn, x);
    OnesOfClass();
    ReadBackExact(ExtractBranchDisplacement(RewriteBranchDisplacement(insn, 0, 26, x), 0, 26), d, bits, 27, 26);
  }

  lemma Exact19(insn: bv32, d: int, bits: nat)
    requires bits == 32
    ensures TwosComplement.SignedValue(ExtractBranchDisplacement(
        RewriteBranchDisplacement(insn, 5, 19, TwosComplement.Truncate(d, bits)), 5, 19), bits) == d
      <==> Encodable(d, 19)
  {
    var x := TwosComplement.Truncate(d, bits);
    ReadBack19(insn, x);
    OnesOfClass();
    ReadBackExact(ExtractBranchDisplacement(RewriteBranchDisplacement(insn, 5, 19, x), 5, 19), d, bits, 20, 19);
  }

  lemma Exact14(insn: bv32, d: int, bits: nat)
    requires bits == 32
    ensures TwosComplement.SignedValue(ExtractBranchDisplacement(
        RewriteBranchDisplacement(insn, 5, 14, TwosComplement.Truncate(d, bits)), 5, 14), bits) == d
      <==> Encodable(d, 14)
  {
    var x := TwosComplement.Truncate(d, bits);
    ReadBack14(insn, x);
    OnesOfClass();
    ReadBackExact(ExtractBranchDisplacement(RewriteBranchDisplacement(insn, 5, 14, x), 5, 14), d, bits, 15, 14);
  }

  /** Re-encoding succeeds exactly on the displacements that fit the field of the class. */
  lemma ReencodeExact(insn: bv32, d: int)
    requires FindBranchInfo(insn).Some?
    ensures Reencoded(insn, d).1 <==> Encodable(d, Width(FindBranchInfo(insn).value))
  {
    var info := FindBranchInfo(insn).value;
    if info == UNCONDITIONAL {
      Exact26(insn, d, INT32_BITS);
    } else if info == TEST {
      Exact14(insn, d, INT32_BITS);
    } else {
      Exact19(insn, d, INT32_BITS);
    }
  }

  /** Whatever a branch word already encodes can be encoded again. */
  lemma EncodedIsEncodable(insn: bv32)
    requires FindBranchInfo(insn).Some?
    ensures Encodable(EncodedDisplacement(insn, FindBranchInfo(insn).value), Width(FindBranchInfo(insn).value))
  {
    var info := FindBranchInfo(insn).value;
    OnesOfClass();
    if info == UNCONDITIONAL {
      Extracted26(insn);
      WellScaledValue(ExtractBranchDisplacement(insn, 0, 26), INT32_BITS, 27, 26);
    } else if info == TEST {
      Extracted14(insn);
      WellScaledValue(ExtractBranchDisplacement(insn, 5, 14), INT32_BITS, 15, 14);
    } else {
      Extracted19(insn);
      WellScaledValue(ExtractBranchDisplacement(insn, 5, 19), INT32_BITS, 20, 19);
    }
  }

  // ----- what re-encoding keeps -----

  function Without(insn: bv32, mask: bv32): bv32 { insn & !mask }

  /** The bits outside the displacement field. */
  function FixedBits(insn: bv32, info: BranchInstructionInfo): bv32
    requires IsBranchClass(info)
  {
    Without(insn, DisplacementMask(info.displacement.lsb, info.displacement.width))
  }

  lemma ReplaceKeeps(insn: bv32, insn': bv32, mask: bv32, field: bv32, m: BitMatcher)
    requires insn' == ReplaceBits(insn, mask, field)
    requires m.mask & mask == 0 && m.Matches(insn)
    ensures Without(insn', mask) == Without(insn, mask)
    ensures m.Matches(insn')
  {}

  lemma FieldsOutsideMatchers(info: BranchInstructionInfo)
    requires IsBranchClass(info)
    ensures info.matcher.mask & DisplacementMask(info.displacement.lsb, info.displacement.width) == 0
  {}

  /** Re-encoding touches nothing outside the field, and the word stays in its class. */
  lemma ReencodeKeepsClass(insn: bv32, d: int)
    requires FindBranchInfo(insn).Some?
    ensures FixedBits(Reencoded(insn, d).0, FindBranchInfo(insn).value) == FixedBits(insn, FindBranchInfo(insn).value)
    ensures FindBranchInfo(Reencoded(insn, d).0) == FindBranchInfo(insn)
  {
    RewriteKeepsClass(insn, FindBranchInfo(insn).value, TwosComplement.Truncate(d, INT32_BITS));
  }

  lemma RewriteKeepsClass(insn: bv32, info: BranchInstructionInfo, x: bv32)
    requires FindBranchInfo(insn) == Some(info)
    ensures var insn' := RewriteBranchDisplacement(insn, info.displacement.lsb, info.displacement.width, x);
      FixedBits(insn', info) == FixedBits(insn, info) && FindBranchInfo(insn') == Some(info)
  {
    var insn' := RewriteBranchDisplacement(insn, info.displacement.lsb, info.displacement.width, x);
    FieldsOutsideMatchers(info);
    ReplaceKeeps(insn, insn', DisplacementMask(info.displacement.lsb, info.displacement.width),
      ShiftLeft(ArithmeticShiftRight(x, 2), info.displacement.lsb), info.matcher);
    UniqueClass(insn', info);
  }

  lemma UniqueClass(insn: bv32, info: BranchInstructionInfo)
    requires IsBranchClass(info) && info.matcher.Matches(insn)
    ensures FindBranchInfo(insn) == Some(info)
  {
    var found := FindBranchInfo(insn).value;
    if found != info {
      ClassesExclusive(info, found, insn);
    }
  }

  // ----- a branch is determined by its fixed bits and its displacement -----

  lemma NoMoreThan32Bits(x: bv32, bits: nat)
    requires bits == 32
    ensures TwosComplement.Drop(x, bits) == 0
  {
    DropIsShift(x, bits, 32);
  }

  /** Two words of one class with the same fixed bits and the same displacement are equal. */
  lemma DisplacementDetermines(w: bv32, v: bv32, info: BranchInstructionInfo)
    requires IsBranchClass(info)
    requires FixedBits(w, info) == FixedBits(v, info)
    requires EncodedDisplacement(w, info) == EncodedDisplacement(v, info)
    ensures w == v
  {
    if info == UNCONDITIONAL {
      Determined26(w, v, info);
    } else if info == TEST {
      Determined14(w, v, info);
    } else {
      Determined19(w, v, info);
    }
  }

  lemma SameEncoded(w: bv32, v: bv32, lsb: bv8, width: bv8, bits: nat)
    requires 0 < width <= 30 && lsb <= 32 - width && bits == 32
    requires TwosComplement.SignedValue(ExtractBranchDisplacement(w, lsb, width), bits)
      == TwosComplement.SignedValue(ExtractBranchDisplacement(v, lsb, width), bits)
    ensures ExtractBranchDisplacement(w, lsb, width) == ExtractBranchDisplacement(v, lsb, width)
  {
    NoMoreThan32Bits(ExtractBranchDisplacement(w, lsb, width), bits);
    NoMoreThan32Bits(ExtractBranchDisplacement(v, lsb, width), bits);
    TwosComplement.ValueDetermines(
      ExtractBranchDisplacement(w, lsb, width), ExtractBranchDisplacement(v, lsb, width), bits);
  }

  lemma SameField26(w: bv32, v: bv32)
    requires ExtractBranchDisplacement(w, 0, 26) == ExtractBranchDisplacement(v, 0, 26)
    ensures w & 0x03ff_ffff == v & 0x03ff_ffff
  {
    Field26Encoded(w);
    Field26Encoded(v);
  }

  lemma Parts26(w: bv32, v: bv32)
    requires w & 0x03ff_ffff == v & 0x03ff_ffff && w & 0xfc00_0000 == v & 0xfc00_0000
    ensures w == v
  {}

  lemma Fixed26(w: bv32)
    ensures Without(w, DisplacementMask(0, 26)) == w & 0xfc00_0000
  {}

  lemma SameValue26(w: bv32, v: bv32, bits: nat)
    requires bits == 32
    requires TwosComplement.SignedValue(ExtractBranchDisplacement(w, 0, 26), bits)
      == TwosComplement.SignedValue(ExtractBranchDisplacement(v, 0, 26), bits)
    ensures w & 0x03ff_ffff == v & 0x03ff_ffff
  {
    SameEncoded(w, v, 0, 26, bits);
    SameField26(w, v);
  }

  lemma Determines26(w: bv32, v: bv32, bits: nat)
    requires bits == 32 && w & 0xfc00_0000 == v & 0xfc00_0000
    requires TwosComplement.SignedValue(ExtractBranchDisplacement(w, 0, 26), bits)
      == TwosComplement.SignedValue(ExtractBranchDisplacement(v, 0, 26), bits)
    ensures w == v
  {
    SameValue26(w, v, bits);
    Parts26(w, v);
  }

  lemma SameField19(w: bv32, v: bv32)
    requires ExtractBranchDisplacement(w, 5, 19) == ExtractBranchDisplacement(v, 5, 19)
    ensures w & 0x00ff_ffe0 == v & 0x00ff_ffe0
  {
    Field19Encoded(w);
    Field19Encoded(v);
  }

  lemma Parts19(w: bv32, v: bv32)
    requires w & 0x00ff_ffe0 == v & 0x00ff_ffe0 && w & 0xff00_001f == v & 0xff00_001f
    ensures w == v
  {}

  lemma Fixed19(w: bv32)
    ensures Without(w, DisplacementMask(5, 19)) == w & 0xff00_001f
  {}

  lemma SameValue19(w: bv32, v: bv32, bits: nat)
    requires bits == 32
    requires TwosComplement.SignedValue(ExtractBranchDisplacement(w, 5, 19), bits)
      == TwosComplement.SignedValue(ExtractBranchDisplacement(v, 5, 19), bits)
    ensures w & 0x00ff_ffe0 == v & 0x00ff_ffe0
  {
    SameEncoded(w, v, 5, 19, bits);
    SameField19(w, v);
  }

  lemma Determines19(w: bv32, v: bv32, bits: nat)
    requires bits == 32 && w & 0xff00_001f == v & 0xff00_001f
    requires TwosComplement.SignedValue(ExtractBranchDisplacement(w, 5, 19), bits)
      == TwosComplement.SignedValue(ExtractBranchDisplacement(v, 5, 19), bits)
    ensures w == v
  {
    SameValue19(w, v, bits);
    Parts19(w, v);
  }

  lemma SameField14(w: bv32, v: bv32)
    requires ExtractBranchDisplacement(w, 5, 14) == ExtractBranchDisplacement(v, 5, 14)
    ensures w & 0x0007_ffe0 == v & 0x0007_ffe0
  {
    Field14Encoded(w);
    Field14Encoded(v);
  }

  lemma Parts14(w: bv32, v: bv32)
    requires w & 0x0007_ffe0 == v & 0x0007_ffe0 && w & 0xfff8_001f == v & 0xfff8_001f
    ensures w == v
  {}

  lemma Fixed14(w: bv32)
    ensures Without(w, DisplacementMask(5, 14)) == w & 0xfff8_001f
  {}

  lemma SameValue14(w: bv32, v: bv32, bits: nat)
    requires bits == 32
    requires TwosComplement.SignedValue(ExtractBranchDisplacement(w, 5, 14), bits)
      == TwosComplement.SignedValue(ExtractBranchDisplacement(v, 5, 14), bits)
    ensures w & 0x0007_ffe0 == v & 0x0007_ffe0
  {
    SameEncoded(w, v, 5, 14, bits);
    SameField14(w, v);
  }

  lemma Determines14(w: bv32, v: bv32, bits: nat)
    requires bits == 32 && w & 0xfff8_001f == v & 0xfff8_001f
    requires TwosComplement.SignedValue(ExtractBranchDisplacement(w, 5, 14), bits)
      == TwosComplement.SignedValue(ExtractBranchDisplacement(v, 5, 14), bits)
    ensures w == v
  {
    SameValue14(w, v, bits);
    Parts14(w, v);
  }

  lemma Determined26(w: bv32, v: bv32, info: BranchInstructionInfo)
    requires info == UNCONDITIONAL
    requires FixedBits(w, info) == FixedBits(v, info)
    requires EncodedDisplacement(w, info) == EncodedDisplacement(v, info)
    ensures w == v
  {
    Fixed26(w);
    Fixed26(v);
    Determines26(w, v, INT32_BITS);
  }

  lemma Determined19(w: bv32, v: bv32, info: BranchInstructionInfo)
    requires info == CONDITIONAL || info == COMPARE
    requires FixedBits(w, info) == FixedBits(v, info)
    requires EncodedDisplacement(w, info) == EncodedDisplacement(v, info)
    ensures w == v
  {
    Fixed19(w);
    Fixed19(v);
    Determines19(w, v, INT32_BITS);
  }

  lemma Determined14(w: bv32, v: bv32, info: BranchInstructionInfo)
    requires info == TEST
    requires FixedBits(w, info) == FixedBits(v, info)
    requires EncodedDisplacement(w, info) == EncodedDisplacement(v, info)
    ensures w == v
  {
    Fixed14(w);
    Fixed14(v);
    Determines14(w, v, INT32_BITS);
  }

  /** Whatever branch of the same class and with the same fixed bits `v` is, it is `w` re-encoded. */
  lemma ReencodedIs(w: bv32, v: bv32, d: int)
    requires FindBranchInfo(w).Some? && FindBranchInfo(v) == FindBranchInfo(w)
    requires FixedBits(v, FindBranchInfo(w).value) == FixedBits(w, FindBranchInfo(w).value)
    requires EncodedDisplacement(v, FindBranchInfo(w).value) == d
    ensures Reencoded(w, d) == (v, true)
  {
    EncodedIsEncodable(v);
    ReencodeExact(w, d);
    ReencodeKeepsClass(w, d);
    DisplacementDetermines(Reencoded(w, d).0, v, FindBranchInfo(w).value);
  }

  // ----- branches and the instruction filter -----

  lemma BranchUnreliable(info: BranchInstructionInfo)
    requires IsBranchClass(info)
    ensures ExclusiveWithAll(info.matcher, BANNED_UNRELIABLE)
  {}

  lemma BranchUnallocated(info: BranchInstructionInfo)
    requires IsBranchClass(info)
    ensures ExclusiveWithAll(info.matcher, BANNED_UNALLOCATED)
  {}

  lemma BranchSve32(info: BranchInstructionInfo)
    requires IsBranchClass(info)
    ensures ExclusiveWithAll(info.matcher, BANNED_SVE_32BIT)
  {}

  lemma BranchSve64(info: BranchInstructionInfo)
    requires IsBranchClass(info)
    ensures ExclusiveWithAll(info.matcher, BANNED_SVE_64BIT)
  {}

  lemma BranchRequiredSystem(info: BranchInstructionInfo)
    requires IsBranchClass(info)
    ensures ExclusiveWithPatterns(info.matcher, REQUIRED_SYSTEM_AND_MEMORY)
  {}

  lemma BranchRequiredData(info: BranchInstructionInfo)
    requires IsBranchClass(info)
    ensures ExclusiveWithPatterns(info.matcher, REQUIRED_DATA_PROCESSING)
  {}

  lemma BranchSingle(info: BranchInstructionInfo)
    requires IsBranchClass(info)
    ensures ExclusiveWithSingles(info.matcher)
  {}

  /** Every word of a direct-branch class passes the filter, whatever its displacement. */
  lemma BranchesPassFilter(insn: bv32, config: InstructionFilterConfig)
    requires FindBranchInfo(insn).Some?
    ensures InstructionIsOK(insn, config)
  {
    var info := FindBranchInfo(insn).value;
    BranchUnreliable(info);
    BranchUnallocated(info);
    BranchSve32(info);
    BranchSve64(info);
    BranchRequiredSystem(info);
    BranchRequiredData(info);
    BranchSingle(info);
    UnfilteredIsOK(info.matcher, insn, config);
  }
}
