/**
  The tables of masks and bits in the static filter are the classes of instructions that are
  to be rejected: which words pass, in terms of their fields.
 */
module FilterTables {
  import opened BitMatchers
  import opened StaticInsnFilter
  import opened FilteredClasses

  // ----- the tables of the filter -----

  lemma StoreExclusiveBanned(insn: bv32)
    requires StoreExclusive(insn)
    ensures MatchesSome(BANNED_UNRELIABLE, insn)
  {
    assert BANNED_UNRELIABLE[0].Matches(insn);
  }

  lemma AuthenticatedLoadStoreBanned(insn: bv32)
    requires AuthenticatedLoadStore(insn)
    ensures MatchesSome(BANNED_UNRELIABLE, insn)
  {
    assert BANNED_UNRELIABLE[1].Matches(insn);
  }

  lemma AuthenticatedBranchBanned(insn: bv32)
    requires AuthenticatedBranch(insn)
    ensures MatchesSome(BANNED_UNRELIABLE, insn)
  {
    assert BANNED_UNRELIABLE[2].Matches(insn);
  }

  lemma AuthenticationHintBanned(insn: bv32)
    requires AuthenticationHint(insn)
    ensures MatchesSome(BANNED_UNRELIABLE, insn)
  {
    assert BANNED_UNRELIABLE[3].Matches(insn);
  }

  lemma AuthenticatingOneSourceBanned(insn: bv32)
    requires AuthenticatingOneSource(insn)
    ensures MatchesSome(BANNED_UNRELIABLE, insn)
  {
    assert BANNED_UNRELIABLE[4].Matches(insn);
  }

  lemma GenericAuthenticationBanned(insn: bv32)
    requires GenericAuthentication(insn)
    ensures MatchesSome(BANNED_UNRELIABLE, insn)
  {
    assert BANNED_UNRELIABLE[5].Matches(insn);
  }

  lemma WaitWithTimeoutBanned(insn: bv32)
    requires WaitWithTimeout(insn)
    ensures MatchesSome(BANNED_UNRELIABLE, insn)
  {
    assert BANNED_UNRELIABLE[8].Matches(insn);
  }

  lemma WaitHintBanned(insn: bv32)
    requires WaitHint(insn)
    ensures MatchesSome(BANNED_UNRELIABLE, insn)
  {
    if Bits(insn, 7, 5) == 2 {
      assert BANNED_UNRELIABLE[6].Matches(insn);
    } else {
      assert BANNED_UNRELIABLE[7].Matches(insn);
    }
  }

  lemma UnreliableEntry(i: nat, insn: bv32)
    requires i < 9 && BANNED_UNRELIABLE[i].Matches(insn)
    ensures Unreliable(insn)
  {}

  lemma UnallocatedGroupEntry(i: nat, insn: bv32)
    requires i < 3 && BANNED_UNALLOCATED[i].Matches(insn)
    ensures Unallocated(insn)
  {}

  lemma AtomicBits3(insn: bv32)
    requires insn & 0x3f20_ec00 == 0x3820_e000
    ensures Bits(insn, 29, 27) == 7 && Bits(insn, 25, 24) == 0 && Bits(insn, 21, 21) == 1 && Bits(insn, 11, 10) == 0
    ensures Bits(insn, 15, 15) == 1 && Bits(insn, 14, 13) == 3
  {}

  lemma AtomicEntry3(insn: bv32)
    requires BANNED_UNALLOCATED[3].Matches(insn)
    ensures UnallocatedAtomic(insn)
  {
    AtomicBits3(insn);
  }

  lemma AtomicBits4(insn: bv32)
    requires insn & 0x3fa0_fc00 == 0x3820_c000
    ensures Bits(insn, 29, 27) == 7 && Bits(insn, 25, 24) == 0 && Bits(insn, 21, 21) == 1 && Bits(insn, 11, 10) == 0
    ensures Bits(insn, 15, 15) == 1 && Bits(insn, 23, 23) == 0 && Bits(insn, 14, 12) == 4
  {}

  lemma AtomicEntry4(insn: bv32)
    requires BANNED_UNALLOCATED[4].Matches(insn)
    ensures UnallocatedAtomic(insn)
  {
    AtomicBits4(insn);
  }

  lemma AtomicBits5(insn: bv32)
    requires insn & 0x3f20_0c00 == 0x3c20_0000
    ensures Bits(insn, 29, 27) == 7 && Bits(insn, 25, 24) == 0 && Bits(insn, 21, 21) == 1 && Bits(insn, 11, 10) == 0
    ensures Bits(insn, 26, 26) == 1
  {}

  lemma AtomicEntry5(insn: bv32)
    requires BANNED_UNALLOCATED[5].Matches(insn)
    ensures UnallocatedAtomic(insn)
  {
    AtomicBits5(insn);
  }

  lemma Sve32Entry(i: nat, insn: bv32)
    requires i < 10 && BANNED_SVE_32BIT[i].Matches(insn)
    ensures NonFaultLoad(insn) || ContiguousFirstFaultLoad(insn) || FirstFaultGather32(insn)
  {}

  lemma Sve64Entry(i: nat, insn: bv32)
    requires i < 9 && BANNED_SVE_64BIT[i].Matches(insn)
    ensures FirstFaultGather64(insn)
  {}

  lemma UnallocatedBanned(insn: bv32)
    requires Unallocated(insn)
    ensures MatchesSome(BANNED_UNALLOCATED, insn)
  {
    if Bits(insn, 31, 31) == 0 && Group(insn) == 0 {
      assert BANNED_UNALLOCATED[0].Matches(insn);
    } else if Group(insn) == 1 {
      assert BANNED_UNALLOCATED[1].Matches(insn);
    } else if Group(insn) == 3 {
      assert BANNED_UNALLOCATED[2].Matches(insn);
    } else {
      AtomicBanned(insn);
    }
  }

  lemma AtomicBanned(insn: bv32)
    requires UnallocatedAtomic(insn)
    ensures MatchesSome(BANNED_UNALLOCATED, insn)
  {
    if Bits(insn, 26, 26) == 1 {
      assert BANNED_UNALLOCATED[5].Matches(insn);
    } else if Bits(insn, 14, 13) == 3 {
      assert BANNED_UNALLOCATED[3].Matches(insn);
    } else {
      assert BANNED_UNALLOCATED[4].Matches(insn);
    }
  }

  lemma NonFaultLoadBanned(insn: bv32)
    requires NonFaultLoad(insn)
    ensures MatchesSome(BANNED_SVE_32BIT, insn)
  {
    assert BANNED_SVE_32BIT[0].Matches(insn);
  }

  lemma ContiguousFirstFaultLoadBanned(insn: bv32)
    requires ContiguousFirstFaultLoad(insn)
    ensures MatchesSome(BANNED_SVE_32BIT, insn)
  {
    assert BANNED_SVE_32BIT[9].Matches(insn);
  }

  lemma VectorGather32Banned(insn: bv32)
    requires Bits(insn, 31, 25) == 66 && Bits(insn, 13, 13) == 1
    requires Bits(insn, 15, 15) == 1 && Bits(insn, 22, 21) == 1 && Bits(insn, 24, 23) != 3
    ensures MatchesSome(BANNED_SVE_32BIT, insn)
  {
    var size := Bits(insn, 24, 23);
    var i := if size == 0 then 6 else if size == 1 then 7 else 8;
    assert BANNED_SVE_32BIT[i].Matches(insn);
  }

  lemma ScaledGather32Banned(insn: bv32)
    requires Bits(insn, 31, 25) == 66 && Bits(insn, 13, 13) == 1
    requires Bits(insn, 15, 15) == 0 && Bits(insn, 21, 21) == 1 && (Bits(insn, 24, 23) == 1 || Bits(insn, 24, 23) == 2)
    ensures MatchesSome(BANNED_SVE_32BIT, insn)
  {
    var i := if Bits(insn, 24, 23) == 1 then 1 else 2;
    assert BANNED_SVE_32BIT[i].Matches(insn);
  }

  lemma UnscaledGather32Banned(insn: bv32)
    requires Bits(insn, 31, 25) == 66 && Bits(insn, 13, 13) == 1
    requires Bits(insn, 15, 15) == 0 && Bits(insn, 21, 21) == 0 && Bits(insn, 24, 23) != 3
    ensures MatchesSome(BANNED_SVE_32BIT, insn)
  {
    var size := Bits(insn, 24, 23);
    var i := if size == 0 then 3 else if size == 1 then 4 else 5;
    assert BANNED_SVE_32BIT[i].Matches(insn);
  }

  lemma FirstFaultGather32Banned(insn: bv32)
    requires FirstFaultGather32(insn)
    ensures MatchesSome(BANNED_SVE_32BIT, insn)
  {
    if Bits(insn, 15, 15) == 1 && Bits(insn, 22, 21) == 1 && Bits(insn, 24, 23) != 3 {
      VectorGather32Banned(insn);
    } else if Bits(insn, 15, 15) == 0 && Bits(insn, 21, 21) == 1 && (Bits(insn, 24, 23) == 1 || Bits(insn, 24, 23) == 2) {
      ScaledGather32Banned(insn);
    } else {
      UnscaledGather32Banned(insn);
    }
  }

  lemma FirstFaultGather64Banned(insn: bv32)
    requires FirstFaultGather64(insn)
    ensures MatchesSome(BANNED_SVE_64BIT, insn)
  {
    var size, form := Bits(insn, 24, 23), Bits(insn, 22, 21);
    if Bits(insn, 15, 15) == 1 {
      var i := if form == 1 then 6 else if form == 2 then 7 else if size == 1 then 0 else if size == 2 then 1 else 2;
      assert BANNED_SVE_64BIT[i].Matches(insn);
    } else {
      var i := if Bits(insn, 21, 21) == 0 then 8 else if size == 1 then 3 else if size == 2 then 4 else 5;
      assert BANNED_SVE_64BIT[i].Matches(insn);
    }
  }

  lemma SystemOrMemoryEntry0(insn: bv32)
    requires REQUIRED_SYSTEM_AND_MEMORY[0].ViolatesRequirements(insn)
    ensures MalformedSystem(insn)
  {}

  lemma SystemOrMemoryEntry1(insn: bv32)
    requires REQUIRED_SYSTEM_AND_MEMORY[1].ViolatesRequirements(insn)
    ensures MalformedStructureAccess(insn)
  {}

  lemma SystemOrMemoryEntry2(insn: bv32)
    requires REQUIRED_SYSTEM_AND_MEMORY[2].ViolatesRequirements(insn)
    ensures MalformedStructureAccess(insn)
  {}

  lemma SystemOrMemoryEntry3(insn: bv32)
    requires REQUIRED_SYSTEM_AND_MEMORY[3].ViolatesRequirements(insn)
    ensures MalformedLoadStore(insn)
  {}

  lemma SystemOrMemoryEntry4(insn: bv32)
    requires REQUIRED_SYSTEM_AND_MEMORY[4].ViolatesRequirements(insn)
    ensures MalformedCompareAndSwap(insn)
  {}

  lemma SystemAndMemoryEntry(i: nat, insn: bv32)
    requires i < 5 && REQUIRED_SYSTEM_AND_MEMORY[i].ViolatesRequirements(insn)
    ensures MalformedSystemOrMemory(insn)
  {
    if i == 0 {
      SystemOrMemoryEntry0(insn);
    } else if i == 1 {
      SystemOrMemoryEntry1(insn);
    } else if i == 2 {
      SystemOrMemoryEntry2(insn);
    } else if i == 3 {
      SystemOrMemoryEntry3(insn);
    } else {
      SystemOrMemoryEntry4(insn);
    }
  }

  lemma DataProcessingEntry(i: nat, insn: bv32)
    requires i < 6 && REQUIRED_DATA_PROCESSING[i].ViolatesRequirements(insn)
    ensures MalformedDataProcessing(insn)
  {}

  lemma ViolatedAt(table: seq<RequiredBits>, i: nat, insn: bv32)
    requires i < |table| && table[i].ViolatesRequirements(insn)
    ensures ViolatesSome(table, insn)
  {}

  lemma Violated(r: RequiredBits, mask: bv32, bits: bv32, expectedMask: bv32, expectedBits: bv32, insn: bv32)
    requires r == RequiredBits(BitMatcher(mask, bits), BitMatcher(expectedMask, expectedBits))
    requires insn & mask == bits && insn & expectedMask != expectedBits
    ensures r.ViolatesRequirements(insn)
  {
    assert r.pattern.Matches(insn);
    assert !r.expected.Matches(insn);
  }

  lemma MalformedSystemBits(insn: bv32)
    requires MalformedSystem(insn)
    ensures insn & 0xff00_0000 == 0xd500_0000 && insn & 0x00c0_0000 != 0
  {}

  lemma MalformedSystemFound(insn: bv32)
    requires MalformedSystem(insn)
    ensures ViolatesSome(REQUIRED_SYSTEM_AND_MEMORY, insn)
  {
    MalformedSystemBits(insn);
    Violated(REQUIRED_SYSTEM_AND_MEMORY[0], 0xff00_0000, 0xd500_0000, 0x00c0_0000, 0, insn);
    ViolatedAt(REQUIRED_SYSTEM_AND_MEMORY, 0, insn);
  }

  lemma Bit21Bits(insn: bv32)
    requires Bits(insn, 31, 31) == 0 && Bits(insn, 29, 24) == 12 && Bits(insn, 21, 21) != 0
    ensures insn & 0xbf00_0000 == 0x0c00_0000 && insn & 0x0020_0000 != 0
  {}

  lemma Bit21Found(insn: bv32)
    requires Bits(insn, 31, 31) == 0 && Bits(insn, 29, 24) == 12 && Bits(insn, 21, 21) != 0
    ensures ViolatesSome(REQUIRED_SYSTEM_AND_MEMORY, insn)
  {
    Bit21Bits(insn);
    Violated(REQUIRED_SYSTEM_AND_MEMORY[1], 0xbf00_0000, 0x0c00_0000, 0x0020_0000, 0, insn);
    ViolatedAt(REQUIRED_SYSTEM_AND_MEMORY, 1, insn);
  }

  lemma RegisterWithoutPostIndexBits(insn: bv32)
    requires Bits(insn, 31, 31) == 0 && Bits(insn, 29, 25) == 6 && Bits(insn, 23, 23) == 0 && Bits(insn, 20, 16) != 0
    ensures insn & 0xbe80_0000 == 0x0c00_0000 && insn & 0x001f_0000 != 0
  {}

  lemma RegisterWithoutPostIndexFound(insn: bv32)
    requires Bits(insn, 31, 31) == 0 && Bits(insn, 29, 25) == 6 && Bits(insn, 23, 23) == 0 && Bits(insn, 20, 16) != 0
    ensures ViolatesSome(REQUIRED_SYSTEM_AND_MEMORY, insn)
  {
    RegisterWithoutPostIndexBits(insn);
    Violated(REQUIRED_SYSTEM_AND_MEMORY[2], 0xbe80_0000, 0x0c00_0000, 0x001f_0000, 0, insn);
    ViolatedAt(REQUIRED_SYSTEM_AND_MEMORY, 2, insn);
  }

  lemma MalformedLoadStoreBits(insn: bv32)
    requires MalformedLoadStore(insn)
    ensures insn & 0xba00_0000 == 0x8800_0000 && insn & 0x0400_0000 != 0
  {}

  lemma MalformedLoadStoreFound(insn: bv32)
    requires MalformedLoadStore(insn)
    ensures ViolatesSome(REQUIRED_SYSTEM_AND_MEMORY, insn)
  {
    MalformedLoadStoreBits(insn);
    Violated(REQUIRED_SYSTEM_AND_MEMORY[3], 0xba00_0000, 0x8800_0000, 0x0400_0000, 0, insn);
    ViolatedAt(REQUIRED_SYSTEM_AND_MEMORY, 3, insn);
  }

  lemma MalformedCompareAndSwapBits(insn: bv32)
    requires MalformedCompareAndSwap(insn)
    ensures insn & 0x3fa0_0000 == 0x08a0_0000 && insn & 0x0000_7c00 != 0x0000_7c00
  {}

  lemma MalformedCompareAndSwapFound(insn: bv32)
    requires MalformedCompareAndSwap(insn)
    ensures ViolatesSome(REQUIRED_SYSTEM_AND_MEMORY, insn)
  {
    MalformedCompareAndSwapBits(insn);
    Violated(REQUIRED_SYSTEM_AND_MEMORY[4], 0x3fa0_0000, 0x08a0_0000, 0x0000_7c00, 0x0000_7c00, insn);
    ViolatedAt(REQUIRED_SYSTEM_AND_MEMORY, 4, insn);
  }

  lemma ZeroFieldBits(insn: bv32)
    requires OneSource(insn) && (Bits(insn, 29, 29) != 0 || Bits(insn, 20, 17) != 0 || Bits(insn, 15, 15) != 0)
    ensures insn & 0x5fe0_0000 == 0x5ac0_0000 && insn & 0x201e_8000 != 0
  {}

  lemma ZeroFieldFound(insn: bv32)
    requires OneSource(insn) && (Bits(insn, 29, 29) != 0 || Bits(insn, 20, 17) != 0 || Bits(insn, 15, 15) != 0)
    ensures ViolatesSome(REQUIRED_DATA_PROCESSING, insn)
  {
    ZeroFieldBits(insn);
    Violated(REQUIRED_DATA_PROCESSING[0], 0x5fe0_0000, 0x5ac0_0000, 0x201e_8000, 0, insn);
    ViolatedAt(REQUIRED_DATA_PROCESSING, 0, insn);
  }

  lemma ZeroOpcodeBits(insn: bv32)
    requires OneSource(insn) && Bits(insn, 29, 29) == 0 && Bits(insn, 20, 16) == 0 && Bits(insn, 14, 13) != 0
    ensures insn & 0x7fff_0000 == 0x5ac0_0000 && insn & 0x0000_6000 != 0
  {}

  lemma ZeroOpcodeFound(insn: bv32)
    requires OneSource(insn) && Bits(insn, 29, 29) == 0 && Bits(insn, 20, 16) == 0 && Bits(insn, 14, 13) != 0
    ensures ViolatesSome(REQUIRED_DATA_PROCESSING, insn)
  {
    ZeroOpcodeBits(insn);
    Violated(REQUIRED_DATA_PROCESSING[1], 0x7fff_0000, 0x5ac0_0000, 0x0000_6000, 0, insn);
    ViolatedAt(REQUIRED_DATA_PROCESSING, 1, insn);
  }

  lemma MalformedExtendedAddBits(insn: bv32)
    requires MalformedExtendedAdd(insn)
    ensures insn & 0x1f20_0000 == 0x0b20_0000 && insn & 0x00c0_0000 != 0
  {}

  lemma MalformedExtendedAddFound(insn: bv32)
    requires MalformedExtendedAdd(insn)
    ensures ViolatesSome(REQUIRED_DATA_PROCESSING, insn)
  {
    MalformedExtendedAddBits(insn);
    Violated(REQUIRED_DATA_PROCESSING[2], 0x1f20_0000, 0x0b20_0000, 0x00c0_0000, 0, insn);
    ViolatedAt(REQUIRED_DATA_PROCESSING, 2, insn);
  }

  lemma TwoSourceFpBits(insn: bv32)
    requires Bits(insn, 30, 30) == 0 && Bits(insn, 28, 24) == 30 && Bits(insn, 21, 21) == 1 && Bits(insn, 11, 10) == 2 && MOrS(insn)
    ensures insn & 0x5f20_0c00 == 0x1e20_0800 && insn & 0xa000_0000 != 0
  {}

  lemma TwoSourceFpFound(insn: bv32)
    requires Bits(insn, 30, 30) == 0 && Bits(insn, 28, 24) == 30 && Bits(insn, 21, 21) == 1 && Bits(insn, 11, 10) == 2 && MOrS(insn)
    ensures ViolatesSome(REQUIRED_DATA_PROCESSING, insn)
  {
    TwoSourceFpBits(insn);
    Violated(REQUIRED_DATA_PROCESSING[3], 0x5f20_0c00, 0x1e20_0800, 0xa000_0000, 0, insn);
    ViolatedAt(REQUIRED_DATA_PROCESSING, 3, insn);
  }

  lemma ThreeSourceFpBits(insn: bv32)
    requires Bits(insn, 30, 30) == 0 && Bits(insn, 28, 24) == 31 && MOrS(insn)
    ensures insn & 0x5f00_0000 == 0x1f00_0000 && insn & 0xa000_0000 != 0
  {}

  lemma ThreeSourceFpFound(insn: bv32)
    requires Bits(insn, 30, 30) == 0 && Bits(insn, 28, 24) == 31 && MOrS(insn)
    ensures ViolatesSome(REQUIRED_DATA_PROCESSING, insn)
  {
    ThreeSourceFpBits(insn);
    Violated(REQUIRED_DATA_PROCESSING[4], 0x5f00_0000, 0x1f00_0000, 0xa000_0000, 0, insn);
    ViolatedAt(REQUIRED_DATA_PROCESSING, 4, insn);
  }

  lemma ImmediateFpBits(insn: bv32)
    requires Bits(insn, 30, 30) == 0 && Bits(insn, 28, 24) == 30 && Bits(insn, 21, 21) == 1 && Bits(insn, 12, 10) == 4
      && (MOrS(insn) || Bits(insn, 9, 5) != 0)
    ensures insn & 0x5f20_1c00 == 0x1e20_1000 && insn & 0xa000_03e0 != 0
  {}

  lemma ImmediateFpFound(insn: bv32)
    requires Bits(insn, 30, 30) == 0 && Bits(insn, 28, 24) == 30 && Bits(insn, 21, 21) == 1 && Bits(insn, 12, 10) == 4
      && (MOrS(insn) || Bits(insn, 9, 5) != 0)
    ensures ViolatesSome(REQUIRED_DATA_PROCESSING, insn)
  {
    ImmediateFpBits(insn);
    Violated(REQUIRED_DATA_PROCESSING[5], 0x5f20_1c00, 0x1e20_1000, 0xa000_03e0, 0, insn);
    ViolatedAt(REQUIRED_DATA_PROCESSING, 5, insn);
  }

  lemma MalformedOneSourceFound(insn: bv32)
    requires MalformedOneSource(insn)
    ensures ViolatesSome(REQUIRED_DATA_PROCESSING, insn)
  {
    if Bits(insn, 29, 29) != 0 || Bits(insn, 20, 17) != 0 || Bits(insn, 15, 15) != 0 {
      ZeroFieldFound(insn);
    } else {
      ZeroOpcodeFound(insn);
    }
  }

  lemma MalformedFloatingPointFound(insn: bv32)
    requires MalformedFloatingPoint(insn)
    ensures ViolatesSome(REQUIRED_DATA_PROCESSING, insn)
  {
    if Bits(insn, 28, 24) == 31 {
      ThreeSourceFpFound(insn);
    } else if Bits(insn, 11, 10) == 2 {
      TwoSourceFpFound(insn);
    } else {
      ImmediateFpFound(insn);
    }
  }

  lemma MalformedStructureAccessFound(insn: bv32)
    requires MalformedStructureAccess(insn)
    ensures ViolatesSome(REQUIRED_SYSTEM_AND_MEMORY, insn)
  {
    if Bits(insn, 31, 31) == 0 && Bits(insn, 29, 24) == 12 && Bits(insn, 21, 21) != 0 {
      Bit21Found(insn);
    } else {
      RegisterWithoutPostIndexFound(insn);
    }
  }

  lemma SvePattern(insn: bv32)
    ensures SVE_INSTRUCTION.Matches(insn) <==> Sve(insn)
  {}

  lemma ScalarFpPattern(insn: bv32)
    ensures SCALAR_FP_AND_ADVANCED_SIMD_INSTRUCTION.Matches(insn) <==> Bits(insn, 27, 25) == 7
    ensures FP_SIMD_LOAD_STORE_INSTRUCTION.Matches(insn) <==> Bits(insn, 27, 25) == 6
  {}

  lemma BranchPattern(insn: bv32)
    ensures BRANCH_TO_REGISTER_INSTRUCTIONS.Matches(insn) <==> BranchToRegister(insn)
  {}

  lemma RegisterMovePattern(insn: bv32)
    ensures SYSREG_INSTRUCTION.Matches(insn) <==> SystemRegisterMove(insn)
  {}

  lemma SystemPattern(insn: bv32)
    ensures SYSTEM_INSTRUCTION.Matches(insn) <==> SystemInstruction(insn)
  {}

  lemma LoadStorePattern(insn: bv32)
    ensures LOAD_STORE_INSTRUCTION.Matches(insn) <==> Bits(insn, 27, 27) == 1 && Bits(insn, 25, 25) == 0
  {}

  lemma SmePattern(insn: bv32)
    ensures SME_MEMORY_OPERATION_INSTRUCTION.Matches(insn) <==> Bits(insn, 31, 25) == 112
  {}

  lemma SveMemoryPattern(insn: bv32)
    ensures SVE_MEMORY_OPERATION_INSTRUCTION.Matches(insn) <==> Bits(insn, 31, 31) == 1 && Group(insn) == 2
  {}

  lemma RegisterList(insn: bv32)
    ensures insn & SYSREG_MASK in ALLOWED_SYSREGS <==> NamesAllowedRegister(insn)
  {}

  // ----- the filter -----

  lemma InConcatenation(a: seq<BitMatcher>, b: seq<BitMatcher>, insn: bv32)
    ensures MatchesSome(a + b, insn) <==> MatchesSome(a, insn) || MatchesSome(b, insn)
  {
    if MatchesSome(a, insn) {
      var i :| 0 <= i < |a| && a[i].Matches(insn);
      assert (a + b)[i].Matches(insn);
    }
    if MatchesSome(b, insn) {
      var i :| 0 <= i < |b| && b[i].Matches(insn);
      assert (a + b)[|a| + i].Matches(insn);
    }
  }

  lemma ViolatedInConcatenation(a: seq<RequiredBits>, b: seq<RequiredBits>, insn: bv32)
    ensures ViolatesSome(a + b, insn) <==> ViolatesSome(a, insn) || ViolatesSome(b, insn)
  {
    if ViolatesSome(a, insn) {
      var i :| 0 <= i < |a| && a[i].ViolatesRequirements(insn);
      assert (a + b)[i].ViolatesRequirements(insn);
    }
    if ViolatesSome(b, insn) {
      var i :| 0 <= i < |b| && b[i].ViolatesRequirements(insn);
      assert (a + b)[|a| + i].ViolatesRequirements(insn);
    }
  }

  lemma UnreliableTable(insn: bv32)
    ensures MatchesSome(BANNED_UNRELIABLE, insn) <==> Unreliable(insn)
  {
    if MatchesSome(BANNED_UNRELIABLE, insn) {
      var i :| 0 <= i < |BANNED_UNRELIABLE| && BANNED_UNRELIABLE[i].Matches(insn);
      UnreliableEntry(i, insn);
    }
    if StoreExclusive(insn) {
      StoreExclusiveBanned(insn);
    } else if AuthenticatedLoadStore(insn) {
      AuthenticatedLoadStoreBanned(insn);
    } else if AuthenticatedBranch(insn) {
      AuthenticatedBranchBanned(insn);
    } else if AuthenticationHint(insn) {
      AuthenticationHintBanned(insn);
    } else if AuthenticatingOneSource(insn) {
      AuthenticatingOneSourceBanned(insn);
    } else if GenericAuthentication(insn) {
      GenericAuthenticationBanned(insn);
    } else if WaitHint(insn) {
      WaitHintBanned(insn);
    } else if WaitWithTimeout(insn) {
      WaitWithTimeoutBanned(insn);
    }
  }

  lemma UnallocatedTable(insn: bv32)
    ensures MatchesSome(BANNED_UNALLOCATED, insn) <==> Unallocated(insn)
  {
    if MatchesSome(BANNED_UNALLOCATED, insn) {
      var i :| 0 <= i < |BANNED_UNALLOCATED| && BANNED_UNALLOCATED[i].Matches(insn);
      if i < 3 {
        UnallocatedGroupEntry(i, insn);
      } else if i == 3 {
        AtomicEntry3(insn);
      } else if i == 4 {
        AtomicEntry4(insn);
      } else {
        AtomicEntry5(insn);
      }
    }
    if Unallocated(insn) {
      UnallocatedBanned(insn);
    }
  }

  lemma SveTables(insn: bv32)
    ensures MatchesSome(BANNED_SVE_32BIT, insn) || MatchesSome(BANNED_SVE_64BIT, insn) <==> FirstFaultOrNonFault(insn)
  {
    if MatchesSome(BANNED_SVE_32BIT, insn) {
      var i :| 0 <= i < |BANNED_SVE_32BIT| && BANNED_SVE_32BIT[i].Matches(insn);
      Sve32Entry(i, insn);
    }
    if MatchesSome(BANNED_SVE_64BIT, insn) {
      var i :| 0 <= i < |BANNED_SVE_64BIT| && BANNED_SVE_64BIT[i].Matches(insn);
      Sve64Entry(i, insn);
    }
    if NonFaultLoad(insn) {
      NonFaultLoadBanned(insn);
    } else if ContiguousFirstFaultLoad(insn) {
      ContiguousFirstFaultLoadBanned(insn);
    } else if FirstFaultGather32(insn) {
      FirstFaultGather32Banned(insn);
    } else if FirstFaultGather64(insn) {
      FirstFaultGather64Banned(insn);
    }
  }

  lemma RequiredTable(insn: bv32)
    ensures ViolatesSome(REQUIRED_INSTRUCTION_BITS, insn) <==> Malformed(insn)
  {
    ViolatedInConcatenation(REQUIRED_SYSTEM_AND_MEMORY, REQUIRED_DATA_PROCESSING, insn);
    RequiredOfSystemAndMemory(insn);
    RequiredOfDataProcessing(insn);
  }

  lemma RequiredOfSystemAndMemory(insn: bv32)
    ensures ViolatesSome(REQUIRED_SYSTEM_AND_MEMORY, insn) <==> MalformedSystemOrMemory(insn)
  {
    if ViolatesSome(REQUIRED_SYSTEM_AND_MEMORY, insn) {
      var i :| 0 <= i < |REQUIRED_SYSTEM_AND_MEMORY| && REQUIRED_SYSTEM_AND_MEMORY[i].ViolatesRequirements(insn);
      SystemAndMemoryEntry(i, insn);
    }
    if MalformedSystem(insn) {
      MalformedSystemFound(insn);
    } else if MalformedStructureAccess(insn) {
      MalformedStructureAccessFound(insn);
    } else if MalformedLoadStore(insn) {
      MalformedLoadStoreFound(insn);
    } else if MalformedCompareAndSwap(insn) {
      MalformedCompareAndSwapFound(insn);
    }
  }

  lemma RequiredOfDataProcessing(insn: bv32)
    ensures ViolatesSome(REQUIRED_DATA_PROCESSING, insn) <==> MalformedDataProcessing(insn)
  {
    if ViolatesSome(REQUIRED_DATA_PROCESSING, insn) {
      var i :| 0 <= i < |REQUIRED_DATA_PROCESSING| && REQUIRED_DATA_PROCESSING[i].ViolatesRequirements(insn);
      DataProcessingEntry(i, insn);
    }
    if MalformedOneSource(insn) {
      MalformedOneSourceFound(insn);
    } else if MalformedExtendedAdd(insn) {
      MalformedExtendedAddFound(insn);
    } else if MalformedFloatingPoint(insn) {
      MalformedFloatingPointFound(insn);
    }
  }

  lemma BannedTable(insn: bv32)
    ensures MatchesSome(BANNED_INSTRUCTIONS, insn) <==> Unreliable(insn) || Unallocated(insn) || FirstFaultOrNonFault(insn)
  {
    InConcatenation(BANNED_UNRELIABLE, BANNED_UNALLOCATED, insn);
    InConcatenation(BANNED_UNRELIABLE + BANNED_UNALLOCATED, BANNED_SVE_32BIT, insn);
    InConcatenation(BANNED_UNRELIABLE + BANNED_UNALLOCATED + BANNED_SVE_32BIT, BANNED_SVE_64BIT, insn);
    UnreliableTable(insn);
    UnallocatedTable(insn);
    SveTables(insn);
  }

  /** Exactly which words the filter lets pass. */
  lemma FilterByFields(insn: bv32, config: InstructionFilterConfig)
    ensures InstructionIsOK(insn, config) <==> !AlwaysRejected(insn) && !TakenAway(insn, config)
  {
    BannedTable(insn);
    RequiredTable(insn);
    SvePattern(insn);
    ScalarFpPattern(insn);
    BranchPattern(insn);
    RegisterMovePattern(insn);
    SystemPattern(insn);
    LoadStorePattern(insn);
    SmePattern(insn);
    SveMemoryPattern(insn);
    RegisterList(insn);
  }

  /** The default configuration takes nothing more away. */
  lemma DefaultFilter(insn: bv32)
    ensures InstructionIsOK(insn, DEFAULT_CONFIG) <==> !AlwaysRejected(insn)
  {
    FilterByFields(insn, DEFAULT_CONFIG);
  }
}
