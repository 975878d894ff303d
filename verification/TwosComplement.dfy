/**
  The two's-complement reading of 32-bit words, defined bit by bit.

  C++ narrows an `int64_t` to an `int32_t` by keeping the low 32 bits, and reads a word
  back as a signed number.  `Truncate` and `SignedValue` are these two conversions.
 */
module TwosComplement {

  function Pow2(k: nat): (p: int)
    ensures p > 0
  {
    if k == 0 then 1 else 2 * Pow2(k - 1)
  }

  predicate Odd(x: bv32) { x & 1 == 1 }

  function Half(x: bv32): bv32 { x >> 1 }

  function AppendBit(x: bv32, bit: bool): bv32 {
    if bit then (x << 1) | 1 else x << 1
  }

  /** The number that the low `k` bits of `x` stand for, the topmost of them being the sign. */
  function SignedValue(x: bv32, k: nat): int
    requires 1 <= k <= 32
    decreases k
  {
    var bit := if Odd(x) then 1 else 0;
    if k == 1 then -bit else bit + 2 * SignedValue(Half(x), k - 1)
  }

  /** The low `k` bits of the two's-complement representation of `d`. */
  function Truncate(d: int, k: nat): bv32
    requires k <= 32
    decreases k
  {
    if k == 0 then 0 else AppendBit(Truncate(d / 2, k - 1), d % 2 == 1)
  }

  /** `x` shifted right by `j` places. */
  function Drop(x: bv32, j: nat): bv32
    decreases j
  {
    if j == 0 then x else Drop(Half(x), j - 1)
  }

  /** The largest word of `k` significant bits. */
  function Limit(k: nat): bv32 {
    if k == 0 then 0 else AppendBit(Limit(k - 1), true)
  }

  // ----- single steps on words -----

  lemma AppendBitInverse(x: bv32, bit: bool)
    requires x < 0x8000_0000
    ensures Half(AppendBit(x, bit)) == x
    ensures Odd(AppendBit(x, bit)) == bit
  {}

  predicate Subset(x: bv32, y: bv32) { x & y == x }

  lemma SubsetOfZero(y: bv32)
    ensures Subset(0, y)
  {}

  lemma ShiftedOne(x: bv32, y: bv32)
    requires x & y == x
    ensures ((x << 1) | 1) & ((y << 1) | 1) == (x << 1) | 1
  {}

  lemma ShiftedZero(x: bv32, y: bv32)
    requires x & y == x
    ensures (x << 1) & ((y << 1) | 1) == x << 1
  {}

  lemma SubsetShiftOne(x: bv32, y: bv32)
    requires Subset(x, y)
    ensures Subset(AppendBit(x, true), AppendBit(y, true))
  {
    ShiftedOne(x, y);
  }

  lemma SubsetShiftZero(x: bv32, y: bv32)
    requires Subset(x, y)
    ensures Subset(AppendBit(x, false), AppendBit(y, true))
  {
    ShiftedZero(x, y);
  }

  lemma SubsetShift(x: bv32, y: bv32, bit: bool)
    requires Subset(x, y)
    ensures Subset(AppendBit(x, bit), AppendBit(y, true))
  {
    match bit
    case true => SubsetShiftOne(x, y);
    case false => SubsetShiftZero(x, y);
  }

  lemma SubsetBound(x: bv32, y: bv32)
    requires Subset(x, y) && Subset(y, 0x7fff_ffff)
    ensures x < 0x8000_0000
  {}

  // ----- bounds -----

  lemma {:induction false} LimitGrows(j: nat, k: nat)
    requires j <= k
    ensures Subset(Limit(j), Limit(k))
  {
    if j > 0 {
      LimitGrows(j - 1, k - 1);
      SubsetShift(Limit(j - 1), Limit(k - 1), true);
    } else {
      SubsetOfZero(Limit(k));
    }
  }

  lemma Limit31()
    ensures Limit(31) == 0x7fff_ffff
  {
    assert Limit(4) == 0xf;
    assert Limit(8) == 0xff;
    assert Limit(12) == 0xfff;
    assert Limit(16) == 0xffff;
    assert Limit(20) == 0xf_ffff;
    assert Limit(24) == 0xff_ffff;
    assert Limit(28) == 0xfff_ffff;
  }

  lemma {:induction false} TruncateWithinLimit(d: int, k: nat)
    requires k <= 32
    ensures Subset(Truncate(d, k), Limit(k))
    decreases k
  {
    if k == 0 {
      SubsetOfZero(Limit(0));
    } else {
      TruncateWithinLimit(d / 2, k - 1);
      AppendWithinLimit(Truncate(d / 2, k - 1), Limit(k - 1), d % 2 == 1, Truncate(d, k), Limit(k));
    }
  }

  lemma AppendWithinLimit(x: bv32, y: bv32, bit: bool, longerX: bv32, longerY: bv32)
    requires Subset(x, y) && longerX == AppendBit(x, bit) && longerY == AppendBit(y, true)
    ensures Subset(longerX, longerY)
  {
    SubsetShift(x, y, bit);
  }

  lemma TopBitClear(d: int, k: nat)
    requires k <= 31
    ensures Truncate(d, k) < 0x8000_0000
    ensures Limit(k) < 0x8000_0000
  {
    TruncateWithinLimit(d, k);
    LimitGrows(k, 31);
    Limit31();
    SubsetBound(Truncate(d, k), Limit(k));
    SubsetSelf(Limit(k));
    SubsetBound(Limit(k), Limit(k));
  }

  lemma SubsetSelf(x: bv32)
    ensures Subset(x, x)
  {}

  /** Dropping the lowest bit of a truncated number halves the number. */
  lemma HalveTruncated(d: int, k: nat)
    requires 1 <= k <= 32
    ensures Half(Truncate(d, k)) == Truncate(d / 2, k - 1)
    ensures Odd(Truncate(d, k)) == (d % 2 == 1)
  {
    TopBitClear(d / 2, k - 1);
    AppendBitInverse(Truncate(d / 2, k - 1), d % 2 == 1);
  }

  lemma HalveLimit(k: nat)
    requires 1 <= k <= 32
    ensures Half(Limit(k)) == Limit(k - 1)
    ensures Odd(Limit(k))
  {
    TopBitClear(0, k - 1);
    AppendBitInverse(Limit(k - 1), true);
  }

  // ----- reading back -----

  /** Truncation loses nothing exactly on the signed `k`-bit range. */
  lemma {:induction false} TruncationExact(d: int, k: nat)
    requires 1 <= k <= 32
    ensures SignedValue(Truncate(d, k), k) == d <==> -Pow2(k - 1) <= d < Pow2(k - 1)
    decreases k
  {
    HalveTruncated(d, k);
    if k > 1 {
      TruncationExact(d / 2, k - 1);
    }
  }

  /** The high bits of a truncated small number are all copies of its sign. */
  lemma {:induction false} TruncatedSmall(d: int, n: nat, j: nat)
    requires j < n <= 32
    requires -Pow2(j) <= d < Pow2(j)
    ensures Drop(Truncate(d, n), j) == if d < 0 then Limit(n - j) else 0
    decreases n
  {
    if j == 0 {
      TruncatedConstant(d, n);
    } else {
      HalveTruncated(d, n);
      TruncatedSmall(d / 2, n - 1, j - 1);
    }
  }

  lemma {:induction false} TruncatedConstant(d: int, n: nat)
    requires n <= 32 && -1 <= d < 1
    ensures Truncate(d, n) == if d < 0 then Limit(n) else 0
    decreases n
  {
    if n > 0 {
      TruncatedConstant(d / 2, n - 1);
      assert AppendBit(0, false) == 0;
    }
  }

  /** Conversely a word whose high bits are all equal reads as a small number. */
  lemma {:induction false} SmallValue(x: bv32, n: nat, j: nat)
    requires j < n <= 32
    requires Drop(x, j) == 0 || Drop(x, j) == Limit(n - j)
    ensures -Pow2(j) <= SignedValue(x, n) < Pow2(j)
    decreases n
  {
    if j == 0 {
      ConstantValue(x, n);
    } else {
      SmallValue(Half(x), n - 1, j - 1);
    }
  }

  lemma {:induction false} ConstantValue(x: bv32, n: nat)
    requires 1 <= n <= 32
    requires x == 0 || x == Limit(n)
    ensures SignedValue(x, n) == if x == 0 then 0 else -1
    decreases n
  {
    HalveLimit(n);
    assert Half(0) == 0 && !Odd(0);
    if n > 1 {
      LimitNonzero(n - 1);
      LimitNonzero(n);
      ConstantValue(Half(x), n - 1);
    }
  }

  lemma LimitNonzero(n: nat)
    requires 1 <= n <= 32
    ensures Limit(n) != 0
  {
    HalveLimit(n);
    assert !Odd(0);
  }

  predicate LowTwoClear(x: bv32) { x & 3 == 0 }

  lemma LowTwoBits(x: bv32)
    ensures LowTwoClear(x) <==> !Odd(x) && !Odd(Half(x))
  {}

  lemma EvenValue(x: bv32, n: nat)
    requires 2 <= n <= 32 && !Odd(x)
    ensures SignedValue(x, n) == 2 * SignedValue(Half(x), n - 1)
  {}

  /** Two clear low bits make the number a multiple of four. */
  lemma MultipleOfFour(x: bv32, n: nat)
    requires 3 <= n <= 32
    requires LowTwoClear(x)
    ensures SignedValue(x, n) % 4 == 0
  {
    LowTwoBits(x);
    EvenValue(x, n);
    EvenValue(Half(x), n - 1);
    TwiceTwice(SignedValue(x, n), SignedValue(Half(x), n - 1), SignedValue(Half(Half(x)), n - 2));
  }

  lemma TwiceTwice(v: int, h: int, q: int)
    requires v == 2 * h && h == 2 * q
    ensures v % 4 == 0
  {}

  /** A truncated multiple of four has two clear low bits. */
  lemma TruncatedMultipleOfFour(d: int, n: nat)
    requires 3 <= n <= 32
    requires d % 4 == 0
    ensures LowTwoClear(Truncate(d, n))
  {
    HalveTruncated(d, n);
    HalveTruncated(d / 2, n - 1);
    LowTwoBits(Truncate(d, n));
  }

  // ----- words are determined by their values -----

  lemma SameHalfSameWord(x: bv32, y: bv32)
    requires Half(x) == Half(y) && Odd(x) == Odd(y)
    ensures x == y
  {}

  /** Two words of `n` bits that stand for the same number are equal. */
  lemma {:induction false} ValueDetermines(x: bv32, y: bv32, n: nat)
    requires 1 <= n <= 32 && Drop(x, n) == 0 && Drop(y, n) == 0
    requires SignedValue(x, n) == SignedValue(y, n)
    ensures x == y
    decreases n
  {
    if n > 1 {
      ValueDetermines(Half(x), Half(y), n - 1);
    } else {
      assert Drop(x, 1) == Half(x) && Drop(y, 1) == Half(y);
    }
    SameHalfSameWord(x, y);
  }
}
