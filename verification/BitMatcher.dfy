/** Patterns over 32-bit instruction words. */
module BitMatchers {

  /** Matches the words whose bits under `mask` are `bits`. */
  datatype BitMatcher = BitMatcher(mask: bv32, bits: bv32) {
    predicate Matches(insn: bv32) {
      insn & mask == bits
    }
  }

  /** A word that matches `pattern` is only well formed when it also matches `expected`. */
  datatype RequiredBits = RequiredBits(pattern: BitMatcher, expected: BitMatcher) {
    predicate ViolatesRequirements(insn: bv32) {
      pattern.Matches(insn) && !expected.Matches(insn)
    }
  }

  /** Two patterns that demand different values of a bit they both look at. */
  predicate Exclusive(a: BitMatcher, b: BitMatcher) {
    a.mask & b.mask & (a.bits ^ b.bits) != 0
  }

  /** No word matches both of two exclusive patterns. */
  lemma ExclusiveMatchers(a: BitMatcher, b: BitMatcher, insn: bv32)
    requires Exclusive(a, b) && a.Matches(insn)
    ensures !b.Matches(insn)
  {}

  predicate ExclusiveWithAll(a: BitMatcher, table: seq<BitMatcher>) {
    table == [] || (Exclusive(a, table[0]) && ExclusiveWithAll(a, table[1..]))
  }

  lemma {:induction false} NoneMatches(a: BitMatcher, table: seq<BitMatcher>, insn: bv32)
    requires ExclusiveWithAll(a, table) && a.Matches(insn)
    ensures forall i | 0 <= i < |table| :: !table[i].Matches(insn)
  {
    if table != [] {
      ExclusiveMatchers(a, table[0], insn);
      NoneMatches(a, table[1..], insn);
      forall i | 0 <= i < |table|
        ensures !table[i].Matches(insn)
      {
        if i > 0 {
          assert table[i] == table[1..][i - 1];
        }
      }
    }
  }
}
