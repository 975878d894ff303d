/**
  x86-64 as an architecture of the program editor.  The decoder and encoder are a library;
  what the editor's code relies on is stated as a contract, and re-encoding a branch, which
  canonicalises it at most once, is shown to meet what the editor requires.
 */
module X86_64 {
  import opened Wrappers
  import opened Instructions
  import opened ProgramLayout
  import opened ProgramDecoding
  import opened FixupPasses
  import opened FixupTargets
  import opened Arithmetic
  import TwosComplement

  /**
    The first instruction of some bytes.  `width` counts the bits of its branch displacement,
    zero when it is no direct branch; `displacement` is relative to the end of the instruction.
   */
  datatype DecodedInsn = DecodedInsn(length: nat, width: nat, displacement: int, allowedInRunner: bool)

  /** The library: decoding, encoding a decoded branch with another displacement, and the canonical forms. */
  datatype Codec = Codec(
    decode: seq<bv8> -> Option<DecodedInsn>,
    encode: (seq<bv8>, int) -> seq<bv8>,
    canonical: seq<bv8> -> bool)

  const MAX_SIZE: nat := 15
  const BUFFER_SIZE: nat := 16

  /** The displacements of `width` bits. */
  predicate Fits(v: int, width: nat) {
    0 < width && -TwosComplement.Pow2(width - 1) <= v < TwosComplement.Pow2(width - 1)
  }

  /** What is left of a displacement that is truncated to `width` bits. */
  function Truncated(v: int, width: nat): int
    requires 0 < width
  {
    var half := TwosComplement.Pow2(width - 1);
    (v + half) % (2 * half) - half
  }

  lemma TruncatedFits(v: int, width: nat)
    requires 0 < width
    ensures Fits(Truncated(v, width), width)
    ensures Truncated(v, width) == v <==> Fits(v, width)
  {
    var half := TwosComplement.Pow2(width - 1);
    if Fits(v, width) {
      assert 0 <= v + half < 2 * half;
      SmallRemainder(v + half, 2 * half);
    }
  }

  /** The bytes are one whole direct branch. */
  predicate IsBranch(x: Codec, bytes: seq<bv8>) {
    && x.decode(bytes).Some?
    && x.decode(bytes).value.length == |bytes|
    && x.decode(bytes).value.width > 0
  }

  /** Decoding looks at no more than the instruction itself. */
  predicate DecodesPrefix(x: Codec, bytes: seq<bv8>) {
    x.decode(bytes).Some? ==>
      var insn := x.decode(bytes).value;
      && 0 < insn.length <= |bytes|
      && insn.length <= MAX_SIZE
      && x.decode(bytes[..insn.length]) == Some(insn)
  }

  /** Encoding keeps the width, truncates the displacement to it, and gives a canonical form. */
  predicate EncodesBranch(x: Codec, bytes: seq<bv8>, v: int)
    requires IsBranch(x, bytes)
  {
    var width := x.decode(bytes).value.width;
    var e := x.encode(bytes, v);
    && 8 <= width
    && IsBranch(x, e)
    && x.decode(e).value.width == width
    && x.decode(e).value.displacement == Truncated(v, width)
    && x.canonical(e)
    && (x.canonical(bytes) ==> |e| == |bytes|)
    && Fits(x.decode(bytes).value.displacement, width)
  }

  ghost predicate Sound(x: Codec) {
    && (forall bytes :: DecodesPrefix(x, bytes))
    && (forall bytes, v | IsBranch(x, bytes) :: EncodesBranch(x, bytes, v))
  }

  // ----- decoding -----

  function DisplacementOf(x: Codec, bytes: seq<bv8>): Option<int> {
    if IsBranch(x, bytes) then Some(x.decode(bytes).value.displacement + |bytes|) else None
  }

  function InstructionFromBytes(x: Codec, bytes: seq<bv8>, config: InstructionConfig): Decoded {
    if x.decode(bytes).None? then Decoded(false, 0, None)
    else
      var insn := x.decode(bytes).value;
      var displacement := if insn.width > 0 then Some(insn.displacement + insn.length) else None;
      Decoded(config.filter ==> insn.allowedInRunner, insn.length,
              LimitedDisplacement(displacement, config.displacementFixupLimit))
  }

  // ----- re-encoding -----

  /** Encodes the branch for a displacement `d` counted from its start. */
  function ReencodeOnce(x: Codec, bytes: seq<bv8>, d: int): seq<bv8> {
    x.encode(bytes, d - |bytes|)
  }

  /** Re-encodes once, or twice if the first time changed the size. */
  function Reencode(x: Codec, bytes: seq<bv8>, d: int): (seq<bv8>, bool) {
    var first := ReencodeOnce(x, bytes, d);
    var last := if |first| != |bytes| then ReencodeOnce(x, first, d) else first;
    (last, DisplacementOf(x, last) == Some(d))
  }

  /** An instruction as re-encoding updates it. */
  class InstructionBuffer {
    var encoded: seq<bv8>

    constructor (encoded: seq<bv8>)
      ensures this.encoded == encoded
    {
      this.encoded := encoded;
    }

    method ReencodeInternal(x: Codec, d: int)
      requires Sound(x) && IsBranch(x, encoded)
      modifies this
      ensures encoded == ReencodeOnce(x, old(encoded), d)
      ensures IsBranch(x, encoded)
    {
      assert EncodesBranch(x, encoded, d - |encoded|);
      encoded := x.encode(encoded, d - |encoded|);
    }

    /** The second re-encoding never changes the size again. */
    method TryToReencodeInstructionDisplacements(x: Codec, d: int) returns (ok: bool)
      requires Sound(x) && IsBranch(x, encoded)
      modifies this
      ensures (encoded, ok) == Reencode(x, old(encoded), d)
    {
      var originalSize := |encoded|;
      assert EncodesBranch(x, encoded, d - |encoded|);
      ReencodeInternal(x, d);
      var canonicalSize := |encoded|;
      if originalSize != canonicalSize {
        assert EncodesBranch(x, encoded, d - |encoded|);
        ReencodeInternal(x, d);
        assert |encoded| == canonicalSize;
      }
      ok := x.decode(encoded).value.displacement + x.decode(encoded).value.length == d;
    }
  }

  /**
    After at most two re-encodings the size is final, and the displacement is the requested
    one exactly when it fits, counted from the end of the canonical instruction.
   */
  lemma ReencodeExact(x: Codec, bytes: seq<bv8>, d: int)
    requires Sound(x) && IsBranch(x, bytes)
    ensures var r := Reencode(x, bytes, d);
      && IsBranch(x, r.0)
      && x.canonical(r.0)
      && |r.0| <= MAX_SIZE
      && |r.0| == |ReencodeOnce(x, bytes, d)|
      && x.decode(r.0).value.width == x.decode(bytes).value.width
      && (r.1 <==> Fits(d - |r.0|, x.decode(bytes).value.width))
      && (x.canonical(bytes) ==> |r.0| == |bytes|)
  {
    var width := x.decode(bytes).value.width;
    var first := ReencodeOnce(x, bytes, d);
    assert EncodesBranch(x, bytes, d - |bytes|);
    assert EncodesBranch(x, first, d - |first|);
    var r := Reencode(x, bytes, d).0;
    assert DecodesPrefix(x, r);
    TruncatedFits(d - |r|, width);
  }

  lemma {:induction false} AtLeast128(width: nat)
    requires 8 <= width
    ensures TwosComplement.Pow2(width - 1) >= 128
    decreases width
  {
    if width > 8 {
      AtLeast128(width - 1);
    } else {
      assert TwosComplement.Pow2(4) == 16 && TwosComplement.Pow2(7) == 128;
    }
  }

  // ----- the architecture -----

  function X86Arch(x: Codec): Arch {
    Arch(1, MAX_SIZE, BUFFER_SIZE,
      (bytes, config) => InstructionFromBytes(x, bytes, config),
      (bytes, d) => Reencode(x, bytes, d),
      bytes => DisplacementOf(x, bytes),
      x.canonical,
      _ => true)
  }

  lemma DecodingSound(x: Codec, bytes: seq<bv8>, config: InstructionConfig)
    requires Sound(x)
    ensures DecodesSoundly(X86Arch(x), bytes, config)
  {
    assert DecodesPrefix(x, bytes);
  }

  lemma ReencodingSound(x: Codec, bytes: seq<bv8>, d: int)
    requires Sound(x) && X86Arch(x).Branch(bytes)
    ensures ReencodesSoundly(X86Arch(x), bytes, d)
  {
    var width := x.decode(bytes).value.width;
    var r := Reencode(x, bytes, d).0;
    ReencodeExact(x, bytes, d);
    assert DecodesPrefix(x, r);
    assert EncodesBranch(x, bytes, 0);
    AtLeast128(width);
  }

  lemma FitsAnyBranch(x: Codec, bytes: seq<bv8>, d: int, d': int)
    requires Sound(x) && X86Arch(x).Branch(bytes) && x.canonical(bytes)
    ensures FitsStably(X86Arch(x), bytes, d, d')
  {
    ReencodeExact(x, bytes, d);
    ReencodeExact(x, bytes, d');
    ReencodeExact(x, Reencode(x, bytes, d).0, d');
  }

  /** x86-64 is an architecture as the editor requires it, given what is relied on from the library. */
  lemma X86Lawful(x: Codec)
    requires Sound(x)
    ensures Lawful(X86Arch(x))
  {
    var a := X86Arch(x);
    forall bytes, config
      ensures DecodesSoundly(a, bytes, config)
    {
      DecodingSound(x, bytes, config);
    }
    forall bytes, d | a.Branch(bytes)
      ensures ReencodesSoundly(a, bytes, d)
    {
      ReencodingSound(x, bytes, d);
    }
    forall bytes, d, d' | a.Branch(bytes) && a.canonical(bytes)
      ensures FitsStably(a, bytes, d, d')
    {
      FitsAnyBranch(x, bytes, d, d');
    }
  }

  /** Once every branch is canonical, the fixup keeps exactly the targets whose distance fits. */
  lemma FixupKeepsReachableTargets(x: Codec, before: seq<Instruction>, now: seq<Instruction>, modified: bool, k: nat)
    requires Sound(x) && WellFormed(X86Arch(x), before) && AllCanonical(X86Arch(x), before)
    requires FixupDone(X86Arch(x), before, now, modified)
    requires k < |before| && before[k].branch.Valid()
    ensures IsBranch(x, before[k].encoded)
    ensures before[k].branch.boundary.Some? && before[k].branch.boundary.value <= |before|
    ensures now[k].branch.boundary == before[k].branch.boundary <==>
      Fits(TargetDistance(before, k) - |before[k].encoded|, x.decode(before[k].encoded).value.width)
  {
    var a := X86Arch(x);
    assert WellFormedInstruction(a, before[k], |before| + 1);
    assert KeptAt(a, before, now, k);
    assert a.canonical(before[k].encoded);
    ReencodeExact(x, before[k].encoded, TargetDistance(before, k));
  }

  /** However often a branch is re-encoded, the width of its displacement stays. */
  lemma {:induction false} AlongKeepsWidth(x: Codec, bytes: seq<bv8>, ds: seq<int>)
    requires Sound(x) && IsBranch(x, bytes)
    ensures var along := ReencodedAlong(X86Arch(x), bytes, ds);
      IsBranch(x, along) && x.decode(along).value.width == x.decode(bytes).value.width
    decreases |ds|
  {
    if ds != [] {
      AlongKeepsWidth(x, bytes, ds[..|ds| - 1]);
      ReencodeExact(x, ReencodedAlong(X86Arch(x), bytes, ds[..|ds| - 1]), ds[|ds| - 1]);
    }
  }

  /** The fixup only re-encodes: branches keep the width of their displacements, everything else its bytes. */
  lemma FixupKeepsWidth(x: Codec, before: seq<Instruction>, now: seq<Instruction>, modified: bool, k: nat)
    requires Sound(x) && WellFormed(X86Arch(x), before)
    requires FixupDone(X86Arch(x), before, now, modified) && k < |before|
    ensures |now| == |before|
    ensures !before[k].branch.Valid() ==> now[k].encoded == before[k].encoded
    ensures before[k].branch.Valid() ==>
      && IsBranch(x, before[k].encoded) && IsBranch(x, now[k].encoded)
      && x.decode(now[k].encoded).value.width == x.decode(before[k].encoded).value.width
  {
    var a := X86Arch(x);
    assert WellFormedInstruction(a, before[k], |before| + 1);
    assert Reworked(a, before[k], now[k]);
    if before[k].branch.Valid() {
      var ds :| RewrittenBy(a, before[k], now[k], ds);
      AlongKeepsWidth(x, before[k].encoded, ds);
    }
  }

  /** A branch whose displacement is wide enough for the whole program keeps its target, canonical or not. */
  lemma WideBranchKeepsTarget(x: Codec, before: seq<Instruction>, now: seq<Instruction>, modified: bool, k: nat)
    requires Sound(x) && WellFormed(X86Arch(x), before)
    requires FixupDone(X86Arch(x), before, now, modified)
    requires k < |before| && before[k].branch.Valid() && IsBranch(x, before[k].encoded)
    requires |before| * BUFFER_SIZE + MAX_SIZE < TwosComplement.Pow2(x.decode(before[k].encoded).value.width - 1)
    ensures |now| == |before| && now[k].branch.boundary == before[k].branch.boundary
  {
    var a := X86Arch(x);
    var bytes, limit := before[k].encoded, |before| * BUFFER_SIZE;
    forall ds, d | -limit <= d <= limit
      ensures a.reencode(ReencodedAlong(a, bytes, ds), d).1
    {
      AlongKeepsWidth(x, bytes, ds);
      ReencodeExact(x, ReencodedAlong(a, bytes, ds), d);
    }
    assert EncodesWithin(a, bytes, limit);
    FarReachingKeepsTarget(a, before, now, modified, k);
  }

  // ----- which instructions are decoded -----

  /** Position `q` follows `p`: after an instruction whether it is accepted or not, and else after one byte. */
  predicate ComesAfter(x: Codec, bytes: seq<bv8>, p: nat, q: nat) {
    p < |bytes| && q == p + match x.decode(bytes[p..]) { case Some(insn) => insn.length case None => 1 }
  }

  /** The instruction at position `p` decodes and, if there is a filter, is allowed in the runner. */
  predicate IsAllowed(x: Codec, config: InstructionConfig, bytes: seq<bv8>, p: nat) {
    p < |bytes| && x.decode(bytes[p..]).Some? && (config.filter ==> x.decode(bytes[p..]).value.allowedInRunner)
  }

  /** Decoding gives exactly the allowed instructions at the positions it comes to. */
  lemma DecodedInstructions(x: Codec, config: InstructionConfig, bytes: seq<bv8>, insns: seq<Instruction>, o: nat)
    returns (positions: seq<nat>)
    requires Sound(x) && Lawful(X86Arch(x)) && insns == DecodeFrom(X86Arch(x), config, bytes, 0)
    ensures positions != [] && positions[0] == 0 && positions[|positions| - 1] >= |bytes|
    ensures forall j {:trigger positions[j]} | 0 < j < |positions| :: ComesAfter(x, bytes, positions[j - 1], positions[j])
    ensures (exists k :: 0 <= k < |insns| && insns[k].offset == o) <==> o in positions && IsAllowed(x, config, bytes, o)
  {
    var a := X86Arch(x);
    positions := DecodesAccepted(a, config, bytes, 0);
    var accepted := Accepted(a, config, bytes, positions);
    AcceptedContains(a, config, bytes, positions, o);
    forall j | 0 < j < |positions|
      ensures ComesAfter(x, bytes, positions[j - 1], positions[j])
    {
      assert FollowsOn(a, config, bytes, positions, j - 1);
      assert DecodesPrefix(x, bytes[positions[j - 1]..]);
    }
    forall k | 0 <= k < |insns|
      ensures insns[k].offset == accepted[k]
    {
      assert DecodedAt(a, config, bytes, accepted[k], insns[k]);
    }
    if o in accepted {
      var k :| 0 <= k < |accepted| && accepted[k] == o;
      assert insns[k].offset == o;
    }
  }

  // ----- the contract can be met -----

  /** The byte with a given value. */
  function ByteOf(n: nat): bv8 {
    if n == 0 then 0 else ByteOf(n - 1) + 1
  }

  function SignedByte(b: bv8): int {
    if (b as int) < 128 then b as int else b as int - 256
  }

  /** The short jump EB, also with a redundant prefix 2E that encoding drops. */
  const SHORT_JUMPS := Codec(
    (bytes: seq<bv8>) =>
      if |bytes| >= 2 && bytes[0] == 0xeb then Some(DecodedInsn(2, 8, SignedByte(bytes[1]), true))
      else if |bytes| >= 3 && bytes[0] == 0x2e && bytes[1] == 0xeb then Some(DecodedInsn(3, 8, SignedByte(bytes[2]), true))
      else None,
    (bytes: seq<bv8>, v: int) => [0xeb, ByteOf(v % 256)],
    (bytes: seq<bv8>) => |bytes| == 2)

  lemma ShiftedRemainder(v: int)
    ensures (v + 128) % 256 == if v % 256 < 128 then v % 256 + 128 else v % 256 - 128
  {}

  lemma TruncatedToByte(v: int)
    ensures Truncated(v, 8) == (v + 128) % 256 - 128
  {
    assert TwosComplement.Pow2(4) == 16 && TwosComplement.Pow2(7) == 128;
  }

  lemma {:induction false} ByteValue(n: nat)
    requires n < 256
    ensures ByteOf(n) as int == n
    decreases n
  {
    if n > 0 {
      ByteValue(n - 1);
    }
  }

  lemma WrappedByte(v: int)
    ensures SignedByte(ByteOf(v % 256)) == Truncated(v, 8)
  {
    ShiftedRemainder(v);
    TruncatedToByte(v);
    ByteValue(v % 256);
  }

  lemma ByteFits(b: bv8)
    ensures Fits(SignedByte(b), 8)
  {
    assert TwosComplement.Pow2(4) == 16 && TwosComplement.Pow2(7) == 128;
  }

  /** Short jumps with and without the prefix are a codec as the editor relies on it. */
  lemma ShortJumpsSound()
    ensures Sound(SHORT_JUMPS)
  {
    forall bytes, v | IsBranch(SHORT_JUMPS, bytes)
      ensures EncodesBranch(SHORT_JUMPS, bytes, v)
    {
      WrappedByte(v);
      ByteFits(bytes[|bytes| - 1]);
    }
  }

  /** A prefixed jump to itself shrinks, and is encoded a second time for its final size. */
  lemma PrefixedJumpToItself()
    ensures Reencode(SHORT_JUMPS, [0x2e, 0xeb, 0x10], 0) == ([0xeb, 0xfe], true)
  {
    ByteValue(253);
    ByteValue(254);
    var first := ReencodeOnce(SHORT_JUMPS, [0x2e, 0xeb, 0x10], 0);
    assert first == [0xeb, 0xfd];
    assert ReencodeOnce(SHORT_JUMPS, first, 0) == [0xeb, 0xfe];
  }
}
