/**
  Instructions as the fuzzer's program editor sees them, and what the editor relies on
  from an architecture: decoding, and re-encoding a direct branch for a new displacement.
 */
module Instructions {
  import opened Wrappers

  /**
    The PC-relative displacement of an instruction.  `byteDisplacement` is what the bytes
    encode, counted from the start of the instruction; `boundary` is the instruction
    boundary the branch is meant to point to, a number between 0 and the number of
    instructions.  Either may be missing.
   */
  datatype DisplacementInfo = DisplacementInfo(byteDisplacement: Option<int>, boundary: Option<nat>) {
    predicate Valid() { byteDisplacement.Some? }
  }

  const NO_DISPLACEMENT := DisplacementInfo(None, None)

  datatype Instruction = Instruction(encoded: seq<bv8>, branch: DisplacementInfo, offset: nat)

  datatype InstructionConfig = InstructionConfig(
    requireValidEncoding: bool,
    filter: bool,
    displacementFixupLimit: nat)

  const DEFAULT_CONFIG := InstructionConfig(true, true, 0xffff_ffff_ffff_ffff)

  /** Branches at least this far away are treated as if they had no displacement. */
  predicate DisplacementWithinFixupLimit(displacement: int, limit: nat) {
    (if displacement >= 0 then displacement else -displacement) < limit
  }

  function LimitedDisplacement(displacement: Option<int>, limit: nat): Option<int> {
    if displacement.Some? && DisplacementWithinFixupLimit(displacement.value, limit) then displacement else None
  }

  /** The outcome of decoding; `size` is zero when the bytes do not decode at all. */
  datatype Decoded = Decoded(accepted: bool, size: nat, displacement: Option<int>)

  /**
    An architecture: its instruction sizes, `fromBytes` (decode the first instruction of
    some bytes), `reencode` (rewrite the bytes of a branch for a displacement; the flag says
    whether that displacement is now encoded), `displacementOf` (the displacement that the
    bytes of one whole branch encode), and two classes of encodings: those that re-encoding
    no longer resizes, and those that the static filter accepts.
   */
  datatype Arch = Arch(
    minSize: nat,
    maxSize: nat,
    bufferSize: nat,
    fromBytes: (seq<bv8>, InstructionConfig) -> Decoded,
    reencode: (seq<bv8>, int) -> (seq<bv8>, bool),
    displacementOf: seq<bv8> -> Option<int>,
    canonical: seq<bv8> -> bool,
    acceptable: seq<bv8> -> bool)
  {
    predicate Branch(bytes: seq<bv8>) {
      0 < |bytes| <= bufferSize && displacementOf(bytes).Some?
    }
  }

  /** What a decoder promises about one input. */
  predicate DecodesSoundly(a: Arch, bytes: seq<bv8>, config: InstructionConfig) {
    var r := a.fromBytes(bytes, config);
    && r.size <= |bytes|
    && r.size <= a.maxSize
    && (r.accepted ==>
          && 0 < r.size
          && r.displacement == LimitedDisplacement(a.displacementOf(bytes[..r.size]), config.displacementFixupLimit)
          && (config.filter ==> a.acceptable(bytes[..r.size])))
  }

  /** What an encoder promises when it is asked to encode `d` into a branch. */
  predicate ReencodesSoundly(a: Arch, bytes: seq<bv8>, d: int) {
    var r := a.reencode(bytes, d);
    && a.Branch(r.0)
    // Success means that the bytes now decode to the requested displacement.
    && (r.1 <==> a.displacementOf(r.0) == Some(d))
    // A branch to itself can always be encoded.
    && (d == 0 ==> r.1)
    // Re-encoding yields a canonical form, whose size never changes again.
    && a.canonical(r.0)
    && (a.canonical(bytes) ==> |r.0| == |bytes|)
    // A displacement that a canonical form already encodes can be encoded again.
    && (a.canonical(bytes) && a.displacementOf(bytes) == Some(d) ==> r.1)
    // The filter does not look at displacements.
    && (a.acceptable(bytes) ==> a.acceptable(r.0))
  }

  /** Which displacements fit a canonical form does not depend on the one it holds now. */
  predicate FitsStably(a: Arch, bytes: seq<bv8>, d: int, d': int) {
    a.reencode(a.reencode(bytes, d).0, d').1 == a.reencode(bytes, d').1
  }

  ghost predicate Lawful(a: Arch) {
    && 0 < a.minSize <= a.maxSize <= a.bufferSize
    && (forall bytes, config :: DecodesSoundly(a, bytes, config))
    && (forall bytes, d | a.Branch(bytes) :: ReencodesSoundly(a, bytes, d))
    && (forall bytes, d, d' | a.Branch(bytes) && a.canonical(bytes) :: FitsStably(a, bytes, d, d'))
  }
}
