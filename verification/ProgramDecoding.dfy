/**
  From bytes to instructions and back: the decoding loop, the resolution of displacements
  to instruction boundaries, and printing.
 */
module ProgramDecoding {
  import opened Wrappers
  import opened Instructions
  import opened ProgramLayout

  // ----- decoding -----

  /** How many bytes an instruction that was not accepted takes up. */
  function SkippedBytes(a: Arch, r: Decoded): nat {
    if r.size == 0 then a.minSize else r.size
  }

  /** The instructions accepted from position `at` on; their offsets count the gaps between them. */
  function DecodeFrom(a: Arch, config: InstructionConfig, bytes: seq<bv8>, at: nat): seq<Instruction>
    requires Lawful(a)
    decreases |bytes| - at
  {
    if at >= |bytes| then []
    else
      var r := a.fromBytes(bytes[at..], config);
      assert DecodesSoundly(a, bytes[at..], config);
      if r.accepted then
        [Instruction(bytes[at..at + r.size], DisplacementInfo(r.displacement, None), at)]
        + DecodeFrom(a, config, bytes, at + r.size)
      else DecodeFrom(a, config, bytes, at + SkippedBytes(a, r))
  }

  /** Every instruction from position `at` on is accepted. */
  predicate AllDecode(a: Arch, config: InstructionConfig, bytes: seq<bv8>, at: nat)
    requires Lawful(a)
    decreases |bytes| - at
  {
    at >= |bytes| ||
    (var r := a.fromBytes(bytes[at..], config);
     assert DecodesSoundly(a, bytes[at..], config);
     r.accepted && AllDecode(a, config, bytes, at + r.size))
  }

  /** A freshly decoded instruction. */
  predicate FreshInstruction(a: Arch, config: InstructionConfig, insn: Instruction) {
    && 0 < |insn.encoded| <= a.bufferSize
    && insn.branch == DisplacementInfo(
         LimitedDisplacement(a.displacementOf(insn.encoded), config.displacementFixupLimit), None)
    && (config.filter ==> a.acceptable(insn.encoded))
  }

  lemma {:induction false} DecodedAreFresh(a: Arch, config: InstructionConfig, bytes: seq<bv8>, at: nat)
    requires Lawful(a)
    ensures forall insn | insn in DecodeFrom(a, config, bytes, at) :: FreshInstruction(a, config, insn)
    decreases |bytes| - at
  {
    if at < |bytes| {
      var r := a.fromBytes(bytes[at..], config);
      assert DecodesSoundly(a, bytes[at..], config);
      if r.accepted {
        assert bytes[at..][..r.size] == bytes[at..at + r.size];
        DecodedAreFresh(a, config, bytes, at + r.size);
      } else {
        DecodedAreFresh(a, config, bytes, at + SkippedBytes(a, r));
      }
    }
  }

  // ----- the positions that decoding comes to -----

  /** After position `p` comes the end of what decodes there, or of the smallest instruction if nothing does. */
  function NextPosition(a: Arch, config: InstructionConfig, bytes: seq<bv8>, p: nat): nat
    requires p < |bytes|
  {
    var size := a.fromBytes(bytes[p..], config).size;
    p + if size == 0 then a.minSize else size
  }

  predicate FollowsOn(a: Arch, config: InstructionConfig, bytes: seq<bv8>, positions: seq<nat>, j: nat)
    requires j + 1 < |positions|
  {
    positions[j] < |bytes| && positions[j + 1] == NextPosition(a, config, bytes, positions[j])
  }

  /** The positions from `at` on, one after the other, up to the first that is not inside the bytes. */
  ghost predicate Positions(a: Arch, config: InstructionConfig, bytes: seq<bv8>, at: nat, positions: seq<nat>) {
    && positions != [] && positions[0] == at
    && (forall j | 0 <= j < |positions| - 1 :: FollowsOn(a, config, bytes, positions, j))
    && positions[|positions| - 1] >= |bytes|
  }

  /** The positions at which an instruction is accepted, in order. */
  function Accepted(a: Arch, config: InstructionConfig, bytes: seq<bv8>, positions: seq<nat>): seq<nat> {
    if positions == [] then []
    else
      (if positions[0] < |bytes| && a.fromBytes(bytes[positions[0]..], config).accepted then [positions[0]] else [])
      + Accepted(a, config, bytes, positions[1..])
  }

  /** The instruction that is accepted at position `p`. */
  predicate DecodedAt(a: Arch, config: InstructionConfig, bytes: seq<bv8>, p: nat, insn: Instruction) {
    p < |bytes| &&
      var r := a.fromBytes(bytes[p..], config);
      && r.accepted
      && p + r.size <= |bytes|
      && insn == Instruction(bytes[p..p + r.size], DisplacementInfo(r.displacement, None), p)
  }

  /** `insns` are the instructions at `accepted`, in this order. */
  predicate DecodedInOrder(a: Arch, config: InstructionConfig, bytes: seq<bv8>, accepted: seq<nat>, insns: seq<Instruction>) {
    |insns| == |accepted| && forall k | 0 <= k < |insns| :: DecodedAt(a, config, bytes, accepted[k], insns[k])
  }

  /** `positions` are those from `at` on, and `insns` the instructions accepted there. */
  ghost predicate AcceptedBy(a: Arch, config: InstructionConfig, bytes: seq<bv8>, at: nat,
                             positions: seq<nat>, insns: seq<Instruction>)
  {
    && Positions(a, config, bytes, at, positions)
    && DecodedInOrder(a, config, bytes, Accepted(a, config, bytes, positions), insns)
  }

  lemma FirstPosition(a: Arch, config: InstructionConfig, bytes: seq<bv8>, at: nat, rest: seq<nat>)
    requires at < |bytes| && Positions(a, config, bytes, NextPosition(a, config, bytes, at), rest)
    ensures Positions(a, config, bytes, at, [at] + rest)
  {
    var positions := [at] + rest;
    forall j | 0 <= j < |positions| - 1
      ensures FollowsOn(a, config, bytes, positions, j)
    {
      if j > 0 {
        assert FollowsOn(a, config, bytes, rest, j - 1);
      }
    }
  }

  lemma FirstDecoded(a: Arch, config: InstructionConfig, bytes: seq<bv8>, accepted: seq<nat>, insns: seq<Instruction>,
                     p: nat, insn: Instruction)
    requires DecodedInOrder(a, config, bytes, accepted, insns) && DecodedAt(a, config, bytes, p, insn)
    ensures DecodedInOrder(a, config, bytes, [p] + accepted, [insn] + insns)
  {
    forall k | 0 <= k < |insns| + 1
      ensures DecodedAt(a, config, bytes, ([p] + accepted)[k], ([insn] + insns)[k])
    {
      if k > 0 {
        assert DecodedAt(a, config, bytes, accepted[k - 1], insns[k - 1]);
      }
    }
  }

  /**
    Decoding goes on after what it does not accept: it gives exactly the instructions accepted at
    the positions it comes to, in their order, each with its position as offset.
   */
  lemma {:induction false} DecodesAccepted(a: Arch, config: InstructionConfig, bytes: seq<bv8>, at: nat)
    returns (positions: seq<nat>)
    requires Lawful(a)
    ensures AcceptedBy(a, config, bytes, at, positions, DecodeFrom(a, config, bytes, at))
    decreases |bytes| - at
  {
    if at >= |bytes| {
      positions := [at];
    } else {
      var r := a.fromBytes(bytes[at..], config);
      assert DecodesSoundly(a, bytes[at..], config);
      var next := NextPosition(a, config, bytes, at);
      var rest := DecodesAccepted(a, config, bytes, next);
      FirstPosition(a, config, bytes, at, rest);
      positions := [at] + rest;
      assert positions[1..] == rest;
      if r.accepted {
        FirstDecoded(a, config, bytes, Accepted(a, config, bytes, rest), DecodeFrom(a, config, bytes, next),
          at, Instruction(bytes[at..at + r.size], DisplacementInfo(r.displacement, None), at));
      }
    }
  }

  lemma {:induction false} AcceptedContains(a: Arch, config: InstructionConfig, bytes: seq<bv8>, positions: seq<nat>, p: nat)
    ensures p in Accepted(a, config, bytes, positions) <==>
      p in positions && p < |bytes| && a.fromBytes(bytes[p..], config).accepted
  {
    if positions != [] {
      AcceptedContains(a, config, bytes, positions[1..], p);
      assert positions == [positions[0]] + positions[1..];
    }
  }

  /** There is only one list of positions. */
  lemma {:induction false} PositionsUnique(a: Arch, config: InstructionConfig, bytes: seq<bv8>, at: nat,
                                           s: seq<nat>, t: seq<nat>)
    requires Positions(a, config, bytes, at, s) && Positions(a, config, bytes, at, t)
    ensures s == t
    decreases |s|
  {
    if at < |bytes| {
      assert FollowsOn(a, config, bytes, s, 0) && FollowsOn(a, config, bytes, t, 0);
      LaterPositions(a, config, bytes, at, s);
      LaterPositions(a, config, bytes, at, t);
      PositionsUnique(a, config, bytes, s[1], s[1..], t[1..]);
      assert s == [at] + s[1..] && t == [at] + t[1..];
    } else {
      assert |s| > 1 ==> FollowsOn(a, config, bytes, s, 0);
      assert |t| > 1 ==> FollowsOn(a, config, bytes, t, 0);
    }
  }

  lemma LaterPositions(a: Arch, config: InstructionConfig, bytes: seq<bv8>, at: nat, s: seq<nat>)
    requires Positions(a, config, bytes, at, s) && at < |bytes|
    ensures |s| > 1 && Positions(a, config, bytes, s[1], s[1..])
  {
    var rest := s[1..];
    forall j | 0 <= j < |rest| - 1
      ensures FollowsOn(a, config, bytes, rest, j)
    {
      assert FollowsOn(a, config, bytes, s, j + 1);
    }
  }

  // ----- printing -----

  /** The bytes of the first `k` instructions, one after the other. */
  function EncodingUpTo(insns: seq<Instruction>, k: nat): (bytes: seq<bv8>)
    requires k <= |insns|
    ensures |bytes| == OffsetOf(insns, k)
    decreases k
  {
    if k == 0 then [] else EncodingUpTo(insns, k - 1) + insns[k - 1].encoded
  }

  function Encoding(insns: seq<Instruction>): seq<bv8> {
    EncodingUpTo(insns, |insns|)
  }

  lemma {:induction false} EncodingDependsOnBytes(s: seq<Instruction>, t: seq<Instruction>, k: nat)
    requires k <= |s| && k <= |t|
    requires forall j | 0 <= j < k :: s[j].encoded == t[j].encoded
    ensures EncodingUpTo(s, k) == EncodingUpTo(t, k)
    decreases k
  {
    if k > 0 {
      EncodingDependsOnBytes(s, t, k - 1);
    }
  }

  lemma {:induction false} EncodingOfCons(insn: Instruction, rest: seq<Instruction>, k: nat)
    requires k <= |rest|
    ensures EncodingUpTo([insn] + rest, k + 1) == insn.encoded + EncodingUpTo(rest, k)
    ensures OffsetOf([insn] + rest, k + 1) == |insn.encoded| + OffsetOf(rest, k)
    decreases k
  {
    var all := [insn] + rest;
    assert all[k] == if k == 0 then insn else rest[k - 1];
    if k == 0 {
      assert EncodingUpTo(all, 0) == [];
    } else {
      EncodingOfCons(insn, rest, k - 1);
      assert EncodingUpTo(all, k + 1) == EncodingUpTo(all, k) + rest[k - 1].encoded;
    }
  }

  /** The instructions are packed end to end from position `at`. */
  predicate PackedFrom(insns: seq<Instruction>, at: nat) {
    forall k | 0 <= k < |insns| :: PackedAt(insns, k, at)
  }

  predicate PackedAt(insns: seq<Instruction>, k: nat, at: nat)
    requires k < |insns|
  {
    insns[k].offset == at + OffsetOf(insns, k)
  }

  lemma PackedCons(head: Instruction, rest: seq<Instruction>, at: nat)
    requires head.offset == at && PackedFrom(rest, at + |head.encoded|)
    ensures PackedFrom([head] + rest, at)
  {
    var insns := [head] + rest;
    forall k | 0 <= k < |insns|
      ensures PackedAt(insns, k, at)
    {
      if k > 0 {
        EncodingOfCons(head, rest, k - 1);
        assert insns[k] == rest[k - 1] && PackedAt(rest, k - 1, at + |head.encoded|);
      }
    }
  }

  /** When everything decodes, nothing is lost and the offsets are those of a packed program. */
  lemma {:induction false} FullDecode(a: Arch, config: InstructionConfig, bytes: seq<bv8>, at: nat)
    requires Lawful(a) && AllDecode(a, config, bytes, at) && at <= |bytes|
    ensures Encoding(DecodeFrom(a, config, bytes, at)) == bytes[at..]
    ensures PackedFrom(DecodeFrom(a, config, bytes, at), at)
    decreases |bytes| - at
  {
    if at < |bytes| {
      var r := a.fromBytes(bytes[at..], config);
      assert DecodesSoundly(a, bytes[at..], config);
      var head := Instruction(bytes[at..at + r.size], DisplacementInfo(r.displacement, None), at);
      var rest := DecodeFrom(a, config, bytes, at + r.size);
      FullDecode(a, config, bytes, at + r.size);
      EncodingOfCons(head, rest, |rest|);
      PackedCons(head, rest, at);
      SplitBytes(bytes, at, at + r.size);
    }
  }

  lemma SplitBytes(bytes: seq<bv8>, i: nat, j: nat)
    requires i <= j <= |bytes|
    ensures bytes[i..j] + bytes[j..] == bytes[i..]
  {}

  // ----- resolving displacements -----

  function Distance(x: int, y: int): nat {
    if x >= y then x - y else y - x
  }

  /** `b` is the boundary nearest to `position`; of two equally near ones it is the lower. */
  predicate IsClosest(insns: seq<Instruction>, position: int, b: nat)
    requires 0 < |insns|
  {
    && b <= |insns|
    && (forall i | 0 <= i <= |insns| ::
          Distance(BoundaryOffset(insns, b), position) <= Distance(BoundaryOffset(insns, i), position))
    && (forall i | 0 <= i < b ::
          Distance(BoundaryOffset(insns, b), position) < Distance(BoundaryOffset(insns, i), position))
  }

  lemma ClosestIsUnique(insns: seq<Instruction>, position: int, b: nat, b': nat)
    requires 0 < |insns| && IsClosest(insns, position, b) && IsClosest(insns, position, b')
    ensures b == b'
  {
    assert Distance(BoundaryOffset(insns, b), position) <= Distance(BoundaryOffset(insns, b'), position);
    assert Distance(BoundaryOffset(insns, b'), position) <= Distance(BoundaryOffset(insns, b), position);
  }

  /** The nearest boundary among the first `i`, and `i` itself. */
  function ClosestUpTo(insns: seq<Instruction>, position: int, i: nat): (b: nat)
    requires 0 < |insns| && i <= |insns|
    ensures b <= i
    decreases i
  {
    if i == 0 then 0
    else
      var b := ClosestUpTo(insns, position, i - 1);
      if Distance(BoundaryOffset(insns, i), position) < Distance(BoundaryOffset(insns, b), position) then i else b
  }

  /** The boundary a displacement resolves to. */
  function ClosestBoundary(insns: seq<Instruction>, position: int): (b: nat)
    requires 0 < |insns|
    ensures b <= |insns|
  {
    ClosestUpTo(insns, position, |insns|)
  }

  lemma {:induction false} ClosestUpToIsClosest(insns: seq<Instruction>, position: int, i: nat)
    requires 0 < |insns| && i <= |insns|
    ensures var b := ClosestUpTo(insns, position, i);
      && (forall j | 0 <= j <= i ::
            Distance(BoundaryOffset(insns, b), position) <= Distance(BoundaryOffset(insns, j), position))
      && (forall j | 0 <= j < b ::
            Distance(BoundaryOffset(insns, b), position) < Distance(BoundaryOffset(insns, j), position))
    decreases i
  {
    if i > 0 {
      ClosestUpToIsClosest(insns, position, i - 1);
    }
  }

  /** Resolution picks the nearest boundary, and the lower one of two equally near ones. */
  lemma ClosestBoundaryIsClosest(insns: seq<Instruction>, position: int, b: nat)
    requires 0 < |insns|
    ensures IsClosest(insns, position, b) <==> b == ClosestBoundary(insns, position)
  {
    ClosestUpToIsClosest(insns, position, |insns|);
    if IsClosest(insns, position, b) {
      ClosestIsUnique(insns, position, b, ClosestBoundary(insns, position));
    }
  }

  /** Resolving one branch does not change what the nearest boundary of another is. */
  lemma {:induction false} SameClosest(s: seq<Instruction>, t: seq<Instruction>, position: int, i: nat)
    requires 0 < |s| == |t| && i <= |s|
    requires forall k | 0 <= k < |s| :: s[k].offset == t[k].offset && s[k].encoded == t[k].encoded
    ensures ClosestUpTo(s, position, i) == ClosestUpTo(t, position, i)
    decreases i
  {
    if i > 0 {
      SameClosest(s, t, position, i - 1);
    }
  }

  predicate Unresolved(insn: Instruction) {
    insn.branch.Valid() && insn.branch.boundary.None?
  }

  function ResolvedInstruction(insns: seq<Instruction>, insn: Instruction): Instruction
    requires 0 < |insns|
  {
    if Unresolved(insn) then
      insn.(branch := insn.branch.(boundary :=
        Some(ClosestBoundary(insns, insn.offset + insn.branch.byteDisplacement.value))))
    else insn
  }

  function Resolved(insns: seq<Instruction>): (r: seq<Instruction>)
    ensures |r| == |insns|
    ensures forall k {:trigger r[k]} | 0 <= k < |r| :: r[k] == ResolvedInstruction(insns, insns[k])
  {
    seq(|insns|, k requires 0 <= k < |insns| => ResolvedInstruction(insns, insns[k]))
  }

  /** The branches of the first `i` instructions have been resolved. */
  predicate ResolvedUpTo(before: seq<Instruction>, now: seq<Instruction>, i: nat) {
    && i <= |before| == |now|
    && (forall k | 0 <= k < i :: now[k] == ResolvedInstruction(before, before[k]))
    && (forall k | i <= k < |before| :: now[k] == before[k])
  }

  lemma ResolveOne(before: seq<Instruction>, now: seq<Instruction>, i: nat, next: seq<Instruction>)
    requires i < |now| && ResolvedUpTo(before, now, i)
    requires next == now[i := ResolvedInstruction(before, before[i])]
    ensures ResolvedUpTo(before, next, i + 1)
  {}

  /** Halfway, the nearest boundaries are what they were. */
  lemma SameClosestSoFar(before: seq<Instruction>, now: seq<Instruction>, i: nat, position: int)
    requires i < |now| && ResolvedUpTo(before, now, i)
    ensures ClosestBoundary(now, position) == ClosestBoundary(before, position)
    ensures forall b | 0 <= b <= |now| :: BoundaryOffset(now, b) == BoundaryOffset(before, b)
  {
    forall k | 0 <= k < |now|
      ensures now[k].offset == before[k].offset && now[k].encoded == before[k].encoded
    {
      assert k < i ==> now[k] == ResolvedInstruction(before, before[k]);
    }
    SameClosest(now, before, position, |before|);
  }

  /** The branch at `k` points exactly at some boundary. */
  predicate Lands(insns: seq<Instruction>, k: nat)
    requires k < |insns|
  {
    insns[k].branch.Valid() ==>
      exists b :: 0 <= b <= |insns| &&
        BoundaryOffset(insns, b) == insns[k].offset + insns[k].branch.byteDisplacement.value
  }

  predicate AllLand(insns: seq<Instruction>) {
    forall k | 0 <= k < |insns| :: Lands(insns, k)
  }

  /** The bytes that a strict construction accepts. */
  predicate StrictlyDecodable(a: Arch, config: InstructionConfig, bytes: seq<bv8>)
    requires Lawful(a)
  {
    AllDecode(a, config, bytes, 0) && AllLand(DecodeFrom(a, config, bytes, 0))
  }

  /** A boundary at distance zero is the nearest one. */
  lemma LandingIsExact(insns: seq<Instruction>, k: nat)
    requires k < |insns| && insns[k].branch.Valid() && Lands(insns, k)
    ensures var position := insns[k].offset + insns[k].branch.byteDisplacement.value;
      BoundaryOffset(insns, ClosestBoundary(insns, position)) == position
  {
    var position := insns[k].offset + insns[k].branch.byteDisplacement.value;
    var b :| 0 <= b <= |insns| && BoundaryOffset(insns, b) == position;
    ClosestBoundaryIsClosest(insns, position, ClosestBoundary(insns, position));
    assert Distance(BoundaryOffset(insns, ClosestBoundary(insns, position)), position)
        <= Distance(BoundaryOffset(insns, b), position);
  }

  /** Where nothing was skipped and every branch lands, the displacements are already exact. */
  lemma ResolvedIsExact(insns: seq<Instruction>)
    requires LaidOut(insns) && AllLand(insns)
    requires forall k | 0 <= k < |insns| :: insns[k].branch.boundary.None?
    ensures Exact(Resolved(insns))
  {
    var r := Resolved(insns);
    forall k | 0 <= k < |r| && r[k].branch.Valid()
      ensures ExactAt(r, k)
    {
      assert Lands(insns, k) && OffsetRecorded(insns, k);
      LandingIsExact(insns, k);
      var b := r[k].branch.boundary.value;
      BoundaryOffsetExact(insns, b);
      OffsetDependsOnSizes(r, insns, k);
      OffsetDependsOnSizes(r, insns, b);
    }
  }

  predicate AllAcceptable(a: Arch, insns: seq<Instruction>) {
    forall k | 0 <= k < |insns| :: a.acceptable(insns[k].encoded)
  }

  /** Whatever the input, the constructed program is well formed, and only holds what the filter accepts. */
  lemma DecodedProgram(a: Arch, config: InstructionConfig, bytes: seq<bv8>)
    requires Lawful(a)
    ensures var insns := Relaid(Resolved(DecodeFrom(a, config, bytes, 0)));
      && WellFormed(a, insns)
      && ByteSize(insns) == ByteSize(Resolved(DecodeFrom(a, config, bytes, 0)))
      && (config.filter ==> AllAcceptable(a, insns))
  {
    var decoded := DecodeFrom(a, config, bytes, 0);
    DecodedAreFresh(a, config, bytes, 0);
    RelaidIsLaidOut(Resolved(decoded));
    var insns := Relaid(Resolved(decoded));
    forall k | 0 <= k < |insns|
      ensures WellFormedInstruction(a, insns[k], |insns| + 1)
      ensures config.filter ==> a.acceptable(insns[k].encoded)
    {
      assert FreshInstruction(a, config, decoded[k]);
    }
  }

  /** A strict construction yields a program whose displacements are exact and whose bytes are the input. */
  lemma StrictDecodeIsExact(a: Arch, config: InstructionConfig, bytes: seq<bv8>)
    requires Lawful(a) && StrictlyDecodable(a, config, bytes)
    ensures Exact(Relaid(Resolved(DecodeFrom(a, config, bytes, 0))))
    ensures Encoding(Relaid(Resolved(DecodeFrom(a, config, bytes, 0)))) == bytes
  {
    var insns := DecodeFrom(a, config, bytes, 0);
    FullDecode(a, config, bytes, 0);
    DecodedAreFresh(a, config, bytes, 0);
    assert LaidOut(insns) by {
      forall k | 0 <= k < |insns|
        ensures OffsetRecorded(insns, k)
      {
        assert PackedAt(insns, k, 0);
      }
    }
    forall k | 0 <= k < |insns|
      ensures insns[k].branch.boundary.None?
    {
      assert FreshInstruction(a, config, insns[k]);
    }
    ResolvedIsExact(insns);
    ExactIgnoresOffsets(Resolved(insns));
    EncodingDependsOnBytes(Relaid(Resolved(insns)), insns, |insns|);
  }
}
