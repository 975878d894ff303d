/**
  Random byte buffers: one draw of the generator fills a whole buffer, and a fair generator
  eventually fills it with any given bytes.
 */
module RandomBuffers {
  import opened Arithmetic
  import opened Instructions
  import opened MutatorRngs

  /** The `size` lowest bytes of a draw. */
  function FillBuffer(draw: nat, size: nat): (buffer: seq<bv8>)
    ensures |buffer| == size
    decreases size
  {
    if size == 0 then [] else [(draw % 256) as bv8] + FillBuffer(draw / 256, size - 1)
  }

  /** A draw that is a multiple of 256 fills a zero first. */
  lemma FillZero(draw: nat, rest: nat, size: nat)
    requires draw == 256 * rest
    ensures FillBuffer(draw, size + 1) == [0] + FillBuffer(rest, size)
  {
    var low := draw % 256;
    assert low == 0 && draw / 256 == rest;
    assert low as bv8 == 0;
  }

  /** How many buffers of a size there are. */
  function Buffers(size: nat): (n: nat)
    ensures n > 0
  {
    if size == 0 then 1 else 256 * Buffers(size - 1)
  }

  /** The remainder by a multiple of 256 keeps the lowest byte and reduces the rest. */
  lemma RemainderBytes(x: nat, m: nat)
    requires 0 < m
    ensures (x % (256 * m)) % 256 == x % 256
    ensures (x % (256 * m)) / 256 == (x / 256) % m
  {
    var r := x % (256 * m);
    var q := x / (256 * m);
    var y := q * m;
    assert x == q * (256 * m) + r;
    assert x == 256 * y + r;
    assert x / 256 == y + r / 256;
    RemainderIsUnique(q, m, r / 256);
  }

  lemma {:induction false} FillBufferPeriodic(x: nat, size: nat)
    ensures FillBuffer(x, size) == FillBuffer(x % Buffers(size), size)
    decreases size
  {
    if size > 0 {
      var m := Buffers(size - 1);
      RemainderBytes(x, m);
      FillBufferPeriodic(x / 256, size - 1);
      FillBufferPeriodic((x % Buffers(size)) / 256, size - 1);
      SmallRemainder((x / 256) % m, m);
    }
  }

  /** A draw whose buffer starts with an instruction that is accepted by default. */
  predicate Generates(a: Arch, draw: nat) {
    a.fromBytes(FillBuffer(draw, a.bufferSize), DEFAULT_CONFIG).accepted
  }

  /** There is an instruction that can be generated at all. */
  ghost predicate CanGenerate(a: Arch) {
    exists draw: nat :: Generates(a, draw)
  }

  ghost predicate GeneratesFrom(a: Arch, draws: nat -> nat, from: nat) {
    exists k: nat :: from <= k && Generates(a, draws(k))
  }

  /** None of these draws generates anything. */
  predicate NoneGenerates(a: Arch, draws: nat -> nat, from: nat, to: nat) {
    forall k: nat | from <= k < to :: !Generates(a, draws(k))
  }

  /** A fair generator comes up with an acceptable instruction from every point on. */
  lemma EventuallyGenerates(a: Arch, draws: nat -> nat, from: nat)
    requires Fair(draws) && CanGenerate(a)
    ensures GeneratesFrom(a, draws, from)
  {
    var draw: nat :| Generates(a, draw);
    var m := Buffers(a.bufferSize);
    var r := draw % m;
    assert Reaches(draws, from, m, r);
    var k: nat :| from <= k && Hits(draws, k, m, r);
    FillBufferPeriodic(draw, a.bufferSize);
    FillBufferPeriodic(draws(k), a.bufferSize);
    assert Generates(a, draws(k));
  }
}
