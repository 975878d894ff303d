/**
  The random number generator as an arbitrary stream of draws.  Every random index and
  every random buffer takes the next draw of the stream.
 */
module MutatorRngs {
  import opened Arithmetic

  class MutatorRng {
    const draws: nat -> nat
    var next: nat

    constructor (draws: nat -> nat)
      ensures this.draws == draws && next == 0
    {
      this.draws := draws;
      next := 0;
    }

    /** A random number below `size`. */
    method RandomIndex(size: nat) returns (r: nat)
      requires 0 < size
      modifies this
      ensures next == old(next) + 1
      ensures r < size && r == IndexDrawn(draws, old(next), size)
    {
      r := draws(next) % size;
      next := next + 1;
    }

    /** The next draw itself, from which a whole buffer is filled. */
    method Draw() returns (r: nat)
      modifies this
      ensures next == old(next) + 1
      ensures r == draws(old(next))
    {
      r := draws(next);
      next := next + 1;
    }
  }

  /** The index below `size` that draw `k` gives. */
  function IndexDrawn(draws: nat -> nat, k: nat, size: nat): (r: nat)
    requires 0 < size
    ensures r < size
  {
    draws(k) % size
  }

  predicate Hits(draws: nat -> nat, k: nat, size: nat, r: nat)
    requires 0 < size
  {
    IndexDrawn(draws, k, size) == r
  }

  ghost predicate Reaches(draws: nat -> nat, from: nat, size: nat, r: nat)
    requires 0 < size
  {
    exists k: nat :: from <= k && Hits(draws, k, size, r)
  }

  /** From every point on, every index of every range comes up again. */
  ghost predicate Fair(draws: nat -> nat) {
    forall from: nat, size: nat, r: nat | r < size :: Reaches(draws, from, size, r)
  }

  // ----- there are fair streams -----

  /** Sweeps over 0, then 0 and 1, then 0 to 2 and so on: the current sweep and the number reached. */
  function Sweep(k: nat): (nat, nat) {
    if k == 0 then (0, 0)
    else
      var (top, at) := Sweep(k - 1);
      if at < top then (top, at + 1) else (top + 1, 0)
  }

  function SweepingDraws(): nat -> nat {
    k => Sweep(k).1
  }

  /** From a position in a sweep every later number of it is reached. */
  lemma {:induction false} SweepOn(k: nat, n: nat)
    requires Sweep(k).1 + n <= Sweep(k).0
    ensures Sweep(k + n) == (Sweep(k).0, Sweep(k).1 + n)
    decreases n
  {
    if n > 0 {
      SweepOn(k, n - 1);
    }
  }

  lemma {:induction false} SweepInRange(k: nat)
    ensures Sweep(k).1 <= Sweep(k).0
  {
    if k > 0 {
      SweepInRange(k - 1);
    }
  }

  /** From every position on, a sweep that goes at least as far as `r` starts. */
  lemma {:induction false} LongSweepStarts(from: nat, r: nat) returns (k: nat)
    ensures from <= k && Sweep(k).1 == 0 && Sweep(k).0 >= r
    decreases r - Sweep(from).0, Sweep(from).0 - Sweep(from).1
  {
    SweepInRange(from);
    var (top, at) := Sweep(from);
    SweepOn(from, top - at);
    k := from + (top - at) + 1;
    if top + 1 < r {
      k := LongSweepStarts(k, r);
    }
  }

  /** The sweeping stream is fair, so asking for fairness is asking for something that exists. */
  lemma SweepingIsFair()
    ensures Fair(SweepingDraws())
  {
    forall from: nat, size: nat, r: nat | r < size
      ensures Reaches(SweepingDraws(), from, size, r)
    {
      SweepReaches(from, size, r);
    }
  }

  lemma DrawsSweep(k: nat)
    ensures SweepingDraws()(k) == Sweep(k).1
  {}

  lemma SweepReaches(from: nat, size: nat, r: nat)
    requires r < size
    ensures Reaches(SweepingDraws(), from, size, r)
  {
    var k := LongSweepStarts(from, r);
    SweepOn(k, r);
    DrawsSweep(k + r);
    HitsItself(SweepingDraws(), k + r, size, r);
  }

  lemma HitsItself(draws: nat -> nat, k: nat, size: nat, r: nat)
    requires r < size && draws(k) == r
    ensures Hits(draws, k, size, r)
  {
    SmallRemainder(r, size);
  }
}
