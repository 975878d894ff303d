/**
  Maps from addresses to values as the memory code sees them: pointwise maps, iterated as
  the list of their maximal ranges of equal values.
 */
module RangeMaps {

  datatype Range<V> = Range(start: nat, limit: nat, value: V) {
    predicate Has(a: nat) { start <= a < limit }
  }

  predicate Between(start: nat, limit: nat, a: nat) { start <= a < limit }

  function Addresses(start: nat, limit: nat): (s: set<nat>)
    ensures forall a :: a in s <==> start <= a < limit
  {
    set a: nat | start <= a < limit && Between(start, limit, a)
  }

  /** The ranges are not empty, and lie one after the other. */
  ghost predicate Ordered<V>(rs: seq<Range<V>>) {
    && (forall i | 0 <= i < |rs| :: rs[i].start < rs[i].limit)
    && (forall i, j | 0 <= i < j < |rs| :: rs[i].limit <= rs[j].start)
  }

  ghost predicate Covers<V>(rs: seq<Range<V>>, a: nat) {
    exists i | 0 <= i < |rs| :: rs[i].Has(a)
  }

  /** Touching ranges hold different values. */
  ghost predicate Separated<V>(rs: seq<Range<V>>) {
    forall i | 0 < i < |rs| :: rs[i - 1].limit == rs[i].start ==> rs[i - 1].value != rs[i].value
  }

  ghost predicate HoldsValues<V>(m: map<nat, V>, rs: seq<Range<V>>) {
    forall i, a | 0 <= i < |rs| && rs[i].Has(a) :: a in m && m[a] == rs[i].value
  }

  /** What iterating over the addresses of `m` from `from` up to `bound` yields. */
  ghost predicate IteratesOver<V>(m: map<nat, V>, from: nat, bound: nat, rs: seq<Range<V>>) {
    && Ordered(rs)
    && Separated(rs)
    && HoldsValues(m, rs)
    && (forall a | a in m && from <= a < bound :: Covers(rs, a))
    && (forall i | 0 <= i < |rs| :: from <= rs[i].start && rs[i].limit <= bound)
  }

  /** What iterating over a whole map yields. */
  ghost predicate IsIteration<V>(m: map<nat, V>, rs: seq<Range<V>>) {
    && Ordered(rs)
    && Separated(rs)
    && HoldsValues(m, rs)
    && (forall a | a in m :: Covers(rs, a))
  }

  // ----- computing the ranges -----

  lemma {:induction false} HasMaximum(s: set<nat>)
    requires s != {}
    ensures exists a | a in s :: forall b | b in s :: b <= a
    decreases |s|
  {
    var x :| x in s;
    var rest := s - {x};
    if rest == {} {
      assert s == {x};
    } else {
      HasMaximum(rest);
      var y :| y in rest && forall b | b in rest :: b <= y;
      var top := if x < y then y else x;
      forall b | b in s
        ensures b <= top
      {
        assert b == x || b in rest;
      }
    }
  }

  /** A bound above all addresses. */
  function Bound(s: set<nat>): (bound: nat)
    ensures forall a | a in s :: a < bound
  {
    if s == {} then 0
    else
      HasMaximum(s);
      var a :| a in s && forall b | b in s :: b <= a;
      a + 1
  }

  /** One more address with a value: it extends the last range or starts a new one. */
  function Append<V(==)>(rs: seq<Range<V>>, a: nat, v: V): seq<Range<V>> {
    if rs != [] && rs[|rs| - 1].limit == a && rs[|rs| - 1].value == v then
      rs[|rs| - 1 := rs[|rs| - 1].(limit := a + 1)]
    else rs + [Range(a, a + 1, v)]
  }

  function RunsBelow<V(==)>(m: map<nat, V>, bound: nat): seq<Range<V>> {
    if bound == 0 then []
    else if bound - 1 in m then Append(RunsBelow(m, bound - 1), bound - 1, m[bound - 1])
    else RunsBelow(m, bound - 1)
  }

  /** The maximal ranges of equal values, in order. */
  function Runs<V(==)>(m: map<nat, V>): seq<Range<V>> {
    RunsBelow(m, Bound(m.Keys))
  }

  lemma CoversMore<V>(rs: seq<Range<V>>, next: seq<Range<V>>, a: nat)
    requires |rs| <= |next| && Covers(rs, a)
    requires forall i | 0 <= i < |rs| :: next[i].start == rs[i].start && next[i].limit >= rs[i].limit
    ensures Covers(next, a)
  {}

  lemma ExtendOrdered<V>(rs: seq<Range<V>>, limit: nat)
    requires Ordered(rs) && Separated(rs) && rs != [] && rs[|rs| - 1].limit < limit
    ensures var next := rs[|rs| - 1 := rs[|rs| - 1].(limit := limit)]; Ordered(next) && Separated(next)
  {}

  /** The addresses from `start` up to `limit` all have value `v`. */
  predicate Holds<V(==)>(m: map<nat, V>, start: nat, limit: nat, v: V) {
    forall a | start <= a < limit :: a in m && m[a] == v
  }

  lemma ExtendHolds<V>(m: map<nat, V>, rs: seq<Range<V>>, limit: nat)
    requires HoldsValues(m, rs) && rs != [] && Holds(m, rs[|rs| - 1].limit, limit, rs[|rs| - 1].value)
    ensures HoldsValues(m, rs[|rs| - 1 := rs[|rs| - 1].(limit := limit)])
  {}

  /** The last range grows over a stretch of its value. */
  lemma ExtendLast<V>(m: map<nat, V>, bound: nat, limit: nat, rs: seq<Range<V>>, next: seq<Range<V>>)
    requires IteratesOver(m, 0, bound, rs) && bound < limit
    requires rs != [] && rs[|rs| - 1].limit == bound && Holds(m, bound, limit, rs[|rs| - 1].value)
    requires next == rs[|rs| - 1 := rs[|rs| - 1].(limit := limit)]
    ensures IteratesOver(m, 0, limit, next)
  {
    var last := |rs| - 1;
    ExtendOrdered(rs, limit);
    ExtendHolds(m, rs, limit);
    forall a | a in m && 0 <= a < limit
      ensures Covers(next, a)
    {
      if a < bound {
        CoversMore(rs, next, a);
      } else {
        assert next[last].Has(a);
      }
    }
  }

  lemma AddedHolds<V>(m: map<nat, V>, rs: seq<Range<V>>, r: Range<V>)
    requires HoldsValues(m, rs) && Holds(m, r.start, r.limit, r.value)
    ensures HoldsValues(m, rs + [r])
  {}

  /** A new range starts with a stretch of another value, or after a gap. */
  lemma StartNew<V>(m: map<nat, V>, bound: nat, limit: nat, rs: seq<Range<V>>, v: V, next: seq<Range<V>>)
    requires IteratesOver(m, 0, bound, rs) && bound < limit && Holds(m, bound, limit, v)
    requires rs != [] && rs[|rs| - 1].limit == bound ==> rs[|rs| - 1].value != v
    requires next == rs + [Range(bound, limit, v)]
    ensures IteratesOver(m, 0, limit, next)
  {
    AddedHolds(m, rs, next[|rs|]);
    forall a | a in m && 0 <= a < limit
      ensures Covers(next, a)
    {
      if a < bound {
        CoversMore(rs, next, a);
      } else {
        assert next[|rs|].Has(a);
      }
    }
  }

  /** Nothing lies between `bound` and `limit`. */
  lemma SkipGap<V>(m: map<nat, V>, bound: nat, limit: nat, rs: seq<Range<V>>)
    requires IteratesOver(m, 0, bound, rs) && bound <= limit
    requires forall a | bound <= a < limit :: a !in m
    ensures IteratesOver(m, 0, limit, rs)
  {}

  lemma HoldsOne<V>(m: map<nat, V>, a: nat)
    requires a in m
    ensures Holds(m, a, a + 1, m[a])
  {}

  lemma AppendToLast<V>(m: map<nat, V>, bound: nat, rs: seq<Range<V>>)
    requires IteratesOver(m, 0, bound, rs) && bound in m
    requires rs != [] && rs[|rs| - 1].limit == bound && rs[|rs| - 1].value == m[bound]
    ensures IteratesOver(m, 0, bound + 1, Append(rs, bound, m[bound]))
  {
    HoldsOne(m, bound);
    ExtendLast(m, bound, bound + 1, rs, Append(rs, bound, m[bound]));
  }

  lemma AppendNew<V>(m: map<nat, V>, bound: nat, rs: seq<Range<V>>)
    requires IteratesOver(m, 0, bound, rs) && bound in m
    requires rs != [] && rs[|rs| - 1].limit == bound ==> rs[|rs| - 1].value != m[bound]
    ensures IteratesOver(m, 0, bound + 1, Append(rs, bound, m[bound]))
  {
    HoldsOne(m, bound);
    StartNew(m, bound, bound + 1, rs, m[bound], Append(rs, bound, m[bound]));
  }

  lemma AppendIterates<V>(m: map<nat, V>, bound: nat, rs: seq<Range<V>>)
    requires IteratesOver(m, 0, bound, rs) && bound in m
    ensures IteratesOver(m, 0, bound + 1, Append(rs, bound, m[bound]))
  {
    if rs != [] && rs[|rs| - 1].limit == bound && rs[|rs| - 1].value == m[bound] {
      AppendToLast(m, bound, rs);
    } else {
      AppendNew(m, bound, rs);
    }
  }

  lemma {:induction false} RunsIterate<V>(m: map<nat, V>, bound: nat)
    ensures IteratesOver(m, 0, bound, RunsBelow(m, bound))
  {
    if bound > 0 {
      RunsIterate(m, bound - 1);
      if bound - 1 in m {
        AppendIterates(m, bound - 1, RunsBelow(m, bound - 1));
      }
    }
  }

  lemma RunsAreIteration<V>(m: map<nat, V>)
    ensures IsIteration(m, Runs(m))
  {
    RunsIterate(m, Bound(m.Keys));
  }

  // ----- the ranges are determined by the map -----

  lemma FirstStart<V>(m: map<nat, V>, from: nat, bound: nat, p: seq<Range<V>>, q: seq<Range<V>>)
    requires IteratesOver(m, from, bound, p) && IteratesOver(m, from, bound, q)
    requires p != []
    ensures q != [] && q[0].start <= p[0].start
  {
    assert p[0].Has(p[0].start);
    assert Covers(q, p[0].start);
  }

  /** The address after the first range, if it has a value, has another one. */
  lemma FirstIsMaximal<V>(m: map<nat, V>, from: nat, bound: nat, p: seq<Range<V>>)
    requires IteratesOver(m, from, bound, p) && p != []
    requires p[0].limit in m && p[0].limit < bound
    ensures m[p[0].limit] != p[0].value
  {
    var a := p[0].limit;
    assert Covers(p, a);
    var i :| 0 <= i < |p| && p[i].Has(a);
    assert i > 0 && p[1].start <= p[i].start && p[0].limit <= p[1].start;
    assert p[1].Has(a);
  }

  /** The first range of one iteration reaches at least as far as the first of any other. */
  lemma FirstReach<V>(m: map<nat, V>, from: nat, bound: nat, p: seq<Range<V>>, q: seq<Range<V>>)
    requires IteratesOver(m, from, bound, p) && IteratesOver(m, from, bound, q)
    requires p != [] && q != [] && p[0].start == q[0].start
    ensures p[0].limit >= q[0].limit
  {
    assert p[0].Has(p[0].start) && q[0].Has(p[0].start);
    assert m[p[0].start] == p[0].value && m[p[0].start] == q[0].value;
    assert p[0].limit < q[0].limit ==> q[0].Has(p[0].limit);
    if p[0].limit in m && p[0].limit < bound {
      FirstIsMaximal(m, from, bound, p);
    }
  }

  lemma TailShape<V>(m: map<nat, V>, p: seq<Range<V>>)
    requires Ordered(p) && Separated(p) && HoldsValues(m, p) && p != []
    ensures Ordered(p[1..]) && Separated(p[1..]) && HoldsValues(m, p[1..])
    ensures forall i | 0 <= i < |p[1..]| :: p[0].limit <= p[1..][i].start
  {}

  lemma DropFirst<V>(m: map<nat, V>, from: nat, bound: nat, p: seq<Range<V>>)
    requires IteratesOver(m, from, bound, p) && p != []
    ensures IteratesOver(m, p[0].limit, bound, p[1..])
  {
    var rest := p[1..];
    TailShape(m, p);
    forall a | a in m && p[0].limit <= a < bound
      ensures Covers(rest, a)
    {
      assert Covers(p, a);
      var i :| 0 <= i < |p| && p[i].Has(a);
      assert rest[i - 1].Has(a);
    }
  }

  lemma SameFirst<V>(m: map<nat, V>, from: nat, bound: nat, p: seq<Range<V>>, q: seq<Range<V>>)
    requires IteratesOver(m, from, bound, p) && IteratesOver(m, from, bound, q) && p != []
    ensures q != [] && p[0] == q[0]
  {
    FirstStart(m, from, bound, p, q);
    FirstStart(m, from, bound, q, p);
    FirstReach(m, from, bound, p, q);
    FirstReach(m, from, bound, q, p);
    assert p[0].Has(p[0].start) && q[0].Has(p[0].start);
    assert m[p[0].start] == p[0].value && m[p[0].start] == q[0].value;
  }

  lemma {:induction false} SameIteration<V>(m: map<nat, V>, from: nat, bound: nat, p: seq<Range<V>>, q: seq<Range<V>>)
    requires IteratesOver(m, from, bound, p) && IteratesOver(m, from, bound, q)
    ensures p == q
    decreases |p|
  {
    if p != [] {
      SameFirst(m, from, bound, p, q);
      DropFirst(m, from, bound, p);
      DropFirst(m, from, bound, q);
      SameIteration(m, p[0].limit, bound, p[1..], q[1..]);
      assert p == [p[0]] + p[1..] && q == [q[0]] + q[1..];
    } else if q != [] {
      SameFirst(m, from, bound, q, p);
    }
  }

  lemma WithinBound<V>(m: map<nat, V>, rs: seq<Range<V>>)
    requires IsIteration(m, rs)
    ensures IteratesOver(m, 0, Bound(m.Keys), rs)
  {
    forall i | 0 <= i < |rs|
      ensures rs[i].limit <= Bound(m.Keys)
    {
      var a := rs[i].limit - 1;
      assert rs[i].Has(a);
      assert a in m.Keys;
    }
  }

  /** There is only one way to list a map as sorted, disjoint and maximal ranges. */
  lemma IterationIsUnique<V>(m: map<nat, V>, rs: seq<Range<V>>)
    ensures IsIteration(m, rs) <==> rs == Runs(m)
  {
    RunsAreIteration(m);
    if IsIteration(m, rs) {
      WithinBound(m, rs);
      WithinBound(m, Runs(m));
      SameIteration(m, 0, Bound(m.Keys), rs, Runs(m));
    }
  }

  // ----- looking ranges up -----

  /** The first range that ends after `k`. */
  function LowerBoundFrom<V>(rs: seq<Range<V>>, k: nat, i: nat): (r: nat)
    requires i <= |rs|
    ensures i <= r <= |rs|
    ensures forall j | i <= j < r :: rs[j].limit <= k
    ensures r < |rs| ==> rs[r].limit > k
    decreases |rs| - i
  {
    if i == |rs| || rs[i].limit > k then i else LowerBoundFrom(rs, k, i + 1)
  }

  /** The first range that does not start before `k`. */
  function UpperBoundFrom<V>(rs: seq<Range<V>>, k: nat, i: nat): (r: nat)
    requires i <= |rs|
    ensures i <= r <= |rs|
    ensures forall j | i <= j < r :: rs[j].start < k
    ensures r < |rs| ==> rs[r].start >= k
    decreases |rs| - i
  {
    if i == |rs| || rs[i].start >= k then i else UpperBoundFrom(rs, k, i + 1)
  }

  /** The positions of the ranges that overlap `[start, limit)`; the end position if it is empty. */
  function Find<V>(rs: seq<Range<V>>, start: nat, limit: nat): (nat, nat)
    requires start <= limit
  {
    if start == limit then (|rs|, |rs|) else (LowerBoundFrom(rs, start, 0), UpperBoundFrom(rs, limit, 0))
  }

  /** `Find` gives exactly the ranges that overlap. */
  lemma FindOverlaps<V>(rs: seq<Range<V>>, start: nat, limit: nat, i: nat)
    requires Ordered(rs) && start < limit && i < |rs|
    ensures Find(rs, start, limit).0 <= i < Find(rs, start, limit).1 <==> rs[i].start < limit && start < rs[i].limit
  {}

  /** Between the ranges there is nothing. */
  lemma NothingBetween<V>(m: map<nat, V>, ranges: seq<Range<V>>, i: nat, from: nat, a: nat)
    requires IsIteration(m, ranges) && i <= |ranges|
    requires forall j | 0 <= j < i :: ranges[j].limit <= from
    requires from <= a && (i < |ranges| ==> a < ranges[i].start)
    ensures a !in m
  {}

  lemma NothingIn<V>(m: map<nat, V>, ranges: seq<Range<V>>, i: nat, from: nat, to: nat)
    requires IsIteration(m, ranges) && i <= |ranges|
    requires forall j | 0 <= j < i :: ranges[j].limit <= from
    requires i < |ranges| ==> to <= ranges[i].start
    ensures forall a | from <= a < to :: a !in m
  {}

  /** The ranges after those that overlap start beyond them. */
  lemma AfterFound<V>(ranges: seq<Range<V>>, start: nat, limit: nat)
    requires Ordered(ranges) && start < limit
    ensures var found := Find(ranges, start, limit);
      var end := if found.0 < found.1 then found.1 else found.0;
      end < |ranges| ==> limit <= ranges[end].start
  {}

  // ----- the range around an address -----

  /** The maximal range of equal values that an address lies in. */
  ghost function RunAt<V>(m: map<nat, V>, a: nat): (r: Range<V>)
    requires a in m
    ensures r in Runs(m) && r.Has(a)
  {
    RunsAreIteration(m);
    assert Covers(Runs(m), a);
    var i :| 0 <= i < |Runs(m)| && Runs(m)[i].Has(a);
    Runs(m)[i]
  }

  lemma SameIndex<V>(rs: seq<Range<V>>, i: nat, j: nat, a: nat)
    requires Ordered(rs) && i < |rs| && j < |rs| && rs[i].Has(a) && rs[j].Has(a)
    ensures i == j
  {}

  /** Distinct ranges do not share addresses. */
  lemma RunAtIndex<V>(m: map<nat, V>, i: nat, a: nat)
    requires i < |Runs(m)| && Runs(m)[i].Has(a)
    ensures a in m && m[a] == Runs(m)[i].value && RunAt(m, a) == Runs(m)[i]
  {
    RunsAreIteration(m);
    var r := RunAt(m, a);
    var j :| 0 <= j < |Runs(m)| && Runs(m)[j] == r;
    SameIndex(Runs(m), i, j, a);
  }

  /** The addresses of the first `i` ranges. */
  function CoveredUpTo<V>(rs: seq<Range<V>>, i: nat): set<nat>
    requires i <= |rs|
  {
    if i == 0 then {} else CoveredUpTo(rs, i - 1) + Addresses(rs[i - 1].start, rs[i - 1].limit)
  }

  lemma {:induction false} CoveredHas<V>(rs: seq<Range<V>>, i: nat, a: nat)
    requires i <= |rs|
    ensures a in CoveredUpTo(rs, i) <==> exists j | 0 <= j < i :: rs[j].Has(a)
  {
    if i > 0 {
      CoveredHas(rs, i - 1, a);
    }
  }

  /** The ranges cover exactly the addresses of the map. */
  lemma RunsCover<V>(m: map<nat, V>)
    ensures CoveredUpTo(Runs(m), |Runs(m)|) == m.Keys
  {
    RunsAreIteration(m);
    forall a
      ensures a in CoveredUpTo(Runs(m), |Runs(m)|) <==> a in m
    {
      CoveredHas(Runs(m), |Runs(m)|, a);
      if a in m {
        assert Covers(Runs(m), a);
      }
    }
  }

  /** What a loop over the ranges of a map needs at range `i`. */
  lemma NextRun<V>(m: map<nat, V>, i: nat)
    requires i < |Runs(m)|
    ensures var r := Runs(m)[i];
      && r.start < r.limit
      && CoveredUpTo(Runs(m), i + 1) == CoveredUpTo(Runs(m), i) + Addresses(r.start, r.limit)
      && CoveredUpTo(Runs(m), i) !! Addresses(r.start, r.limit)
      && Addresses(r.start, r.limit) <= m.Keys
      && forall a {:trigger m[a]} | a in Addresses(r.start, r.limit) :: m[a] == r.value
  {
    var runs := Runs(m);
    RunsAreIteration(m);
    forall a | a in CoveredUpTo(runs, i)
      ensures a !in Addresses(runs[i].start, runs[i].limit)
    {
      CoveredHas(runs, i, a);
      var j :| 0 <= j < i && runs[j].Has(a);
      assert runs[j].limit <= runs[i].start;
    }
    forall a | a in Addresses(runs[i].start, runs[i].limit)
      ensures a in m.Keys && m[a] == runs[i].value
    {
      assert runs[i].Has(a);
    }
  }

  /** The range that holds the address where range `i` ends is the next one. */
  lemma NextIsNext<V>(rs: seq<Range<V>>, i: nat, j: nat)
    requires Ordered(rs) && i < |rs| && j < |rs| && rs[j].Has(rs[i].limit)
    ensures j == i + 1 && rs[j].start == rs[i].limit
  {
    assert i + 1 < |rs| ==> rs[i].limit <= rs[i + 1].start;
  }

  /** And the one that holds the address before it is the one before. */
  lemma PreviousIsPrevious<V>(rs: seq<Range<V>>, i: nat, j: nat)
    requires Ordered(rs) && i < |rs| && j < |rs| && rs[i].start > 0 && rs[j].Has(rs[i].start - 1)
    ensures i == j + 1 && rs[j].limit == rs[i].start
  {
    assert j + 1 < |rs| ==> rs[j].limit <= rs[j + 1].start;
  }

  /** Next to a maximal range its value does not occur. */
  lemma RunEdges<V>(m: map<nat, V>, i: nat)
    requires i < |Runs(m)|
    ensures var r := Runs(m)[i];
      && r.start < r.limit
      && (r.limit in m ==> m[r.limit] != r.value)
      && (r.start > 0 && r.start - 1 in m ==> m[r.start - 1] != r.value)
  {
    var rs := Runs(m);
    RunsAreIteration(m);
    if rs[i].limit in m {
      assert Covers(rs, rs[i].limit);
      var j :| 0 <= j < |rs| && rs[j].Has(rs[i].limit);
      NextIsNext(rs, i, j);
    }
    if rs[i].start > 0 && rs[i].start - 1 in m {
      assert Covers(rs, rs[i].start - 1);
      var j :| 0 <= j < |rs| && rs[j].Has(rs[i].start - 1);
      PreviousIsPrevious(rs, i, j);
    }
  }
}
