/**
  Lists of chunks in normal form: sorted, each with the same permissions throughout, and no
  two that touch with equal permissions.  A list is determined by its content.
 */
module NormalForms {
  import opened MemoryPerms
  import opened RangeMaps
  import opened MappedMemoryMaps
  import opened MemoryTypes
  import opened SnapshotMemories

  /** The bytes that a list holds. */
  function Content(list: seq<MemoryBytes>): ByteMap {
    WrittenAll(map[], list)
  }

  ghost predicate AllValid(list: seq<MemoryBytes>) {
    forall i | 0 <= i < |list| :: list[i].Valid()
  }

  /** What normalising demands of its input: disjoint chunks of mapped memory. */
  ghost predicate Normalizable(m: PermsMap, list: seq<MemoryBytes>) {
    AllValid(list) && DisjointChunks(list) && BytesWithin(list, m)
  }

  // ----- content -----

  lemma ContentOf(list: seq<MemoryBytes>, b: MemoryBytes, a: nat)
    requires DisjointChunks(list) && b in list && b.Has(a)
    ensures a in Content(list) && Content(list)[a] == b.ByteAt(a)
  {
    var i :| 0 <= i < |list| && list[i] == b;
    WrittenAt(map[], list, i, a);
  }

  lemma ContentFrom(list: seq<MemoryBytes>, a: nat) returns (b: MemoryBytes)
    requires DisjointChunks(list) && a in Content(list)
    ensures b in list && b.Has(a) && Content(list)[a] == b.ByteAt(a)
  {
    WrittenDomain(map[], list, a);
    var i :| 0 <= i < |list| && list[i].Has(a);
    b := list[i];
    ContentOf(list, b, a);
  }

  /** The content does not depend on the order of disjoint chunks. */
  lemma SameContent(p: seq<MemoryBytes>, q: seq<MemoryBytes>)
    requires DisjointChunks(p) && DisjointChunks(q) && forall b :: b in p <==> b in q
    ensures Content(p) == Content(q)
  {
    forall a
      ensures a in Content(p) <==> a in Content(q)
      ensures a in Content(p) ==> Content(p)[a] == Content(q)[a]
    {
      if a in Content(p) {
        var b := ContentFrom(p, a);
        ContentOf(q, b, a);
      }
      if a in Content(q) {
        var b := ContentFrom(q, a);
        ContentOf(p, b, a);
      }
    }
  }

  // ----- sorting -----

  /** The chunks lie one after the other. */
  ghost predicate InOrder(list: seq<MemoryBytes>) {
    forall i, j | 0 <= i < j < |list| :: list[i].Limit() <= list[j].start
  }

  function InsertSorted(b: MemoryBytes, list: seq<MemoryBytes>): seq<MemoryBytes> {
    if list == [] || b.start < list[0].start || (b.start == list[0].start && b.Limit() <= list[0].Limit()) then [b] + list
    else [list[0]] + InsertSorted(b, list[1..])
  }

  function Sorted(list: seq<MemoryBytes>): seq<MemoryBytes> {
    if list == [] then [] else InsertSorted(list[0], Sorted(list[1..]))
  }

  predicate ApartBytes(b: MemoryBytes, c: MemoryBytes) {
    b.Limit() <= c.start || c.Limit() <= b.start
  }

  /** A chunk that starts first lies before all others. */
  lemma PutFirst(b: MemoryBytes, list: seq<MemoryBytes>)
    requires b.Valid() && AllValid(list) && InOrder(list) && list != []
    requires b.start <= list[0].start && ApartBytes(b, list[0])
    ensures InOrder([b] + list) && AllValid([b] + list)
  {
    assert list[0].Valid();
    forall i | 0 <= i < |list|
      ensures b.Limit() <= list[i].start
    {
      assert i > 0 ==> list[0].Limit() <= list[i].start;
    }
  }

  lemma KeepFirst(head: MemoryBytes, rest: seq<MemoryBytes>)
    requires head.Valid() && AllValid(rest) && InOrder(rest)
    requires forall c | c in rest :: head.Limit() <= c.start
    ensures InOrder([head] + rest) && AllValid([head] + rest)
  {
    forall i | 0 <= i < |rest|
      ensures head.Limit() <= rest[i].start
    {
      assert rest[i] in rest;
    }
  }

  lemma HeadBeforeTail(list: seq<MemoryBytes>)
    requires list != [] && AllValid(list) && InOrder(list)
    ensures list[0].Valid() && AllValid(list[1..]) && InOrder(list[1..])
    ensures forall c | c in list[1..] :: list[0].Limit() <= c.start
    ensures forall c :: c in list <==> c == list[0] || c in list[1..]
  {
    assert list == [list[0]] + list[1..];
    forall c | c in list[1..]
      ensures list[0].Limit() <= c.start
    {
      var i :| 0 <= i < |list[1..]| && list[1..][i] == c;
      assert list[i + 1] == c;
    }
  }

  lemma {:induction false} InsertKeepsOrder(b: MemoryBytes, list: seq<MemoryBytes>)
    requires b.Valid() && AllValid(list) && InOrder(list)
    requires forall c | c in list :: ApartBytes(b, c)
    ensures InOrder(InsertSorted(b, list)) && AllValid(InsertSorted(b, list))
    ensures forall c :: c in InsertSorted(b, list) <==> c == b || c in list
    decreases |list|
  {
    if list != [] {
      HeadBeforeTail(list);
      assert ApartBytes(b, list[0]);
      if InsertSorted(b, list) == [b] + list {
        if b.start <= list[0].start {
          PutFirst(b, list);
        }
      } else {
        InsertKeepsOrder(b, list[1..]);
        KeepFirst(list[0], InsertSorted(b, list[1..]));
      }
    }
  }

  /** Sorting disjoint chunks puts them in order, and loses and adds none. */
  lemma {:induction false} SortedInOrder(list: seq<MemoryBytes>)
    requires AllValid(list) && DisjointChunks(list)
    ensures InOrder(Sorted(list)) && AllValid(Sorted(list))
    ensures forall c :: c in Sorted(list) <==> c in list
    decreases |list|
  {
    if list != [] {
      var head, tail := list[0], list[1..];
      assert list == [head] + tail;
      SortedInOrder(tail);
      forall c | c in Sorted(tail)
        ensures ApartBytes(head, c)
      {
        var j :| 0 <= j < |tail| && tail[j] == c;
        assert list[j + 1] == c;
      }
      InsertKeepsOrder(head, Sorted(tail));
    }
  }

  lemma InOrderIsDisjoint(list: seq<MemoryBytes>)
    requires InOrder(list)
    ensures DisjointChunks(list)
  {}

  // ----- the normal form -----

  /** The permissions of the bytes of some content, without the mark for being mapped. */
  function PermsOf(m: PermsMap, content: ByteMap): PermsMap {
    map a | a in content :: PermsAt(m, a).Minus(MAPPED)
  }

  /** The part of some content in `[start, limit)`; zero where there is none. */
  function Chunk(content: ByteMap, start: nat, limit: nat): MemoryBytes
    requires start <= limit
  {
    MemoryBytes(start, seq(limit - start, k requires 0 <= k => if start + k in content then content[start + k] else 0))
  }

  function ChunksOf(content: ByteMap, ranges: seq<Range<Perms>>): (r: seq<MemoryBytes>)
    ensures |r| == |ranges|
    ensures forall i | 0 <= i < |r| ::
      r[i] == Chunk(content, ranges[i].start, if ranges[i].start <= ranges[i].limit then ranges[i].limit else ranges[i].start)
  {
    seq(|ranges|, i requires 0 <= i < |ranges| =>
      Chunk(content, ranges[i].start, if ranges[i].start <= ranges[i].limit then ranges[i].limit else ranges[i].start))
  }

  /** The one list of chunks for some content: one chunk for every maximal range of equal permissions. */
  function NormalForm(m: PermsMap, content: ByteMap): seq<MemoryBytes> {
    ChunksOf(content, Runs(PermsOf(m, content)))
  }

  /** All bytes of the chunk have the same permissions. */
  ghost predicate UniformChunk(m: PermsMap, b: MemoryBytes) {
    forall a | b.Has(a) :: PermsAt(m, a).Minus(MAPPED) == PermsAt(m, b.start).Minus(MAPPED)
  }

  /** Sorted chunks, each of uniform permissions, with different ones where two touch. */
  ghost predicate Normal(m: PermsMap, list: seq<MemoryBytes>) {
    && AllValid(list)
    && InOrder(list)
    && (forall i | 0 <= i < |list| :: UniformChunk(m, list[i]))
    && (forall i | 0 < i < |list| :: list[i - 1].Limit() == list[i].start ==>
          PermsAt(m, list[i - 1].start).Minus(MAPPED) != PermsAt(m, list[i].start).Minus(MAPPED))
  }

  /** The ranges of a normal list with their permissions. */
  ghost function RangesOf(m: PermsMap, list: seq<MemoryBytes>): (r: seq<Range<Perms>>)
    ensures |r| == |list|
    ensures forall i | 0 <= i < |r| ::
      r[i] == Range(list[i].start, list[i].Limit(), PermsAt(m, list[i].start).Minus(MAPPED))
  {
    seq(|list|, i requires 0 <= i < |list| =>
      Range(list[i].start, list[i].Limit(), PermsAt(m, list[i].start).Minus(MAPPED)))
  }

  lemma ChunkExact(content: ByteMap, b: MemoryBytes)
    requires forall a | b.Has(a) :: a in content && content[a] == b.ByteAt(a)
    ensures Chunk(content, b.start, b.Limit()) == b
  {}

  lemma NormalRangesHold(m: PermsMap, list: seq<MemoryBytes>)
    requires InOrder(list) && forall i | 0 <= i < |list| :: UniformChunk(m, list[i])
    ensures HoldsValues(PermsOf(m, Content(list)), RangesOf(m, list))
  {
    InOrderIsDisjoint(list);
    var p, rs := PermsOf(m, Content(list)), RangesOf(m, list);
    forall i, a: nat | 0 <= i < |rs| && rs[i].Has(a)
      ensures a in p && p[a] == rs[i].value
    {
      assert list[i].Has(a) && UniformChunk(m, list[i]);
      ContentOf(list, list[i], a);
    }
  }

  lemma NormalRangesCover(m: PermsMap, list: seq<MemoryBytes>, a: nat)
    requires InOrder(list) && a in Content(list)
    ensures Covers(RangesOf(m, list), a)
  {
    InOrderIsDisjoint(list);
    var b := ContentFrom(list, a);
    var i :| 0 <= i < |list| && list[i] == b;
    assert RangesOf(m, list)[i].Has(a);
  }

  lemma NormalRangesShape(m: PermsMap, list: seq<MemoryBytes>)
    requires Normal(m, list)
    ensures Ordered(RangesOf(m, list)) && Separated(RangesOf(m, list))
  {}

  /** The ranges of a normal list are an iteration over the permissions of its content. */
  lemma NormalRanges(m: PermsMap, list: seq<MemoryBytes>)
    requires Normal(m, list)
    ensures IsIteration(PermsOf(m, Content(list)), RangesOf(m, list))
  {
    NormalRangesShape(m, list);
    NormalRangesHold(m, list);
    forall a | a in PermsOf(m, Content(list))
      ensures Covers(RangesOf(m, list), a)
    {
      NormalRangesCover(m, list, a);
    }
  }

  /** A list in order is rebuilt from its content and its ranges. */
  lemma Rebuilt(m: PermsMap, list: seq<MemoryBytes>)
    requires InOrder(list)
    ensures ChunksOf(Content(list), RangesOf(m, list)) == list
  {
    InOrderIsDisjoint(list);
    forall i | 0 <= i < |list|
      ensures Chunk(Content(list), list[i].start, list[i].Limit()) == list[i]
    {
      forall a | list[i].Has(a)
        ensures a in Content(list) && Content(list)[a] == list[i].ByteAt(a)
      {
        ContentOf(list, list[i], a);
      }
      ChunkExact(Content(list), list[i]);
    }
  }

  /** A normal list is the normal form of its content, so lists with equal content normalise equally. */
  lemma NormalIsNormalForm(m: PermsMap, list: seq<MemoryBytes>)
    requires Normal(m, list)
    ensures list == NormalForm(m, Content(list))
  {
    NormalRanges(m, list);
    IterationIsUnique(PermsOf(m, Content(list)), RangesOf(m, list));
    Rebuilt(m, list);
  }

  /** The normal form is normal. */
  lemma NormalFormIsNormal(m: PermsMap, content: ByteMap)
    ensures Normal(m, NormalForm(m, content))
  {
    var p := PermsOf(m, content);
    var list, runs := NormalForm(m, content), Runs(p);
    RunsAreIteration(p);
    forall i | 0 <= i < |list|
      ensures list[i].Valid() && list[i].start == runs[i].start && list[i].Limit() == runs[i].limit
      ensures UniformChunk(m, list[i]) && PermsAt(m, list[i].start).Minus(MAPPED) == runs[i].value
    {
      forall a | list[i].Has(a)
        ensures PermsAt(m, a).Minus(MAPPED) == runs[i].value
      {
        assert runs[i].Has(a);
        assert p[a] == runs[i].value;
      }
      assert list[i].Has(list[i].start);
    }
  }

  lemma NormalFormHas(m: PermsMap, content: ByteMap, a: nat)
    requires a in content
    ensures a in Content(NormalForm(m, content)) && Content(NormalForm(m, content))[a] == content[a]
  {
    var list, runs := NormalForm(m, content), Runs(PermsOf(m, content));
    NormalFormIsNormal(m, content);
    InOrderIsDisjoint(list);
    RunsAreIteration(PermsOf(m, content));
    assert Covers(runs, a);
    var i :| 0 <= i < |runs| && runs[i].Has(a);
    NormalFormByte(m, content, i, a);
    ContentOf(list, list[i], a);
  }

  lemma NormalFormWithin(m: PermsMap, content: ByteMap, i: nat, a: nat)
    requires i < |NormalForm(m, content)| && NormalForm(m, content)[i].Has(a)
    ensures a in content
  {
    var runs := Runs(PermsOf(m, content));
    RunsAreIteration(PermsOf(m, content));
    assert runs[i].start < runs[i].limit;
    assert NormalForm(m, content)[i] == Chunk(content, runs[i].start, runs[i].limit);
    assert runs[i].Has(a);
    assert a in PermsOf(m, content);
  }

  lemma NormalFormOnly(m: PermsMap, content: ByteMap, a: nat)
    requires a in Content(NormalForm(m, content))
    ensures a in content
  {
    var list := NormalForm(m, content);
    NormalFormIsNormal(m, content);
    InOrderIsDisjoint(list);
    var b := ContentFrom(list, a);
    var i :| 0 <= i < |list| && list[i] == b;
    NormalFormWithin(m, content, i, a);
  }

  /** The normal form of some content holds exactly that content. */
  lemma NormalFormContent(m: PermsMap, content: ByteMap)
    ensures Content(NormalForm(m, content)) == content
  {
    forall a
      ensures a in Content(NormalForm(m, content)) <==> a in content
      ensures a in content ==> Content(NormalForm(m, content))[a] == content[a]
    {
      if a in content {
        NormalFormHas(m, content, a);
      }
      if a in Content(NormalForm(m, content)) {
        NormalFormOnly(m, content, a);
      }
    }
  }

  lemma NormalFormByte(m: PermsMap, content: ByteMap, i: nat, a: nat)
    requires i < |Runs(PermsOf(m, content))| && Runs(PermsOf(m, content))[i].Has(a) && a in content
    ensures var b := NormalForm(m, content)[i]; b.Has(a) && b.ByteAt(a) == content[a]
  {}

  /** Normalising a second time changes nothing. */
  lemma NormalFormIdempotent(m: PermsMap, content: ByteMap)
    ensures NormalForm(m, Content(NormalForm(m, content))) == NormalForm(m, content)
  {
    NormalFormContent(m, content);
  }
}
