/** Splitting chunks at permission boundaries and merging them again, step by step. */
module Normalization {
  import opened MemoryPerms
  import opened RangeMaps
  import opened MappedMemoryMaps
  import opened MemoryTypes
  import opened NormalForms

  /** The chunks hold bytes of the content. */
  ghost predicate PartsOf(content: ByteMap, list: seq<MemoryBytes>) {
    forall i | 0 <= i < |list| :: list[i].Valid() && PartOf(content, list[i])
  }

  ghost predicate PartOf(content: ByteMap, b: MemoryBytes) {
    forall a | b.Has(a) :: a in content && content[a] == b.ByteAt(a)
  }

  /** The content below `upTo` is in normal form; `perms` are the permissions of the last chunk. */
  ghost predicate NormalUpTo(m: PermsMap, content: ByteMap, upTo: nat, list: seq<MemoryBytes>, perms: Perms) {
    && PartsOf(content, list)
    && IteratesOver(PermsOf(m, content), 0, upTo, RangesOf(m, list))
    && (list != [] ==> PermsAt(m, list[|list| - 1].start).Minus(MAPPED) == perms)
  }

  /** What a further chunk with permissions `v` does to the list. */
  function Appended(list: seq<MemoryBytes>, perms: Perms, b: MemoryBytes, v: Perms): seq<MemoryBytes> {
    if list != [] && b.start == list[|list| - 1].Limit() && v == perms then
      var last := list[|list| - 1];
      list[..|list| - 1] + [MemoryBytes(last.start, last.values + b.values)]
    else list + [b]
  }

  lemma ExtendedRanges(m: PermsMap, list: seq<MemoryBytes>, b: MemoryBytes)
    requires list != [] && b.start == list[|list| - 1].Limit()
    ensures var last := list[|list| - 1];
      RangesOf(m, list[..|list| - 1] + [MemoryBytes(last.start, last.values + b.values)])
      == RangesOf(m, list)[|list| - 1 := RangesOf(m, list)[|list| - 1].(limit := b.Limit())]
  {}

  lemma AddedRange(m: PermsMap, list: seq<MemoryBytes>, b: MemoryBytes, v: Perms)
    requires PermsAt(m, b.start).Minus(MAPPED) == v
    ensures RangesOf(m, list + [b]) == RangesOf(m, list) + [Range(b.start, b.Limit(), v)]
  {}

  lemma JoinedPart(content: ByteMap, last: MemoryBytes, b: MemoryBytes)
    requires PartOf(content, last) && PartOf(content, b) && b.start == last.Limit()
    ensures PartOf(content, MemoryBytes(last.start, last.values + b.values))
  {}

  lemma HeldBy(m: PermsMap, content: ByteMap, b: MemoryBytes, v: Perms)
    requires PartOf(content, b) && forall a | b.Has(a) :: PermsAt(m, a).Minus(MAPPED) == v
    ensures Holds(PermsOf(m, content), b.start, b.Limit(), v)
  {}

  lemma MergeStep(m: PermsMap, content: ByteMap, list: seq<MemoryBytes>, perms: Perms, b: MemoryBytes)
    requires NormalUpTo(m, content, b.start, list, perms)
    requires list != [] && b.start == list[|list| - 1].Limit()
    requires b.Valid() && PartOf(content, b)
    requires forall a | b.Has(a) :: PermsAt(m, a).Minus(MAPPED) == perms
    ensures var last := list[|list| - 1];
      NormalUpTo(m, content, b.Limit(), list[..|list| - 1] + [MemoryBytes(last.start, last.values + b.values)], perms)
  {
    var last := list[|list| - 1];
    var next := list[..|list| - 1] + [MemoryBytes(last.start, last.values + b.values)];
    HeldBy(m, content, b, perms);
    ExtendedRanges(m, list, b);
    ExtendLast(PermsOf(m, content), b.start, b.Limit(), RangesOf(m, list), RangesOf(m, next));
    JoinedPart(content, last, b);
  }

  lemma AddStep(m: PermsMap, content: ByteMap, list: seq<MemoryBytes>, perms: Perms, b: MemoryBytes, v: Perms)
    requires NormalUpTo(m, content, b.start, list, perms)
    requires list != [] && b.start == list[|list| - 1].Limit() ==> v != perms
    requires b.Valid() && PartOf(content, b)
    requires forall a | b.Has(a) :: PermsAt(m, a).Minus(MAPPED) == v
    ensures NormalUpTo(m, content, b.Limit(), list + [b], v)
  {
    HeldBy(m, content, b, v);
    assert b.Has(b.start);
    AddedRange(m, list, b, v);
    StartNew(PermsOf(m, content), b.start, b.Limit(), RangesOf(m, list), v, RangesOf(m, list + [b]));
    AddedParts(content, list, b);
  }

  lemma AddedParts(content: ByteMap, list: seq<MemoryBytes>, b: MemoryBytes)
    requires PartsOf(content, list) && b.Valid() && PartOf(content, b)
    ensures PartsOf(content, list + [b])
  {}

  /** Merging a chunk with the last one, or adding it, keeps the normal form. */
  lemma AppendStep(m: PermsMap, content: ByteMap, list: seq<MemoryBytes>, perms: Perms, b: MemoryBytes, v: Perms)
    requires NormalUpTo(m, content, b.start, list, perms)
    requires b.Valid() && PartOf(content, b)
    requires forall a | b.Has(a) :: PermsAt(m, a).Minus(MAPPED) == v
    ensures NormalUpTo(m, content, b.Limit(), Appended(list, perms, b, v), v)
  {
    if list != [] && b.start == list[|list| - 1].Limit() && v == perms {
      MergeStep(m, content, list, perms, b);
    } else {
      AddStep(m, content, list, perms, b, v);
    }
  }

  /** Between two chunks there is nothing. */
  lemma SkipTo(m: PermsMap, list: seq<MemoryBytes>, i: nat, upTo: nat, out: seq<MemoryBytes>, perms: Perms)
    requires InOrder(list) && AllValid(list) && i <= |list|
    requires upTo == if i == 0 then 0 else list[i - 1].Limit()
    requires NormalUpTo(m, Content(list), upTo, out, perms)
    ensures i < |list| ==> upTo <= list[i].start && NormalUpTo(m, Content(list), list[i].start, out, perms)
    ensures i == |list| ==> forall a | a in Content(list) :: a < upTo
  {
    InOrderIsDisjoint(list);
    forall a | a in Content(list)
      ensures i < |list| && upTo <= a ==> list[i].start <= a
      ensures i == |list| ==> a < upTo
    {
      var b := ContentFrom(list, a);
      var j :| 0 <= j < |list| && list[j] == b;
      ChunkSide(list, i, j, a);
    }
    if i < |list| {
      SkipGap(PermsOf(m, Content(list)), upTo, list[i].start, RangesOf(m, out));
    }
  }

  /** A chunk before position `i` ends before it, and the others do not start before it. */
  lemma ChunkSide(list: seq<MemoryBytes>, i: nat, j: nat, a: nat)
    requires InOrder(list) && AllValid(list) && i <= |list| && j < |list| && list[j].Has(a)
    ensures 0 < i && j < i ==> a < list[i - 1].Limit()
    ensures i <= j ==> list[i].start <= a
  {}

  /** When everything has been passed, the list is the normal form. */
  lemma NormalEnd(m: PermsMap, content: ByteMap, upTo: nat, list: seq<MemoryBytes>, perms: Perms)
    requires NormalUpTo(m, content, upTo, list, perms)
    requires forall a | a in content :: a < upTo
    ensures list == NormalForm(m, content)
  {
    IterationIsUnique(PermsOf(m, content), RangesOf(m, list));
    forall i | 0 <= i < |list|
      ensures Chunk(content, list[i].start, list[i].Limit()) == list[i]
    {
      ChunkExact(content, list[i]);
    }
  }

  /** A part of one chunk of a list is a part of the content. */
  lemma RangePart(list: seq<MemoryBytes>, i: nat, from: nat, to: nat)
    requires DisjointChunks(list) && i < |list| && list[i].start <= from <= to <= list[i].Limit()
    ensures PartOf(Content(list), list[i].Range(from, to))
  {
    var part := list[i].Range(from, to);
    forall a | part.Has(a)
      ensures a in Content(list) && Content(list)[a] == part.ByteAt(a)
    {
      ContentOf(list, list[i], a);
    }
  }

  /** Merges a chunk into the list, or adds it. */
  method MergeOrAdd(list: seq<MemoryBytes>, perms: Perms, b: MemoryBytes, v: Perms) returns (r: seq<MemoryBytes>)
    ensures r == Appended(list, perms, b, v)
  {
    if list != [] && b.start == list[|list| - 1].Limit() && v == perms {
      var last := list[|list| - 1];
      r := list[..|list| - 1] + [MemoryBytes(last.start, last.values + b.values)];
    } else {
      r := list + [b];
    }
  }

  /** The part of a chunk up to the end of a mapping keeps the normal form. */
  lemma PartStep(m: PermsMap, list: seq<MemoryBytes>, i: nat, current: nat, limit: nat, mapping: Range<Perms>,
                 out: seq<MemoryBytes>, perms: Perms)
    requires InOrder(list) && i < |list| && list[i].start <= current < limit <= list[i].Limit()
    requires IsMapping(m, current, mapping) && limit <= mapping.limit
    requires NormalUpTo(m, Content(list), current, out, perms)
    ensures NormalUpTo(m, Content(list), limit,
      Appended(out, perms, list[i].Range(current, limit), mapping.value), mapping.value)
  {
    InOrderIsDisjoint(list);
    MappingIsUniform(m, current, mapping);
    RangePart(list, i, current, limit);
    var part := list[i].Range(current, limit);
    assert forall a | part.Has(a) :: mapping.Has(a);
    AppendStep(m, Content(list), out, perms, part, mapping.value);
  }

  function EndBefore(list: seq<MemoryBytes>, i: nat): nat
    requires i <= |list|
  {
    if i == 0 then 0 else list[i - 1].Limit()
  }

  /** The first `i` chunks of a sorted list have been normalised. */
  ghost predicate Normalizing(m: PermsMap, list: seq<MemoryBytes>, i: nat, out: seq<MemoryBytes>, perms: Perms) {
    i <= |list| && NormalUpTo(m, Content(list), EndBefore(list, i), out, perms)
  }

  /** Splits chunk `i` at the boundaries of permissions, and merges the parts into the list. */
  method AppendChunk(memoryMap: MappedMemoryMap, list: seq<MemoryBytes>, i: nat, out: seq<MemoryBytes>, perms: Perms)
    returns (out': seq<MemoryBytes>, perms': Perms)
    requires InOrder(list) && Normalizable(memoryMap.rep, list) && i < |list|
    requires Normalizing(memoryMap.rep, list, i, out, perms)
    ensures Normalizing(memoryMap.rep, list, i + 1, out', perms')
  {
    var b := list[i];
    SkipTo(memoryMap.rep, list, i, EndBefore(list, i), out, perms);
    out', perms' := out, perms;
    var current := b.start;
    while current < b.Limit()
      invariant b.start <= current <= b.Limit()
      invariant NormalUpTo(memoryMap.rep, Content(list), current, out', perms')
    {
      assert b.Has(current);
      current, out', perms' := AppendPart(memoryMap, list, i, current, out', perms');
    }
  }

  /** The part of chunk `i` from `current` on up to the end of the chunk or of the mapping there. */
  method AppendPart(memoryMap: MappedMemoryMap, list: seq<MemoryBytes>, i: nat, current: nat,
                    out: seq<MemoryBytes>, perms: Perms)
    returns (limit: nat, out': seq<MemoryBytes>, perms': Perms)
    requires InOrder(list) && i < |list| && list[i].Has(current) && current in memoryMap.rep
    requires NormalUpTo(memoryMap.rep, Content(list), current, out, perms)
    ensures current < limit <= list[i].Limit()
    ensures NormalUpTo(memoryMap.rep, Content(list), limit, out', perms')
  {
    var b := list[i];
    var mapping := memoryMap.MappingAt(current);
    limit := if b.Limit() < mapping.value.limit then b.Limit() else mapping.value.limit;
    PartStep(memoryMap.rep, list, i, current, limit, mapping.value, out, perms);
    out' := MergeOrAdd(out, perms, b.Range(current, limit), mapping.value.value);
    perms' := mapping.value.value;
  }

  lemma MappingIsUniform(m: PermsMap, address: nat, mapping: Range<Perms>)
    requires IsMapping(m, address, mapping)
    ensures forall a | mapping.Has(a) :: PermsAt(m, a).Minus(MAPPED) == mapping.value
  {
    var full :| full in Runs(m) && mapping == full.(value := full.value.Minus(MAPPED));
    var i :| 0 <= i < |Runs(m)| && Runs(m)[i] == full;
    forall a | mapping.Has(a)
      ensures PermsAt(m, a).Minus(MAPPED) == mapping.value
    {
      RunAtIndex(m, i, a);
    }
  }

  /** Sorts the chunks, splits them where permissions change, and merges touching ones of equal permissions. */
  method NormalizeMemoryBytes(memoryMap: MappedMemoryMap, bytes: seq<MemoryBytes>) returns (out: seq<MemoryBytes>)
    requires Normalizable(memoryMap.rep, bytes)
    ensures out == NormalForm(memoryMap.rep, Content(bytes))
  {
    var chunks := Sorted(bytes);
    SortedNormalizable(memoryMap.rep, bytes);
    out := [];
    var perms := NONE;
    for i := 0 to |chunks|
      invariant Normalizing(memoryMap.rep, chunks, i, out, perms)
    {
      out, perms := AppendChunk(memoryMap, chunks, i, out, perms);
    }
    Normalized(memoryMap.rep, chunks, out, perms);
  }

  lemma Normalized(m: PermsMap, list: seq<MemoryBytes>, out: seq<MemoryBytes>, perms: Perms)
    requires InOrder(list) && Normalizable(m, list) && Normalizing(m, list, |list|, out, perms)
    ensures out == NormalForm(m, Content(list))
  {
    SkipTo(m, list, |list|, EndBefore(list, |list|), out, perms);
    NormalEnd(m, Content(list), EndBefore(list, |list|), out, perms);
  }

  /** Sorting keeps what normalising demands, and the content. */
  lemma SortedNormalizable(m: PermsMap, bytes: seq<MemoryBytes>)
    requires Normalizable(m, bytes)
    ensures InOrder(Sorted(bytes)) && Normalizable(m, Sorted(bytes))
    ensures Content(Sorted(bytes)) == Content(bytes)
  {
    var chunks := Sorted(bytes);
    SortedInOrder(bytes);
    InOrderIsDisjoint(chunks);
    SameContent(bytes, chunks);
    forall i, a: nat | 0 <= i < |chunks| && chunks[i].Has(a)
      ensures a in m
    {
      assert chunks[i] in bytes;
      var j :| 0 <= j < |bytes| && bytes[j] == chunks[i];
    }
  }
}
