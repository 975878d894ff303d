/** Memory mappings, chunks of bytes, and what writing chunks does to the known bytes. */
module MemoryTypes {
  import opened MemoryPerms
  import opened RangeMaps

  type Byte = bv8

  type ByteMap = map<nat, Byte>

  /** A mapping of `[start, limit)`; the mark for being mapped is not part of its permissions. */
  datatype MemoryMapping = MemoryMapping(start: nat, limit: nat, perms: Perms) {
    predicate Valid() { start < limit && !perms.mapped }

    predicate Has(a: nat) { start <= a < limit }
  }

  /** Byte values from `start` on. */
  datatype MemoryBytes = MemoryBytes(start: nat, values: seq<Byte>) {
    function Limit(): nat { start + |values| }

    predicate Valid() { values != [] }

    predicate Has(a: nat) { start <= a < Limit() }

    function ByteAt(a: nat): Byte
      requires Has(a)
    {
      values[a - start]
    }

    /** The part of the bytes in `[from, to)`. */
    function Range(from: nat, to: nat): MemoryBytes
      requires start <= from <= to <= Limit()
    {
      MemoryBytes(from, values[from - start..to - start])
    }
  }

  function Written(m: ByteMap, b: MemoryBytes): ByteMap {
    map a | a in m.Keys + Addresses(b.start, b.Limit()) :: if b.Has(a) then b.ByteAt(a) else m[a]
  }

  /** The bytes after writing chunks, one after the other. */
  function WrittenAll(m: ByteMap, chunks: seq<MemoryBytes>): ByteMap {
    if chunks == [] then m else Written(WrittenAll(m, chunks[..|chunks| - 1]), chunks[|chunks| - 1])
  }

  /** The addresses of chunks. */
  function Covered(chunks: seq<MemoryBytes>): set<nat> {
    if chunks == [] then {}
    else Covered(chunks[..|chunks| - 1]) + Addresses(chunks[|chunks| - 1].start, chunks[|chunks| - 1].Limit())
  }

  ghost predicate InSome(chunks: seq<MemoryBytes>, a: nat) {
    exists i | 0 <= i < |chunks| :: chunks[i].Has(a)
  }

  lemma InSomeOfLast(chunks: seq<MemoryBytes>, a: nat)
    requires chunks != []
    ensures InSome(chunks, a) <==> InSome(chunks[..|chunks| - 1], a) || chunks[|chunks| - 1].Has(a)
  {}

  /** Exactly the old bytes and the written ones are known afterwards. */
  lemma {:induction false} WrittenDomain(m: ByteMap, chunks: seq<MemoryBytes>, a: nat)
    ensures a in WrittenAll(m, chunks) <==> a in m || InSome(chunks, a)
    decreases |chunks|
  {
    if chunks != [] {
      WrittenDomain(m, chunks[..|chunks| - 1], a);
      InSomeOfLast(chunks, a);
    }
  }

  ghost predicate DisjointChunks(chunks: seq<MemoryBytes>) {
    forall i, j | 0 <= i < j < |chunks| :: chunks[i].Limit() <= chunks[j].start || chunks[j].Limit() <= chunks[i].start
  }

  /** Where the chunks agree with `m`, writing them is like writing nothing there; elsewhere like writing all of them. */
  lemma {:induction false} WrittenUntouched(m: ByteMap, chunks: seq<MemoryBytes>, a: nat)
    requires !InSome(chunks, a)
    ensures a in WrittenAll(m, chunks) <==> a in m
    ensures a in m ==> WrittenAll(m, chunks)[a] == m[a]
    decreases |chunks|
  {
    if chunks != [] {
      InSomeOfLast(chunks, a);
      WrittenUntouched(m, chunks[..|chunks| - 1], a);
    }
  }

  /** Of disjoint chunks every one is read back. */
  lemma {:induction false} WrittenAt(m: ByteMap, chunks: seq<MemoryBytes>, i: nat, a: nat)
    requires DisjointChunks(chunks) && i < |chunks| && chunks[i].Has(a)
    ensures a in WrittenAll(m, chunks) && WrittenAll(m, chunks)[a] == chunks[i].ByteAt(a)
    decreases |chunks|
  {
    var front := chunks[..|chunks| - 1];
    if i < |front| {
      assert front[i] == chunks[i] && !chunks[|chunks| - 1].Has(a);
      WrittenAt(m, front, i, a);
    }
  }

  lemma {:induction false} CoveredIsInSome(chunks: seq<MemoryBytes>, a: nat)
    ensures a in Covered(chunks) <==> InSome(chunks, a)
    decreases |chunks|
  {
    if chunks != [] {
      CoveredIsInSome(chunks[..|chunks| - 1], a);
      InSomeOfLast(chunks, a);
    }
  }

  lemma {:induction false} CoveredInParts(p: seq<MemoryBytes>, q: seq<MemoryBytes>)
    ensures Covered(p + q) == Covered(p) + Covered(q)
    decreases |q|
  {
    if q == [] {
      assert p + q == p;
    } else {
      assert (p + q)[..|p + q| - 1] == p + q[..|q| - 1];
      CoveredInParts(p, q[..|q| - 1]);
    }
  }
}
