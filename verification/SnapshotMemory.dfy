/** The memory part of a snapshot, as the memory state reads it. */
module SnapshotMemories {
  import opened MappedMemoryMaps
  import opened MemoryTypes
  import opened MappingCommands

  /** Lists of mappings and chunks; the two maps repeat what the lists say, without the mark for being mapped. */
  datatype SnapshotMemory = SnapshotMemory(
    mappings: seq<MemoryMapping>,
    mapped: PermsMap,
    negativeMappings: seq<MemoryMapping>,
    negative: PermsMap,
    bytes: seq<MemoryBytes>)

  ghost predicate MappingsDisjoint(list: seq<MemoryMapping>) {
    forall i, j | 0 <= i < j < |list| :: Apart(list[i], list[j])
  }

  ghost predicate AllMappingsValid(list: seq<MemoryMapping>) {
    forall i | 0 <= i < |list| :: list[i].Valid() && !list[i].perms.IsEmpty()
  }

  ghost predicate SomeMappingHas(list: seq<MemoryMapping>, a: nat) {
    exists i | 0 <= i < |list| :: list[i].Has(a)
  }

  /** The list and the map describe the same memory. */
  ghost predicate ListMapAgree(list: seq<MemoryMapping>, m: PermsMap) {
    && AllMappingsValid(list)
    && MappingsDisjoint(list)
    && (forall i, a | 0 <= i < |list| && list[i].Has(a) :: a in m && m[a] == list[i].perms)
    && (forall a {:trigger SomeMappingHas(list, a)} | a in m :: SomeMappingHas(list, a))
  }

  /** No address has a permission that is forbidden there. */
  ghost predicate ConflictFree(mapped: PermsMap, negative: PermsMap) {
    forall a | a in mapped && a in negative :: !mapped[a].HasSomeOf(negative[a])
  }

  ghost predicate BytesWithin(bytes: seq<MemoryBytes>, m: PermsMap) {
    forall i, a | 0 <= i < |bytes| && bytes[i].Has(a) :: a in m
  }

  /** What building a snapshot from empty guarantees of its memory. */
  ghost predicate WellFormedMemory(s: SnapshotMemory) {
    && ListMapAgree(s.mappings, s.mapped)
    && ListMapAgree(s.negativeMappings, s.negative)
    && ConflictFree(s.mapped, s.negative)
    && (forall i | 0 <= i < |s.bytes| :: s.bytes[i].Valid())
    && DisjointChunks(s.bytes)
    && BytesWithin(s.bytes, s.mapped)
  }

  /** Every address of an agreeing map is in some mapping of the list. */
  lemma AgreedMapping(list: seq<MemoryMapping>, m: PermsMap, a: nat) returns (i: nat)
    requires ListMapAgree(list, m) && a in m
    ensures i < |list| && list[i].Has(a) && m[a] == list[i].perms
  {
    assert SomeMappingHas(list, a);
    i :| 0 <= i < |list| && list[i].Has(a);
  }
}
