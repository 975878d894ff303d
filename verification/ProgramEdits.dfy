/**
  Edits of a program as functions on instruction lists, and what they do to the targets of
  branches.  A boundary stands for the instruction it precedes, or for the end of the program.
 */
module ProgramEdits {
  import opened Wrappers
  import opened Instructions
  import opened ProgramLayout

  /** A boundary after every boundary from `from` on has moved by `amount`. */
  function Shifted(b: nat, from: nat, amount: int): nat
    requires 0 <= from + amount
  {
    if b >= from then b + amount else b
  }

  function AdjustedInstruction(insn: Instruction, from: nat, amount: int): Instruction
    requires 0 <= from + amount
  {
    if insn.branch.Valid() && insn.branch.boundary.Some? then
      insn.(branch := insn.branch.(boundary := Some(Shifted(insn.branch.boundary.value, from, amount))))
    else insn
  }

  /** What `AdjustInstructionIndexes` leaves. */
  function Adjusted(insns: seq<Instruction>, from: nat, amount: int): (r: seq<Instruction>)
    requires 0 <= from + amount
    ensures |r| == |insns|
    ensures forall k {:trigger r[k]} | 0 <= k < |r| :: r[k] == AdjustedInstruction(insns[k], from, amount)
  {
    seq(|insns|, k requires 0 <= k < |insns| => AdjustedInstruction(insns[k], from, amount))
  }

  /** The first boundary that an insertion at `boundary` moves. */
  function InsertionPoint(boundary: nat, steal: bool): nat {
    if steal then boundary + 1 else boundary
  }

  function Inserted(insns: seq<Instruction>, boundary: nat, steal: bool, block: seq<Instruction>): seq<Instruction>
    requires boundary <= |insns|
  {
    var moved := Adjusted(insns, InsertionPoint(boundary, steal), |block|);
    moved[..boundary] + block + moved[boundary..]
  }

  function Removed(insns: seq<Instruction>, index: nat): seq<Instruction>
    requires index < |insns|
  {
    var moved := Adjusted(insns, index + 1, -1);
    moved[..index] + moved[index + 1..]
  }

  function Overwritten(insns: seq<Instruction>, index: nat, block: seq<Instruction>): seq<Instruction>
    requires index + |block| <= |insns|
  {
    insns[..index] + block + insns[index + |block|..]
  }

  // ----- what the edited list holds at an index -----

  /** An element of a list into which a block was put. */
  lemma SpliceIndex<T>(s: seq<T>, at: nat, block: seq<T>, k: nat)
    requires at <= |s| && k < |s|
    ensures (s[..at] + block + s[at..])[if k < at then k else k + |block|] == s[k]
  {}

  /** An element of a list from which one was taken. */
  lemma CutIndex<T>(s: seq<T>, at: nat, k: nat)
    requires at < |s| && k < |s| && k != at
    ensures (s[..at] + s[at + 1..])[if k < at then k else k - 1] == s[k]
  {}

  /** After an insertion every old instruction is found, adjusted, at its new place. */
  lemma InsertedIndex(insns: seq<Instruction>, boundary: nat, steal: bool, block: seq<Instruction>, k: nat)
    requires boundary <= |insns| && k < |insns|
    ensures |Inserted(insns, boundary, steal, block)| == |insns| + |block|
    ensures Inserted(insns, boundary, steal, block)[AfterInsertion(k, boundary, |block|)]
      == AdjustedInstruction(insns[k], InsertionPoint(boundary, steal), |block|)
  {
    SpliceIndex(Adjusted(insns, InsertionPoint(boundary, steal), |block|), boundary, block, k);
  }

  /** And so is every instruction of the block. */
  lemma InsertedBlock(insns: seq<Instruction>, boundary: nat, steal: bool, block: seq<Instruction>)
    requires boundary <= |insns|
    ensures |Inserted(insns, boundary, steal, block)| == |insns| + |block|
    ensures Inserted(insns, boundary, steal, block)[boundary..boundary + |block|] == block
  {}

  /** After a removal every other instruction is found, adjusted, at its new place. */
  lemma RemovedIndex(insns: seq<Instruction>, index: nat, k: nat)
    requires index < |insns| && k < |insns| && k != index
    ensures |Removed(insns, index)| == |insns| - 1
    ensures Removed(insns, index)[AfterRemoval(k, index)] == AdjustedInstruction(insns[k], index + 1, -1)
  {
    CutIndex(Adjusted(insns, index + 1, -1), index, k);
  }

  lemma OverwrittenIndex(insns: seq<Instruction>, index: nat, block: seq<Instruction>, k: nat)
    requires index + |block| <= |insns| && k < |insns|
    ensures |Overwritten(insns, index, block)| == |insns|
    ensures Overwritten(insns, index, block)[k] == if index <= k < index + |block| then block[k - index] else insns[k]
  {}

  /** Overwriting one instruction more. */
  lemma OverwrittenStep(insns: seq<Instruction>, index: nat, block: seq<Instruction>, i: nat)
    requires index + |block| <= |insns| && i < |block|
    ensures |Overwritten(insns, index, block[..i])| == |insns|
    ensures Overwritten(insns, index, block[..i])[index + i := block[i]] == Overwritten(insns, index, block[..i + 1])
  {
    var now, next := Overwritten(insns, index, block[..i]), Overwritten(insns, index, block[..i + 1]);
    OverwrittenIndex(insns, index, block[..i], index);
    OverwrittenIndex(insns, index, block[..i + 1], index);
    forall k | 0 <= k < |insns|
      ensures now[index + i := block[i]][k] == next[k]
    {
      OverwrittenIndex(insns, index, block[..i], k);
      OverwrittenIndex(insns, index, block[..i + 1], k);
    }
  }

  // ----- where an instruction goes -----

  /** Where the instruction at `t`, or the program end, is found after inserting `size` instructions. */
  function AfterInsertion(t: nat, boundary: nat, size: nat): nat {
    if t < boundary then t else t + size
  }

  /** Where the instruction at `t`, or the program end, is found after removing instruction `index`. */
  function AfterRemoval(t: nat, index: nat): nat
    requires t != index
  {
    if t < index then t else t - 1
  }

  function Target(insns: seq<Instruction>, k: nat): Option<nat>
    requires k < |insns|
  {
    if insns[k].branch.Valid() then insns[k].branch.boundary else None
  }

  /**
    After an insertion every old instruction is still there, at its new place, and its
    branch targets the same instruction or the program end as before; only when the block
    steals displacements do branches to the insertion boundary target the block instead.
   */
  lemma InsertionKeepsTargets(insns: seq<Instruction>, boundary: nat, steal: bool, block: seq<Instruction>, k: nat)
    requires boundary <= |insns| && k < |insns|
    ensures var now := Inserted(insns, boundary, steal, block);
      var k' := AfterInsertion(k, boundary, |block|);
      && |now| == |insns| + |block|
      && now[boundary..boundary + |block|] == block
      && now[k'].encoded == insns[k].encoded
      && (Target(insns, k).None? ==> now[k'] == insns[k] && Target(now, k').None?)
      && (Target(insns, k).Some? ==>
            Target(now, k') == Some(
              if steal && Target(insns, k).value == boundary then boundary
              else AfterInsertion(Target(insns, k).value, boundary, |block|)))
  {
    InsertedIndex(insns, boundary, steal, block, k);
    InsertedBlock(insns, boundary, steal, block);
    AdjustedTarget(insns[k], InsertionPoint(boundary, steal), |block|);
  }

  /** Adjusting moves the target of a branch, and nothing else. */
  lemma AdjustedTarget(insn: Instruction, from: nat, amount: int)
    requires 0 <= from + amount
    ensures var r := AdjustedInstruction(insn, from, amount);
      && r.encoded == insn.encoded
      && r.branch.Valid() == insn.branch.Valid()
      && (insn.branch.Valid() && insn.branch.boundary.Some? ==>
            r.branch.boundary == Some(Shifted(insn.branch.boundary.value, from, amount)))
      && (!insn.branch.Valid() || insn.branch.boundary.None? ==> r == insn)
  {}

  /** The adjustments of an insertion and of the removal after it cancel. */
  lemma AdjustedBack(insn: Instruction, boundary: nat, steal: bool)
    ensures AdjustedInstruction(AdjustedInstruction(insn, InsertionPoint(boundary, steal), 1), boundary + 1, -1) == insn
  {}

  /** The other way round they cancel except at one boundary. */
  lemma AdjustedForth(insn: Instruction, index: nat, steal: bool)
    ensures AdjustedInstruction(AdjustedInstruction(insn, index + 1, -1), InsertionPoint(index, steal), 1) == insn <==>
      !(insn.branch.Valid() && insn.branch.boundary == Some(LostBoundary(index, steal)))
  {}

  lemma BlockElement(s: seq<Instruction>, index: nat, insn: Instruction)
    requires index < |s| && s[index..index + 1] == [insn]
    ensures s[index] == insn
  {
    assert s[index..index + 1][0] == s[index];
  }

  /** After a removal only branches to the victim move, to its successor. */
  lemma RemovalKeepsTargets(insns: seq<Instruction>, index: nat, k: nat)
    requires index < |insns| && k < |insns| && k != index
    ensures var now := Removed(insns, index);
      var k' := AfterRemoval(k, index);
      && |now| == |insns| - 1
      && now[k'].encoded == insns[k].encoded
      && (Target(insns, k).None? ==> now[k'] == insns[k] && Target(now, k').None?)
      && (Target(insns, k).Some? ==>
            Target(now, k') == Some(
              if Target(insns, k).value == index then AfterRemoval(index + 1, index)
              else AfterRemoval(Target(insns, k).value, index)))
  {
    RemovedIndex(insns, index, k);
    AdjustedTarget(insns[k], index + 1, -1);
  }

  /** Inserting one instruction and removing it again restores the program, in both modes. */
  lemma RemovalUndoesInsertion(insns: seq<Instruction>, boundary: nat, steal: bool, insn: Instruction)
    requires boundary <= |insns|
    ensures Removed(Inserted(insns, boundary, steal, [insn]), boundary) == insns
  {
    var now := Inserted(insns, boundary, steal, [insn]);
    var back := Removed(now, boundary);
    InsertedBlock(insns, boundary, steal, [insn]);
    assert |back| == |insns|;
    forall k | 0 <= k < |insns|
      ensures back[k] == insns[k]
    {
      RestoredIndex(insns, boundary, steal, insn, k);
    }
  }

  lemma RestoredIndex(insns: seq<Instruction>, boundary: nat, steal: bool, insn: Instruction, k: nat)
    requires boundary <= |insns| && k < |insns|
    ensures |Inserted(insns, boundary, steal, [insn])| == |insns| + 1
    ensures |Removed(Inserted(insns, boundary, steal, [insn]), boundary)| == |insns|
    ensures Removed(Inserted(insns, boundary, steal, [insn]), boundary)[k] == insns[k]
  {
    InsertedIndex(insns, boundary, steal, [insn], k);
    RemovedIndex(Inserted(insns, boundary, steal, [insn]), boundary, AfterInsertion(k, boundary, 1));
    AdjustedBack(insns[k], boundary, steal);
  }

  lemma RelaidForgetsOffsets(s: seq<Instruction>, t: seq<Instruction>)
    requires SameButOffsets(s, t)
    ensures Relaid(s) == Relaid(t)
  {
    RelaidIsLaidOut(s);
    RelaidIsLaidOut(t);
    LayoutIsUnique(Relaid(s), Relaid(t));
  }

  /** The editor, which lays the program out after each edit, restores it too. */
  lemma EditorRestores(insns: seq<Instruction>, boundary: nat, steal: bool, insn: Instruction)
    requires boundary <= |insns|
    ensures Relaid(Removed(Relaid(Inserted(insns, boundary, steal, [insn])), boundary)) == Relaid(insns)
  {
    var inserted := Inserted(insns, boundary, steal, [insn]);
    RemovalUndoesInsertion(insns, boundary, steal, insn);
    RemovalOfRelaid(inserted, boundary);
    RelaidForgetsOffsets(Removed(Relaid(inserted), boundary), insns);
  }

  lemma RemovalOfRelaid(insns: seq<Instruction>, index: nat)
    requires index < |insns|
    ensures SameButOffsets(Removed(Relaid(insns), index), Removed(insns, index))
  {}

  /**
    The other way round something may be lost: putting a removed instruction back restores
    the program exactly when no other branch targets the boundary that cannot be told apart.
   */
  lemma InsertionUndoesRemoval(insns: seq<Instruction>, index: nat, steal: bool)
    requires index < |insns|
    ensures Inserted(Removed(insns, index), index, steal, [insns[index]]) == insns <==>
      forall k | 0 <= k < |insns| && k != index :: Target(insns, k) != Some(LostBoundary(index, steal))
  {
    var back := Inserted(Removed(insns, index), index, steal, [insns[index]]);
    forall k | 0 <= k < |insns|
      ensures back[k] == insns[k] <==> (k == index || Target(insns, k) != Some(LostBoundary(index, steal)))
    {
      RestoredAt(insns, index, steal, k);
    }
    if forall k | 0 <= k < |insns| && k != index :: Target(insns, k) != Some(LostBoundary(index, steal)) {
      assert back == insns;
    }
  }

  /** Removing instruction `index` merges its boundary with the next; one of them is lost. */
  function LostBoundary(index: nat, steal: bool): nat {
    if steal then index + 1 else index
  }

  lemma RestoredAt(insns: seq<Instruction>, index: nat, steal: bool, k: nat)
    requires index < |insns| && k < |insns|
    ensures var back := Inserted(Removed(insns, index), index, steal, [insns[index]]);
      && |back| == |insns|
      && (back[k] == insns[k] <==> (k == index || Target(insns, k) != Some(LostBoundary(index, steal))))
  {
    var now := Removed(insns, index);
    InsertedBlock(now, index, steal, [insns[index]]);
    if k == index {
      BlockElement(Inserted(now, index, steal, [insns[index]]), index, insns[index]);
    } else {
      RemovedIndex(insns, index, k);
      InsertedIndex(now, index, steal, [insns[index]], AfterRemoval(k, index));
      AdjustedForth(insns[k], index, steal);
    }
  }

  // ----- edits keep programs well formed -----

  lemma InsertionWellFormed(a: Arch, insns: seq<Instruction>, boundary: nat, steal: bool, block: seq<Instruction>)
    requires WellFormed(a, insns) && boundary <= |insns|
    requires WellFormedBlock(a, block, |insns| + |block| + 1)
    ensures WellFormed(a, Inserted(insns, boundary, steal, block))
  {
    var now := Inserted(insns, boundary, steal, block);
    InsertedBlock(insns, boundary, steal, block);
    forall k | 0 <= k < |now|
      ensures WellFormedInstruction(a, now[k], |now| + 1)
    {
      if boundary <= k < boundary + |block| {
        assert now[k] == now[boundary..boundary + |block|][k - boundary];
      } else {
        var j := if k < boundary then k else k - |block|;
        InsertedIndex(insns, boundary, steal, block, j);
        assert WellFormedInstruction(a, insns[j], |insns| + 1);
      }
    }
  }

  lemma RemovalWellFormed(a: Arch, insns: seq<Instruction>, index: nat)
    requires WellFormed(a, insns) && index < |insns|
    ensures WellFormed(a, Removed(insns, index))
  {
    var now := Removed(insns, index);
    forall k | 0 <= k < |now|
      ensures WellFormedInstruction(a, now[k], |now| + 1)
    {
      var j := if k < index then k else k + 1;
      RemovedIndex(insns, index, j);
      assert WellFormedInstruction(a, insns[j], |insns| + 1);
    }
  }

  lemma OverwritingWellFormed(a: Arch, insns: seq<Instruction>, index: nat, block: seq<Instruction>)
    requires WellFormed(a, insns) && index + |block| <= |insns|
    requires WellFormedBlock(a, block, |insns| + 1)
    ensures WellFormed(a, Overwritten(insns, index, block))
  {
    var now := Overwritten(insns, index, block);
    forall k | 0 <= k < |now|
      ensures WellFormedInstruction(a, now[k], |now| + 1)
    {
      OverwrittenIndex(insns, index, block, k);
    }
  }

  lemma RelaidWellFormed(a: Arch, insns: seq<Instruction>)
    requires WellFormed(a, insns)
    ensures WellFormed(a, Relaid(insns))
  {}

  // ----- sizes -----

  lemma {:induction false} SizeOfConcatenation(s: seq<Instruction>, t: seq<Instruction>)
    ensures ByteSize(s + t) == ByteSize(s) + ByteSize(t)
    decreases |t|
  {
    if t == [] {
      assert s + t == s;
    } else {
      var t' := t[..|t| - 1];
      SizeOfConcatenation(s, t');
      OffsetDependsOnSizes(s + t, s + t', |s + t'|);
      OffsetDependsOnSizes(t, t', |t'|);
      OffsetStep(s + t, |s + t'|);
      OffsetStep(t, |t'|);
    }
  }

  lemma SizeOfRemoval(insns: seq<Instruction>, index: nat)
    requires index < |insns|
    ensures ByteSize(Removed(insns, index)) == ByteSize(insns) - |insns[index].encoded|
  {
    var moved := Adjusted(insns, index + 1, -1);
    OffsetDependsOnSizes(moved, insns, |insns|);
    assert moved == moved[..index] + ([moved[index]] + moved[index + 1..]);
    SizeOfConcatenation(moved[..index], [moved[index]] + moved[index + 1..]);
    SizeOfConcatenation([moved[index]], moved[index + 1..]);
    SizeOfConcatenation(moved[..index], moved[index + 1..]);
    SizeOfOne(moved[index]);
  }

  lemma SizeOfOne(insn: Instruction)
    ensures ByteSize([insn]) == |insn.encoded|
  {
    OffsetStep([insn], 0);
  }

  lemma SizeOfInsertion(insns: seq<Instruction>, boundary: nat, steal: bool, block: seq<Instruction>)
    requires boundary <= |insns|
    ensures ByteSize(Inserted(insns, boundary, steal, block)) == ByteSize(insns) + ByteSize(block)
  {
    var moved := Adjusted(insns, InsertionPoint(boundary, steal), |block|);
    OffsetDependsOnSizes(moved, insns, |insns|);
    assert moved == moved[..boundary] + moved[boundary..];
    SizeOfConcatenation(moved[..boundary], moved[boundary..]);
    SizeOfConcatenation(moved[..boundary] + block, moved[boundary..]);
    SizeOfConcatenation(moved[..boundary], block);
  }

  lemma SizeOfUpdate(insns: seq<Instruction>, index: nat, insn: Instruction)
    requires index < |insns|
    ensures ByteSize(insns[index := insn]) == ByteSize(insns) - |insns[index].encoded| + |insn.encoded|
    ensures |insns[index].encoded| <= ByteSize(insns)
  {
    assert insns == insns[..index] + ([insns[index]] + insns[index + 1..]);
    assert insns[index := insn] == insns[..index] + ([insn] + insns[index + 1..]);
    SizeOfConcatenation(insns[..index], [insns[index]] + insns[index + 1..]);
    SizeOfConcatenation(insns[..index], [insn] + insns[index + 1..]);
    SizeOfConcatenation([insns[index]], insns[index + 1..]);
    SizeOfConcatenation([insn], insns[index + 1..]);
    SizeOfOne(insns[index]);
    SizeOfOne(insn);
  }
}
