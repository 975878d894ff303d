/**
  Commands that change mappings (mmap, mprotect, munmap), their effect on mapped memory, and
  what it means for a list of commands to reach given targets without doing anything else.
 */
module MappingCommands {
  import opened Wrappers
  import opened MemoryPerms
  import opened MappedMemoryMaps
  import opened MemoryTypes

  datatype Action = Map | Protect | Unmap

  datatype Cmd = Cmd(mapping: MemoryMapping, action: Action) {
    predicate Has(a: nat) { mapping.Has(a) }

    /** What an address of the range becomes. */
    function Effect(): Option<Perms> {
      if action.Unmap? then None else Some(mapping.perms.Plus(MAPPED))
    }
  }

  /** The permissions of an address, if it is mapped. */
  function At(m: PermsMap, a: nat): Option<Perms> {
    if a in m then Some(m[a]) else None
  }

  function Execute(m: PermsMap, c: Cmd): PermsMap {
    if c.action.Unmap? then Removed(m, c.mapping.start, c.mapping.limit, ALL_PLUS_MAPPED)
    else Assigned(m, c.mapping.start, c.mapping.limit, c.mapping.perms.Plus(MAPPED))
  }

  /** Only unmapped memory can be mapped; only mapped memory can be protected or unmapped. */
  ghost predicate Applicable(m: PermsMap, c: Cmd) {
    && c.mapping.Valid()
    && forall a | c.Has(a) :: a in m <==> !c.action.Map?
  }

  function ExecuteAll(m: PermsMap, cmds: seq<Cmd>): PermsMap {
    if cmds == [] then m else Execute(ExecuteAll(m, cmds[..|cmds| - 1]), cmds[|cmds| - 1])
  }

  ghost predicate AllApplicable(m: PermsMap, cmds: seq<Cmd>) {
    cmds != [] ==>
      var front := cmds[..|cmds| - 1];
      AllApplicable(m, front) && Applicable(ExecuteAll(m, front), cmds[|cmds| - 1])
  }

  ghost predicate Mentions(cmds: seq<Cmd>, a: nat) {
    exists i | 0 <= i < |cmds| :: cmds[i].Has(a)
  }

  predicate Apart(c: MemoryMapping, d: MemoryMapping) {
    c.limit <= d.start || d.limit <= c.start
  }

  predicate Disjoint(cmds: seq<Cmd>) {
    forall i, j | 0 <= i < j < |cmds| :: Apart(cmds[i].mapping, cmds[j].mapping)
  }

  lemma MentionsLast(cmds: seq<Cmd>, a: nat)
    requires cmds != []
    ensures Mentions(cmds, a) <==> Mentions(cmds[..|cmds| - 1], a) || cmds[|cmds| - 1].Has(a)
  {}

  // ----- targets -----

  /** Addresses with what they are to become: some permissions, or not mapped. */
  type Targets = map<nat, Option<Perms>>

  /** `m` with every target reached. */
  function Reached(m: PermsMap, t: Targets): PermsMap {
    map a | a in m.Keys + t.Keys && (a in t ==> t[a].Some?) :: if a in t then t[a].value else m[a]
  }

  /** A command that brings each of its addresses from `m` to its target. */
  ghost predicate Serves(m: PermsMap, t: Targets, c: Cmd) {
    && c.mapping.Valid()
    && forall a {:trigger c.Has(a)} | c.Has(a) ::
         && a in t
         && c.Effect() == t[a]
         && (a in m <==> !c.action.Map?)
         && At(m, a) != t[a]
  }

  /** Disjoint commands that mention exactly the addresses that are not yet at their targets. */
  ghost predicate Achieves(m: PermsMap, t: Targets, cmds: seq<Cmd>) {
    && Disjoint(cmds)
    && (forall i | 0 <= i < |cmds| :: Serves(m, t, cmds[i]))
    && (forall a {:trigger Mentions(cmds, a)} | a in t && At(m, a) != t[a] :: Mentions(cmds, a))
  }

  /** An address is mentioned exactly when its permissions change. */
  lemma MentionedIfChanged(m: PermsMap, t: Targets, cmds: seq<Cmd>, a: nat)
    requires Achieves(m, t, cmds)
    ensures Mentions(cmds, a) <==> a in t && At(m, a) != t[a]
  {}

  /** The state of an address after some of the commands. */
  lemma {:induction false} ExecutedAt(m: PermsMap, t: Targets, cmds: seq<Cmd>, a: nat)
    requires Disjoint(cmds) && forall i | 0 <= i < |cmds| :: Serves(m, t, cmds[i])
    ensures At(ExecuteAll(m, cmds), a) == if Mentions(cmds, a) then (if a in t then t[a] else None) else At(m, a)
    ensures Mentions(cmds, a) ==> a in t
    decreases |cmds|
  {
    if cmds != [] {
      var front, last := cmds[..|cmds| - 1], cmds[|cmds| - 1];
      ExecutedAt(m, t, front, a);
      MentionsLast(cmds, a);
      assert Serves(m, t, last);
      assert last.Has(a) || !last.Has(a);
    }
  }

  lemma {:induction false} ServedAreApplicable(m: PermsMap, t: Targets, cmds: seq<Cmd>)
    requires Disjoint(cmds) && forall i | 0 <= i < |cmds| :: Serves(m, t, cmds[i])
    ensures AllApplicable(m, cmds)
    decreases |cmds|
  {
    if cmds != [] {
      var front, last := cmds[..|cmds| - 1], cmds[|cmds| - 1];
      ServedAreApplicable(m, t, front);
      assert Serves(m, t, last);
      forall a | last.Has(a)
        ensures a in ExecuteAll(m, front) <==> !last.action.Map?
      {
        ExecutedAt(m, t, front, a);
        NotMentionedBefore(cmds, a);
      }
    }
  }

  lemma NotMentionedBefore(cmds: seq<Cmd>, a: nat)
    requires cmds != [] && Disjoint(cmds) && cmds[|cmds| - 1].Has(a)
    ensures !Mentions(cmds[..|cmds| - 1], a)
  {}

  /** The commands can be executed one after the other, and their effect is to reach the targets. */
  lemma AchievesEffect(m: PermsMap, t: Targets, cmds: seq<Cmd>)
    requires Achieves(m, t, cmds)
    ensures AllApplicable(m, cmds)
    ensures ExecuteAll(m, cmds) == Reached(m, t)
  {
    ServedAreApplicable(m, t, cmds);
    var after := ExecuteAll(m, cmds);
    forall a
      ensures At(after, a) == At(Reached(m, t), a)
    {
      ExecutedAt(m, t, cmds, a);
      MentionedIfChanged(m, t, cmds, a);
    }
    SameEverywhere(after, Reached(m, t));
  }

  lemma SameEverywhere(x: PermsMap, y: PermsMap)
    requires forall a :: At(x, a) == At(y, a)
    ensures x == y
  {
    forall a
      ensures a in x <==> a in y
      ensures a in x ==> x[a] == y[a]
    {
      assert At(x, a) == At(y, a);
    }
  }

  /** Commands for separate targets can be put one after the other. */
  lemma AchievesBoth(m: PermsMap, t: Targets, cmds: seq<Cmd>, t': Targets, cmds': seq<Cmd>)
    requires Achieves(m, t, cmds) && Achieves(m, t', cmds') && t.Keys !! t'.Keys
    ensures Achieves(m, t + t', cmds + cmds')
  {
    var all := cmds + cmds';
    forall i | 0 <= i < |all|
      ensures Serves(m, t + t', all[i])
    {
      if i < |cmds| {
        ServesMore(m, t, t + t', all[i]);
      } else {
        assert all[i] == cmds'[i - |cmds|];
        ServesMore(m, t', t + t', all[i]);
      }
    }
    forall i, j | 0 <= i < j < |all|
      ensures Apart(all[i].mapping, all[j].mapping)
    {
      if i < |cmds| <= j {
        assert all[j] == cmds'[j - |cmds|];
        ServedApart(m, t, cmds[i], t', cmds'[j - |cmds|]);
      } else if |cmds| <= i {
        assert all[i] == cmds'[i - |cmds|] && all[j] == cmds'[j - |cmds|];
      }
    }
    forall a | a in t + t' && At(m, a) != (t + t')[a]
      ensures Mentions(all, a)
    {
      if a in t {
        assert Mentions(cmds, a);
        var i :| 0 <= i < |cmds| && cmds[i].Has(a);
        assert all[i].Has(a);
      } else {
        assert Mentions(cmds', a);
        var i :| 0 <= i < |cmds'| && cmds'[i].Has(a);
        assert all[|cmds| + i].Has(a);
      }
    }
  }

  lemma ServesMore(m: PermsMap, t: Targets, all: Targets, c: Cmd)
    requires Serves(m, t, c) && forall a | a in t :: a in all && all[a] == t[a]
    ensures Serves(m, all, c)
  {}

  lemma ServedApart(m: PermsMap, t: Targets, c: Cmd, t': Targets, c': Cmd)
    requires Serves(m, t, c) && Serves(m, t', c') && t.Keys !! t'.Keys
    ensures Apart(c.mapping, c'.mapping)
  {
    var a := if c.mapping.start < c'.mapping.start then c'.mapping.start else c.mapping.start;
    assert c.Has(a) ==> a in t.Keys;
    assert c'.Has(a) ==> a in t'.Keys;
  }
}
