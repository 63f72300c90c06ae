/**
  Reduced-error style random pruning, on tree values.

  One pruning step turns the node carrying a given id into a leaf that keeps
  its id, height and label counts and takes the majority label of those
  counts; its subtrees disappear. A pruning pass draws ids from a given
  sequence: a draw is redrawn while it was already used or names a leaf, an
  accepted draw is recorded and uses up one round, whether or not a node
  carries it.
 */
module Pruning {
  import opened TreeModel

  /** A node as a leaf: same id, height and counts, the majority label, no children. */
  function ToLeaf(t: Tree): (r: Tree)
    requires t.Node?
    ensures WellFormed(r) && Ids(r) == {t.id} && Size(r) == 1
  {
    MakeLeaf(t.id, t.height, t.zeroCount, t.oneCount)
  }

  /** The node without its children: the fields a pruning step may not touch unless it prunes that node. */
  function Detach(t: Tree): Tree
    requires t.Node?
  {
    t.(left := Nil, right := Nil)
  }

  /** The tree with the node carrying `id` turned into a leaf. */
  function PruneAt(t: Tree, id: int): (r: Tree)
    ensures r.Nil? <==> t.Nil?
    ensures r.Node? ==> r.id == t.id && r.height == t.height && r.zeroCount == t.zeroCount && r.oneCount == t.oneCount
  {
    if t.Nil? then Nil
    else if t.id == id then ToLeaf(t)
    else Node(t.id, t.height, t.attribute, t.classLabel, t.zeroCount, t.oneCount,
              PruneAt(t.left, id), PruneAt(t.right, id))
  }

  /** Pruning an id that no node carries changes nothing. */
  lemma {:induction false} PruneAtAbsent(t: Tree, id: int)
    requires id !in Ids(t)
    ensures PruneAt(t, id) == t
  {
    if t.Node? {
      PruneAtAbsent(t.left, id);
      PruneAtAbsent(t.right, id);
    }
  }

  /**
    Pruning keeps ids unique, leaves well formed and heights intact, and
    removes exactly the ids below the pruned node.
   */
  lemma PruneAtKeeps(t: Tree, id: int, h: int)
    requires UniqueIds(t) && WellFormed(t) && HeightsFrom(t, h)
    ensures var r := PruneAt(t, id);
      && UniqueIds(r) && WellFormed(r) && HeightsFrom(r, h)
      && Ids(r) <= Ids(t) && Size(r) <= Size(t)
      && (Lookup(t, id).Some? ==>
            Ids(r) == Ids(t) - Ids(Lookup(t, id).value.left) - Ids(Lookup(t, id).value.right))
  {
    PruneAtUnique(t, id);
    PruneAtShape(t, id, h);
    PruneAtIds(t, id);
    if Lookup(t, id).Some? {
      PruneAtRemoves(t, id);
    }
  }

  /** Pruning leaves the tree well formed, keeps every height and never adds a node. */
  lemma {:induction false} PruneAtShape(t: Tree, id: int, h: int)
    requires WellFormed(t) && HeightsFrom(t, h)
    ensures WellFormed(PruneAt(t, id)) && HeightsFrom(PruneAt(t, id), h) && Size(PruneAt(t, id)) <= Size(t)
  {
    if t.Node? && t.id != id {
      PruneAtShape(t.left, id, h + 1);
      PruneAtShape(t.right, id, h + 1);
    }
  }

  /** Pruning a node that occurs removes exactly the ids of its two subtrees. */
  lemma {:induction false} PruneAtRemoves(t: Tree, id: int)
    requires UniqueIds(t) && Lookup(t, id).Some?
    ensures Ids(PruneAt(t, id)) == Ids(t) - Ids(Lookup(t, id).value.left) - Ids(Lookup(t, id).value.right)
  {
    if t.id != id {
      LookupFinds(t.left, id);
      LookupFinds(t.right, id);
      if Lookup(t.left, id).Some? {
        PruneAtRemoves(t.left, id);
        PruneAtAbsent(t.right, id);
        var s := Lookup(t.left, id).value;
        SubtreeOfLookup(t.left, id);
        SubtreeIds(s.left, t.left);
        SubtreeIds(s.right, t.left);
      } else {
        PruneAtRemoves(t.right, id);
        PruneAtAbsent(t.left, id);
        var s := Lookup(t.right, id).value;
        SubtreeOfLookup(t.right, id);
        SubtreeIds(s.left, t.right);
        SubtreeIds(s.right, t.right);
      }
    }
  }

  /** The children of a node found by lookup are subtrees of the tree searched. */
  lemma {:induction false} SubtreeOfLookup(t: Tree, id: int)
    requires Lookup(t, id).Some?
    ensures IsSubtree(Lookup(t, id).value, t)
    ensures Lookup(t, id).value.Node?
    ensures IsSubtree(Lookup(t, id).value.left, t) && IsSubtree(Lookup(t, id).value.right, t)
  {
    if t.id != id {
      if Lookup(t.left, id).Some? {
        SubtreeOfLookup(t.left, id);
      } else {
        SubtreeOfLookup(t.right, id);
      }
    }
  }

  /** After pruning, the id names a leaf with the pruned node's id, height and counts. */
  lemma {:induction false} PruneAtMakesLeaf(t: Tree, id: int)
    requires UniqueIds(t) && Lookup(t, id).Some?
    ensures Lookup(PruneAt(t, id), id) == Some(ToLeaf(Lookup(t, id).value))
  {
    if t.id != id {
      LookupFinds(t.left, id);
      LookupFinds(t.right, id);
      if Lookup(t.left, id).Some? {
        PruneAtMakesLeaf(t.left, id);
      } else {
        PruneAtAbsent(t.left, id);
        PruneAtMakesLeaf(t.right, id);
      }
    }
  }

  /**
    Every other node that survives the pruning step keeps its own fields
    (only the children below it may have changed).
   */
  lemma {:induction false} PruneAtKeepsOthers(t: Tree, id: int, d: int)
    requires UniqueIds(t) && d != id && d in Ids(PruneAt(t, id))
    ensures Lookup(t, d).Some? && Lookup(PruneAt(t, id), d).Some?
    ensures Detach(Lookup(PruneAt(t, id), d).value) == Detach(Lookup(t, d).value)
  {
    var r := PruneAt(t, id);
    if t.id != id && t.id != d {
      PruneAtIds(t.left, id);
      PruneAtIds(t.right, id);
      LookupFinds(t.left, d);
      LookupFinds(r.left, d);
      if d in Ids(r.left) {
        PruneAtKeepsOthers(t.left, id, d);
      } else {
        PruneAtKeepsOthers(t.right, id, d);
        assert d !in Ids(t.left) by {
          assert d in Ids(t.right);
        }
      }
    }
  }

  /** Pruning never introduces an id, whatever the tree. */
  lemma {:induction false} PruneAtIds(t: Tree, id: int)
    ensures Ids(PruneAt(t, id)) <= Ids(t)
  {
    if t.Node? && t.id != id {
      PruneAtIds(t.left, id);
      PruneAtIds(t.right, id);
    }
  }

  /** The result of a pruning pass and the ids it accepted, in order. */
  datatype Pruned = Pruned(tree: Tree, used: seq<int>)

  /** A draw is redrawn when it was used before or names a leaf. */
  predicate Rejected(t: Tree, used: seq<int>, d: int): (b: bool)
    ensures d !in Ids(t) ==> (b <==> d in used)
  {
    LookupFinds(t, d);
    d in used || (Lookup(t, d).Some? && Lookup(t, d).value.classLabel.Some?)
  }

  /**
    A pruning pass of `rounds` rounds over the draws; it stops early when
    the draws run out.
   */
  function PruneRounds(t: Tree, rounds: int, draws: seq<int>, used: seq<int>): (r: Pruned)
    ensures |used| <= |r.used| <= |used| + |draws|
    ensures rounds <= 0 ==> r == Pruned(t, used)
    decreases |draws|
  {
    if rounds <= 0 || draws == [] then Pruned(t, used)
    else if Rejected(t, used, draws[0]) then PruneRounds(t, rounds, draws[1..], used)
    else PruneRounds(PruneAt(t, draws[0]), rounds - 1, draws[1..], used + [draws[0]])
  }

  /**
    A pruning pass keeps ids unique, the tree well formed and its heights,
    never adds a node, and accepts at most `rounds` ids, none twice.
   */
  lemma {:induction false} PruneRoundsKeeps(t: Tree, rounds: int, draws: seq<int>, used: seq<int>, h: int)
    requires UniqueIds(t) && WellFormed(t) && HeightsFrom(t, h)
    ensures var r := PruneRounds(t, rounds, draws, used);
      && UniqueIds(r.tree) && WellFormed(r.tree) && HeightsFrom(r.tree, h)
      && Ids(r.tree) <= Ids(t) && Size(r.tree) <= Size(t)
      && |used| <= |r.used| && r.used[..|used|] == used
      && |r.used| - |used| <= (if rounds <= 0 then 0 else rounds)
      && forall j :: |used| <= j < |r.used| ==> r.used[j] !in r.used[..j]
    decreases |draws|
  {
    if rounds > 0 && draws != [] {
      var d := draws[0];
      if Rejected(t, used, d) {
        PruneRoundsKeeps(t, rounds, draws[1..], used, h);
      } else {
        PruneAtKeeps(t, d, h);
        var used' := used + [d];
        PruneRoundsKeeps(PruneAt(t, d), rounds - 1, draws[1..], used', h);
        var r := PruneRounds(PruneAt(t, d), rounds - 1, draws[1..], used');
        assert r.used[..|used'|] == used';
        assert r.used[..|used|] == used by {
          assert r.used[..|used|] == r.used[..|used'|][..|used|];
        }
        forall j | |used| <= j < |r.used|
          ensures r.used[j] !in r.used[..j]
        {
          if j == |used| {
            assert r.used[j] == d && r.used[..j] == used;
          }
        }
      }
    }
  }

  /** Every accepted id that a node still carries names a leaf. */
  predicate UsedAreLeaves(t: Tree, used: seq<int>)
  {
    forall d :: d in used && d in Ids(t) ==> Lookup(t, d).Some? && Lookup(t, d).value.classLabel.Some?
  }

  /**
    After a pruning pass, each accepted id either no longer occurs (an
    ancestor was pruned) or names a leaf.
   */
  lemma {:induction false} PruneRoundsLeaves(t: Tree, rounds: int, draws: seq<int>, used: seq<int>)
    requires UniqueIds(t) && UsedAreLeaves(t, used)
    ensures UsedAreLeaves(PruneRounds(t, rounds, draws, used).tree, PruneRounds(t, rounds, draws, used).used)
    decreases |draws|
  {
    if rounds > 0 && draws != [] {
      var d := draws[0];
      if Rejected(t, used, d) {
        PruneRoundsLeaves(t, rounds, draws[1..], used);
      } else {
        var p := PruneAt(t, d);
        PruneStepLeaves(t, d, used);
        PruneRoundsLeaves(p, rounds - 1, draws[1..], used + [d]);
      }
    }
  }

  /** One accepted step keeps the accepted ids on leaves and puts the new one on a leaf. */
  lemma PruneStepLeaves(t: Tree, d: int, used: seq<int>)
    requires UniqueIds(t) && UsedAreLeaves(t, used)
    ensures UniqueIds(PruneAt(t, d))
    ensures UsedAreLeaves(PruneAt(t, d), used + [d])
  {
    var p := PruneAt(t, d);
    PruneAtUnique(t, d);
    forall e | e in used + [d] && e in Ids(p)
      ensures Lookup(p, e).Some? && Lookup(p, e).value.classLabel.Some?
    {
      LookupFinds(p, e);
      if e == d {
        LookupFinds(t, d);
        PruneAtIds(t, d);
        PruneAtMakesLeaf(t, d);
      } else {
        PruneAtKeepsOthers(t, d, e);
        PruneAtIds(t, d);
      }
    }
  }

  /** Pruning keeps ids unique, on any tree. */
  lemma {:induction false} PruneAtUnique(t: Tree, id: int)
    requires UniqueIds(t)
    ensures UniqueIds(PruneAt(t, id))
  {
    if t.Node? && t.id != id {
      PruneAtUnique(t.left, id);
      PruneAtUnique(t.right, id);
      PruneAtIds(t.left, id);
      PruneAtIds(t.right, id);
    }
  }
}
