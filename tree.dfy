/**
  The value view of an ID3 decision tree.

  A `Tree` mirrors one `TreeNode` of the learner field by field: a Java
  `null` reference becomes `Nil`, a `null` string field becomes `None`.
  A node is a leaf when its class label is set and a decision node when
  its split attribute is set.
 */
module TreeModel {

  datatype Option<T> = None | Some(value: T)

  datatype Tree =
    | Nil
    | Node(id: int, height: int, attribute: Option<string>, classLabel: Option<string>,
           zeroCount: int, oneCount: int, left: Tree, right: Tree)

  /** The majority rule: "0" when label 0 is at least as frequent as label 1. */
  function ClassLabel(zero: int, one: int): (r: string)
    ensures r == "0" || r == "1"
    ensures r == "0" <==> zero >= one
  {
    if zero >= one then "0" else "1"
  }

  /** Number of labels equal to "0". */
  function ZeroCount(labels: seq<string>): (r: nat)
    ensures r <= |labels|
  {
    multiset(labels)["0"]
  }

  /** A leaf as the builder and the pruner create it. */
  function MakeLeaf(id: int, height: int, zero: int, one: int): Tree
  {
    Node(id, height, None, Some(ClassLabel(zero, one)), zero, one, Nil, Nil)
  }

  function Size(t: Tree): nat
  {
    if t.Nil? then 0 else 1 + Size(t.left) + Size(t.right)
  }

  function LeafCount(t: Tree): nat
  {
    if t.Nil? then 0
    else (if t.classLabel.Some? then 1 else 0) + LeafCount(t.left) + LeafCount(t.right)
  }

  function Ids(t: Tree): set<int>
  {
    if t.Nil? then {} else {t.id} + Ids(t.left) + Ids(t.right)
  }

  /** No id occurs twice in the tree. */
  predicate UniqueIds(t: Tree)
  {
    t.Nil? ||
    (&& t.id !in Ids(t.left) && t.id !in Ids(t.right)
     && Ids(t.left) !! Ids(t.right)
     && UniqueIds(t.left) && UniqueIds(t.right))
  }

  /**
    The subtree rooted at the first node with the given id, in preorder.
    The learner searches breadth-first; the two searches find the same node
    whenever ids are unique, as they are in every tree the learner builds
    (`BuildIds`) and prunes (`PruneAtUnique`).
   */
  function Lookup(t: Tree, id: int): (r: Option<Tree>)
    ensures r.Some? ==> r.value.Node? && r.value.id == id
  {
    if t.Nil? then None
    else if t.id == id then Some(t)
    else match Lookup(t.left, id)
      case Some(s) => Some(s)
      case None => Lookup(t.right, id)
  }

  /** The split attributes used anywhere in the tree. */
  function Attributes(t: Tree): set<string>
  {
    if t.Nil? then {}
    else (if t.attribute.Some? then {t.attribute.value} else {}) + Attributes(t.left) + Attributes(t.right)
  }

  /** Every node is exactly one of the two variants, and every leaf carries its majority label. */
  predicate WellFormed(t: Tree)
  {
    t.Nil? ||
    (&& (t.classLabel.Some? ==>
           t.attribute.None? && t.left.Nil? && t.right.Nil? &&
           t.classLabel.value == ClassLabel(t.zeroCount, t.oneCount))
     && (t.classLabel.None? ==> t.attribute.Some?)
     && WellFormed(t.left) && WellFormed(t.right))
  }

  /** The root has height `h` and every child is one deeper than its parent. */
  predicate HeightsFrom(t: Tree, h: int)
  {
    t.Nil? || (t.height == h && HeightsFrom(t.left, h + 1) && HeightsFrom(t.right, h + 1))
  }

  /** No attribute is split on twice along a root-to-leaf path. */
  predicate SplitsOnce(t: Tree)
  {
    t.Nil? ||
    (&& (t.attribute.Some? ==>
           t.attribute.value !in Attributes(t.left) && t.attribute.value !in Attributes(t.right))
     && SplitsOnce(t.left) && SplitsOnce(t.right))
  }

  /** A tree never has more leaves than nodes. */
  lemma {:induction false} LeafCountBound(t: Tree)
    ensures LeafCount(t) <= Size(t)
  {
    if t.Node? {
      LeafCountBound(t.left);
      LeafCountBound(t.right);
    }
  }

  /** In a tree with unique ids, there are exactly as many ids as nodes. */
  lemma {:induction false} UniqueIdsCount(t: Tree)
    requires UniqueIds(t)
    ensures |Ids(t)| == Size(t)
  {
    if t.Node? {
      UniqueIdsCount(t.left);
      UniqueIdsCount(t.right);
      assert {t.id} !! Ids(t.left) + Ids(t.right);
    }
  }

  /** Lookup finds a node exactly when the id occurs, and the node found carries that id. */
  lemma {:induction false} LookupFinds(t: Tree, id: int)
    ensures Lookup(t, id).Some? <==> id in Ids(t)
    ensures Lookup(t, id).Some? ==> Lookup(t, id).value.Node? && Lookup(t, id).value.id == id
  {
    if t.Node? && t.id != id {
      LookupFinds(t.left, id);
      LookupFinds(t.right, id);
    }
  }

  /** In a tree with unique ids, the lookup of an id finds the subtree of the node carrying it. */
  lemma {:induction false} LookupSubtree(t: Tree, s: Tree)
    requires UniqueIds(t) && s.Node? && IsSubtree(s, t)
    ensures Lookup(t, s.id) == Some(s)
  {
    if t != s {
      if IsSubtree(s, t.left) {
        LookupSubtree(t.left, s);
        SubtreeIds(s, t.left);
      } else {
        LookupSubtree(t.right, s);
        SubtreeIds(s, t.right);
        LookupFinds(t.left, s.id);
      }
    }
  }

  /** `s` occurs in `t` (as `t` itself or inside one of its children). */
  predicate IsSubtree(s: Tree, t: Tree)
  {
    s == t || (t.Node? && (IsSubtree(s, t.left) || IsSubtree(s, t.right)))
  }

  lemma {:induction false} SubtreeIds(s: Tree, t: Tree)
    requires IsSubtree(s, t)
    ensures Ids(s) <= Ids(t)
  {
    if s != t {
      if IsSubtree(s, t.left) { SubtreeIds(s, t.left); } else { SubtreeIds(s, t.right); }
    }
  }
}
