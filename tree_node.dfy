/**
  The mutable tree node of the learner and its value view.

  `Repr` is the ghost footprint of a node: the node and everything below it.
  A subtree's footprint may be larger than the nodes still reachable from
  it, because pruning cuts children off without shrinking the footprint of
  the ancestors; `Reaches` describes the nodes actually reachable.
 */
module TreeNodes {
  import opened TreeModel
  import opened Pruning

  class TreeNode {
    var id: int
    var height: int
    var attribute: Option<string>
    var classLabel: Option<string>
    var zeroCount: int
    var oneCount: int
    var left: TreeNode?
    var right: TreeNode?
    ghost var Repr: set<TreeNode>

    ghost predicate Valid()
      reads this, Repr
      decreases Repr
    {
      && this in Repr
      && (left != null ==>
            left in Repr && left.Repr <= Repr && this !in left.Repr && left.Valid())
      && (right != null ==>
            right in Repr && right.Repr <= Repr && this !in right.Repr && right.Valid())
      && (left != null && right != null ==> left.Repr !! right.Repr)
    }

    /** The tree value this node stands for; a null child is `Nil`. */
    ghost function Model(): Tree
      reads this, Repr
      requires Valid()
      decreases Repr
    {
      Node(id, height, attribute, classLabel, zeroCount, oneCount,
           if left == null then Nil else left.Model(),
           if right == null then Nil else right.Model())
    }

    /** `n` is this node or lies below it. */
    ghost predicate Reaches(n: TreeNode)
      reads this, Repr
      requires Valid()
      decreases Repr
    {
      n == this || (left != null && left.Reaches(n)) || (right != null && right.Reaches(n))
    }

    /** A new node without children. */
    constructor (id: int, height: int, attribute: Option<string>, classLabel: Option<string>,
                 zeroCount: int, oneCount: int)
      ensures Valid() && Repr == {this}
      ensures this.id == id && this.height == height && this.attribute == attribute
      ensures this.classLabel == classLabel && this.zeroCount == zeroCount && this.oneCount == oneCount
      ensures this.left == null && this.right == null
      ensures Model() == Node(id, height, attribute, classLabel, zeroCount, oneCount, Nil, Nil)
    {
      this.id := id;
      this.height := height;
      this.attribute := attribute;
      this.classLabel := classLabel;
      this.zeroCount := zeroCount;
      this.oneCount := oneCount;
      this.left := null;
      this.right := null;
      Repr := {this};
    }

    /** A new node over two existing, disjoint trees. */
    constructor Join(id: int, height: int, attribute: Option<string>, classLabel: Option<string>,
                     zeroCount: int, oneCount: int, l: TreeNode?, r: TreeNode?,
                     ghost lm: Tree, ghost rm: Tree, ghost below: set<TreeNode>)
      requires ValidTree(l) && ValidTree(r) && ModelOf(l) == lm && ModelOf(r) == rm
      requires ReprOf(l) !! ReprOf(r) && below == ReprOf(l) + ReprOf(r)
      ensures Valid() && Repr == {this} + below
      ensures left == l && right == r
      ensures Model() == Node(id, height, attribute, classLabel, zeroCount, oneCount, lm, rm)
    {
      this.id := id;
      this.height := height;
      this.attribute := attribute;
      this.classLabel := classLabel;
      this.zeroCount := zeroCount;
      this.oneCount := oneCount;
      this.left := l;
      this.right := r;
      Repr := {this} + below;
      new;
      assert ValidTree(l) && ModelOf(l) == lm;
      assert ValidTree(r) && ModelOf(r) == rm;
    }

    /**
      Hangs two trees below this node: the parent's own field
      writes `left := l; right := r`, together with the footprint update.
     */
    method Link(l: TreeNode?, r: TreeNode?, ghost lm: Tree, ghost rm: Tree, ghost lr: set<TreeNode>, ghost rr: set<TreeNode>)
      requires ValidTree(l) && ValidTree(r) && ModelOf(l) == lm && ModelOf(r) == rm
      requires ReprOf(l) == lr && ReprOf(r) == rr && this !in lr && this !in rr && lr !! rr
      modifies this`left, this`right, this`Repr
      ensures Valid() && Repr == {this} + (lr + rr)
      ensures left == l && right == r
      ensures Model() == Node(id, height, attribute, classLabel, zeroCount, oneCount, lm, rm)
    {
      left := l;
      right := r;
      Repr := {this} + (lr + rr);
      assert ValidTree(l) && ModelOf(l) == lm;
      assert ValidTree(r) && ModelOf(r) == rm;
    }
  }

  ghost function ReprOf(n: TreeNode?): set<TreeNode>
    reads n
  {
    if n == null then {} else n.Repr
  }

  ghost predicate ValidTree(n: TreeNode?)
    reads n, ReprOf(n)
  {
    n == null || n.Valid()
  }

  ghost function ModelOf(n: TreeNode?): Tree
    reads n, ReprOf(n)
    requires ValidTree(n)
  {
    if n == null then Nil else n.Model()
  }

  /** A node reachable from a valid node is valid, inside its footprint, and its tree is a subtree. */
  lemma {:induction false} ReachValid(a: TreeNode, n: TreeNode)
    requires a.Valid() && a.Reaches(n)
    ensures n in a.Repr && n.Repr <= a.Repr && n.Valid()
    ensures IsSubtree(n.Model(), a.Model())
    decreases a.Repr
  {
    if n != a {
      if a.left != null && a.left.Reaches(n) {
        ReachValid(a.left, n);
      } else {
        ReachValid(a.right, n);
      }
    }
  }

  /** The children of a reachable node are reachable. */
  lemma {:induction false} ReachChildren(a: TreeNode, n: TreeNode)
    requires a.Valid() && a.Reaches(n)
    ensures n.Valid()
    ensures n.left != null ==> a.Reaches(n.left)
    ensures n.right != null ==> a.Reaches(n.right)
    decreases a.Repr
  {
    ReachValid(a, n);
    if n != a {
      if a.left != null && a.left.Reaches(n) {
        ReachChildren(a.left, n);
      } else {
        ReachChildren(a.right, n);
      }
    }
  }

  /** With unique ids, looking up a reachable node's id finds that node's tree. */
  lemma ReachLookup(a: TreeNode, n: TreeNode)
    requires a.Valid() && a.Reaches(n) && UniqueIds(a.Model())
    ensures n.Valid() && Lookup(a.Model(), n.id) == Some(n.Model())
  {
    ReachValid(a, n);
    LookupSubtree(a.Model(), n.Model());
  }

  /**
    The nodes from `a` down to the reachable node `n`, each a child of the
    one before, with what the pruning proof needs to know about them.
   */
  ghost function Path(a: TreeNode, n: TreeNode): (p: seq<TreeNode>)
    reads a, a.Repr
    requires a.Valid() && a.Reaches(n)
    ensures |p| >= 1 && p[0] == a && p[|p| - 1] == n
    ensures forall i :: 0 <= i < |p| ==>
      && p[i] in a.Repr && p[i].Valid() && p[i].Repr <= a.Repr
      && n in p[i].Repr && n.id in Ids(p[i].Model())
    ensures forall i :: 0 <= i < |p| - 1 ==> p[i + 1] == p[i].left || p[i + 1] == p[i].right
    ensures UniqueIds(a.Model()) ==> forall i :: 0 <= i < |p| ==> UniqueIds(p[i].Model())
    decreases a.Repr
  {
    if a == n then [a]
    else if a.left != null && a.left.Reaches(n) then [a] + Path(a.left, n)
    else [a] + Path(a.right, n)
  }

  /**
    Turning the last node of the path `p` into a leaf in place, by
    overwriting its children, attribute and class label and touching no
    other node, changes the tree below the first node of the path exactly
    as `PruneAt` does.
   */
  twostate lemma PruneInPlace(p: seq<TreeNode>)
    requires |p| >= 1 && old(p[0].Valid()) && old(p[0].Reaches(p[|p| - 1]))
    requires old(Path(p[0], p[|p| - 1])) == p && old(UniqueIds(p[0].Model()))
    requires unchanged(old(p[0].Repr) - {p[|p| - 1]})
    requires var cur := p[|p| - 1];
      && cur.id == old(cur.id) && cur.height == old(cur.height)
      && cur.zeroCount == old(cur.zeroCount) && cur.oneCount == old(cur.oneCount)
      && cur.left == null && cur.right == null && cur.attribute.None?
      && cur.classLabel == Some(ClassLabel(cur.zeroCount, cur.oneCount)) && cur.Repr == {cur}
    ensures p[0].Valid() && p[0].Repr <= old(p[0].Repr)
    ensures p[0].Model() == PruneAt(old(p[0].Model()), p[|p| - 1].id)
  {
    var a, cur := p[0], p[|p| - 1];
    var i := |p| - 1;
    assert cur.Model() == PruneAt(old(cur.Model()), cur.id);
    while i > 0
      invariant 0 <= i < |p|
      invariant p[i].Valid() && p[i].Repr <= old(p[i].Repr)
      invariant p[i].Model() == PruneAt(old(p[i].Model()), cur.id)
      decreases i
    {
      var q, c := p[i - 1], p[i];
      assert q != cur && q in old(a.Repr);
      var o := if c == q.left then q.right else q.left;
      if o != null {
        assert cur !in old(o.Repr);
        assert unchanged(old(o.Repr));
        assert o.Valid() && o.Model() == old(o.Model());
        assert cur.id !in Ids(old(o.Model()));
        PruneAtAbsent(old(o.Model()), cur.id);
      }
      i := i - 1;
    }
  }

  /**
    Turns the reachable decision node `cur` into a leaf in place: no
    children, no attribute, the majority label of its counts. The tree
    below `a` changes exactly as `PruneAt` says.
   */
  method PruneToLeaf(a: TreeNode, cur: TreeNode)
    requires a.Valid() && a.Reaches(cur) && UniqueIds(a.Model())
    modifies cur
    ensures a.Valid() && a.Repr <= old(a.Repr)
    ensures cur.id == old(cur.id) && a.Model() == PruneAt(old(a.Model()), cur.id)
  {
    ghost var p := Path(a, cur);
    cur.left := null;
    cur.right := null;
    cur.classLabel := Some(ClassLabel(cur.zeroCount, cur.oneCount));
    cur.attribute := None;
    cur.Repr := {cur};
    PruneInPlace(p);
  }
}
