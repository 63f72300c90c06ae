/**
  The tree that the recursive ID3 builder constructs, as a function of its
  inputs: the attribute table, the label list, the height of the node, the
  next free node id and the attribute chooser.

  The chooser stands for the information-gain search: it returns either ""
  (no attribute has positive gain) or one of the attributes of the table.
 */
module Builder {
  import opened TreeModel
  import opened Partition

  type Chooser = (Table, seq<string>) -> string

  ghost predicate ValidChooser(choose: Chooser)
  {
    forall m: Table, l: seq<string> :: choose(m, l) == "" || choose(m, l) in m
  }

  /**
    The parent entropy of a label list is zero exactly when one of the two
    classes is absent; the leaf made then carries the class that is present.
   */
  predicate EntropyIsZero(zero: int, one: int): (b: bool)
    ensures b && 0 <= zero && 0 <= one && zero + one > 0 ==> ClassLabel(zero, one) == (if one == 0 then "0" else "1")
  {
    zero == 0 || one == 0
  }

  /** Every label is "0" exactly when the "0" labels are all of them. */
  lemma {:induction false} AllZeroCount(labels: seq<string>)
    ensures ZeroCount(labels) == |labels| <==> forall i :: 0 <= i < |labels| ==> labels[i] == "0"
    decreases |labels|
  {
    if labels != [] {
      var n := |labels| - 1;
      AllZeroCount(labels[..n]);
      assert labels == labels[..n] + [labels[n]];
      assert multiset(labels) == multiset(labels[..n]) + multiset{labels[n]};
      assert forall i :: 0 <= i < n ==> labels[..n][i] == labels[i];
    }
  }

  /** The purity test on the counts holds exactly when all labels are of one class. */
  lemma PureLabels(labels: seq<string>)
    ensures EntropyIsZero(ZeroCount(labels), |labels| - ZeroCount(labels)) <==>
      (forall i :: 0 <= i < |labels| ==> labels[i] == "0") || (forall i :: 0 <= i < |labels| ==> labels[i] != "0")
  {
    AllZeroCount(labels);
    if ZeroCount(labels) != 0 {
      assert "0" in multiset(labels);
      var i :| 0 <= i < |labels| && labels[i] == "0";
    }
  }

  lemma RemoveKeySize(table: Table, a: string)
    requires a in table
    ensures |table - {a}| == |table| - 1
  {
    assert (table - {a}).Keys == table.Keys - {a};
  }

  /** The instance positions that go to the left ("0") or to the right child. */
  function ChildIndices(col: seq<string>, zeroSide: bool): (r: seq<int>)
    ensures IndicesWithin(r, |col|)
  {
    if zeroSide then ZeroIndices(col) else OtherIndices(col)
  }

  /** The labels a child is built from. */
  function ChildLabels(table: Table, labels: seq<string>, a: string, zeroSide: bool): (r: seq<string>)
    requires Aligned(table, labels) && a in table
  {
    Project(labels, ChildIndices(table[a], zeroSide))
  }

  /** The table a child is built from: the split attribute removed, every other column projected. */
  function ChildTable(table: Table, labels: seq<string>, a: string, zeroSide: bool): (r: Table)
    requires Aligned(table, labels) && a in table
    ensures r.Keys == table.Keys - {a} && |r| == |table| - 1
    ensures Aligned(r, ChildLabels(table, labels, a, zeroSide))
  {
    var rest := table - {a};
    var idx := ChildIndices(table[a], zeroSide);
    RemoveKeySize(table, a);
    PurifyAligned(rest, labels, idx);
    Purify(rest, idx)
  }

  /** A built subtree and the next free node id after it. */
  datatype Built = Built(tree: Tree, next: int)

  /**
    The tree built for `table` and `labels`. Node ids are handed out in
    preorder from the counter `nextId`, which the left subtree advances
    before the right one starts.
   */
  function BuildTree(table: Table, labels: seq<string>, height: int, nextId: int, choose: Chooser): (r: Built)
    requires ValidChooser(choose) && Aligned(table, labels)
    ensures r.tree.Nil? <==> |labels| == 0 || |table| == 0
    ensures r.tree.Node? ==> r.tree.id == nextId && r.tree.height == height
    decreases |table|, 3
  {
    if |labels| == 0 || |table| == 0 then Built(Nil, nextId)
    else
      var zero := ZeroCount(labels);
      var one := |labels| - zero;
      if EntropyIsZero(zero, one) then Built(MakeLeaf(nextId, height, zero, one), nextId + 1)
      else
        var a := choose(table, labels);
        if a == "" then Built(MakeLeaf(nextId, height, zero, one), nextId + 1)
        else BuildNode(table, labels, height, nextId, choose, a)
  }

  /**
    The decision node on `a`: it takes the next id and records the label
    counts, its left child is built from the rows where `a` is "0" and its
    right child, numbered after the left one, from the other rows.
   */
  function BuildNode(table: Table, labels: seq<string>, height: int, nextId: int, choose: Chooser, a: string): (r: Built)
    requires ValidChooser(choose) && Aligned(table, labels) && a in table
    ensures r.tree.Node? && r.tree.id == nextId && r.tree.height == height
    ensures r.tree.attribute == Some(a) && r.tree.classLabel.None?
    decreases |table|, 2
  {
    var l := ChildBuild(table, labels, a, true, height, nextId + 1, choose);
    var r := ChildBuild(table, labels, a, false, height, l.next, choose);
    var zero := ZeroCount(labels);
    Built(Node(nextId, height, Some(a), None, zero, |labels| - zero, l.tree, r.tree), r.next)
  }

  /** The build of one child of a split on `a`, one level deeper, numbered from `start`. */
  function ChildBuild(table: Table, labels: seq<string>, a: string, zeroSide: bool, height: int, start: int,
                      choose: Chooser): Built
    requires ValidChooser(choose) && Aligned(table, labels) && a in table
    decreases |table|, 1
  {
    RemoveKeySize(table, a);
    BuildRows(table - {a}, labels, ChildIndices(table[a], zeroSide), height + 1, start, choose)
  }

  /** The build of the rows listed in `idx`: every column and the labels projected onto them. */
  function BuildRows(table: Table, labels: seq<string>, idx: seq<int>, height: int, start: int, choose: Chooser): Built
    requires ValidChooser(choose) && Aligned(table, labels) && IndicesWithin(idx, |labels|)
    decreases |table| + 1, 0
  {
    PurifyAligned(table, labels, idx);
    BuildTree(Purify(table, idx), Project(labels, idx), height, start, choose)
  }

  /** A child's build is the build of the child's table and labels. */
  lemma ChildBuildTable(table: Table, labels: seq<string>, a: string, zeroSide: bool, height: int, start: int,
                        choose: Chooser)
    requires ValidChooser(choose) && Aligned(table, labels) && a in table
    ensures ChildBuild(table, labels, a, zeroSide, height, start, choose) ==
      BuildTree(ChildTable(table, labels, a, zeroSide), ChildLabels(table, labels, a, zeroSide), height + 1, start, choose)
  {
  }

  /** The three shapes a build can take, each in terms of the counter it starts from. */
  lemma BuildCases(table: Table, labels: seq<string>, height: int, nextId: int, choose: Chooser)
    requires ValidChooser(choose) && Aligned(table, labels)
    ensures var r := BuildTree(table, labels, height, nextId, choose);
      && (r.tree.Nil? ==> r.next == nextId)
      && (r.tree.Node? ==> r.tree.id == nextId && r.tree.height == height)
      && (r.tree.Node? && r.tree.attribute.None? ==> r.tree.left.Nil? && r.tree.right.Nil? && r.next == nextId + 1)
  {
  }

  /** A decision node: its children are built from the narrowed data, the left one first. */
  lemma SplitCase(table: Table, labels: seq<string>, height: int, nextId: int, choose: Chooser)
    requires ValidChooser(choose) && Aligned(table, labels)
    ensures var r := BuildTree(table, labels, height, nextId, choose);
      r.tree.Node? && r.tree.attribute.Some? ==>
        var a := r.tree.attribute.value;
        && a in table
        && var left := ChildBuild(table, labels, a, true, height, nextId + 1, choose);
           var right := ChildBuild(table, labels, a, false, height, left.next, choose);
           r.tree.left == left.tree && r.tree.right == right.tree && r.next == right.next
  {
  }

  /** The build of data with labels and attributes but a pure label list or no useful attribute is a leaf. */
  lemma BuildLeaf(table: Table, labels: seq<string>, height: int, nextId: int, choose: Chooser)
    requires ValidChooser(choose) && Aligned(table, labels)
    requires |labels| > 0 && |table| > 0
    requires EntropyIsZero(ZeroCount(labels), |labels| - ZeroCount(labels)) || choose(table, labels) == ""
    ensures BuildTree(table, labels, height, nextId, choose) ==
      Built(MakeLeaf(nextId, height, ZeroCount(labels), |labels| - ZeroCount(labels)), nextId + 1)
  {
  }

  /** Otherwise the build is the decision node on the chosen attribute. */
  lemma BuildSplit(table: Table, labels: seq<string>, height: int, nextId: int, choose: Chooser)
    requires ValidChooser(choose) && Aligned(table, labels)
    requires |labels| > 0 && |table| > 0
    requires !EntropyIsZero(ZeroCount(labels), |labels| - ZeroCount(labels)) && choose(table, labels) != ""
    ensures BuildTree(table, labels, height, nextId, choose) ==
      BuildNode(table, labels, height, nextId, choose, choose(table, labels))
  {
  }

  /** A decision node assembled from the builds of its two children, the left one numbered first. */
  lemma NodeFromChildren(table: Table, labels: seq<string>, height: int, nextId: int, choose: Chooser, a: string,
                         leftStart: int, left: Built, right: Built)
    requires ValidChooser(choose) && Aligned(table, labels) && a in table && leftStart == nextId + 1
    requires left == ChildBuild(table, labels, a, true, height, leftStart, choose)
    requires right == ChildBuild(table, labels, a, false, height, left.next, choose)
    ensures BuildNode(table, labels, height, nextId, choose, a) ==
      Built(Node(nextId, height, Some(a), None, ZeroCount(labels), |labels| - ZeroCount(labels), left.tree, right.tree),
            right.next)
  {
  }

  /** The id counter ends up advanced by exactly the number of nodes created. */
  lemma {:induction false} BuildCount(table: Table, labels: seq<string>, height: int, nextId: int, choose: Chooser)
    requires ValidChooser(choose) && Aligned(table, labels)
    ensures var r := BuildTree(table, labels, height, nextId, choose);
      r.next == nextId + Size(r.tree)
    decreases |table|
  {
    var r := BuildTree(table, labels, height, nextId, choose);
    BuildCases(table, labels, height, nextId, choose);
    if r.tree.Node? && r.tree.attribute.Some? {
      SplitCase(table, labels, height, nextId, choose);
      var a := r.tree.attribute.value;
      var lt, ll := ChildTable(table, labels, a, true), ChildLabels(table, labels, a, true);
      var left := ChildBuild(table, labels, a, true, height, nextId + 1, choose);
      BuildCount(lt, ll, height + 1, nextId + 1, choose);
      BuildCount(ChildTable(table, labels, a, false), ChildLabels(table, labels, a, false), height + 1, left.next, choose);
    }
  }

  /**
    The ids of a built tree are distinct and are exactly the range
    [nextId, nextId + Size(t)), the root taking the first one.
   */
  lemma {:induction false} BuildIds(table: Table, labels: seq<string>, height: int, nextId: int, choose: Chooser)
    requires ValidChooser(choose) && Aligned(table, labels)
    ensures var r := BuildTree(table, labels, height, nextId, choose);
      && UniqueIds(r.tree)
      && (forall id :: id in Ids(r.tree) <==> nextId <= id < nextId + Size(r.tree))
      && (r.tree.Node? ==> r.tree.id == nextId)
    decreases |table|, 1
  {
    var t := BuildTree(table, labels, height, nextId, choose).tree;
    BuildCases(table, labels, height, nextId, choose);
    if t.Node? && t.attribute.Some? {
      SplitIds(table, labels, height, nextId, choose);
    } else if t.Node? {
      assert Ids(t) == {nextId};
    }
  }

  lemma {:induction false} SplitIds(table: Table, labels: seq<string>, height: int, nextId: int, choose: Chooser)
    requires ValidChooser(choose) && Aligned(table, labels)
    requires BuildTree(table, labels, height, nextId, choose).tree.Node?
    requires BuildTree(table, labels, height, nextId, choose).tree.attribute.Some?
    ensures var t := BuildTree(table, labels, height, nextId, choose).tree;
      && UniqueIds(t)
      && (forall id :: id in Ids(t) <==> nextId <= id < nextId + Size(t))
    decreases |table|, 0
  {
    var t := BuildTree(table, labels, height, nextId, choose).tree;
    BuildCases(table, labels, height, nextId, choose);
    SplitCase(table, labels, height, nextId, choose);
    var a := t.attribute.value;
    var lt, ll := ChildTable(table, labels, a, true), ChildLabels(table, labels, a, true);
    var rt, rl := ChildTable(table, labels, a, false), ChildLabels(table, labels, a, false);
    var left := ChildBuild(table, labels, a, true, height, nextId + 1, choose);
    var right := ChildBuild(table, labels, a, false, height, left.next, choose);
    BuildCount(lt, ll, height + 1, nextId + 1, choose);
    BuildIds(lt, ll, height + 1, nextId + 1, choose);
    BuildIds(rt, rl, height + 1, left.next, choose);
    NodeIds(t, nextId, left.next, left.next + Size(right.tree));
  }

  /** Two children numbered from consecutive ranges give their parent the range starting one lower. */
  lemma NodeIds(t: Tree, first: int, mid: int, next: int)
    requires t.Node? && t.id == first && first < mid <= next
    requires UniqueIds(t.left) && UniqueIds(t.right)
    requires forall id :: id in Ids(t.left) <==> first + 1 <= id < mid
    requires forall id :: id in Ids(t.right) <==> mid <= id < next
    requires mid == first + 1 + Size(t.left) && next == mid + Size(t.right)
    ensures UniqueIds(t) && next == first + Size(t)
    ensures forall id :: id in Ids(t) <==> first <= id < next
  {
    assert Ids(t.left) !! Ids(t.right) by {
      forall id | id in Ids(t.left) ensures id !in Ids(t.right) { }
    }
  }

  /**
    A built tree is well formed (leaves carry their majority label, decision
    nodes an attribute), its heights count from `height`, it is empty exactly
    when there are no labels or no attributes, and its root records the
    label counts of the input.
   */
  lemma {:induction false} BuildShape(table: Table, labels: seq<string>, height: int, nextId: int, choose: Chooser)
    requires ValidChooser(choose) && Aligned(table, labels)
    ensures var t := BuildTree(table, labels, height, nextId, choose).tree;
      && WellFormed(t)
      && HeightsFrom(t, height)
      && (t.Nil? <==> |labels| == 0 || |table| == 0)
      && (t.Node? ==> t.zeroCount == ZeroCount(labels) && t.zeroCount + t.oneCount == |labels|)
    decreases |table|
  {
    var t := BuildTree(table, labels, height, nextId, choose).tree;
    if t.Node? && t.attribute.Some? {
      SplitCase(table, labels, height, nextId, choose);
      var a := t.attribute.value;
      var left := ChildBuild(table, labels, a, true, height, nextId + 1, choose);
      BuildShape(ChildTable(table, labels, a, true), ChildLabels(table, labels, a, true), height + 1, nextId + 1, choose);
      BuildShape(ChildTable(table, labels, a, false), ChildLabels(table, labels, a, false), height + 1, left.next, choose);
    }
  }

  /** A built tree splits only on attributes of its table, and on none of them twice along a path. */
  lemma {:induction false} BuildSplits(table: Table, labels: seq<string>, height: int, nextId: int, choose: Chooser)
    requires ValidChooser(choose) && Aligned(table, labels)
    ensures var t := BuildTree(table, labels, height, nextId, choose).tree;
      Attributes(t) <= table.Keys && SplitsOnce(t)
    decreases |table|
  {
    var t := BuildTree(table, labels, height, nextId, choose).tree;
    if t.Node? && t.attribute.Some? {
      SplitCase(table, labels, height, nextId, choose);
      var a := t.attribute.value;
      var left := ChildBuild(table, labels, a, true, height, nextId + 1, choose);
      BuildSplits(ChildTable(table, labels, a, true), ChildLabels(table, labels, a, true), height + 1, nextId + 1, choose);
      BuildSplits(ChildTable(table, labels, a, false), ChildLabels(table, labels, a, false), height + 1, left.next, choose);
    }
  }

  /**
    The emptiness test comes before the purity test: a split on the last
    remaining attribute gets two empty children.
   */
  lemma LastAttributeSplit(table: Table, labels: seq<string>, height: int, nextId: int, choose: Chooser)
    requires ValidChooser(choose) && Aligned(table, labels) && |table| == 1
    ensures var t := BuildTree(table, labels, height, nextId, choose).tree;
      t.Node? && t.attribute.Some? ==> t.left == Nil && t.right == Nil
  {
    var t := BuildTree(table, labels, height, nextId, choose).tree;
    if t.Node? && t.attribute.Some? {
      SplitCase(table, labels, height, nextId, choose);
      var a := t.attribute.value;
      var left := ChildBuild(table, labels, a, true, height, nextId + 1, choose);
      ChildBuildTable(table, labels, a, true, height, nextId + 1, choose);
      ChildBuildTable(table, labels, a, false, height, left.next, choose);
      assert |ChildTable(table, labels, a, true)| == 0;
      assert |ChildTable(table, labels, a, false)| == 0;
    }
  }

  function ZeroOf(t: Tree): int { if t.Nil? then 0 else t.zeroCount }
  function OneOf(t: Tree): int { if t.Nil? then 0 else t.oneCount }

  /**
    While at least two attributes remain, the two children of a decision
    node share out exactly the instances that reached it.
   */
  lemma ChildrenShareCounts(table: Table, labels: seq<string>, height: int, nextId: int, choose: Chooser)
    requires ValidChooser(choose) && Aligned(table, labels) && |table| >= 2
    ensures var t := BuildTree(table, labels, height, nextId, choose).tree;
      t.Node? && t.attribute.Some? ==>
        && ZeroOf(t.left) + ZeroOf(t.right) == t.zeroCount
        && OneOf(t.left) + OneOf(t.right) == t.oneCount
  {
    var t := BuildTree(table, labels, height, nextId, choose).tree;
    BuildShape(table, labels, height, nextId, choose);
    if t.Node? && t.attribute.Some? {
      SplitCase(table, labels, height, nextId, choose);
      var a := t.attribute.value;
      var lz, lo := ChildLabels(table, labels, a, true), ChildLabels(table, labels, a, false);
      var left := ChildBuild(table, labels, a, true, height, nextId + 1, choose);
      var right := ChildBuild(table, labels, a, false, height, left.next, choose);
      BuildShape(ChildTable(table, labels, a, true), lz, height + 1, nextId + 1, choose);
      BuildShape(ChildTable(table, labels, a, false), lo, height + 1, left.next, choose);
      assert ZeroOf(left.tree) == ZeroCount(lz) && OneOf(left.tree) == |lz| - ZeroCount(lz);
      assert ZeroOf(right.tree) == ZeroCount(lo) && OneOf(right.tree) == |lo| - ZeroCount(lo);
      SplitKeepsLabels(table[a], labels);
      assert multiset(lz) + multiset(lo) == multiset(labels);
      assert |lz| + |lo| == |labels| by {
        assert |multiset(lz)| + |multiset(lo)| == |multiset(labels)|;
      }
      assert multiset(lz)["0"] + multiset(lo)["0"] == multiset(labels)["0"];
    }
  }
}
