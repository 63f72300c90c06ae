/**
  The ID3 learner: building the tree from an attribute table and a label
  list, copying, searching, counting and randomly pruning it in place, and
  counting the correct predictions it makes on a list of rows.

  The attribute choice (the information-gain search) is the chooser the
  learner is created with; the random ids drawn by the pruner are a given
  sequence of draws.
 */
module ID3 {
  import opened TreeModel
  import opened Partition
  import opened Builder
  import opened Pruning
  import opened Prediction
  import opened TreeNodes
  import opened IntKeys

  /** A mutable attribute map: the builder removes the attribute it splits on. */
  class AttrTable {
    var columns: Table

    constructor (columns: Table)
      ensures this.columns == columns
    {
      this.columns := columns;
    }
  }

  /** Number of nodes in a queue of subtrees. */
  ghost function ForestSize(ts: seq<Tree>): nat
  {
    if ts == [] then 0 else Size(ts[0]) + ForestSize(ts[1..])
  }

  /** Number of leaves in a queue of subtrees. */
  ghost function ForestLeaves(ts: seq<Tree>): nat
  {
    if ts == [] then 0 else LeafCount(ts[0]) + ForestLeaves(ts[1..])
  }

  /** Ids carried anywhere in a queue of subtrees. */
  ghost function ForestIds(ts: seq<Tree>): set<int>
  {
    if ts == [] then {} else Ids(ts[0]) + ForestIds(ts[1..])
  }

  /** Joining two queues joins their node counts, leaf counts and ids. */
  lemma {:induction false} ForestConcat(xs: seq<Tree>, ys: seq<Tree>)
    ensures ForestSize(xs + ys) == ForestSize(xs) + ForestSize(ys)
    ensures ForestLeaves(xs + ys) == ForestLeaves(xs) + ForestLeaves(ys)
    ensures ForestIds(xs + ys) == ForestIds(xs) + ForestIds(ys)
  {
    if xs == [] {
      assert xs + ys == ys;
    } else {
      ForestConcat(xs[1..], ys);
      assert (xs + ys)[1..] == xs[1..] + ys;
    }
  }

  /** A queued node lies below `a`, and `t` is its tree. */
  ghost predicate Queued(a: TreeNode, n: TreeNode, t: Tree)
    reads a, a.Repr
    requires a.Valid()
  {
    a.Reaches(n) && n in a.Repr && n.Repr <= a.Repr && n.Valid() && n.Model() == t
  }

  /** Every node of the queue is queued with its tree. */
  ghost predicate QueueOf(a: TreeNode, queue: seq<TreeNode>, models: seq<Tree>)
    reads a, a.Repr
    requires a.Valid()
  {
    |queue| == |models| && forall i :: 0 <= i < |queue| ==> Queued(a, queue[i], models[i])
  }

  /** The queue entry for a child: nothing for a missing child. */
  function Entry(c: TreeNode?): seq<TreeNode>
  {
    if c == null then [] else [c]
  }

  /** The tree of a child's queue entry. */
  ghost function EntryModel(c: TreeNode?): seq<Tree>
    reads c, ReprOf(c)
    requires ValidTree(c)
  {
    if c == null then [] else [c.Model()]
  }

  /** The children a breadth-first walk enqueues, left before right. */
  function Kids(n: TreeNode): seq<TreeNode>
    reads n
  {
    Entry(n.left) + Entry(n.right)
  }

  /** The trees of a node's children, left before right. */
  ghost function KidModels(n: TreeNode): seq<Tree>
    reads n, n.Repr
    requires n.Valid()
  {
    EntryModel(n.left) + EntryModel(n.right)
  }

  /** Two queues below `a` joined are a queue below `a`. */
  lemma QueueConcat(a: TreeNode, q1: seq<TreeNode>, m1: seq<Tree>, q2: seq<TreeNode>, m2: seq<Tree>)
    requires a.Valid() && QueueOf(a, q1, m1) && QueueOf(a, q2, m2)
    ensures QueueOf(a, q1 + q2, m1 + m2)
  {
    forall i | 0 <= i < |q1 + q2|
      ensures Queued(a, (q1 + q2)[i], (m1 + m2)[i])
    {
      if i < |q1| {
        assert Queued(a, q1[i], m1[i]);
      } else {
        assert Queued(a, q2[i - |q1|], m2[i - |q1|]);
      }
    }
  }

  /** The entry of a reachable child is a queue below `a`. */
  lemma EntryQueued(a: TreeNode, c: TreeNode?)
    requires a.Valid() && (c != null ==> a.Reaches(c) && c.Valid())
    ensures QueueOf(a, Entry(c), EntryModel(c))
  {
    if c != null {
      ReachValid(a, c);
      assert Queued(a, c, c.Model());
    }
  }

  /** A child's entry holds the child's nodes, leaves and ids. */
  lemma EntryCount(c: TreeNode?)
    requires ValidTree(c)
    ensures ForestSize(EntryModel(c)) == Size(ModelOf(c))
    ensures ForestLeaves(EntryModel(c)) == LeafCount(ModelOf(c))
    ensures ForestIds(EntryModel(c)) == Ids(ModelOf(c))
  {
  }

  /** The children of a reachable node form a queue below `a`. */
  lemma KidsQueued(a: TreeNode, n: TreeNode)
    requires a.Valid() && a.Reaches(n)
    ensures n.Valid() && QueueOf(a, Kids(n), KidModels(n))
  {
    ReachChildren(a, n);
    EntryQueued(a, n.left);
    EntryQueued(a, n.right);
    QueueConcat(a, Entry(n.left), EntryModel(n.left), Entry(n.right), EntryModel(n.right));
  }

  /** The children's trees hold all of a node's tree except the node itself. */
  lemma KidsCount(n: TreeNode)
    requires n.Valid()
    ensures Size(n.Model()) == 1 + ForestSize(KidModels(n))
    ensures LeafCount(n.Model()) == (if n.classLabel.Some? then 1 else 0) + ForestLeaves(KidModels(n))
  {
    EntryCount(n.left);
    EntryCount(n.right);
    ForestConcat(EntryModel(n.left), EntryModel(n.right));
  }

  /** The children's trees carry all of a node's ids except its own. */
  lemma KidsIds(n: TreeNode)
    requires n.Valid()
    ensures Ids(n.Model()) == {n.id} + ForestIds(KidModels(n))
  {
    EntryCount(n.left);
    EntryCount(n.right);
    ForestConcat(EntryModel(n.left), EntryModel(n.right));
  }

  /**
    Taking the first node off the queue and enqueuing its children keeps
    the queue below `a`, and moves exactly that node out of the queue's
    count of nodes, leaves and ids.
   */
  lemma QueueStep(a: TreeNode, queue: seq<TreeNode>, models: seq<Tree>)
    requires a.Valid() && QueueOf(a, queue, models) && queue != []
    ensures var n := queue[0];
      && QueueOf(a, queue[1..] + Kids(n), models[1..] + KidModels(n))
      && ForestSize(models) == 1 + ForestSize(models[1..] + KidModels(n))
      && ForestLeaves(models) ==
           (if n.classLabel.Some? then 1 else 0) + ForestLeaves(models[1..] + KidModels(n))
      && ForestIds(models) == {n.id} + ForestIds(models[1..] + KidModels(n))
  {
    var n := queue[0];
    assert Queued(a, n, models[0]);
    KidsQueued(a, n);
    KidsCount(n);
    KidsIds(n);
    assert QueueOf(a, queue[1..], models[1..]) by {
      forall i | 0 <= i < |queue| - 1
        ensures Queued(a, queue[1..][i], models[1..][i])
      {
        assert Queued(a, queue[i + 1], models[i + 1]);
      }
    }
    QueueConcat(a, queue[1..], models[1..], Kids(n), KidModels(n));
    ForestConcat(models[1..], KidModels(n));
  }

  /** A draw the pruner redraws: it was used before, or the node found for it is a leaf. */
  lemma DrawRejected(node: TreeNode?, found: TreeNode?, d: int, rounds: int, draws: seq<int>, used: seq<int>)
    requires ValidTree(node) && UniqueIds(ModelOf(node)) && rounds > 0 && draws != [] && draws[0] == d
    requires found == null ==> d !in Ids(ModelOf(node))
    requires found != null ==> node != null && node.Reaches(found) && found.id == d
    requires d in used || (found != null && found.classLabel.Some?)
    ensures PruneRounds(ModelOf(node), rounds, draws, used) == PruneRounds(ModelOf(node), rounds, draws[1..], used)
  {
    if found != null {
      ReachLookup(node, found);
    }
  }

  /** A draw the pruner accepts: it prunes the node carrying it, or nothing when no node does. */
  lemma DrawAccepted(node: TreeNode?, found: TreeNode?, d: int, rounds: int, draws: seq<int>, used: seq<int>)
    requires ValidTree(node) && UniqueIds(ModelOf(node)) && rounds > 0 && draws != [] && draws[0] == d
    requires found == null ==> d !in Ids(ModelOf(node))
    requires found != null ==> node != null && node.Reaches(found) && found.id == d
    requires d !in used && (found == null || found.classLabel.None?)
    ensures PruneRounds(ModelOf(node), rounds, draws, used)
            == PruneRounds(PruneAt(ModelOf(node), d), rounds - 1, draws[1..], used + [d])
  {
    if found != null {
      ReachLookup(node, found);
    } else {
      LookupFinds(ModelOf(node), d);
    }
  }

  /** A chooser that picks the attribute "A" whenever the table still has it. */
  function ChooseA(table: Table, labels: seq<string>): string
  {
    if "A" in table then "A" else ""
  }

  /**
    The learner's own prediction fails on its own training data: with one
    attribute "A" that separates the labels, the split on "A" gets two
    missing children, and the first training row, whose "A" is "0", sends
    the literal walk to the missing left child.
   */
  lemma LearnedTreeCrashes()
    ensures ValidChooser(ChooseA)
    ensures var b := BuildTree(map["A" := ["0", "1"]], ["0", "1"], 0, 0, ChooseA);
      && b.tree == Node(0, 0, Some("A"), None, 1, 1, Nil, Nil)
      && PredictAsWritten(b.tree, ["0", "0"], map[0 := "A"]) == Throws(NullPointerException)
  {
    var table, labels := map["A" := ["0", "1"]], ["0", "1"];
    assert multiset(labels) == multiset{"0", "1"};
    assert ZeroCount(labels) == 1;
    BuildSplit(table, labels, 0, 0, ChooseA);
    var left := ChildBuild(table, labels, "A", true, 0, 1, ChooseA);
    ChildBuildTable(table, labels, "A", true, 0, 1, ChooseA);
    ChildBuildTable(table, labels, "A", false, 0, left.next, ChooseA);
    assert |ChildTable(table, labels, "A", true)| == 0;
    assert |ChildTable(table, labels, "A", false)| == 0;
    PredictAsWrittenCrashes();
  }

  class DecisionTreeID3 {
    var root: TreeNode?
    /** The next id to hand out; every node built so far has a smaller one. */
    var nodeId: int
    var leafNodeCount: int
    /** The attribute choice: "" when no attribute has positive information gain. */
    const chooseSplit: Chooser

    ghost predicate Valid()
      reads this, root, ReprOf(root)
    {
      && ValidChooser(chooseSplit)
      && ValidTree(root) && UniqueIds(ModelOf(root))
      && 0 <= nodeId && 0 <= leafNodeCount
      && (forall id :: id in Ids(ModelOf(root)) ==> 0 <= id < nodeId)
    }

    constructor (chooseSplit: Chooser)
      requires ValidChooser(chooseSplit)
      ensures Valid() && root == null && nodeId == 0 && leafNodeCount == 0
      ensures this.chooseSplit == chooseSplit
    {
      this.chooseSplit := chooseSplit;
      root := null;
      nodeId := 0;
      leafNodeCount := 0;
    }

    /** The number of "0" labels and the number of the others. */
    method CalZeroOneLabels(labels: seq<string>) returns (zero: int, one: int)
      ensures zero == ZeroCount(labels) && zero + one == |labels|
    {
      zero := 0;
      for i := 0 to |labels|
        invariant zero == ZeroCount(labels[..i])
      {
        assert labels[..i + 1] == labels[..i] + [labels[i]];
        if labels[i] == "0" {
          zero := zero + 1;
        }
      }
      assert labels[..|labels|] == labels;
      one := |labels| - zero;
    }

    /** The positions where the split attribute is "0" (left) and where it is not (right). */
    method GetChildLevelDataIndexList(map_: AttrTable, splitAttr: string)
      returns (leftIndex: seq<int>, rightIndex: seq<int>)
      requires splitAttr in map_.columns
      ensures leftIndex == ZeroIndices(map_.columns[splitAttr])
      ensures rightIndex == OtherIndices(map_.columns[splitAttr])
    {
      var originalList := map_.columns[splitAttr];
      leftIndex, rightIndex := [], [];
      for i := 0 to |originalList|
        invariant leftIndex == ZeroIndices(originalList[..i])
        invariant rightIndex == OtherIndices(originalList[..i])
      {
        assert originalList[..i + 1][..i] == originalList[..i];
        if originalList[i] == "0" {
          leftIndex := leftIndex + [i];
        } else {
          rightIndex := rightIndex + [i];
        }
      }
      assert originalList[..|originalList|] == originalList;
    }

    /** The labels at the given positions, in the order of the positions. */
    method PurifyLabels(listIndex: seq<int>, labels: seq<string>) returns (newLabels: seq<string>)
      requires IndicesWithin(listIndex, |labels|)
      ensures |newLabels| == |listIndex|
      ensures forall j :: 0 <= j < |listIndex| ==> newLabels[j] == labels[listIndex[j]]
      ensures newLabels == Project(labels, listIndex)
    {
      newLabels := [];
      for j := 0 to |listIndex|
        invariant newLabels == Project(labels, listIndex[..j])
      {
        newLabels := newLabels + [labels[listIndex[j]]];
      }
      assert listIndex[..|listIndex|] == listIndex;
    }

    /** A new attribute map with the same attributes, each column projected onto the positions. */
    method PurifyMap(map_: AttrTable, listIndex: seq<int>) returns (newMap: AttrTable)
      requires forall k :: k in map_.columns ==> IndicesWithin(listIndex, |map_.columns[k]|)
      ensures fresh(newMap)
      ensures newMap.columns.Keys == map_.columns.Keys
      ensures forall k :: k in newMap.columns ==> newMap.columns[k] == Project(map_.columns[k], listIndex)
      ensures newMap.columns == Purify(map_.columns, listIndex)
    {
      newMap := new AttrTable(map[]);
      var keySet := map_.columns.Keys;
      while keySet != {}
        invariant keySet <= map_.columns.Keys
        invariant newMap.columns.Keys == map_.columns.Keys - keySet
        invariant forall k :: k in newMap.columns ==> newMap.columns[k] == Project(map_.columns[k], listIndex)
        decreases |keySet|
      {
        var key :| key in keySet;
        var newList := PurifyLabels(listIndex, map_.columns[key]);
        newMap.columns := newMap.columns[key := newList];
        keySet := keySet - {key};
      }
    }

    /**
      Builds the subtree for the given data. Ids are taken from `nodeId` in
      preorder, every leaf built increments `leafNodeCount`, and a split
      removes its attribute from the caller's map.
     */
    method ConstructSubtree(attrMap: AttrTable, labels: seq<string>, height: int) returns (node: TreeNode?)
      requires ValidChooser(chooseSplit) && Aligned(attrMap.columns, labels)
      modifies this`nodeId, this`leafNodeCount, attrMap`columns
      ensures ValidTree(node) && fresh(ReprOf(node))
      ensures Built(ModelOf(node), nodeId) == BuildTree(old(attrMap.columns), labels, height, old(nodeId), chooseSplit)
      ensures leafNodeCount == old(leafNodeCount) + LeafCount(ModelOf(node))
      ensures attrMap.columns == (if ModelOf(node).Node? && ModelOf(node).attribute.Some?
                                  then old(attrMap.columns) - {ModelOf(node).attribute.value}
                                  else old(attrMap.columns))
      decreases |attrMap.columns|, 3
    {
      if |labels| == 0 || |attrMap.columns| == 0 {
        return null;
      }
      var zero, one := CalZeroOneLabels(labels);
      if EntropyIsZero(zero, one) {
        BuildLeaf(attrMap.columns, labels, height, nodeId, chooseSplit);
        leafNodeCount := leafNodeCount + 1;
        node := new TreeNode(nodeId, height, None, Some(ClassLabel(zero, one)), zero, one);
        nodeId := nodeId + 1;
        return;
      }
      var splitAttr := chooseSplit(attrMap.columns, labels);
      if splitAttr == "" {
        BuildLeaf(attrMap.columns, labels, height, nodeId, chooseSplit);
        leafNodeCount := leafNodeCount + 1;
        node := new TreeNode(nodeId, height, None, Some(ClassLabel(zero, one)), zero, one);
        nodeId := nodeId + 1;
        return;
      }
      node := ConstructSplit(attrMap, labels, height, splitAttr, zero, one);
    }

    /**
      The decision-node case of the builder: a node on `splitAttr` takes the
      next id, the attribute leaves the caller's map, and the two children
      are built from the "0" rows and from the other rows, left first.
     */
    method ConstructSplit(attrMap: AttrTable, labels: seq<string>, height: int, splitAttr: string,
                          zero: int, one: int) returns (node: TreeNode)
      requires ValidChooser(chooseSplit) && Aligned(attrMap.columns, labels) && |labels| > 0
      requires zero == ZeroCount(labels) && one == |labels| - zero && !EntropyIsZero(zero, one)
      requires splitAttr == chooseSplit(attrMap.columns, labels) && splitAttr != ""
      modifies this`nodeId, this`leafNodeCount, attrMap`columns
      ensures node.Valid() && fresh(node.Repr)
      ensures Built(node.Model(), nodeId) == BuildTree(old(attrMap.columns), labels, height, old(nodeId), chooseSplit)
      ensures leafNodeCount == old(leafNodeCount) + LeafCount(node.Model())
      ensures attrMap.columns == old(attrMap.columns) - {splitAttr}
      decreases |attrMap.columns|, 2
    {
      var id := nodeId;
      var l, r, below := ConstructChildren(attrMap, labels, height, splitAttr);
      assert fresh(below);
      node := new TreeNode.Join(id, height, Some(splitAttr), None, zero, one, l, r, ModelOf(l), ModelOf(r), below);
    }

    /**
      Removes the split attribute from the map and builds both children of
      the node numbered `parentId`, the left one first.
     */
    method ConstructChildren(attrMap: AttrTable, labels: seq<string>, height: int, splitAttr: string)
      returns (l: TreeNode?, r: TreeNode?, ghost below: set<TreeNode>)
      requires ValidChooser(chooseSplit) && Aligned(attrMap.columns, labels) && |labels| > 0
      requires !EntropyIsZero(ZeroCount(labels), |labels| - ZeroCount(labels))
      requires splitAttr == chooseSplit(attrMap.columns, labels) && splitAttr != ""
      modifies this`nodeId, this`leafNodeCount, attrMap`columns
      ensures ValidTree(l) && ValidTree(r) && ReprOf(l) !! ReprOf(r)
      ensures below == ReprOf(l) + ReprOf(r) && fresh(below)
      ensures Built(Node(old(nodeId), height, Some(splitAttr), None, ZeroCount(labels), |labels| - ZeroCount(labels),
                         ModelOf(l), ModelOf(r)), nodeId)
        == BuildTree(old(attrMap.columns), labels, height, old(nodeId), chooseSplit)
      ensures leafNodeCount == old(leafNodeCount) + LeafCount(ModelOf(l)) + LeafCount(ModelOf(r))
      ensures attrMap.columns == old(attrMap.columns) - {splitAttr}
      decreases |attrMap.columns|, 1
    {
      ghost var table, parentId := attrMap.columns, nodeId;
      BuildSplit(table, labels, height, parentId, chooseSplit);
      nodeId := nodeId + 1;
      ghost var leftStart := nodeId;
      var leftIndex, rightIndex := GetChildLevelDataIndexList(attrMap, splitAttr);
      attrMap.columns := attrMap.columns - {splitAttr};
      l := ConstructChild(attrMap, labels, height, leftIndex, table, splitAttr, true, null);
      ghost var mid, lr := nodeId, ReprOf(l);
      assert fresh(lr);
      r := ConstructChild(attrMap, labels, height, rightIndex, table, splitAttr, false, l);
      NodeFromChildren(table, labels, height, parentId, chooseSplit, splitAttr, leftStart,
                       Built(ModelOf(l), mid), Built(ModelOf(r), nodeId));
      below := lr + ReprOf(r);
    }

    /**
      One child of a decision node on `splitAttr`: the left child (`zeroSide`)
      from the rows where the attribute is "0", the right child from the others.
      The already built `sibling` is left as it is.
     */
    method ConstructChild(attrMap: AttrTable, labels: seq<string>, height: int, index: seq<int>,
                          ghost table: Table, ghost splitAttr: string, ghost zeroSide: bool, ghost sibling: TreeNode?)
      returns (child: TreeNode?)
      requires ValidChooser(chooseSplit) && Aligned(table, labels) && splitAttr in table && ValidTree(sibling)
      requires attrMap.columns == table - {splitAttr} && index == ChildIndices(table[splitAttr], zeroSide)
      modifies this`nodeId, this`leafNodeCount
      ensures ValidTree(child) && fresh(ReprOf(child))
      ensures Built(ModelOf(child), nodeId) ==
        ChildBuild(table, labels, splitAttr, zeroSide, height, old(nodeId), chooseSplit)
      ensures leafNodeCount == old(leafNodeCount) + LeafCount(ModelOf(child))
      ensures ValidTree(sibling) && ModelOf(sibling) == old(ModelOf(sibling)) && ReprOf(sibling) == old(ReprOf(sibling))
      ensures ReprOf(child) !! ReprOf(sibling)
      decreases |table|, 0
    {
      var childMap, childLabels := ChildData(attrMap, labels, index, table, splitAttr, zeroSide);
      child := ConstructSubtree(childMap, childLabels, height + 1);
    }

    /** The map and labels of one child: every remaining column and the labels projected onto the child's rows. */
    method ChildData(attrMap: AttrTable, labels: seq<string>, index: seq<int>,
                     ghost table: Table, ghost splitAttr: string, ghost zeroSide: bool)
      returns (childMap: AttrTable, childLabels: seq<string>)
      requires Aligned(table, labels) && splitAttr in table
      requires attrMap.columns == table - {splitAttr} && index == ChildIndices(table[splitAttr], zeroSide)
      ensures fresh(childMap)
      ensures childMap.columns == ChildTable(table, labels, splitAttr, zeroSide)
      ensures childLabels == ChildLabels(table, labels, splitAttr, zeroSide)
    {
      childMap := PurifyMap(attrMap, index);
      childLabels := PurifyLabels(index, labels);
    }

    /** Builds the whole tree from height 0 and makes it the learner's tree. */
    method ConstructTree(attrMap: AttrTable, labels: seq<string>)
      requires Valid() && Aligned(attrMap.columns, labels)
      modifies this`root, this`nodeId, this`leafNodeCount, attrMap`columns
      ensures Valid()
      ensures var b := BuildTree(old(attrMap.columns), labels, 0, old(nodeId), chooseSplit);
        && ModelOf(root) == b.tree && nodeId == b.next
        && nodeId == old(nodeId) + Size(b.tree)
        && leafNodeCount == old(leafNodeCount) + LeafCount(b.tree)
        && (forall id :: id in Ids(ModelOf(root)) <==> old(nodeId) <= id < nodeId)
      ensures attrMap.columns == (if ModelOf(root).Node? && ModelOf(root).attribute.Some?
                                  then old(attrMap.columns) - {ModelOf(root).attribute.value}
                                  else old(attrMap.columns))
    {
      BuildIds(attrMap.columns, labels, 0, nodeId, chooseSplit);
      BuildCount(attrMap.columns, labels, 0, nodeId, chooseSplit);
      root := ConstructSubtree(attrMap, labels, 0);
    }

    /** A deep copy: fresh nodes carrying the same fields in the same shape. */
    method CopyTree(node: TreeNode?) returns (copiedNode: TreeNode?)
      requires ValidTree(node)
      ensures ValidTree(copiedNode) && fresh(ReprOf(copiedNode))
      ensures ModelOf(copiedNode) == old(ModelOf(node))
      decreases ReprOf(node)
    {
      if node == null {
        return null;
      }
      ghost var leftModel, rightModel := ModelOf(node.left), ModelOf(node.right);
      assert node.Model() == Node(node.id, node.height, node.attribute, node.classLabel,
                                  node.zeroCount, node.oneCount, leftModel, rightModel);
      copiedNode := new TreeNode(node.id, node.height, node.attribute, node.classLabel,
                                 node.zeroCount, node.oneCount);
      var l := CopyTree(node.left);
      assert ModelOf(l) == leftModel;
      var r := CopyTree(node.right);
      assert ModelOf(r) == rightModel;
      copiedNode.Link(l, r, leftModel, rightModel, ReprOf(l), ReprOf(r));
    }

    /** Breadth-first search for a node carrying `id`. */
    method FindNode(node: TreeNode?, id: int) returns (found: TreeNode?)
      requires ValidTree(node)
      ensures found == null ==> id !in Ids(ModelOf(node))
      ensures found != null ==> node != null && node.Reaches(found) && found.id == id
    {
      if node == null {
        return null;
      }
      var queue: seq<TreeNode> := [node];
      ghost var models := [node.Model()];
      while queue != []
        invariant QueueOf(node, queue, models)
        invariant id in Ids(node.Model()) ==> id in ForestIds(models)
        decreases ForestSize(models)
      {
        var curNode := queue[0];
        QueueStep(node, queue, models);
        ghost var next := queue[1..] + Kids(curNode);
        models := models[1..] + KidModels(curNode);
        queue := queue[1..];
        if curNode.id == id {
          return curNode;
        }
        if curNode.left != null {
          var child: TreeNode := curNode.left;
          queue := queue + [child];
        }
        if curNode.right != null {
          var child: TreeNode := curNode.right;
          queue := queue + [child];
        }
        assert queue == next;
      }
      return null;
    }

    /** Breadth-first count of all nodes and of the leaves. */
    method CountNodes(node: TreeNode?) returns (countAll: int, countLeaf: int)
      requires ValidTree(node)
      ensures countAll == Size(ModelOf(node)) && countLeaf == LeafCount(ModelOf(node))
      ensures 0 <= countLeaf <= countAll
    {
      LeafCountBound(ModelOf(node));
      if node == null {
        return 0, 0;
      }
      var queue: seq<TreeNode> := [node];
      ghost var models := [node.Model()];
      countAll, countLeaf := 0, 0;
      while queue != []
        invariant QueueOf(node, queue, models)
        invariant countAll + ForestSize(models) == Size(node.Model())
        invariant countLeaf + ForestLeaves(models) == LeafCount(node.Model())
        decreases ForestSize(models)
      {
        var curNode := queue[0];
        QueueStep(node, queue, models);
        ghost var next := queue[1..] + Kids(curNode);
        models := models[1..] + KidModels(curNode);
        queue := queue[1..];
        countAll := countAll + 1;
        if curNode.classLabel.Some? {
          countLeaf := countLeaf + 1;
        }
        if curNode.left != null {
          var child: TreeNode := curNode.left;
          queue := queue + [child];
        }
        if curNode.right != null {
          var child: TreeNode := curNode.right;
          queue := queue + [child];
        }
        assert queue == next;
      }
    }

    /**
      The pruning pass over the tree below `node`: each of the
      `pruneNodeCount` rounds draws ids until one is neither used nor a
      leaf, turns the node carrying it (if any) into a leaf in place and
      records the id. The pass ends early when the draws run out.
     */
    method PruneNodes(node: TreeNode?, pruneNodeCount: int, draws: seq<int>)
      requires ValidTree(node) && UniqueIds(ModelOf(node))
      modifies ReprOf(node)
      ensures ValidTree(node) && ReprOf(node) <= old(ReprOf(node))
      ensures ModelOf(node) == PruneRounds(old(ModelOf(node)), pruneNodeCount, draws, []).tree
    {
      ghost var target := PruneRounds(ModelOf(node), pruneNodeCount, draws, []);
      var pruneNodesIdList: seq<int> := [];
      var k, i := 0, 0;
      while i < pruneNodeCount
        invariant 0 <= k <= |draws|
        invariant ValidTree(node) && ReprOf(node) <= old(ReprOf(node)) && UniqueIds(ModelOf(node))
        invariant target == PruneRounds(ModelOf(node), pruneNodeCount - i, draws[k..], pruneNodesIdList)
      {
        if k == |draws| {
          return;
        }
        var index := draws[k];
        k := k + 1;
        var curNode := FindNode(node, index);
        while index in pruneNodesIdList || (curNode != null && curNode.classLabel.Some?)
          invariant 1 <= k <= |draws| && index == draws[k - 1]
          invariant ValidTree(node) && ReprOf(node) <= old(ReprOf(node)) && UniqueIds(ModelOf(node))
          invariant curNode == null ==> index !in Ids(ModelOf(node))
          invariant curNode != null ==> node != null && node.Reaches(curNode) && curNode.id == index
          invariant target == PruneRounds(ModelOf(node), pruneNodeCount - i, draws[k - 1..], pruneNodesIdList)
          decreases |draws| - k
        {
          DrawRejected(node, curNode, index, pruneNodeCount - i, draws[k - 1..], pruneNodesIdList);
          assert draws[k - 1..][1..] == draws[k..];
          if k == |draws| {
            return;
          }
          index := draws[k];
          k := k + 1;
          curNode := FindNode(node, index);
        }
        DrawAccepted(node, curNode, index, pruneNodeCount - i, draws[k - 1..], pruneNodesIdList);
        assert draws[k - 1..][1..] == draws[k..];
        if curNode != null {
          PruneAtUnique(node.Model(), index);
          ReachValid(node, curNode);
          PruneToLeaf(node, curNode);
        } else {
          PruneAtAbsent(ModelOf(node), index);
        }
        pruneNodesIdList := pruneNodesIdList + [index];
        i := i + 1;
      }
    }

    /**
      A pruned copy of the learner's tree: the tree is copied and the copy
      pruned; the learner's own tree is left as it is.
     */
    method PruneTree(pruneNodeCount: int, draws: seq<int>) returns (copiedNode: TreeNode?)
      requires Valid()
      ensures ValidTree(copiedNode) && fresh(ReprOf(copiedNode))
      ensures ModelOf(copiedNode) == PruneRounds(ModelOf(root), pruneNodeCount, draws, []).tree
      ensures Valid()
    {
      copiedNode := CopyTree(root);
      PruneNodes(copiedNode, pruneNodeCount, draws);
    }

    /**
      The position of the first column, in ascending position order, named
      `attr`, or -1 when no column is.
     */
    method GetPosFromAttrVal(attrPosMap: PosMap, attr: string) returns (pos: int)
      ensures Matches(attrPosMap, attr) != {} ==> FirstPos(attrPosMap, attr, pos)
      ensures Matches(attrPosMap, attr) == {} ==> pos == -1
    {
      var keySet := attrPosMap.Keys;
      while keySet != {}
        invariant keySet <= attrPosMap.Keys
        invariant forall j :: j in attrPosMap && j !in keySet ==> attrPosMap[j] != attr
        invariant forall j, k :: j in attrPosMap && j !in keySet && k in keySet ==> j < k
        decreases |keySet|
      {
        var key := Least(keySet);
        if attrPosMap[key] == attr {
          assert key in Matches(attrPosMap, attr);
          assert forall j :: j in Matches(attrPosMap, attr) ==> key <= j;
          return key;
        }
        keySet := keySet - {key};
      }
      assert forall j :: j in attrPosMap ==> attrPosMap[j] != attr;
      assert Matches(attrPosMap, attr) == {};
      return -1;
    }

    /**
      Whether the tree below `node` predicts the label of the row. A leaf
      compares its label with the row's last field; a decision node looks up
      the column of its attribute, answers false when there is none, and
      otherwise goes left on "0" and right on anything else. A missing node
      or a node without an attribute answers false.
     */
    method CheckPrediction(instance: seq<string>, node: TreeNode?, attrPosMap: PosMap) returns (correct: bool)
      requires ValidTree(node) && RowFits(instance, attrPosMap)
      ensures correct == Predict(ModelOf(node), instance, attrPosMap)
      decreases ReprOf(node)
    {
      if node == null {
        return false;
      }
      if node.classLabel.Some? {
        return instance[|instance| - 1] == node.classLabel.value;
      }
      if node.attribute.None? {
        return false;
      }
      var pos := GetPosFromAttrVal(attrPosMap, node.attribute.value);
      if pos == -1 {
        return false;
      }
      if instance[pos] == "0" {
        correct := CheckPrediction(instance, node.left, attrPosMap);
      } else {
        correct := CheckPrediction(instance, node.right, attrPosMap);
      }
    }

    /** The number of rows whose label the tree below `rootNode` predicts. */
    method GetCorrectCount(instanceList: seq<seq<string>>, attrPosMap: PosMap, rootNode: TreeNode?)
      returns (correctCount: int)
      requires ValidTree(rootNode) && AllFit(instanceList, attrPosMap)
      ensures correctCount == CorrectCount(ModelOf(rootNode), instanceList, attrPosMap)
      ensures 0 <= correctCount <= |instanceList|
    {
      correctCount := 0;
      for j := 0 to |instanceList|
        invariant correctCount == CorrectCount(ModelOf(rootNode), instanceList[..j], attrPosMap)
      {
        assert instanceList[..j + 1][..j] == instanceList[..j];
        var ok := CheckPrediction(instanceList[j], rootNode, attrPosMap);
        if ok {
          correctCount := correctCount + 1;
        }
      }
      assert instanceList[..|instanceList|] == instanceList;
    }
  }
}
