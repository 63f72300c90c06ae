/**
  Prediction with a decision tree and the count of correct predictions.

  An instance is the field list of one data row, its class label last. The
  position map names the attribute of each column. A walk starts at the
  root, stops at a leaf and compares the leaf's label with the instance's
  label; at a decision node it looks up the column of the node's attribute
  and goes left on "0" and right on anything else.

  `PredictAsWritten` follows the recursion of the learner literally,
  including the runtime errors it raises; `Predict` is the evidently
  intended walk, which answers "not correct" where the literal walk
  dereferences a missing child.
 */
module Prediction {
  import opened TreeModel
  import opened IntKeys

  /** The labels carried by the leaves of the tree. */
  function LeafLabels(t: Tree): set<string>
  {
    if t.Nil? then {}
    else (if t.classLabel.Some? then {t.classLabel.value} else {}) + LeafLabels(t.left) + LeafLabels(t.right)
  }

  /** Column position to attribute name. */
  type PosMap = map<int, string>

  /** The positions whose attribute is `attr`. */
  function Matches(m: PosMap, attr: string): set<int>
  {
    set j | j in m && m[j] == attr
  }

  /** `k` is the first position, in ascending order, whose attribute is `attr`. */
  predicate FirstPos(m: PosMap, attr: string, k: int)
  {
    IsLeast(Matches(m, attr), k)
  }

  /** The position the lookup answers: the first one naming `attr`, or -1 when none does. */
  ghost function PosOf(m: PosMap, attr: string): (r: int)
    ensures Matches(m, attr) != {} ==> FirstPos(m, attr, r)
    ensures Matches(m, attr) == {} ==> r == -1
  {
    var matches := Matches(m, attr);
    if matches == {} then -1
    else
      LeastExists(matches);
      var k :| IsLeast(matches, k);
      k
  }

  /** The row has a label field and a field at every mapped position. */
  predicate RowFits(instance: seq<string>, m: PosMap)
  {
    |instance| >= 1 && forall k :: k in m ==> 0 <= k < |instance|
  }

  datatype JavaException = NullPointerException | ArrayIndexOutOfBoundsException

  /** The outcome of a call that may end in a runtime error. */
  datatype Checked = Returns(value: bool) | Throws(error: JavaException)

  /**
    The walk as the learner performs it. A missing node is dereferenced, so
    it raises a null-pointer error; a null attribute raises one as soon as
    it is compared with a map entry; an index outside the row raises an
    index error.
   */
  ghost function PredictAsWritten(t: Tree, instance: seq<string>, m: PosMap): (r: Checked)
    ensures t.Nil? ==> r == Throws(NullPointerException)
    ensures r == Returns(true) ==> |instance| >= 1 && instance[|instance| - 1] in LeafLabels(t)
  {
    if t.Nil? then Throws(NullPointerException)
    else if t.classLabel.Some? then
      if |instance| == 0 then Throws(ArrayIndexOutOfBoundsException)
      else Returns(instance[|instance| - 1] == t.classLabel.value)
    else if t.attribute.None? then
      if |m| == 0 then Returns(false) else Throws(NullPointerException)
    else
      var pos := PosOf(m, t.attribute.value);
      if pos == -1 then Returns(false)
      else if !(0 <= pos < |instance|) then Throws(ArrayIndexOutOfBoundsException)
      else if instance[pos] == "0" then PredictAsWritten(t.left, instance, m)
      else PredictAsWritten(t.right, instance, m)
  }

  /**
    The intended walk: a missing node or a node without an attribute
    predicts nothing, so the prediction is not correct.
   */
  ghost function Predict(t: Tree, instance: seq<string>, m: PosMap): (r: bool)
    requires RowFits(instance, m)
    ensures r ==> t.Node? && instance[|instance| - 1] in LeafLabels(t)
  {
    if t.Nil? then false
    else if t.classLabel.Some? then instance[|instance| - 1] == t.classLabel.value
    else if t.attribute.None? then false
    else
      var pos := PosOf(m, t.attribute.value);
      if pos == -1 then false
      else if instance[pos] == "0" then Predict(t.left, instance, m)
      else Predict(t.right, instance, m)
  }

  /**
    On rows that fit, the two walks agree whenever the literal one returns,
    and where it fails it fails on a missing node, and the intended walk
    answers "not correct".
   */
  lemma {:induction false} PredictAgrees(t: Tree, instance: seq<string>, m: PosMap)
    requires RowFits(instance, m)
    ensures PredictAsWritten(t, instance, m).Returns? ==>
              Predict(t, instance, m) == PredictAsWritten(t, instance, m).value
    ensures PredictAsWritten(t, instance, m).Throws? ==>
              PredictAsWritten(t, instance, m).error == NullPointerException && !Predict(t, instance, m)
  {
    if t.Node? && t.classLabel.None? && t.attribute.Some? {
      var pos := PosOf(m, t.attribute.value);
      if pos != -1 {
        if instance[pos] == "0" {
          PredictAgrees(t.left, instance, m);
        } else {
          PredictAgrees(t.right, instance, m);
        }
      }
    }
  }

  /**
    The literal walk fails on a row that fits: a decision node on the last
    attribute keeps two missing children, and the row's "0" sends the walk
    to the left one.
   */
  lemma PredictAsWrittenCrashes()
    ensures var t := Node(0, 0, Some("A"), None, 1, 1, Nil, Nil);
      && RowFits(["0", "0"], map[0 := "A"])
      && PredictAsWritten(t, ["0", "0"], map[0 := "A"]) == Throws(NullPointerException)
      && !Predict(t, ["0", "0"], map[0 := "A"])
  {
    var m := map[0 := "A"];
    assert Matches(m, "A") == {0} by {
      assert m[0] == "A";
    }
    assert PosOf(m, "A") == 0;
  }

  /** Every row fits the position map. */
  predicate AllFit(instances: seq<seq<string>>, m: PosMap)
  {
    forall i :: 0 <= i < |instances| ==> RowFits(instances[i], m)
  }

  /** The number of rows whose label the tree predicts. */
  ghost function CorrectCount(t: Tree, instances: seq<seq<string>>, m: PosMap): (r: nat)
    requires AllFit(instances, m)
    ensures r <= |instances|
    decreases |instances|
  {
    if instances == [] then 0
    else
      var n := |instances| - 1;
      CorrectCount(t, instances[..n], m) + (if Predict(t, instances[n], m) then 1 else 0)
  }

  /** The positions of the rows whose label the tree predicts. */
  ghost function CorrectRows(t: Tree, instances: seq<seq<string>>, m: PosMap): set<int>
    requires AllFit(instances, m)
  {
    set i | 0 <= i < |instances| && Predict(t, instances[i], m)
  }

  /** The count is the number of correctly predicted rows. */
  lemma {:induction false} CorrectCountRows(t: Tree, instances: seq<seq<string>>, m: PosMap)
    requires AllFit(instances, m)
    ensures CorrectCount(t, instances, m) == |CorrectRows(t, instances, m)|
    decreases |instances|
  {
    if instances != [] {
      var n := |instances| - 1;
      var init := instances[..n];
      CorrectCountRows(t, init, m);
      var before := CorrectRows(t, init, m);
      var now := CorrectRows(t, instances, m);
      forall i | 0 <= i < n
        ensures i in now <==> i in before
      {
        assert init[i] == instances[i];
      }
      if Predict(t, instances[n], m) {
        assert now == before + {n};
      } else {
        assert now == before;
      }
    }
  }

  /** A correct prediction by a well-formed tree means the row's label is "0" or "1". */
  lemma {:induction false} PredictedLabels(t: Tree, instance: seq<string>, m: PosMap)
    requires RowFits(instance, m) && WellFormed(t) && Predict(t, instance, m)
    ensures instance[|instance| - 1] == "0" || instance[|instance| - 1] == "1"
  {
    if t.classLabel.None? {
      var pos := PosOf(m, t.attribute.value);
      if instance[pos] == "0" {
        PredictedLabels(t.left, instance, m);
      } else {
        PredictedLabels(t.right, instance, m);
      }
    }
  }
}
