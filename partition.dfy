/**
  How the builder narrows its data for a child: the instance positions an
  attribute column splits into, and the projection of the label list and
  of every attribute column onto such a position list.
 */
module Partition {

  /** An attribute table: attribute name to its value column. */
  type Table = map<string, seq<string>>

  predicate Increasing(s: seq<int>)
  {
    forall i, j :: 0 <= i < j < |s| ==> s[i] < s[j]
  }

  /** The positions whose value is "0", in increasing order (see `ZeroIndicesSpec`). */
  function ZeroIndices(col: seq<string>): (r: seq<int>)
    ensures IndicesWithin(r, |col|)
    decreases |col|
  {
    if col == [] then []
    else
      var init := ZeroIndices(col[..|col| - 1]);
      init + (if col[|col| - 1] == "0" then [|col| - 1] else [])
  }

  /** The positions whose value is anything but "0", in increasing order (see `OtherIndicesSpec`). */
  function OtherIndices(col: seq<string>): (r: seq<int>)
    ensures IndicesWithin(r, |col|)
    decreases |col|
  {
    if col == [] then []
    else
      var init := OtherIndices(col[..|col| - 1]);
      init + (if col[|col| - 1] != "0" then [|col| - 1] else [])
  }

  /** `ZeroIndices` lists exactly the "0" positions, each once, in increasing order. */
  lemma {:induction false} ZeroIndicesSpec(col: seq<string>)
    ensures Increasing(ZeroIndices(col))
    ensures forall x :: x in ZeroIndices(col) <==> 0 <= x < |col| && col[x] == "0"
    decreases |col|
  {
    if col != [] {
      var n := |col| - 1;
      var init := ZeroIndices(col[..n]);
      ZeroIndicesSpec(col[..n]);
      assert ZeroIndices(col) == init + (if col[n] == "0" then [n] else []);
      forall x
        ensures x in ZeroIndices(col) <==> 0 <= x < |col| && col[x] == "0"
      {
        if 0 <= x < n {
          assert col[..n][x] == col[x];
        }
      }
    }
  }

  /** `OtherIndices` lists exactly the other positions, each once, in increasing order. */
  lemma {:induction false} OtherIndicesSpec(col: seq<string>)
    ensures Increasing(OtherIndices(col))
    ensures forall x :: x in OtherIndices(col) <==> 0 <= x < |col| && col[x] != "0"
    decreases |col|
  {
    if col != [] {
      var n := |col| - 1;
      var init := OtherIndices(col[..n]);
      OtherIndicesSpec(col[..n]);
      assert OtherIndices(col) == init + (if col[n] != "0" then [n] else []);
      forall x
        ensures x in OtherIndices(col) <==> 0 <= x < |col| && col[x] != "0"
      {
        if 0 <= x < n {
          assert col[..n][x] == col[x];
        }
      }
    }
  }

  /** The two index lists partition the positions 0 .. |col|-1. */
  lemma {:induction false} SplitPartitions(col: seq<string>)
    ensures |ZeroIndices(col)| + |OtherIndices(col)| == |col|
    ensures forall x :: x in ZeroIndices(col) ==> x !in OtherIndices(col)
    ensures forall x :: 0 <= x < |col| ==> x in ZeroIndices(col) || x in OtherIndices(col)
  {
    ZeroIndicesSpec(col);
    OtherIndicesSpec(col);
    SplitCount(col);
  }

  lemma {:induction false} SplitCount(col: seq<string>)
    ensures |ZeroIndices(col)| + |OtherIndices(col)| == |col|
    decreases |col|
  {
    if col != [] {
      SplitCount(col[..|col| - 1]);
    }
  }

  predicate IndicesWithin(idx: seq<int>, n: int)
  {
    forall j :: 0 <= j < |idx| ==> 0 <= idx[j] < n
  }

  /** Element j of the result is element idx[j] of `s`. */
  function Project(s: seq<string>, idx: seq<int>): (r: seq<string>)
    requires IndicesWithin(idx, |s|)
    ensures |r| == |idx|
    ensures forall j :: 0 <= j < |r| ==> r[j] in s
  {
    seq(|idx|, j requires 0 <= j < |idx| => s[idx[j]])
  }

  /** Every column of the table is as long as the label list. */
  predicate Aligned(table: Table, labels: seq<string>)
  {
    forall k :: k in table ==> |table[k]| == |labels|
  }

  /** Each column projected onto the same index list. */
  function Purify(table: Table, idx: seq<int>): (r: Table)
    requires forall k :: k in table ==> IndicesWithin(idx, |table[k]|)
    ensures r.Keys == table.Keys
    ensures forall k :: k in r ==> |r[k]| == |idx|
  {
    map k | k in table :: Project(table[k], idx)
  }

  /**
    Projecting an aligned table and its labels onto one index list leaves
    them aligned, on exactly the same attributes.
   */
  lemma PurifyAligned(table: Table, labels: seq<string>, idx: seq<int>)
    requires Aligned(table, labels) && IndicesWithin(idx, |labels|)
    ensures Purify(table, idx).Keys == table.Keys
    ensures |Purify(table, idx)| == |table|
    ensures Aligned(Purify(table, idx), Project(labels, idx))
  {
    assert Purify(table, idx).Keys == table.Keys;
  }

  lemma ProjectPrefix(s: seq<string>, n: nat, idx: seq<int>)
    requires n <= |s| && IndicesWithin(idx, n)
    ensures Project(s, idx) == Project(s[..n], idx)
  {
  }

  lemma ProjectAppend(s: seq<string>, idx: seq<int>, n: int)
    requires IndicesWithin(idx, |s|) && 0 <= n < |s|
    ensures IndicesWithin(idx + [n], |s|)
    ensures Project(s, idx + [n]) == Project(s, idx) + [s[n]]
  {
  }

  /** One more position: the last one joins exactly one of the two index lists. */
  lemma SplitStep(col: seq<string>, labels: seq<string>)
    requires |col| == |labels| > 0
    ensures var n := |col| - 1;
      && Project(labels, ZeroIndices(col))
         == Project(labels[..n], ZeroIndices(col[..n])) + (if col[n] == "0" then [labels[n]] else [])
      && Project(labels, OtherIndices(col))
         == Project(labels[..n], OtherIndices(col[..n])) + (if col[n] != "0" then [labels[n]] else [])
  {
    var n := |col| - 1;
    var z', o' := ZeroIndices(col[..n]), OtherIndices(col[..n]);
    ProjectPrefix(labels, n, z');
    ProjectPrefix(labels, n, o');
    ProjectAppend(labels, z', n);
    ProjectAppend(labels, o', n);
  }

  /** Adding one element to exactly one of two parts keeps them a split of the whole. */
  lemma MultisetStep(z: seq<string>, o: seq<string>, init: seq<string>, x: string, toZero: bool)
    requires multiset(z) + multiset(o) == multiset(init)
    ensures multiset(z + (if toZero then [x] else [])) + multiset(o + (if toZero then [] else [x]))
            == multiset(init + [x])
  {
  }

  /** Projecting onto the "0" positions and onto the other positions loses and invents no label. */
  lemma {:induction false} SplitKeepsLabels(col: seq<string>, labels: seq<string>)
    requires |col| == |labels|
    ensures multiset(Project(labels, ZeroIndices(col))) + multiset(Project(labels, OtherIndices(col)))
            == multiset(labels)
    decreases |col|
  {
    if col != [] {
      var n := |col| - 1;
      var z, o := Project(labels[..n], ZeroIndices(col[..n])), Project(labels[..n], OtherIndices(col[..n]));
      SplitKeepsLabels(col[..n], labels[..n]);
      SplitStep(col, labels);
      MultisetStep(z, o, labels[..n], labels[n], col[n] == "0");
      assert labels[..n] + [labels[n]] == labels;
    }
  }
}
