/**
  The in-memory part of reading a data set: a header of attribute names
  whose last entry names the class column, then data lines, each given
  already split into its fields, the class label last.

  Reading the header builds the position-to-name map; every non-empty line
  appends its fields to the per-position value lists, its label to the
  label list and the whole row to the instance list; at the end the value
  lists are renamed by the header into the attribute table the learner
  takes.
 */
module DataProcess {
  import opened IntKeys
  import opened Partition

  /** A data line: an empty line, or its fields. */
  datatype Line = EmptyLine | Fields(fields: seq<string>)

  /** Every non-empty line has at least one field, its label. */
  predicate LinesFit(lines: seq<Line>)
  {
    forall j :: 0 <= j < |lines| && lines[j].Fields? ==> |lines[j].fields| >= 1
  }

  /** The rows of the non-empty lines, in order. */
  function Rows(lines: seq<Line>): (rows: seq<seq<string>>)
    ensures |rows| <= |lines|
    ensures LinesFit(lines) ==> forall r :: 0 <= r < |rows| ==> |rows[r]| >= 1
  {
    if lines == [] then []
    else
      var n := |lines| - 1;
      Rows(lines[..n]) + (if lines[n].Fields? then [lines[n].fields] else [])
  }

  /** The values that position `i` collects from the rows: field i of every row that has it before its label. */
  function Column(rows: seq<seq<string>>, i: int): (c: seq<string>)
    ensures |c| <= |rows|
  {
    if rows == [] then []
    else
      var n := |rows| - 1;
      Column(rows[..n], i) + (if 0 <= i < |rows[n]| - 1 then [rows[n][i]] else [])
  }

  /** The value list at position `i`, empty when the map has none. */
  function ValuesAt(valMap: map<int, seq<string>>, i: int): seq<string>
  {
    if i in valMap then valMap[i] else []
  }

  /**
    When every row has `width` fields, position i < width - 1 collects
    field i of every row, one value per row, and no other position collects
    anything.
   */
  lemma {:induction false} ColumnAligned(rows: seq<seq<string>>, width: int, i: int)
    requires forall r :: 0 <= r < |rows| ==> |rows[r]| == width
    ensures 0 <= i < width - 1 ==>
      |Column(rows, i)| == |rows| && forall r :: 0 <= r < |rows| ==> Column(rows, i)[r] == rows[r][i]
    ensures !(0 <= i < width - 1) ==> Column(rows, i) == []
    decreases |rows|
  {
    if rows != [] {
      var n := |rows| - 1;
      ColumnAligned(rows[..n], width, i);
      if 0 <= i < width - 1 {
        forall r | 0 <= r < |rows|
          ensures Column(rows, i)[r] == rows[r][i]
        {
          if r < n {
            assert rows[..n][r] == rows[r];
          }
        }
      }
    }
  }

  /**
    The value lists after one more row: the list at each position before
    the row's label grows by that field at its end, every other list is as
    it was.
   */
  function AddRow(valMap: map<int, seq<string>>, row: seq<string>): (r: map<int, seq<string>>)
    ensures forall i :: i in r <==> i in valMap || 0 <= i < |row| - 1
    ensures forall i :: 0 <= i < |row| - 1 ==> r[i] == ValuesAt(valMap, i) + [row[i]]
    ensures forall i :: i in valMap && !(0 <= i < |row| - 1) ==> r[i] == valMap[i]
  {
    valMap + map i | 0 <= i < |row| - 1 :: ValuesAt(valMap, i) + [row[i]]
  }

  /** The value lists after the rows, one after the other. */
  function Collect(valMap: map<int, seq<string>>, rows: seq<seq<string>>): (r: map<int, seq<string>>)
    ensures valMap.Keys <= r.Keys
  {
    if rows == [] then valMap
    else AddRow(Collect(valMap, rows[..|rows| - 1]), rows[|rows| - 1])
  }

  /** `valMap` holds, at every position, the values of `start` followed by those the rows add there. */
  ghost predicate Collected(valMap: map<int, seq<string>>, start: map<int, seq<string>>, rows: seq<seq<string>>)
  {
    && (forall i :: i in valMap <==> i in start || Column(rows, i) != [])
    && (forall i :: i in valMap ==> valMap[i] == ValuesAt(start, i) + Column(rows, i))
  }

  /** Reading the rows leaves at each position the values it held, then field i of every row that has one. */
  lemma {:induction false} CollectColumns(start: map<int, seq<string>>, rows: seq<seq<string>>)
    ensures Collected(Collect(start, rows), start, rows)
    decreases |rows|
  {
    if rows != [] {
      var n := |rows| - 1;
      CollectColumns(start, rows[..n]);
      var prev := Collect(start, rows[..n]);
      var next := Collect(start, rows);
      assert next == AddRow(prev, rows[n]);
      forall i
        ensures i in next <==> i in start || Column(rows, i) != []
        ensures i in next ==> next[i] == ValuesAt(start, i) + Column(rows, i)
      {
        assert Column(rows, i) == Column(rows[..n], i) + (if 0 <= i < |rows[n]| - 1 then [rows[n][i]] else []);
        if 0 <= i < |rows[n]| - 1 {
          assert next[i] == ValuesAt(prev, i) + [rows[n][i]];
        } else if i in prev {
          assert next[i] == prev[i];
        }
      }
    }
  }

  /**
    `k` is the last position among `done` that has values and is named
    `name`: the one whose values end up under that name.
   */
  predicate LastNamedIn(labelMap: map<int, string>, valMap: map<int, seq<string>>, done: set<int>, name: string, k: int)
  {
    && k in done && k in labelMap && k in valMap && labelMap[k] == name
    && forall j :: j in done && j in labelMap && j in valMap && labelMap[j] == name ==> j <= k
  }

  /**
    The attribute table formed from the positions in `done`: every named
    position with values gives its name, and each name holds the values of
    the last such position carrying it.
   */
  ghost predicate FormedOver(attrMap: map<string, seq<string>>, labelMap: map<int, string>,
                             valMap: map<int, seq<string>>, done: set<int>): (b: bool)
    ensures done == {} ==> (b <==> attrMap == map[])
  {
    && (forall k :: k in done && k in labelMap && k in valMap ==> labelMap[k] in attrMap)
    && (forall name :: name in attrMap ==>
          exists k :: LastNamedIn(labelMap, valMap, done, name, k) && attrMap[name] == valMap[k])
  }

  /** Taking one more position, larger than all before it, into the table. */
  lemma FormStep(attrMap: map<string, seq<string>>, labelMap: map<int, string>, valMap: map<int, seq<string>>,
                 done: set<int>, key: int)
    requires FormedOver(attrMap, labelMap, valMap, done) && key in labelMap
    requires forall j :: j in done ==> j < key
    ensures FormedOver(if key in valMap then attrMap[labelMap[key] := valMap[key]] else attrMap,
                       labelMap, valMap, done + {key})
  {
    var next := if key in valMap then attrMap[labelMap[key] := valMap[key]] else attrMap;
    var done' := done + {key};
    forall name | name in next
      ensures exists k :: LastNamedIn(labelMap, valMap, done', name, k) && next[name] == valMap[k]
    {
      if key in valMap && name == labelMap[key] {
        assert LastNamedIn(labelMap, valMap, done', name, key);
      } else {
        var k :| LastNamedIn(labelMap, valMap, done, name, k) && attrMap[name] == valMap[k];
        assert LastNamedIn(labelMap, valMap, done', name, k);
      }
    }
  }

  /** When no two positions with values share a name, each name holds exactly its position's values. */
  lemma FormedDistinct(attrMap: map<string, seq<string>>, labelMap: map<int, string>, valMap: map<int, seq<string>>)
    requires FormedOver(attrMap, labelMap, valMap, labelMap.Keys)
    requires forall j, k :: j in labelMap && k in labelMap && j in valMap && k in valMap && labelMap[j] == labelMap[k] ==> j == k
    ensures forall k :: k in labelMap && k in valMap ==> labelMap[k] in attrMap && attrMap[labelMap[k]] == valMap[k]
  {
    forall k | k in labelMap && k in valMap
      ensures attrMap[labelMap[k]] == valMap[k]
    {
      var name := labelMap[k];
      var k' :| LastNamedIn(labelMap, valMap, labelMap.Keys, name, k') && attrMap[name] == valMap[k'];
    }
  }

  /** When every value list has `n` entries, so has every attribute of the table. */
  lemma FormedAligned(attrMap: map<string, seq<string>>, labelMap: map<int, string>, valMap: map<int, seq<string>>,
                      done: set<int>, n: int)
    requires FormedOver(attrMap, labelMap, valMap, done)
    requires forall k :: k in valMap ==> |valMap[k]| == n
    ensures forall name :: name in attrMap ==> |attrMap[name]| == n
  {
    forall name | name in attrMap
      ensures |attrMap[name]| == n
    {
      var k :| LastNamedIn(labelMap, valMap, done, name, k) && attrMap[name] == valMap[k];
    }
  }

  /**
    Reading rows of one width into empty value lists: exactly the positions
    before the label have lists, each with one value per row, the value of
    row r at position i being field i of row r.
   */
  lemma ValuesAligned(valMap: map<int, seq<string>>, rows: seq<seq<string>>, width: int)
    requires Collected(valMap, map[], rows)
    requires forall r :: 0 <= r < |rows| ==> |rows[r]| == width
    ensures forall i :: i in valMap <==> |rows| > 0 && 0 <= i < width - 1
    ensures forall i :: i in valMap ==>
      |valMap[i]| == |rows| && forall r :: 0 <= r < |rows| ==> valMap[i][r] == rows[r][i]
  {
    forall i
      ensures i in valMap <==> |rows| > 0 && 0 <= i < width - 1
      ensures i in valMap ==> |valMap[i]| == |rows| && forall r :: 0 <= r < |rows| ==> valMap[i][r] == rows[r][i]
    {
      ColumnAligned(rows, width, i);
    }
  }

  /**
    When every row has the same width, the attribute table formed from the
    value lists is aligned with the label list: every attribute has one
    value per label, as the learner requires.
   */
  lemma TableAligned(attrMap: Table, labelMap: map<int, string>, valMap: map<int, seq<string>>,
                     rows: seq<seq<string>>, labels: seq<string>, width: int)
    requires Collected(valMap, map[], rows) && |labels| == |rows|
    requires forall r :: 0 <= r < |rows| ==> |rows[r]| == width
    requires FormedOver(attrMap, labelMap, valMap, labelMap.Keys)
    ensures Aligned(attrMap, labels)
  {
    ValuesAligned(valMap, rows, width);
    FormedAligned(attrMap, labelMap, valMap, labelMap.Keys, |rows|);
  }

  class DataProcessUtil {
    /** Attribute name to its value list, formed at the end of processing. */
    var attrMap: map<string, seq<string>>
    /** Header position to attribute name, the class column left out. */
    var attrLabelMap: map<int, string>
    /** Header position to the values read so far at that position. */
    var attrValMap: map<int, seq<string>>
    var labels: seq<string>
    var instanceList: seq<seq<string>>

    /** One label per row, and it is the row's last field. */
    ghost predicate Valid()
      reads this
    {
      && |labels| == |instanceList|
      && forall r :: 0 <= r < |instanceList| ==>
           |instanceList[r]| >= 1 && labels[r] == instanceList[r][|instanceList[r]| - 1]
    }

    constructor ()
      ensures Valid()
      ensures attrMap == map[] && attrLabelMap == map[] && attrValMap == map[]
      ensures labels == [] && instanceList == []
    {
      attrMap := map[];
      attrLabelMap := map[];
      attrValMap := map[];
      labels := [];
      instanceList := [];
    }

    /** Positions 0 .. |attrArr| - 2 named by the header; the class column is left out. */
    method GetAttrLabelMap(attrArr: seq<string>) returns (m: map<int, string>)
      ensures forall i :: i in m <==> 0 <= i < |attrArr| - 1
      ensures forall i :: 0 <= i < |attrArr| - 1 ==> m[i] == attrArr[i]
    {
      m := map[];
      var i := 0;
      while i < |attrArr| - 1
        invariant 0 <= i && (i == 0 || i <= |attrArr| - 1)
        invariant forall j :: j in m <==> 0 <= j < i
        invariant forall j :: 0 <= j < i ==> m[j] == attrArr[j]
      {
        m := m[i := attrArr[i]];
        i := i + 1;
      }
    }

    /** Adds one row's fields to the value lists (see `AddRow`). */
    method GetAttrValMap(valArr: seq<string>, map_: map<int, seq<string>>) returns (r: map<int, seq<string>>)
      ensures r == AddRow(map_, valArr)
    {
      r := map_;
      var i := 0;
      while i < |valArr| - 1
        invariant 0 <= i && (i == 0 || i <= |valArr| - 1)
        invariant forall j :: j in r <==> j in map_ || 0 <= j < i
        invariant forall j :: 0 <= j < i ==> r[j] == ValuesAt(map_, j) + [valArr[j]]
        invariant forall j :: j in map_ && !(0 <= j < i) ==> r[j] == map_[j]
      {
        var valueList: seq<string>;
        if i !in r {
          valueList := [];
        } else {
          valueList := r[i];
        }
        valueList := valueList + [valArr[i]];
        r := r[i := valueList];
        i := i + 1;
      }
    }

    /**
      The attribute table: the name of every header position that has
      values, holding those values; positions are taken in ascending order,
      so a name given twice keeps the values of its last position.
     */
    method FormAttrMap(attrLabelMap: map<int, string>, attrValMap: map<int, seq<string>>)
      returns (attrMap: map<string, seq<string>>)
      ensures FormedOver(attrMap, attrLabelMap, attrValMap, attrLabelMap.Keys)
    {
      attrMap := map[];
      var keySet := attrLabelMap.Keys;
      ghost var done: set<int> := {};
      while keySet != {}
        invariant keySet <= attrLabelMap.Keys && done == attrLabelMap.Keys - keySet
        invariant forall j, k :: j in done && k in keySet ==> j < k
        invariant FormedOver(attrMap, attrLabelMap, attrValMap, done)
        decreases |keySet|
      {
        var key := Least(keySet);
        FormStep(attrMap, attrLabelMap, attrValMap, done, key);
        if key in attrValMap {
          attrMap := attrMap[attrLabelMap[key] := attrValMap[key]];
        }
        keySet := keySet - {key};
        done := done + {key};
      }
    }

    /** One line of the data: an empty line is skipped, any other adds its values, its label and its row. */
    method ProcessLine(line: Line)
      requires Valid() && (line.Fields? ==> |line.fields| >= 1)
      modifies this`attrValMap, this`labels, this`instanceList
      ensures Valid()
      ensures line.EmptyLine? ==>
        labels == old(labels) && instanceList == old(instanceList) && attrValMap == old(attrValMap)
      ensures line.Fields? ==>
        && labels == old(labels) + [line.fields[|line.fields| - 1]]
        && instanceList == old(instanceList) + [line.fields]
        && attrValMap == AddRow(old(attrValMap), line.fields)
    {
      if line.Fields? {
        var valArr := line.fields;
        attrValMap := GetAttrValMap(valArr, attrValMap);
        labels := labels + [valArr[|valArr| - 1]];
        instanceList := instanceList + [valArr];
        assert forall r :: 0 <= r < |instanceList| - 1 ==> instanceList[r] == old(instanceList)[r] && labels[r] == old(labels)[r];
      }
    }

    /**
      Reads every line in order: the instance list grows by the rows of the
      non-empty lines, the label list by their labels, and each position
      collects the fields those rows have there.
     */
    method ReadLines(lines: seq<Line>)
      requires Valid() && LinesFit(lines)
      modifies this`attrValMap, this`labels, this`instanceList
      ensures Valid()
      ensures instanceList == old(instanceList) + Rows(lines)
      ensures attrValMap == Collect(old(attrValMap), Rows(lines))
    {
      ghost var start, startRows := attrValMap, instanceList;
      ghost var seen: seq<seq<string>> := [];
      for j := 0 to |lines|
        invariant Valid()
        invariant seen == Rows(lines[..j])
        invariant instanceList == startRows + seen
        invariant attrValMap == Collect(start, seen)
      {
        assert lines[..j + 1][..j] == lines[..j];
        ProcessLine(lines[j]);
        if lines[j].Fields? {
          assert (seen + [lines[j].fields])[..|seen|] == seen;
          seen := seen + [lines[j].fields];
        }
      }
      assert lines[..|lines|] == lines;
    }

    /**
      Reads the header and then every line, and forms the attribute table
      from the header names and the collected values.
     */
    method ProcessData(header: seq<string>, lines: seq<Line>)
      requires Valid() && LinesFit(lines)
      modifies this
      ensures Valid()
      ensures forall i :: i in attrLabelMap <==> 0 <= i < |header| - 1
      ensures forall i :: 0 <= i < |header| - 1 ==> attrLabelMap[i] == header[i]
      ensures instanceList == old(instanceList) + Rows(lines)
      ensures Collected(attrValMap, old(attrValMap), Rows(lines))
      ensures FormedOver(attrMap, attrLabelMap, attrValMap, attrLabelMap.Keys)
    {
      attrLabelMap := GetAttrLabelMap(header);
      ReadLines(lines);
      CollectColumns(old(attrValMap), Rows(lines));
      attrMap := FormAttrMap(attrLabelMap, attrValMap);
    }
  }
}
