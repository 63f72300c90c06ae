# ID3 decision tree learner — a Dafny model

This project models the core of the ID3 decision-tree learner of the MLHW
repository, in two parts.

The learner (`DecisionTreeID3.java`):
- builds a binary tree from an attribute table and a label list;
- numbers its nodes in preorder from a counter;
- copies, searches and counts the tree;
- prunes a copy by turning randomly drawn nodes into majority-label leaves;
- counts how many rows of a data set the tree predicts correctly.

The data reader (`DataProcessUtil.java`):
- turns a header line and the data lines into the position-to-name map;
- builds the per-position value lists, the label list and the instance list;
- forms the attribute table the learner takes from them.

Modules:

| file | module | what it holds |
|---|---|---|
| `tree.dfy` | `TreeModel` | the tree as a value, the majority rule, ids, lookup, well-formedness |
| `partition.dfy` | `Partition` | the "0"/other index lists and the projection of labels and columns |
| `builder.dfy` | `Builder` | the recursive build as a function of table, labels, height, counter and chooser |
| `pruning.dfy` | `Pruning` | one pruning step and a pruning pass over a sequence of draws |
| `prediction.dfy` | `Prediction` | the prediction walk, both as written and as evidently intended, and the correct count |
| `int_keys.dfy` | `IntKeys` | the least element of a set of positions (ascending key order) |
| `tree_node.dfy` | `TreeNodes` | the mutable `TreeNode` class, its footprint, and pruning in place |
| `decision_tree_id3.dfy` | `ID3` | the learner class with its counters and methods |
| `data_process_util.dfy` | `DataProcess` | the reader class with its maps and lists and methods |

The heap-based methods are each proved against the value-level functions:
- `ConstructTree` builds a node structure whose value is `BuildTree`;
- `PruneNodes` leaves the value `PruneRounds`;
- `CheckPrediction` answers `Predict`;
- `ProcessData` leaves `Collect` and `FormedOver`.

The properties the source promises are lemmas about those functions.

The information-gain search (`getSplitAttr`) is a parameter of the learner, the chooser. It must return `""` or an attribute of the table it is given. The pure-labels test (parent entropy 0.0) is stated on the counts: one class is absent. The random draws of the pruner are a given sequence of ids.

## Model

| member | source | states |
|---|---|---|
| TreeModel.ClassLabel | src/main/java/asg2/DecisionTreeID3.java:367-372 | the label is "0" exactly when the zero count is at least the one count, else "1" |
| TreeModel.ZeroCount | src/main/java/asg2/DecisionTreeID3.java:527-538 | the number of "0" labels, never more than the list length |
| TreeModel.Lookup | src/main/java/asg2/DecisionTreeID3.java:165-183 | a node found carries the id searched for |
| TreeModel.LookupFinds | src/main/java/asg2/DecisionTreeID3.java:165-183 | the search finds a node exactly when some node carries the id |
| TreeModel.LookupSubtree | src/main/java/asg2/DecisionTreeID3.java:165-183 | with unique ids, searching a node's id finds that node's subtree |
| TreeModel.LeafCountBound | src/main/java/asg2/DecisionTreeID3.java:134-157 | a tree never has more leaves than nodes |
| TreeModel.UniqueIdsCount | src/main/java/asg2/DecisionTreeID3.java:16 | with unique ids there are exactly as many ids as nodes |
| TreeModel.SubtreeIds | src/main/java/asg2/DecisionTreeID3.java:165-183 | a subtree's ids are ids of the tree |
| Partition.ZeroIndices | src/main/java/asg2/DecisionTreeID3.java:380-398 | the left index list only holds positions of the column |
| Partition.OtherIndices | src/main/java/asg2/DecisionTreeID3.java:380-398 | the right index list only holds positions of the column |
| Partition.ZeroIndicesSpec | src/main/java/asg2/DecisionTreeID3.java:386-390 | the left list is increasing and holds exactly the positions whose value is "0" |
| Partition.OtherIndicesSpec | src/main/java/asg2/DecisionTreeID3.java:386-390 | the right list is increasing and holds exactly the positions whose value is not "0" |
| Partition.SplitPartitions | src/main/java/asg2/DecisionTreeID3.java:380-398 | the two lists are disjoint, cover 0..n-1, and their lengths add up to n |
| Partition.Project | src/main/java/asg2/DecisionTreeID3.java:428-434 | one entry per listed index, each taken from the list being narrowed |
| Partition.Purify | src/main/java/asg2/DecisionTreeID3.java:406-420 | the same attributes, each column as long as the index list |
| Partition.PurifyAligned | src/main/java/asg2/DecisionTreeID3.java:406-434 | projecting an aligned table and its labels keeps the same attributes and keeps them aligned |
| Partition.SplitKeepsLabels | src/main/java/asg2/DecisionTreeID3.java:324-331 | the labels of the two children together are, as a multiset, the parent's labels |
| Builder.ChildTable | src/main/java/asg2/DecisionTreeID3.java:328-331 | a child's table has every attribute but the split one, aligned with the child's labels |
| Builder.EntropyIsZero | src/main/java/asg2/DecisionTreeID3.java:315-319 | the parent-entropy test, stated on the counts: one class is absent; the leaf made then carries the class that is present |
| Builder.PureLabels | src/main/java/asg2/DecisionTreeID3.java:315-317 | the test holds exactly when all labels are "0" or none is, that is when one class is absent |
| Builder.BuildTree | src/main/java/asg2/DecisionTreeID3.java:310-336 | no tree exactly when there are no labels or no attributes; otherwise the root takes the counter's id and the given height |
| Builder.BuildNode | src/main/java/asg2/DecisionTreeID3.java:325-334 | a decision node on the chosen attribute, with no label, taking the counter's id and the given height |
| Builder.BuildCases | src/main/java/asg2/DecisionTreeID3.java:310-336 | an empty build leaves the counter; a node takes the counter's id and the given height; a leaf has no children and takes one id |
| Builder.BuildLeaf | src/main/java/asg2/DecisionTreeID3.java:315-324 | pure labels, or no attribute chosen, give a leaf with the majority label and the label counts |
| Builder.BuildSplit | src/main/java/asg2/DecisionTreeID3.java:324-334 | otherwise the build is the decision node on the chosen attribute |
| Builder.SplitCase | src/main/java/asg2/DecisionTreeID3.java:326-334 | a decision node's children are the builds of the "0" rows and of the other rows, one level deeper, the left child numbered first |
| Builder.NodeFromChildren | src/main/java/asg2/DecisionTreeID3.java:326-334 | a decision node is assembled from its two child builds, with the node's id taken before them |
| Builder.BuildCount | src/main/java/asg2/DecisionTreeID3.java:310-336 | the counter advances by exactly the number of nodes built |
| Builder.BuildIds | src/main/java/asg2/DecisionTreeID3.java:310-336 | the ids are distinct and exactly the counter range, in preorder from the root |
| Builder.SplitIds | src/main/java/asg2/DecisionTreeID3.java:326-334 | a decision node's subtree has distinct ids forming its counter range |
| Builder.NodeIds | src/main/java/asg2/DecisionTreeID3.java:326-334 | two consecutive child ranges give the parent the range starting at its own id |
| Builder.BuildShape | src/main/java/asg2/DecisionTreeID3.java:310-336 | a built tree is well formed and its heights count from the given height; it is empty exactly when there are no labels or no attributes; its root records the label counts |
| Builder.BuildSplits | src/main/java/asg2/DecisionTreeID3.java:324-331 | only attributes of the table are split on, none twice along a path |
| Builder.LastAttributeSplit | src/main/java/asg2/DecisionTreeID3.java:311-312 | a split on the last remaining attribute has two missing children |
| Builder.ChildrenShareCounts | src/main/java/asg2/DecisionTreeID3.java:326-333 | while two attributes remain, the children's label counts add up to the parent's |
| Pruning.PruneAt | src/main/java/asg2/DecisionTreeID3.java:115-122 | a step keeps the tree present or absent, and the root keeps its id, height and label counts |
| Pruning.Rejected | src/main/java/asg2/DecisionTreeID3.java:110 | an id no node carries is redrawn only when it was used before |
| Pruning.PruneRounds | src/main/java/asg2/DecisionTreeID3.java:103-127 | the accepted list grows by at most one id per draw; no rounds leave the tree and the list unchanged |
| Pruning.ToLeaf | src/main/java/asg2/DecisionTreeID3.java:115-122 | a pruned node becomes a well-formed leaf with its own id only |
| Pruning.PruneAtAbsent | src/main/java/asg2/DecisionTreeID3.java:115 | an id no node carries leaves the tree unchanged |
| Pruning.PruneAtKeeps | src/main/java/asg2/DecisionTreeID3.java:115-122 | a step keeps ids unique, well-formedness and heights; it removes exactly the ids below the pruned node |
| Pruning.PruneAtShape | src/main/java/asg2/DecisionTreeID3.java:115-122 | a step keeps the tree well formed and its heights, and never adds a node |
| Pruning.PruneAtRemoves | src/main/java/asg2/DecisionTreeID3.java:116-117 | pruning a node drops exactly the ids of its two subtrees |
| Pruning.PruneAtMakesLeaf | src/main/java/asg2/DecisionTreeID3.java:115-122 | afterwards the id names a leaf with the node's id, height, counts and majority label |
| Pruning.PruneAtKeepsOthers | src/main/java/asg2/DecisionTreeID3.java:115-122 | every other surviving node keeps its own fields |
| Pruning.PruneAtIds | src/main/java/asg2/DecisionTreeID3.java:115-122 | a step never introduces an id |
| Pruning.PruneAtUnique | src/main/java/asg2/DecisionTreeID3.java:115-122 | a step keeps ids unique |
| Pruning.SubtreeOfLookup | src/main/java/asg2/DecisionTreeID3.java:165-183 | the node found and its children are subtrees of the tree searched |
| Pruning.PruneRoundsKeeps | src/main/java/asg2/DecisionTreeID3.java:103-127 | a pass keeps the tree well formed with unique ids and never adds a node; the accepted list only grows, by at most the round count, with no id twice |
| Pruning.PruneRoundsLeaves | src/main/java/asg2/DecisionTreeID3.java:103-127 | after a pass every accepted id that still occurs names a leaf |
| Pruning.PruneStepLeaves | src/main/java/asg2/DecisionTreeID3.java:115-124 | one accepted step keeps the accepted ids on leaves and puts the new one on a leaf |
| Prediction.PredictAsWritten | src/main/java/asg2/DecisionTreeID3.java:244-259 | a missing node throws a null-pointer error; a correct answer means the row's label is carried by some leaf |
| Prediction.Predict | src/main/java/asg2/DecisionTreeID3.java:244-259 | a correct answer needs a tree, and the row's label is then carried by some leaf |
| Prediction.PosOf | src/main/java/asg2/DecisionTreeID3.java:267-274 | the first position naming the attribute, or -1 when none does |
| Prediction.PredictAgrees | src/main/java/asg2/DecisionTreeID3.java:244-259 | where the literal walk returns, the intended walk gives the same answer; where it fails, it is a null dereference and the intended walk answers "not correct" |
| Prediction.PredictAsWrittenCrashes | src/main/java/asg2/DecisionTreeID3.java:252-255 | a decision node with missing children makes the literal walk throw on a row that fits |
| Prediction.CorrectCount | src/main/java/asg2/DecisionTreeID3.java:227-235 | the count of correct rows is at most the number of rows |
| Prediction.CorrectCountRows | src/main/java/asg2/DecisionTreeID3.java:227-235 | the count equals the number of rows whose label the tree predicts |
| Prediction.PredictedLabels | src/main/java/asg2/DecisionTreeID3.java:245-246 | a correct prediction by a well-formed tree means the row's label is "0" or "1" |
| IntKeys.LeastExists | src/main/java/asg2/DataProcessUtil.java:100 | a non-empty set of positions has a least one |
| IntKeys.Least | src/main/java/asg2/DataProcessUtil.java:100 | returns the least position of a non-empty set |
| TreeNodes.TreeNode.constructor | src/main/java/asg2/DecisionTreeID3.java:561-568 | a new node has the given fields and no children |
| TreeNodes.TreeNode.Join | src/main/java/asg2/DecisionTreeID3.java:325-332 | a new node over two disjoint trees has them as its children |
| TreeNodes.TreeNode.Link | src/main/java/asg2/DecisionTreeID3.java:195-196 | hanging two trees below a node gives it them as children |
| TreeNodes.ReachValid | src/main/java/asg2/DecisionTreeID3.java:552-570 | a reachable node is valid, inside the footprint, and its tree is a subtree |
| TreeNodes.ReachChildren | src/main/java/asg2/DecisionTreeID3.java:552-570 | the children of a reachable node are reachable |
| TreeNodes.ReachLookup | src/main/java/asg2/DecisionTreeID3.java:165-183 | with unique ids, searching a reachable node's id finds its tree |
| TreeNodes.Path | src/main/java/asg2/DecisionTreeID3.java:552-570 | the chain of nodes from the root down to a reachable node, each a child of the one before |
| TreeNodes.PruneInPlace | src/main/java/asg2/DecisionTreeID3.java:115-122 | overwriting one reachable node's fields changes the tree as one pruning step does |
| TreeNodes.PruneToLeaf | src/main/java/asg2/DecisionTreeID3.java:115-122 | the field writes of one step prune exactly that node's id from the tree |
| ID3.ForestConcat | src/main/java/asg2/DecisionTreeID3.java:134-157 | joining two queues of subtrees joins their node counts, leaf counts and ids |
| ID3.QueueStep | src/main/java/asg2/DecisionTreeID3.java:140-152 | polling a node and queueing its children keeps the nodes still to visit, and counts the polled one |
| ID3.DrawRejected | src/main/java/asg2/DecisionTreeID3.java:109-113 | a redraw does not change the outcome of the pass |
| ID3.DrawAccepted | src/main/java/asg2/DecisionTreeID3.java:115-124 | an accepted draw prunes its id and uses up a round |
| ID3.LearnedTreeCrashes | src/main/java/asg2/DecisionTreeID3.java:244-259 | a tree the learner builds from two rows makes the literal walk throw on its first training row |
| ID3.AttrTable.constructor | src/main/java/asg2/DecisionTreeID3.java:81 | the attribute map object the builder narrows holds the given columns |
| ID3.DecisionTreeID3.constructor | src/main/java/asg2/DecisionTreeID3.java:16-17 | a new learner has no tree and both counters at zero |
| ID3.DecisionTreeID3.CalZeroOneLabels | src/main/java/asg2/DecisionTreeID3.java:527-538 | the number of "0" labels, and the rest |
| ID3.DecisionTreeID3.GetChildLevelDataIndexList | src/main/java/asg2/DecisionTreeID3.java:380-398 | returns the "0" positions and the other positions of the split column |
| ID3.DecisionTreeID3.PurifyLabels | src/main/java/asg2/DecisionTreeID3.java:428-434 | element j of the result is the label at index j of the list; the length is the list's |
| ID3.DecisionTreeID3.PurifyMap | src/main/java/asg2/DecisionTreeID3.java:406-420 | returns a fresh map with the same keys, every column projected onto the index list |
| ID3.DecisionTreeID3.ConstructSubtree | src/main/java/asg2/DecisionTreeID3.java:310-336 | the nodes built have the value `BuildTree`; the counter ends where that build ends; the leaf count grows by its leaves; a split removes its attribute from the caller's map |
| ID3.DecisionTreeID3.ConstructSplit | src/main/java/asg2/DecisionTreeID3.java:324-334 | the decision-node branch builds the value of the split |
| ID3.DecisionTreeID3.ConstructChildren | src/main/java/asg2/DecisionTreeID3.java:325-332 | the two children are built after the node takes its id, left before right, from the narrowed data |
| ID3.DecisionTreeID3.ConstructChild | src/main/java/asg2/DecisionTreeID3.java:331-332 | one child is the build of its side's narrowed data and leaves the sibling untouched |
| ID3.DecisionTreeID3.ChildData | src/main/java/asg2/DecisionTreeID3.java:331-332 | the narrowed table and labels of one side |
| ID3.DecisionTreeID3.ConstructTree | src/main/java/asg2/DecisionTreeID3.java:81-83 | the root holds the build from height 0; the counter advances by its size; the ids are exactly the counter range; the caller's map loses the root's split attribute and nothing else |
| ID3.DecisionTreeID3.CopyTree | src/main/java/asg2/DecisionTreeID3.java:190-199 | the copy has fresh nodes and the same tree |
| ID3.DecisionTreeID3.FindNode | src/main/java/asg2/DecisionTreeID3.java:165-183 | null exactly when no node carries the id, otherwise a reachable node carrying it |
| ID3.DecisionTreeID3.CountNodes | src/main/java/asg2/DecisionTreeID3.java:134-157 | the number of nodes and of leaves, 0 and 0 for no tree, leaves at most nodes |
| ID3.DecisionTreeID3.PruneNodes | src/main/java/asg2/DecisionTreeID3.java:103-127 | the tree in place becomes the result of the pruning pass over the draws |
| ID3.DecisionTreeID3.PruneTree | src/main/java/asg2/DecisionTreeID3.java:90-96 | returns a fresh copy holding the pruning pass's result; the learner's own tree is unchanged |
| ID3.DecisionTreeID3.GetPosFromAttrVal | src/main/java/asg2/DecisionTreeID3.java:267-274 | the least position naming the attribute, or -1 when none does |
| ID3.DecisionTreeID3.CheckPrediction | src/main/java/asg2/DecisionTreeID3.java:244-259 | the intended prediction walk's answer |
| ID3.DecisionTreeID3.GetCorrectCount | src/main/java/asg2/DecisionTreeID3.java:227-235 | the number of correctly predicted rows, between 0 and the number of rows |
| DataProcess.Rows | src/main/java/asg2/DataProcessUtil.java:38-44 | the non-empty lines' rows, no more than the lines, each with a label field |
| DataProcess.AddRow | src/main/java/asg2/DataProcessUtil.java:75-89 | position i < width - 1 gets field i appended, creating its list when missing; every other list is unchanged |
| DataProcess.ColumnAligned | src/main/java/asg2/DataProcessUtil.java:38-44 | for rows of one width, position i < width - 1 collects field i of each row, one per row; other positions collect nothing |
| DataProcess.Column | src/main/java/asg2/DataProcessUtil.java:38-44 | a position collects at most one value per row |
| DataProcess.Collect | src/main/java/asg2/DataProcessUtil.java:37-47 | reading rows never removes a position's value list |
| DataProcess.CollectColumns | src/main/java/asg2/DataProcessUtil.java:37-47 | after the rows, each position holds its old values followed by the fields the rows have there |
| DataProcess.FormedOver | src/main/java/asg2/DataProcessUtil.java:97-106 | the table formed over no positions is exactly the empty table |
| DataProcess.FormStep | src/main/java/asg2/DataProcessUtil.java:99-103 | taking the next larger position keeps the table formed |
| DataProcess.FormedDistinct | src/main/java/asg2/DataProcessUtil.java:97-106 | with distinct header names, each name holds exactly its position's values |
| DataProcess.FormedAligned | src/main/java/asg2/DataProcessUtil.java:97-106 | when every value list has n entries, so has every attribute |
| DataProcess.ValuesAligned | src/main/java/asg2/DataProcessUtil.java:37-47 | for rows of one width read into empty lists, exactly the positions before the label have lists, one value per row, row r's field at index r |
| DataProcess.TableAligned | src/main/java/asg2/DataProcessUtil.java:26-53 | for rows of one width, the formed table is aligned with the label list, as the learner requires |
| DataProcess.DataProcessUtil.constructor | src/main/java/asg2/DataProcessUtil.java:15-17 | all maps and lists start empty |
| DataProcess.DataProcessUtil.GetAttrLabelMap | src/main/java/asg2/DataProcessUtil.java:60-67 | the keys are exactly 0..length-2, each mapped to its header name |
| DataProcess.DataProcessUtil.GetAttrValMap | src/main/java/asg2/DataProcessUtil.java:75-89 | the value lists after one more row |
| DataProcess.DataProcessUtil.FormAttrMap | src/main/java/asg2/DataProcessUtil.java:97-106 | every named position with values gives its name; each name holds the values of its last such position |
| DataProcess.DataProcessUtil.ProcessLine | src/main/java/asg2/DataProcessUtil.java:38-43 | an empty line changes nothing; any other adds one label (its last field), one instance and its values |
| DataProcess.DataProcessUtil.ReadLines | src/main/java/asg2/DataProcessUtil.java:37-47 | the instances grow by the non-empty rows, with one label per instance, and the value lists are those rows collected |
| DataProcess.DataProcessUtil.ProcessData | src/main/java/asg2/DataProcessUtil.java:26-53 | the header map, the instance and label lists, the collected values and the formed table |

## Left out

- Entropy, `calParentEntropy`, `calEntropy`, `log2` and `getSplitAttr` use floating point. The attribute choice is a chooser parameter that returns "" or an attribute of the table. "Parent entropy is 0.0" is stated on the counts: one class is absent.
- `calAccuracy` divides two doubles, and is left out. `getCorrectCount` counts in a `double`; the model counts in an integer.
- ID3.DecisionTreeID3.PruneTree: takes the integer prune count instead of `(int)(factor * nodeId)`, and a sequence of draws instead of `(int)(nodeId * Math.random())`.
- ID3.DecisionTreeID3.PruneNodes: when the draws run out, the pass ends. The source would keep drawing, and it spins forever once every remaining id is used or names a leaf. Draws are not restricted to 0..nodeId-1.
- `printTree`, `main`, `initialization`, the getters, the file paths and the file reading in `processData` are I/O. Lines are given already split into fields, so `String.split` is not modelled.
- `GradientDescent.java` is not part of this model.
- Iteration over a `HashMap` keyed by small non-negative integers is taken to be in ascending key order. This affects `getPosFromAttrVal` and `formAttrMap`.
- Iteration over a `HashMap` keyed by attribute names is not modelled: `purifyMap` builds its map key by key, and the order does not matter to the result.
- The recursive `constructTree` is split into helper methods (`ConstructSubtree`, `ConstructSplit`, `ConstructChildren`, `ConstructChild`, `ChildData`).
  - The node object is allocated after its children, with its id reserved first, so it carries the same id.
  - The parent's `attrMap.remove` is kept on a shared `AttrTable` object.
- DataProcess.DataProcessUtil.GetAttrValMap: returns the updated map as a value. In the source it is the same map object, updated in place, and its value lists are shared with the attribute table.
- DataProcess.DataProcessUtil.ProcessData: requires that every non-empty line has at least one field. Before `processData` runs, `attrMap` and `attrLabelMap` are null in the source; here they start empty.
- ID3.DecisionTreeID3.CheckPrediction: returns false where the source throws on a missing child (see Findings). It also returns false on a decision node without an attribute, which the builder never creates.
- ID3.DecisionTreeID3.CheckPrediction: requires every mapped position to lie inside the row (`RowFits`). The source throws an index error only when the walk reads a position the row lacks. Rows narrower than the header are not modelled. `Prediction.Predict` shares the restriction.
- ID3.DecisionTreeID3.GetCorrectCount: requires every row to fit the position map (`AllFit`), and so does `Prediction.CorrectCount`. The source also counts narrower rows, without an error, whenever the walk never reads a missing field. Those rows are not modelled.
- ID3.DecisionTreeID3.ConstructTree: requires every column of the attribute table to be as long as the label list (`Aligned`), and so do `ConstructSubtree` and `Builder.BuildTree`. The source also runs on shorter columns: header `A,Class` with rows `0,0` and `1` gives {A: ["0"]} with labels ["0","1"], which it splits on A into two missing children without an error, and ragged columns can make `purifyMap` and `purifyLabels` throw an index error. Those inputs are not modelled. The reader produces aligned tables for rows of one width (`DataProcess.TableAligned`).
- `leafNodeCount` is kept up to date by the builder. Its only reader is `main`, which prints it.
- Pruning follows the code: an id that no node carries is accepted, recorded and uses up a round. It is not redrawn.

## Findings

| source | as written | input that shows it | evidently intended | confidence | as-written member | corrected member |
|---|---|---|---|---|---|---|
| src/main/java/asg2/DecisionTreeID3.java:244-259 | `checkPrediction` dereferences the child it walks to without a null check. The builder leaves both children null when it splits on the last remaining attribute (the empty-table test, lines 311-312, comes before the purity test). | attribute table {"A": ["0","1"]}, labels ["0","1"]: the learned tree is a split on "A" with no children. Its first training row ["0","0"] with position map {0: "A"} throws a NullPointerException | a missing child predicts nothing, so the row counts as not correctly predicted | not executed | ID3.LearnedTreeCrashes | ID3.DecisionTreeID3.CheckPrediction |
