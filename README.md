# A verified model of a growable binary decision tree

This project models `decision_tree::MutableDecisionTree`, a growable binary decision
tree that stores a split rule on each interior vertex and an output on every vertex,
leaf or interior. It also models the error-code exceptions of the `utilities`
library that the tree uses to report a split it cannot make.

The tree has no pointers. It is kept in four parallel collections that only ever grow:

- split rules, one `(input index, threshold)` per split;
- children pairs, one `(child0, child1)` per split;
- parents, one per vertex; the root's entry is the sentinel `NoParent` (-1);
- outputs, one per vertex.

A tree starts as one leaf, the root, vertex 0, with a given output (default 0.0).
It grows only by `SplitLeaf`. That call turns one leaf into an interior vertex and
appends two new leaves: the next two ids, `n` and `n+1`, with the given outputs.

Files:

- `exceptions.dfy`, module `Exceptions`: the four error-code enums, the generic
  `ErrorCodeException` (code plus message, message "" by default), the four
  exception kinds as type synonyms, and `Exception`, the sum of the four kinds.
- `tree_state.dfy`, module `TreeState`: the `SplitRule` and `Children` value types,
  the four collections as one value `Tree`, the tree invariant `Tree.Valid`, the
  checks a split makes (`Tree.CheckSplit`), and a split as a function (`Split`).
- `tree_lemmas.dfy`, module `TreeLemmas`: the properties of the tree state: how
  interior vertices show in the children collection, the vertex and leaf counts,
  what one split appends, and what any sequence of split requests (`Grow`) keeps.
- `mutable_decision_tree.dfy`, module `DecisionTree`: the class
  `MutableDecisionTree`. It has the four collections as `seq` fields, which
  `SplitLeaf` reassigns. The counts and the four read-only views are functions.
  `SplitLeaf` is proved against `Split`. Two client methods show what a caller can
  prove from the contracts alone.

Design decisions:

- Layout. Split rules and children pairs are dense: one entry per split, in
  split order. Vertex ids index only the parent and output collections. The
  alternative considered was a per-vertex layout: one split-rule and one children
  entry per vertex, left unused for leaves. The doc comments of `ChildrenBegin`
  and `ChildrenEnd` (`MutableDecisionTree.h:103-108`) speak of "the first vertex"
  and "beyond the last vertex", the same words the per-vertex parent and output
  views use, which points towards that alternative. The dense layout is chosen
  anyway, for two reasons. The header declares no sentinel `SplitRule` or
  `Children` value that an unused leaf entry would need. It also counts interior
  vertices (`GetNumInteriorVertices`) apart from vertices. The invariant states
  the layout: the k-th split always records children `(2k+1, 2k+2)`.
- Leaf status comes from the collections alone. A vertex is interior when some
  vertex has it as parent. `TreeLemmas.InteriorIffSplitRecorded` proves that this
  is the same as "some recorded children pair has it as the parent of its first
  child".
- Errors. `SplitLeaf`'s body (`MutableDecisionTree.cpp`) is not part of this
  model. The header says only that `SplitLeaf` "Performs a split of a leaf"
  (`MutableDecisionTree.h:135`). So the model rejects every call whose first
  argument is not an existing leaf, and uses the matching codes from
  `Exception.h`. It checks three things, in this order:
  1. An id outside `0 .. GetNumVertices()-1` gives an `InputException` with
     `indexOutOfRange` (`Exception.h:83`).
  2. An id that was already split gives a `LogicException` with `illegalState`
     (`Exception.h:59`).
  3. A negative input index gives an `InputException` with `invalidArgument`
     (`Exception.h:84`). A negative index cannot address a feature, and the
     container knows nothing else about the feature dimension.

  A failed split changes nothing. The message texts are stand-ins. As a result,
  every split rule in a valid tree reads a non-negative input index.
- `Tree.Grown` is the effect of a successful split, the success branch of
  `Split`. Its properties are stated by `Split`, `TreeState.GrownIsValid` and
  `TreeLemmas.SplitAppends`.
- The method `DecisionTree.SplitAfterRoot` replays, through the class alone, the
  calls made after the root split. It checks three things on that tree:
  - the root is rejected with illegal state, twice, identically, and nothing changes;
  - vertex 99 is rejected with index out of range;
  - vertex 1 is split.

## Model

| member | source | states |
|---|---|---|
| Exceptions.ConstructionRoundTrip | libraries/utilities/include/Exception.h:39-53 | an exception built from a code and a message returns that code from `GetErrorCode` and that message from `GetMessage`; built without a message, its message is "" |
| Exceptions.ErrorCodeExceptionEquality | libraries/utilities/include/Exception.h:44-53 | an error-code exception is exactly its code and its message: two of one kind are equal iff both agree |
| Exceptions.BaseMessageRoundTrip | libraries/utilities/include/Exception.h:17-49 | an exception of each of the four kinds, built with message m, gives back m through the base-class `GetMessage`; built without a message, it gives back "" |
| Exceptions.LogicErrorsAreClosed | libraries/utilities/include/Exception.h:57-61 | the logic error codes are exactly `illegalState` and `notImplemented` |
| Exceptions.InputErrorsAreClosed | libraries/utilities/include/Exception.h:79-87 | the input error codes are exactly the six listed |
| Exceptions.KindsAreDistinct | libraries/utilities/include/Exception.h:89-92 | exceptions of two different kinds are never equal, whatever their codes and messages: the kind is fixed by the error-code type |
| TreeState.ValueTypesRoundTrip | libraries/predictors/include/MutableDecisionTree.h:19-56 | a split rule returns its index and value from `GetIndex`/`Get`; a children pair returns its children from `GetChild0`/`GetChild1` |
| TreeState.Children.SetChild0 | libraries/predictors/include/MutableDecisionTree.h:58-60 | after setting child 0, child 0 is the given index and child 1 is unchanged |
| TreeState.Children.SetChild1 | libraries/predictors/include/MutableDecisionTree.h:62-64 | after setting child 1, child 1 is the given index and child 0 is unchanged |
| TreeState.Initial | libraries/predictors/include/MutableDecisionTree.h:71-73 | a new tree is valid and has one vertex, the root, a leaf with output `rootOutput`, no interior vertices and no split rules or children |
| TreeState.Tree.CheckSplit | libraries/predictors/include/MutableDecisionTree.h:135-141 | a split is accepted iff the id is a leaf and the input index is non-negative; each error is reported exactly when its condition holds: out of range, already interior, negative input index |
| TreeState.Split | libraries/predictors/include/MutableDecisionTree.h:135-150 | a split succeeds iff the id is a leaf and the input index is non-negative; on failure it gives CheckSplit's error; on success the new tree is valid, the split vertex is no longer a leaf and the two new ids are leaves |
| TreeState.GrownIsValid | libraries/predictors/include/MutableDecisionTree.h:137-150 | appending a split of a leaf with a non-negative input index keeps the tree invariant, makes that vertex interior and the two new vertices leaves |
| TreeState.ParentIsEarlier | libraries/predictors/include/MutableDecisionTree.h:149 | every non-root vertex has exactly one parent, an earlier vertex id |
| TreeLemmas.Apply | libraries/predictors/include/MutableDecisionTree.h:137-141 | applying one split request to a valid tree gives a valid tree, whether the split succeeds or fails |
| TreeLemmas.Grow | libraries/predictors/include/MutableDecisionTree.h:137-141 | any sequence of split requests applied to a valid tree gives a valid tree |
| TreeLemmas.InteriorIffSplitRecorded | libraries/predictors/include/MutableDecisionTree.h:147-150 | a vertex is interior iff some recorded children pair has it as the parent of its first child |
| TreeLemmas.OnlyRootHasNoParent | libraries/predictors/include/MutableDecisionTree.h:71-73 | the parent entry of a vertex is `NoParent` iff the vertex is the root |
| TreeLemmas.LeafCount | libraries/predictors/include/MutableDecisionTree.h:123-133 | the vertices not interior are the leaves; the interior vertices number as many as the splits, the leaves one more, the vertices twice the splits plus one, and leaves = vertices − interior |
| TreeLemmas.SplitAppends | libraries/predictors/include/MutableDecisionTree.h:137-150 | a successful split appends one split rule `(inputIndex, threshold)`, one children pair `(n, n+1)`, parents `leafIndex` twice and the two child outputs; everything before is unchanged, including the split vertex's own output |
| TreeLemmas.GrowKeeps | libraries/predictors/include/MutableDecisionTree.h:147-150 | after any sequence of split requests, each collection of the earlier tree is a prefix of the later one's |
| TreeLemmas.GrownFromInitial | libraries/predictors/include/MutableDecisionTree.h:71-73 | every tree grown from a new tree is valid, has vertices = 2·interior + 1 and leaves = interior + 1, and keeps the root output |
| TreeLemmas.InteriorStaysInterior | libraries/predictors/include/MutableDecisionTree.h:137-141 | once interior, a vertex is interior in every extension of the tree: it never becomes a leaf again |
| TreeLemmas.SplitOfInteriorFails | libraries/predictors/include/MutableDecisionTree.h:135-141 | after any further requests, splitting a vertex that was split fails with the same illegal-state error and changes nothing, whatever the other arguments |
| TreeLemmas.ScenarioSplitRoot | libraries/predictors/include/MutableDecisionTree.h:71-73 | a new tree with root output 1.5 has outputs `[1.5]`; splitting its root on input 3 at 0.5 gives split rules `[(3, 0.5)]`, children `[(1, 2)]`, parents `[NoParent, 0, 0]` and outputs `[1.5, -1.0, 2.0]` |
| TreeLemmas.ScenarioAfterRootSplit | libraries/predictors/include/MutableDecisionTree.h:135-141 | after the root split, vertex 1 can be split, the root fails with illegal state, vertex 99 fails with index out of range |
| DecisionTree.MutableDecisionTree.constructor | libraries/predictors/include/MutableDecisionTree.h:71-73 | the new tree is valid, its state is `Initial(rootOutput)`: no split rules or children, parents `[NoParent]`, outputs `[rootOutput]` |
| DecisionTree.MutableDecisionTree.SplitRuleView | libraries/predictors/include/MutableDecisionTree.h:75-85 | the split-rule view has one entry per children pair, one per split, and every rule reads a non-negative input index; reading it changes nothing |
| DecisionTree.MutableDecisionTree.ParentView | libraries/predictors/include/MutableDecisionTree.h:87-97 | the parent view has one entry per vertex; the root's is `NoParent`, every other vertex's is an earlier vertex |
| DecisionTree.MutableDecisionTree.ChildrenView | libraries/predictors/include/MutableDecisionTree.h:99-109 | the k-th entry of the children view is the pair `(2k+1, 2k+2)` created by the k-th split |
| DecisionTree.MutableDecisionTree.OutputView | libraries/predictors/include/MutableDecisionTree.h:111-121 | the output view has one entry per vertex: twice the number of splits, plus one |
| DecisionTree.MutableDecisionTree.GetNumVertices | libraries/predictors/include/MutableDecisionTree.h:123-125 | the vertex count is the size of the vertex set and equals 2·interior + 1 |
| DecisionTree.MutableDecisionTree.GetNumInteriorVertices | libraries/predictors/include/MutableDecisionTree.h:127-129 | the interior count is the number of vertices that have a child |
| DecisionTree.MutableDecisionTree.GetNumLeaves | libraries/predictors/include/MutableDecisionTree.h:131-133 | the leaf count is vertices − interior, equals interior + 1, and is the number of vertices that have no child |
| DecisionTree.MutableDecisionTree.SplitLeaf | libraries/predictors/include/MutableDecisionTree.h:135-150 | keeps the invariant; returns CheckSplit's verdict on the old state; on success appends exactly one split rule, the pair `(n, n+1)`, two parents `leafIndex` and the two outputs; on failure changes nothing; agrees with `Split` |
| DecisionTree.SplitRootOfFreshTree | libraries/predictors/include/MutableDecisionTree.h:71-73 | through the class alone: a new tree with root output 1.5 whose root is split on input 3 at 0.5 holds rules `[(3, 0.5)]`, children `[(1, 2)]`, parents `[NoParent, 0, 0]`, outputs `[1.5, -1.0, 2.0]` |

## Left out

- The `const_iterator` Begin/End pairs: each view is a `seq` value of the matching
  collection. Reading a view twice gives the same value. Entries already read never
  change, because a split only appends (`TreeLemmas.GrowKeeps`).
- The deleted copy constructor: a Dafny class is a reference type, and no clone is offered.
- Floating point: thresholds and outputs are `real`. They are only stored, never
  compared. Which child a comparison with the threshold selects is up to an
  evaluator, which is not part of this model.
- 32-bit `int`: vertex ids, counts and input indices are unbounded integers. No
  overflow of the vertex count is modelled.
- `Children::set_child0`/`set_child1`: `Children` is a value type, held by value in
  a vector, so the setters are modelled as functions that return the updated pair.
  The tree never changes a recorded pair.
- The exceptions: `Exception.tcc` (the constructor's body), the `std::exception`
  base, `what()`, the virtual destructor and virtual dispatch. The base class
  `Exception` is the sum type `Exceptions.Exception`.
- The exact messages `SplitLeaf` reports. `MutableDecisionTree.cpp` is not part of
  this model, so its messages are stand-ins.
- Validation of the input index against a feature dimension: the tree does not know the dimension.
- Training, prediction, serialization and concurrency.
