/**
 * The value-level view of a growable binary decision tree: the split-rule and
 * children-pair value types, the four parallel collections as one state value,
 * the tree invariant, and the split of a leaf as a function on states.
 *
 * Layout: vertex ids index the parent and output collections (one entry per
 * vertex); the split-rule and children collections are dense, one entry per split
 * in the order the splits happened. The children recorded for the k-th split are
 * the two vertices created by it, 2k+1 and 2k+2.
 */
module TreeState {
  import opened Exceptions

  /** The parent entry of the root. */
  const NoParent: int := -1

  /** An (input index, threshold) pair: the rule stored for one split. */
  datatype SplitRule = SplitRule(index: int, value: real)
  {
    function GetIndex(): int { index }

    function Get(): real { value }
  }

  /**
   * The two children created by one split. A value type: the setters return the
   * updated pair.
   */
  datatype Children = Children(child0: int, child1: int)
  {
    function GetChild0(): int { child0 }

    function GetChild1(): int { child1 }

    function SetChild0(index: int): (c: Children)
      ensures c.GetChild0() == index && c.GetChild1() == GetChild1()
    {
      this.(child0 := index)
    }

    function SetChild1(index: int): (c: Children)
      ensures c.GetChild1() == index && c.GetChild0() == GetChild0()
    {
      this.(child1 := index)
    }
  }

  /** The values given at construction are the ones read back. */
  lemma ValueTypesRoundTrip(index: int, value: real, child0: int, child1: int)
    ensures SplitRule(index, value).GetIndex() == index && SplitRule(index, value).Get() == value
    ensures Children(child0, child1).GetChild0() == child0 && Children(child0, child1).GetChild1() == child1
  {
  }

  /** The failure-or-success outcome of an operation that changes the tree. */
  datatype Outcome = Pass | Fail(error: Exception)

  /** The four parallel collections of a tree. */
  datatype Tree = Tree(splitRules: seq<SplitRule>, children: seq<Children>, parents: seq<int>, outputs: seq<real>)
  {
    function NumVertices(): int { |parents| }

    function NumInteriorVertices(): int { |children| }

    /** Vertex v exists and some vertex has it as parent. */
    predicate IsInterior(v: int) {
      0 <= v < |parents| && exists u :: 0 <= u < |parents| && parents[u] == v
    }

    /** Vertex v exists and has never been split. */
    predicate IsLeaf(v: int) {
      0 <= v < |parents| && !IsInterior(v)
    }

    /** The vertex split by the k-th recorded split: the parent of its first child. */
    predicate SplitBy(k: int, v: int) {
      0 <= k < |children| && 0 <= children[k].child0 < |parents| && parents[children[k].child0] == v
    }

    /**
     * The tree invariant. Sizes agree, the root is vertex 0 and has no parent,
     * every split rule reads a non-negative input index, the
     * k-th split created vertices 2k+1 and 2k+2 as children of one vertex that
     * existed before it, and no vertex was split twice.
     */
    ghost predicate Valid() {
      && |splitRules| == |children|
      && |parents| == 2 * |children| + 1
      && |outputs| == |parents|
      && parents[0] == NoParent
      && (forall k :: 0 <= k < |splitRules| ==> splitRules[k].GetIndex() >= 0)
      && (forall k :: 0 <= k < |children| ==> children[k] == Children(2 * k + 1, 2 * k + 2))
      && (forall k :: 0 <= k < |children| ==>
            0 <= parents[children[k].child0] < children[k].child0
            && parents[children[k].child1] == parents[children[k].child0])
      && (forall j, k :: 0 <= j < k < |children| ==>
            parents[children[j].child0] != parents[children[k].child0])
    }

    /** The checks a split makes before changing anything, in the order it makes them. */
    function CheckSplit(leafIndex: int, inputIndex: int): (r: Outcome)
      ensures r == Pass <==> IsLeaf(leafIndex) && inputIndex >= 0
      ensures r == Fail(Input(ErrorCodeException(indexOutOfRange, LeafOutOfRange)))
              <==> !(0 <= leafIndex < |parents|)
      ensures r == Fail(Logic(ErrorCodeException(illegalState, NotALeaf)))
              <==> IsInterior(leafIndex)
      ensures r == Fail(Input(ErrorCodeException(invalidArgument, NegativeInputIndex)))
              <==> IsLeaf(leafIndex) && inputIndex < 0
    {
      if !(0 <= leafIndex < |parents|) then
        Fail(Input(ErrorCodeException(indexOutOfRange, LeafOutOfRange)))
      else if !IsLeaf(leafIndex) then
        Fail(Logic(ErrorCodeException(illegalState, NotALeaf)))
      else if inputIndex < 0 then
        Fail(Input(ErrorCodeException(invalidArgument, NegativeInputIndex)))
      else
        Pass
    }

    /**
     * The tree after splitting leafIndex: one split rule and one children pair
     * appended, and two new leaves, the next two ids, each with leafIndex as parent.
     */
    function Grown(leafIndex: int, inputIndex: int, threshold: real, child0Output: real, child1Output: real): Tree
    {
      var n := |parents|;
      Tree(splitRules + [SplitRule(inputIndex, threshold)],
           children + [Children(n, n + 1)],
           parents + [leafIndex, leafIndex],
           outputs + [child0Output, child1Output])
    }
  }

  const LeafOutOfRange: string := "leaf index out of range"
  const NotALeaf: string := "vertex is not a leaf"
  const NegativeInputIndex: string := "negative input index"

  /** A tree with one vertex, the root, a leaf with the given output. */
  function Initial(rootOutput: real := 0.0): (t: Tree)
    ensures t.Valid()
    ensures t.NumVertices() == 1 && t.NumInteriorVertices() == 0
    ensures t.IsLeaf(0) && t.outputs == [rootOutput]
    ensures t.splitRules == [] && t.children == []
  {
    Tree([], [], [NoParent], [rootOutput])
  }

  /** Split a leaf, or report why it cannot be split; a failed split changes nothing. */
  function Split(t: Tree, leafIndex: int, inputIndex: int, threshold: real, child0Output: real, child1Output: real)
    : (r: Result)
    requires t.Valid()
    ensures r.Success? <==> t.IsLeaf(leafIndex) && inputIndex >= 0
    ensures r.Failure? ==> Fail(r.error) == t.CheckSplit(leafIndex, inputIndex)
    ensures r.Success? ==> r.tree.Valid()
    ensures r.Success? ==> !r.tree.IsLeaf(leafIndex)
    ensures r.Success? ==> r.tree.IsLeaf(t.NumVertices()) && r.tree.IsLeaf(t.NumVertices() + 1)
  {
    match t.CheckSplit(leafIndex, inputIndex)
    case Fail(e) => Failure(e)
    case Pass =>
      var t' := t.Grown(leafIndex, inputIndex, threshold, child0Output, child1Output);
      GrownIsValid(t, leafIndex, inputIndex, threshold, child0Output, child1Output);
      Success(t')
  }

  datatype Result = Success(tree: Tree) | Failure(error: Exception)

  /** Splitting a leaf keeps the invariant, turns it interior and adds two leaves. */
  lemma GrownIsValid(t: Tree, leafIndex: int, inputIndex: int, threshold: real, child0Output: real, child1Output: real)
    requires t.Valid() && t.IsLeaf(leafIndex) && inputIndex >= 0
    ensures var t' := t.Grown(leafIndex, inputIndex, threshold, child0Output, child1Output);
      t'.Valid() && t'.IsInterior(leafIndex)
      && t'.IsLeaf(t.NumVertices()) && t'.IsLeaf(t.NumVertices() + 1)
  {
    var t' := t.Grown(leafIndex, inputIndex, threshold, child0Output, child1Output);
    var n, m := |t.parents|, |t.children|;
    forall k | 0 <= k < m
      ensures t.parents[t.children[k].child0] != leafIndex
    {
      assert t.parents[t.children[k].child0] == t.parents[2 * k + 1];
      assert 2 * k + 1 < n;
    }
    assert t'.parents[n] == leafIndex;
    ParentIsEarlier(t);
    forall w | w == n || w == n + 1
      ensures !t'.IsInterior(w)
    {
      forall u | 0 <= u < |t'.parents|
        ensures t'.parents[u] != w
      {
        if 1 <= u < n {
          assert t'.parents[u] == t.parents[u] < u;
        }
      }
    }
  }

  /** Every vertex but the root has an earlier vertex as parent; the root has none. */
  lemma ParentIsEarlier(t: Tree)
    requires t.Valid()
    ensures forall v :: 1 <= v < |t.parents| ==> 0 <= t.parents[v] < v
  {
    forall v | 1 <= v < |t.parents|
      ensures 0 <= t.parents[v] < v
    {
      var k := (v - 1) / 2;
      assert t.children[k] == Children(2 * k + 1, 2 * k + 2);
    }
  }
}
