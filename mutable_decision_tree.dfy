/**
 * A growable binary decision tree with split rules on interior vertices and an
 * output on every vertex. The tree is kept in four parallel collections that only
 * ever grow: split rules and children pairs (one per split), parents and outputs
 * (one per vertex). The only change is the split of a leaf.
 */
module DecisionTree {
  import opened Exceptions
  import opened TreeState
  import TreeLemmas

  class MutableDecisionTree {
    var splitRules: seq<SplitRule>
    var children: seq<Children>
    var parents: seq<int>
    var outputs: seq<real>

    /** The four collections as one value. */
    function State(): Tree
      reads this
    {
      Tree(splitRules, children, parents, outputs)
    }

    ghost predicate Valid()
      reads this
    {
      State().Valid()
    }

    /** A tree with one leaf, the root, whose output is rootOutput. */
    constructor (rootOutput: real := 0.0)
      ensures Valid() && State() == Initial(rootOutput)
      ensures splitRules == [] && children == [] && parents == [NoParent] && outputs == [rootOutput]
    {
      splitRules := [];
      children := [];
      parents := [NoParent];
      outputs := [rootOutput];
    }

    /** The split rules, one per split, in the order of the splits; each reads a non-negative input index. */
    function SplitRuleView(): (r: seq<SplitRule>)
      reads this
      requires Valid()
      ensures |r| == |ChildrenView()|
      ensures forall k :: 0 <= k < |r| ==> r[k].GetIndex() >= 0
    {
      splitRules
    }

    /**
     * The parent of each vertex; the root's entry is NoParent and every other
     * vertex's parent is an earlier vertex.
     */
    function ParentView(): (r: seq<int>)
      reads this
      requires Valid()
      ensures |r| == |OutputView()| && r[0] == NoParent
      ensures forall v :: 1 <= v < |r| ==> 0 <= r[v] < v
    {
      ParentIsEarlier(State());
      parents
    }

    /** The children pair of each split: the k-th split created vertices 2k+1 and 2k+2. */
    function ChildrenView(): (r: seq<Children>)
      reads this
      requires Valid()
      ensures forall k :: 0 <= k < |r| ==> r[k].GetChild0() == 2 * k + 1 && r[k].GetChild1() == 2 * k + 2
    {
      children
    }

    /** The output of each vertex, leaf or interior. */
    function OutputView(): (r: seq<real>)
      reads this
      requires Valid()
      ensures |r| == 2 * |ChildrenView()| + 1
    {
      outputs
    }

    /** The number of vertices: twice the number of interior vertices, plus one. */
    function GetNumVertices(): (n: int)
      reads this
      requires Valid()
      ensures n == 2 * GetNumInteriorVertices() + 1 == |TreeLemmas.Vertices(State())|
    {
      |parents|
    }

    /** The number of vertices that have been split. */
    function GetNumInteriorVertices(): (n: int)
      reads this
      requires Valid()
      ensures n == |TreeLemmas.InteriorVertices(State())|
    {
      TreeLemmas.LeafCount(State());
      |children|
    }

    /** The number of leaves: the vertices that are not interior, one more than those that are. */
    function GetNumLeaves(): (n: int)
      reads this
      requires Valid()
      ensures n == GetNumVertices() - GetNumInteriorVertices()
      ensures n == GetNumInteriorVertices() + 1 == |TreeLemmas.Leaves(State())|
    {
      TreeLemmas.LeafCount(State());
      |parents| - |children|
    }

    /**
     * Splits leaf leafIndex on (inputIndex, threshold): it becomes interior and
     * gets two new leaf children, the next two vertex ids, with the given outputs.
     * An id that is out of range or not a leaf, or a negative input index, is
     * reported and nothing changes.
     */
    method SplitLeaf(leafIndex: int, inputIndex: int, threshold: real, child0Output: real, child1Output: real)
      returns (r: Outcome)
      requires Valid()
      modifies this
      ensures Valid()
      ensures r == old(State()).CheckSplit(leafIndex, inputIndex)
      ensures r.Pass? ==>
        var n := old(|parents|);
        && splitRules == old(splitRules) + [SplitRule(inputIndex, threshold)]
        && children == old(children) + [Children(n, n + 1)]
        && parents == old(parents) + [leafIndex, leafIndex]
        && outputs == old(outputs) + [child0Output, child1Output]
      ensures r.Fail? ==> State() == old(State())
      ensures Split(old(State()), leafIndex, inputIndex, threshold, child0Output, child1Output)
              == if r.Pass? then Success(State()) else Failure(r.error)
    {
      r := State().CheckSplit(leafIndex, inputIndex);
      if r.Fail? {
        return;
      }
      var n := |parents|;
      splitRules := splitRules + [SplitRule(inputIndex, threshold)];
      children := children + [Children(n, n + 1)];
      parents := parents + [leafIndex, leafIndex];
      outputs := outputs + [child0Output, child1Output];
    }
  }

  /** A caller's view: a fresh tree, then a split of its root, using only the contracts above. */
  method SplitRootOfFreshTree() returns (tree: MutableDecisionTree)
    ensures fresh(tree) && tree.Valid()
    ensures tree.State() == Tree([SplitRule(3, 0.5)], [Children(1, 2)], [NoParent, 0, 0], [1.5, -1.0, 2.0])
  {
    tree := new MutableDecisionTree(1.5);
    assert tree.OutputView() == [1.5];
    assert tree.State().IsLeaf(0) by {
      assert tree.parents == [NoParent];
    }
    var r := tree.SplitLeaf(0, 3, 0.5, -1.0, 2.0);
    assert r == Pass;
    assert tree.splitRules == [SplitRule(3, 0.5)];
    assert tree.children == [Children(1, 2)];
    assert tree.parents == [NoParent, 0, 0];
    assert tree.outputs == [1.5, -1.0, 2.0];
  }

  /** A caller's view: which further splits the tree with a split root accepts. */
  method SplitAfterRoot()
  {
    var tree := SplitRootOfFreshTree();
    assert tree.State().IsInterior(0) by {
      assert tree.parents[1] == 0;
    }
    var r := tree.SplitLeaf(0, 1, 0.25, 0.0, 0.0);
    assert r == Fail(Logic(ErrorCodeException(illegalState, NotALeaf)));
    var again := tree.SplitLeaf(0, 1, 0.25, 0.0, 0.0);
    assert again == r && |tree.parents| == 3 && |tree.children| == 1;
    r := tree.SplitLeaf(99, 1, 0.25, 0.0, 0.0);
    assert r == Fail(Input(ErrorCodeException(indexOutOfRange, LeafOutOfRange)));
    assert tree.State().IsLeaf(1) by {
      assert forall u :: 0 <= u < 3 ==> tree.parents[u] != 1;
    }
    r := tree.SplitLeaf(1, 1, 0.25, 0.0, 0.0);
    assert r == Pass;
    assert tree.parents == [NoParent, 0, 0, 1, 1];
  }
}
