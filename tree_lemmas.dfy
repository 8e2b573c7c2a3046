/**
 * Properties of the tree state: how interior vertices show in the children
 * collection, the vertex and leaf counts, what one split changes, and what any
 * sequence of split requests keeps.
 */
module TreeLemmas {
  import opened Exceptions
  import opened TreeState

  /** The arguments of one call that splits a leaf. */
  datatype SplitRequest = SplitRequest(leafIndex: int, inputIndex: int, threshold: real, child0Output: real, child1Output: real)

  /** The tree after one request; a request that fails leaves the tree as it was. */
  function Apply(t: Tree, q: SplitRequest): (t': Tree)
    requires t.Valid()
    ensures t'.Valid()
  {
    match Split(t, q.leafIndex, q.inputIndex, q.threshold, q.child0Output, q.child1Output)
    case Success(t') => t'
    case Failure(_) => t
  }

  /** The tree after a sequence of requests, applied in order. */
  function Grow(t: Tree, qs: seq<SplitRequest>): (t': Tree)
    requires t.Valid()
    ensures t'.Valid()
    decreases |qs|
  {
    if qs == [] then t else Grow(Apply(t, qs[0]), qs[1..])
  }

  /** Every collection of t is a prefix of the matching collection of t'. */
  predicate Extends(t: Tree, t': Tree) {
    && t.splitRules <= t'.splitRules
    && t.children <= t'.children
    && t.parents <= t'.parents
    && t.outputs <= t'.outputs
  }

  /** The ids 0 .. n-1. */
  ghost function Range(n: nat): (r: set<int>)
    ensures |r| == n
    ensures forall v :: v in r <==> 0 <= v < n
  {
    if n == 0 then {} else Range(n - 1) + {n - 1}
  }

  ghost function Vertices(t: Tree): set<int> {
    Range(|t.parents|)
  }

  ghost function InteriorVertices(t: Tree): set<int> {
    set v | v in Vertices(t) && t.IsInterior(v)
  }

  ghost function Leaves(t: Tree): set<int> {
    set v | v in Vertices(t) && t.IsLeaf(v)
  }

  /** The vertex split by each recorded split, in split order. */
  ghost function SplitVertexSeq(t: Tree): (s: seq<int>)
    requires t.Valid()
    ensures |s| == |t.children|
    ensures forall k :: 0 <= k < |s| ==> s[k] == t.parents[t.children[k].child0]
  {
    seq(|t.children|, k requires 0 <= k < |t.children| => t.parents[t.children[k].child0])
  }

  ghost predicate Distinct(s: seq<int>) {
    forall i, j :: 0 <= i < j < |s| ==> s[i] != s[j]
  }

  /**
   * A vertex is interior exactly when some recorded children pair has it as the
   * parent of its first child.
   */
  lemma InteriorIffSplitRecorded(t: Tree, v: int)
    requires t.Valid()
    ensures t.IsInterior(v) <==> exists k :: t.SplitBy(k, v)
  {
    if t.IsInterior(v) {
      var u :| 0 <= u < |t.parents| && t.parents[u] == v;
      assert u != 0 by { assert t.parents[0] == NoParent; }
      var k := (u - 1) / 2;
      assert t.children[k] == Children(2 * k + 1, 2 * k + 2);
      assert t.SplitBy(k, v);
    }
    if k :| t.SplitBy(k, v) {
      assert t.children[k] == Children(2 * k + 1, 2 * k + 2);
      assert t.parents[2 * k + 1] == v;
    }
  }

  /** Only the root has no parent. */
  lemma OnlyRootHasNoParent(t: Tree, v: int)
    requires t.Valid() && 0 <= v < |t.parents|
    ensures t.parents[v] == NoParent <==> v == 0
  {
    ParentIsEarlier(t);
  }

  /** A sequence without repetitions has as many distinct elements as entries. */
  lemma {:induction false} DistinctSize(s: seq<int>)
    requires Distinct(s)
    ensures |set x | x in s| == |s|
  {
    if s != [] {
      var init := s[..|s| - 1];
      assert Distinct(init);
      DistinctSize(init);
      assert (set x | x in s) == (set x | x in init) + {s[|s| - 1]};
      assert s[|s| - 1] !in init;
    }
  }

  /**
   * The number of interior vertices is the number of recorded splits; leaves
   * outnumber interior vertices by one and together they are all the vertices.
   */
  lemma LeafCount(t: Tree)
    requires t.Valid()
    ensures |InteriorVertices(t)| == t.NumInteriorVertices()
    ensures |Leaves(t)| == t.NumVertices() - t.NumInteriorVertices() == t.NumInteriorVertices() + 1
    ensures t.NumVertices() == 2 * t.NumInteriorVertices() + 1
    ensures Vertices(t) == InteriorVertices(t) + Leaves(t) && InteriorVertices(t) !! Leaves(t)
  {
    var s := SplitVertexSeq(t);
    forall v | v in InteriorVertices(t) ensures v in s {
      InteriorIffSplitRecorded(t, v);
      var k :| t.SplitBy(k, v);
      assert s[k] == v;
    }
    forall v | v in s ensures v in InteriorVertices(t) {
      var k :| 0 <= k < |s| && s[k] == v;
      assert t.SplitBy(k, v);
      InteriorIffSplitRecorded(t, v);
    }
    assert InteriorVertices(t) == set x | x in s;
    DistinctSize(s);
    assert Leaves(t) == Vertices(t) - InteriorVertices(t);
  }

  /**
   * A successful split appends exactly: one split rule (inputIndex, threshold),
   * one children pair (n, n+1) for the vertex count n beforehand, two parents,
   * both leafIndex, and the two child outputs. Everything recorded before,
   * including the output of the split vertex, is unchanged.
   */
  lemma SplitAppends(t: Tree, leafIndex: int, inputIndex: int, threshold: real, child0Output: real, child1Output: real)
    requires t.Valid()
    requires Split(t, leafIndex, inputIndex, threshold, child0Output, child1Output).Success?
    ensures var t' := Split(t, leafIndex, inputIndex, threshold, child0Output, child1Output).tree;
      var n := t.NumVertices();
      && Extends(t, t')
      && t'.NumVertices() == n + 2
      && t'.NumInteriorVertices() == t.NumInteriorVertices() + 1
      && |t'.splitRules| == |t.splitRules| + 1 && |t'.outputs| == |t.outputs| + 2
      && t'.splitRules[|t.splitRules|].GetIndex() == inputIndex
      && t'.splitRules[|t.splitRules|].Get() == threshold
      && t'.children[|t.children|] == Children(n, n + 1)
      && t'.parents[n] == leafIndex && t'.parents[n + 1] == leafIndex
      && t'.outputs[n] == child0Output && t'.outputs[n + 1] == child1Output
      && t'.outputs[leafIndex] == t.outputs[leafIndex]
  {
  }

  lemma ExtendsTransitive(a: Tree, b: Tree, c: Tree)
    requires Extends(a, b) && Extends(b, c)
    ensures Extends(a, c)
  {
  }

  /** However many requests are applied, nothing recorded changes. */
  lemma {:induction false} GrowKeeps(t: Tree, qs: seq<SplitRequest>)
    requires t.Valid()
    ensures Extends(t, Grow(t, qs))
    decreases |qs|
  {
    if qs != [] {
      var q := qs[0];
      var t1 := Apply(t, q);
      if Split(t, q.leafIndex, q.inputIndex, q.threshold, q.child0Output, q.child1Output).Success? {
        SplitAppends(t, q.leafIndex, q.inputIndex, q.threshold, q.child0Output, q.child1Output);
      }
      GrowKeeps(t1, qs[1..]);
      ExtendsTransitive(t, t1, Grow(t, qs));
    }
  }

  /** Every tree grown from a fresh one keeps the counts: leaves = interior + 1. */
  lemma GrownFromInitial(rootOutput: real, qs: seq<SplitRequest>)
    ensures var t := Grow(Initial(rootOutput), qs);
      && t.Valid()
      && t.NumVertices() == 2 * t.NumInteriorVertices() + 1
      && |Leaves(t)| == t.NumInteriorVertices() + 1
      && t.outputs[0] == rootOutput
  {
    var t := Grow(Initial(rootOutput), qs);
    GrowKeeps(Initial(rootOutput), qs);
    assert Initial(rootOutput).outputs <= t.outputs;
    LeafCount(t);
  }

  /** Once split, a vertex stays interior: a longer record only adds parents. */
  lemma InteriorStaysInterior(t: Tree, t': Tree, v: int)
    requires Extends(t, t') && t.IsInterior(v)
    ensures t'.IsInterior(v)
  {
  }

  /**
   * Splitting a vertex that was ever split fails with an illegal-state error and
   * changes nothing, whatever requests came between and whatever the other
   * arguments are.
   */
  lemma SplitOfInteriorFails(t: Tree, qs: seq<SplitRequest>, v: int, q: SplitRequest)
    requires t.Valid() && t.IsInterior(v) && q.leafIndex == v
    ensures var g := Grow(t, qs);
      && Split(g, v, q.inputIndex, q.threshold, q.child0Output, q.child1Output)
         == Failure(Logic(ErrorCodeException(illegalState, NotALeaf)))
      && Apply(g, q) == g
  {
    GrowKeeps(t, qs);
    InteriorStaysInterior(t, Grow(t, qs), v);
  }

  /** A fresh tree with root output 1.5, then the root split on input 3 at 0.5. */
  lemma ScenarioSplitRoot()
    ensures Initial(1.5).outputs == [1.5]
    ensures Split(Initial(1.5), 0, 3, 0.5, -1.0, 2.0)
      == Success(Tree([SplitRule(3, 0.5)], [Children(1, 2)], [NoParent, 0, 0], [1.5, -1.0, 2.0]))
  {
  }

  /**
   * After the root split, vertex 1 can be split, the root cannot (illegal
   * state), and vertex 99 does not exist (index out of range).
   */
  lemma ScenarioAfterRootSplit(thr: real, o0: real, o1: real)
    ensures var t := Tree([SplitRule(3, 0.5)], [Children(1, 2)], [NoParent, 0, 0], [1.5, -1.0, 2.0]);
      && t.Valid()
      && Split(t, 1, 0, thr, o0, o1).Success?
      && Split(t, 0, 0, thr, o0, o1) == Failure(Logic(ErrorCodeException(illegalState, NotALeaf)))
      && Split(t, 99, 0, thr, o0, o1) == Failure(Input(ErrorCodeException(indexOutOfRange, LeafOutOfRange)))
  {
    var t := Tree([SplitRule(3, 0.5)], [Children(1, 2)], [NoParent, 0, 0], [1.5, -1.0, 2.0]);
    assert t.parents[1] == 0;
    assert forall u :: 0 <= u < 3 ==> t.parents[u] != 1;
  }
}
