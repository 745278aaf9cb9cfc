/** `TraceTree.iter_dfs`, `iter_bfs` and `compute_tree_metrics` of agent_obs/tree_compressor.py. */
module TreeMetrics {
  import opened Spans
  import opened Sequences
  import opened TraceTree
  import opened TreeBuilder
  import opened BuilderFacts

  // ---------------------------------------------------------------- traversals

  /** Parents before children, left to right. */
  function PreOrder(t: Tree): seq<Tree>
    decreases t, 1
  {
    [t] + PreOrderF(t.children)
  }

  function PreOrderF(ts: seq<Tree>): seq<Tree>
    decreases ts, 0
  {
    if ts == [] then [] else PreOrder(ts[0]) + PreOrderF(ts[1..])
  }

  lemma {:induction false} PreOrderConcat(xs: seq<Tree>, ys: seq<Tree>)
    ensures PreOrderF(xs + ys) == PreOrderF(xs) + PreOrderF(ys)
  {
    if xs == [] {
      assert xs + ys == ys;
    } else {
      assert (xs + ys)[1..] == xs[1..] + ys;
      PreOrderConcat(xs[1..], ys);
    }
  }

  lemma PreOrderFront(t: Tree, ts: seq<Tree>)
    ensures PreOrderF([t] + ts) == PreOrder(t) + PreOrderF(ts)
  {
    assert ([t] + ts)[1..] == ts;
  }

  /** One pop of the stack yields its top and leaves the rest of the pre-order behind. */
  lemma DfsStep(rest: seq<Tree>, top: Tree)
    ensures PreOrderF(Reverse(rest + [top])) == [top] + PreOrderF(Reverse(rest + Reverse(top.children)))
  {
    ReverseConcat(rest, [top]);
    ReverseConcat(rest, Reverse(top.children));
    ReverseTwice(top.children);
    assert Reverse([top]) == [top];
    PreOrderFront(top, Reverse(rest));
    PreOrderConcat(top.children, Reverse(rest));
    Regroup([top], PreOrderF(top.children), PreOrderF(Reverse(rest)));
  }

  /** `iter_dfs`: the stack's top is its last element, children are pushed in reverse. */
  method IterDfs(t: Tree) returns (visited: seq<Tree>)
    ensures visited == PreOrder(t)
  {
    visited := [];
    var stack := [t];
    assert PreOrderF([t]) == PreOrder(t) + PreOrderF([t][1..]);
    while stack != []
      invariant visited + PreOrderF(Reverse(stack)) == PreOrder(t)
      decreases SizeF(stack)
    {
      var node, rest := stack[|stack| - 1], stack[..|stack| - 1];
      assert stack == rest + [node];
      DfsStep(rest, node);
      StackShrinks(rest, node);
      Regroup(visited, [node], PreOrderF(Reverse(rest + Reverse(node.children))));
      visited := visited + [node];
      stack := rest + Reverse(node.children);
    }
  }

  function ChildrenOf(t: Tree): seq<Tree> { t.children }

  lemma {:induction false} LevelSize(ts: seq<Tree>)
    ensures SizeF(Level(ChildrenOf, ts)) == SizeF(ts) - |ts|
  {
    if ts != [] {
      LevelSize(ts[1..]);
      SizeConcat(ts[0].children, Level(ChildrenOf, ts[1..]));
    }
  }

  /** A forest has no more levels than nodes. */
  lemma {:induction false} LevelsEnd(ts: seq<Tree>, n: nat)
    requires SizeF(ts) <= n
    ensures Exhausts(ChildrenOf, ts, n)
    decreases n
  {
    if ts != [] {
      LevelSize(ts);
      LevelsEnd(Level(ChildrenOf, ts), n - 1);
    }
  }

  /** Level by level: the root, then all its children, then all their children, and so on. */
  function LevelOrder(t: Tree): seq<Tree> {
    Levels(ChildrenOf, [t], Size(t))
  }

  lemma TreeLevelsEnd(t: Tree)
    ensures Exhausts(ChildrenOf, [t], Size(t))
  {
    assert SizeF([t]) == Size(t) + SizeF([t][1..]);
    LevelsEnd([t], Size(t));
  }

  /** `iter_bfs`: a first-in first-out queue yields the tree level by level. */
  method IterBfs(t: Tree) returns (visited: seq<Tree>)
    ensures visited == LevelOrder(t)
  {
    ghost var n := Size(t);
    ghost var a, b: seq<Tree> := [], [t];
    TreeLevelsEnd(t);
    assert b + Level(ChildrenOf, a) == [t];
    visited := [];
    var queue := [t];
    while queue != []
      invariant queue == a + b && Exhausts(ChildrenOf, b + Level(ChildrenOf, a), n)
      invariant visited + Pending(ChildrenOf, a, b, n) == LevelOrder(t)
      decreases |Pending(ChildrenOf, a, b, n)|
    {
      var node := queue[0];
      QueueTurn(ChildrenOf, a, b, n);
      TurnedQueue(ChildrenOf, a, b);
      n := LevelsLeft(a, n);
      a, b := Turned(ChildrenOf, a, b).0, Turned(ChildrenOf, a, b).1;
      Regroup(visited, [node], Pending(ChildrenOf, a, b, n));
      visited := visited + [node];
      queue := queue[1..] + node.children;
    }
    assert a == [] && b == [];
    assert Pending(ChildrenOf, [], [], n) == [];
  }

  /** Depth-first and breadth-first traversal visit the same nodes, each as often as it occurs. */
  lemma TraversalsAgree(t: Tree)
    ensures multiset(PreOrder(t)) == multiset(Nodes(t)) == multiset(LevelOrder(t))
  {
    PreOrderPermutes(t);
    TreeLevelsEnd(t);
    LevelsPermute([t], Size(t));
    assert PreOrderF([t]) == PreOrder(t) + PreOrderF([t][1..]);
  }

  lemma {:induction false} PreOrderPermutes(t: Tree)
    ensures multiset(PreOrder(t)) == multiset(Nodes(t))
    decreases t, 1
  {
    PreOrderPermutesF(t.children);
  }

  lemma {:induction false} PreOrderPermutesF(ts: seq<Tree>)
    ensures multiset(PreOrderF(ts)) == multiset(NodesF(ts))
    decreases ts, 0
  {
    if ts != [] {
      PreOrderPermutes(ts[0]);
      PreOrderPermutesF(ts[1..]);
    }
  }

  lemma {:induction false} LevelsPermute(ts: seq<Tree>, n: nat)
    requires Exhausts(ChildrenOf, ts, n)
    ensures multiset(Levels(ChildrenOf, ts, n)) == multiset(PreOrderF(ts))
    decreases n
  {
    if ts != [] {
      LevelsPermute(Level(ChildrenOf, ts), n - 1);
      SplitLevel(ts);
    }
  }

  lemma {:induction false} SplitLevel(ts: seq<Tree>)
    ensures multiset(PreOrderF(ts)) == multiset(ts) + multiset(PreOrderF(Level(ChildrenOf, ts)))
  {
    if ts != [] {
      SplitLevel(ts[1..]);
      PreOrderConcat(ts[0].children, Level(ChildrenOf, ts[1..]));
      assert ts == [ts[0]] + ts[1..];
    }
  }

  // ---------------------------------------------------------------- metrics

  datatype Metrics = Metrics(maxDepth: nat, totalSpans: nat, leafCount: nat, errorLeafCount: nat)

  predicate Counted(n: Tree) { !n.span.IsVirtualRoot() }

  predicate CountedLeaf(n: Tree) { Counted(n) && n.children == [] }

  predicate CountedErrorLeaf(n: Tree) { CountedLeaf(n) && n.span.IsError() }

  function Max(a: nat, b: nat): nat { if a < b then b else a }

  /** The deepest level that counted nodes reach when `t` is at level `depth`. */
  function Deepest(t: Tree, depth: nat): nat
    decreases t, 1
  {
    if t.span.IsVirtualRoot() then DeepestF(t.children, 1)
    else Max(depth, DeepestF(t.children, depth + 1))
  }

  function DeepestF(ts: seq<Tree>, depth: nat): nat
    decreases ts, 0
  {
    if ts == [] then 0 else Max(Deepest(ts[0], depth), DeepestF(ts[1..], depth))
  }

  /** `before` extended by the nodes `ns`, the deepest of them at level `deepest`. */
  ghost function Extended(before: Metrics, ns: seq<Tree>, deepest: nat): Metrics {
    Metrics(
      Max(before.maxDepth, deepest),
      before.totalSpans + |Filter(ns, Counted)|,
      before.leafCount + |Filter(ns, CountedLeaf)|,
      before.errorLeafCount + |Filter(ns, CountedErrorLeaf)|)
  }

  lemma ExtendedConcat(before: Metrics, xs: seq<Tree>, ys: seq<Tree>, a: nat, b: nat)
    ensures Extended(Extended(before, xs, a), ys, b) == Extended(before, xs + ys, Max(a, b))
  {
    FilterAppend(xs, ys, Counted);
    FilterAppend(xs, ys, CountedLeaf);
    FilterAppend(xs, ys, CountedErrorLeaf);
  }

  /** The nested `_compute_metrics_dfs`, which threads one state object through the recursion. */
  method MetricsDfs(node: Tree, depth: nat, before: Metrics) returns (state: Metrics)
    ensures state == Extended(before, Nodes(node), Deepest(node, depth))
    decreases node, 1
  {
    ExtendedConcat(before, NodesF(node.children), [node],
      DeepestF(node.children, if node.span.IsVirtualRoot() then 1 else depth + 1),
      if node.span.IsVirtualRoot() then 0 else depth);
    assert [node][1..] == [];
    if node.span.IsVirtualRoot() {
      state := MetricsDfsAll(node.children, 1, before);
      return;
    }
    state := before.(maxDepth := Max(before.maxDepth, depth), totalSpans := before.totalSpans + 1);
    if node.children == [] {
      state := state.(leafCount := state.leafCount + 1);
      if node.span.IsError() {
        state := state.(errorLeafCount := state.errorLeafCount + 1);
      }
    }
    state := MetricsDfsAll(node.children, depth + 1, state);
  }

  method MetricsDfsAll(nodes: seq<Tree>, depth: nat, before: Metrics) returns (state: Metrics)
    ensures state == Extended(before, NodesF(nodes), DeepestF(nodes, depth))
    decreases nodes, 0
  {
    state := before;
    if nodes != [] {
      ExtendedConcat(before, Nodes(nodes[0]), NodesF(nodes[1..]),
        Deepest(nodes[0], depth), DeepestF(nodes[1..], depth));
      state := MetricsDfs(nodes[0], depth, state);
      state := MetricsDfsAll(nodes[1..], depth, state);
    }
  }

  /** `compute_tree_metrics`. */
  method ComputeTreeMetrics(t: Tree) returns (m: Metrics)
    ensures m == Metrics(Deepest(t, 1), |Filter(Nodes(t), Counted)|,
                         |Filter(Nodes(t), CountedLeaf)|, |Filter(Nodes(t), CountedErrorLeaf)|)
  {
    m := MetricsDfs(t, 1, Metrics(0, 0, 0, 0));
  }

  // ---------------------------------------------------------------- metrics of a built tree

  ghost predicate NoVirtualMarks(spans: seq<Span>) {
    forall s :: s in spans ==> !s.IsVirtualRoot()
  }

  /** On a built tree the deepest level is at least one more than the number of hops from any span
      below `s` to its root. */
  lemma {:induction false} DeepestBounds(spans: seq<Span>, s: Span, d: nat, x: Span)
    requires Ready(spans) && NoVirtualMarks(spans) && s in spans && x in spans && IsAbove(spans, s, x)
    requires d == Depth(spans, s) + 1
    ensures Depth(spans, x) + 1 <= Deepest(BuildTree(spans, s), d)
    decreases Below(spans, s)
  {
    if x != s {
      var c := StepDown(spans, s, x);
      BelowShrinks(spans, c, s);
      DeepestBounds(spans, c, d + 1, x);
      DeepestOfChild(spans, s, c, d);
    }
  }

  lemma DeepestOfChild(spans: seq<Span>, s: Span, c: Span, d: nat)
    requires Ready(spans) && NoVirtualMarks(spans) && s in spans && c in spans && IsChild(c, s)
    ensures Deepest(BuildTree(spans, c), d + 1) <= Deepest(BuildTree(spans, s), d)
  {
    ChildrenAreBuilt(spans, s, BuildTree(spans, c));
    DeepestMember(BuildTree(spans, s).children, BuildTree(spans, c), d + 1);
  }

  /** A level deeper than the node's own is reached through a child. */
  lemma DeepestChild(spans: seq<Span>, s: Span, d: nat) returns (c: Span)
    requires Ready(spans) && NoVirtualMarks(spans) && s in spans && Deepest(BuildTree(spans, s), d) != d
    ensures c in spans && IsChild(c, s) && Deepest(BuildTree(spans, c), d + 1) == Deepest(BuildTree(spans, s), d)
  {
    var ts := BuildTree(spans, s).children;
    DeepestOfForest(ts, d + 1);
    var i :| 0 <= i < |ts| && Deepest(ts[i], d + 1) == DeepestF(ts, d + 1);
    ChildrenAreBuilt(spans, s, ts[i]);
    c := ts[i].span;
  }

  /** Some span lies exactly that deep. */
  lemma {:induction false} DeepestReached(spans: seq<Span>, s: Span) returns (x: Span)
    requires Ready(spans) && NoVirtualMarks(spans) && s in spans
    ensures x in spans && Depth(spans, x) + 1 == Deepest(BuildTree(spans, s), Depth(spans, s) + 1)
    decreases Below(spans, s)
  {
    var d := Depth(spans, s) + 1;
    if Deepest(BuildTree(spans, s), d) == d {
      x := s;
    } else {
      var c := DeepestChild(spans, s, d);
      ParentIs(spans, c, s);
      BelowShrinks(spans, c, s);
      x := DeepestReached(spans, c);
    }
  }

  lemma {:induction false} DeepestOfForest(ts: seq<Tree>, depth: nat)
    ensures forall i :: 0 <= i < |ts| ==> Deepest(ts[i], depth) <= DeepestF(ts, depth)
    ensures DeepestF(ts, depth) == 0 || exists i :: 0 <= i < |ts| && Deepest(ts[i], depth) == DeepestF(ts, depth)
  {
    if ts != [] {
      DeepestOfForest(ts[1..], depth);
      forall i | 0 <= i < |ts|
        ensures Deepest(ts[i], depth) <= DeepestF(ts, depth)
      {
        if i > 0 {
          assert ts[i] == ts[1..][i - 1];
        }
      }
      if DeepestF(ts, depth) == Deepest(ts[0], depth) {
      } else {
        var i :| 0 <= i < |ts[1..]| && Deepest(ts[1..][i], depth) == DeepestF(ts[1..], depth);
        assert ts[i + 1] == ts[1..][i];
      }
    }
  }

  lemma DeepestMember(ts: seq<Tree>, t: Tree, depth: nat)
    requires t in ts
    ensures Deepest(t, depth) <= DeepestF(ts, depth)
  {
    DeepestOfForest(ts, depth);
    var i :| 0 <= i < |ts| && ts[i] == t;
  }

  lemma DeepestSingle(t: Tree, depth: nat)
    ensures DeepestF([t], depth) == Deepest(t, depth)
  {
    assert [t][1..] == [];
  }

  lemma DeepestAssembled(spans: seq<Span>, roots: seq<Tree>, virtualId: string)
    requires spans != []
    ensures Deepest(Assemble(spans, roots, virtualId), 1) == DeepestF(roots, 1)
  {
    if UsesOwnRoot(roots) {
      assert roots == [roots[0]];
      DeepestSingle(roots[0], 1);
    } else {
      assert VirtualRoot(spans, virtualId).IsVirtualRoot();
    }
  }

  /** The root tree above a span, and its depth. */
  lemma RootAbove(spans: seq<Span>, x: Span) returns (r: Span)
    requires Ready(spans) && x in spans
    ensures r in spans && BuildTree(spans, r) in RootTrees(spans, |spans|)
    ensures Depth(spans, r) == 0 && IsAbove(spans, r, x)
  {
    r := Top(spans, x);
    assert IsAbove(spans, r, x);
    RootDepth(spans, r);
    RootMembers(spans, BuildTree(spans, r));
  }

  lemma RootsCover(spans: seq<Span>, x: Span)
    requires Ready(spans) && NoVirtualMarks(spans) && x in spans
    ensures RootTrees(spans, |spans|) != []
    ensures Depth(spans, x) + 1 <= DeepestF(RootTrees(spans, |spans|), 1)
  {
    var r := RootAbove(spans, x);
    DeepestBounds(spans, r, 1, x);
    DeepestMember(RootTrees(spans, |spans|), BuildTree(spans, r), 1);
  }

  lemma RootsReach(spans: seq<Span>) returns (x: Span)
    requires spans != [] && Ready(spans) && NoVirtualMarks(spans)
    ensures x in spans && Depth(spans, x) + 1 == DeepestF(RootTrees(spans, |spans|), 1)
  {
    RootsCover(spans, spans[0]);
    var r := DeepestRoot(spans);
    x := DeepestReached(spans, r);
  }

  lemma DeepestRoot(spans: seq<Span>) returns (r: Span)
    requires Ready(spans) && DeepestF(RootTrees(spans, |spans|), 1) != 0
    ensures r in spans && Depth(spans, r) == 0
    ensures Deepest(BuildTree(spans, r), 1) == DeepestF(RootTrees(spans, |spans|), 1)
  {
    var roots := RootTrees(spans, |spans|);
    DeepestOfForest(roots, 1);
    var i :| 0 <= i < |roots| && Deepest(roots[i], 1) == DeepestF(roots, 1);
    RootMembers(spans, roots[i]);
    RootDepth(spans, roots[i].span);
    r := roots[i].span;
  }

  /** The depth reported for a built tree is one more than the largest number of parent hops. */
  lemma DeepestOfBuilt(spans: seq<Span>, virtualId: string)
    requires spans != [] && Ready(spans) && NoVirtualMarks(spans)
    ensures forall x :: x in spans ==> Depth(spans, x) + 1 <= Deepest(TreeOf(spans, virtualId), 1)
    ensures exists x :: x in spans && Depth(spans, x) + 1 == Deepest(TreeOf(spans, virtualId), 1)
  {
    DeepestAssembled(spans, RootTrees(spans, |spans|), virtualId);
    forall x | x in spans
      ensures Depth(spans, x) + 1 <= Deepest(TreeOf(spans, virtualId), 1)
    {
      RootsCover(spans, x);
    }
    var x := RootsReach(spans);
  }

  /** The metrics of a built tree count exactly the listed spans. */
  lemma BuiltSpanCount(spans: seq<Span>, virtualId: string)
    requires spans != [] && Ready(spans) && NoVirtualMarks(spans)
    ensures |Filter(Nodes(TreeOf(spans, virtualId)), Counted)| == |spans|
  {
    ForestCounted(spans);
    AssembledCount(spans, RootTrees(spans, |spans|), virtualId);
  }

  lemma ForestCounted(spans: seq<Span>)
    requires Ready(spans) && NoVirtualMarks(spans)
    ensures |Filter(NodesF(RootTrees(spans, |spans|)), Counted)| == |spans|
  {
    var roots := RootTrees(spans, |spans|);
    forall n | n in NodesF(roots)
      ensures Counted(n)
    {
      ForestNodesAreBuilt(spans, n);
    }
    FilterAll(NodesF(roots), Counted);
    ForestHoldsEachSpanOnce(spans);
    SizeIsNodeCountF(roots);
    SizeIsSpanCountF(roots);
  }

  lemma AssembledCount(spans: seq<Span>, roots: seq<Tree>, virtualId: string)
    requires spans != []
    ensures |Filter(Nodes(Assemble(spans, roots, virtualId)), Counted)| == |Filter(NodesF(roots), Counted)|
  {
    var t := Assemble(spans, roots, virtualId);
    if UsesOwnRoot(roots) {
      assert roots == [t] && [t][1..] == [];
      assert NodesF(roots) == Nodes(t);
    } else {
      FilterAppend(NodesF(roots), [t], Counted);
      assert [t][1..] == [];
    }
  }
}
