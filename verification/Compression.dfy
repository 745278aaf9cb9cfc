/** `CompressionPolicy.compress` of agent_obs/tree_compressor.py: the explicit-stack metrics, the
    nested breadth-first error propagation, the rebuild, and the tree they produce together. */
module Compression {
  import opened Spans
  import opened Sequences
  import opened TraceTree
  import opened Basics

  // ---------------------------------------------------------------- subtree metrics (lines 124-165)

  /** A stack entry: a node and the position of its children iterator. */
  datatype Frame = Frame(node: Tree, next: nat)

  /** The nodes that are still to be finished, in finishing order. */
  ghost function Remaining(stack: seq<Frame>): seq<Tree> {
    if stack == [] then []
    else
      var top := stack[|stack| - 1];
      var left := if top.next <= |top.node.children| then top.node.children[top.next..] else [];
      NodesF(left) + [top.node] + Remaining(stack[..|stack| - 1])
  }

  /** Each frame has handed out `next` children: the last of them is the node `above` it on the stack,
      if any, and all the others are finished. */
  ghost predicate Framed(stack: seq<Frame>, done: seq<Tree>, above: Option<Tree>) {
    stack == [] ||
    var top := stack[|stack| - 1];
    && top.next <= |top.node.children|
    && (above.None? ==> AllIn(top.node.children[..top.next], done))
    && (above.Some? ==> top.next > 0 && top.node.children[top.next - 1] == above.value
                        && AllIn(top.node.children[..top.next - 1], done))
    && Framed(stack[..|stack| - 1], done, Some(top.node))
  }

  ghost predicate AllIn(xs: seq<Tree>, ys: seq<Tree>) {
    forall x :: x in xs ==> x in ys
  }

  lemma {:induction false} FramedGrows(stack: seq<Frame>, done: seq<Tree>, above: Option<Tree>, node: Tree)
    requires Framed(stack, done, above)
    ensures Framed(stack, done + [node], above)
  {
    if stack != [] {
      FramedGrows(stack[..|stack| - 1], done, Some(stack[|stack| - 1].node), node);
    }
  }

  ghost predicate MetricsOf(ns: seq<Tree>, sizes: map<string, nat>, errors: map<string, bool>) {
    forall n :: n in ns ==>
      n.Id() in sizes && n.Id() in errors && sizes[n.Id()] == Size(n) && errors[n.Id()] == HasError(n)
  }

  function NodeId(t: Tree): string { t.Id() }

  function IdSeq(ns: seq<Tree>): (ids: seq<string>)
    ensures |ids| == |ns|
    ensures forall i :: 0 <= i < |ns| ==> ids[i] == ns[i].Id()
  {
    Map(NodeId, ns)
  }

  /** Lines 152-160: a finished node's figures from those of its children. */
  method CombineChildren(node: Tree, sizes: map<string, nat>, errors: map<string, bool>)
    returns (size: nat, hasError: bool)
    requires MetricsOf(node.children, sizes, errors)
    ensures size == Size(node) && hasError == HasError(node)
  {
    size, hasError := 1, node.span.IsError();
    for i := 0 to |node.children|
      invariant size == 1 + SizeF(node.children[..i])
      invariant hasError == (node.span.IsError() || HasErrorF(node.children[..i]))
    {
      var child := node.children[i];
      assert child in node.children;
      assert node.children[..i + 1] == node.children[..i] + [child];
      SizeConcat(node.children[..i], [child]);
      HasErrorAppend(node.children[..i], child);
      size := size + sizes[child.Id()];
      hasError := hasError || errors[child.Id()];
    }
    assert node.children[..|node.children|] == node.children;
  }

  lemma {:induction false} HasErrorAppend(ts: seq<Tree>, t: Tree)
    ensures HasErrorF(ts + [t]) == (HasErrorF(ts) || HasError(t))
  {
    if ts == [] {
      assert ts + [t] == [t] && [t][1..] == [];
    } else {
      assert (ts + [t])[1..] == ts[1..] + [t];
      HasErrorAppend(ts[1..], t);
    }
  }

  /** A map entry for a new id leaves the figures of other nodes alone. */
  lemma MetricsExtend(all: seq<Tree>, done: seq<Tree>, node: Tree, sizes: map<string, nat>, errors: map<string, bool>)
    requires DistinctNodeIds(all) && done + [node] <= all && MetricsOf(done, sizes, errors)
    ensures MetricsOf(done + [node], sizes[node.Id() := Size(node)], errors[node.Id() := HasError(node)])
  {
    forall n | n in done
      ensures n.Id() != node.Id()
    {
      var i :| 0 <= i < |done| && done[i] == n;
      assert all[i] == n && all[|done|] == node;
    }
  }

  /** Lines 148-163: records a node whose children are all recorded. */
  method FinishNode(ghost all: seq<Tree>, ghost done: seq<Tree>, node: Tree,
                    sizes0: map<string, nat>, errors0: map<string, bool>)
    returns (sizes: map<string, nat>, errors: map<string, bool>)
    requires DistinctNodeIds(all) && done + [node] <= all
    requires AllIn(node.children, done) && MetricsOf(done, sizes0, errors0)
    ensures MetricsOf(done + [node], sizes, errors)
  {
    var size, hasError := CombineChildren(node, sizes0, errors0);
    MetricsExtend(all, done, node, sizes0, errors0);
    sizes, errors := sizes0[node.Id() := size], errors0[node.Id() := hasError];
  }

  lemma {:induction false} RemainingBound(stack: seq<Frame>)
    ensures |Remaining(stack)| >= |stack|
  {
    if stack != [] {
      RemainingBound(stack[..|stack| - 1]);
    }
  }

  /** The traversal state: `done` is finished, the stack holds the rest of the post-order. */
  ghost predicate Traversing(tree: Tree, stack: seq<Frame>, done: seq<Tree>) {
    Framed(stack, done, None) && done + Remaining(stack) == Nodes(tree)
  }

  lemma TopOfStack(below: seq<Frame>, top: Frame, done: seq<Tree>, above: Option<Tree>)
    requires top.next <= |top.node.children|
    ensures Remaining(below + [top]) == NodesF(top.node.children[top.next..]) + [top.node] + Remaining(below)
    ensures above.None? ==>
              (Framed(below + [top], done, above) <==>
                 AllIn(top.node.children[..top.next], done) && Framed(below, done, Some(top.node)))
    ensures above.Some? && top.next > 0 && top.node.children[top.next - 1] == above.value ==>
              (Framed(below + [top], done, above) <==>
                 AllIn(top.node.children[..top.next - 1], done) && Framed(below, done, Some(top.node)))
  {
    assert (below + [top])[..|below|] == below;
  }

  lemma PushKeepsTraversal(tree: Tree, below: seq<Frame>, top: Frame, done: seq<Tree>)
    requires Traversing(tree, below + [top], done) && top.next < |top.node.children|
    ensures var pushed := below + [Frame(top.node, top.next + 1)] + [Frame(top.node.children[top.next], 0)];
            Traversing(tree, pushed, done) && Remaining(pushed) == Remaining(below + [top])
  {
    var child := top.node.children[top.next];
    var handed := Frame(top.node, top.next + 1);
    TopOfStack(below, top, done, None);
    TopOfStack(below, handed, done, Some(child));
    TopOfStack(below + [handed], Frame(child, 0), done, None);
    var rest := top.node.children[top.next..];
    assert rest[0] == child && rest[1..] == top.node.children[top.next + 1..];
    assert child.children[0..] == child.children && child.children[..0] == [];
    assert NodesF(rest) == Nodes(child) + NodesF(rest[1..]);
    Regroup(Nodes(child), NodesF(rest[1..]), [top.node]);
    Regroup(Nodes(child), NodesF(rest[1..]) + [top.node], Remaining(below));
  }

  lemma PopKeepsTraversal(tree: Tree, below: seq<Frame>, top: Frame, done: seq<Tree>)
    requires Traversing(tree, below + [top], done) && top.next >= |top.node.children|
    ensures AllIn(top.node.children, done)
    ensures done + [top.node] <= Nodes(tree)
    ensures Traversing(tree, below, done + [top.node])
    ensures |Remaining(below + [top])| == 1 + |Remaining(below)|
  {
    assert (below + [top])[..|below|] == below;
    assert top.node.children[..top.next] == top.node.children && top.node.children[top.next..] == [];
    assert Remaining(below + [top]) == [top.node] + Remaining(below);
    assert done + Remaining(below + [top]) == done + [top.node] + Remaining(below);
    FramedGrows(below, done, Some(top.node), top.node);
    if below != [] {
      var f := below[|below| - 1];
      assert f.node.children[..f.next] == f.node.children[..f.next - 1] + [top.node];
    }
  }

  /** `_compute_subtree_metrics`. `order` lists the keys of both maps as they were inserted. */
  method ComputeSubtreeMetrics(tree: Tree)
    returns (sizes: map<string, nat>, errors: map<string, bool>, order: seq<string>)
    requires DistinctIds(tree)
    ensures MetricsOf(Nodes(tree), sizes, errors)
    ensures order == IdSeq(Nodes(tree))
  {
    sizes, errors, order := map[], map[], [];
    var stack := [Frame(tree, 0)];
    ghost var done: seq<Tree> := [];
    assert tree.children[0..] == tree.children && stack[..0] == [];
    assert Remaining(stack) == Nodes(tree);
    while stack != []
      invariant Traversing(tree, stack, done)
      invariant MetricsOf(done, sizes, errors)
      invariant order == IdSeq(done)
      decreases 2 * |Remaining(stack)| - |stack|
    {
      var top, below := stack[|stack| - 1], stack[..|stack| - 1];
      assert stack == below + [top];
      RemainingBound(stack);
      if top.next < |top.node.children| {
        PushKeepsTraversal(tree, below, top, done);
        stack := below + [Frame(top.node, top.next + 1)] + [Frame(top.node.children[top.next], 0)];
      } else {
        PopKeepsTraversal(tree, below, top, done);
        sizes, errors := FinishNode(Nodes(tree), done, top.node, sizes, errors);
        MapAppend(NodeId, done, top.node);
        order, done := order + [top.node.Id()], done + [top.node];
        stack := below;
      }
    }
    assert done == Nodes(tree);
  }

  // ---------------------------------------------------------------- error propagation (lines 168-204)

  /** Before: every node below `c` carries its own flag. */
  ghost predicate OwnFlags(c: Tree, errors: map<string, bool>) {
    forall n :: n in Nodes(c) ==> n.Id() in errors && errors[n.Id()] == HasError(n)
  }

  /** After: every node below `c` carries the flag of the whole branch. */
  ghost predicate BranchFlags(c: Tree, errors: map<string, bool>) {
    forall n :: n in Nodes(c) ==> n.Id() in errors && errors[n.Id()] == HasError(c)
  }

  /** `errors` and `before` differ only on ids of nodes below `c`. */
  ghost predicate OnlyBelow(c: Tree, before: map<string, bool>, errors: map<string, bool>) {
    && before.Keys <= errors.Keys
    && forall id :: id in before && errors[id] != before[id] ==> exists n :: n in Nodes(c) && n.Id() == id
  }

  /** Lines 191-199: marks `current` and everything below it. */
  method MarkDescendants(current: Tree, before: map<string, bool>) returns (errors: map<string, bool>)
    ensures forall n :: n in Nodes(current) ==> n.Id() in errors && errors[n.Id()]
    ensures OnlyBelow(current, before, errors)
    ensures forall id :: id in before && before[id] ==> errors[id]
  {
    errors := before;
    var queue := [current];
    assert [current][1..] == [];
    while queue != []
      invariant forall n :: n in NodesF(queue) ==> n in Nodes(current)
      invariant forall n :: n in Nodes(current) ==> n in NodesF(queue) || (n.Id() in errors && errors[n.Id()])
      invariant OnlyBelow(current, before, errors)
      invariant forall id :: id in before && before[id] ==> errors[id]
      decreases SizeF(queue)
    {
      var node := queue[0];
      NodesConcat(queue[1..], node.children);
      SizeConcat(queue[1..], node.children);
      assert SizeF(queue) == Size(node) + SizeF(queue[1..]);
      assert node in NodesF(queue);
      errors := errors[node.Id() := true];
      queue := queue[1..] + node.children;
    }
  }

  /** The two inner loops for one child of the root. */
  method PropagateBranch(c: Tree, before: map<string, bool>) returns (errors: map<string, bool>)
    requires OwnFlags(c, before)
    ensures BranchFlags(c, errors)
    ensures OnlyBelow(c, before, errors)
  {
    errors := before;
    var queue := [c];
    assert [c][1..] == [];
    forall n | n in Nodes(c) && HasError(n)
      ensures HasError(c)
    {
      ErrorsRise(c, n);
    }
    while queue != []
      invariant forall n :: n in NodesF(queue) ==> n in Nodes(c)
      invariant queue == [c] || BranchFlags(c, errors)
      invariant forall n :: n in Nodes(c) ==> n.Id() in errors
      invariant forall n :: n in Nodes(c) && errors[n.Id()] ==> HasError(c)
      invariant errors[c.Id()] == HasError(c)
      invariant OnlyBelow(c, before, errors)
      decreases SizeF(queue)
    {
      var current := queue[0];
      NodesConcat(queue[1..], current.children);
      SizeConcat(queue[1..], current.children);
      assert SizeF(queue) == Size(current) + SizeF(queue[1..]);
      assert current in NodesF(queue);
      if errors[current.Id()] {
        ghost var prior := errors;
        errors := MarkDescendants(current, errors);
        MarkedStaysBelow(c, current, before, prior, errors);
      }
      queue := queue[1..] + current.children;
    }
  }

  lemma MarkedStaysBelow(c: Tree, current: Tree,
                         before: map<string, bool>, prior: map<string, bool>, errors: map<string, bool>)
    requires current in Nodes(c)
    requires OnlyBelow(c, before, prior) && OnlyBelow(current, prior, errors)
    ensures OnlyBelow(c, before, errors)
  {
    forall id | id in before && errors[id] != before[id]
      ensures exists n :: n in Nodes(c) && n.Id() == id
    {
      if errors[id] != prior[id] {
        var n :| n in Nodes(current) && n.Id() == id;
        NodesTransitive(c, current, n);
      }
    }
  }

  /** `_propagate_error_status`: in effect, a node below a child `c` of the root is flagged exactly
      when some span anywhere in the branch of `c` is erroneous. */
  method PropagateErrors(tree: Tree, before: map<string, bool>) returns (errors: map<string, bool>)
    requires DistinctIds(tree)
    requires OwnFlags(tree, before)
    ensures forall j :: 0 <= j < |tree.children| ==> BranchFlags(tree.children[j], errors)
  {
    errors := before;
    forall j | 0 <= j < |tree.children|
      ensures OwnFlags(tree.children[j], errors)
    {
      forall n | n in Nodes(tree.children[j])
        ensures n in Nodes(tree)
      {
        InForest(tree.children, n);
      }
    }
    for i := 0 to |tree.children|
      invariant forall j :: 0 <= j < i ==> BranchFlags(tree.children[j], errors)
      invariant forall j :: i <= j < |tree.children| ==> OwnFlags(tree.children[j], errors)
    {
      ghost var prior := errors;
      errors := PropagateBranch(tree.children[i], errors);
      forall j, n | 0 <= j < |tree.children| && j != i && n in Nodes(tree.children[j])
        ensures n.Id() in prior ==> errors[n.Id()] == prior[n.Id()]
      {
        OtherBranchUntouched(tree, i, j, n, prior, errors);
      }
    }
  }

  lemma OtherBranchUntouched(tree: Tree, i: nat, j: nat, n: Tree, prior: map<string, bool>, errors: map<string, bool>)
    requires DistinctIds(tree) && i < |tree.children| && j < |tree.children| && i != j
    requires n in Nodes(tree.children[j]) && OnlyBelow(tree.children[i], prior, errors)
    ensures n.Id() in prior ==> errors[n.Id()] == prior[n.Id()]
  {
    if n.Id() in prior {
      forall m | m in Nodes(tree.children[i])
        ensures m.Id() != n.Id()
      {
        if i < j {
          BranchesDisjoint(tree, i, j, m, n);
        } else {
          BranchesDisjoint(tree, j, i, n, m);
        }
      }
    }
  }

  // ---------------------------------------------------------------- summaries (lines 82-121)

  function SpanCost(s: Span): real {
    Money(Get(s.attributes, "cost.usd", Num(0.0))) + Money(Get(s.attributes, "cost.usd_sum", Num(0.0)))
  }

  function Cost(t: Tree): real
    decreases t, 1
  {
    SpanCost(t.span) + CostF(t.children)
  }

  function CostF(ts: seq<Tree>): real
    decreases ts, 0
  {
    if ts == [] then 0.0 else Cost(ts[0]) + CostF(ts[1..])
  }

  /** `make_summary_node`. */
  function MakeSummary(replaced: Tree, size: nat, cost: real): Span {
    Span("compressed:" + Decimal(size), AgentReasoningCompressed,
      replaced.span.context.(tenantId := ""),
      map[
        "tree.compressed" := Flag(true),
        "tree.children_count" := Num(size as real),
        "tree.total_cost" := Num(cost),
        "tree.error_count" := Num(0.0),
        "tree.summary" := Text("pending"),
        "tree.policy_version" := Text("1")],
      [], replaced.span.startTime, None)
  }

  function SummaryTree(replaced: Tree): Tree {
    Node(MakeSummary(replaced, Size(replaced), Cost(replaced)), [], true, 0.0)
  }

  lemma {:induction false} CostConcat(xs: seq<Tree>, ys: seq<Tree>)
    ensures CostF(xs + ys) == CostF(xs) + CostF(ys)
  {
    if xs == [] {
      assert xs + ys == ys;
    } else {
      assert (xs + ys)[1..] == xs[1..] + ys;
      CostConcat(xs[1..], ys);
    }
  }

  lemma {:induction false} CostReversed(ts: seq<Tree>)
    ensures CostF(Reverse(ts)) == CostF(ts)
  {
    if ts != [] {
      CostReversed(ts[1..]);
      CostConcat(Reverse(ts[1..]), [ts[0]]);
      assert [ts[0]][1..] == [];
    }
  }

  /** Lines 259-268: the cost of a subtree, summed over an explicit stack. */
  method TotalCost(t: Tree) returns (total: real)
    ensures total == Cost(t)
  {
    total := 0.0;
    var stack := [t];
    assert [t][1..] == [];
    while stack != []
      invariant total + CostF(stack) == Cost(t)
      decreases SizeF(stack)
    {
      var node, rest := stack[|stack| - 1], stack[..|stack| - 1];
      assert stack == rest + [node] && [node][1..] == [];
      CostConcat(rest, [node]);
      CostConcat(rest, Reverse(node.children));
      CostReversed(node.children);
      StackShrinks(rest, node);
      total := total + SpanCost(node.span);
      stack := rest + Reverse(node.children);
    }
  }

  // ---------------------------------------------------------------- rebuild (lines 207-321)

  /** A call of `_enqueue_summary_job`. */
  datatype Job = Job(traceId: string, nodeId: string, agentId: string)

  function JobFor(t: Tree): Job {
    Job(t.span.context.traceId, t.Id(), if t.span.context.agentId == "" then "unknown" else t.span.context.agentId)
  }

  /** Nodes that are never replaced: marked virtual roots and earlier summaries. */
  predicate Exempt(t: Tree) {
    t.span.IsVirtualRoot() || t.span.IsSummary() || t.compressed
  }

  /** `_should_compress`. Its comparison of the root's span with a tree is always false. */
  predicate ShouldCompress(t: Tree, sizes: map<string, nat>, errors: map<string, bool>, limit: int)
    requires t.Id() in sizes ==> t.Id() in errors
  {
    t.Id() in sizes && !Exempt(t) && sizes[t.Id()] > limit && !errors[t.Id()]
  }

  /** What the rebuild makes of a subtree in a branch whose error flag is `err`. */
  function Rebuild(t: Tree, limit: int, err: bool): Tree
    decreases t, 1
  {
    if !Exempt(t) && Size(t) > limit && !err then SummaryTree(t)
    else Node(t.span, RebuildAll(t.children, limit, err), t.compressed, t.ratio)
  }

  function RebuildAll(ts: seq<Tree>, limit: int, err: bool): (rs: seq<Tree>)
    ensures |rs| == |ts|
    decreases ts, 0
  {
    if ts == [] then [] else [Rebuild(ts[0], limit, err)] + RebuildAll(ts[1..], limit, err)
  }

  /** The subtrees that the rebuild replaces, left to right. */
  function Replaced(t: Tree, limit: int, err: bool): seq<Tree>
    decreases t, 1
  {
    if !Exempt(t) && Size(t) > limit && !err then [t] else ReplacedAll(t.children, limit, err)
  }

  function ReplacedAll(ts: seq<Tree>, limit: int, err: bool): seq<Tree>
    decreases ts, 0
  {
    if ts == [] then [] else Replaced(ts[0], limit, err) + ReplacedAll(ts[1..], limit, err)
  }

  function JobsFor(ts: seq<Tree>): (jobs: seq<Job>)
    ensures |jobs| == |ts|
    ensures forall i :: 0 <= i < |ts| ==> jobs[i] == JobFor(ts[i])
  {
    Map(JobFor, ts)
  }

  /** The maps say of every node below `t` its size and the flag `err`. */
  ghost predicate FlaggedBranch(t: Tree, sizes: map<string, nat>, errors: map<string, bool>, err: bool) {
    forall n :: n in Nodes(t) ==>
      n.Id() in sizes && n.Id() in errors && sizes[n.Id()] == Size(n) && errors[n.Id()] == err
  }

  /** One child of the loop in `_build_compressed_children`. */
  method RebuildChild(t: Tree, sizes: map<string, nat>, errors: map<string, bool>, limit: int, ghost err: bool)
    returns (r: Tree, jobs: seq<Job>)
    requires FlaggedBranch(t, sizes, errors, err)
    ensures r == Rebuild(t, limit, err)
    ensures jobs == JobsFor(Replaced(t, limit, err))
    decreases t, 1
  {
    assert t in Nodes(t);
    if ShouldCompress(t, sizes, errors, limit) {
      var cost := TotalCost(t);
      r := Node(MakeSummary(t, sizes[t.Id()], cost), [], true, 0.0);
      jobs := [JobFor(t)];
    } else {
      forall n | n in NodesF(t.children)
        ensures n in Nodes(t)
      {
      }
      var kids;
      kids, jobs := RebuildChildren(t.children, sizes, errors, limit, err);
      r := Node(t.span, kids, t.compressed, t.ratio);
    }
  }

  /** `_build_compressed_children`, within one branch. */
  method RebuildChildren(ts: seq<Tree>, sizes: map<string, nat>, errors: map<string, bool>, limit: int, ghost err: bool)
    returns (rs: seq<Tree>, jobs: seq<Job>)
    requires forall n :: n in NodesF(ts) ==>
               n.Id() in sizes && n.Id() in errors && sizes[n.Id()] == Size(n) && errors[n.Id()] == err
    ensures rs == RebuildAll(ts, limit, err)
    ensures jobs == JobsFor(ReplacedAll(ts, limit, err))
    decreases ts, 0
  {
    rs, jobs := [], [];
    if ts != [] {
      var r, own := RebuildChild(ts[0], sizes, errors, limit, err);
      var rest, more := RebuildChildren(ts[1..], sizes, errors, limit, err);
      MapConcat(JobFor, Replaced(ts[0], limit, err), ReplacedAll(ts[1..], limit, err));
      rs, jobs := [r] + rest, own + more;
    }
  }

  /** `_mark_compressed_nodes`: a node is marked when a child was marked before the pass. */
  function Mark(t: Tree): Tree
    decreases t, 1
  {
    Node(t.span, MarkAll(t.children), t.compressed || exists c :: c in t.children && c.compressed, t.ratio)
  }

  function MarkAll(ts: seq<Tree>): (rs: seq<Tree>)
    ensures |rs| == |ts|
    decreases ts, 0
  {
    if ts == [] then [] else [Mark(ts[0])] + MarkAll(ts[1..])
  }

  /** `set_ratio`. */
  function SetRatio(t: Tree, ratio: real): Tree
    decreases t, 1
  {
    Node(t.span, SetRatioAll(t.children, ratio), t.compressed, ratio)
  }

  function SetRatioAll(ts: seq<Tree>, ratio: real): (rs: seq<Tree>)
    ensures |rs| == |ts|
    decreases ts, 0
  {
    if ts == [] then [] else [SetRatio(ts[0], ratio)] + SetRatioAll(ts[1..], ratio)
  }

  // ---------------------------------------------------------------- compress (lines 363-416)

  /** The ids that lines 387-391 take for the root's. */
  predicate TakenForRoot(tree: Tree, id: string) {
    (tree.span.IsVirtualRoot() && Contains(id, "virtual_root")) || id == tree.Id()
  }

  /** The size found by the search of lines 386-391, which scans the nodes in finishing order. */
  ghost function OriginalCount(tree: Tree, ns: seq<Tree>, i: nat): (n: nat)
    requires i < |ns| && ns[|ns| - 1] == tree
    ensures n > 0
    decreases |ns| - i
  {
    if TakenForRoot(tree, ns[i].Id()) then Size(ns[i]) else OriginalCount(tree, ns, i + 1)
  }

  function Clamp(x: real): real {
    if x > 1.0 then 1.0 else if x < 0.0 then 0.0 else x
  }

  /** Lines 385-408, when the ratio is computed anew. `count_nodes` looks at the root only. */
  function FreshRatio(tree: Tree, original: nat): real
    requires original > 0
  {
    var kept := if tree.span.IsSummary() then 0 else 1;
    Clamp((original - kept) as real / original as real)
  }

  /** The children of the root after the rebuild: every branch is treated by its own error flag. */
  function RebuildBranches(ts: seq<Tree>, limit: int): (rs: seq<Tree>)
    ensures |rs| == |ts|
    ensures forall i :: 0 <= i < |ts| ==> rs[i] == Rebuild(ts[i], limit, HasError(ts[i]))
  {
    if ts == [] then [] else [Rebuild(ts[0], limit, HasError(ts[0]))] + RebuildBranches(ts[1..], limit)
  }

  function ReplacedBranches(ts: seq<Tree>, limit: int): seq<Tree> {
    if ts == [] then [] else Replaced(ts[0], limit, HasError(ts[0])) + ReplacedBranches(ts[1..], limit)
  }

  /** The compressed tree, in terms of the input tree alone. */
  ghost function CompressTree(tree: Tree, limit: int): Tree {
    SetRatio(Mark(Node(tree.span, RebuildBranches(tree.children, limit), false, 0.0)), ResultRatio(tree, limit))
  }

  /** A ratio that is already positive is kept when nothing new is replaced. */
  ghost function ResultRatio(tree: Tree, limit: int): real {
    if ReplacedBranches(tree.children, limit) == [] && tree.ratio > 0.0 then tree.ratio
    else FreshRatio(tree, OriginalCount(tree, Nodes(tree), 0))
  }

  /** Lines 386-391. The fallback of lines 393-398 is never reached, because the root's own id is a key. */
  method FindOriginalCount(tree: Tree, sizes: map<string, nat>, errors: map<string, bool>, order: seq<string>)
    returns (n: nat)
    requires MetricsOf(Nodes(tree), sizes, errors) && order == IdSeq(Nodes(tree))
    ensures n == OriginalCount(tree, Nodes(tree), 0)
  {
    ghost var ns := Nodes(tree);
    var i := 0;
    while !TakenForRoot(tree, order[i])
      invariant 0 <= i < |order|
      invariant OriginalCount(tree, ns, i) == OriginalCount(tree, ns, 0)
      decreases |order| - i
    {
      i := i + 1;
    }
    assert ns[i] in ns;
    n := sizes[order[i]];
  }

  /** The rebuild of the root's children, branch by branch. */
  method RebuildRoot(tree: Tree, sizes: map<string, nat>, errors: map<string, bool>, limit: int)
    returns (kids: seq<Tree>, jobs: seq<Job>)
    requires forall c :: c in tree.children ==> FlaggedBranch(c, sizes, errors, HasError(c))
    ensures kids == RebuildBranches(tree.children, limit)
    ensures jobs == JobsFor(ReplacedBranches(tree.children, limit))
  {
    var ts := tree.children;
    kids, jobs := [], [];
    for i := 0 to |ts|
      invariant kids == RebuildBranches(ts[..i], limit)
      invariant jobs == JobsFor(ReplacedBranches(ts[..i], limit))
    {
      var r, more := RebuildChild(ts[i], sizes, errors, limit, HasError(ts[i]));
      BranchesGrow(ts, i, limit);
      kids, jobs := kids + [r], jobs + more;
    }
    assert ts[..|ts|] == ts;
  }

  lemma BranchesGrow(ts: seq<Tree>, i: nat, limit: int)
    requires i < |ts|
    ensures RebuildBranches(ts[..i + 1], limit)
         == RebuildBranches(ts[..i], limit) + [Rebuild(ts[i], limit, HasError(ts[i]))]
    ensures JobsFor(ReplacedBranches(ts[..i + 1], limit))
         == JobsFor(ReplacedBranches(ts[..i], limit)) + JobsFor(Replaced(ts[i], limit, HasError(ts[i])))
  {
    assert ts[..i + 1] == ts[..i] + [ts[i]];
    BranchesAppend(ts[..i], ts[i], limit);
    MapConcat(JobFor, ReplacedBranches(ts[..i], limit), Replaced(ts[i], limit, HasError(ts[i])));
  }

  lemma BranchesFlagged(tree: Tree, sizes: map<string, nat>, own: map<string, bool>, errors: map<string, bool>)
    requires MetricsOf(Nodes(tree), sizes, own)
    requires forall j :: 0 <= j < |tree.children| ==> BranchFlags(tree.children[j], errors)
    ensures forall c :: c in tree.children ==> FlaggedBranch(c, sizes, errors, HasError(c))
  {
    forall c, n | c in tree.children && n in Nodes(c)
      ensures n in Nodes(tree)
    {
      InForest(tree.children, n);
    }
  }

  /** The costs that the rebuild sums, those of the replaced subtrees, are numbers. */
  ghost predicate CostsReadable(tree: Tree, limit: int) {
    forall c, n :: c in ReplacedBranches(tree.children, limit) && n in Nodes(c) ==> NumericCost(n.span)
  }

  /** What `compress` decides: the rebuilt children of the root, the summary jobs and the ratio. */
  method PlanCompression(tree: Tree, limit: int) returns (kids: seq<Tree>, jobs: seq<Job>, ratio: real)
    requires DistinctIds(tree) && CostsReadable(tree, limit)
    ensures kids == RebuildBranches(tree.children, limit)
    ensures jobs == JobsFor(ReplacedBranches(tree.children, limit))
    ensures ratio == ResultRatio(tree, limit)
  {
    var sizes, own, order := ComputeSubtreeMetrics(tree);
    var errors := PropagateErrors(tree, own);
    BranchesFlagged(tree, sizes, own, errors);
    kids, jobs := RebuildRoot(tree, sizes, errors, limit);
    ratio := tree.ratio;
    if |jobs| != 0 || tree.ratio <= 0.0 {
      var original := FindOriginalCount(tree, sizes, own, order);
      ratio := FreshRatio(tree, original);
    }
  }

  lemma {:induction false} BranchesAppend(ts: seq<Tree>, t: Tree, limit: int)
    ensures RebuildBranches(ts + [t], limit) == RebuildBranches(ts, limit) + [Rebuild(t, limit, HasError(t))]
    ensures ReplacedBranches(ts + [t], limit) == ReplacedBranches(ts, limit) + Replaced(t, limit, HasError(t))
  {
    if ts == [] {
      assert ts + [t] == [t] && [t][1..] == [];
    } else {
      assert (ts + [t])[1..] == ts[1..] + [t];
      BranchesAppend(ts[1..], t, limit);
    }
  }
}
