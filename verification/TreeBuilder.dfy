/** `TraceTreeBuilder.build` of agent_obs/tree_compressor.py. */
module TreeBuilder {
  import opened Basics
  import opened Spans
  import opened Sequences
  import opened TraceTree

  datatype BuildError =
    | EmptyList
    | DuplicateId(id: string)
    | CycleDetected(unvisited: set<string>)

  datatype BuildResult = Built(tree: Tree) | Rejected(error: BuildError)

  // ---------------------------------------------------------------- the parent relation

  function Ids(spans: seq<Span>): (ids: set<string>)
  {
    set s | s in spans :: s.Id()
  }

  ghost predicate DistinctSpanIds(spans: seq<Span>) {
    forall i, j :: 0 <= i < j < |spans| ==> spans[i].Id() != spans[j].Id()
  }

  predicate IsChild(c: Span, p: Span) {
    c.context.parentSpanId == Some(p.Id())
  }

  /** Spans with no parent, a blank parent, or a parent that is not in the list. */
  predicate IsCandidate(spans: seq<Span>, s: Span) {
    s.context.parentSpanId.None? || s.context.parentSpanId.value == "" || s.context.parentSpanId.value !in Ids(spans)
  }

  /** A blank parent pointer means "no parent" to the root search but would still be matched against
      a blank id when children are collected. Lists in which both readings meet are excluded. */
  ghost predicate NoBlankLinks(spans: seq<Span>) {
    forall c, p {:trigger IsChild(c, p)} :: c in spans && p in spans && IsChild(c, p) ==> p.Id() != ""
  }

  /** A closed walk along parent pointers. */
  ghost predicate IsCycle(spans: seq<Span>, walk: seq<Span>) {
    && |walk| >= 2
    && walk[0] == walk[|walk| - 1]
    && IsWalk(spans, walk)
  }

  ghost predicate IsWalk(spans: seq<Span>, walk: seq<Span>) {
    && (forall i :: 0 <= i < |walk| ==> walk[i] in spans)
    && (forall i, j :: 0 <= i && j == i + 1 < |walk| ==> IsChild(walk[i], walk[j]))
  }

  ghost predicate HasCycle(spans: seq<Span>) {
    exists walk :: IsCycle(spans, walk)
  }

  ghost predicate WellLinked(spans: seq<Span>) {
    DistinctSpanIds(spans) && NoBlankLinks(spans)
  }

  /** The lists that `build` accepts, up to the blank-link proviso. */
  ghost predicate Acceptable(spans: seq<Span>) {
    spans != [] && WellLinked(spans) && !HasCycle(spans)
  }

  lemma SameIdSameSpan(spans: seq<Span>, a: Span, b: Span)
    requires DistinctSpanIds(spans) && a in spans && b in spans && a.Id() == b.Id()
    ensures a == b
  {
    var i :| 0 <= i < |spans| && spans[i] == a;
    var j :| 0 <= j < |spans| && spans[j] == b;
    assert i == j;
  }

  lemma DistinctSpans(spans: seq<Span>)
    requires DistinctSpanIds(spans)
    ensures Distinct(spans)
  {
    forall i, j | 0 <= i < j < |spans|
      ensures spans[i] != spans[j]
    {
      assert spans[i].Id() != spans[j].Id();
    }
  }

  /** Under `NoBlankLinks`, being a candidate and having a listed parent exclude each other. */
  lemma CandidateOrChild(spans: seq<Span>, s: Span)
    requires NoBlankLinks(spans) && s in spans
    ensures IsCandidate(spans, s) <==> forall p :: p in spans ==> !IsChild(s, p)
  {
    if IsCandidate(spans, s) {
      forall p | p in spans
        ensures !IsChild(s, p)
      {
        assert p.Id() in Ids(spans);
      }
    } else {
      var id := s.context.parentSpanId.value;
      var p :| p in spans && p.Id() == id;
      assert IsChild(s, p);
    }
  }

  // ---------------------------------------------------------------- depth

  /** Following parent pointers from `s` reaches a candidate after exactly `n` steps. */
  ghost predicate Rooted(spans: seq<Span>, s: Span, n: nat)
    decreases n
  {
    if IsCandidate(spans, s) then n == 0
    else n > 0 && exists p :: p in spans && IsChild(s, p) && Rooted(spans, p, n - 1)
  }

  ghost predicate Grounded(spans: seq<Span>, s: Span) {
    exists n: nat :: Rooted(spans, s, n)
  }

  ghost predicate AllGrounded(spans: seq<Span>) {
    forall s {:trigger Grounded(spans, s)} :: s in spans ==> Grounded(spans, s)
  }

  lemma {:induction false} RootedOnce(spans: seq<Span>, s: Span, m: nat, n: nat)
    requires WellLinked(spans) && s in spans
    requires Rooted(spans, s, m) && Rooted(spans, s, n)
    ensures m == n
    decreases m
  {
    if !IsCandidate(spans, s) {
      var p :| p in spans && IsChild(s, p) && Rooted(spans, p, m - 1);
      var q :| q in spans && IsChild(s, q) && Rooted(spans, q, n - 1);
      SameIdSameSpan(spans, p, q);
      RootedOnce(spans, p, m - 1, n - 1);
    }
  }

  ghost function Depth(spans: seq<Span>, s: Span): (n: nat)
    requires Grounded(spans, s)
    ensures Rooted(spans, s, n)
  {
    var n: nat :| Rooted(spans, s, n); n
  }

  lemma ChildDepth(spans: seq<Span>, c: Span, p: Span)
    requires WellLinked(spans) && c in spans && p in spans && IsChild(c, p)
    requires Grounded(spans, p)
    ensures !IsCandidate(spans, c)
    ensures Grounded(spans, c) && Depth(spans, c) == Depth(spans, p) + 1
  {
    CandidateOrChild(spans, c);
    assert Rooted(spans, c, Depth(spans, p) + 1);
    RootedOnce(spans, c, Depth(spans, c), Depth(spans, p) + 1);
  }

  /** The greatest depth among the first `n` spans. */
  ghost function MaxDepth(spans: seq<Span>, n: nat): nat
    requires AllGrounded(spans) && n <= |spans|
  {
    if n == 0 then 0
    else
      assert Grounded(spans, spans[n - 1]);
      var rest := MaxDepth(spans, n - 1);
      var here := Depth(spans, spans[n - 1]);
      if here > rest then here else rest
  }

  lemma {:induction false} MaxDepthBounds(spans: seq<Span>, n: nat, i: nat)
    requires AllGrounded(spans) && i < n <= |spans|
    ensures Grounded(spans, spans[i]) && Depth(spans, spans[i]) <= MaxDepth(spans, n)
  {
    assert Grounded(spans, spans[i]);
    if i < n - 1 {
      MaxDepthBounds(spans, n - 1, i);
    }
  }

  /** How much deeper than `s` the list can go; it bounds the recursion of the builder. */
  ghost function Below(spans: seq<Span>, s: Span): nat
    requires AllGrounded(spans) && s in spans
  {
    assert Grounded(spans, s);
    var i :| 0 <= i < |spans| && spans[i] == s;
    MaxDepthBounds(spans, |spans|, i);
    MaxDepth(spans, |spans|) - Depth(spans, s)
  }

  lemma BelowShrinks(spans: seq<Span>, c: Span, p: Span)
    requires WellLinked(spans) && AllGrounded(spans)
    requires c in spans && p in spans && IsChild(c, p)
    ensures Below(spans, c) < Below(spans, p)
  {
    ChildDepth(spans, c, p);
  }

  // ---------------------------------------------------------------- cycles

  /** Nothing on a cycle is grounded. */
  lemma {:induction false} CycleNotRooted(spans: seq<Span>, walk: seq<Span>, i: nat, n: nat)
    requires WellLinked(spans) && IsCycle(spans, walk) && i < |walk|
    ensures !Rooted(spans, walk[i], n)
    decreases n
  {
    var j := if i + 1 < |walk| then i else 0;
    assert walk[j] == walk[i] && IsChild(walk[j], walk[j + 1]);
    CandidateOrChild(spans, walk[j]);
    if n > 0 {
      forall p | p in spans && IsChild(walk[j], p)
        ensures !Rooted(spans, p, n - 1)
      {
        SameIdSameSpan(spans, p, walk[j + 1]);
        CycleNotRooted(spans, walk, j + 1, n - 1);
      }
    }
  }

  /** An ungrounded span has an ungrounded parent. */
  lemma UngroundedParent(spans: seq<Span>, s: Span) returns (p: Span)
    requires WellLinked(spans) && s in spans && !Grounded(spans, s)
    ensures p in spans && IsChild(s, p) && !Grounded(spans, p)
  {
    assert !IsCandidate(spans, s) by {
      assert !Rooted(spans, s, 0);
    }
    CandidateOrChild(spans, s);
    p :| p in spans && IsChild(s, p);
    forall n: nat
      ensures !Rooted(spans, p, n)
    {
      assert !Rooted(spans, s, n + 1);
    }
  }

  /** Climbing from an ungrounded span must come back to a span already met. */
  lemma {:induction false} ClimbFindsCycle(spans: seq<Span>, walk: seq<Span>)
    requires WellLinked(spans) && walk != [] && IsWalk(spans, walk)
    requires !Grounded(spans, walk[|walk| - 1])
    ensures HasCycle(spans)
    decreases (set s | s in spans) - (set s | s in walk)
  {
    var last := walk[|walk| - 1];
    var p := UngroundedParent(spans, last);
    var longer := walk + [p];
    assert IsWalk(spans, longer);
    if p in walk {
      var i :| 0 <= i < |walk| && walk[i] == p;
      assert IsCycle(spans, longer[i..]);
    } else {
      assert (set s | s in longer) == (set s | s in walk) + {p};
      ClimbFindsCycle(spans, longer);
    }
  }

  /** Every span reaches a candidate exactly when no walk along parent pointers closes. */
  lemma GroundedIffAcyclic(spans: seq<Span>)
    requires WellLinked(spans)
    ensures AllGrounded(spans) <==> !HasCycle(spans)
  {
    if walk :| IsCycle(spans, walk) {
      forall n: nat
        ensures !Rooted(spans, walk[0], n)
      {
        CycleNotRooted(spans, walk, 0, n);
      }
      assert walk[0] in spans && !Grounded(spans, walk[0]);
    } else if s :| s in spans && !Grounded(spans, s) {
      ClimbFindsCycle(spans, [s]);
      assert false;
    }
  }

  // ---------------------------------------------------------------- the tree that is built

  /** Siblings are sorted by start time, latest first. */
  function LatestFirst(t: Tree): int { -t.span.startTime }

  /** `_build_children` wrapped into the node it is called for. */
  function BuildTree(spans: seq<Span>, s: Span): (t: Tree)
    requires WellLinked(spans) && AllGrounded(spans) && s in spans
    ensures t.span == s && !t.compressed && t.ratio == 0.0
    decreases Below(spans, s), |spans| + 1
  {
    Node(s, SortBy(ChildTrees(spans, s, |spans|), LatestFirst), false, 0.0)
  }

  /** The subtrees of the children of `p` found among the first `n` spans, in list order. */
  function ChildTrees(spans: seq<Span>, p: Span, n: nat): (ts: seq<Tree>)
    requires WellLinked(spans) && AllGrounded(spans) && p in spans && n <= |spans|
    decreases Below(spans, p), n
  {
    if n == 0 then []
    else
      var rest := ChildTrees(spans, p, n - 1);
      var c := spans[n - 1];
      if IsChild(c, p) then
        BelowShrinks(spans, c, p);
        rest + [BuildTree(spans, c)]
      else rest
  }

  /** The trees of the root candidates among the first `n` spans, in list order. */
  function RootTrees(spans: seq<Span>, n: nat): (ts: seq<Tree>)
    requires WellLinked(spans) && AllGrounded(spans) && n <= |spans|
  {
    if n == 0 then []
    else if IsCandidate(spans, spans[n - 1]) then RootTrees(spans, n - 1) + [BuildTree(spans, spans[n - 1])]
    else RootTrees(spans, n - 1)
  }

  function Earliest(spans: seq<Span>): (t: int)
    requires spans != []
    ensures forall s :: s in spans ==> t <= s.startTime
    ensures exists s :: s in spans && t == s.startTime
  {
    if |spans| == 1 then spans[0].startTime
    else
      var t := Earliest(spans[1..]);
      assert spans == [spans[0]] + spans[1..];
      if spans[0].startTime < t then spans[0].startTime else t
  }

  /** The synthetic root; `virtualId` stands for the clock-based `virtual_root_<time>`. */
  function VirtualRoot(spans: seq<Span>, virtualId: string): Span
    requires spans != []
  {
    var c := spans[0].context;
    Span("trace:virtual_root", AgentLoop,
      Context(c.traceId, virtualId, None, c.agentId, c.agentVersion, c.userId, c.sessionId, None, ""),
      map["tree.virtual_root" := Flag(true)], [], Earliest(spans), None)
  }

  /** The virtual root stands in the context of the first span, has no parent, and starts with the earliest span. */
  lemma VirtualRootMeans(spans: seq<Span>, virtualId: string)
    requires spans != []
    ensures var r, c := VirtualRoot(spans, virtualId), spans[0].context;
            && r.name == "trace:virtual_root" && r.spanType == AgentLoop && r.IsVirtualRoot()
            && r.context.traceId == c.traceId && r.context.spanId == virtualId && r.context.parentSpanId.None?
            && r.context.agentId == c.agentId && r.context.agentVersion == c.agentVersion
            && r.context.userId == c.userId && r.context.sessionId == c.sessionId && r.context.toolName.None?
            && r.attributes.Keys == {"tree.virtual_root"} && r.events == [] && r.endTime.None?
            && (forall s :: s in spans ==> r.startTime <= s.startTime)
            && exists s :: s in spans && r.startTime == s.startTime
  {
  }

  predicate UsesOwnRoot(roots: seq<Tree>) {
    |roots| == 1 && roots[0].span.spanType == AgentLoop
  }

  /** Lines 868-908: the only root if it is an `agent.loop`, else all roots under a virtual one. */
  function Assemble(spans: seq<Span>, roots: seq<Tree>, virtualId: string): Tree
    requires spans != []
  {
    if UsesOwnRoot(roots) then roots[0]
    else Node(VirtualRoot(spans, virtualId), roots, false, 0.0)
  }

  /** The result of `build` on an accepted list. */
  function TreeOf(spans: seq<Span>, virtualId: string): Tree
    requires spans != [] && WellLinked(spans) && AllGrounded(spans)
  {
    Assemble(spans, RootTrees(spans, |spans|), virtualId)
  }

  // ---------------------------------------------------------------- build

  /** Lines 791-796: the first span whose id repeats an earlier one. */
  method FindDuplicate(spans: seq<Span>) returns (dup: Option<string>, ids: set<string>)
    ensures dup.None? <==> DistinctSpanIds(spans)
    ensures dup.None? ==> ids == Ids(spans)
    ensures dup.Some? ==> exists i, j :: 0 <= i < j < |spans| && spans[i].Id() == spans[j].Id() == dup.value
  {
    ids := {};
    for i := 0 to |spans|
      invariant DistinctSpanIds(spans[..i])
      invariant ids == Ids(spans[..i])
    {
      if spans[i].Id() in ids {
        var s :| s in spans[..i] && s.Id() == spans[i].Id();
        return Some(spans[i].Id()), ids;
      }
      assert spans[..i + 1] == spans[..i] + [spans[i]];
      forall k | 0 <= k < i
        ensures spans[k].Id() != spans[i].Id()
      {
        assert spans[k] in spans[..i];
      }
      ids := ids + {spans[i].Id()};
    }
    assert spans[..|spans|] == spans;
    dup := None;
  }

  /** The candidates among the first `n` spans, in list order. */
  function Candidates(spans: seq<Span>, n: nat): (cs: seq<Span>)
    requires n <= |spans|
    ensures forall s :: s in cs <==> s in spans[..n] && IsCandidate(spans, s)
  {
    if n == 0 then []
    else
      assert spans[..n] == spans[..n - 1] + [spans[n - 1]];
      if IsCandidate(spans, spans[n - 1]) then Candidates(spans, n - 1) + [spans[n - 1]]
      else Candidates(spans, n - 1)
  }

  /** Lines 800-806: the spans with no listed parent. */
  method FindCandidates(spans: seq<Span>) returns (roots: seq<Span>)
    ensures roots == Candidates(spans, |spans|)
  {
    roots := [];
    for i := 0 to |spans|
      invariant roots == Candidates(spans, i)
    {
      if IsCandidate(spans, spans[i]) {
        roots := roots + [spans[i]];
      }
    }
  }

  /** Every child of a span whose id is in `from` has its id in `into`. */
  ghost predicate ChildrenIn(spans: seq<Span>, from: set<string>, into: set<string>) {
    forall c, p :: c in spans && p in spans && p.Id() in from && IsChild(c, p) ==> c.Id() in into
  }

  /** Every span whose id is in `ids` is grounded. */
  ghost predicate GroundedIds(spans: seq<Span>, ids: set<string>) {
    forall s {:trigger Grounded(spans, s)} :: s in spans && s.Id() in ids ==> Grounded(spans, s)
  }

  lemma ChildGrounded(spans: seq<Span>, c: Span, p: Span)
    requires p in spans && IsChild(c, p) && Grounded(spans, p)
    ensures Grounded(spans, c)
  {
    if IsCandidate(spans, c) {
      assert Rooted(spans, c, 0);
    } else {
      assert Rooted(spans, c, Depth(spans, p) + 1);
    }
  }

  /** `_mark_reachable`. The set of spans seen on a cycle, which `build` never reads, is not kept. */
  method MarkReachable(spans: seq<Span>, start: Span, path: set<string>, visited: set<string>)
    returns (seen: set<string>)
    requires DistinctSpanIds(spans) && start in spans && Grounded(spans, start)
    requires path <= visited <= Ids(spans)
    requires GroundedIds(spans, visited)
    ensures visited + {start.Id()} <= seen <= Ids(spans)
    ensures GroundedIds(spans, seen)
    ensures ChildrenIn(spans, seen - visited, seen)
    decreases Ids(spans) - visited
  {
    if start.Id() in path || start.Id() in visited {
      return visited;
    }
    assert start.Id() in Ids(spans);
    seen := visited + {start.Id()};
    forall s | s in spans && s.Id() in seen
      ensures Grounded(spans, s)
    {
      if s.Id() == start.Id() {
        SameIdSameSpan(spans, s, start);
      }
    }
    var deeper := path + {start.Id()};
    for i := 0 to |spans|
      invariant visited + {start.Id()} <= seen <= Ids(spans)
      invariant GroundedIds(spans, seen)
      invariant ChildrenIn(spans, seen - visited - {start.Id()}, seen)
      invariant forall k :: 0 <= k < i && IsChild(spans[k], start) ==> spans[k].Id() in seen
    {
      if IsChild(spans[i], start) {
        ChildGrounded(spans, spans[i], start);
        seen := MarkReachable(spans, spans[i], deeper, seen);
      }
    }
    forall c, p | c in spans && p in spans && p.Id() in seen - visited && IsChild(c, p)
      ensures c.Id() in seen
    {
      if p.Id() == start.Id() {
        SameIdSameSpan(spans, p, start);
      }
    }
  }

  /** A set of ids that holds the candidates and is closed under children holds every grounded id. */
  lemma {:induction false} ClosureHoldsRooted(spans: seq<Span>, seen: set<string>, s: Span, n: nat)
    requires DistinctSpanIds(spans) && s in spans && Rooted(spans, s, n)
    requires forall r :: r in spans && IsCandidate(spans, r) ==> r.Id() in seen
    requires ChildrenIn(spans, seen, seen)
    ensures s.Id() in seen
    decreases n
  {
    if !IsCandidate(spans, s) {
      var p :| p in spans && IsChild(s, p) && Rooted(spans, p, n - 1);
      ClosureHoldsRooted(spans, seen, p, n - 1);
    }
  }

  /** What the marking establishes: it is grounded, closed under children, and holds the candidates. */
  lemma VisitedAreGrounded(spans: seq<Span>, visited: set<string>, s: Span)
    requires DistinctSpanIds(spans) && s in spans
    requires GroundedIds(spans, visited) && ChildrenIn(spans, visited, visited)
    requires forall r :: r in spans && IsCandidate(spans, r) ==> r.Id() in visited
    ensures s.Id() in visited <==> Grounded(spans, s)
  {
    if Grounded(spans, s) {
      ClosureHoldsRooted(spans, visited, s, Depth(spans, s));
    }
  }

  /** Lines 808-834: the ids reachable from the candidates are exactly the grounded ones. */
  method Reachable(spans: seq<Span>, roots: seq<Span>) returns (visited: set<string>)
    requires DistinctSpanIds(spans)
    requires forall s :: s in roots <==> s in spans && IsCandidate(spans, s)
    ensures visited <= Ids(spans)
    ensures forall s {:trigger Grounded(spans, s)} :: s in spans ==> (s.Id() in visited <==> Grounded(spans, s))
  {
    visited := {};
    for i := 0 to |roots|
      invariant visited <= Ids(spans)
      invariant GroundedIds(spans, visited)
      invariant ChildrenIn(spans, visited, visited)
      invariant forall k :: 0 <= k < i ==> roots[k].Id() in visited
    {
      visited := MarkCandidate(spans, roots[i], visited);
    }
    forall s | s in spans
      ensures s.Id() in visited <==> Grounded(spans, s)
    {
      VisitedAreGrounded(spans, visited, s);
    }
  }

  method MarkCandidate(spans: seq<Span>, root: Span, visited: set<string>) returns (seen: set<string>)
    requires DistinctSpanIds(spans) && root in spans && IsCandidate(spans, root)
    requires visited <= Ids(spans) && GroundedIds(spans, visited) && ChildrenIn(spans, visited, visited)
    ensures visited + {root.Id()} <= seen <= Ids(spans)
    ensures GroundedIds(spans, seen) && ChildrenIn(spans, seen, seen)
  {
    assert Rooted(spans, root, 0);
    seen := MarkReachable(spans, root, {}, visited);
  }

  /** `TraceTreeBuilder.build`. */
  method Build(spans: seq<Span>, virtualId: string) returns (r: BuildResult)
    requires NoBlankLinks(spans)
    ensures r.Built? <==> Acceptable(spans)
    ensures r.Built? ==> AllGrounded(spans) && r.tree == TreeOf(spans, virtualId)
    ensures r == Rejected(EmptyList) <==> spans == []
    ensures r.Rejected? && r.error.DuplicateId? <==> !DistinctSpanIds(spans)
    ensures r.Rejected? && r.error.CycleDetected? ==>
              r.error.unvisited == (set s | s in spans && !Grounded(spans, s) :: s.Id())
  {
    if spans == [] {
      return Rejected(EmptyList);
    }
    var dup, ids := FindDuplicate(spans);
    if dup.Some? {
      return Rejected(DuplicateId(dup.value));
    }
    var candidates := FindCandidates(spans);
    assert spans[..|spans|] == spans;
    var visited := Reachable(spans, candidates);
    GroundedIffAcyclic(spans);
    var unvisited := ids - visited;
    UnvisitedAreUngrounded(spans, visited);
    if unvisited != {} {
      return Rejected(CycleDetected(unvisited));
    }
    var roots := BuildRoots(spans, candidates);
    if |roots| == 1 && roots[0].span.spanType == AgentLoop {
      return Built(roots[0]);
    }
    r := Built(Node(VirtualRoot(spans, virtualId), roots, false, 0.0));
  }

  /** Lines 858-866: the tree of each candidate. */
  method BuildRoots(spans: seq<Span>, candidates: seq<Span>) returns (roots: seq<Tree>)
    requires WellLinked(spans) && AllGrounded(spans) && candidates == Candidates(spans, |spans|)
    ensures roots == RootTrees(spans, |spans|)
  {
    RootTreesByCandidate(spans, |spans|);
    roots := [];
    for i := 0 to |candidates|
      invariant roots == RootTrees(spans, |spans|)[..i]
    {
      roots := roots + [BuildTree(spans, candidates[i])];
    }
  }

  lemma UnvisitedAreUngrounded(spans: seq<Span>, visited: set<string>)
    requires DistinctSpanIds(spans)
    requires forall s {:trigger Grounded(spans, s)} :: s in spans ==> (s.Id() in visited <==> Grounded(spans, s))
    ensures Ids(spans) - visited == set s | s in spans && !Grounded(spans, s) :: s.Id()
    ensures Ids(spans) - visited == {} <==> AllGrounded(spans)
  {
    if AllGrounded(spans) {
      forall s | s in spans
        ensures s.Id() in visited
      {
        assert Grounded(spans, s);
      }
    } else {
      var s :| s in spans && !Grounded(spans, s);
      assert s.Id() in Ids(spans) - visited;
    }
  }

  lemma {:induction false} RootTreesByCandidate(spans: seq<Span>, n: nat)
    requires WellLinked(spans) && AllGrounded(spans) && n <= |spans|
    ensures var cs, ts := Candidates(spans, n), RootTrees(spans, n);
            |cs| == |ts| && forall k :: 0 <= k < |cs| ==> cs[k] in spans && ts[k] == BuildTree(spans, cs[k])
  {
    if n > 0 {
      RootTreesByCandidate(spans, n - 1);
    }
  }
}
