/** What `TraceTreeBuilder.build` promises about the tree it returns: every listed span exactly
    once, edges exactly where parent pointers lead, and siblings in order. */
module BuilderFacts {
  import opened Basics
  import opened Spans
  import opened Sequences
  import opened TraceTree
  import opened TreeBuilder

  /** Lists on which the builder gets as far as building. */
  ghost predicate Ready(spans: seq<Span>) {
    WellLinked(spans) && AllGrounded(spans)
  }

  // ---------------------------------------------------------------- ancestors

  ghost function ParentOf(spans: seq<Span>, s: Span): (p: Span)
    requires Ready(spans) && s in spans && !IsCandidate(spans, s)
    ensures p in spans && IsChild(s, p)
  {
    CandidateOrChild(spans, s);
    var p :| p in spans && IsChild(s, p); p
  }

  lemma ParentIs(spans: seq<Span>, c: Span, p: Span)
    requires Ready(spans) && c in spans && p in spans && IsChild(c, p)
    ensures !IsCandidate(spans, c) && ParentOf(spans, c) == p
    ensures Depth(spans, c) == Depth(spans, p) + 1
  {
    ChildDepth(spans, c, p);
    SameIdSameSpan(spans, ParentOf(spans, c), p);
  }

  lemma RootDepth(spans: seq<Span>, s: Span)
    requires Ready(spans) && s in spans
    ensures Depth(spans, s) == 0 <==> IsCandidate(spans, s)
  {
    assert Rooted(spans, s, Depth(spans, s));
  }

  /** The ancestor of `x` that lies `k` levels above it. */
  ghost function Ancestor(spans: seq<Span>, x: Span, k: nat): (a: Span)
    requires Ready(spans) && x in spans && k <= Depth(spans, x)
    ensures a in spans && Depth(spans, a) == Depth(spans, x) - k
    decreases k
  {
    if k == 0 then x
    else
      RootDepth(spans, x);
      ParentIs(spans, x, ParentOf(spans, x));
      Ancestor(spans, ParentOf(spans, x), k - 1)
  }

  lemma {:induction false} AncestorStep(spans: seq<Span>, x: Span, k: nat)
    requires Ready(spans) && x in spans && k < Depth(spans, x)
    ensures !IsCandidate(spans, Ancestor(spans, x, k))
    ensures Ancestor(spans, x, k + 1) == ParentOf(spans, Ancestor(spans, x, k))
    decreases k
  {
    RootDepth(spans, x);
    RootDepth(spans, Ancestor(spans, x, k));
    if k > 0 {
      ParentIs(spans, x, ParentOf(spans, x));
      AncestorStep(spans, ParentOf(spans, x), k - 1);
    }
  }

  /** The ancestor of `x`, or `x` itself, at depth `d`. */
  ghost function AtDepth(spans: seq<Span>, x: Span, d: nat): (a: Span)
    requires Ready(spans) && x in spans && d <= Depth(spans, x)
    ensures a in spans && Depth(spans, a) == d
  {
    Ancestor(spans, x, Depth(spans, x) - d)
  }

  lemma AtDepthStep(spans: seq<Span>, x: Span, d: nat)
    requires Ready(spans) && x in spans && d < Depth(spans, x)
    ensures !IsCandidate(spans, AtDepth(spans, x, d + 1))
    ensures AtDepth(spans, x, d) == ParentOf(spans, AtDepth(spans, x, d + 1))
  {
    AncestorStep(spans, x, Depth(spans, x) - d - 1);
  }

  /** `s` is `x` or one of its ancestors. */
  ghost predicate IsAbove(spans: seq<Span>, s: Span, x: Span)
    requires Ready(spans) && s in spans && x in spans
  {
    Depth(spans, s) <= Depth(spans, x) && AtDepth(spans, x, Depth(spans, s)) == s
  }

  /** The first step from `s` down to `x`. */
  lemma StepDown(spans: seq<Span>, s: Span, x: Span) returns (c: Span)
    requires Ready(spans) && s in spans && x in spans && IsAbove(spans, s, x) && x != s
    ensures c in spans && IsChild(c, s) && IsAbove(spans, c, x) && Depth(spans, c) == Depth(spans, s) + 1
  {
    c := AtDepth(spans, x, Depth(spans, s) + 1);
    AtDepthStep(spans, x, Depth(spans, s));
  }

  /** The child of `p` on the way from `p` to `x`. */
  ghost function NextHop(spans: seq<Span>, p: Span, x: Span): (c: Option<Span>)
    requires Ready(spans) && p in spans && x in spans
    ensures c.Some? ==> c.value in spans && IsChild(c.value, p)
  {
    if Depth(spans, p) < Depth(spans, x) && IsChild(AtDepth(spans, x, Depth(spans, p) + 1), p)
    then Some(AtDepth(spans, x, Depth(spans, p) + 1))
    else None
  }

  /** The step from `p` towards `x` goes through one of the first `n` spans. */
  ghost predicate LeadsVia(spans: seq<Span>, p: Span, n: nat, x: Span)
    requires Ready(spans) && p in spans && x in spans && n <= |spans|
  {
    NextHop(spans, p, x).Some? && NextHop(spans, p, x).value in spans[..n]
  }

  // ---------------------------------------------------------------- exactly once

  lemma {:induction false} CountInTree(spans: seq<Span>, s: Span, x: Span)
    requires Ready(spans) && s in spans && x in spans
    ensures SpansOf(BuildTree(spans, s))[x] == if IsAbove(spans, s, x) then 1 else 0
    decreases Below(spans, s), |spans| + 1
  {
    SpansSorted(ChildTrees(spans, s, |spans|), LatestFirst);
    CountInChildren(spans, s, |spans|, x);
    AboveOrLeads(spans, s, x);
  }

  /** From `s` one gets to `x` by staying or through a listed child, never both. */
  lemma AboveOrLeads(spans: seq<Span>, s: Span, x: Span)
    requires Ready(spans) && s in spans && x in spans
    ensures IsAbove(spans, s, x) <==> x == s || LeadsVia(spans, s, |spans|, x)
    ensures !(x == s && LeadsVia(spans, s, |spans|, x))
  {
    assert spans[..|spans|] == spans;
    if Depth(spans, s) < Depth(spans, x) {
      HopMeansAbove(spans, s, x);
    } else {
      NoHop(spans, s, x);
    }
  }

  lemma HopMeansAbove(spans: seq<Span>, s: Span, x: Span)
    requires Ready(spans) && s in spans && x in spans && Depth(spans, s) < Depth(spans, x)
    ensures IsAbove(spans, s, x) <==> NextHop(spans, s, x).Some?
  {
    var c := AtDepth(spans, x, Depth(spans, s) + 1);
    AtDepthStep(spans, x, Depth(spans, s));
    if IsChild(c, s) {
      ParentIs(spans, c, s);
    }
  }

  lemma NoHop(spans: seq<Span>, s: Span, x: Span)
    requires Ready(spans) && s in spans && x in spans && Depth(spans, s) >= Depth(spans, x)
    ensures NextHop(spans, s, x).None? && (IsAbove(spans, s, x) <==> x == s)
  {
  }

  lemma PrefixGrows(spans: seq<Span>, n: nat)
    requires DistinctSpanIds(spans) && 0 < n <= |spans|
    ensures spans[n - 1] !in spans[..n - 1]
    ensures forall s :: s in spans[..n] <==> s in spans[..n - 1] || s == spans[n - 1]
  {
    assert spans[..n] == spans[..n - 1] + [spans[n - 1]];
  }

  lemma AboveIsNextHop(spans: seq<Span>, p: Span, c: Span, x: Span)
    requires Ready(spans) && p in spans && c in spans && x in spans && IsChild(c, p)
    ensures IsAbove(spans, c, x) <==> NextHop(spans, p, x) == Some(c)
  {
    ParentIs(spans, c, p);
  }

  /** The way from `p` to `x` uses the `n`-th span or an earlier one, never both. */
  lemma LeadsViaStep(spans: seq<Span>, p: Span, n: nat, x: Span)
    requires Ready(spans) && p in spans && x in spans && 0 < n <= |spans|
    ensures IsChild(spans[n - 1], p) && IsAbove(spans, spans[n - 1], x) ==>
              LeadsVia(spans, p, n, x) && !LeadsVia(spans, p, n - 1, x)
    ensures !(IsChild(spans[n - 1], p) && IsAbove(spans, spans[n - 1], x)) ==>
              (LeadsVia(spans, p, n, x) <==> LeadsVia(spans, p, n - 1, x))
  {
    PrefixGrows(spans, n);
    if IsChild(spans[n - 1], p) {
      AboveIsNextHop(spans, p, spans[n - 1], x);
    }
  }

  lemma ChildTreesCount(spans: seq<Span>, p: Span, n: nat, x: Span)
    requires Ready(spans) && p in spans && 0 < n <= |spans|
    ensures SpansF(ChildTrees(spans, p, n))[x] ==
            SpansF(ChildTrees(spans, p, n - 1))[x]
            + if IsChild(spans[n - 1], p) then SpansOf(BuildTree(spans, spans[n - 1]))[x] else 0
  {
    if IsChild(spans[n - 1], p) {
      SpansAppend(ChildTrees(spans, p, n - 1), BuildTree(spans, spans[n - 1]));
    }
  }

  lemma {:induction false} CountInChildren(spans: seq<Span>, p: Span, n: nat, x: Span)
    requires Ready(spans) && p in spans && x in spans && n <= |spans|
    ensures SpansF(ChildTrees(spans, p, n))[x] == if LeadsVia(spans, p, n, x) then 1 else 0
    decreases Below(spans, p), n
  {
    if n > 0 {
      var c := spans[n - 1];
      CountInChildren(spans, p, n - 1, x);
      LeadsViaStep(spans, p, n, x);
      ChildTreesCount(spans, p, n, x);
      if IsChild(c, p) {
        BelowShrinks(spans, c, p);
        CountInTree(spans, c, x);
      }
    }
  }

  /** The topmost ancestor of `x`. */
  ghost function Top(spans: seq<Span>, x: Span): (r: Span)
    requires Ready(spans) && x in spans
    ensures r in spans && IsCandidate(spans, r)
    ensures forall c {:trigger IsAbove(spans, c, x)} :: c in spans && IsCandidate(spans, c) ==>
              (IsAbove(spans, c, x) <==> c == r)
  {
    var r := AtDepth(spans, x, 0);
    RootDepth(spans, r);
    assert forall c {:trigger IsAbove(spans, c, x)} :: c in spans && IsCandidate(spans, c) ==>
             (IsAbove(spans, c, x) <==> c == r) by {
      forall c | c in spans && IsCandidate(spans, c)
        ensures IsAbove(spans, c, x) <==> c == r
      {
        RootDepth(spans, c);
      }
    }
    r
  }

  lemma {:induction false} CountInRoots(spans: seq<Span>, n: nat, x: Span)
    requires Ready(spans) && x in spans && n <= |spans|
    ensures SpansF(RootTrees(spans, n))[x] == if Top(spans, x) in spans[..n] then 1 else 0
  {
    if n > 0 {
      var r := spans[n - 1];
      CountInRoots(spans, n - 1, x);
      PrefixGrows(spans, n);
      if IsCandidate(spans, r) {
        CountInTree(spans, r, x);
        SpansAppend(RootTrees(spans, n - 1), BuildTree(spans, r));
      }
    }
  }

  /** Every subtree of a built tree is the tree built for its own span. */
  lemma {:induction false} SubtreesAreBuilt(spans: seq<Span>, s: Span, n: Tree)
    requires Ready(spans) && s in spans && n in Nodes(BuildTree(spans, s))
    ensures n.span in spans && n == BuildTree(spans, n.span)
    decreases Below(spans, s)
  {
    var t := BuildTree(spans, s);
    if n != t {
      InForest(t.children, n);
      var i :| 0 <= i < |t.children| && n in Nodes(t.children[i]);
      ChildrenAreBuilt(spans, s, t.children[i]);
      BelowShrinks(spans, t.children[i].span, s);
      SubtreesAreBuilt(spans, t.children[i].span, n);
    }
  }

  lemma ChildrenAreBuilt(spans: seq<Span>, p: Span, m: Tree)
    requires Ready(spans) && p in spans
    ensures m in BuildTree(spans, p).children <==>
            m.span in spans && IsChild(m.span, p) && m == BuildTree(spans, m.span)
  {
    SortMembers(ChildTrees(spans, p, |spans|), LatestFirst);
    ChildTreeMembers(spans, p, |spans|, m);
    assert spans[..|spans|] == spans;
  }

  lemma {:induction false} ChildTreeMembers(spans: seq<Span>, p: Span, n: nat, m: Tree)
    requires Ready(spans) && p in spans && n <= |spans|
    ensures m in ChildTrees(spans, p, n) <==>
            m.span in spans[..n] && IsChild(m.span, p) && m == BuildTree(spans, m.span)
  {
    if n > 0 {
      ChildTreeMembers(spans, p, n - 1, m);
      assert spans[..n] == spans[..n - 1] + [spans[n - 1]];
    }
  }

  lemma {:induction false} RootTreeMembers(spans: seq<Span>, n: nat, m: Tree)
    requires Ready(spans) && n <= |spans|
    ensures m in RootTrees(spans, n) <==>
            m.span in spans[..n] && IsCandidate(spans, m.span) && m == BuildTree(spans, m.span)
  {
    if n > 0 {
      RootTreeMembers(spans, n - 1, m);
      PrefixGrows(spans, n);
    }
  }

  /** Nodes below the root trees come from the list. */
  lemma ForestNodesAreBuilt(spans: seq<Span>, n: Tree)
    requires Ready(spans) && n in NodesF(RootTrees(spans, |spans|))
    ensures n.span in spans && n == BuildTree(spans, n.span)
  {
    var roots := RootTrees(spans, |spans|);
    InForest(roots, n);
    var i :| 0 <= i < |roots| && n in Nodes(roots[i]);
    RootTreeMembers(spans, |spans|, roots[i]);
    assert spans[..|spans|] == spans;
    SubtreesAreBuilt(spans, roots[i].span, n);
  }

  /** The forest under the root holds each listed span exactly once and nothing else. */
  lemma ForestHoldsEachSpanOnce(spans: seq<Span>)
    requires Ready(spans)
    ensures SpansF(RootTrees(spans, |spans|)) == multiset(spans)
  {
    var roots := RootTrees(spans, |spans|);
    DistinctSpans(spans);
    DistinctAreSingles(spans);
    forall x
      ensures SpansF(roots)[x] == multiset(spans)[x]
    {
      if x in spans {
        CountInRoots(spans, |spans|, x);
        assert spans[..|spans|] == spans;
      } else {
        SpansAreNodeSpansF(roots);
        if x in SpansF(roots) {
          assert x in SpanSeq(NodesF(roots));
          var i :| 0 <= i < |NodesF(roots)| && NodesF(roots)[i].span == x;
          ForestNodesAreBuilt(spans, NodesF(roots)[i]);
          assert false;
        }
      }
    }
  }

  lemma AssembledSpans(spans: seq<Span>, roots: seq<Tree>, virtualId: string)
    requires spans != []
    ensures SpansOf(Assemble(spans, roots, virtualId)) ==
            if UsesOwnRoot(roots) then SpansF(roots) else SpansF(roots) + multiset{VirtualRoot(spans, virtualId)}
  {
    if UsesOwnRoot(roots) {
      assert roots == [roots[0]];
      SpansOfOne(roots[0]);
    }
  }

  /** The built tree holds each listed span exactly once, plus the virtual root when one is made. */
  lemma TreeHoldsEachSpanOnce(spans: seq<Span>, virtualId: string)
    requires spans != [] && Ready(spans)
    ensures SpansOf(TreeOf(spans, virtualId)) ==
            if UsesOwnRoot(RootTrees(spans, |spans|)) then multiset(spans)
            else multiset(spans) + multiset{VirtualRoot(spans, virtualId)}
  {
    ForestHoldsEachSpanOnce(spans);
    AssembledSpans(spans, RootTrees(spans, |spans|), virtualId);
  }

  /** The only parentless span of the list. */
  ghost predicate SoleCandidate(spans: seq<Span>, r: Span) {
    && r in spans && IsCandidate(spans, r)
    && forall s {:trigger IsCandidate(spans, s)} :: s in spans && IsCandidate(spans, s) ==> s == r
  }

  lemma RootMembers(spans: seq<Span>, m: Tree)
    requires Ready(spans)
    ensures m in RootTrees(spans, |spans|) <==>
            m.span in spans && IsCandidate(spans, m.span) && m == BuildTree(spans, m.span)
  {
    RootTreeMembers(spans, |spans|, m);
    assert spans[..|spans|] == spans;
  }

  lemma OneRootTree(spans: seq<Span>, r: Span)
    requires Ready(spans) && r in spans
    ensures RootTrees(spans, |spans|) == [BuildTree(spans, r)] <==> SoleCandidate(spans, r)
  {
    var roots := RootTrees(spans, |spans|);
    RootMembers(spans, BuildTree(spans, r));
    if SoleCandidate(spans, r) {
      forall i | 0 <= i < |roots|
        ensures roots[i] == BuildTree(spans, r)
      {
        RootMembers(spans, roots[i]);
      }
      RootTreesDistinct(spans, |spans|);
      assert roots[0] == roots[|roots| - 1];
    } else if s :| s in spans && IsCandidate(spans, s) && s != r {
      RootMembers(spans, BuildTree(spans, s));
    }
  }

  /** The builder's own root is used exactly when the list has one parentless span and that span
      is an `agent.loop`. */
  lemma OwnRootCondition(spans: seq<Span>)
    requires Ready(spans)
    ensures UsesOwnRoot(RootTrees(spans, |spans|)) <==>
            exists r :: SoleCandidate(spans, r) && r.spanType == AgentLoop
  {
    var roots := RootTrees(spans, |spans|);
    if |roots| == 1 {
      RootMembers(spans, roots[0]);
      OneRootTree(spans, roots[0].span);
      assert roots == [roots[0]];
    }
    if r :| SoleCandidate(spans, r) && r.spanType == AgentLoop {
      OneRootTree(spans, r);
    }
  }

  function CandidateIn(spans: seq<Span>): Span -> bool {
    (s: Span) => IsCandidate(spans, s)
  }

  lemma {:induction false} CandidatesFiltered(spans: seq<Span>, n: nat)
    requires n <= |spans|
    ensures Candidates(spans, n) == Filter(spans[..n], CandidateIn(spans))
  {
    if n > 0 {
      CandidatesFiltered(spans, n - 1);
      assert spans[..n] == spans[..n - 1] + [spans[n - 1]];
      FilterLast(spans[..n - 1], spans[n - 1], CandidateIn(spans));
    }
  }

  /** The roots come in list order: their spans are the candidates among the listed spans. */
  lemma RootsInOrder(spans: seq<Span>, n: nat)
    requires Ready(spans) && n <= |spans|
    ensures SpanSeq(RootTrees(spans, n)) == Filter(spans[..n], CandidateIn(spans))
  {
    CandidatesFiltered(spans, n);
    RootTreesByCandidate(spans, n);
    assert SpanSeq(RootTrees(spans, n)) == Candidates(spans, n);
  }

  lemma NewRootTree(spans: seq<Span>, n: nat)
    requires Ready(spans) && 0 < n <= |spans|
    ensures BuildTree(spans, spans[n - 1]) !in RootTrees(spans, n - 1)
  {
    PrefixGrows(spans, n);
    RootTreeMembers(spans, n - 1, BuildTree(spans, spans[n - 1]));
  }

  lemma {:induction false} RootTreesDistinct(spans: seq<Span>, n: nat)
    requires Ready(spans) && n <= |spans|
    ensures Distinct(RootTrees(spans, n))
  {
    if n > 0 {
      RootTreesDistinct(spans, n - 1);
      NewRootTree(spans, n);
      DistinctAppend(RootTrees(spans, n - 1), BuildTree(spans, spans[n - 1]));
    }
  }

  // ---------------------------------------------------------------- edges and order

  /** Some node of `t` carries `p` and has a child carrying `c`. */
  ghost predicate HasEdge(t: Tree, p: Span, c: Span) {
    exists n, m :: n in Nodes(t) && m in n.children && n.span == p && m.span == c
  }

  /** Below the virtual root, if any, the tree has an edge exactly where a parent pointer names a
      listed span. */
  lemma EdgesArePointers(spans: seq<Span>, virtualId: string, p: Span, c: Span)
    requires spans != [] && Ready(spans)
    requires p in spans
    requires VirtualRoot(spans, virtualId) !in spans
    ensures HasEdge(TreeOf(spans, virtualId), p, c) <==> c in spans && IsChild(c, p)
  {
    var t := TreeOf(spans, virtualId);
    var roots := RootTrees(spans, |spans|);
    forall n, m | n in Nodes(t) && m in n.children && n.span == p
      ensures m.span in spans && IsChild(m.span, p)
    {
      TreeNodeIsBuilt(spans, virtualId, n);
      ChildrenAreBuilt(spans, p, m);
    }
    if c in spans && IsChild(c, p) {
      TreeHoldsEachSpanOnce(spans, virtualId);
      SpanHasNode(t, p);
      assert p in multiset(spans);
      var n :| n in Nodes(t) && n.span == p;
      TreeNodeIsBuilt(spans, virtualId, n);
      ChildrenAreBuilt(spans, p, BuildTree(spans, c));
    }
  }

  /** Every node of the built tree is the virtual root or the tree built for a listed span. */
  lemma TreeNodeIsBuilt(spans: seq<Span>, virtualId: string, n: Tree)
    requires spans != [] && Ready(spans) && n in Nodes(TreeOf(spans, virtualId))
    ensures n == TreeOf(spans, virtualId) || (n.span in spans && n == BuildTree(spans, n.span))
    ensures n.span != VirtualRoot(spans, virtualId) ==> n.span in spans && n == BuildTree(spans, n.span)
  {
    var roots := RootTrees(spans, |spans|);
    if UsesOwnRoot(roots) {
      InForest(roots, n);
      ForestNodesAreBuilt(spans, n);
    } else if n in NodesF(roots) {
      ForestNodesAreBuilt(spans, n);
    }
  }

  /** Siblings below a listed span come latest first. */
  lemma SiblingsSorted(spans: seq<Span>, s: Span)
    requires Ready(spans) && s in spans
    ensures forall i, j :: 0 <= i < j < |BuildTree(spans, s).children| ==>
              BuildTree(spans, s).children[i].span.startTime >= BuildTree(spans, s).children[j].span.startTime
  {
    var ts := ChildTrees(spans, s, |spans|);
    SortOrdered(ts, LatestFirst);
    forall i, j | 0 <= i < j < |SortBy(ts, LatestFirst)|
      ensures SortBy(ts, LatestFirst)[i].span.startTime >= SortBy(ts, LatestFirst)[j].span.startTime
    {
      assert LatestFirst(SortBy(ts, LatestFirst)[i]) <= LatestFirst(SortBy(ts, LatestFirst)[j]);
    }
  }

  /** Spans that differ and come from the list, or are the virtual root, differ in their ids. */
  lemma IdsTellApart(spans: seq<Span>, virtualRoot: Span, ss: seq<Span>)
    requires DistinctSpanIds(spans) && virtualRoot.Id() !in Ids(spans)
    requires Distinct(ss) && forall s :: s in ss ==> s in spans || s == virtualRoot
    ensures forall i, j :: 0 <= i < j < |ss| ==> ss[i].Id() != ss[j].Id()
  {
    forall i, j | 0 <= i < j < |ss|
      ensures ss[i].Id() != ss[j].Id()
    {
      assert ss[i] in ss && ss[j] in ss;
      if ss[i] in spans && ss[j] in spans {
        if ss[i].Id() == ss[j].Id() {
          SameIdSameSpan(spans, ss[i], ss[j]);
          assert false;
        }
      }
    }
  }

  /** Siblings with equal start times keep their list order. */
  lemma SiblingsStable(spans: seq<Span>, s: Span, k: int)
    requires Ready(spans) && s in spans
    ensures Filter(BuildTree(spans, s).children, KeyIs(LatestFirst, k))
         == Filter(ChildTrees(spans, s, |spans|), KeyIs(LatestFirst, k))
  {
    SortStable(ChildTrees(spans, s, |spans|), LatestFirst, k);
  }

  /** Blank links are exactly what makes a span both a root and a child, so that it would be built twice. */
  lemma RolesExclusive(spans: seq<Span>)
    ensures NoBlankLinks(spans) <==>
            forall s, p {:trigger IsChild(s, p)} :: s in spans && p in spans && IsChild(s, p) ==> !IsCandidate(spans, s)
  {
    forall s, p | s in spans && p in spans && IsChild(s, p)
      ensures p.Id() in Ids(spans)
    {
    }
  }

  /** The start of a cycle has a parent, and is one. */
  lemma CycleNeighbours(spans: seq<Span>, walk: seq<Span>)
    requires IsCycle(spans, walk)
    ensures walk[0] in spans && exists a, b :: a in spans && b in spans && IsChild(walk[0], a) && IsChild(b, walk[0])
  {
    var n := |walk|;
    assert walk[1] in spans && walk[n - 2] in spans;
    assert IsChild(walk[0], walk[1]) && IsChild(walk[n - 2], walk[n - 1]);
  }

  /** A list with distinct ids and no cycle in which the second span is both a root and a child of the first. */
  lemma BlankLinkDoubles(s: Span)
    ensures var p := s.(context := s.context.(spanId := "", parentSpanId := None));
            var c := s.(context := s.context.(spanId := "a", parentSpanId := Some("")));
            && DistinctSpanIds([p, c]) && !HasCycle([p, c])
            && IsCandidate([p, c], c) && IsChild(c, p) && !NoBlankLinks([p, c])
  {
    var p := s.(context := s.context.(spanId := "", parentSpanId := None));
    var c := s.(context := s.context.(spanId := "a", parentSpanId := Some("")));
    var spans := [p, c];
    if walk :| IsCycle(spans, walk) {
      CycleNeighbours(spans, walk);
      assert false;
    }
    assert |p.Id()| == 0 && |c.Id()| == 1;
    assert c in spans && p in spans && IsChild(c, p);
  }

  /** Node ids in the built tree are distinct when the virtual root's id is fresh. */
  lemma TreeIdsDistinct(spans: seq<Span>, virtualId: string)
    requires spans != [] && Ready(spans) && virtualId !in Ids(spans)
    ensures DistinctIds(TreeOf(spans, virtualId))
  {
    var t := TreeOf(spans, virtualId);
    var v := VirtualRoot(spans, virtualId);
    TreeHoldsEachSpanOnce(spans, virtualId);
    SpansAreNodeSpans(t);
    SingleBag(spans, v, SpanSeq(Nodes(t)));
    IdsTellApart(spans, v, SpanSeq(Nodes(t)));
  }

  lemma SingleBag(spans: seq<Span>, v: Span, ss: seq<Span>)
    requires DistinctSpanIds(spans) && v.Id() !in Ids(spans)
    requires multiset(ss) == multiset(spans) || multiset(ss) == multiset(spans) + multiset{v}
    ensures Distinct(ss) && forall s :: s in ss ==> s in spans || s == v
  {
    DistinctSpans(spans);
    DistinctAreSingles(spans);
    SinglesAreDistinct(ss);
    forall s | s in ss
      ensures s in spans || s == v
    {
      assert s in multiset(ss);
    }
  }

  // ---------------------------------------------------------------- blank links and double building

  /** What `_build_children` makes, whatever the list: under every span all spans that point to it. */
  ghost predicate IsBuild(spans: seq<Span>, t: Tree) {
    && t.span in spans
    && (forall c {:trigger IsChild(c, t.span)} :: c in spans && IsChild(c, t.span) ==>
          exists m :: m in t.children && m.span == c)
    && forall m :: m in t.children ==> IsBuild(spans, m)
  }

  /** A finished construction: such a tree for every candidate. */
  ghost predicate IsForest(spans: seq<Span>, roots: seq<Tree>) {
    && (forall r {:trigger IsCandidate(spans, r)} :: r in spans && IsCandidate(spans, r) ==>
          exists t :: t in roots && t.span == r)
    && forall t :: t in roots ==> IsBuild(spans, t)
  }

  /** Whatever can be reached from a candidate has a node in the forest. */
  lemma {:induction false} ForestReaches(spans: seq<Span>, roots: seq<Tree>, p: Span, n: nat) returns (i: nat, m: Tree)
    requires IsForest(spans, roots) && p in spans && Rooted(spans, p, n)
    ensures i < |roots| && m in Nodes(roots[i]) && m.span == p && IsBuild(spans, m)
    decreases n
  {
    if IsCandidate(spans, p) {
      m :| m in roots && m.span == p;
      i :| 0 <= i < |roots| && roots[i] == m;
    } else {
      var q :| q in spans && IsChild(p, q) && Rooted(spans, q, n - 1);
      var above;
      i, above := ForestReaches(spans, roots, q, n - 1);
      m :| m in above.children && m.span == p;
      InForest(above.children, m);
      NodesTransitive(roots[i], above, m);
    }
  }

  /** A child of a node lies strictly below the root of its tree. */
  lemma {:induction false} ChildIsBelow(t: Tree, above: Tree, m: Tree)
    requires above in Nodes(t) && m in above.children
    ensures m in NodesF(t.children)
    decreases t
  {
    InForest(above.children, m);
    if above != t {
      InForest(t.children, above);
      var i :| 0 <= i < |t.children| && above in Nodes(t.children[i]);
      ChildIsBelow(t.children[i], above, m);
      InForest(t.children, m);
    }
  }

  lemma NodeCounts(ts: seq<Tree>, m: Tree)
    requires m in NodesF(ts)
    ensures SpansF(ts)[m.span] >= 1
  {
    SpansAreNodeSpansF(ts);
    var i :| 0 <= i < |NodesF(ts)| && NodesF(ts)[i] == m;
    assert SpanSeq(NodesF(ts))[i] == m.span;
    assert m.span in multiset(SpanSeq(NodesF(ts)));
  }

  /** A span that is a root of one tree and lies below the root of one counts twice. */
  lemma {:induction false} RootAndBelow(ts: seq<Tree>, i: nat, j: nat, m: Tree)
    requires i < |ts| && j < |ts| && m in NodesF(ts[j].children) && ts[i].span == m.span
    ensures SpansF(ts)[m.span] >= 2
  {
    NodeCounts(ts[j].children, m);
    if i == 0 && j > 0 {
      InForest(ts[1..], m);
      assert ts[1..][j - 1] == ts[j] && m in Nodes(ts[j]);
      NodeCounts(ts[1..], m);
    } else if i > 0 && j == 0 {
      InForest(ts[1..], ts[i]);
      assert ts[1..][i - 1] == ts[i];
      NodeCounts(ts[1..], ts[i]);
    } else if i > 0 && j > 0 {
      RootAndBelow(ts[1..], i - 1, j - 1, m);
    }
  }

  /** Whatever forest a list with a blank link is turned into, the span that points to the blank id is in it twice,
      unless the blank id itself is cut off by a cycle, which the builder rejects. */
  lemma BlankLinkBuiltTwice(spans: seq<Span>, roots: seq<Tree>, c: Span, p: Span)
    requires IsForest(spans, roots) && c in spans && p in spans && Grounded(spans, p)
    requires IsChild(c, p) && p.Id() == ""
    ensures SpansF(roots)[c] >= 2
  {
    assert IsCandidate(spans, c);
    var root :| root in roots && root.span == c;
    var i :| 0 <= i < |roots| && roots[i] == root;
    var j, above := ForestReaches(spans, roots, p, Depth(spans, p));
    assert IsChild(c, above.span);
    var m :| m in above.children && m.span == c;
    ChildIsBelow(roots[j], above, m);
    RootAndBelow(roots, i, j, m);
  }

  lemma {:induction false} BuildTreeIsBuild(spans: seq<Span>, s: Span)
    requires Ready(spans) && s in spans
    ensures IsBuild(spans, BuildTree(spans, s))
    decreases Below(spans, s)
  {
    var t := BuildTree(spans, s);
    forall c | c in spans && IsChild(c, s)
      ensures exists m :: m in t.children && m.span == c
    {
      ChildrenAreBuilt(spans, s, BuildTree(spans, c));
    }
    forall m | m in t.children
      ensures IsBuild(spans, m)
    {
      ChildrenAreBuilt(spans, s, m);
      BelowShrinks(spans, m.span, s);
      BuildTreeIsBuild(spans, m.span);
    }
  }

  lemma RootTreesAreForest(spans: seq<Span>)
    requires Ready(spans)
    ensures IsForest(spans, RootTrees(spans, |spans|))
  {
    var roots := RootTrees(spans, |spans|);
    forall r | r in spans && IsCandidate(spans, r)
      ensures exists t :: t in roots && t.span == r
    {
      RootMembers(spans, BuildTree(spans, r));
    }
    forall t | t in roots
      ensures IsBuild(spans, t)
    {
      RootMembers(spans, t);
      BuildTreeIsBuild(spans, t.span);
    }
  }

  /** For lists that pass both checks of the builder: the construction can finish with every span built exactly
      once if and only if no parent pointer names a blank id. */
  lemma OnceIffNoBlankLinks(spans: seq<Span>)
    requires DistinctSpanIds(spans) && AllGrounded(spans)
    ensures NoBlankLinks(spans) <==>
            exists roots :: IsForest(spans, roots) && SpansF(roots) == multiset(spans)
  {
    if NoBlankLinks(spans) {
      RootTreesAreForest(spans);
      ForestHoldsEachSpanOnce(spans);
    } else {
      var c, p :| c in spans && p in spans && IsChild(c, p) && p.Id() == "";
      DistinctSpans(spans);
      DistinctAreSingles(spans);
      assert Grounded(spans, p);
      forall roots | IsForest(spans, roots)
        ensures SpansF(roots) != multiset(spans)
      {
        BlankLinkBuiltTwice(spans, roots, c, p);
      }
    }
  }
}
