/** What compression does to a tree: its closed form, and what it keeps. */
module CompressionFacts {
  import opened Spans
  import opened Sequences
  import opened TraceTree
  import opened Compression

  /** No node below is a summary, is flagged compressed or is marked as a virtual root. */
  ghost predicate Clean(t: Tree) {
    forall n :: n in Nodes(t) ==> !Exempt(n)
  }

  /** A tree as the builder leaves it. */
  ghost predicate Fresh(t: Tree) {
    && t.ratio == 0.0
    && !t.span.IsSummary()
    && forall c :: c in t.children ==> Clean(c)
  }

  /** Under a virtual root, no other id looks like a virtual root's. */
  ghost predicate PlainIds(t: Tree) {
    t.span.IsVirtualRoot() ==> forall n :: n in NodesF(t.children) ==> !Contains(n.Id(), "virtual_root")
  }

  /** Branches that are to be replaced: too large and without any error. */
  predicate Over(c: Tree, limit: int) {
    !Exempt(c) && Size(c) > limit && !HasError(c)
  }

  function Prune(c: Tree, limit: int): Tree {
    if Over(c, limit) then SummaryTree(c) else c
  }

  function PruneAll(ts: seq<Tree>, limit: int): (rs: seq<Tree>)
    ensures |rs| == |ts|
    ensures forall i :: 0 <= i < |ts| ==> rs[i] == Prune(ts[i], limit)
  {
    if ts == [] then [] else [Prune(ts[0], limit)] + PruneAll(ts[1..], limit)
  }

  function OverOnes(ts: seq<Tree>, limit: int): seq<Tree> {
    Filter(ts, c => Over(c, limit))
  }

  // ---------------------------------------------------------------- closed form

  /** A branch with an error, or within the limit, goes through the rebuild unchanged, whatever
      marks its nodes carry. */
  lemma {:induction false} RebuildKeeps(t: Tree, limit: int, err: bool)
    requires err || Size(t) <= limit
    ensures Rebuild(t, limit, err) == t && Replaced(t, limit, err) == []
    decreases t, 1
  {
    RebuildKeepsAll(t.children, limit, err);
  }

  lemma {:induction false} RebuildKeepsAll(ts: seq<Tree>, limit: int, err: bool)
    requires err || SizeF(ts) <= limit
    ensures RebuildAll(ts, limit, err) == ts && ReplacedAll(ts, limit, err) == []
    decreases ts, 0
  {
    if ts != [] {
      RebuildKeeps(ts[0], limit, err);
      RebuildKeepsAll(ts[1..], limit, err);
    }
  }

  ghost predicate SummaryLeaf(t: Tree) {
    t.span.IsSummary() && t.compressed && t.children == []
  }

  /** Every branch is untouched so far or has been replaced already. */
  ghost predicate Settled(ts: seq<Tree>) {
    forall c :: c in ts ==> Clean(c) || SummaryLeaf(c)
  }

  lemma PruneBranch(c: Tree, limit: int)
    requires Clean(c) || SummaryLeaf(c)
    ensures Rebuild(c, limit, HasError(c)) == Prune(c, limit)
    ensures Replaced(c, limit, HasError(c)) == if Over(c, limit) then [c] else []
  {
    assert c in Nodes(c);
    if Clean(c) && !Over(c, limit) {
      RebuildKeeps(c, limit, HasError(c));
    }
  }

  lemma {:induction false} PruneBranches(ts: seq<Tree>, limit: int)
    requires Settled(ts)
    ensures RebuildBranches(ts, limit) == PruneAll(ts, limit)
    ensures ReplacedBranches(ts, limit) == OverOnes(ts, limit)
  {
    if ts != [] {
      PruneBranch(ts[0], limit);
      PruneBranches(ts[1..], limit);
    }
  }

  lemma {:induction false} MarkKeeps(t: Tree)
    requires forall n :: n in Nodes(t) ==> !n.compressed
    ensures Mark(t) == t
    decreases t, 1
  {
    assert t in Nodes(t);
    forall c | c in t.children
      ensures !c.compressed
    {
      InForest(t.children, c);
    }
    MarkKeepsAll(t.children);
  }

  lemma {:induction false} MarkKeepsAll(ts: seq<Tree>)
    requires forall n :: n in NodesF(ts) ==> !n.compressed
    ensures MarkAll(ts) == ts
    decreases ts, 0
  {
    if ts != [] {
      FrontNodes(ts);
      MarkKeeps(ts[0]);
      MarkKeepsAll(ts[1..]);
    }
  }

  lemma {:induction false} MarkKeepsSettled(ts: seq<Tree>)
    requires Settled(ts)
    ensures MarkAll(ts) == ts
  {
    if ts != [] {
      if Clean(ts[0]) {
        MarkKeeps(ts[0]);
      }
      MarkKeepsSettled(ts[1..]);
    }
  }

  lemma PrunedSettled(ts: seq<Tree>, limit: int)
    requires Settled(ts)
    ensures Settled(PruneAll(ts, limit))
  {
    forall c | c in PruneAll(ts, limit)
      ensures Clean(c) || SummaryLeaf(c)
    {
      var i :| 0 <= i < |ts| && PruneAll(ts, limit)[i] == c;
      assert ts[i] in ts;
    }
  }

  /** On a tree of settled branches, stack-based sizes, nested error propagation and top-down
      rebuild together replace exactly the oversized error-free children of the root. */
  lemma SettledForm(t: Tree, limit: int)
    requires Settled(t.children)
    ensures CompressTree(t, limit) ==
            var kids := PruneAll(t.children, limit);
            SetRatio(Node(t.span, kids, exists c :: c in kids && c.compressed, 0.0), ResultRatio(t, limit))
  {
    PruneBranches(t.children, limit);
    PrunedSettled(t.children, limit);
    MarkKeepsSettled(PruneAll(t.children, limit));
  }

  lemma FreshSettled(t: Tree)
    requires Fresh(t)
    ensures Settled(t.children)
  {
  }

  /** The search for the original count finds the root. */
  lemma {:induction false} CountIsSize(t: Tree, i: nat)
    requires DistinctIds(t) && PlainIds(t) && i < |Nodes(t)|
    ensures OriginalCount(t, Nodes(t), i) == Size(t)
    decreases |Nodes(t)| - i
  {
    if i < |Nodes(t)| - 1 {
      var n := NodesF(t.children)[i];
      assert Nodes(t)[i] == n;
      RootIdFresh(t, n);
      CountIsSize(t, i + 1);
    }
  }

  /** The closed form of compression on a tree as built. The stored ratio is `(N-1)/N` for a tree
      of `N` nodes, whatever was replaced. */
  lemma ClosedForm(t: Tree, limit: int)
    requires Fresh(t) && DistinctIds(t) && PlainIds(t)
    ensures var n := Size(t) as real;
            var r := CompressTree(t, limit);
            && r.span == t.span && r.ratio == (n - 1.0) / n
            && |r.children| == |t.children|
            && (r.compressed <==> exists c :: c in t.children && Over(c, limit))
            && (forall i :: 0 <= i < |t.children| ==>
                  r.children[i] ==
                  SetRatio(if Over(t.children[i], limit) then SummaryTree(t.children[i]) else t.children[i], r.ratio))
            && ReplacedBranches(t.children, limit) == OverOnes(t.children, limit)
    ensures forall c :: c in t.children ==>
              (Over(c, limit) <==> |SpansOf(c)| > limit && forall n :: n in Nodes(c) ==> !n.span.IsError())
  {
    forall c | c in t.children
      ensures Over(c, limit) <==> |SpansOf(c)| > limit && forall n :: n in Nodes(c) ==> !n.span.IsError()
    {
      OverMeans(c, limit);
    }
    FreshSettled(t);
    SettledForm(t, limit);
    PruneBranches(t.children, limit);
    FreshRatioValue(t, limit);
    SetRatioPointwise(PruneAll(t.children, limit), ResultRatio(t, limit));
    FlagMeansOver(t, limit);
  }

  /** On a clean branch, being over the limit is about the spans alone. */
  lemma OverMeans(c: Tree, limit: int)
    requires Clean(c)
    ensures Over(c, limit) <==> |SpansOf(c)| > limit && forall n :: n in Nodes(c) ==> !n.span.IsError()
  {
    assert c in Nodes(c);
    SizeIsSpanCount(c);
    ErrorMeans(c);
  }

  // ---------------------------------------------------------------- what the ratio would be

  predicate IsKept(n: Tree) { !n.span.IsSummary() }

  /** The number of nodes that are not summaries. */
  function Kept(ts: seq<Tree>): nat { |Filter(NodesF(ts), IsKept)| }

  lemma KeptFront(t: Tree, ts: seq<Tree>)
    ensures Kept([t] + ts) == |Filter(Nodes(t), IsKept)| + Kept(ts)
  {
    assert ([t] + ts)[1..] == ts;
    FilterAppend(Nodes(t), NodesF(ts), IsKept);
  }

  lemma CleanAllKept(t: Tree)
    requires Clean(t)
    ensures |Filter(Nodes(t), IsKept)| == Size(t)
  {
    FilterAll(Nodes(t), IsKept);
    SizeIsNodeCount(t);
  }

  lemma SummaryNotKept(t: Tree)
    ensures |Filter(Nodes(SummaryTree(t)), IsKept)| == 0
  {
    var s := SummaryTree(t);
    assert NodesF(s.children) == [];
    assert Nodes(s) == [s];
    FilterNone(Nodes(s), IsKept);
  }

  lemma PrunedKept(c: Tree, limit: int)
    requires Clean(c)
    ensures |Filter(Nodes(Prune(c, limit)), IsKept)| == 0 <==> Over(c, limit)
  {
    if Over(c, limit) {
      SummaryNotKept(c);
    } else {
      CleanAllKept(c);
    }
  }

  ghost predicate AllOver(ts: seq<Tree>, limit: int) {
    forall c :: c in ts ==> Over(c, limit)
  }

  lemma AllOverFront(ts: seq<Tree>, limit: int)
    requires ts != []
    ensures AllOver(ts, limit) <==> Over(ts[0], limit) && AllOver(ts[1..], limit)
  {
    assert ts == [ts[0]] + ts[1..];
  }

  /** No node of the branches is kept exactly when every branch is replaced. */
  lemma {:induction false} NoneKept(ts: seq<Tree>, limit: int)
    requires forall c :: c in ts ==> Clean(c)
    ensures Kept(PruneAll(ts, limit)) == 0 <==> AllOver(ts, limit)
  {
    if ts != [] {
      NoneKept(ts[1..], limit);
      assert ts[0] in ts;
      PrunedKept(ts[0], limit);
      KeptFront(Prune(ts[0], limit), PruneAll(ts[1..], limit));
      AllOverFront(ts, limit);
    }
  }

  lemma {:induction false} RatioKeepsKept(t: Tree, ratio: real)
    ensures |Filter(Nodes(SetRatio(t, ratio)), IsKept)| == |Filter(Nodes(t), IsKept)|
    decreases t, 1
  {
    RatioKeepsKeptAll(t.children, ratio);
    FilterAppend(NodesF(t.children), [t], IsKept);
    FilterAppend(NodesF(SetRatioAll(t.children, ratio)), [SetRatio(t, ratio)], IsKept);
    assert [t][1..] == [] && [SetRatio(t, ratio)][1..] == [];
  }

  lemma {:induction false} RatioKeepsKeptAll(ts: seq<Tree>, ratio: real)
    ensures Kept(SetRatioAll(ts, ratio)) == Kept(ts)
    decreases ts, 0
  {
    if ts != [] {
      RatioKeepsKept(ts[0], ratio);
      RatioKeepsKeptAll(ts[1..], ratio);
      KeptFront(SetRatio(ts[0], ratio), SetRatioAll(ts[1..], ratio));
      KeptFront(ts[0], ts[1..]);
      assert ts == [ts[0]] + ts[1..];
    }
  }

  /** The share of `n` nodes that is gone when `kept` are kept. */
  function Share(n: nat, kept: nat): real
    requires n > 0
  {
    (n - kept) as real / n as real
  }

  /** The share of the nodes of `t` that are not kept in `r`. */
  function ShareGone(t: Tree, r: Tree): real {
    Share(Size(t), |Filter(Nodes(r), IsKept)|)
  }

  lemma KeptOfNode(span: Span, kids: seq<Tree>, flag: bool, ratio: real)
    requires !span.IsSummary()
    ensures |Filter(Nodes(SetRatio(Node(span, kids, flag, 0.0), ratio)), IsKept)| == 1 + Kept(kids)
  {
    var t := Node(span, kids, flag, 0.0);
    RatioKeepsKept(t, ratio);
    FilterAppend(NodesF(kids), [t], IsKept);
    assert [t][1..] == [];
  }

  lemma KeptAfter(t: Tree, limit: int)
    requires Fresh(t)
    ensures |Filter(Nodes(CompressTree(t, limit)), IsKept)| == 1 + Kept(PruneAll(t.children, limit))
    ensures CompressTree(t, limit).ratio == ResultRatio(t, limit)
  {
    var kids := PruneAll(t.children, limit);
    FreshSettled(t);
    SettledForm(t, limit);
    KeptOfNode(t.span, kids, exists c :: c in kids && c.compressed, ResultRatio(t, limit));
  }

  /** The stored ratio is the share of nodes no longer kept exactly when every child of the root is replaced. */
  lemma RatioIsShare(t: Tree, limit: int)
    requires Fresh(t) && DistinctIds(t) && PlainIds(t)
    ensures CompressTree(t, limit).ratio == ShareGone(t, CompressTree(t, limit)) <==>
            forall c :: c in t.children ==> Over(c, limit)
  {
    KeptAfter(t, limit);
    RatioAsShare(t, limit);
    NoneKept(t.children, limit);
    SameShare(Size(t), 1 + Kept(PruneAll(t.children, limit)));
  }

  lemma RatioAsShare(t: Tree, limit: int)
    requires Fresh(t) && DistinctIds(t) && PlainIds(t)
    ensures ResultRatio(t, limit) == Share(Size(t), 1)
  {
    FreshRatioValue(t, limit);
  }

  lemma SameShare(n: nat, kept: nat)
    requires n > 0
    ensures Share(n, 1) == Share(n, kept) <==> kept == 1
  {
    assert Share(n, 1) * n as real == (n - 1) as real && Share(n, kept) * n as real == (n - kept) as real;
  }

  lemma FlagMeansOver(t: Tree, limit: int)
    requires Fresh(t)
    ensures (exists c :: c in PruneAll(t.children, limit) && c.compressed)
            <==> exists c :: c in t.children && Over(c, limit)
  {
    var kids := PruneAll(t.children, limit);
    if c :| c in kids && c.compressed {
      var i :| 0 <= i < |kids| && kids[i] == c;
      assert t.children[i] in t.children && t.children[i] in Nodes(t.children[i]);
      assert Over(t.children[i], limit);
    }
    if c :| c in t.children && Over(c, limit) {
      var i :| 0 <= i < |t.children| && t.children[i] == c;
      assert kids[i] in kids && kids[i].compressed;
    }
  }

  lemma RatioValue(n: nat)
    requires n > 0
    ensures Clamp((n - 1) as real / n as real) == (n as real - 1.0) / n as real
    ensures (n as real - 1.0) / n as real > 0.0 <==> n > 1
  {
    assert (n as real - 1.0) / n as real == 1.0 - 1.0 / n as real;
  }

  lemma {:induction false} SetRatioPointwise(ts: seq<Tree>, ratio: real)
    ensures forall i :: 0 <= i < |ts| ==> SetRatioAll(ts, ratio)[i] == SetRatio(ts[i], ratio)
  {
    if ts != [] {
      SetRatioPointwise(ts[1..], ratio);
      forall i | 0 < i < |ts|
        ensures SetRatioAll(ts, ratio)[i] == SetRatio(ts[i], ratio)
      {
        assert ts[i] == ts[1..][i - 1];
      }
    }
  }

  // ---------------------------------------------------------------- setting ratios changes nothing else

  lemma {:induction false} SetRatioViews(t: Tree, ratio: real)
    ensures Size(SetRatio(t, ratio)) == Size(t)
    ensures HasError(SetRatio(t, ratio)) == HasError(t)
    ensures SpansOf(SetRatio(t, ratio)) == SpansOf(t)
    ensures Worth(SetRatio(t, ratio)) == Worth(t)
    ensures SetRatio(SetRatio(t, ratio), ratio) == SetRatio(t, ratio)
    decreases t, 1
  {
    SetRatioViewsAll(t.children, ratio);
  }

  lemma {:induction false} SetRatioViewsAll(ts: seq<Tree>, ratio: real)
    ensures SizeF(SetRatioAll(ts, ratio)) == SizeF(ts)
    ensures HasErrorF(SetRatioAll(ts, ratio)) == HasErrorF(ts)
    ensures SpansF(SetRatioAll(ts, ratio)) == SpansF(ts)
    ensures WorthF(SetRatioAll(ts, ratio)) == WorthF(ts)
    ensures SetRatioAll(SetRatioAll(ts, ratio), ratio) == SetRatioAll(ts, ratio)
    decreases ts, 0
  {
    if ts != [] {
      SetRatioViews(ts[0], ratio);
      SetRatioViewsAll(ts[1..], ratio);
      assert SetRatioAll(ts, ratio)[1..] == SetRatioAll(ts[1..], ratio);
    }
  }

  lemma {:induction false} SetRatioClean(t: Tree, ratio: real)
    requires Clean(t)
    ensures Clean(SetRatio(t, ratio))
    decreases t, 1
  {
    assert t in Nodes(t);
    SetRatioCleanAll(t.children, ratio);
  }

  lemma {:induction false} SetRatioCleanAll(ts: seq<Tree>, ratio: real)
    requires forall n :: n in NodesF(ts) ==> !Exempt(n)
    ensures forall n :: n in NodesF(SetRatioAll(ts, ratio)) ==> !Exempt(n)
    decreases ts, 0
  {
    if ts != [] {
      SetRatioClean(ts[0], ratio);
      SetRatioCleanAll(ts[1..], ratio);
      assert SetRatioAll(ts, ratio)[1..] == SetRatioAll(ts[1..], ratio);
    }
  }

  // ---------------------------------------------------------------- idempotence

  /** After one pass every branch is settled and none is over the limit any more. */
  lemma {:induction false} PassSettles(ts: seq<Tree>, limit: int, ratio: real)
    requires Settled(ts)
    ensures var rs := SetRatioAll(PruneAll(ts, limit), ratio);
            Settled(rs) && PruneAll(rs, limit) == rs && OverOnes(rs, limit) == []
  {
    var rs := SetRatioAll(PruneAll(ts, limit), ratio);
    SetRatioPointwise(PruneAll(ts, limit), ratio);
    forall i | 0 <= i < |rs|
      ensures Clean(rs[i]) || SummaryLeaf(rs[i])
      ensures !Over(rs[i], limit)
    {
      assert ts[i] in ts;
      var kid := Prune(ts[i], limit);
      assert rs[i] == SetRatio(kid, ratio);
      SetRatioViews(kid, ratio);
      if Clean(kid) {
        SetRatioClean(kid, ratio);
        assert kid in Nodes(kid);
      }
    }
    FilterNone(rs, c => Over(c, limit));
  }

  lemma LeafIsOne(t: Tree)
    ensures Size(t) > 1 <==> t.children != []
  {
    if t.children != [] {
      assert SizeF(t.children) >= Size(t.children[0]);
    }
  }

  lemma FreshRatioValue(t: Tree, limit: int)
    requires Fresh(t) && DistinctIds(t) && PlainIds(t)
    ensures ResultRatio(t, limit) == (Size(t) as real - 1.0) / Size(t) as real
    ensures ResultRatio(t, limit) > 0.0 <==> t.children != []
  {
    CountIsSize(t, 0);
    RatioValue(Size(t));
    LeafIsOne(t);
  }

  lemma LeafRatio(span: Span, limit: int)
    requires !span.IsSummary()
    ensures ResultRatio(Node(span, [], false, 0.0), limit) == 0.0
  {
    var t := Node(span, [], false, 0.0);
    assert SizeF([]) == 0 && NodesF([]) == [];
    assert Nodes(t) == [t];
    assert TakenForRoot(t, t.Id());
  }

  /** A second pass finds nothing to replace and keeps the ratio, also when it is recomputed. */
  lemma RatioStable(t: Tree, limit: int)
    requires Fresh(t) && DistinctIds(t) && PlainIds(t)
    ensures var once := CompressTree(t, limit);
            ReplacedBranches(once.children, limit) == [] && ResultRatio(once, limit) == ResultRatio(t, limit)
  {
    var ratio := ResultRatio(t, limit);
    FreshRatioValue(t, limit);
    SettledForm(t, limit);
    PassSettles(t.children, limit, ratio);
    PruneBranches(SetRatioAll(PruneAll(t.children, limit), ratio), limit);
    if t.children == [] {
      assert CompressTree(t, limit) == Node(t.span, [], false, 0.0);
      LeafRatio(t.span, limit);
    }
  }

  /** Compressing the result of compressing a built tree changes nothing: no new summaries, and the
      same structure, flags and ratio. */
  lemma CompressIdempotent(t: Tree, limit: int)
    requires Fresh(t) && DistinctIds(t) && PlainIds(t)
    ensures CompressTree(CompressTree(t, limit), limit) == CompressTree(t, limit)
    ensures ReplacedBranches(CompressTree(t, limit).children, limit) == []
  {
    var ratio := ResultRatio(t, limit);
    var kids := PruneAll(t.children, limit);
    RatioStable(t, limit);
    SettledForm(t, limit);
    PassSettles(t.children, limit, ratio);
    SettledForm(CompressTree(t, limit), limit);
    FlagsSurviveRatio(kids, ratio);
    SetRatioViewsAll(kids, ratio);
  }

  lemma FlagsSurviveRatio(ts: seq<Tree>, ratio: real)
    ensures (exists c :: c in SetRatioAll(ts, ratio) && c.compressed) <==> exists c :: c in ts && c.compressed
  {
    SetRatioPointwise(ts, ratio);
    var rs := SetRatioAll(ts, ratio);
    if c :| c in rs && c.compressed {
      var i :| 0 <= i < |rs| && rs[i] == c;
      assert ts[i] in ts && ts[i].compressed;
    }
    if c :| c in ts && c.compressed {
      var i :| 0 <= i < |ts| && ts[i] == c;
      assert rs[i] in rs && rs[i].compressed;
    }
  }

  // ---------------------------------------------------------------- errors survive

  /** Every erroneous span of any tree is still a node after compression. */
  lemma ErrorSpansSurvive(t: Tree, limit: int, s: Span)
    requires s in SpansOf(t) && s.IsError()
    ensures s in SpansOf(CompressTree(t, limit))
  {
    var rebuilt := Node(t.span, RebuildBranches(t.children, limit), false, 0.0);
    SetRatioViews(Mark(rebuilt), ResultRatio(t, limit));
    MarkSpans(rebuilt);
    if s != t.span {
      ErrorInBranches(t.children, limit, s);
    }
  }

  lemma {:induction false} ErrorInBranches(ts: seq<Tree>, limit: int, s: Span)
    requires s in SpansF(ts) && s.IsError()
    ensures s in SpansF(RebuildBranches(ts, limit))
  {
    assert RebuildBranches(ts, limit)[1..] == RebuildBranches(ts[1..], limit);
    if s in SpansOf(ts[0]) {
      SpanHasNode(ts[0], s);
      var n :| n in Nodes(ts[0]) && n.span == s;
      ErrorsRise(ts[0], n);
      RebuildKeeps(ts[0], limit, true);
    } else {
      ErrorInBranches(ts[1..], limit, s);
    }
  }

  lemma {:induction false} MarkSpans(t: Tree)
    ensures SpansOf(Mark(t)) == SpansOf(t)
    decreases t, 1
  {
    MarkSpansAll(t.children);
  }

  lemma {:induction false} MarkSpansAll(ts: seq<Tree>)
    ensures SpansF(MarkAll(ts)) == SpansF(ts)
    decreases ts, 0
  {
    if ts != [] {
      MarkSpans(ts[0]);
      MarkSpansAll(ts[1..]);
      assert MarkAll(ts)[1..] == MarkAll(ts[1..]);
    }
  }

  /** A replaced subtree holds no error, so the `tree.error_count` of 0 on its summary is true. */
  lemma {:induction false} ReplacedHaveNoErrors(ts: seq<Tree>, limit: int, n: Tree)
    requires n in ReplacedBranches(ts, limit)
    ensures !HasError(n) && Size(n) > limit && !Exempt(n)
    ensures exists i :: 0 <= i < |ts| && n in Nodes(ts[i])
  {
    if n in Replaced(ts[0], limit, HasError(ts[0])) {
      ReplacedBelow(ts[0], limit, HasError(ts[0]), n);
      if HasError(n) {
        ErrorsRise(ts[0], n);
        assert false;
      }
    } else {
      ReplacedHaveNoErrors(ts[1..], limit, n);
      var i :| 0 <= i < |ts[1..]| && n in Nodes(ts[1..][i]);
      assert n in Nodes(ts[i + 1]);
    }
  }

  lemma {:induction false} ReplacedBelow(t: Tree, limit: int, err: bool, n: Tree)
    requires n in Replaced(t, limit, err)
    ensures n in Nodes(t) && !err && Size(n) > limit && !Exempt(n)
    decreases t, 1
  {
    if Exempt(t) || Size(t) <= limit || err {
      ReplacedBelowAll(t.children, limit, err, n);
    }
  }

  lemma {:induction false} ReplacedBelowAll(ts: seq<Tree>, limit: int, err: bool, n: Tree)
    requires n in ReplacedAll(ts, limit, err)
    ensures n in NodesF(ts) && !err && Size(n) > limit && !Exempt(n)
    decreases ts, 0
  {
    if n in Replaced(ts[0], limit, err) {
      ReplacedBelow(ts[0], limit, err, n);
    } else {
      ReplacedBelowAll(ts[1..], limit, err, n);
    }
  }

  predicate IsErrorNode(n: Tree) { n.span.IsError() }

  /** What the summary of a replaced subtree records about it is true, and it can be found under the same id,
      parent and start time. */
  lemma SummaryIsTrue(ts: seq<Tree>, limit: int, n: Tree)
    requires n in ReplacedBranches(ts, limit)
    ensures var s := SummaryTree(n).span;
            && s.attributes["tree.children_count"] == Num(|SpansOf(n)| as real)
            && s.attributes["tree.error_count"] == Num(|Filter(Nodes(n), IsErrorNode)| as real)
            && s.attributes["tree.total_cost"] == Num(Cost(n))
            && s.Id() == n.Id() && s.context.parentSpanId == n.span.context.parentSpanId
            && s.startTime == n.span.startTime
            && s.IsSummary() && !s.IsError()
  {
    ReplacedHaveNoErrors(ts, limit, n);
    SizeIsSpanCount(n);
    forall m | m in Nodes(n)
      ensures !IsErrorNode(m)
    {
      if m.span.IsError() {
        assert HasError(m);
        ErrorsRise(n, m);
        assert false;
      }
    }
    FilterNone(Nodes(n), IsErrorNode);
  }

  /** The two costs of a span are added; a missing one counts as 0, a flag as 0 or 1. */
  lemma SpanCostMeans(s: Span, own: real, sum: real)
    requires Get(s.attributes, "cost.usd", Num(0.0)) == Num(own)
    requires Get(s.attributes, "cost.usd_sum", Num(0.0)) == Num(sum)
    ensures SpanCost(s) == own + sum
  {
  }

  /** The costs of all nodes together. */
  function CostSum(ns: seq<Tree>): real {
    if ns == [] then 0.0 else SpanCost(ns[0].span) + CostSum(ns[1..])
  }

  lemma {:induction false} CostSumConcat(xs: seq<Tree>, ys: seq<Tree>)
    ensures CostSum(xs + ys) == CostSum(xs) + CostSum(ys)
  {
    if xs == [] {
      assert xs + ys == ys;
    } else {
      assert (xs + ys)[1..] == xs[1..] + ys;
      CostSumConcat(xs[1..], ys);
    }
  }

  /** The cost of a tree is that of its nodes. */
  lemma {:induction false} CostIsSum(t: Tree)
    ensures Cost(t) == CostSum(Nodes(t))
    decreases t, 1
  {
    CostIsSumF(t.children);
    CostSumConcat(NodesF(t.children), [t]);
    assert [t][1..] == [];
  }

  lemma {:induction false} CostIsSumF(ts: seq<Tree>)
    ensures CostF(ts) == CostSum(NodesF(ts))
    decreases ts, 0
  {
    if ts != [] {
      CostIsSum(ts[0]);
      CostIsSumF(ts[1..]);
      CostSumConcat(Nodes(ts[0]), NodesF(ts[1..]));
    }
  }

  // ---------------------------------------------------------------- cost is preserved

  /** What a tree accounts for: own costs of plain spans and the recorded totals of summaries. */
  function Worth(t: Tree): real
    decreases t, 1
  {
    (if t.span.IsSummary() then Money(Get(t.span.attributes, "tree.total_cost", Num(0.0))) else SpanCost(t.span))
    + WorthF(t.children)
  }

  function WorthF(ts: seq<Tree>): real
    decreases ts, 0
  {
    if ts == [] then 0.0 else Worth(ts[0]) + WorthF(ts[1..])
  }

  lemma {:induction false} CleanWorth(t: Tree)
    requires Clean(t)
    ensures Worth(t) == Cost(t)
    decreases t, 1
  {
    assert t in Nodes(t);
    CleanWorthAll(t.children);
  }

  lemma {:induction false} CleanWorthAll(ts: seq<Tree>)
    requires forall n :: n in NodesF(ts) ==> !Exempt(n)
    ensures WorthF(ts) == CostF(ts)
    decreases ts, 0
  {
    if ts != [] {
      CleanWorth(ts[0]);
      CleanWorthAll(ts[1..]);
    }
  }

  lemma {:induction false} PruneKeepsWorth(ts: seq<Tree>, limit: int)
    requires forall c :: c in ts ==> Clean(c)
    ensures WorthF(PruneAll(ts, limit)) == CostF(ts)
  {
    if ts != [] {
      CleanWorth(ts[0]);
      PruneKeepsWorth(ts[1..], limit);
      assert Worth(SummaryTree(ts[0])) == Cost(ts[0]) + WorthF([]);
      assert PruneAll(ts, limit)[1..] == PruneAll(ts[1..], limit);
    }
  }

  /** Compression of a built tree preserves its total cost. */
  lemma CostPreserved(t: Tree, limit: int)
    requires Fresh(t)
    ensures Worth(CompressTree(t, limit)) == Cost(t)
  {
    FreshSettled(t);
    SettledForm(t, limit);
    var kids := PruneAll(t.children, limit);
    SetRatioViewsAll(kids, ResultRatio(t, limit));
    PruneKeepsWorth(t.children, limit);
  }

  // ---------------------------------------------------------------- the passes node by node

  function RatioSetter(ratio: real): Tree -> Tree {
    (n: Tree) => SetRatio(n, ratio)
  }

  function Marker(): Tree -> Tree {
    (n: Tree) => Mark(n)
  }

  lemma {:induction false} SetRatioNodes(t: Tree, ratio: real)
    ensures Nodes(SetRatio(t, ratio)) == Map(RatioSetter(ratio), Nodes(t))
    decreases t, 1
  {
    SetRatioNodesAll(t.children, ratio);
    MapAppend(RatioSetter(ratio), NodesF(t.children), t);
  }

  lemma {:induction false} SetRatioNodesAll(ts: seq<Tree>, ratio: real)
    ensures NodesF(SetRatioAll(ts, ratio)) == Map(RatioSetter(ratio), NodesF(ts))
    decreases ts, 0
  {
    if ts != [] {
      SetRatioNodes(ts[0], ratio);
      SetRatioNodesAll(ts[1..], ratio);
      assert SetRatioAll(ts, ratio)[1..] == SetRatioAll(ts[1..], ratio);
      MapConcat(RatioSetter(ratio), Nodes(ts[0]), NodesF(ts[1..]));
    }
  }

  lemma {:induction false} MarkNodes(t: Tree)
    ensures Nodes(Mark(t)) == Map(Marker(), Nodes(t))
    decreases t, 1
  {
    MarkNodesAll(t.children);
    MapAppend(Marker(), NodesF(t.children), t);
  }

  lemma {:induction false} MarkNodesAll(ts: seq<Tree>)
    ensures NodesF(MarkAll(ts)) == Map(Marker(), NodesF(ts))
    decreases ts, 0
  {
    if ts != [] {
      MarkNodes(ts[0]);
      MarkNodesAll(ts[1..]);
      assert MarkAll(ts)[1..] == MarkAll(ts[1..]);
      MapConcat(Marker(), Nodes(ts[0]), NodesF(ts[1..]));
    }
  }

  /** Setting the ratio gives it to every node and changes nothing else of any. */
  lemma RatioSetEverywhere(t: Tree, ratio: real, i: nat)
    requires i < |Nodes(t)|
    ensures |Nodes(SetRatio(t, ratio))| == |Nodes(t)|
    ensures var n, r := Nodes(t)[i], Nodes(SetRatio(t, ratio))[i];
            r.ratio == ratio && r.span == n.span && r.compressed == n.compressed && |r.children| == |n.children|
  {
    SetRatioNodes(t, ratio);
  }

  /** Marking flags exactly the nodes that were flagged or had a flagged child, and changes nothing else of any. */
  lemma MarkedExactly(t: Tree, i: nat)
    requires i < |Nodes(t)|
    ensures |Nodes(Mark(t))| == |Nodes(t)|
    ensures var n, r := Nodes(t)[i], Nodes(Mark(t))[i];
            && (r.compressed <==> n.compressed || exists c :: c in n.children && c.compressed)
            && r.span == n.span && r.ratio == n.ratio && |r.children| == |n.children|
  {
    MarkNodes(t);
  }

  // ---------------------------------------------------------------- what a summary says

  /** A summary of `c`: its whole context but the tenant, its start, and what is recorded about it. */
  ghost predicate SummaryOf(s: Span, c: Tree) {
    && s.IsSummary()
    && s.context.traceId == c.span.context.traceId && s.context.spanId == c.span.context.spanId
    && s.context.parentSpanId == c.span.context.parentSpanId && s.context.agentId == c.span.context.agentId
    && s.context.agentVersion == c.span.context.agentVersion && s.context.userId == c.span.context.userId
    && s.context.sessionId == c.span.context.sessionId && s.context.toolName == c.span.context.toolName
    && s.context.tenantId == "" && s.startTime == c.span.startTime && s.endTime.None? && s.events == []
    && s.name == "compressed:" + Decimal(|SpansOf(c)|)
    && Get(s.attributes, "tree.compressed", Null) == Flag(true)
    && Get(s.attributes, "tree.children_count", Null) == Num(|SpansOf(c)| as real)
    && Get(s.attributes, "tree.total_cost", Null) == Num(Cost(c))
    && Get(s.attributes, "tree.error_count", Null) == Num(|Filter(Nodes(c), IsErrorNode)| as real)
    && Get(s.attributes, "tree.summary", Null) == Text("pending")
    && Get(s.attributes, "tree.policy_version", Null) == Text("1")
    && |s.attributes| == 6
  }

  lemma SummaryMeans(c: Tree)
    requires !HasError(c)
    ensures SummaryOf(SummaryTree(c).span, c)
  {
    SizeIsSpanCount(c);
    NoErrorNodes(c);
    SummaryKeys(c);
  }

  lemma NoErrorNodes(c: Tree)
    requires !HasError(c)
    ensures Filter(Nodes(c), IsErrorNode) == []
  {
    ErrorMeans(c);
    FilterNone(Nodes(c), IsErrorNode);
  }

  lemma SummaryKeys(c: Tree)
    ensures |SummaryTree(c).span.attributes| == 6
  {
    var keys := SummaryTree(c).span.attributes.Keys;
    assert keys == {"tree.compressed", "tree.children_count", "tree.total_cost", "tree.error_count", "tree.summary",
                    "tree.policy_version"};
  }

  /** Every summary in the result of compressing a fresh tree is a leaf and the summary of one child of the root that
      is over the limit. */
  lemma SummaryNodesMean(t: Tree, limit: int, r: Tree) returns (c: Tree)
    requires Fresh(t) && r in Nodes(CompressTree(t, limit)) && r.span.IsSummary()
    ensures c in t.children && Over(c, limit) && SummaryOf(r.span, c) && r.children == [] && r.compressed
  {
    var kids, ratio := PruneAll(t.children, limit), ResultRatio(t, limit);
    FreshSettled(t);
    SettledForm(t, limit);
    SetRatioPointwise(kids, ratio);
    assert r in NodesF(SetRatioAll(kids, ratio));
    InForest(SetRatioAll(kids, ratio), r);
    var i :| 0 <= i < |kids| && r in Nodes(SetRatioAll(kids, ratio)[i]);
    c := t.children[i];
    PrunedSummary(c, limit, ratio, r);
  }

  lemma PrunedSummary(c: Tree, limit: int, ratio: real, r: Tree)
    requires Clean(c) && r in Nodes(SetRatio(Prune(c, limit), ratio)) && r.span.IsSummary()
    ensures Over(c, limit) && SummaryOf(r.span, c) && r.children == [] && r.compressed
  {
    if Over(c, limit) {
      var s := SetRatio(SummaryTree(c), ratio);
      assert s.children == [] && NodesF([]) == [];
      assert Nodes(s) == [s];
      SummaryMeans(c);
    } else {
      SetRatioClean(c, ratio);
      assert false;
    }
  }

  // ---------------------------------------------------------------- what is replaced in any tree

  /** In any tree, whatever marks its nodes carry: a node without marks that is over the limit, in a branch without
      errors, lies in a replaced subtree. */
  lemma {:induction false} ReplacedCovers(t: Tree, limit: int, n: Tree)
    requires n in Nodes(t) && Size(n) > limit
    requires !n.span.IsSummary() && !n.compressed && !n.span.IsVirtualRoot()
    ensures exists m :: m in Replaced(t, limit, false) && n in Nodes(m)
    decreases t, 1
  {
    if !Exempt(t) && Size(t) > limit {
      assert t in Replaced(t, limit, false);
    } else {
      assert n in NodesF(t.children);
      ReplacedCoversAll(t.children, limit, n);
    }
  }

  lemma {:induction false} ReplacedCoversAll(ts: seq<Tree>, limit: int, n: Tree)
    requires n in NodesF(ts) && Size(n) > limit
    requires !n.span.IsSummary() && !n.compressed && !n.span.IsVirtualRoot()
    ensures exists m :: m in ReplacedAll(ts, limit, false) && n in Nodes(m)
    decreases ts, 0
  {
    FrontNodes(ts);
    if n in Nodes(ts[0]) {
      ReplacedCovers(ts[0], limit, n);
      var m :| m in Replaced(ts[0], limit, false) && n in Nodes(m);
      assert m in ReplacedAll(ts, limit, false);
    } else {
      ReplacedCoversAll(ts[1..], limit, n);
      var m :| m in ReplacedAll(ts[1..], limit, false) && n in Nodes(m);
      assert m in ReplacedAll(ts, limit, false);
    }
  }

  /** And nothing else is: a replaced subtree is over the limit, without errors, and its root carries no mark. */
  lemma ReplacedUnmarked(ts: seq<Tree>, limit: int, n: Tree)
    requires n in ReplacedBranches(ts, limit)
    ensures Size(n) > limit && !n.span.IsSummary() && !n.compressed && !n.span.IsVirtualRoot()
    ensures forall m :: m in Nodes(n) ==> !m.span.IsError()
  {
    ReplacedHaveNoErrors(ts, limit, n);
    ErrorMeans(n);
  }

  /** The job for a replaced subtree names its trace, its root and its agent. */
  lemma JobsName(ts: seq<Tree>, limit: int, k: nat)
    requires k < |ReplacedBranches(ts, limit)|
    ensures var job, s := JobsFor(ReplacedBranches(ts, limit))[k], ReplacedBranches(ts, limit)[k].span;
            && job.traceId == s.context.traceId && job.nodeId == s.context.spanId
            && (s.context.agentId != "" ==> job.agentId == s.context.agentId)
            && (s.context.agentId == "" ==> job.agentId == "unknown")
  {
  }

  // ---------------------------------------------------------------- when the count finds the root

  lemma {:induction false} SmallerThanTree(t: Tree, n: Tree)
    requires n in NodesF(t.children)
    ensures Size(n) < Size(t)
    decreases t
  {
    InForest(t.children, n);
    var i :| 0 <= i < |t.children| && n in Nodes(t.children[i]);
    var c := t.children[i];
    if n != c {
      SmallerThanTree(c, n);
    }
    assert t.children == t.children[..i] + ([c] + t.children[i + 1..]);
    SizeConcat(t.children[..i], [c] + t.children[i + 1..]);
    assert ([c] + t.children[i + 1..])[1..] == t.children[i + 1..];
  }

  /** The original count is the size of some node, and smaller than that of the tree unless it is the root's. */
  lemma {:induction false} CountOfTaken(t: Tree, i: nat)
    requires i < |Nodes(t)|
    ensures OriginalCount(t, Nodes(t), i) == Size(t) <==>
            forall j :: i <= j < |Nodes(t)| - 1 ==> !TakenForRoot(t, Nodes(t)[j].Id())
    decreases |Nodes(t)| - i
  {
    if i < |Nodes(t)| - 1 {
      var n := NodesF(t.children)[i];
      assert Nodes(t)[i] == n && n in NodesF(t.children);
      SmallerThanTree(t, n);
      CountOfTaken(t, i + 1);
    }
  }

  /** With distinct ids the search for the original count finds the size of the tree exactly when no node below a
      virtual root has an id that contains "virtual_root". */
  lemma CountIsSizeIff(t: Tree)
    requires DistinctIds(t)
    ensures OriginalCount(t, Nodes(t), 0) == Size(t) <==>
            (t.span.IsVirtualRoot() ==>
               forall n :: n in NodesF(t.children) ==> !Contains(n.Id(), "virtual_root"))
  {
    CountOfTaken(t, 0);
    forall j | 0 <= j < |Nodes(t)| - 1
      ensures Nodes(t)[j] == NodesF(t.children)[j]
      ensures TakenForRoot(t, Nodes(t)[j].Id()) <==>
                t.span.IsVirtualRoot() && Contains(Nodes(t)[j].Id(), "virtual_root")
    {
      RootIdFresh(t, NodesF(t.children)[j]);
    }
    if n :| n in NodesF(t.children) && Contains(n.Id(), "virtual_root") {
      var j :| 0 <= j < |NodesF(t.children)| && NodesF(t.children)[j] == n;
      assert Nodes(t)[j] == n;
    }
  }
}
