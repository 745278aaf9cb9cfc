/** The trace-tree endpoint of agent_obs/eval/api.py: build, compress, apply late summaries, embed.
    The account of the resulting tree covers every input span exactly once. */
module Pipeline {
  import opened Basics
  import opened Spans
  import opened Sequences
  import opened TraceTree
  import opened TreeBuilder
  import opened BuilderFacts
  import opened Compression
  import opened CompressionFacts
  import opened Embedding
  import opened SummaryWorker

  // ---------------------------------------------------------------- late summaries (tree_compressor.py, 745-769)

  function LateSpan(s: Span, late: map<string, string>): Span {
    if s.IsSummary() && Get(s.attributes, "tree.summary", Null) == Text("pending") && s.Id() in late
    then s.(attributes := s.attributes["tree.summary" := Text(late[s.Id()])])
    else s
  }

  /** `apply_late_summaries`. */
  function ApplyLate(t: Tree, late: map<string, string>): Tree
    decreases t, 1
  {
    t.(span := LateSpan(t.span, late), children := ApplyLateAll(t.children, late))
  }

  function ApplyLateAll(ts: seq<Tree>, late: map<string, string>): (rs: seq<Tree>)
    ensures |rs| == |ts|
    ensures forall i :: 0 <= i < |ts| ==> rs[i] == ApplyLate(ts[i], late)
    decreases ts, 0
  {
    if ts == [] then [] else [ApplyLate(ts[0], late)] + ApplyLateAll(ts[1..], late)
  }

  function Summarizer(late: map<string, string>): Tree -> Tree {
    (n: Tree) => ApplyLate(n, late)
  }

  lemma {:induction false} LateNodes(t: Tree, late: map<string, string>)
    ensures Nodes(ApplyLate(t, late)) == Map(Summarizer(late), Nodes(t))
    decreases t, 1
  {
    LateNodesAll(t.children, late);
    MapAppend(Summarizer(late), NodesF(t.children), t);
  }

  lemma {:induction false} LateNodesAll(ts: seq<Tree>, late: map<string, string>)
    ensures NodesF(ApplyLateAll(ts, late)) == Map(Summarizer(late), NodesF(ts))
    decreases ts, 0
  {
    if ts != [] {
      LateNodes(ts[0], late);
      LateNodesAll(ts[1..], late);
      assert ApplyLateAll(ts, late)[1..] == ApplyLateAll(ts[1..], late);
      MapConcat(Summarizer(late), Nodes(ts[0]), NodesF(ts[1..]));
    }
  }

  /** `r` differs from `s` in nothing but the attribute "tree.summary", which is the late text when `s` is a pending
      summary for whose id there is one. */
  ghost predicate LateFrom(s: Span, r: Span, late: map<string, string>) {
    && r == s.(attributes := r.attributes)
    && (forall k :: k != "tree.summary" ==>
          (k in r.attributes <==> k in s.attributes) && (k in s.attributes ==> r.attributes[k] == s.attributes[k]))
    && if s.spanType == AgentReasoningCompressed && Get(s.attributes, "tree.summary", Null) == Text("pending")
          && s.context.spanId in late
       then Get(r.attributes, "tree.summary", Null) == Text(late[s.context.spanId])
       else r == s
  }

  lemma LateSpanMeans(s: Span, late: map<string, string>)
    ensures LateFrom(s, LateSpan(s, late), late)
  {
    var r := LateSpan(s, late);
    if s.IsSummary() && Get(s.attributes, "tree.summary", Null) == Text("pending") && s.Id() in late {
      assert r.attributes["tree.summary"] == Text(late[s.Id()]);
    }
  }

  /** In any tree, late summaries change pending summaries with a late text and nothing else. */
  lemma LateMeans(t: Tree, late: map<string, string>, i: nat)
    requires i < |Nodes(t)|
    ensures |Nodes(ApplyLate(t, late))| == |Nodes(t)|
    ensures var n, r := Nodes(t)[i], Nodes(ApplyLate(t, late))[i];
            && LateFrom(n.span, r.span, late)
            && r.compressed == n.compressed && r.ratio == n.ratio && |r.children| == |n.children|
  {
    LateNodes(t, late);
    LateSpanMeans(Nodes(t)[i].span, late);
  }

  /** A span that got a late text other than "pending" is left alone by any later application. */
  lemma LateOnce(s: Span, late: map<string, string>, other: map<string, string>)
    requires s.Id() in late && late[s.Id()] != "pending" && LateSpan(s, late) != s
    ensures LateSpan(LateSpan(s, late), other) == LateSpan(s, late)
  {
  }

  // ---------------------------------------------------------------- the account of a tree

  /** Where a given id occurs in a tree: as a kept node, in an embedded event. Beside that, the number
      of kept nodes, the summary ids in order, and the totals of the recorded `embedded_count` and
      `tree.children_count`. */
  datatype Account = Account(
    kept: nat,
    embedded: nat,
    nodes: nat,
    summaries: seq<string>,
    embeddedCount: real,
    replacedCount: real)
  {
    function Plus(b: Account): Account {
      Account(kept + b.kept, embedded + b.embedded, nodes + b.nodes, summaries + b.summaries,
        embeddedCount + b.embeddedCount, replacedCount + b.replacedCount)
    }
  }

  predicate StandsFor(e: Event, id: string) {
    IsEmbedded(e) && TextOf(Get(e.attributes, "span_id", Null)) == id
  }

  /** How many embedded events stand for `id`. */
  function EmbeddedAs(es: seq<Event>, id: string): nat {
    if es == [] then 0
    else
      var e := es[|es| - 1];
      EmbeddedAs(es[..|es| - 1], id) + One(StandsFor(e, id))
  }

  function OwnAccount(s: Span, id: string): Account {
    var keeps := !s.IsSummary() && !s.IsVirtualRoot();
    Account(
      One(keeps && s.Id() == id),
      EmbeddedAs(s.events, id),
      One(keeps),
      if s.IsSummary() then [s.Id()] else [],
      Money(Get(s.attributes, "embedded_count", Num(0.0))),
      if s.IsSummary() then Money(Get(s.attributes, "tree.children_count", Num(0.0))) else 0.0)
  }

  function AccountOf(t: Tree, id: string): Account
    decreases t, 1
  {
    OwnAccount(t.span, id).Plus(AccountAll(t.children, id))
  }

  function AccountAll(ts: seq<Tree>, id: string): Account
    decreases ts, 0
  {
    if ts == [] then Account(0, 0, 0, [], 0.0, 0.0)
    else AccountOf(ts[0], id).Plus(AccountAll(ts[1..], id))
  }

  // ---------------------------------------------------------------- occurrences of an id

  /** How often `id` occurs in a subtree. */
  function Occurs(t: Tree, id: string): nat
    decreases t, 1
  {
    One(t.Id() == id) + OccursAll(t.children, id)
  }

  function OccursAll(ts: seq<Tree>, id: string): nat
    decreases ts, 0
  {
    if ts == [] then 0 else Occurs(ts[0], id) + OccursAll(ts[1..], id)
  }

  /** How often `id` occurs in a list of spans. */
  function OccursIn(ss: seq<Span>, id: string): nat {
    if ss == [] then 0 else One(ss[0].Id() == id) + OccursIn(ss[1..], id)
  }

  lemma {:induction false} OccursConcat(xs: seq<Span>, ys: seq<Span>, id: string)
    ensures OccursIn(xs + ys, id) == OccursIn(xs, id) + OccursIn(ys, id)
  {
    if xs == [] {
      assert xs + ys == ys;
    } else {
      assert (xs + ys)[1..] == xs[1..] + ys;
      OccursConcat(xs[1..], ys, id);
    }
  }

  lemma {:induction false} OccursInNodes(t: Tree, id: string)
    ensures Occurs(t, id) == OccursIn(SpanSeq(Nodes(t)), id)
    decreases t, 1
  {
    OccursInNodesAll(t.children, id);
    MapAppend(SpanOf, NodesF(t.children), t);
    OccursConcat(SpanSeq(NodesF(t.children)), [t.span], id);
    assert [t.span][1..] == [];
  }

  lemma {:induction false} OccursInNodesAll(ts: seq<Tree>, id: string)
    ensures OccursAll(ts, id) == OccursIn(SpanSeq(NodesF(ts)), id)
    decreases ts, 0
  {
    if ts != [] {
      OccursInNodes(ts[0], id);
      OccursInNodesAll(ts[1..], id);
      MapConcat(SpanOf, Nodes(ts[0]), NodesF(ts[1..]));
      OccursConcat(SpanSeq(Nodes(ts[0])), SpanSeq(NodesF(ts[1..])), id);
    }
  }

  /** `ys` without its `i`-th element. */
  function Without(ys: seq<Span>, i: nat): seq<Span>
    requires i < |ys|
  {
    if i == 0 then ys[1..] else [ys[0]] + Without(ys[1..], i - 1)
  }

  lemma {:induction false} WithoutOne(ys: seq<Span>, i: nat)
    requires i < |ys|
    ensures multiset(ys) == multiset(Without(ys, i)) + multiset{ys[i]}
  {
    assert ys == [ys[0]] + ys[1..];
    if i > 0 {
      WithoutOne(ys[1..], i - 1);
    }
  }

  lemma {:induction false} OccursWithout(ys: seq<Span>, i: nat, id: string)
    requires i < |ys|
    ensures OccursIn(ys, id) == OccursIn(Without(ys, i), id) + One(ys[i].Id() == id)
  {
    if i > 0 {
      OccursWithout(ys[1..], i - 1, id);
      var rest := Without(ys[1..], i - 1);
      assert ([ys[0]] + rest)[1..] == rest;
    }
  }

  lemma SameWithout(xs: seq<Span>, ys: seq<Span>, i: nat)
    requires xs != [] && i < |ys| && ys[i] == xs[0] && multiset(xs) == multiset(ys)
    ensures multiset(xs[1..]) == multiset(Without(ys, i))
  {
    TailBag(xs);
    WithoutOne(ys, i);
  }

  /** Reordering spans keeps the occurrences of ids. */
  lemma {:induction false} OccursPermute(xs: seq<Span>, ys: seq<Span>, id: string)
    requires multiset(xs) == multiset(ys)
    ensures OccursIn(xs, id) == OccursIn(ys, id)
  {
    if xs == [] {
      assert |multiset(ys)| == |ys|;
    } else {
      assert xs[0] in multiset(xs);
      var i :| 0 <= i < |ys| && ys[i] == xs[0];
      OccursWithout(ys, i, id);
      SameWithout(xs, ys, i);
      OccursPermute(xs[1..], Without(ys, i), id);
    }
  }

  // ---------------------------------------------------------------- accounts of branches

  /** A span as it arrives: not a summary, not a virtual root, nothing embedded in it yet. */
  ghost predicate Plain(s: Span) {
    && !s.IsSummary() && !s.IsVirtualRoot()
    && "embedded_count" !in s.attributes
    && forall e :: e in s.events ==> !IsEmbedded(e)
  }

  ghost predicate PlainTree(t: Tree) {
    forall n :: n in Nodes(t) ==> Plain(n.span)
  }

  lemma {:induction false} NothingEmbedded(es: seq<Event>, id: string)
    requires forall e :: e in es ==> !IsEmbedded(e)
    ensures EmbeddedAs(es, id) == 0
  {
    if es != [] {
      NothingEmbedded(es[..|es| - 1], id);
    }
  }

  lemma EmbeddedOneMore(es: seq<Event>, child: Span, id: string)
    ensures EmbeddedAs(es + [EventFor(child)], id) == EmbeddedAs(es, id) + One(child.Id() == id)
  {
    assert (es + [EventFor(child)])[..|es|] == es;
    ExpandRestores(child, child);
  }

  lemma {:induction false} FoldedOccur(es: seq<Event>, children: seq<Span>, id: string)
    ensures EmbeddedAs(es + EventsFor(children), id) == EmbeddedAs(es, id) + OccursIn(children, id)
    decreases children
  {
    if children == [] {
      assert es + EventsFor(children) == es;
    } else {
      var more := es + [EventFor(children[0])];
      FoldedOccur(more, children[1..], id);
      EmbeddedOneMore(es, children[0], id);
      Regroup(es, [EventFor(children[0])], EventsFor(children[1..]));
    }
  }

  /** A kept branch: an id occurs as a node or an embedded event exactly as often as it did in the
      branch, and kept nodes and recorded embedded counts add up to its size. */
  ghost predicate BranchAccount(a: Account, occurs: nat, size: nat) {
    && a.kept + a.embedded == occurs
    && a.summaries == [] && a.replacedCount == 0.0
    && a.nodes as real + a.embeddedCount == size as real
  }

  lemma {:induction false} LeavesAreNodes(ts: seq<Tree>)
    requires forall c :: c in ts ==> c.children == []
    ensures NodesF(ts) == ts
  {
    if ts != [] {
      LeavesAreNodes(ts[1..]);
      assert ts[0] in ts;
      assert Nodes(ts[0]) == [ts[0]];
    }
  }

  lemma FoldedChildrenOccur(t: Tree, limit: int, id: string)
    requires Embeddable(t, limit)
    ensures OccursIn(FoldOrder(t.children), id) == OccursAll(t.children, id)
    ensures SizeF(t.children) == |t.children|
  {
    SortPermutes(SpanSeq(t.children), StartOf);
    OccursPermute(FoldOrder(t.children), SpanSeq(t.children), id);
    LeavesAreNodes(t.children);
    OccursInNodesAll(t.children, id);
    SizeIsNodeCountF(t.children);
  }

  lemma FoldedSpanAccount(s: Span, children: seq<Tree>, id: string)
    requires Plain(s)
    ensures OwnAccount(FoldSpan(s, children), id) ==
            Account(One(s.Id() == id), OccursIn(FoldOrder(children), id), 1, [], |children| as real, 0.0)
  {
    NothingEmbedded(s.events, id);
    FoldedOccur(s.events, FoldOrder(children), id);
    FoldedMarks(s, children);
    KeptSpanAccount(FoldSpan(s, children), id);
  }

  lemma KeptSpanAccount(s: Span, id: string)
    requires !s.IsSummary() && !s.IsVirtualRoot()
    ensures OwnAccount(s, id) ==
            Account(One(s.Id() == id), EmbeddedAs(s.events, id), 1, [],
              Money(Get(s.attributes, "embedded_count", Num(0.0))), 0.0)
  {
  }

  lemma FoldedMarks(s: Span, children: seq<Tree>)
    ensures var f := FoldSpan(s, children);
            && f.Id() == s.Id() && f.IsSummary() == s.IsSummary() && f.IsVirtualRoot() == s.IsVirtualRoot()
            && f.events == s.events + EventsFor(FoldOrder(children))
            && Money(Get(f.attributes, "embedded_count", Num(0.0))) == |children| as real
  {
  }

  lemma {:induction false} KeptBranch(t: Tree, limit: int, id: string)
    requires PlainTree(t)
    ensures BranchAccount(AccountOf(EmbedNode(t, limit), id), Occurs(t, id), Size(t))
    decreases t, 1
  {
    assert t in Nodes(t);
    if Embeddable(t, limit) {
      FoldedSpanAccount(t.span, t.children, id);
      FoldedChildrenOccur(t, limit, id);
      assert EmbedNode(t, limit).children == [];
    } else {
      KeptBranches(t.children, limit, id);
      NothingEmbedded(t.span.events, id);
    }
  }

  lemma {:induction false} KeptBranches(ts: seq<Tree>, limit: int, id: string)
    requires forall n :: n in NodesF(ts) ==> Plain(n.span)
    ensures BranchAccount(AccountAll(EmbedAll(ts, limit), id), OccursAll(ts, id), SizeF(ts))
    decreases ts, 0
  {
    if ts != [] {
      KeptBranch(ts[0], limit, id);
      KeptBranches(ts[1..], limit, id);
      EmbedFront(ts, limit, id);
      JoinBranches(AccountOf(EmbedNode(ts[0], limit), id), Occurs(ts[0], id), Size(ts[0]),
        AccountAll(EmbedAll(ts[1..], limit), id), OccursAll(ts[1..], id), SizeF(ts[1..]));
    }
  }

  lemma EmbedFront(ts: seq<Tree>, limit: int, id: string)
    requires ts != []
    ensures AccountAll(EmbedAll(ts, limit), id) ==
            AccountOf(EmbedNode(ts[0], limit), id).Plus(AccountAll(EmbedAll(ts[1..], limit), id))
  {
    assert EmbedAll(ts, limit)[1..] == EmbedAll(ts[1..], limit);
  }

  lemma JoinBranches(a: Account, aOccurs: nat, aSize: nat, b: Account, bOccurs: nat, bSize: nat)
    requires BranchAccount(a, aOccurs, aSize) && BranchAccount(b, bOccurs, bSize)
    ensures BranchAccount(a.Plus(b), aOccurs + bOccurs, aSize + bSize)
  {
  }

  // ---------------------------------------------------------------- the view that is served

  /** Lines 285-297 of the endpoint, after the tree is built. */
  ghost function ViewOf(t: Tree, limit: int, late: map<string, string>, embedLimit: int): Tree {
    EmbedTree(ApplyLate(CompressTree(t, limit), late), embedLimit)
  }

  lemma {:induction false} LateKeepsPlain(t: Tree, late: map<string, string>)
    requires PlainTree(t)
    ensures ApplyLate(t, late) == t
    decreases t, 1
  {
    assert t in Nodes(t);
    LateKeepsPlainAll(t.children, late);
  }

  lemma {:induction false} LateKeepsPlainAll(ts: seq<Tree>, late: map<string, string>)
    requires forall n :: n in NodesF(ts) ==> Plain(n.span)
    ensures ApplyLateAll(ts, late) == ts
    decreases ts, 0
  {
    if ts != [] {
      LateKeepsPlain(ts[0], late);
      LateKeepsPlainAll(ts[1..], late);
    }
  }

  lemma {:induction false} RatioKeepsPlain(t: Tree, ratio: real)
    requires PlainTree(t)
    ensures PlainTree(SetRatio(t, ratio))
    decreases t, 1
  {
    assert t in Nodes(t);
    RatioKeepsPlainAll(t.children, ratio);
  }

  lemma {:induction false} RatioKeepsPlainAll(ts: seq<Tree>, ratio: real)
    requires forall n :: n in NodesF(ts) ==> Plain(n.span)
    ensures forall n :: n in NodesF(SetRatioAll(ts, ratio)) ==> Plain(n.span)
    decreases ts, 0
  {
    if ts != [] {
      RatioKeepsPlain(ts[0], ratio);
      RatioKeepsPlainAll(ts[1..], ratio);
      assert SetRatioAll(ts, ratio)[1..] == SetRatioAll(ts[1..], ratio);
    }
  }

  /** What becomes of one child of the root. */
  ghost function Served(c: Tree, limit: int, ratio: real, late: map<string, string>, embedLimit: int): Tree {
    EmbedNode(ApplyLate(SetRatio(Prune(c, limit), ratio), late), embedLimit)
  }

  lemma ServedSummary(c: Tree, limit: int, ratio: real, late: map<string, string>, embedLimit: int, id: string)
    requires Over(c, limit)
    ensures AccountOf(Served(c, limit, ratio, late, embedLimit), id) == Account(0, 0, 0, [c.Id()], 0.0, Size(c) as real)
  {
    var s := MakeSummary(c, Size(c), Cost(c));
    var served := Served(c, limit, ratio, late, embedLimit);
    assert served.children == [] && served.span == LateSpan(s, late);
    assert OwnAccount(served.span, id) == Account(0, 0, 0, [c.Id()], 0.0, Size(c) as real);
  }

  lemma {:induction false} RatioKeepsOccurs(t: Tree, ratio: real, id: string)
    ensures Occurs(SetRatio(t, ratio), id) == Occurs(t, id)
    decreases t, 1
  {
    RatioKeepsOccursAll(t.children, ratio, id);
  }

  lemma {:induction false} RatioKeepsOccursAll(ts: seq<Tree>, ratio: real, id: string)
    ensures OccursAll(SetRatioAll(ts, ratio), id) == OccursAll(ts, id)
    decreases ts, 0
  {
    if ts != [] {
      RatioKeepsOccurs(ts[0], ratio, id);
      RatioKeepsOccursAll(ts[1..], ratio, id);
      assert SetRatioAll(ts, ratio)[1..] == SetRatioAll(ts[1..], ratio);
    }
  }

  lemma ServedBranch(c: Tree, limit: int, ratio: real, late: map<string, string>, embedLimit: int, id: string)
    requires PlainTree(c) && !Over(c, limit)
    ensures BranchAccount(AccountOf(Served(c, limit, ratio, late, embedLimit), id), Occurs(c, id), Size(c))
  {
    RatioKeepsPlain(c, ratio);
    RatioKeepsOccurs(c, ratio, id);
    SetRatioViews(c, ratio);
    LateKeepsPlain(SetRatio(c, ratio), late);
    KeptBranch(SetRatio(c, ratio), embedLimit, id);
  }

  ghost function ServedAll(ts: seq<Tree>, limit: int, ratio: real, late: map<string, string>, embedLimit: int)
    : (rs: seq<Tree>)
    ensures |rs| == |ts|
    ensures forall i :: 0 <= i < |ts| ==> rs[i] == Served(ts[i], limit, ratio, late, embedLimit)
  {
    seq(|ts|, i requires 0 <= i < |ts| => Served(ts[i], limit, ratio, late, embedLimit))
  }

  lemma ViewChildren(t: Tree, limit: int, late: map<string, string>, embedLimit: int)
    requires Settled(t.children)
    ensures ViewOf(t, limit, late, embedLimit).children ==
            ServedAll(t.children, limit, ResultRatio(t, limit), late, embedLimit)
    ensures ViewOf(t, limit, late, embedLimit).span == LateSpan(t.span, late)
  {
    SettledForm(t, limit);
    var kids := PruneAll(t.children, limit);
    var ratio := ResultRatio(t, limit);
    assert CompressTree(t, limit).children == SetRatioAll(kids, ratio);
    PassesPointwise(kids, ratio, late, embedLimit);
  }

  /** The passes after the rebuild treat the children of the root one by one. */
  lemma PassesPointwise(kids: seq<Tree>, ratio: real, late: map<string, string>, embedLimit: int)
    ensures var rs := EmbedAll(ApplyLateAll(SetRatioAll(kids, ratio), late), embedLimit);
            forall i :: 0 <= i < |kids| ==> rs[i] == EmbedNode(ApplyLate(SetRatio(kids[i], ratio), late), embedLimit)
  {
    SetRatioPointwise(kids, ratio);
  }

  function TreeIds(ts: seq<Tree>): seq<string> {
    if ts == [] then [] else [ts[0].Id()] + TreeIds(ts[1..])
  }

  /** The summaries stand for the trees `over`; with what these hold, the account covers `occurs`
      occurrences of the id and `size` spans. */
  ghost predicate Covers(a: Account, over: seq<Tree>, id: string, occurs: nat, size: nat) {
    && a.kept + a.embedded + OccursAll(over, id) == occurs
    && a.summaries == TreeIds(over)
    && a.replacedCount == SizeF(over) as real
    && a.nodes as real + a.embeddedCount + a.replacedCount == size as real
  }

  lemma AddSummary(c: Tree, a: Account, over: seq<Tree>, id: string, occurs: nat, size: nat)
    requires Covers(a, over, id, occurs, size)
    ensures Covers(Account(0, 0, 0, [c.Id()], 0.0, Size(c) as real).Plus(a), [c] + over, id,
                   Occurs(c, id) + occurs, Size(c) + size)
  {
    assert ([c] + over)[1..] == over;
  }

  lemma AddBranch(b: Account, own: nat, ownSize: nat, a: Account, over: seq<Tree>, id: string, occurs: nat, size: nat)
    requires BranchAccount(b, own, ownSize) && Covers(a, over, id, occurs, size)
    ensures Covers(b.Plus(a), over, id, own + occurs, ownSize + size)
  {
  }

  lemma {:induction false} ServedAccount(ts: seq<Tree>, limit: int, ratio: real, late: map<string, string>,
                                         embedLimit: int, id: string)
    requires forall c :: c in ts ==> PlainTree(c)
    ensures Covers(AccountAll(ServedAll(ts, limit, ratio, late, embedLimit), id), OverOnes(ts, limit), id,
                   OccursAll(ts, id), SizeF(ts))
  {
    var served := ServedAll(ts, limit, ratio, late, embedLimit);
    if ts != [] {
      var c := ts[0];
      var rest := AccountAll(ServedAll(ts[1..], limit, ratio, late, embedLimit), id);
      ServedAccount(ts[1..], limit, ratio, late, embedLimit, id);
      assert served[1..] == ServedAll(ts[1..], limit, ratio, late, embedLimit);
      assert AccountAll(served, id) == AccountOf(served[0], id).Plus(rest);
      if Over(c, limit) {
        ServedSummary(c, limit, ratio, late, embedLimit, id);
        AddSummary(c, rest, OverOnes(ts[1..], limit), id, OccursAll(ts[1..], id), SizeF(ts[1..]));
      } else {
        ServedBranch(c, limit, ratio, late, embedLimit, id);
        AddBranch(AccountOf(served[0], id), Occurs(c, id), Size(c), rest, OverOnes(ts[1..], limit), id,
          OccursAll(ts[1..], id), SizeF(ts[1..]));
      }
      OverOnesStep(ts, limit);
    }
  }

  lemma OverOnesStep(ts: seq<Tree>, limit: int)
    requires ts != []
    ensures OverOnes(ts, limit) ==
            if Over(ts[0], limit) then [ts[0]] + OverOnes(ts[1..], limit) else OverOnes(ts[1..], limit)
  {
  }

  // ---------------------------------------------------------------- end to end

  /** Lists as the endpoint receives them. */
  ghost predicate PlainSpans(spans: seq<Span>) {
    forall s :: s in spans ==> Plain(s)
  }

  lemma PlainSubtree(spans: seq<Span>, s: Span)
    requires Ready(spans) && PlainSpans(spans) && s in spans
    ensures PlainTree(BuildTree(spans, s)) && Clean(BuildTree(spans, s))
  {
    forall n | n in Nodes(BuildTree(spans, s))
      ensures Plain(n.span) && !Exempt(n)
    {
      SubtreesAreBuilt(spans, s, n);
    }
  }

  /** The branches under the root of a built tree are the trees built for their own spans. */
  lemma RootBranches(spans: seq<Span>, virtualId: string, c: Tree)
    requires spans != [] && Ready(spans) && PlainSpans(spans)
    requires c in TreeOf(spans, virtualId).children
    ensures c.span in spans && c == BuildTree(spans, c.span)
    ensures PlainTree(c) && Clean(c)
  {
    var roots := RootTrees(spans, |spans|);
    if UsesOwnRoot(roots) {
      RootMembers(spans, roots[0]);
      ChildrenAreBuilt(spans, roots[0].span, c);
    } else {
      RootMembers(spans, c);
    }
    PlainSubtree(spans, c.span);
  }

  /** A built tree is fresh, so everything proved about compressing fresh trees applies to it. */
  lemma BuiltIsFresh(spans: seq<Span>, virtualId: string)
    requires spans != [] && Ready(spans) && PlainSpans(spans)
    ensures Fresh(TreeOf(spans, virtualId))
  {
    var t := TreeOf(spans, virtualId);
    var roots := RootTrees(spans, |spans|);
    forall c | c in t.children
      ensures Clean(c)
    {
      RootBranches(spans, virtualId, c);
    }
    if UsesOwnRoot(roots) {
      RootMembers(spans, roots[0]);
    }
  }

  /** The listed span with a given id. */
  ghost function SpanWith(spans: seq<Span>, id: string): (s: Span)
    requires id in Ids(spans)
    ensures s in spans && s.Id() == id
  {
    var s :| s in spans && s.Id() == id; s
  }

  /** How often `id` occurs in the subtrees that the summaries stand for, as the summary worker
      recovers them from the list. */
  ghost function Recovered(spans: seq<Span>, summaries: seq<string>, id: string): nat
    requires Ready(spans) && forall x :: x in summaries ==> x in Ids(spans)
  {
    if summaries == [] then 0
    else Occurs(BuildTree(spans, SpanWith(spans, summaries[0])), id) + Recovered(spans, summaries[1..], id)
  }

  /** The worker's answer for a listed span is the subtree of that span. */
  lemma WorkerRecovers(spans: seq<Span>, s: Span, found: seq<Span>, id: string)
    requires Ready(spans) && NoSummaries(spans) && s in spans && Finds(spans, s, found)
    ensures OccursIn(found, id) == Occurs(BuildTree(spans, s), id)
    ensures |found| == Size(BuildTree(spans, s))
  {
    var t := BuildTree(spans, s);
    FoundIsSubtree(spans, s, found);
    SpansAreNodeSpans(t);
    OccursPermute(found, SpanSeq(Nodes(t)), id);
    OccursInNodes(t, id);
    SizeIsSpanCount(t);
    assert |multiset(found)| == |found|;
  }

  /** For every summary of the served tree, the worker finds exactly the replaced spans, as many as the summary
      records. */
  lemma SummaryMatchesWorker(spans: seq<Span>, virtualId: string, limit: int, c: Tree, found: seq<Span>)
    requires spans != [] && Ready(spans) && PlainSpans(spans)
    requires c in TreeOf(spans, virtualId).children && Over(c, limit)
    requires Finds(spans, c.span, found)
    ensures multiset(found) == SpansOf(c)
    ensures SummaryTree(c).span.attributes["tree.children_count"] == Num(|found| as real)
  {
    RootBranches(spans, virtualId, c);
    FoundIsSubtree(spans, c.span, found);
    WorkerRecovers(spans, c.span, found, c.Id());
    SummaryCount(c);
  }

  lemma SummaryCount(c: Tree)
    ensures SummaryTree(c).span.attributes["tree.children_count"] == Num(Size(c) as real)
  {
  }

  lemma {:induction false} RecoveredAreReplaced(spans: seq<Span>, over: seq<Tree>, id: string)
    requires Ready(spans)
    requires forall c :: c in over ==> c.span in spans && c == BuildTree(spans, c.span)
    ensures forall x :: x in TreeIds(over) ==> x in Ids(spans)
    ensures Recovered(spans, TreeIds(over), id) == OccursAll(over, id)
  {
    if over != [] {
      var c := over[0];
      RecoveredAreReplaced(spans, over[1..], id);
      assert c.Id() in Ids(spans);
      SameIdSameSpan(spans, SpanWith(spans, c.Id()), c.span);
      assert TreeIds(over)[1..] == TreeIds(over[1..]);
    }
  }

  lemma {:induction false} OccursOnce(spans: seq<Span>, id: string)
    requires DistinctSpanIds(spans)
    ensures OccursIn(spans, id) == One(id in Ids(spans))
  {
    if spans != [] {
      OccursOnce(spans[1..], id);
      assert spans == [spans[0]] + spans[1..];
      if id in Ids(spans[1..]) {
        var s :| s in spans[1..] && s.Id() == id;
        var i :| 0 <= i < |spans[1..]| && spans[1..][i] == s;
        assert spans[i + 1].Id() == id;
      }
    }
  }

  lemma ForestOccurs(spans: seq<Span>, id: string)
    requires Ready(spans)
    ensures OccursAll(RootTrees(spans, |spans|), id) == One(id in Ids(spans))
    ensures SizeF(RootTrees(spans, |spans|)) == |spans|
  {
    var roots := RootTrees(spans, |spans|);
    ForestHoldsEachSpanOnce(spans);
    SpansAreNodeSpansF(roots);
    OccursPermute(SpanSeq(NodesF(roots)), spans, id);
    OccursInNodesAll(roots, id);
    OccursOnce(spans, id);
    SizeIsSpanCountF(roots);
  }

  /** The root's share: a listed span that serves as root is kept, a virtual root counts for nothing. */
  lemma RootShare(spans: seq<Span>, virtualId: string, late: map<string, string>, id: string)
    requires spans != [] && Ready(spans) && PlainSpans(spans)
    ensures var t := TreeOf(spans, virtualId);
            var a := OwnAccount(LateSpan(t.span, late), id);
            && a.embedded == 0 && a.summaries == [] && a.embeddedCount == 0.0 && a.replacedCount == 0.0
            && a.kept + OccursAll(t.children, id) == One(id in Ids(spans))
            && a.nodes + SizeF(t.children) == |spans|
  {
    var t := TreeOf(spans, virtualId);
    var roots := RootTrees(spans, |spans|);
    ForestOccurs(spans, id);
    if UsesOwnRoot(roots) {
      RootMembers(spans, t);
      OwnRootShare(t, late, id);
      assert roots == [t] && [t][1..] == [];
    } else {
      VirtualRootShare(spans, virtualId, late, id);
    }
  }

  lemma OwnRootShare(t: Tree, late: map<string, string>, id: string)
    requires Plain(t.span)
    ensures OwnAccount(LateSpan(t.span, late), id) == Account(One(t.Id() == id), 0, 1, [], 0.0, 0.0)
  {
    NothingEmbedded(t.span.events, id);
  }

  lemma VirtualRootShare(spans: seq<Span>, virtualId: string, late: map<string, string>, id: string)
    requires spans != []
    ensures OwnAccount(LateSpan(VirtualRoot(spans, virtualId), late), id) == Account(0, 0, 0, [], 0.0, 0.0)
  {
  }

  lemma ViewAccount(t: Tree, limit: int, late: map<string, string>, embedLimit: int, id: string) returns (rest: Account)
    requires Settled(t.children) && forall c :: c in t.children ==> PlainTree(c)
    ensures AccountOf(ViewOf(t, limit, late, embedLimit), id) == OwnAccount(LateSpan(t.span, late), id).Plus(rest)
    ensures Covers(rest, OverOnes(t.children, limit), id, OccursAll(t.children, id), SizeF(t.children))
  {
    ViewChildren(t, limit, late, embedLimit);
    ServedAccount(t.children, limit, ResultRatio(t, limit), late, embedLimit, id);
    rest := AccountAll(ViewOf(t, limit, late, embedLimit).children, id);
  }

  /** For every accepted list, the served tree accounts for every listed id exactly once, as a kept
      node, as an embedded event or in the subtree of one summary, and for no other id; the numbers it
      records add up to the number of listed spans; and no summary has been folded away. */
  lemma EverySpanAccounted(spans: seq<Span>, virtualId: string, limit: int, late: map<string, string>,
                           embedLimit: int, id: string)
    requires spans != [] && Ready(spans) && PlainSpans(spans)
    ensures var t := TreeOf(spans, virtualId);
            var a := AccountOf(ViewOf(t, limit, late, embedLimit), id);
            && a.summaries == TreeIds(OverOnes(t.children, limit))
            && (forall x :: x in a.summaries ==> x in Ids(spans))
            && a.kept + a.embedded + Recovered(spans, a.summaries, id) == One(id in Ids(spans))
            && a.replacedCount == SizeF(OverOnes(t.children, limit)) as real
            && a.nodes as real + a.embeddedCount + a.replacedCount == |spans| as real
  {
    var t := TreeOf(spans, virtualId);
    var over := OverOnes(t.children, limit);
    BranchesReady(spans, virtualId, limit);
    RootShare(spans, virtualId, late, id);
    RecoveredAreReplaced(spans, over, id);
    var rest := ViewAccount(t, limit, late, embedLimit, id);
    TotalUp(OwnAccount(LateSpan(t.span, late), id), rest, over, id, OccursAll(t.children, id), SizeF(t.children));
  }

  lemma BranchesReady(spans: seq<Span>, virtualId: string, limit: int)
    requires spans != [] && Ready(spans) && PlainSpans(spans)
    ensures var t := TreeOf(spans, virtualId);
            && Settled(t.children) && (forall c :: c in t.children ==> PlainTree(c))
            && forall c :: c in OverOnes(t.children, limit) ==> c.span in spans && c == BuildTree(spans, c.span)
  {
    var t := TreeOf(spans, virtualId);
    forall c | c in t.children
      ensures PlainTree(c) && Clean(c) && c.span in spans && c == BuildTree(spans, c.span)
    {
      RootBranches(spans, virtualId, c);
    }
  }

  lemma TotalUp(own: Account, rest: Account, over: seq<Tree>, id: string, occurs: nat, size: nat)
    requires own.embedded == 0 && own.summaries == [] && own.embeddedCount == 0.0 && own.replacedCount == 0.0
    requires Covers(rest, over, id, occurs, size)
    ensures Covers(own.Plus(rest), over, id, own.kept + occurs, own.nodes + size)
  {
  }

  /** Every job that compression asks for names a listed span from which the worker's search ends, and what it
      finds is exactly the subtree that was replaced, as many spans as the summary under that id records. */
  lemma JobsFindSubtrees(spans: seq<Span>, virtualId: string, limit: int, k: nat)
    requires spans != [] && Ready(spans) && PlainSpans(spans)
    requires k < |JobsFor(ReplacedBranches(TreeOf(spans, virtualId).children, limit))|
    ensures var c := ReplacedBranches(TreeOf(spans, virtualId).children, limit)[k];
            var job := JobsFor(ReplacedBranches(TreeOf(spans, virtualId).children, limit))[k];
            var s := LastWith(spans, job.nodeId, |spans|);
            && s.Some? && Searchable(spans, s.value) && SummaryTree(c).Id() == s.value.Id()
            && forall found :: Finds(spans, s.value, found) ==>
                 && multiset(found) == SpansOf(c)
                 && SummaryTree(c).span.attributes["tree.children_count"] == Num(|found| as real)
  {
    var t := TreeOf(spans, virtualId);
    BranchesReady(spans, virtualId, limit);
    PruneBranches(t.children, limit);
    var c := ReplacedBranches(t.children, limit)[k];
    assert c in OverOnes(t.children, limit);
    LastIsOnly(spans, c.span);
    SearchEnds(spans, c.span);
    forall found | Finds(spans, c.span, found)
      ensures multiset(found) == SpansOf(c)
      ensures SummaryTree(c).span.attributes["tree.children_count"] == Num(|found| as real)
    {
      SummaryMatchesWorker(spans, virtualId, limit, c, found);
    }
  }

  // ---------------------------------------------------------------- a built tree that a second pass changes

  /** A chain: every span but the first is the child of the one before it, and the first is the root. */
  ghost predicate IsChain(spans: seq<Span>) {
    && DistinctSpanIds(spans)
    && (forall i :: 0 <= i < |spans| ==> spans[i].Id() != "")
    && (forall i, j :: 0 <= i < |spans| && 0 <= j < |spans| ==> (IsChild(spans[j], spans[i]) <==> j == i + 1))
    && forall i :: 0 <= i < |spans| ==> (IsCandidate(spans, spans[i]) <==> i == 0)
  }

  lemma {:induction false} ChainRooted(spans: seq<Span>, i: nat)
    requires IsChain(spans) && i < |spans|
    ensures Rooted(spans, spans[i], i)
  {
    if i > 0 {
      ChainRooted(spans, i - 1);
      assert IsChild(spans[i], spans[i - 1]);
    }
  }

  lemma ChainReady(spans: seq<Span>)
    requires IsChain(spans)
    ensures Ready(spans)
  {
    forall s | s in spans
      ensures Grounded(spans, s)
    {
      var i :| 0 <= i < |spans| && spans[i] == s;
      ChainRooted(spans, i);
    }
  }

  /** Under each span of a chain hangs the tree of the next one. */
  lemma ChainLink(spans: seq<Span>, i: nat)
    requires IsChain(spans) && Ready(spans) && i < |spans|
    ensures BuildTree(spans, spans[i]).children ==
            if i + 1 < |spans| then [BuildTree(spans, spans[i + 1])] else []
  {
    OnlyChild(spans, spans[i], i + 1, |spans|);
    var ts := ChildTrees(spans, spans[i], |spans|);
    if i + 1 < |spans| {
      assert ts[1..] == [];
    }
  }

  /** When the `k`-th span is the only child of `p`, its tree is the only one under `p`. */
  lemma {:induction false} OnlyChild(spans: seq<Span>, p: Span, k: nat, n: nat)
    requires Ready(spans) && p in spans && n <= |spans|
    requires forall j :: 0 <= j < |spans| ==> (IsChild(spans[j], p) <==> j == k)
    ensures ChildTrees(spans, p, n) == if k < n then [BuildTree(spans, spans[k])] else []
  {
    if n > 0 {
      OnlyChild(spans, p, k, n - 1);
    }
  }

  /** The builder makes of a chain of four spans, headed by an `agent.loop`, a tree on which `embed` is not
      idempotent. */
  lemma ChainEmbedsTwice(spans: seq<Span>, virtualId: string, limit: int)
    requires IsChain(spans) && |spans| == 4 && spans[0].spanType == AgentLoop && limit >= 1
    ensures Ready(spans)
    ensures var t := TreeOf(spans, virtualId); EmbedTree(EmbedTree(t, limit), limit) != EmbedTree(t, limit)
  {
    ChainReady(spans);
    assert SoleCandidate(spans, spans[0]);
    OneRootTree(spans, spans[0]);
    var t := TreeOf(spans, virtualId);
    assert t == BuildTree(spans, spans[0]);
    ChainLink(spans, 0);
    ChainLink(spans, 1);
    ChainLink(spans, 2);
    ChainLink(spans, 3);
    ThreeBelow(t, limit);
  }

  /** A root over a node over a parent of one leaf. */
  lemma ThreeBelow(t: Tree, limit: int)
    requires |t.children| == 1 && |t.children[0].children| == 1 && |t.children[0].children[0].children| == 1
    requires t.children[0].children[0].children[0].children == [] && limit >= 1
    ensures EmbedTree(EmbedTree(t, limit), limit) != EmbedTree(t, limit)
  {
    var mid := t.children[0];
    var low := mid.children[0];
    assert low in mid.children && low.children != [];
    assert Embeddable(low, limit) && FoldsNext(mid, limit);
    InForest(t.children, mid);
    EmbedIdempotentIff(t, limit);
  }

  /** Four spans that form such a chain. */
  function FourSpans(s: Span): seq<Span> {
    [
      s.(spanType := AgentLoop, context := s.context.(spanId := "a", parentSpanId := None)),
      s.(context := s.context.(spanId := "b", parentSpanId := Some("a"))),
      s.(context := s.context.(spanId := "c", parentSpanId := Some("b"))),
      s.(context := s.context.(spanId := "d", parentSpanId := Some("c")))
    ]
  }

  /** Every span but the first points to the one before it. */
  ghost predicate Linked(spans: seq<Span>) {
    && (spans != [] ==> spans[0].context.parentSpanId.None?)
    && forall i, j :: 0 <= i && j == i + 1 < |spans| ==> IsChild(spans[j], spans[i])
  }

  lemma LinkedParent(spans: seq<Span>, i: nat, j: nat)
    requires DistinctSpanIds(spans) && Linked(spans) && i < |spans| && j < |spans|
    ensures IsChild(spans[j], spans[i]) <==> j == i + 1
  {
    if j > 0 {
      assert IsChild(spans[j], spans[j - 1]);
      if i < j - 1 {
        assert spans[i].Id() != spans[j - 1].Id();
      } else if j - 1 < i {
        assert spans[j - 1].Id() != spans[i].Id();
      }
    }
  }

  /** Spans linked one after the other by their parent pointers form a chain. */
  lemma LinkedChain(spans: seq<Span>)
    requires DistinctSpanIds(spans) && Linked(spans) && forall i :: 0 <= i < |spans| ==> spans[i].Id() != ""
    ensures IsChain(spans)
  {
    forall i | 0 <= i < |spans|
      ensures IsCandidate(spans, spans[i]) <==> i == 0
    {
      if i > 0 {
        assert IsChild(spans[i], spans[i - 1]);
        assert spans[i - 1] in spans && spans[i - 1].Id() in Ids(spans);
      }
    }
    forall i, j | 0 <= i < |spans| && 0 <= j < |spans|
      ensures IsChild(spans[j], spans[i]) <==> j == i + 1
    {
      LinkedParent(spans, i, j);
    }
  }

  lemma FourSpansChain(s: Span)
    ensures IsChain(FourSpans(s))
  {
    var spans := FourSpans(s);
    assert "a"[0] != "b"[0] && "a"[0] != "c"[0] && "a"[0] != "d"[0];
    assert "b"[0] != "c"[0] && "b"[0] != "d"[0] && "c"[0] != "d"[0];
    LinkedChain(spans);
  }

  /** `embed` is not idempotent on a tree that the builder returns. */
  lemma EmbedNotIdempotent(s: Span, virtualId: string, limit: int)
    requires limit >= 1
    ensures Ready(FourSpans(s))
    ensures var t := TreeOf(FourSpans(s), virtualId); EmbedTree(EmbedTree(t, limit), limit) != EmbedTree(t, limit)
  {
    FourSpansChain(s);
    ChainEmbedsTwice(FourSpans(s), virtualId, limit);
  }

  // ---------------------------------------------------------------- a built tree with a wrong ratio

  /** Two linked spans, headed by an `agent.loop`, and a limit that keeps both: nothing is replaced, the share of nodes
      gone is 0, and the stored ratio is 1/2. */
  lemma ChainRatioWrong(spans: seq<Span>, virtualId: string, limit: int)
    requires IsChain(spans) && |spans| == 2 && spans[0].spanType == AgentLoop && limit >= 1
    requires PlainSpans(spans) && virtualId !in Ids(spans)
    ensures Ready(spans)
    ensures var t := TreeOf(spans, virtualId);
            && ReplacedBranches(t.children, limit) == []
            && CompressTree(t, limit).ratio == 0.5 && ShareGone(t, CompressTree(t, limit)) == 0.0
  {
    ChainReady(spans);
    assert SoleCandidate(spans, spans[0]);
    OneRootTree(spans, spans[0]);
    ChainLink(spans, 0);
    ChainLink(spans, 1);
    var t := TreeOf(spans, virtualId);
    assert t.children == [BuildTree(spans, spans[1])];
    BuiltIsFresh(spans, virtualId);
    TreeIdsDistinct(spans, virtualId);
    assert t.span in spans && !t.span.IsVirtualRoot();
    PairRatio(t, limit);
  }

  lemma PairRatio(t: Tree, limit: int)
    requires Fresh(t) && DistinctIds(t) && !t.span.IsVirtualRoot()
    requires |t.children| == 1 && t.children[0].children == [] && limit >= 1
    ensures ReplacedBranches(t.children, limit) == []
    ensures CompressTree(t, limit).ratio == 0.5 && ShareGone(t, CompressTree(t, limit)) == 0.0
  {
    var c := t.children[0];
    assert c in t.children && SizeF(c.children) == 0;
    assert Size(c) == 1 && !Over(c, limit);
    assert t.children == [c] && [c][1..] == [];
    assert Size(t) == 2;
    PruneBranches(t.children, limit);
    KeptAfter(t, limit);
    RatioAsShare(t, limit);
    KeptFront(c, []);
    CleanAllKept(c);
    assert PruneAll(t.children, limit) == [c] + [];
    assert Kept([]) == 0;
  }

  function TwoSpans(s: Span): seq<Span> {
    [
      s.(spanType := AgentLoop, context := s.context.(spanId := "a", parentSpanId := None)),
      s.(context := s.context.(spanId := "b", parentSpanId := Some("a")))
    ]
  }

  /** Such a list exists for every plain span. */
  lemma RatioNotShare(s: Span, virtualId: string, limit: int)
    requires Plain(s) && virtualId != "a" && virtualId != "b" && limit >= 1
    ensures Ready(TwoSpans(s))
    ensures var t := TreeOf(TwoSpans(s), virtualId);
            CompressTree(t, limit).ratio == 0.5 && ShareGone(t, CompressTree(t, limit)) == 0.0
  {
    assert "a"[0] != "b"[0];
    LinkedChain(TwoSpans(s));
    ChainRatioWrong(TwoSpans(s), virtualId, limit);
  }

  // ---------------------------------------------------------------- what is served

  /** Spans without summaries keep their trees under late summaries. */
  lemma {:induction false} LateKeepsClean(t: Tree, late: map<string, string>)
    requires Clean(t)
    ensures ApplyLate(t, late) == t
    decreases t, 1
  {
    assert t in Nodes(t);
    LateKeepsCleanAll(t.children, late);
  }

  lemma {:induction false} LateKeepsCleanAll(ts: seq<Tree>, late: map<string, string>)
    requires forall n :: n in NodesF(ts) ==> !Exempt(n)
    ensures ApplyLateAll(ts, late) == ts
    decreases ts, 0
  {
    if ts != [] {
      FrontNodes(ts);
      LateKeepsClean(ts[0], late);
      LateKeepsCleanAll(ts[1..], late);
    }
  }

  /** `r` is what the view shows for the child `c` of the root: over the limit, a leaf that is the summary of `c` with
      the late text if there is one; otherwise the branch with the tree's ratio, embedded. */
  ghost predicate ShownAs(c: Tree, r: Tree, limit: int, ratio: real, late: map<string, string>, embedLimit: int) {
    if |SpansOf(c)| > limit && forall n :: n in Nodes(c) ==> !n.span.IsError() then
      && r.children == [] && r.compressed && r.ratio == ratio
      && SummaryOf(r.span.(attributes := r.span.attributes["tree.summary" := Text("pending")]), c)
      && Get(r.span.attributes, "tree.summary", Null) == Text(if c.Id() in late then late[c.Id()] else "pending")
    else r == EmbedNode(SetRatio(c, ratio), embedLimit)
  }

  lemma SummaryShown(c: Tree, limit: int, ratio: real, late: map<string, string>, embedLimit: int)
    requires Clean(c) && Over(c, limit)
    ensures ShownAs(c, Served(c, limit, ratio, late, embedLimit), limit, ratio, late, embedLimit)
  {
    OverMeans(c, limit);
    SummaryMeans(c);
    var s := SummaryTree(c).span;
    var r := Served(c, limit, ratio, late, embedLimit);
    assert r.children == [] && r.span == LateSpan(s, late);
    assert r.span.attributes["tree.summary" := Text("pending")] == s.attributes;
  }

  lemma BranchShown(c: Tree, limit: int, ratio: real, late: map<string, string>, embedLimit: int)
    requires Clean(c) && !Over(c, limit)
    ensures ShownAs(c, Served(c, limit, ratio, late, embedLimit), limit, ratio, late, embedLimit)
  {
    OverMeans(c, limit);
    SetRatioClean(c, ratio);
    LateKeepsClean(SetRatio(c, ratio), late);
  }

  /** The closed form of what the endpoint serves for a fresh tree. */
  lemma ViewClosedForm(t: Tree, limit: int, late: map<string, string>, embedLimit: int)
    requires Fresh(t) && DistinctIds(t) && PlainIds(t)
    ensures var r, n := ViewOf(t, limit, late, embedLimit), Size(t) as real;
            && r.span == t.span && r.ratio == (n - 1.0) / n
            && (r.compressed <==> exists c :: c in t.children && Over(c, limit))
            && |r.children| == |t.children|
            && forall i :: 0 <= i < |t.children| ==>
                 ShownAs(t.children[i], r.children[i], limit, r.ratio, late, embedLimit)
  {
    ViewRoot(t, limit, late, embedLimit);
    ViewBranches(t, limit, late, embedLimit);
  }

  lemma ViewRoot(t: Tree, limit: int, late: map<string, string>, embedLimit: int)
    requires Fresh(t) && DistinctIds(t) && PlainIds(t)
    ensures var r, n := ViewOf(t, limit, late, embedLimit), Size(t) as real;
            && r.span == t.span && r.ratio == ResultRatio(t, limit) == (n - 1.0) / n
            && (r.compressed <==> exists c :: c in t.children && Over(c, limit))
            && |r.children| == |t.children|
  {
    FreshSettled(t);
    ViewChildren(t, limit, late, embedLimit);
    ClosedForm(t, limit);
    FreshRatioValue(t, limit);
  }

  lemma ViewBranches(t: Tree, limit: int, late: map<string, string>, embedLimit: int)
    requires Fresh(t)
    ensures var r := ViewOf(t, limit, late, embedLimit);
            && |r.children| == |t.children|
            && forall i :: 0 <= i < |t.children| ==>
                 ShownAs(t.children[i], r.children[i], limit, ResultRatio(t, limit), late, embedLimit)
  {
    var ratio := ResultRatio(t, limit);
    FreshSettled(t);
    ViewChildren(t, limit, late, embedLimit);
    forall i | 0 <= i < |t.children|
      ensures ShownAs(t.children[i], Served(t.children[i], limit, ratio, late, embedLimit),
                limit, ratio, late, embedLimit)
    {
      assert t.children[i] in t.children;
      if Over(t.children[i], limit) {
        SummaryShown(t.children[i], limit, ratio, late, embedLimit);
      } else {
        BranchShown(t.children[i], limit, ratio, late, embedLimit);
      }
    }
  }

  // ---------------------------------------------------------------- errors are served

  /** An erroneous span is shown by `r`: as the node itself or among its embedded events. */
  ghost predicate ShowsError(r: Tree, s: Span) {
    || (r.span.Id() == s.Id() && r.span.IsError())
    || exists e :: e in r.span.events && IsRecordOf(e, s) && Get(e.attributes, "status", Null) == Text("error")
  }

  lemma {:induction false} ErrorShown(t: Tree, embedLimit: int, s: Span) returns (r: Tree)
    requires s in SpansOf(t) && s.IsError()
    ensures r in Nodes(EmbedNode(t, embedLimit)) && ShowsError(r, s)
  {
    SpanHasNode(t, s);
    var x :| x in Nodes(t) && x.span == s;
    r := NothingLost(t, embedLimit, x);
    if r == EmbedNode(x, embedLimit) {
      NodeEmbedded(x, embedLimit);
    } else {
      var p :| r == EmbedNode(p, embedLimit) && Embeddable(p, embedLimit) && x in p.children;
      var e := FoldedHasRecord(p, embedLimit, x);
    }
  }

  /** In a branch with an error nothing is replaced, so its erroneous spans are shown. */
  lemma ErrorInBranchShown(t: Tree, limit: int, late: map<string, string>, embedLimit: int, i: nat, s: Span)
    returns (r: Tree)
    requires Fresh(t) && i < |t.children| && s in SpansOf(t.children[i]) && s.IsError()
    ensures r in Nodes(ViewOf(t, limit, late, embedLimit)) && ShowsError(r, s)
  {
    var c, ratio := t.children[i], ResultRatio(t, limit);
    FreshSettled(t);
    ViewChildren(t, limit, late, embedLimit);
    SpanHasNode(c, s);
    ErrorMeans(c);
    assert c in t.children;
    SetRatioViews(c, ratio);
    SetRatioClean(c, ratio);
    LateKeepsClean(SetRatio(c, ratio), late);
    r := ErrorShown(SetRatio(c, ratio), embedLimit, s);
    var view := ViewOf(t, limit, late, embedLimit);
    assert view.children[i] == EmbedNode(SetRatio(c, ratio), embedLimit);
    InForest(view.children, r);
  }

  /** For every accepted list each erroneous span is in what is served: as a node that is erroneous, or as an embedded
      event with its id and the status "error". */
  lemma ErrorsServed(spans: seq<Span>, virtualId: string, limit: int, late: map<string, string>,
                     embedLimit: int, s: Span)
    returns (r: Tree)
    requires spans != [] && Ready(spans) && PlainSpans(spans) && s in spans && s.IsError()
    ensures r in Nodes(ViewOf(TreeOf(spans, virtualId), limit, late, embedLimit)) && ShowsError(r, s)
  {
    var t := TreeOf(spans, virtualId);
    BuiltIsFresh(spans, virtualId);
    TreeHoldsEachSpanOnce(spans, virtualId);
    assert s in multiset(spans);
    if s == t.span {
      ViewChildren(t, limit, late, embedLimit);
      r := ViewOf(t, limit, late, embedLimit);
      assert !s.IsSummary();
    } else {
      assert s in SpansF(t.children);
      var i := BranchOf(t.children, s);
      r := ErrorInBranchShown(t, limit, late, embedLimit, i, s);
    }
  }

  lemma {:induction false} BranchOf(ts: seq<Tree>, s: Span) returns (i: nat)
    requires s in SpansF(ts)
    ensures i < |ts| && s in SpansOf(ts[i])
  {
    if s in SpansOf(ts[0]) {
      i := 0;
    } else {
      i := BranchOf(ts[1..], s);
      i := i + 1;
    }
  }
}
