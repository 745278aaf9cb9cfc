/** `EmbeddedSubtreePolicy.embed`, `expand_embedded` and `expand_embedded_dict` of
    agent_obs/tree_compressor.py, with `Span.to_dict` of agent_obs/observability.py. */
module Embedding {
  import opened Basics
  import opened Spans
  import opened Sequences
  import opened TraceTree

  // ---------------------------------------------------------------- folding (lines 520-571)

  /** The keys that `embed` writes into an embedded event and `expand_embedded` takes out again. */
  const RESERVED: set<string> := {"span_id", "parent_span_id", "span_type", "embedded"}

  function ParentValue(parent: Option<string>): Value {
    match parent
    case None => Null
    case Some(id) => Text(id)
  }

  function StatusOf(attrs: Attrs): Value {
    Get(attrs, "status", Text("unset"))
  }

  /** A child span as an event; keys already set are not overwritten by the child's attributes. */
  function EventFor(child: Span): Event {
    Event(child.name, Iso(child.startTime),
      child.attributes + map[
        "span_id" := Text(child.Id()),
        "parent_span_id" := ParentValue(child.context.parentSpanId),
        "span_type" := Text(TypeName(child.spanType)),
        "status" := StatusOf(child.attributes),
        "embedded" := Flag(true)])
  }

  function EventsFor(children: seq<Span>): (es: seq<Event>)
    ensures |es| == |children|
    ensures forall i :: 0 <= i < |children| ==> es[i] == EventFor(children[i])
  {
    Map(EventFor, children)
  }

  /** The spans of the children in start-time order. */
  function FoldOrder(children: seq<Tree>): seq<Span> {
    SortBy(SpanSeq(children), StartOf)
  }

  /** The parent span after its children were folded into it. */
  function FoldSpan(parent: Span, children: seq<Tree>): Span {
    parent.(
      events := parent.events + EventsFor(FoldOrder(children)),
      attributes := parent.attributes["embedded" := Flag(true)]["embedded_count" := Num(|children| as real)])
  }

  predicate Embeddable(t: Tree, limit: int) {
    && t.children != []
    && |t.children| <= limit
    && forall c :: c in t.children ==> c.children == []
  }

  /** What the pass makes of a node below the root. The test comes before the recursion, so one pass
      folds one level. */
  function EmbedNode(t: Tree, limit: int): Tree
    decreases t, 1
  {
    if Embeddable(t, limit) then t.(span := FoldSpan(t.span, t.children), children := [])
    else t.(children := EmbedAll(t.children, limit))
  }

  function EmbedAll(ts: seq<Tree>, limit: int): (rs: seq<Tree>)
    ensures |rs| == |ts|
    ensures forall i :: 0 <= i < |ts| ==> rs[i] == EmbedNode(ts[i], limit)
    decreases ts, 0
  {
    seq(|ts|, i requires 0 <= i < |ts| => EmbedNode(ts[i], limit))
  }

  /** The tree after `embed`: the root itself is never folded. */
  function EmbedTree(t: Tree, limit: int): Tree {
    t.(children := EmbedAll(t.children, limit))
  }

  /** No node below the root has both children and only leaves, few enough to fold. */
  ghost predicate Folded(ts: seq<Tree>, limit: int) {
    forall n :: n in NodesF(ts) ==> !Embeddable(n, limit)
  }

  /** A pass changes nothing exactly when no node below the root is foldable. */
  lemma EmbedFixpoint(t: Tree, limit: int)
    ensures EmbedTree(t, limit) == t <==> Folded(t.children, limit)
  {
    EmbedAllFixpoint(t.children, limit);
  }

  lemma {:induction false} EmbedNodeFixpoint(t: Tree, limit: int)
    ensures EmbedNode(t, limit) == t <==> forall n :: n in Nodes(t) ==> !Embeddable(n, limit)
    decreases t, 1
  {
    assert t in Nodes(t);
    EmbedAllFixpoint(t.children, limit);
    if !Embeddable(t, limit) {
      assert forall n :: n in Nodes(t) <==> n in NodesF(t.children) || n == t;
    }
  }

  lemma {:induction false} EmbedAllFixpoint(ts: seq<Tree>, limit: int)
    ensures EmbedAll(ts, limit) == ts <==> Folded(ts, limit)
    decreases ts, 0
  {
    if ts != [] {
      EmbedNodeFixpoint(ts[0], limit);
      EmbedAllFixpoint(ts[1..], limit);
      assert EmbedAll(ts, limit)[1..] == EmbedAll(ts[1..], limit);
      assert EmbedAll(ts, limit) == ts <==> EmbedNode(ts[0], limit) == ts[0] && EmbedAll(ts[1..], limit) == ts[1..];
      assert forall n :: n in NodesF(ts) <==> n in Nodes(ts[0]) || n in NodesF(ts[1..]);
    }
  }

  /** Nodes that cannot be folded at once but can after one pass: few children, all of them leaves by then. */
  predicate FoldsNext(t: Tree, limit: int) {
    && t.children != [] && |t.children| <= limit && !Embeddable(t, limit)
    && forall c :: c in t.children ==> c.children == [] || Embeddable(c, limit)
  }

  /** A pass leaves a leaf exactly of leaves and of nodes that it folds. */
  lemma LeafAfterPass(t: Tree, limit: int)
    ensures EmbedNode(t, limit).children == [] <==> t.children == [] || Embeddable(t, limit)
  {
  }

  ghost predicate AllLeaves(ts: seq<Tree>) {
    forall c :: c in ts ==> c.children == []
  }

  ghost predicate AllFoldOrLeaf(ts: seq<Tree>, limit: int) {
    forall c :: c in ts ==> c.children == [] || Embeddable(c, limit)
  }

  lemma LeavesFront(t: Tree, ts: seq<Tree>)
    ensures AllLeaves([t] + ts) <==> t.children == [] && AllLeaves(ts)
  {
    assert ([t] + ts)[0] == t;
    assert forall c :: c in ts ==> c in [t] + ts;
  }

  lemma FoldOrLeafFront(t: Tree, ts: seq<Tree>, limit: int)
    ensures AllFoldOrLeaf([t] + ts, limit) <==> (t.children == [] || Embeddable(t, limit)) && AllFoldOrLeaf(ts, limit)
  {
    assert ([t] + ts)[0] == t;
    assert forall c :: c in ts ==> c in [t] + ts;
  }

  lemma {:induction false} LeavesAfterPass(ts: seq<Tree>, limit: int)
    ensures AllLeaves(EmbedAll(ts, limit)) <==> AllFoldOrLeaf(ts, limit)
  {
    if ts != [] {
      LeafAfterPass(ts[0], limit);
      LeavesAfterPass(ts[1..], limit);
      LeavesFront(EmbedNode(ts[0], limit), EmbedAll(ts[1..], limit));
      FoldOrLeafFront(ts[0], ts[1..], limit);
      assert ts == [ts[0]] + ts[1..];
    }
  }

  lemma FoldableAfterPass(t: Tree, limit: int)
    requires !Embeddable(t, limit)
    ensures Embeddable(EmbedNode(t, limit), limit) <==> FoldsNext(t, limit)
  {
    LeavesAfterPass(t.children, limit);
  }

  lemma {:induction false} FoldableBelow(t: Tree, limit: int)
    ensures (forall m :: m in Nodes(EmbedNode(t, limit)) ==> !Embeddable(m, limit))
            <==> forall n :: n in Nodes(t) ==> !FoldsNext(n, limit)
    decreases t, 1
  {
    assert t in Nodes(t) && EmbedNode(t, limit) in Nodes(EmbedNode(t, limit));
    if Embeddable(t, limit) {
      FoldedNodes(t, limit);
    } else {
      FoldableAfterPass(t, limit);
      FoldableBelowAll(t.children, limit);
      assert forall n :: n in Nodes(t) <==> n in NodesF(t.children) || n == t;
      var r := EmbedNode(t, limit);
      assert forall n :: n in Nodes(r) <==> n in NodesF(r.children) || n == r;
    }
  }

  /** A folded node is a leaf, and below it there were leaves only. */
  lemma FoldedNodes(t: Tree, limit: int)
    requires Embeddable(t, limit)
    ensures Nodes(EmbedNode(t, limit)) == [EmbedNode(t, limit)]
    ensures forall n :: n in Nodes(t) ==> n == t || n.children == []
  {
    forall n | n in Nodes(t) && n != t
      ensures n.children == []
    {
      InForest(t.children, n);
      var i :| 0 <= i < |t.children| && n in Nodes(t.children[i]);
      assert t.children[i] in t.children;
      assert Nodes(t.children[i]) == [t.children[i]];
    }
    assert NodesF([]) == [];
  }

  lemma {:induction false} FoldableBelowAll(ts: seq<Tree>, limit: int)
    ensures Folded(EmbedAll(ts, limit), limit) <==> forall n :: n in NodesF(ts) ==> !FoldsNext(n, limit)
    decreases ts, 0
  {
    if ts != [] {
      FoldableBelow(ts[0], limit);
      FoldableBelowAll(ts[1..], limit);
      var rs := EmbedAll(ts, limit);
      assert rs[1..] == EmbedAll(ts[1..], limit);
      assert forall n :: n in NodesF(ts) <==> n in Nodes(ts[0]) || n in NodesF(ts[1..]);
      assert forall n :: n in NodesF(rs) <==> n in Nodes(rs[0]) || n in NodesF(rs[1..]);
    }
  }

  /** `embed` is idempotent on a tree exactly when no node below its root becomes foldable by the first pass. */
  lemma EmbedIdempotentIff(t: Tree, limit: int)
    ensures EmbedTree(EmbedTree(t, limit), limit) == EmbedTree(t, limit)
            <==> forall n :: n in NodesF(t.children) ==> !FoldsNext(n, limit)
  {
    EmbedFixpoint(EmbedTree(t, limit), limit);
    FoldableBelowAll(t.children, limit);
  }

  // ---------------------------------------------------------------- what a pass does to each node

  /** `r` is what the pass makes of `n`: a node with few children, all leaves, becomes a leaf that carries one event for
      each of them, is marked and counted; any other node keeps its span. Everything else of the span is untouched. */
  ghost predicate EmbeddedFrom(n: Tree, r: Tree, limit: int) {
    && r.span.name == n.span.name && r.span.spanType == n.span.spanType && r.span.context == n.span.context
    && r.span.startTime == n.span.startTime && r.span.endTime == n.span.endTime
    && r.compressed == n.compressed && r.ratio == n.ratio
    && (forall k :: k != "embedded" && k != "embedded_count" ==>
          (k in r.span.attributes <==> k in n.span.attributes)
          && (k in n.span.attributes ==> r.span.attributes[k] == n.span.attributes[k]))
    && if n.children != [] && |n.children| <= limit && forall c :: c in n.children ==> c.children == []
       then
         && r.children == []
         && Get(r.span.attributes, "embedded", Null) == Flag(true)
         && Get(r.span.attributes, "embedded_count", Null) == Num(|n.children| as real)
         && r.span.events == n.span.events + EventsFor(FoldOrder(n.children))
       else r.span == n.span && |r.children| == |n.children|
  }

  lemma NodeEmbedded(n: Tree, limit: int)
    ensures EmbeddedFrom(n, EmbedNode(n, limit), limit)
  {
  }

  /** Every node after the pass is made of a node before it. */
  lemma {:induction false} EmbeddedNodes(t: Tree, limit: int, r: Tree) returns (n: Tree)
    requires r in Nodes(EmbedNode(t, limit))
    ensures n in Nodes(t) && r == EmbedNode(n, limit)
    decreases t, 1
  {
    if r == EmbedNode(t, limit) {
      n := t;
    } else {
      if Embeddable(t, limit) {
        FoldedNodes(t, limit);
      }
      n := EmbeddedNodesAll(t.children, limit, r);
    }
  }

  lemma {:induction false} EmbeddedNodesAll(ts: seq<Tree>, limit: int, r: Tree) returns (n: Tree)
    requires r in NodesF(EmbedAll(ts, limit))
    ensures n in NodesF(ts) && r == EmbedNode(n, limit)
    decreases ts, 0
  {
    FrontNodes(ts);
    FrontNodes(EmbedAll(ts, limit));
    assert EmbedAll(ts, limit)[1..] == EmbedAll(ts[1..], limit);
    if r in Nodes(EmbedNode(ts[0], limit)) {
      n := EmbeddedNodes(ts[0], limit, r);
    } else {
      n := EmbeddedNodesAll(ts[1..], limit, r);
    }
  }

  /** Below the root, `embed` does to every node what the rule says and nothing else; the root keeps its span, its flag
      and its ratio. */
  lemma EmbedMeans(t: Tree, limit: int, r: Tree) returns (n: Tree)
    requires r in NodesF(EmbedTree(t, limit).children)
    ensures n in NodesF(t.children) && EmbeddedFrom(n, r, limit)
    ensures var root := EmbedTree(t, limit);
            root.span == t.span && root.compressed == t.compressed && root.ratio == t.ratio
  {
    n := EmbeddedNodesAll(t.children, limit, r);
    NodeEmbedded(n, limit);
  }

  /** A span that was not marked before is marked by the pass exactly when its node has few children, all leaves. */
  lemma MarkedIffFolded(n: Tree, limit: int)
    requires "embedded" !in n.span.attributes
    ensures Get(EmbedNode(n, limit).span.attributes, "embedded", Null) == Flag(true) <==>
            n.children != [] && |n.children| <= limit && forall c :: c in n.children ==> c.children == []
  {
  }

  /** `x` is still there after the pass: as a node made of it, or folded into the node made of its parent. */
  ghost predicate KeptOrFolded(r: Tree, x: Tree, limit: int) {
    r == EmbedNode(x, limit) || exists p :: r == EmbedNode(p, limit) && Embeddable(p, limit) && x in p.children
  }

  /** Every node of a tree is still there after the pass. */
  lemma {:induction false} NothingLost(t: Tree, limit: int, x: Tree) returns (r: Tree)
    requires x in Nodes(t)
    ensures r in Nodes(EmbedNode(t, limit)) && KeptOrFolded(r, x, limit)
    decreases t, 1
  {
    r := EmbedNode(t, limit);
    if x != t {
      if Embeddable(t, limit) {
        FoldedNodes(t, limit);
        InForest(t.children, x);
        var i :| 0 <= i < |t.children| && x in Nodes(t.children[i]);
        assert t.children[i] in t.children && Nodes(t.children[i]) == [t.children[i]];
        assert x in t.children;
      } else {
        r := NothingLostAll(t.children, limit, x);
      }
    }
  }

  lemma {:induction false} NothingLostAll(ts: seq<Tree>, limit: int, x: Tree) returns (r: Tree)
    requires x in NodesF(ts)
    ensures r in NodesF(EmbedAll(ts, limit)) && KeptOrFolded(r, x, limit)
    decreases ts, 0
  {
    FrontNodes(ts);
    FrontNodes(EmbedAll(ts, limit));
    assert EmbedAll(ts, limit)[1..] == EmbedAll(ts[1..], limit);
    if x in Nodes(ts[0]) {
      r := NothingLost(ts[0], limit, x);
    } else {
      r := NothingLostAll(ts[1..], limit, x);
    }
  }

  /** An event that stands for the span, with its id, parent id, type and status. */
  ghost predicate IsRecordOf(e: Event, s: Span) {
    && e.name == s.name && e.timestamp == Iso(s.startTime)
    && Get(e.attributes, "embedded", Null) == Flag(true)
    && Get(e.attributes, "span_id", Null) == Text(s.context.spanId)
    && Get(e.attributes, "parent_span_id", Text("")) == ParentValue(s.context.parentSpanId)
    && Get(e.attributes, "span_type", Null) == Text(TypeName(s.spanType))
    && Get(e.attributes, "status", Null) == (if "status" in s.attributes then s.attributes["status"] else Text("unset"))
    && forall k :: k in s.attributes && k !in RESERVED ==> k in e.attributes && e.attributes[k] == s.attributes[k]
  }

  lemma EventIsRecord(s: Span)
    ensures IsRecordOf(EventFor(s), s)
  {
  }

  /** A folded child has its record among the events of the node it was folded into. */
  lemma FoldedHasRecord(p: Tree, limit: int, x: Tree) returns (e: Event)
    requires Embeddable(p, limit) && x in p.children
    ensures e in EmbedNode(p, limit).span.events && IsRecordOf(e, x.span)
  {
    var order := FoldOrder(p.children);
    var i :| 0 <= i < |p.children| && p.children[i] == x;
    assert SpanSeq(p.children)[i] == x.span;
    SortMembers(SpanSeq(p.children), StartOf);
    assert x.span in SpanSeq(p.children) && x.span in order;
    var j :| 0 <= j < |order| && order[j] == x.span;
    e := EventsFor(order)[j];
    EventIsRecord(x.span);
    assert (p.span.events + EventsFor(order))[|p.span.events| + j] == e;
  }

  // ---------------------------------------------------------------- expanding (lines 584-623)

  function TextOf(v: Value): string {
    if v.Text? then v.text else ""
  }

  /** The child span that an embedded event stands for; `None` is the `InvalidSpanTypeError`. */
  function ExpandEvent(parent: Span, e: Event): Option<Span> {
    var a := e.attributes;
    var pid := Get(a, "parent_span_id", Text(parent.Id()));
    match ParseTypeName(TextOf(Get(a, "span_type", Text(TypeName(AgentReasoning)))))
    case None => None
    case Some(spanType) =>
      Some(Span(e.name, spanType,
        parent.context.(
          spanId := TextOf(Get(a, "span_id", Text(""))),
          parentSpanId := if pid.Null? then None else Some(TextOf(pid)),
          tenantId := ""),
        (a - RESERVED)["status" := StatusOf(a)], [],
        if e.timestamp.Iso? then e.timestamp.micros else 0, None))
  }

  predicate IsEmbedded(e: Event) { Has(e.attributes, "embedded") }

  /** What one event contributes to the expansion. */
  datatype Outcome = Skip | Invalid | Child(span: Span)

  function Expander(parent: Span): Event -> Outcome {
    (e: Event) =>
      if !IsEmbedded(e) then Skip
      else match ExpandEvent(parent, e)
        case None => Invalid
        case Some(child) => Child(child)
  }

  /** Collects the children that `f` finds, until it finds an invalid event. */
  function Collect(f: Event -> Outcome, es: seq<Event>): Option<seq<Span>> {
    if es == [] then Some([])
    else
      match (f(es[0]), Collect(f, es[1..]))
      case (Skip, rest) => rest
      case (Child(c), Some(cs)) => Some([c] + cs)
      case _ => None
  }

  /** The children of a list of events, or `None` when one has an invalid type. */
  function ExpandEvents(parent: Span, es: seq<Event>): Option<seq<Span>> {
    Collect(Expander(parent), es)
  }

  lemma {:induction false} CollectConcat(f: Event -> Outcome, xs: seq<Event>, ys: seq<Event>)
    ensures Collect(f, xs).Some? && Collect(f, ys).Some? ==>
              Collect(f, xs + ys) == Some(Collect(f, xs).value + Collect(f, ys).value)
    ensures Collect(f, xs).None? || Collect(f, ys).None? ==> Collect(f, xs + ys) == None
  {
    if xs == [] {
      assert xs + ys == ys;
      assert Collect(f, ys).Some? ==> [] + Collect(f, ys).value == Collect(f, ys).value;
    } else {
      assert (xs + ys)[1..] == xs[1..] + ys;
      CollectConcat(f, xs[1..], ys);
      if f(xs[0]).Child? && Collect(f, xs[1..]).Some? && Collect(f, ys).Some? {
        Regroup([f(xs[0]).span], Collect(f, xs[1..]).value, Collect(f, ys).value);
      }
    }
  }

  lemma CollectOne(f: Event -> Outcome, e: Event)
    ensures Collect(f, [e]) == match f(e) case Skip => Some([]) case Child(c) => Some([c]) case Invalid => None
  {
    assert [e][1..] == [];
    if f(e).Child? {
      assert [f(e).span] + [] == [f(e).span];
    }
  }

  function Extend(had: seq<Span>, o: Outcome): Option<seq<Span>> {
    match o
    case Skip => Some(had)
    case Child(c) => Some(had + [c])
    case Invalid => None
  }

  lemma CollectLast(f: Event -> Outcome, xs: seq<Event>, had: seq<Span>, e: Event)
    requires Collect(f, xs) == Some(had)
    ensures Collect(f, xs + [e]) == Extend(had, f(e))
  {
    CollectConcat(f, xs, [e]);
    CollectOne(f, e);
    assert had + [] == had;
  }

  lemma CollectStaysNone(f: Event -> Outcome, es: seq<Event>, n: nat)
    requires n <= |es| && Collect(f, es[..n]) == None
    ensures Collect(f, es) == None
  {
    assert es == es[..n] + es[n..];
    CollectConcat(f, es[..n], es[n..]);
  }

  /** The loop of `expand_embedded`, for any way `f` of reading an event. */
  method CollectLoop(f: Event -> Outcome, es: seq<Event>) returns (r: Option<seq<Span>>)
    ensures r == Collect(f, es)
  {
    var children: seq<Span> := [];
    for i := 0 to |es|
      invariant Collect(f, es[..i]) == Some(children)
    {
      assert es[..i + 1] == es[..i] + [es[i]];
      CollectLast(f, es[..i], children, es[i]);
      match f(es[i])
      case Skip =>
      case Invalid =>
        CollectStaysNone(f, es, i + 1);
        return None;
      case Child(child) =>
        children := children + [child];
    }
    assert es[..|es|] == es;
    r := Some(children);
  }

  /** `expand_embedded`. */
  method ExpandEmbedded(parent: Span) returns (r: Option<seq<Span>>)
    ensures r == ExpandEvents(parent, parent.events)
  {
    r := CollectLoop(Expander(parent), parent.events);
  }

  // ---------------------------------------------------------------- embed, then expand

  /** What expansion gives back for a folded child: its id, parent id, name, type, start time and
      attributes, in the parent's context, with the status defaulted. */
  function Restored(parent: Span, child: Span): Span {
    Span(child.name, child.spanType,
      parent.context.(spanId := child.Id(), parentSpanId := child.context.parentSpanId, tenantId := ""),
      (child.attributes - RESERVED)["status" := StatusOf(child.attributes)], [], child.startTime, None)
  }

  function Restorer(parent: Span): Span -> Span {
    (child: Span) => Restored(parent, child)
  }

  function RestoredAll(parent: Span, children: seq<Span>): (rs: seq<Span>)
    ensures |rs| == |children|
    ensures forall i :: 0 <= i < |children| ==> rs[i] == Restored(parent, children[i])
  {
    Map(Restorer(parent), children)
  }

  lemma ExpandRestores(parent: Span, child: Span)
    ensures IsEmbedded(EventFor(child)) && ExpandEvent(parent, EventFor(child)) == Some(Restored(parent, child))
  {
    var a := EventFor(child).attributes;
    assert a["status"] == StatusOf(child.attributes);
    assert (a - RESERVED)["status" := StatusOf(a)]
        == (child.attributes - RESERVED)["status" := StatusOf(child.attributes)];
  }

  lemma {:induction false} CollectFolded(f: Event -> Outcome, g: Span -> Span, children: seq<Span>)
    requires forall c :: f(EventFor(c)) == Child(g(c))
    ensures Collect(f, Map(EventFor, children)) == Some(Map(g, children))
  {
    if children != [] {
      CollectFolded(f, g, children[1..]);
    }
  }

  lemma FoldedExpand(parent: Span, children: seq<Span>)
    ensures ExpandEvents(parent, EventsFor(children)) == Some(RestoredAll(parent, children))
  {
    forall c: Span
      ensures Expander(parent)(EventFor(c)) == Child(Restorer(parent)(c))
    {
      ExpandRestores(parent, c);
    }
    CollectFolded(Expander(parent), Restorer(parent), children);
  }

  /** Expansion reads the parent's context only. */
  lemma {:induction false} ExpandReadsContext(p: Span, q: Span, es: seq<Event>)
    requires p.context == q.context
    ensures ExpandEvents(p, es) == ExpandEvents(q, es)
  {
    if es != [] {
      assert Expander(p)(es[0]) == Expander(q)(es[0]);
      ExpandReadsContext(p, q, es[1..]);
    }
  }

  /** Expanding a folded parent returns what could be expanded before, followed by the folded
      children in start-time order. */
  lemma FoldThenExpand(parent: Span, children: seq<Tree>)
    requires ExpandEvents(parent, parent.events).Some?
    ensures var folded := FoldSpan(parent, children);
            ExpandEvents(folded, folded.events) ==
            Some(ExpandEvents(parent, parent.events).value + RestoredAll(parent, FoldOrder(children)))
    ensures multiset(FoldOrder(children)) == multiset(SpanSeq(children))
    ensures Ordered(FoldOrder(children), StartOf)
  {
    var folded := FoldSpan(parent, children);
    ExpandReadsContext(parent, folded, folded.events);
    FoldedExpand(parent, FoldOrder(children));
    CollectConcat(Expander(parent), parent.events, EventsFor(FoldOrder(children)));
    SortPermutes(SpanSeq(children), StartOf);
    SortOrdered(SpanSeq(children), StartOf);
  }

  /** Attributes come back, up to the defaulted status, exactly when the child used no reserved key. */
  lemma AttributesRestored(parent: Span, child: Span)
    ensures Restored(parent, child).attributes == child.attributes["status" := StatusOf(child.attributes)]
            <==> child.attributes.Keys !! RESERVED
  {
    var back, full := Restored(parent, child).attributes, child.attributes["status" := StatusOf(child.attributes)];
    if child.attributes.Keys !! RESERVED {
      assert child.attributes - RESERVED == child.attributes;
    } else {
      var k :| k in child.attributes && k in RESERVED;
      assert k in full && k !in back;
    }
  }

  /** A child survives the round trip as it was exactly under these conditions. */
  lemma RestoredIsChild(parent: Span, child: Span)
    ensures Restored(parent, child) == child <==>
            && child.attributes.Keys !! RESERVED
            && "status" in child.attributes
            && child.events == [] && child.endTime.None?
            && child.context == parent.context.(
                 spanId := child.Id(), parentSpanId := child.context.parentSpanId, tenantId := "")
  {
    AttributesRestored(parent, child);
    if Restored(parent, child) == child {
      assert "status" in Restored(parent, child).attributes;
      assert child.attributes["status" := StatusOf(child.attributes)] == child.attributes;
    }
    if child.attributes.Keys !! RESERVED && "status" in child.attributes {
      assert child.attributes["status" := StatusOf(child.attributes)] == child.attributes;
    }
  }

  /** A child without a status comes back with "unset". */
  lemma StatusComesBack(parent: Span, child: Span)
    ensures Get(Restored(parent, child).attributes, "status", Null) ==
            if "status" in child.attributes then child.attributes["status"] else Text("unset")
  {
  }

  /** Only the keys of the embedding itself are taken out of a child's attributes. */
  lemma RestoredKeys(parent: Span, child: Span, k: string)
    requires k !in {"span_id", "parent_span_id", "span_type", "embedded", "status"}
    ensures k in Restored(parent, child).attributes <==> k in child.attributes
    ensures k in child.attributes ==> Restored(parent, child).attributes[k] == child.attributes[k]
  {
  }

  /** An event counts as embedded when its mark is there and true. */
  lemma EmbeddedMeans(e: Event)
    ensures "embedded" !in e.attributes ==> !IsEmbedded(e)
    ensures "embedded" in e.attributes && e.attributes["embedded"].Flag? ==>
              (IsEmbedded(e) <==> e.attributes["embedded"].flag)
  {
  }

  /** What an embedded event without the usual keys is read as. */
  lemma ExpandDefaults(parent: Span, e: Event)
    requires "span_id" !in e.attributes && "parent_span_id" !in e.attributes
    requires "span_type" !in e.attributes && "status" !in e.attributes
    ensures ExpandEvent(parent, e).Some?
    ensures var s := ExpandEvent(parent, e).value;
            && s.name == e.name && s.spanType == AgentReasoning && s.context.spanId == ""
            && s.context.parentSpanId == Some(parent.context.spanId) && s.events == [] && s.endTime.None?
            && s.context.traceId == parent.context.traceId && s.context.agentId == parent.context.agentId
            && Get(s.attributes, "status", Null) == Text("unset")
            && s.startTime == match e.timestamp case Blank => 0 case Iso(micros) => micros
  {
  }

  // ---------------------------------------------------------------- the dictionary path

  /** The dictionary made by `Span.to_dict`. */
  datatype SpanDict = SpanDict(
    traceId: string,
    spanId: string,
    parentSpanId: Option<string>,
    name: string,
    spanType: string,
    startTime: Timestamp,
    endTime: Option<Timestamp>,
    status: Value,
    attributes: Attrs,
    events: seq<Event>)

  predicate SameKey(a: Event, b: Event) {
    a.name == b.name && a.timestamp == b.timestamp
  }

  /** Some event of `es` has the name and timestamp of `e`. */
  predicate Repeats(es: seq<Event>, e: Event) {
    exists f :: f in es && SameKey(f, e)
  }

  /** The events that repeat no earlier one. */
  function Deduped(es: seq<Event>): seq<Event> {
    if es == [] then []
    else
      var before, e := es[..|es| - 1], es[|es| - 1];
      if Repeats(before, e) then Deduped(before) else Deduped(before) + [e]
  }

  /** `_deduped_events`. */
  method DedupEvents(es: seq<Event>) returns (kept: seq<Event>)
    ensures kept == Deduped(es)
  {
    var seen: set<(string, Timestamp)> := {};
    kept := [];
    for i := 0 to |es|
      invariant kept == Deduped(es[..i])
      invariant forall k :: k in seen <==> exists f :: f in es[..i] && k == (f.name, f.timestamp)
    {
      var e := es[i];
      assert es[..i + 1][..i] == es[..i];
      assert es[..i + 1] == es[..i] + [e];
      assert (e.name, e.timestamp) in seen <==> Repeats(es[..i], e);
      if (e.name, e.timestamp) !in seen {
        seen := seen + {(e.name, e.timestamp)};
        kept := kept + [e];
      }
    }
    assert es[..|es|] == es;
  }

  function ToDict(s: Span): SpanDict {
    SpanDict(s.context.traceId, s.Id(), s.context.parentSpanId, s.name, TypeName(s.spanType), Iso(s.startTime),
      if s.endTime.None? then None else Some(Iso(s.endTime.value)),
      StatusOf(s.attributes), s.attributes, Deduped(s.events))
  }

  /** The dictionary has every field of the span under its own name; only repeated events are missing. */
  lemma DictMeans(s: Span)
    ensures var d := ToDict(s);
            && d.traceId == s.context.traceId && d.spanId == s.context.spanId
            && d.parentSpanId == s.context.parentSpanId && d.name == s.name && d.attributes == s.attributes
            && ParseTypeName(d.spanType) == Some(s.spanType) && d.startTime == Iso(s.startTime)
            && (d.endTime.Some? <==> s.endTime.Some?) && (s.endTime.Some? ==> d.endTime == Some(Iso(s.endTime.value)))
            && d.status == (if "status" in s.attributes then s.attributes["status"] else Text("unset"))
            && (forall e :: e in d.events ==> e in s.events)
            && forall e :: e in s.events ==> exists f :: f in d.events && f.name == e.name && f.timestamp == e.timestamp
  {
    DedupedKeepsKeys(s.events);
    assert ParseTypeName(TypeName(s.spanType)) == Some(s.spanType);
  }

  lemma {:induction false} DedupedKeepsKeys(es: seq<Event>)
    ensures forall e :: e in Deduped(es) ==> e in es
    ensures forall e :: e in es ==> exists f :: f in Deduped(es) && f.name == e.name && f.timestamp == e.timestamp
  {
    if es != [] {
      var before, last := es[..|es| - 1], es[|es| - 1];
      assert es == before + [last];
      DedupedKeepsKeys(before);
      if !Repeats(before, last) {
        assert last in Deduped(es);
      }
    }
  }

  /** One child of `expand_embedded_dict`. */
  function ExpandDictEvent(d: SpanDict, e: Event): SpanDict {
    var a := e.attributes;
    var pid := Get(a, "parent_span_id", Text(d.spanId));
    SpanDict(d.traceId, TextOf(Get(a, "span_id", Text(""))),
      if pid.Null? then None else Some(TextOf(pid)),
      e.name, TextOf(Get(a, "span_type", Text(""))), e.timestamp, None, StatusOf(a),
      (a - RESERVED)["status" := StatusOf(a)], [])
  }

  /** What an embedded event without the usual keys is read as in a dictionary; unlike the span path, the type stays
      blank. */
  lemma ExpandDictDefaults(d: SpanDict, e: Event)
    requires "span_id" !in e.attributes && "parent_span_id" !in e.attributes
    requires "span_type" !in e.attributes && "status" !in e.attributes
    ensures var c := ExpandDictEvent(d, e);
            && c.traceId == d.traceId && c.spanId == "" && c.parentSpanId == Some(d.spanId) && c.name == e.name
            && c.spanType == "" && c.startTime == e.timestamp && c.endTime.None? && c.events == []
            && c.status == Text("unset") && Get(c.attributes, "status", Null) == Text("unset")
  {
  }

  function DictExpander(d: SpanDict): Event -> SpanDict {
    (e: Event) => ExpandDictEvent(d, e)
  }

  function ExpandDictAll(d: SpanDict, es: seq<Event>): (ds: seq<SpanDict>)
    ensures |ds| == |es|
    ensures forall i :: 0 <= i < |es| ==> ds[i] == ExpandDictEvent(d, es[i])
  {
    Map(DictExpander(d), es)
  }

  /** `expand_embedded_dict`. */
  method ExpandEmbeddedDict(d: SpanDict) returns (children: seq<SpanDict>)
    ensures children == ExpandDictAll(d, Filter(d.events, IsEmbedded))
  {
    children := [];
    for i := 0 to |d.events|
      invariant children == ExpandDictAll(d, Filter(d.events[..i], IsEmbedded))
    {
      DictStep(d, i);
      if IsEmbedded(d.events[i]) {
        children := children + [ExpandDictEvent(d, d.events[i])];
      }
    }
    assert d.events[..|d.events|] == d.events;
  }

  lemma DictStep(d: SpanDict, i: nat)
    requires i < |d.events|
    ensures ExpandDictAll(d, Filter(d.events[..i + 1], IsEmbedded))
         == ExpandDictAll(d, Filter(d.events[..i], IsEmbedded))
            + if IsEmbedded(d.events[i]) then [ExpandDictEvent(d, d.events[i])] else []
  {
    assert d.events[..i + 1] == d.events[..i] + [d.events[i]];
    FilterMapLast(DictExpander(d), IsEmbedded, d.events[..i], d.events[i]);
  }

  /** An embedded event as `embed` writes it. */
  ghost predicate Foldlike(e: Event) {
    && e.timestamp.Iso?
    && "span_id" in e.attributes && "parent_span_id" in e.attributes && "span_type" in e.attributes
    && e.attributes["span_type"].Text? && ParseTypeName(e.attributes["span_type"].text).Some?
  }

  lemma FoldedEventsFoldlike(child: Span)
    ensures Foldlike(EventFor(child))
  {
  }

  function ToDicts(ss: seq<Span>): (ds: seq<SpanDict>)
    ensures |ds| == |ss|
    ensures forall i :: 0 <= i < |ss| ==> ds[i] == ToDict(ss[i])
  {
    Map(ToDict, ss)
  }

  lemma DictEventAgrees(parent: Span, e: Event)
    requires Foldlike(e)
    ensures ExpandEvent(parent, e).Some?
    ensures ToDict(ExpandEvent(parent, e).value) == ExpandDictEvent(ToDict(parent), e)
  {
  }

  /** Collecting and then mapping is filtering and then mapping, when `f` gives a child exactly for the
      events selected by `p`. */
  lemma {:induction false} CollectAsMap(f: Event -> Outcome, p: Event -> bool, g: Event -> SpanDict, es: seq<Event>)
    requires forall e :: e in es ==> if p(e) then f(e).Child? && ToDict(f(e).span) == g(e) else f(e) == Skip
    ensures Collect(f, es).Some? && Map(ToDict, Collect(f, es).value) == Map(g, Filter(es, p))
  {
    if es != [] {
      assert es[0] in es;
      CollectAsMap(f, p, g, es[1..]);
    }
  }

  /** The span path, seen as dictionaries, is the dictionary path without deduplication. */
  lemma SpanPathAsDicts(parent: Span, es: seq<Event>)
    requires forall e :: e in es && IsEmbedded(e) ==> Foldlike(e)
    ensures ExpandEvents(parent, es).Some?
    ensures ToDicts(ExpandEvents(parent, es).value) == ExpandDictAll(ToDict(parent), Filter(es, IsEmbedded))
  {
    var f, g := Expander(parent), DictExpander(ToDict(parent));
    forall e | e in es
      ensures if IsEmbedded(e) then f(e).Child? && ToDict(f(e).span) == g(e) else f(e) == Skip
    {
      if IsEmbedded(e) {
        DictEventAgrees(parent, e);
      }
    }
    CollectAsMap(f, IsEmbedded, g, es);
  }

  /** No embedded event repeats the name and timestamp of an earlier event. */
  ghost predicate NoEmbeddedRepeats(es: seq<Event>) {
    forall i :: 0 <= i < |es| && IsEmbedded(es[i]) ==> !Repeats(es[..i], es[i])
  }

  lemma {:induction false} DedupKeepsEmbedded(es: seq<Event>)
    ensures |Filter(Deduped(es), IsEmbedded)| <= |Filter(es, IsEmbedded)|
    ensures NoEmbeddedRepeats(es) ==> Filter(Deduped(es), IsEmbedded) == Filter(es, IsEmbedded)
    ensures !NoEmbeddedRepeats(es) ==> |Filter(Deduped(es), IsEmbedded)| < |Filter(es, IsEmbedded)|
  {
    if es != [] {
      var n := |es| - 1;
      var before, e := es[..n], es[n];
      assert es == before + [e] && [e][1..] == [];
      DedupKeepsEmbedded(before);
      FilterAppend(before, [e], IsEmbedded);
      FilterAppend(Deduped(before), [e], IsEmbedded);
      RepeatsLast(es);
    }
  }

  lemma RepeatsLast(es: seq<Event>)
    requires es != []
    ensures var n := |es| - 1;
            NoEmbeddedRepeats(es) <==> NoEmbeddedRepeats(es[..n]) && (IsEmbedded(es[n]) ==> !Repeats(es[..n], es[n]))
  {
    var n := |es| - 1;
    assert forall i :: 0 <= i < n ==> es[..n][..i] == es[..i];
    if NoEmbeddedRepeats(es[..n]) && (IsEmbedded(es[n]) ==> !Repeats(es[..n], es[n])) {
      forall i | 0 <= i < |es| && IsEmbedded(es[i])
        ensures !Repeats(es[..i], es[i])
      {
        if i < n {
          assert es[..n][i] == es[i];
        }
      }
    }
    if NoEmbeddedRepeats(es) {
      forall i | 0 <= i < n && IsEmbedded(es[..n][i])
        ensures !Repeats(es[..n][..i], es[..n][i])
      {
        assert es[..n][i] == es[i];
      }
    }
  }

  /** Going through dictionaries yields the same children exactly when no embedded event repeats the
      name and timestamp of an earlier event. */
  lemma DictPathAgrees(parent: Span)
    requires forall e :: e in parent.events && IsEmbedded(e) ==> Foldlike(e)
    ensures ExpandEvents(parent, parent.events).Some?
    ensures ExpandDictAll(ToDict(parent), Filter(ToDict(parent).events, IsEmbedded))
            == ToDicts(ExpandEvents(parent, parent.events).value)
            <==> NoEmbeddedRepeats(parent.events)
  {
    SpanPathAsDicts(parent, parent.events);
    DedupKeepsEmbedded(parent.events);
  }

  /** What deduplication sees of a folded child. */
  function MarkOf(s: Span): (string, int) { (s.name, s.startTime) }

  /** `fold` makes embedded events that carry the mark of the child. */
  ghost predicate Marks(fold: Span -> Event) {
    forall x :: IsEmbedded(fold(x)) && fold(x).name == MarkOf(x).0 && fold(x).timestamp == Iso(MarkOf(x).1)
  }

  /** The children differ pairwise in name or start time, and none has those of an event of the parent. */
  ghost predicate ToldApart(own: seq<Event>, children: seq<Span>, fold: Span -> Event) {
    Distinct(Map(MarkOf, children)) && forall c :: c in children ==> !Repeats(own, fold(c))
  }

  lemma ToldApartPermutes(own: seq<Event>, children: seq<Tree>, fold: Span -> Event)
    ensures ToldApart(own, FoldOrder(children), fold) <==> ToldApart(own, SpanSeq(children), fold)
  {
    SortMapPermutes(MarkOf, SpanSeq(children), StartOf);
    DistinctPermutes(Map(MarkOf, FoldOrder(children)), Map(MarkOf, SpanSeq(children)));
    SortMembers(SpanSeq(children), StartOf);
  }

  lemma RepeatsFolded(own: seq<Event>, children: seq<Span>, fold: Span -> Event, c: Span)
    requires Marks(fold)
    ensures Repeats(own + Map(fold, children), fold(c)) <==>
            Repeats(own, fold(c)) || MarkOf(c) in Map(MarkOf, children)
  {
    var es := Map(fold, children);
    if i :| 0 <= i < |children| && Map(MarkOf, children)[i] == MarkOf(c) {
      assert es[i] in own + es && SameKey(es[i], fold(c));
    }
    if f :| f in own + es && SameKey(f, fold(c)) {
      if f !in own {
        var i :| 0 <= i < |es| && es[i] == f;
        assert Map(MarkOf, children)[i] == MarkOf(c);
      }
    }
  }

  lemma ToldApartLast(own: seq<Event>, children: seq<Span>, fold: Span -> Event, c: Span)
    ensures ToldApart(own, children + [c], fold) <==>
            ToldApart(own, children, fold) && !Repeats(own, fold(c)) && MarkOf(c) !in Map(MarkOf, children)
  {
    MapAppend(MarkOf, children, c);
    DistinctAppend(Map(MarkOf, children), MarkOf(c));
  }

  lemma {:induction false} NoRepeatsMeans(own: seq<Event>, children: seq<Span>, fold: Span -> Event)
    requires Marks(fold) && forall e :: e in own ==> !IsEmbedded(e)
    ensures NoEmbeddedRepeats(own + Map(fold, children)) <==> ToldApart(own, children, fold)
  {
    if children == [] {
      assert own + Map(fold, children) == own;
    } else {
      var n := |children| - 1;
      var before, c := children[..n], children[n];
      assert children == before + [c];
      NoRepeatsMeans(own, before, fold);
      MapAppend(fold, before, c);
      var es := own + Map(fold, before);
      Regroup(own, Map(fold, before), [fold(c)]);
      assert (es + [fold(c)])[..|es|] == es;
      RepeatsLast(es + [fold(c)]);
      RepeatsFolded(own, before, fold, c);
      ToldApartLast(own, before, fold, c);
    }
  }

  /** Folding a parent without earlier embedded events and going through dictionaries gives back the folded
      children, restored and in start-time order, exactly when the children differ pairwise in name or start time
      and none has the name and time of an event of the parent. */
  lemma FoldThenExpandDict(parent: Span, children: seq<Tree>)
    requires forall e :: e in parent.events ==> !IsEmbedded(e)
    ensures var d := ToDict(FoldSpan(parent, children));
            ExpandDictAll(d, Filter(d.events, IsEmbedded)) == ToDicts(RestoredAll(parent, FoldOrder(children)))
            <==> ToldApart(parent.events, SpanSeq(children), EventFor)
  {
    var folded := FoldSpan(parent, children);
    FoldedFoldlike(parent, FoldOrder(children));
    DictPathAgrees(folded);
    OnlyFoldedExpand(parent, children);
    RepeatsOfFolded(parent, children);
  }

  lemma OnlyFoldedExpand(parent: Span, children: seq<Tree>)
    requires forall e :: e in parent.events ==> !IsEmbedded(e)
    ensures var folded := FoldSpan(parent, children);
            ExpandEvents(folded, folded.events) == Some(RestoredAll(parent, FoldOrder(children)))
  {
    NoneToExpand(parent, parent.events);
    FoldThenExpand(parent, children);
    var back := RestoredAll(parent, FoldOrder(children));
    assert [] + back == back;
  }

  lemma RepeatsOfFolded(parent: Span, children: seq<Tree>)
    requires forall e :: e in parent.events ==> !IsEmbedded(e)
    ensures NoEmbeddedRepeats(FoldSpan(parent, children).events) <==>
            ToldApart(parent.events, SpanSeq(children), EventFor)
  {
    EventForMarks();
    NoRepeatsMeans(parent.events, FoldOrder(children), EventFor);
    ToldApartPermutes(parent.events, children, EventFor);
  }

  lemma EventForMarks()
    ensures Marks(EventFor)
  {
    forall x: Span
      ensures IsEmbedded(EventFor(x))
    {
      ExpandRestores(x, x);
    }
  }

  lemma FoldedFoldlike(parent: Span, children: seq<Span>)
    requires forall e :: e in parent.events ==> !IsEmbedded(e)
    ensures forall e :: e in parent.events + EventsFor(children) && IsEmbedded(e) ==> Foldlike(e)
  {
    forall e | e in parent.events + EventsFor(children) && IsEmbedded(e)
      ensures Foldlike(e)
    {
      var i :| 0 <= i < |children| && e == EventsFor(children)[i];
      FoldedEventsFoldlike(children[i]);
    }
  }

  lemma {:induction false} NoneToExpand(parent: Span, es: seq<Event>)
    requires forall e :: e in es ==> !IsEmbedded(e)
    ensures ExpandEvents(parent, es) == Some([])
  {
    if es != [] {
      assert es[0] in es;
      NoneToExpand(parent, es[1..]);
    }
  }
}
