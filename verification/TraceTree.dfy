/** `TraceTree` of agent_obs/tree_compressor.py, its traversals and its metrics. */
module TraceTree {
  import opened Spans
  import opened Sequences

  datatype Tree = Node(span: Span, children: seq<Tree>, compressed: bool, ratio: real) {
    function Id(): string { span.Id() }
  }

  // ---------------------------------------------------------------- reference views

  /** All nodes, children before parents, left to right. */
  function Nodes(t: Tree): (ns: seq<Tree>)
    ensures |ns| > 0 && ns[|ns| - 1] == t
    decreases t, 1
  {
    NodesF(t.children) + [t]
  }

  function NodesF(ts: seq<Tree>): seq<Tree>
    decreases ts, 0
  {
    if ts == [] then [] else Nodes(ts[0]) + NodesF(ts[1..])
  }

  function Size(t: Tree): nat
    decreases t, 1
  {
    1 + SizeF(t.children)
  }

  function SizeF(ts: seq<Tree>): nat
    decreases ts, 0
  {
    if ts == [] then 0 else Size(ts[0]) + SizeF(ts[1..])
  }

  /** Some span of the subtree has status "error". */
  predicate HasError(t: Tree)
    decreases t, 1
  {
    t.span.IsError() || HasErrorF(t.children)
  }

  predicate HasErrorF(ts: seq<Tree>)
    decreases ts, 0
  {
    ts != [] && (HasError(ts[0]) || HasErrorF(ts[1..]))
  }

  /** The spans of the subtree, with multiplicity. */
  ghost function SpansOf(t: Tree): multiset<Span>
    decreases t, 1
  {
    multiset{t.span} + SpansF(t.children)
  }

  ghost function SpansF(ts: seq<Tree>): multiset<Span>
    decreases ts, 0
  {
    if ts == [] then multiset{} else SpansOf(ts[0]) + SpansF(ts[1..])
  }

  ghost predicate DistinctIds(t: Tree) {
    DistinctNodeIds(Nodes(t))
  }

  ghost predicate DistinctNodeIds(ns: seq<Tree>) {
    forall i, j :: 0 <= i < j < |ns| ==> ns[i].Id() != ns[j].Id()
  }

  // ---------------------------------------------------------------- facts about the views

  lemma {:induction false} NodesConcat(xs: seq<Tree>, ys: seq<Tree>)
    ensures NodesF(xs + ys) == NodesF(xs) + NodesF(ys)
  {
    if xs == [] {
      assert xs + ys == ys;
    } else {
      assert (xs + ys)[1..] == xs[1..] + ys;
      NodesConcat(xs[1..], ys);
    }
  }

  lemma {:induction false} SizeConcat(xs: seq<Tree>, ys: seq<Tree>)
    ensures SizeF(xs + ys) == SizeF(xs) + SizeF(ys)
  {
    if xs == [] {
      assert xs + ys == ys;
    } else {
      assert (xs + ys)[1..] == xs[1..] + ys;
      SizeConcat(xs[1..], ys);
    }
  }

  lemma {:induction false} SizeReversed(ts: seq<Tree>)
    ensures SizeF(Reverse(ts)) == SizeF(ts)
  {
    if ts != [] {
      SizeReversed(ts[1..]);
      SizeConcat(Reverse(ts[1..]), [ts[0]]);
    }
  }

  /** Popping a node off a stack and pushing its children leaves fewer nodes to visit. */
  lemma StackShrinks(rest: seq<Tree>, top: Tree)
    ensures SizeF(rest + Reverse(top.children)) < SizeF(rest + [top])
  {
    SizeConcat(rest, [top]);
    SizeConcat(rest, Reverse(top.children));
    SizeReversed(top.children);
  }

  lemma {:induction false} SpansConcat(xs: seq<Tree>, ys: seq<Tree>)
    ensures SpansF(xs + ys) == SpansF(xs) + SpansF(ys)
  {
    if xs == [] {
      assert xs + ys == ys;
    } else {
      assert (xs + ys)[1..] == xs[1..] + ys;
      SpansConcat(xs[1..], ys);
    }
  }

  lemma SpansAppend(ts: seq<Tree>, t: Tree)
    ensures SpansF(ts + [t]) == SpansF(ts) + SpansOf(t)
  {
    SpansConcat(ts, [t]);
    assert SpansF([t]) == SpansOf(t) + SpansF([t][1..]);
  }

  lemma SpansOfOne(t: Tree)
    ensures SpansF([t]) == SpansOf(t)
  {
    assert SpansF([t]) == SpansOf(t) + SpansF([t][1..]);
  }

  /** A node lies below a forest exactly when it lies below one of its trees. */
  lemma {:induction false} InForest(ts: seq<Tree>, n: Tree)
    ensures n in NodesF(ts) <==> exists i :: 0 <= i < |ts| && n in Nodes(ts[i])
  {
    if ts != [] {
      InForest(ts[1..], n);
      if n in NodesF(ts[1..]) {
        var i :| 0 <= i < |ts[1..]| && n in Nodes(ts[1..][i]);
        assert n in Nodes(ts[i + 1]);
      }
      if j :| 1 <= j < |ts| && n in Nodes(ts[j]) {
        assert n in Nodes(ts[1..][j - 1]);
      }
    }
  }

  lemma FrontNodes(ts: seq<Tree>)
    requires ts != []
    ensures forall n :: n in NodesF(ts) <==> n in Nodes(ts[0]) || n in NodesF(ts[1..])
  {
    assert NodesF(ts) == Nodes(ts[0]) + NodesF(ts[1..]);
  }

  /** The subtrees of a subtree are subtrees. */
  lemma {:induction false} NodesTransitive(t: Tree, n: Tree, m: Tree)
    requires n in Nodes(t) && m in Nodes(n)
    ensures m in Nodes(t)
    decreases t
  {
    if n != t {
      InForest(t.children, n);
      var i :| 0 <= i < |t.children| && n in Nodes(t.children[i]);
      NodesTransitive(t.children[i], n, m);
      InForest(t.children, m);
    }
  }

  lemma {:induction false} SizeIsNodeCount(t: Tree)
    ensures |Nodes(t)| == Size(t)
    decreases t, 1
  {
    SizeIsNodeCountF(t.children);
  }

  lemma {:induction false} SizeIsNodeCountF(ts: seq<Tree>)
    ensures |NodesF(ts)| == SizeF(ts)
    decreases ts, 0
  {
    if ts != [] {
      SizeIsNodeCount(ts[0]);
      SizeIsNodeCountF(ts[1..]);
    }
  }

  lemma {:induction false} SizeIsSpanCount(t: Tree)
    ensures |SpansOf(t)| == Size(t)
    decreases t, 1
  {
    SizeIsSpanCountF(t.children);
  }

  lemma {:induction false} SizeIsSpanCountF(ts: seq<Tree>)
    ensures |SpansF(ts)| == SizeF(ts)
    decreases ts, 0
  {
    if ts != [] {
      SizeIsSpanCount(ts[0]);
      SizeIsSpanCountF(ts[1..]);
    }
  }

  function SpanOf(t: Tree): Span { t.span }

  /** The spans of `ns`, in order. */
  function SpanSeq(ns: seq<Tree>): (ss: seq<Span>)
    ensures |ss| == |ns|
    ensures forall i :: 0 <= i < |ns| ==> ss[i] == ns[i].span
  {
    Map(SpanOf, ns)
  }

  lemma {:induction false} SpansAreNodeSpans(t: Tree)
    ensures SpansOf(t) == multiset(SpanSeq(Nodes(t)))
    decreases t, 1
  {
    SpansAreNodeSpansF(t.children);
    MapAppend(SpanOf, NodesF(t.children), t);
  }

  lemma {:induction false} SpansAreNodeSpansF(ts: seq<Tree>)
    ensures SpansF(ts) == multiset(SpanSeq(NodesF(ts)))
    decreases ts, 0
  {
    if ts != [] {
      SpansAreNodeSpans(ts[0]);
      SpansAreNodeSpansF(ts[1..]);
      MapConcat(SpanOf, Nodes(ts[0]), NodesF(ts[1..]));
    }
  }

  /** A span belongs to a tree exactly when one of the nodes carries it. */
  lemma SpanHasNode(t: Tree, s: Span)
    ensures s in SpansOf(t) <==> exists n :: n in Nodes(t) && n.span == s
  {
    SpansAreNodeSpans(t);
    var ss := SpanSeq(Nodes(t));
    assert s in multiset(ss) <==> s in ss;
    if n :| n in Nodes(t) && n.span == s {
      var i :| 0 <= i < |Nodes(t)| && Nodes(t)[i] == n;
      assert ss[i] == s;
    }
  }

  lemma {:induction false} SpansSorted(ts: seq<Tree>, key: Tree -> int)
    ensures SpansF(SortBy(ts, key)) == SpansF(ts)
  {
    if ts != [] {
      SpansSorted(ts[1..], key);
      SpansInserted(ts[0], SortBy(ts[1..], key), key);
    }
  }

  lemma {:induction false} SpansInserted(t: Tree, ts: seq<Tree>, key: Tree -> int)
    ensures SpansF(InsertBy(t, ts, key)) == SpansOf(t) + SpansF(ts)
  {
    if ts == [] || key(t) <= key(ts[0]) {
      assert ([t] + ts)[1..] == ts;
    } else {
      SpansInserted(t, ts[1..], key);
      assert ([ts[0]] + InsertBy(t, ts[1..], key))[1..] == InsertBy(t, ts[1..], key);
    }
  }

  /** Errors are visible from above: a subtree of an error-free tree is error-free. */
  lemma {:induction false} ErrorsRise(t: Tree, n: Tree)
    requires n in Nodes(t) && HasError(n)
    ensures HasError(t)
    decreases t
  {
    if n != t {
      InForest(t.children, n);
      var i :| 0 <= i < |t.children| && n in Nodes(t.children[i]);
      ErrorsRise(t.children[i], n);
      ErrorsRiseF(t.children, i);
    }
  }

  lemma {:induction false} ErrorsRiseF(ts: seq<Tree>, i: nat)
    requires i < |ts| && HasError(ts[i])
    ensures HasErrorF(ts)
  {
    if i > 0 {
      ErrorsRiseF(ts[1..], i - 1);
    }
  }

  /** `HasError` says exactly that an erroneous span lies in the subtree. */
  lemma ErrorMeans(t: Tree)
    ensures HasError(t) <==> exists n :: n in Nodes(t) && n.span.IsError()
  {
    if HasError(t) {
      var n := ErrorWitness(t);
    }
    if n :| n in Nodes(t) && n.span.IsError() {
      ErrorsRise(t, n);
    }
  }

  lemma {:induction false} ErrorWitness(t: Tree) returns (n: Tree)
    requires HasError(t)
    ensures n in Nodes(t) && n.span.IsError()
    decreases t, 1
  {
    if t.span.IsError() {
      n := t;
    } else {
      n := ErrorWitnessF(t.children);
    }
  }

  lemma {:induction false} ErrorWitnessF(ts: seq<Tree>) returns (n: Tree)
    requires HasErrorF(ts)
    ensures n in NodesF(ts) && n.span.IsError()
    decreases ts, 0
  {
    if HasError(ts[0]) {
      n := ErrorWitness(ts[0]);
    } else {
      n := ErrorWitnessF(ts[1..]);
    }
  }

  lemma PartsDisjoint(xs: seq<Tree>, ys: seq<Tree>, m: Tree, n: Tree)
    requires DistinctNodeIds(xs + ys) && m in xs && n in ys
    ensures m.Id() != n.Id()
  {
    var a :| 0 <= a < |xs| && xs[a] == m;
    var b :| 0 <= b < |ys| && ys[b] == n;
    assert (xs + ys)[a] == m && (xs + ys)[|xs| + b] == n;
  }

  /** Different branches of a tree with distinct ids share no id. */
  lemma BranchesDisjoint(t: Tree, i: nat, j: nat, m: Tree, n: Tree)
    requires DistinctIds(t)
    requires i < j < |t.children|
    requires m in Nodes(t.children[i]) && n in Nodes(t.children[j])
    ensures m.Id() != n.Id()
  {
    var left, right := t.children[..j], t.children[j..];
    assert t.children == left + right;
    NodesConcat(left, right);
    assert left[i] == t.children[i] && right[0] == t.children[j];
    InForest(left, m);
    InForest(right, n);
    assert Nodes(t) == NodesF(left) + (NodesF(right) + [t]);
    PartsDisjoint(NodesF(left), NodesF(right) + [t], m, n);
  }

  /** The root's id does not occur below it. */
  lemma RootIdFresh(t: Tree, n: Tree)
    requires DistinctIds(t) && n in NodesF(t.children)
    ensures n.Id() != t.Id()
  {
    PartsDisjoint(NodesF(t.children), [t], n, t);
  }
}
