/** `_extract_subtree_spans` of agent_obs/eval/tree_summary_worker.py: the spans a summary stands
    for, recovered from the flat list by a search over a parent map. */
module SummaryWorker {
  import opened Basics
  import opened Spans
  import opened Sequences
  import opened TraceTree
  import opened TreeBuilder
  import opened BuilderFacts

  predicate HasParent(s: Span, parent: Option<string>) { s.context.parentSpanId == parent }

  /** The search goes on to `c` from a span with this id. */
  predicate GoesOn(c: Span, id: string) { HasParent(c, Some(id)) && !c.IsSummary() }

  // ---------------------------------------------------------------- where the search ends

  /** From `s` the search goes on for at most `n` levels. */
  ghost predicate Ends(spans: seq<Span>, s: Span, n: nat)
    decreases n
  {
    forall c {:trigger GoesOn(c, s.Id())} :: c in spans && GoesOn(c, s.Id()) ==> n > 0 && Ends(spans, c, n - 1)
  }

  ghost predicate Searchable(spans: seq<Span>, s: Span) {
    exists n: nat :: Ends(spans, s, n)
  }

  /** The search goes from `a` on to `b`. */
  ghost predicate Step(spans: seq<Span>, a: Span, b: Span) {
    b in spans && GoesOn(b, a.Id())
  }

  /** A way that the search goes from `s`, `n` steps long. */
  ghost predicate IsWay(spans: seq<Span>, s: Span, way: seq<Span>, n: nat) {
    |way| == n + 1 && way[0] == s && forall i, j :: 0 <= i && j == i + 1 < |way| ==> Step(spans, way[i], way[j])
  }

  ghost predicate HasWay(spans: seq<Span>, s: Span, n: nat) {
    exists way :: IsWay(spans, s, way, n)
  }

  lemma WayTail(spans: seq<Span>, s: Span, way: seq<Span>, n: nat)
    requires IsWay(spans, s, way, n) && n > 0
    ensures Step(spans, s, way[1]) && IsWay(spans, way[1], way[1..], n - 1)
  {
    var tail := way[1..];
    assert Step(spans, way[0], way[1]);
    forall i, j | 0 <= i && j == i + 1 < |tail|
      ensures Step(spans, tail[i], tail[j])
    {
      assert Step(spans, way[i + 1], way[j + 1]);
    }
  }

  lemma WayFront(spans: seq<Span>, s: Span, c: Span, rest: seq<Span>, n: nat)
    requires Step(spans, s, c) && IsWay(spans, c, rest, n)
    ensures IsWay(spans, s, [s] + rest, n + 1)
  {
    var way := [s] + rest;
    forall i, j | 0 <= i && j == i + 1 < |way|
      ensures Step(spans, way[i], way[j])
    {
      if i > 0 {
        assert Step(spans, rest[i - 1], rest[j - 1]);
      }
    }
  }

  lemma {:induction false} NoLongWay(spans: seq<Span>, s: Span, way: seq<Span>, n: nat)
    requires Ends(spans, s, n) && IsWay(spans, s, way, n + 1)
    ensures false
    decreases n
  {
    WayTail(spans, s, way, n + 1);
    assert GoesOn(way[1], s.Id());
    NoLongWay(spans, way[1], way[1..], n - 1);
  }

  lemma {:induction false} LongWay(spans: seq<Span>, s: Span, n: nat) returns (way: seq<Span>)
    requires !Ends(spans, s, n)
    ensures IsWay(spans, s, way, n + 1)
    decreases n
  {
    var c :| c in spans && GoesOn(c, s.Id()) && !(n > 0 && Ends(spans, c, n - 1));
    if n == 0 {
      way := [s, c];
    } else {
      way := LongWay(spans, c, n - 1);
      WayFront(spans, s, c, way, n);
      way := [s] + way;
    }
  }

  /** The search from `s` ends within `n` levels exactly when no way from `s` is longer. So it ends at all exactly
      on the lists for which this holds of some `n`. */
  lemma EndsMeans(spans: seq<Span>, s: Span, n: nat)
    ensures Ends(spans, s, n) <==> !HasWay(spans, s, n + 1)
  {
    if Ends(spans, s, n) {
      if HasWay(spans, s, n + 1) {
        var m := n + 1;
        var way :| IsWay(spans, s, way, m);
        NoLongWay(spans, s, way, n);
        assert false;
      }
    } else {
      var way := LongWay(spans, s, n);
    }
  }

  lemma {:induction false} EndsMore(spans: seq<Span>, s: Span, m: nat, n: nat)
    requires Ends(spans, s, m) && m <= n
    ensures Ends(spans, s, n)
    decreases m
  {
    forall c | c in spans && GoesOn(c, s.Id())
      ensures n > 0 && Ends(spans, c, n - 1)
    {
      EndsMore(spans, c, m - 1, n - 1);
    }
  }

  // ---------------------------------------------------------------- what the search sees

  function Goes(id: string): Span -> bool {
    (s: Span) => GoesOn(s, id)
  }

  /** Where the search goes on from a span. */
  function Onward(spans: seq<Span>): Span -> seq<Span> {
    (s: Span) => Filter(spans, Goes(s.Id()))
  }

  lemma OnwardMeans(spans: seq<Span>, s: Span, x: Span)
    ensures x in Onward(spans)(s) <==> Step(spans, s, x)
  {
  }

  /** The search by levels runs out. */
  lemma {:induction false} LevelsEnd(spans: seq<Span>, starts: seq<Span>, n: nat)
    requires forall s :: s in starts ==> Ends(spans, s, n)
    ensures Exhausts(Onward(spans), starts, n + 1)
    decreases n
  {
    if n == 0 {
      forall i | 0 <= i < |starts|
        ensures Onward(spans)(starts[i]) == []
      {
        NothingOnward(spans, starts[i]);
      }
      NoneBelow(Onward(spans), starts);
    } else {
      var below := Level(Onward(spans), starts);
      forall x | x in below
        ensures Ends(spans, x, n - 1)
      {
        LevelMembers(Onward(spans), starts, x);
        var y :| y in starts && x in Onward(spans)(y);
        OnwardMeans(spans, y, x);
      }
      LevelsEnd(spans, below, n - 1);
    }
  }

  lemma NothingOnward(spans: seq<Span>, s: Span)
    requires Ends(spans, s, 0)
    ensures Onward(spans)(s) == []
  {
    var next := Onward(spans)(s);
    if next != [] {
      OnwardMeans(spans, s, next[0]);
      assert false;
    }
  }

  /** How many levels the search from `s` takes. */
  ghost function LevelCount(spans: seq<Span>, s: Span): (n: nat)
    requires Searchable(spans, s)
    ensures Exhausts(Onward(spans), [s], n)
  {
    var n: nat :| Ends(spans, s, n);
    LevelsEnd(spans, [s], n);
    n + 1
  }

  /** The spans in the order in which the search takes them from the queue: level by level. */
  ghost function SearchOrder(spans: seq<Span>, s: Span): seq<Span>
    requires Searchable(spans, s)
  {
    Levels(Onward(spans), [s], LevelCount(spans, s))
  }

  /** From every span found, the search goes on exactly to the listed children that are no summaries; so a summary
      can only be found where the search starts. */
  lemma FoundClosed(spans: seq<Span>, s: Span, x: Span, c: Span)
    requires Searchable(spans, s) && x in SearchOrder(spans, s)
    requires c in spans && c.context.parentSpanId == Some(x.context.spanId)
    requires TypeName(c.spanType) != "agent.reasoning.compressed"
    ensures c in SearchOrder(spans, s)
  {
    FoundIffWay(spans, s, x);
    FoundIffWay(spans, s, c);
    var k: nat :| WayTo(spans, [s], x, k);
    var z, way :| z in [s] && IsWay(spans, z, way, k) && way[k] == x;
    assert GoesOn(c, x.Id());
    WayBack(spans, s, way, k, c);
  }

  lemma WayBack(spans: seq<Span>, s: Span, way: seq<Span>, k: nat, c: Span)
    requires IsWay(spans, s, way, k) && Step(spans, way[k], c)
    ensures WayTo(spans, [s], c, k + 1)
  {
    var longer := way + [c];
    forall i, j | 0 <= i && j == i + 1 < |longer|
      ensures Step(spans, longer[i], longer[j])
    {
      if j < |way| {
        assert Step(spans, way[i], way[j]);
      }
    }
    assert s in [s] && IsWay(spans, s, longer, k + 1) && longer[k + 1] == c;
  }

  lemma FoundNoSummary(spans: seq<Span>, s: Span, x: Span)
    requires Searchable(spans, s) && x in SearchOrder(spans, s) && x != s
    ensures x in spans && TypeName(x.spanType) != "agent.reasoning.compressed"
    ensures exists p :: p in SearchOrder(spans, s) && x.context.parentSpanId == Some(p.context.spanId)
  {
    FoundIffWay(spans, s, x);
    var k: nat :| WayTo(spans, [s], x, k);
    var z, way :| z in [s] && IsWay(spans, z, way, k) && way[k] == x;
    var m: nat := k - 1;
    assert Step(spans, way[m], way[k]);
    assert ParseTypeName(TypeName(x.spanType)) == Some(x.spanType);
    var front := way[..k];
    forall i, j | 0 <= i && j == i + 1 < |front|
      ensures Step(spans, front[i], front[j])
    {
      assert Step(spans, way[i], way[j]);
    }
    assert s in [s] && IsWay(spans, s, front, m) && front[m] == way[m];
    assert WayTo(spans, [s], way[m], m);
    FoundIffWay(spans, s, way[m]);
  }

  /** It is the same for every number of levels that suffices. */
  lemma SearchOrderUnique(spans: seq<Span>, s: Span, n: nat)
    requires Searchable(spans, s) && Exhausts(Onward(spans), [s], n)
    ensures Levels(Onward(spans), [s], n) == SearchOrder(spans, s)
  {
    var m := LevelCount(spans, s);
    LevelsRunOut(Onward(spans), [s], if m < n then m else n, if m < n then n else m);
  }

  /** A way of `k` steps leads from one of `starts` to `x`. */
  ghost predicate WayTo(spans: seq<Span>, starts: seq<Span>, x: Span, k: nat) {
    exists s, way :: s in starts && IsWay(spans, s, way, k) && way[k] == x
  }

  lemma {:induction false} LevelsAreWays(spans: seq<Span>, starts: seq<Span>, x: Span, k: nat)
    ensures x in LevelAt(Onward(spans), starts, k) <==> WayTo(spans, starts, x, k)
    decreases k
  {
    if k == 0 {
      NoStep(spans, starts, x);
    } else {
      LevelsAreWays(spans, Level(Onward(spans), starts), x, k - 1);
      WaysByLevel(spans, starts, x, k);
    }
  }

  lemma NoStep(spans: seq<Span>, starts: seq<Span>, x: Span)
    ensures WayTo(spans, starts, x, 0) <==> x in starts
  {
    if x in starts {
      assert IsWay(spans, x, [x], 0) && [x][0] == x;
    }
  }

  lemma WaysByLevel(spans: seq<Span>, starts: seq<Span>, x: Span, k: nat)
    requires k > 0
    ensures WayTo(spans, starts, x, k) <==> WayTo(spans, Level(Onward(spans), starts), x, k - 1)
  {
    if WayTo(spans, starts, x, k) {
      WayDown(spans, starts, x, k);
    }
    if WayTo(spans, Level(Onward(spans), starts), x, k - 1) {
      WayUp(spans, starts, x, k);
    }
  }

  lemma WayDown(spans: seq<Span>, starts: seq<Span>, x: Span, k: nat)
    requires k > 0 && WayTo(spans, starts, x, k)
    ensures WayTo(spans, Level(Onward(spans), starts), x, k - 1)
  {
    var m := k - 1;
    var s, way :| s in starts && IsWay(spans, s, way, k) && way[k] == x;
    WayTail(spans, s, way, k);
    OnwardMeans(spans, s, way[1]);
    LevelMembers(Onward(spans), starts, way[1]);
    assert IsWay(spans, way[1], way[1..], m) && way[1..][m] == x;
  }

  lemma WayUp(spans: seq<Span>, starts: seq<Span>, x: Span, k: nat)
    requires k > 0 && WayTo(spans, Level(Onward(spans), starts), x, k - 1)
    ensures WayTo(spans, starts, x, k)
  {
    var m := k - 1;
    var c, rest :| c in Level(Onward(spans), starts) && IsWay(spans, c, rest, m) && rest[m] == x;
    LevelMembers(Onward(spans), starts, c);
    var s :| s in starts && c in Onward(spans)(s);
    OnwardMeans(spans, s, c);
    WayFront(spans, s, c, rest, m);
    assert IsWay(spans, s, [s] + rest, k) && ([s] + rest)[k] == x;
  }

  /** The search finds exactly the spans to which a way leads. */
  lemma FoundIffWay(spans: seq<Span>, s: Span, x: Span)
    requires Searchable(spans, s)
    ensures x in SearchOrder(spans, s) <==> exists k: nat :: WayTo(spans, [s], x, k)
  {
    InLevels(Onward(spans), [s], LevelCount(spans, s), x);
    if k: nat :| AtLevel(Onward(spans), [s], x, k) {
      LevelsAreWays(spans, [s], x, k);
    }
    if k: nat :| WayTo(spans, [s], x, k) {
      LevelsAreWays(spans, [s], x, k);
      assert AtLevel(Onward(spans), [s], x, k);
    }
  }

  /** Lines 98-110: children lists by parent pointer, and the span with the wanted id. */
  method IndexByParent(spans: seq<Span>, id: string)
    returns (children: map<Option<string>, seq<Span>>, root: Option<Span>)
    ensures Indexed(children, spans)
    ensures root == LastWith(spans, id, |spans|)
  {
    children, root := map[], None;
    for i := 0 to |spans|
      invariant Indexed(children, spans[..i])
      invariant root == LastWith(spans, id, i)
    {
      var span := spans[i];
      var parent := span.context.parentSpanId;
      assert spans[..i + 1] == spans[..i] + [span];
      IndexStep(children, spans[..i], span);
      children := children[parent := Lookup(children, parent) + [span]];
      if span.Id() == id {
        root := Some(span);
      }
    }
    assert spans[..|spans|] == spans;
  }

  /** The map lists the children of every parent. */
  ghost predicate Indexed(children: map<Option<string>, seq<Span>>, spans: seq<Span>) {
    forall p :: Lookup(children, p) == Filter(spans, s => HasParent(s, p))
  }

  function Indexing(children: map<Option<string>, seq<Span>>, span: Span): map<Option<string>, seq<Span>> {
    var parent := span.context.parentSpanId;
    children[parent := Lookup(children, parent) + [span]]
  }

  lemma IndexStep(children: map<Option<string>, seq<Span>>, before: seq<Span>, span: Span)
    requires Indexed(children, before)
    ensures Indexed(Indexing(children, span), before + [span])
  {
    forall p
      ensures Lookup(Indexing(children, span), p) == Filter(before + [span], s => HasParent(s, p))
    {
      FilterAppend(before, [span], s => HasParent(s, p));
      assert [span][1..] == [];
      assert Lookup(children, p) == Filter(before, s => HasParent(s, p));
    }
  }

  function Lookup(children: map<Option<string>, seq<Span>>, p: Option<string>): seq<Span> {
    if p in children then children[p] else []
  }

  ghost predicate NoneAfter(spans: seq<Span>, id: string, i: int, k: nat) {
    forall j :: 0 <= i < j < k <= |spans| ==> spans[j].Id() != id
  }

  /** The last of the first `k` spans with the id. */
  function LastWith(spans: seq<Span>, id: string, k: nat): (r: Option<Span>)
    requires k <= |spans|
    ensures r.None? <==> forall s :: s in spans[..k] ==> s.Id() != id
    ensures r.Some? ==> r.value in spans && r.value.Id() == id
    ensures r.Some? ==> exists i :: 0 <= i < k && spans[i] == r.value && NoneAfter(spans, id, i, k)
  {
    if k == 0 then None
    else
      assert spans[..k] == spans[..k - 1] + [spans[k - 1]];
      if spans[k - 1].Id() == id then Some(spans[k - 1]) else LastWith(spans, id, k - 1)
  }

  /** What the search from `s` returns: the spans in search order, sorted by start time. */
  ghost predicate Finds(spans: seq<Span>, s: Span, found: seq<Span>) {
    Searchable(spans, s) && found == SortBy(SearchOrder(spans, s), StartOf)
  }

  /** `_extract_subtree_spans`, for every list on which the search ends. */
  method ExtractSubtree(spans: seq<Span>, id: string) returns (r: seq<Span>)
    requires var root := LastWith(spans, id, |spans|); root.Some? ==> Searchable(spans, root.value)
    ensures var root := LastWith(spans, id, |spans|); if root.None? then r == [] else Finds(spans, root.value, r)
  {
    var children, root := IndexByParent(spans, id);
    if root.None? {
      return [];
    }
    OnwardByMap(children, spans);
    r := Search(children, root.value, Onward(spans), LevelCount(spans, root.value));
    r := SortBy(r, StartOf);
  }

  /** The children of a span in the map, without the summaries. */
  function FromMap(children: map<Option<string>, seq<Span>>, s: Span): seq<Span> {
    Filter(Lookup(children, Some(s.Id())), (s: Span) => !s.IsSummary())
  }

  lemma OnwardByMap(children: map<Option<string>, seq<Span>>, spans: seq<Span>)
    requires Indexed(children, spans)
    ensures forall s :: FromMap(children, s) == Onward(spans)(s)
  {
    forall s: Span
      ensures FromMap(children, s) == Onward(spans)(s)
    {
      var p, q := (x: Span) => HasParent(x, Some(s.Id())), (x: Span) => !x.IsSummary();
      assert Lookup(children, Some(s.Id())) == Filter(spans, p);
      FilterTwice(spans, p, q, Goes(s.Id()));
    }
  }

  /** The loop over the queue. */
  method Search(children: map<Option<string>, seq<Span>>, root: Span, ghost next: Span -> seq<Span>, ghost levels: nat)
    returns (r: seq<Span>)
    requires (forall s :: FromMap(children, s) == next(s)) && Exhausts(next, [root], levels)
    ensures r == Levels(next, [root], levels)
  {
    ghost var n := levels;
    ghost var a, b: seq<Span> := [], [root];
    assert b + Level(next, a) == [root];
    r := [];
    var queue := [root];
    while queue != []
      invariant queue == a + b && Exhausts(next, b + Level(next, a), n)
      invariant r + Pending(next, a, b, n) == Levels(next, [root], levels)
      decreases |Pending(next, a, b, n)|
    {
      var current := queue[0];
      var followed := FromMap(children, current);
      QueueTurn(next, a, b, n);
      TurnedQueue(next, a, b);
      n := LevelsLeft(a, n);
      a, b := Turned(next, a, b).0, Turned(next, a, b).1;
      Regroup(r, [current], Pending(next, a, b, n));
      r := r + [current];
      queue := queue[1..] + followed;
    }
    assert a == [] && b == [];
    assert Pending(next, [], [], n) == [];
  }

  /** What is found is a permutation of the search order, sorted by start time, and spans with equal start times come
      in search order. */
  lemma FoundInOrder(spans: seq<Span>, s: Span, found: seq<Span>, k: int)
    requires Finds(spans, s, found)
    ensures multiset(found) == multiset(SearchOrder(spans, s)) && Ordered(found, StartOf)
    ensures Filter(found, KeyIs(StartOf, k)) == Filter(SearchOrder(spans, s), KeyIs(StartOf, k))
  {
    SortPermutes(SearchOrder(spans, s), StartOf);
    SortOrdered(SearchOrder(spans, s), StartOf);
    SortStable(SearchOrder(spans, s), StartOf, k);
  }

  // ---------------------------------------------------------------- agreement with the builder

  ghost predicate NoSummaries(spans: seq<Span>) {
    forall s :: s in spans ==> !s.IsSummary()
  }

  /** On every list that the builder accepts the search ends. */
  lemma {:induction false} SearchEnds(spans: seq<Span>, s: Span)
    requires Ready(spans) && s in spans
    ensures Ends(spans, s, Below(spans, s)) && Searchable(spans, s)
    decreases Below(spans, s)
  {
    forall c | c in spans && GoesOn(c, s.Id())
      ensures Below(spans, s) > 0 && Ends(spans, c, Below(spans, s) - 1)
    {
      BelowShrinks(spans, c, s);
      SearchEnds(spans, c);
      EndsMore(spans, c, Below(spans, c), Below(spans, s) - 1);
    }
    var n: nat := Below(spans, s);
    assert Ends(spans, s, n);
  }

  /** The tree that the builder makes for a listed span. */
  ghost function TreeMaker(spans: seq<Span>): Span -> Tree
    requires Ready(spans)
  {
    (s: Span) => if Ready(spans) && s in spans then BuildTree(spans, s) else Node(s, [], false, 0.0)
  }

  lemma ChildTreesGrow(spans: seq<Span>, p: Span, k: nat)
    requires Ready(spans) && NoSummaries(spans) && p in spans && 0 < k <= |spans|
    ensures ChildTrees(spans, p, k) ==
            ChildTrees(spans, p, k - 1)
            + if Goes(p.Id())(spans[k - 1]) then [TreeMaker(spans)(spans[k - 1])] else []
  {
    assert spans[k - 1] in spans;
    assert Goes(p.Id())(spans[k - 1]) <==> IsChild(spans[k - 1], p);
  }

  /** Without summaries in the list, the search goes on to the children of the built tree. */
  lemma {:induction false} FollowedAreChildren(spans: seq<Span>, p: Span, k: nat)
    requires Ready(spans) && NoSummaries(spans) && p in spans && k <= |spans|
    ensures Map(TreeMaker(spans), Filter(spans[..k], Goes(p.Id()))) == ChildTrees(spans, p, k)
  {
    if k > 0 {
      var c := spans[k - 1];
      FollowedAreChildren(spans, p, k - 1);
      assert spans[..k] == spans[..k - 1] + [c];
      FilterMapLast(TreeMaker(spans), Goes(p.Id()), spans[..k - 1], c);
      ChildTreesGrow(spans, p, k);
    }
  }

  /** `tree` makes of every span in `good` the span over the trees of those to which `next` goes on, which are
      in `good` again. */
  ghost predicate Unfolds(tree: Span -> Tree, next: Span -> seq<Span>, good: set<Span>) {
    forall s :: s in good ==>
      && SpansOf(tree(s)) == multiset{s} + SpansF(Map(tree, next(s)))
      && forall x :: x in next(s) ==> x in good
  }

  lemma MakerUnfolds(spans: seq<Span>)
    requires Ready(spans) && NoSummaries(spans)
    ensures Unfolds(TreeMaker(spans), Onward(spans), set s | s in spans)
  {
    forall s | s in spans
      ensures SpansOf(TreeMaker(spans)(s)) == multiset{s} + SpansF(Map(TreeMaker(spans), Onward(spans)(s)))
      ensures forall x :: x in Onward(spans)(s) ==> x in spans
    {
      assert spans[..|spans|] == spans;
      FollowedAreChildren(spans, s, |spans|);
      SpansSorted(ChildTrees(spans, s, |spans|), LatestFirst);
    }
  }

  /** The spans of the trees of a level are the level and the spans of the trees of the next one. */
  lemma {:induction false} LevelSpans(tree: Span -> Tree, next: Span -> seq<Span>, good: set<Span>, starts: seq<Span>)
    requires Unfolds(tree, next, good) && forall s :: s in starts ==> s in good
    ensures forall x :: x in Level(next, starts) ==> x in good
    ensures SpansF(Map(tree, starts)) == multiset(starts) + SpansF(Map(tree, Level(next, starts)))
  {
    if starts != [] {
      var first, rest := starts[0], starts[1..];
      LevelSpans(tree, next, good, rest);
      assert first in good && starts == [first] + rest;
      MapConcat(tree, next(first), Level(next, rest));
      SpansConcat(Map(tree, next(first)), Map(tree, Level(next, rest)));
    }
  }

  /** So the levels together are the trees of the first one. */
  lemma {:induction false} LevelsAreSubtrees(tree: Span -> Tree, next: Span -> seq<Span>, good: set<Span>,
                                             starts: seq<Span>, n: nat)
    requires Unfolds(tree, next, good) && forall s :: s in starts ==> s in good
    requires Exhausts(next, starts, n)
    ensures multiset(Levels(next, starts, n)) == SpansF(Map(tree, starts))
    decreases n
  {
    if starts != [] {
      LevelSpans(tree, next, good, starts);
      LevelsAreSubtrees(tree, next, good, Level(next, starts), n - 1);
    }
  }

  lemma OneTree(tree: Span -> Tree, s: Span)
    ensures SpansF(Map(tree, [s])) == SpansOf(tree(s))
  {
    assert Map(tree, [s]) == [tree(s)] && [tree(s)][1..] == [];
  }

  /** On every accepted list without summaries the worker's answer for a listed span is the subtree that the builder
      made for it. */
  lemma FoundIsSubtree(spans: seq<Span>, s: Span, found: seq<Span>)
    requires Ready(spans) && NoSummaries(spans) && s in spans && Finds(spans, s, found)
    ensures multiset(found) == SpansOf(BuildTree(spans, s))
  {
    FoundInOrder(spans, s, found, 0);
    MakerUnfolds(spans);
    LevelsAreSubtrees(TreeMaker(spans), Onward(spans), set x | x in spans, [s], LevelCount(spans, s));
    OneTree(TreeMaker(spans), s);
  }

  /** With distinct ids, the span found for the id of a listed span is that span. */
  lemma LastIsOnly(spans: seq<Span>, s: Span)
    requires DistinctSpanIds(spans) && s in spans
    ensures LastWith(spans, s.Id(), |spans|) == Some(s)
  {
    var r := LastWith(spans, s.Id(), |spans|);
    assert spans[..|spans|] == spans;
    SameIdSameSpan(spans, r.value, s);
  }
}
