/** The passes of agent_obs/tree_compressor.py as the code runs them on mutable tree nodes: the rebuild makes new
    nodes, marking, ratios, late summaries and embedding edit nodes in place. Each is proved against the
    function on tree values that describes it. */
module TreesInPlace {
  import opened Basics
  import opened Spans
  import opened Sequences
  import opened TraceTree
  import opened TreeBuilder
  import opened BuilderFacts
  import opened Compression
  import opened CompressionFacts
  import opened Embedding
  import opened Pipeline

  class TreeNode {
    var span: Span
    var children: seq<TreeNode>
    var compressed: bool
    var ratio: real
    ghost var repr: set<TreeNode>

    /** The objects below form a tree: no node is reached twice. */
    ghost predicate Valid()
      reads this, repr
      decreases repr
    {
      && this in repr
      && (forall c :: c in children ==> c in repr && c.repr <= repr && this !in c.repr && c.Valid())
      && forall i, j :: 0 <= i < j < |children| ==> children[i].repr !! children[j].repr
    }

    /** The tree value that the objects hold. */
    function Value(): (t: Tree)
      requires Valid()
      reads this, repr
      ensures t.span == span && |t.children| == |children| && t.compressed == compressed && t.ratio == ratio
      ensures forall i :: 0 <= i < |children| ==>
                children[i] in children && children[i].Valid() && t.children[i] == children[i].Value()
      decreases repr
    {
      Node(span,
        seq(|children|, i requires Valid() && 0 <= i < |children| reads this, repr =>
          assert children[i] in children; children[i].Value()),
        compressed, ratio)
    }

    /** A leaf. */
    constructor (span: Span, compressed: bool, ratio: real)
      ensures Valid() && fresh(repr) && Value() == Node(span, [], compressed, ratio)
    {
      this.span, this.children, this.compressed, this.ratio := span, [], compressed, ratio;
      repr := {this};
    }

    /** `children.append(kid)`. */
    method Adopt(kid: TreeNode)
      requires Valid() && kid.Valid() && repr !! kid.repr
      modifies this`children, this`repr
      ensures Valid() && repr == old(repr) + old(kid.repr)
      ensures Value() == old(Value()).(children := old(Value()).children + [old(kid.Value())])
    {
      ghost var before := Value();
      ghost var had := children;
      children := children + [kid];
      repr := repr + kid.repr;
      forall c | c in children
        ensures c.Valid() && c.repr == old(c.repr) && c.Value() == old(c.Value())
      {
        assert this !in old(c.repr);
        assert unchanged(old(c.repr));
      }
    }
  }

  // ---------------------------------------------------------------- passes that edit in place

  /** The four recursive passes: `_mark_compressed_nodes`, `set_ratio`, `_apply_to_node` and `_recurse` of
      `embed` below the root. Each edits a node and then goes on to the children the node has left. */
  datatype Pass = Marking | Setting(ratio: real) | Summarizing(late: map<string, string>) | Folding(limit: int)

  /** What a pass makes of a tree. */
  function Applied(pass: Pass, t: Tree): Tree {
    match pass
    case Marking => Mark(t)
    case Setting(ratio) => SetRatio(t, ratio)
    case Summarizing(late) => ApplyLate(t, late)
    case Folding(limit) => EmbedNode(t, limit)
  }

  /** What a pass does to a node before it goes on to the children. */
  function Edited(pass: Pass, t: Tree): Tree {
    match pass
    case Marking => t.(compressed := t.compressed || exists c :: c in t.children && c.compressed)
    case Setting(ratio) => t.(ratio := ratio)
    case Summarizing(late) => t.(span := LateSpan(t.span, late))
    case Folding(limit) =>
      if Embeddable(t, limit) then t.(span := FoldSpan(t.span, t.children), children := []) else t
  }

  /** Every pass is its edit followed by itself on the remaining children. */
  lemma AppliedByEdit(pass: Pass, t: Tree, rs: seq<Tree>)
    requires |rs| == |Edited(pass, t).children|
    requires forall i :: 0 <= i < |rs| ==> rs[i] == Applied(pass, Edited(pass, t).children[i])
    ensures Applied(pass, t) == Edited(pass, t).(children := rs)
  {
    match pass
    case Marking =>
      MarkPointwise(t.children);
      assert rs == MarkAll(t.children);
    case Setting(ratio) =>
      SetRatioPointwise(t.children, ratio);
      assert rs == SetRatioAll(t.children, ratio);
    case Summarizing(late) =>
      assert rs == ApplyLateAll(t.children, late);
    case Folding(limit) =>
      if !Embeddable(t, limit) {
        assert rs == EmbedAll(t.children, limit);
      }
  }

  lemma {:induction false} MarkPointwise(ts: seq<Tree>)
    ensures forall i :: 0 <= i < |ts| ==> MarkAll(ts)[i] == Mark(ts[i])
  {
    if ts != [] {
      MarkPointwise(ts[1..]);
      forall i | 0 < i < |ts|
        ensures MarkAll(ts)[i] == Mark(ts[i])
      {
        assert ts[i] == ts[1..][i - 1];
      }
    }
  }

  /** Editing a node's own fields leaves its children as they were. */
  twostate lemma SameChildren(p: TreeNode)
    requires old(p.Valid()) && p.children == old(p.children) && p.repr == old(p.repr)
    requires unchanged(old(p.repr) - {p})
    ensures p.Valid() && p.Value().children == old(p.Value()).children
  {
    forall c | c in p.children
      ensures c.repr == old(c.repr) && c.Valid() && c.Value() == old(c.Value())
    {
      assert unchanged(old(c.repr));
    }
  }

  /** Lines 303-309: the flags of the children, as the pass finds them. */
  method MarkOwn(node: TreeNode)
    requires node.Valid()
    modifies node`compressed
    ensures node.Valid() && node.Value() == Edited(Marking, old(node.Value()))
  {
    ghost var t := node.Value();
    var any := false;
    for i := 0 to |node.children|
      invariant any <==> exists j :: 0 <= j < i && t.children[j].compressed
    {
      if node.children[i].compressed {
        any := true;
        break;
      }
    }
    assert any <==> exists c :: c in t.children && c.compressed;
    if any {
      node.compressed := true;
    }
    SameChildren(node);
  }

  method SetOwnRatio(node: TreeNode, ratio: real)
    requires node.Valid()
    modifies node`ratio
    ensures node.Valid() && node.Value() == Edited(Setting(ratio), old(node.Value()))
  {
    node.ratio := ratio;
    SameChildren(node);
  }

  /** Lines 756-763. */
  method SummarizeOwn(node: TreeNode, late: map<string, string>)
    requires node.Valid()
    modifies node`span
    ensures node.Valid() && node.Value() == Edited(Summarizing(late), old(node.Value()))
  {
    var summary := Get(node.span.attributes, "tree.summary", Null);
    if node.span.spanType == AgentReasoningCompressed && summary == Text("pending") {
      var id := node.span.context.spanId;
      if id in late {
        node.span := node.span.(attributes := node.span.attributes["tree.summary" := Text(late[id])]);
      }
    }
    SameChildren(node);
  }

  /** The test of lines 520-526 on the objects decides foldability of the value. */
  method IsEmbeddable(node: TreeNode, limit: int) returns (yes: bool)
    requires node.Valid()
    ensures yes <==> Embeddable(node.Value(), limit)
  {
    ghost var t := node.Value();
    if node.children == [] || |node.children| > limit {
      return false;
    }
    for i := 0 to |node.children|
      invariant forall j :: 0 <= j < i ==> t.children[j].children == []
    {
      if node.children[i].children != [] {
        assert t.children[i] in t.children;
        return false;
      }
    }
    yes := true;
  }

  /** Lines 528-560: folds the leaf children into the node's span. */
  method Fold(node: TreeNode, limit: int)
    requires node.Valid() && Embeddable(node.Value(), limit)
    modifies node`span, node`children
    ensures node.Valid() && node.Value() == Edited(Folding(limit), old(node.Value()))
  {
    var spans := seq(|node.children|, i requires 0 <= i < |node.children| reads node, node.children =>
      node.children[i].span);
    assert spans == SpanSeq(node.Value().children);
    var events := EventsFor(SortBy(spans, StartOf));
    node.span := node.span.(
      events := node.span.events + events,
      attributes := node.span.attributes["embedded" := Flag(true)]["embedded_count" := Num(|events| as real)]);
    node.children := [];
  }

  method EditOwn(node: TreeNode, pass: Pass)
    requires node.Valid()
    modifies node`span, node`children, node`compressed, node`ratio
    ensures node.Valid() && node.Value() == Edited(pass, old(node.Value()))
  {
    match pass
    case Marking => MarkOwn(node);
    case Setting(ratio) => SetOwnRatio(node, ratio);
    case Summarizing(late) => SummarizeOwn(node, late);
    case Folding(limit) =>
      var yes := IsEmbeddable(node, limit);
      if yes {
        Fold(node, limit);
      }
  }

  /** One pass over a tree of objects. */
  method Run(node: TreeNode, pass: Pass)
    requires node.Valid()
    modifies node.repr
    ensures node.Valid() && node.repr == old(node.repr)
    ensures node.Value() == Applied(pass, old(node.Value()))
    decreases node.repr, 1
  {
    ghost var before := node.Value();
    EditOwn(node, pass);
    RunChildren(node, pass);
    AppliedByEdit(pass, before, node.Value().children);
  }

  /** The loop of a pass over the children. */
  method RunChildren(node: TreeNode, pass: Pass)
    requires node.Valid()
    modifies node.repr
    ensures node.Valid() && node.repr == old(node.repr)
    ensures |node.Value().children| == |old(node.Value()).children|
    ensures forall i :: 0 <= i < |node.Value().children| ==>
              node.Value().children[i] == Applied(pass, old(node.Value()).children[i])
    ensures node.Value().(children := []) == old(node.Value()).(children := [])
    decreases node.repr, 0
  {
    ghost var before := node.Value();
    for i := 0 to |node.children|
      invariant node.Valid() && unchanged(node)
      invariant forall j :: i <= j < |node.children| ==> node.children[j].Value() == before.children[j]
      invariant forall j :: 0 <= j < i ==> node.children[j].Value() == Applied(pass, before.children[j])
    {
      RunChild(node, i, pass);
    }
  }

  /** One turn of that loop; the other children keep what they hold. */
  method RunChild(node: TreeNode, i: nat, pass: Pass)
    requires node.Valid() && i < |node.children|
    modifies node.children[i].repr
    ensures node.Valid() && unchanged(node)
    ensures node.children[i].Value() == Applied(pass, old(node.children[i].Value()))
    ensures forall j :: 0 <= j < |node.children| && j != i ==> node.children[j].Value() == old(node.children[j].Value())
    decreases node.repr, 0, 0
  {
    assert node.children[i] in node.children;
    Run(node.children[i], pass);
    forall j | 0 <= j < |node.children| && j != i
      ensures node.children[j].repr == old(node.children[j].repr)
      ensures node.children[j].Valid() && node.children[j].Value() == old(node.children[j].Value())
    {
      assert node.children[j] in node.children;
      assert old(node.children[j].repr !! node.children[i].repr);
      assert unchanged(old(node.children[j].repr));
    }
  }

  // ---------------------------------------------------------------- new trees

  /** New objects for a tree value, as the builder and the rebuild make them. */
  method Allocate(t: Tree) returns (r: TreeNode)
    ensures r.Valid() && fresh(r.repr) && r.Value() == t
    decreases t, 1
  {
    r := new TreeNode(t.span, t.compressed, t.ratio);
    for i := 0 to |t.children|
      invariant r.Valid() && fresh(r.repr) && r.Value() == t.(children := t.children[..i])
    {
      AllocateChild(r, t, i);
    }
    assert t.children[..|t.children|] == t.children;
  }

  /** One turn of that loop. */
  method AllocateChild(r: TreeNode, t: Tree, i: nat)
    requires r.Valid() && i < |t.children| && r.Value() == t.(children := t.children[..i])
    modifies r`children, r`repr
    ensures r.Valid() && fresh(r.repr - old(r.repr)) && r.Value() == t.(children := t.children[..i + 1])
    decreases t, 0
  {
    var kid := Allocate(t.children[i]);
    r.Adopt(kid);
    assert t.children[..i + 1] == t.children[..i] + [t.children[i]];
  }

  // ---------------------------------------------------------------- the passes of the endpoint

  /** `compress`: a new tree, and the summary jobs that the rebuild asks for. The input is left as it was. */
  method Compress(tree: TreeNode, limit: int) returns (r: TreeNode, jobs: seq<Job>)
    requires tree.Valid() && DistinctIds(tree.Value()) && CostsReadable(tree.Value(), limit)
    ensures r.Valid() && fresh(r.repr) && r.Value() == CompressTree(old(tree.Value()), limit)
    ensures jobs == JobsFor(ReplacedBranches(old(tree.Value()).children, limit))
    ensures tree.Valid() && tree.Value() == old(tree.Value())
  {
    var kids, ratio;
    kids, jobs, ratio := PlanCompression(tree.Value(), limit);
    r := Install(Node(tree.span, kids, false, 0.0), ratio);
  }

  /** The end of `compress`: the new tree is marked and every node gets the ratio. */
  method Install(t: Tree, ratio: real) returns (r: TreeNode)
    ensures r.Valid() && fresh(r.repr) && r.Value() == SetRatio(Mark(t), ratio)
  {
    r := Allocate(t);
    Run(r, Marking);
    Run(r, Setting(ratio));
  }

  /** `apply_late_summaries`. */
  method ApplyLateSummaries(tree: TreeNode, late: map<string, string>)
    requires tree.Valid()
    modifies tree.repr
    ensures tree.Valid() && tree.repr == old(tree.repr)
    ensures tree.Value() == ApplyLate(old(tree.Value()), late)
  {
    Run(tree, Summarizing(late));
  }

  /** `embed`: the root itself is never folded. */
  method Embed(tree: TreeNode, limit: int)
    requires tree.Valid()
    modifies tree.repr
    ensures tree.Valid() && tree.repr == old(tree.repr)
    ensures tree.Value() == EmbedTree(old(tree.Value()), limit)
  {
    ghost var before := tree.Value();
    RunChildren(tree, Folding(limit));
    EmbedByChildren(before, tree.Value().children, limit);
  }

  lemma EmbedByChildren(t: Tree, rs: seq<Tree>, limit: int)
    requires |rs| == |t.children| && forall i :: 0 <= i < |rs| ==> rs[i] == Applied(Folding(limit), t.children[i])
    ensures EmbedTree(t, limit) == t.(children := rs)
  {
    assert rs == EmbedAll(t.children, limit);
  }

  /** The endpoint, with the store's spans and summaries, the clock-based id and both limits as inputs. */
  method ServeTrace(spans: seq<Span>, virtualId: string, limit: int, late: map<string, string>, embedLimit: int)
    returns (built: BuildResult, view: Option<TreeNode>)
    requires NoBlankLinks(spans) && virtualId !in Ids(spans)
    requires spans != [] && Ready(spans) ==> CostsReadable(TreeOf(spans, virtualId), limit)
    ensures (view.Some? <==> built.Built?) && (built.Built? <==> Acceptable(spans))
    ensures view.Some? ==>
              && AllGrounded(spans) && built.tree == TreeOf(spans, virtualId)
              && view.value.Valid() && view.value.Value() == ViewOf(built.tree, limit, late, embedLimit)
  {
    built := Build(spans, virtualId);
    view := None;
    if built.Built? {
      TreeIdsDistinct(spans, virtualId);
      var tree := Allocate(built.tree);
      var r, jobs := Compress(tree, limit);
      ApplyLateSummaries(r, late);
      Embed(r, embedLimit);
      view := Some(r);
    }
  }
}
