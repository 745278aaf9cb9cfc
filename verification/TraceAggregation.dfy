/** `_accumulate_trace_aggregates` of agent_obs/observability.py: per-trace totals over interleaved traces,
    stamped onto the root span that closes a trace. */
module TraceAggregation {
  import opened Spans
  import opened Basics

  datatype Agg = Agg(cost: real, steps: nat, hasError: bool)

  const EMPTY: Agg := Agg(0.0, 0, false)

  /** The cost that a span adds: `cost.usd` of an `llm.call`, when it is a number. */
  function CallCost(s: Span): real {
    if s.spanType == LlmCall then Money(Get(s.attributes, "cost.usd", Null)) else 0.0
  }

  function Add(a: Agg, s: Span): Agg {
    Agg(a.cost + CallCost(s), a.steps + 1, a.hasError || s.IsError())
  }

  predicate IsRoot(s: Span) { s.spanType == AgentLoop }

  // ---------------------------------------------------------------- totals of a history

  /** The spans of trace `t` since its last root, in order. */
  function OpenSpans(history: seq<Span>, t: string): seq<Span> {
    if history == [] then []
    else
      var s := history[|history| - 1];
      var before := OpenSpans(history[..|history| - 1], t);
      if s.context.traceId != t then before
      else if IsRoot(s) then []
      else before + [s]
  }

  function TotalCost(ss: seq<Span>): real {
    if ss == [] then 0.0 else TotalCost(ss[..|ss| - 1]) + CallCost(ss[|ss| - 1])
  }

  predicate AnyError(ss: seq<Span>) {
    exists s :: s in ss && s.IsError()
  }

  function Totals(ss: seq<Span>): Agg {
    Agg(TotalCost(ss), |ss|, AnyError(ss))
  }

  /** No total in `a` exceeds the one in `b`. */
  ghost predicate AtMost(a: Agg, b: Agg) {
    a.cost <= b.cost && a.steps <= b.steps && (a.hasError ==> b.hasError)
  }

  ghost predicate NonNegativeCosts(ss: seq<Span>) {
    forall s :: s in ss ==> CallCost(s) >= 0.0
  }

  lemma TotalsAppend(ss: seq<Span>, s: Span)
    ensures Totals(ss + [s]) == Add(Totals(ss), s)
  {
    assert (ss + [s])[..|ss|] == ss;
    if AnyError(ss) {
      var e :| e in ss && e.IsError();
      assert e in ss + [s];
    }
    if s.IsError() {
      assert (ss + [s])[|ss|] == s;
    }
  }

  /** A span changes the cost total of its trace by the number under "cost.usd" for an `llm.call`, and by nothing for
      any other type. */
  lemma CostOfSpan(ss: seq<Span>, s: Span)
    ensures s.spanType != LlmCall || "cost.usd" !in s.attributes ==> TotalCost(ss + [s]) == TotalCost(ss)
    ensures s.spanType == LlmCall && "cost.usd" in s.attributes ==>
              TotalCost(ss + [s]) == TotalCost(ss) +
                match s.attributes["cost.usd"]
                case Num(x) => x
                case Flag(b) => if b then 1.0 else 0.0
                case _ => 0.0
  {
    assert (ss + [s])[..|ss|] == ss;
  }

  /** Traces are closed by the spans of the outermost loop. */
  lemma RootMeans(s: Span)
    ensures IsRoot(s) <==> TypeName(s.spanType) == "agent.loop"
  {
    assert ParseTypeName(TypeName(s.spanType)) == Some(s.spanType);
  }

  /** The totals of a trace: the cost of its spans, their number, and whether one of them is erroneous. */
  lemma TotalsMean(ss: seq<Span>)
    ensures Totals(ss).cost == TotalCost(ss) && Totals(ss).steps == |ss|
    ensures Totals(ss).hasError <==> exists s :: s in ss && s.IsError()
    ensures TotalCost([]) == 0.0
  {
  }

  lemma OpenAppend(history: seq<Span>, s: Span, t: string)
    ensures OpenSpans(history + [s], t) ==
            if s.context.traceId != t then OpenSpans(history, t)
            else if IsRoot(s) then []
            else OpenSpans(history, t) + [s]
  {
    assert (history + [s])[..|history|] == history;
  }

  lemma {:induction false} OpenFromHistory(history: seq<Span>, t: string, s: Span)
    requires s in OpenSpans(history, t)
    ensures s in history
  {
    var n := |history| - 1;
    if s in OpenSpans(history[..n], t) {
      OpenFromHistory(history[..n], t, s);
    }
  }

  // ---------------------------------------------------------------- the stamps

  /** The root's attributes after stamping with the totals `a`. */
  function Stamp(root: Span, a: Agg, threshold: real, round8: real -> real): Span {
    var attrs := root.attributes[
      "steps.count" := Num(a.steps as real)][
      "cost.usd_sum" := Num(round8(a.cost))][
      "cost.over_budget" := Text(if a.cost > threshold then "true" else "false")][
      "security.incident" := Text("false")];
    root.(attributes := if a.hasError then attrs["status" := Text("error")] else attrs)
  }

  function EntryOf(agg: map<string, Agg>, t: string): Option<Agg> {
    if t in agg then Some(agg[t]) else None
  }

  /** A trace that lost nothing has exactly the totals of its open spans; any other has at most those. */
  ghost predicate TraceOk(entry: Option<Agg>, history: seq<Span>, lost: bool, t: string) {
    var open := OpenSpans(history, t);
    && (!lost ==> entry == if open == [] then None else Some(Totals(open)))
    && (NonNegativeCosts(history) && entry.Some? ==> AtMost(entry.value, Totals(open)))
  }

  /** The table of open traces, with the spans accepted so far and the open traces that lost a span to the
      memory guard. */
  datatype Table = Table(agg: map<string, Agg>, history: seq<Span>, refused: set<string>)

  /** The span is turned away because its trace is new and the table is full. */
  predicate Refuses(agg: map<string, Agg>, s: Span, limit: nat) {
    s.context.traceId !in agg && |agg| >= limit
  }

  function NextEntry(agg: map<string, Agg>, span: Span): Agg {
    var t := span.context.traceId;
    Add(if t in agg then agg[t] else EMPTY, span)
  }

  /** What the span carries afterwards: a root is stamped, unless its trace is turned away. */
  function OutOf(agg: map<string, Agg>, span: Span, limit: nat, threshold: real, round8: real -> real): Span {
    if IsRoot(span) && !Refuses(agg, span, limit) then Stamp(span, NextEntry(agg, span), threshold, round8) else span
  }

  /** The table after a span: a root closes its trace. */
  ghost function Next(tb: Table, span: Span, limit: nat): Table {
    var t := span.context.traceId;
    Table(
      if Refuses(tb.agg, span, limit) then tb.agg
      else if IsRoot(span) then tb.agg - {t}
      else tb.agg[t := NextEntry(tb.agg, span)],
      tb.history + [span],
      if IsRoot(span) then tb.refused - {t} else if Refuses(tb.agg, span, limit) then tb.refused + {t} else tb.refused)
  }

  ghost predicate TraceFits(tb: Table, t: string) {
    TraceOk(EntryOf(tb.agg, t), tb.history, t in tb.refused, t)
  }

  ghost predicate TableOk(tb: Table, limit: nat) {
    |tb.agg| <= limit && forall t :: TraceFits(tb, t)
  }

  /** What a step does to the entry and the mark of one trace. */
  lemma NextViews(tb: Table, span: Span, limit: nat, u: string)
    ensures var next, t := Next(tb, span, limit), span.context.traceId;
            && next.history == tb.history + [span]
            && (u != t ==> EntryOf(next.agg, u) == EntryOf(tb.agg, u) && (u in next.refused <==> u in tb.refused))
            && (IsRoot(span) ==> EntryOf(next.agg, t) == None && t !in next.refused)
            && (!IsRoot(span) && Refuses(tb.agg, span, limit) ==> EntryOf(next.agg, t) == None && t in next.refused)
            && (!IsRoot(span) && !Refuses(tb.agg, span, limit) ==>
                  EntryOf(next.agg, t) == Some(NextEntry(tb.agg, span)) && (t in next.refused <==> t in tb.refused))
  {
  }

  lemma TraceStep(tb: Table, span: Span, limit: nat, u: string)
    requires TraceFits(tb, u)
    ensures TraceFits(Next(tb, span, limit), u)
  {
    NextViews(tb, span, limit, u);
    if u == span.context.traceId {
      OwnTrace(EntryOf(tb.agg, u), tb.history, u in tb.refused, span);
    } else {
      OtherTrace(EntryOf(tb.agg, u), tb.history, u in tb.refused, u, span);
    }
  }

  /** Every span keeps the table in order, for all traces at once. */
  lemma TableStep(tb: Table, span: Span, limit: nat)
    requires TableOk(tb, limit)
    ensures TableOk(Next(tb, span, limit), limit)
  {
    forall u
      ensures TraceFits(Next(tb, span, limit), u)
    {
      assert TraceFits(tb, u);
      TraceStep(tb, span, limit, u);
    }
    SizeStep(tb.agg, span, limit);
  }

  lemma SizeStep(agg: map<string, Agg>, span: Span, limit: nat)
    requires |agg| <= limit
    ensures |Next(Table(agg, [], {}), span, limit).agg| <= limit
  {
    var t := span.context.traceId;
    assert (agg - {t}).Keys == agg.Keys - {t};
    assert agg[t := NextEntry(agg, span)].Keys == agg.Keys + {t};
  }

  /** The totals that a root would be stamped with: exact for a trace that lost nothing, and never too
      large when costs are not negative. */
  lemma EntryBounds(tb: Table, span: Span, limit: nat)
    requires TableOk(tb, limit)
    ensures span.context.traceId !in tb.refused ==> NextEntry(tb.agg, span) == TraceTotals(tb.history, span)
    ensures NonNegativeCosts(tb.history + [span]) ==> AtMost(NextEntry(tb.agg, span), TraceTotals(tb.history, span))
  {
    var t := span.context.traceId;
    assert TraceFits(tb, t);
    OwnTrace(EntryOf(tb.agg, t), tb.history, t in tb.refused, span);
  }

  /** The table after a run of spans. */
  ghost function After(spans: seq<Span>, limit: nat): Table {
    if spans == [] then Table(map[], [], {})
    else Next(After(spans[..|spans| - 1], limit), spans[|spans| - 1], limit)
  }

  lemma RunStep(before: seq<Span>, last: Span, limit: nat)
    requires TableOk(After(before, limit), limit) && After(before, limit).history == before
    ensures TableOk(After(before + [last], limit), limit) && After(before + [last], limit).history == before + [last]
  {
    assert (before + [last])[..|before|] == before;
    TableStep(After(before, limit), last, limit);
  }

  /** Over every run, whatever the interleaving of traces, the table stays in order. */
  lemma {:induction false} RunsKeepTable(spans: seq<Span>, limit: nat)
    ensures TableOk(After(spans, limit), limit) && After(spans, limit).history == spans
  {
    if spans == [] {
      EmptyTableOk(limit);
    } else {
      var before, last := spans[..|spans| - 1], spans[|spans| - 1];
      RunsKeepTable(before, limit);
      RunStep(before, last, limit);
      assert before + [last] == spans;
    }
  }

  lemma EmptyTableOk(limit: nat)
    ensures TableOk(Table(map[], [], {}), limit)
  {
  }

  /** A root that is turned away although its trace lost nothing is alone in its trace. */
  lemma RefusedRootAlone(spans: seq<Span>, limit: nat, root: Span)
    requires root.context.traceId !in After(spans, limit).refused && Refuses(After(spans, limit).agg, root, limit)
    ensures OpenSpans(spans, root.context.traceId) == []
  {
    RunsKeepTable(spans, limit);
    assert TraceFits(After(spans, limit), root.context.traceId);
  }

  function TraceIds(spans: seq<Span>): set<string> {
    set s | s in spans :: s.context.traceId
  }

  /** The memory guard can only bite when there are more traces than table slots. */
  lemma {:induction false} FewTracesLoseNothing(spans: seq<Span>, limit: nat)
    requires |TraceIds(spans)| <= limit
    ensures After(spans, limit).refused == {}
    ensures After(spans, limit).agg.Keys <= TraceIds(spans)
  {
    if spans != [] {
      var before, last := spans[..|spans| - 1], spans[|spans| - 1];
      assert spans == before + [last];
      assert TraceIds(spans) == TraceIds(before) + {last.context.traceId};
      SmallerSet(TraceIds(before), TraceIds(spans));
      FewTracesLoseNothing(before, limit);
      var tb := After(before, limit);
      if last.context.traceId !in tb.agg {
        SmallerSet(tb.agg.Keys + {last.context.traceId}, TraceIds(spans));
      }
    }
  }

  lemma {:induction false} SmallerSet(a: set<string>, b: set<string>)
    requires a <= b
    ensures |a| <= |b|
    decreases a
  {
    if a != {} {
      var x :| x in a;
      SmallerSet(a - {x}, b - {x});
    }
  }

  class TraceAggregator {
    var agg: map<string, Agg>
    const maxTraces: nat
    const threshold: real
    /** Python's `round(x, 8)`. */
    const round8: real -> real
    ghost var history: seq<Span>
    ghost var refused: set<string>

    ghost function Abs(): Table
      reads this
    {
      Table(agg, history, refused)
    }

    ghost predicate Valid()
      reads this
    {
      TableOk(Abs(), maxTraces)
    }

    constructor (maxTraces: nat, threshold: real, round8: real -> real)
      ensures Valid() && Abs() == After([], maxTraces)
      ensures this.maxTraces == maxTraces && this.threshold == threshold && this.round8 == round8
    {
      this.maxTraces, this.threshold, this.round8 := maxTraces, threshold, round8;
      agg, history, refused := map[], [], {};
      new;
      RunsKeepTable([], maxTraces);
    }

    /** `_accumulate_trace_aggregates`. Returns the span with the attributes it has afterwards. */
    method Accumulate(span: Span) returns (out: Span)
      requires Valid()
      modifies this
      ensures Valid() && Abs() == Next(old(Abs()), span, maxTraces)
      ensures out == OutOf(old(agg), span, maxTraces, threshold, round8)
      ensures span.context.traceId !in old(refused) ==> NextEntry(old(agg), span) == TraceTotals(old(history), span)
      ensures NonNegativeCosts(history) ==> AtMost(NextEntry(old(agg), span), TraceTotals(old(history), span))
    {
      var t := span.context.traceId;
      TableStep(Abs(), span, maxTraces);
      EntryBounds(Abs(), span, maxTraces);
      out := span;
      ghost var after := Next(Abs(), span, maxTraces);
      if t in agg || |agg| < maxTraces {
        var a := Add(if t in agg then agg[t] else EMPTY, span);
        if IsRoot(span) {
          out := Stamp(span, a, threshold, round8);
          agg := agg - {t};
        } else {
          agg := agg[t := a];
        }
      }
      history, refused := after.history, after.refused;
    }
  }

  /** Later spans leave the earlier ones in the history. */
  lemma HistoryGrows(history: seq<Span>, span: Span)
    ensures NonNegativeCosts(history + [span]) ==> NonNegativeCosts(history) && CallCost(span) >= 0.0
  {
    assert (history + [span])[|history|] == span;
    assert forall s :: s in history ==> s in history + [span];
  }

  lemma OtherTrace(entry: Option<Agg>, history: seq<Span>, lost: bool, u: string, span: Span)
    requires TraceOk(entry, history, lost, u) && span.context.traceId != u
    ensures TraceOk(entry, history + [span], lost, u)
  {
    OpenAppend(history, span, u);
    HistoryGrows(history, span);
  }

  /** What the arrival of a span does to its own trace. */
  lemma OwnTrace(entry: Option<Agg>, history: seq<Span>, lost: bool, span: Span)
    requires TraceOk(entry, history, lost, span.context.traceId)
    ensures var t, a := span.context.traceId, Add(if entry.Some? then entry.value else EMPTY, span);
            && (!lost ==> a == TraceTotals(history, span))
            && (NonNegativeCosts(history + [span]) ==> AtMost(a, TraceTotals(history, span)))
            && (IsRoot(span) ==> TraceOk(None, history + [span], false, t))
            && (!IsRoot(span) ==> TraceOk(Some(a), history + [span], lost, t))
            && (!IsRoot(span) ==> TraceOk(None, history + [span], true, t))
  {
    var t := span.context.traceId;
    var open := OpenSpans(history, t);
    OpenAppend(history, span, t);
    TotalsAppend(open, span);
    HistoryGrows(history, span);
    if NonNegativeCosts(history + [span]) {
      forall s | s in open
        ensures CallCost(s) >= 0.0
      {
        OpenFromHistory(history, t, s);
      }
      TotalNonNegative(open);
    }
  }

  lemma {:induction false} TotalNonNegative(ss: seq<Span>)
    requires NonNegativeCosts(ss)
    ensures TotalCost(ss) >= 0.0
  {
    if ss != [] {
      TotalNonNegative(ss[..|ss| - 1]);
    }
  }

  /** The totals of the trace of `span` when `span` arrives after `history`, itself included. */
  ghost function TraceTotals(history: seq<Span>, span: Span): Agg {
    Totals(OpenSpans(history, span.context.traceId) + [span])
  }
}
