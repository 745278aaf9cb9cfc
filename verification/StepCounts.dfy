/** What the enqueue path and the trace aggregation of agent_obs/observability.py make together: the number of steps
    stamped on a root counts offers to the ring, not spans. The ring is unbounded here, so every offer is accepted. */
module StepCounts {
  import opened Basics
  import opened Spans
  import opened Sequences
  import Aggregation = SpanAggregator
  import Traces = TraceAggregation
  import Sampler = TailSampler

  type Config = Aggregation.Config
  type Offering = Aggregation.Offering
  type Placed = Aggregation.Placed

  // ---------------------------------------------------------------- what is accepted

  /** The new id and the time given to the `n`-th offer, if it is an aggregate. */
  datatype Clock = Clock(newId: nat -> string, now: nat -> int)

  function Time(e: Aggregation.MicroEvent): int { e.ts }

  function IsoEvent(e: Aggregation.MicroEvent): Event { Event(e.name, Iso(e.ts), e.attrs) }

  /** `_aggregate_to_span`: the span of an aggregate, in the context of the first of its micro-spans. */
  function AggregateSpan(cfg: Config, spans: seq<Span>, id: string, now: int): Span
    requires spans != []
  {
    var a, c := Aggregation.AggregateOf(cfg, spans), spans[0].context;
    Span("agent.reasoning:aggregated:" + Decimal(a.childrenCount), AgentReasoning,
      Context(c.traceId, id, Some(a.parentSpanId), c.agentId, c.agentVersion, c.userId, c.sessionId, c.toolName, ""),
      AttributesOf(a, Get(spans[0].attributes, "tenant_id", Text(""))),
      Map(IsoEvent, SortBy(a.events, Time)), spans[0].startTime, Some(now))
  }

  /** The span of an aggregate stands in the context of the first of its micro-spans. */
  lemma AggregateSpanContext(cfg: Config, spans: seq<Span>, id: string, now: int)
    requires spans != []
    ensures var s, c := AggregateSpan(cfg, spans, id, now), spans[0].context;
            && s.context.traceId == c.traceId && s.context.spanId == id && s.context.agentId == c.agentId
            && s.context.agentVersion == c.agentVersion && s.context.userId == c.userId
            && s.context.sessionId == c.sessionId && s.context.toolName == c.toolName
            && s.context.parentSpanId == Some(if c.parentSpanId.None? then "" else c.parentSpanId.value)
            && s.startTime == spans[0].startTime && s.endTime == Some(now)
  {
  }

  /** It counts its micro-spans and says what it saves, and is no micro-span itself. */
  lemma AggregateSpanMeans(cfg: Config, spans: seq<Span>, id: string, now: int)
    requires spans != []
    ensures var s := AggregateSpan(cfg, spans, id, now);
            && s.name == "agent.reasoning:aggregated:" + Decimal(|spans|) && s.spanType == AgentReasoning
            && Get(s.attributes, "status", Null) == Text("ok") && !Aggregation.IsMicro(s)
            && Get(s.attributes, "aggregation.children_count", Null) == Num(|spans| as real)
            && Get(s.attributes, "aggregation.source", Null) == Text("span_aggregator")
            && Get(s.attributes, "aggregation.bytes_saved", Null)
               == Num(Aggregation.AggregateOf(cfg, spans).bytesSaved as real)
            && Get(s.attributes, "tenant_id", Null) == Get(spans[0].attributes, "tenant_id", Text(""))
  {
    var a := Aggregation.AggregateOf(cfg, spans);
    AggregateAttributes(a, Get(spans[0].attributes, "tenant_id", Text("")));
  }

  /** The attributes of an aggregate's span. */
  function AttributesOf(a: Aggregation.Aggregate, tenant: Value): Attrs {
    map[
      "status" := Text("ok"),
      "aggregation.children_count" := Num(a.childrenCount as real),
      "aggregation.bytes_saved" := Num(a.bytesSaved as real),
      "aggregation.source" := Text("span_aggregator"),
      "tenant_id" := tenant]
  }

  lemma AggregateAttributes(a: Aggregation.Aggregate, tenant: Value)
    ensures var m := AttributesOf(a, tenant);
            && Get(m, "status", Null) == Text("ok") && "aggregation.children_count" in m
            && Get(m, "aggregation.children_count", Null) == Num(a.childrenCount as real)
            && Get(m, "aggregation.source", Null) == Text("span_aggregator")
            && Get(m, "aggregation.bytes_saved", Null) == Num(a.bytesSaved as real)
            && Get(m, "tenant_id", Null) == tenant
  {
  }

  /** It holds its micro-spans as events in time order. */
  lemma AggregateSpanEvents(cfg: Config, spans: seq<Span>, id: string, now: int)
    requires spans != []
    ensures EventsInOrder(AggregateSpan(cfg, spans, id, now).events, Aggregation.AggregateOf(cfg, spans).events)
  {
    EventsSorted(Aggregation.AggregateOf(cfg, spans).events);
  }

  lemma EventsSorted(events: seq<Aggregation.MicroEvent>)
    ensures EventsInOrder(Map(IsoEvent, SortBy(events, Time)), events)
  {
    SortMapPermutes(IsoEvent, events, Time);
    SortOrdered(events, Time);
    var sorted := SortBy(events, Time);
    forall i, j | 0 <= i < j < |sorted|
      ensures sorted[i].ts <= sorted[j].ts
    {
      assert Time(sorted[i]) <= Time(sorted[j]);
    }
  }

  /** `es` holds the micro-events, as events, in time order. */
  ghost predicate EventsInOrder(es: seq<Event>, micro: seq<Aggregation.MicroEvent>) {
    && multiset(es) == multiset(Map(IsoEvent, micro))
    && (forall i :: 0 <= i < |es| ==> es[i].timestamp.Iso?)
    && forall i, j :: 0 <= i < j < |es| ==> es[i].timestamp.micros <= es[j].timestamp.micros
  }

  /** No offered aggregate is empty. */
  ghost predicate Proper(offers: seq<Offering>) {
    forall o :: o in offers && o.Together? ==> o.many != []
  }

  /** The span that an offer puts into the ring. */
  function SpanFor(cfg: Config, clock: Clock, o: Offering, n: nat): Span
    requires o.Together? ==> o.many != []
  {
    match o
    case Alone(p) => p.span
    case Together(ps) => AggregateSpan(cfg, Aggregation.SpansAt(ps), clock.newId(n), clock.now(n))
  }

  /** All spans accepted by the ring, which is what the trace aggregation sees. */
  ghost function Accepted(cfg: Config, clock: Clock, offers: seq<Offering>): seq<Span>
    requires Proper(offers)
  {
    if offers == [] then []
    else
      var n := |offers| - 1;
      Accepted(cfg, clock, offers[..n]) + [SpanFor(cfg, clock, offers[n], n)]
  }

  /** The trace that an offer counts for: that of the span, or of the first micro-span of the aggregate. */
  function TraceOf(o: Offering): string {
    match o
    case Alone(p) => p.span.context.traceId
    case Together(ps) => if ps == [] then "" else ps[0].span.context.traceId
  }

  /** The offers of trace `t` since its last root. */
  ghost function OffersSince(offers: seq<Offering>, t: string): nat {
    if offers == [] then 0
    else
      var o, before := offers[|offers| - 1], OffersSince(offers[..|offers| - 1], t);
      if TraceOf(o) != t then before
      else if o.Alone? && Traces.IsRoot(o.one.span) then 0
      else before + 1
  }

  /** The trace aggregation has one open span for each of them. */
  lemma {:induction false} OpenAreOffers(cfg: Config, clock: Clock, offers: seq<Offering>, t: string)
    requires Proper(offers)
    ensures |Traces.OpenSpans(Accepted(cfg, clock, offers), t)| == OffersSince(offers, t)
  {
    if offers != [] {
      var n := |offers| - 1;
      OpenAreOffers(cfg, clock, offers[..n], t);
      assert offers[n] in offers;
      Traces.OpenAppend(Accepted(cfg, clock, offers[..n]), SpanFor(cfg, clock, offers[n], n), t);
    }
  }

  // ---------------------------------------------------------------- a root arrives

  /** What has been offered when `root`, arriving after `input`, is offered itself: the aggregator was pushed out. */
  function BeforeRoot(input: seq<Span>, cfg: Config): seq<Offering> {
    var log := Aggregation.After(input, cfg);
    log.offers + if log.held == [] then [] else [Aggregation.Together(log.held)]
  }

  lemma {:induction false} OffersProper(input: seq<Span>, cfg: Config)
    ensures Proper(Aggregation.After(input, cfg).offers)
  {
    if input != [] {
      OffersProper(input[..|input| - 1], cfg);
    }
  }

  lemma BeforeRootProper(input: seq<Span>, cfg: Config)
    ensures Proper(BeforeRoot(input, cfg))
  {
    OffersProper(input, cfg);
  }

  /** `BeforeRoot` is what the log says: the root is offered after it and nothing is held. */
  lemma RootOffered(input: seq<Span>, root: Span, cfg: Config)
    requires root.spanType == AgentLoop
    ensures Aggregation.After(input + [root], cfg)
         == Aggregation.Log([], BeforeRoot(input, cfg) + [Aggregation.Alone(Aggregation.Placed(|input|, root))])
  {
    assert (input + [root])[..|input|] == input;
  }

  /** The root as the code leaves it in the ring. */
  ghost function RootOut(input: seq<Span>, root: Span, cfg: Config, clock: Clock, limit: nat, budget: real,
                         round8: real -> real): Span
  {
    BeforeRootProper(input, cfg);
    Sampler.RootAfter(Accepted(cfg, clock, BeforeRoot(input, cfg)), limit, root, budget, round8)
  }

  /** The table has lost no span of the root's trace and takes the root. */
  ghost predicate Taken(input: seq<Span>, root: Span, cfg: Config, clock: Clock, limit: nat) {
    BeforeRootProper(input, cfg);
    var table := Traces.After(Accepted(cfg, clock, BeforeRoot(input, cfg)), limit);
    root.context.traceId !in table.refused && !Traces.Refuses(table.agg, root, limit)
  }

  /** Over every run, for all interleavings of traces: the steps stamped on a root are the offers of its trace since
      the last root, the root included. */
  lemma StepsAreOffers(input: seq<Span>, root: Span, cfg: Config, clock: Clock, limit: nat, budget: real,
                       round8: real -> real)
    requires root.spanType == AgentLoop && Taken(input, root, cfg, clock, limit)
    ensures Get(RootOut(input, root, cfg, clock, limit, budget, round8).attributes, "steps.count", Null)
         == Num((OffersSince(BeforeRoot(input, cfg), root.context.traceId) + 1) as real)
  {
    BeforeRootProper(input, cfg);
    StepsAreOpen(Accepted(cfg, clock, BeforeRoot(input, cfg)), root, limit, budget, round8);
    OpenAreOffers(cfg, clock, BeforeRoot(input, cfg), root.context.traceId);
  }

  lemma StepsAreOpen(accepted: seq<Span>, root: Span, limit: nat, budget: real, round8: real -> real)
    requires root.spanType == AgentLoop && root.context.traceId !in Traces.After(accepted, limit).refused
    requires !Traces.Refuses(Traces.After(accepted, limit).agg, root, limit)
    ensures Get(Sampler.RootAfter(accepted, limit, root, budget, round8).attributes, "steps.count", Null)
         == Num((|Traces.OpenSpans(accepted, root.context.traceId)| + 1) as real)
  {
    Sampler.RunStampsExactly(accepted, limit, root, budget, round8);
  }

  // ---------------------------------------------------------------- offers against spans

  ghost predicate OneTrace(input: seq<Span>, t: string) {
    forall s :: s in input ==> s.context.traceId == t
  }

  ghost predicate HeldIn(held: seq<Placed>, t: string) {
    forall p :: p in held ==> p.span.context.traceId == t
  }

  /** One call for a span that is no root makes one offer, in its own trace when all spans share it. */
  lemma EnqueuedOffers(log: Aggregation.Log, p: Placed, cfg: Config, t: string)
    requires p.span.context.traceId == t && HeldIn(log.held, t)
    ensures var next := Aggregation.Enqueued(log, p, cfg);
            && HeldIn(next.held, t)
            && OffersSince(next.offers, t) == if p.span.spanType == AgentLoop then 0 else OffersSince(log.offers, t) + 1
  {
    var next := Aggregation.Enqueued(log, p, cfg);
    var full := log.held + [p];
    assert HeldIn(full, t);
    assert full[0] in full;
    var o := next.offers[|next.offers| - 1];
    if p.span.spanType != AgentLoop {
      assert next.offers == log.offers + [o];
    }
    assert next.offers[..|next.offers| - 1] + [o] == next.offers;
  }

  /** So in a run of one trace there are as many offers since the last root as spans. */
  lemma {:induction false} OffersAreSpans(input: seq<Span>, cfg: Config, t: string)
    requires OneTrace(input, t)
    ensures HeldIn(Aggregation.After(input, cfg).held, t)
    ensures OffersSince(Aggregation.After(input, cfg).offers, t) == |Traces.OpenSpans(input, t)|
  {
    if input != [] {
      var n := |input| - 1;
      assert input[n] in input;
      OffersAreSpans(input[..n], cfg, t);
      EnqueuedOffers(Aggregation.After(input[..n], cfg), Aggregation.Placed(n, input[n]), cfg, t);
    }
  }

  /** Something is in the aggregator exactly when the last micro-span since the last root did not complete an
      aggregate. */
  lemma {:induction false} HeldMeans(input: seq<Span>, cfg: Config)
    ensures Aggregation.After(input, cfg).held != [] <==> LeftOver(input, cfg)
  {
    if input != [] {
      var n := |input| - 1;
      HeldMeans(input[..n], cfg);
      LeftOverStep(input, cfg);
    }
  }

  /** The `i`-th span is a micro-span that completes nothing, and neither a micro-span nor a root follows. */
  ghost predicate LastLeft(input: seq<Span>, cfg: Config, i: nat) {
    i < |input| && Aggregation.IsMicro(input[i]) && !Aggregation.Completes(input, cfg, i) && QuietAfter(input, i)
  }

  ghost predicate QuietAfter(input: seq<Span>, i: nat) {
    forall j :: i < j < |input| ==> !Aggregation.IsMicro(input[j]) && input[j].spanType != AgentLoop
  }

  lemma QuietPrefix(input: seq<Span>, i: nat)
    requires i + 1 < |input|
    ensures var n := |input| - 1;
            QuietAfter(input, i) <==>
              QuietAfter(input[..n], i) && !Aggregation.IsMicro(input[n]) && input[n].spanType != AgentLoop
  {
    var n := |input| - 1;
    if QuietAfter(input[..n], i) && !Aggregation.IsMicro(input[n]) && input[n].spanType != AgentLoop {
      forall j | i < j < |input|
        ensures !Aggregation.IsMicro(input[j]) && input[j].spanType != AgentLoop
      {
        if j < n {
          assert input[..n][j] == input[j];
        }
      }
    }
  }

  ghost predicate LeftOver(input: seq<Span>, cfg: Config) {
    exists i: nat :: LastLeft(input, cfg, i)
  }

  lemma CompletesPrefix(input: seq<Span>, cfg: Config, n: nat, i: nat)
    requires i < n <= |input|
    ensures Aggregation.Completes(input[..n], cfg, i) <==> Aggregation.Completes(input, cfg, i)
  {
    assert input[..n][..i] == input[..i];
  }

  lemma LastLeftPrefix(input: seq<Span>, cfg: Config, i: nat)
    requires i + 1 < |input|
    ensures var n := |input| - 1;
            LastLeft(input, cfg, i) <==>
              LastLeft(input[..n], cfg, i) && !Aggregation.IsMicro(input[n]) && input[n].spanType != AgentLoop
  {
    CompletesPrefix(input, cfg, |input| - 1, i);
    QuietPrefix(input, i);
  }

  lemma LeftOverStep(input: seq<Span>, cfg: Config)
    requires input != []
    ensures var n := |input| - 1;
            LeftOver(input, cfg) <==>
              if Aggregation.IsMicro(input[n]) then !Aggregation.Completes(input, cfg, n)
              else input[n].spanType != AgentLoop && LeftOver(input[..n], cfg)
  {
    var n := |input| - 1;
    assert LastLeft(input, cfg, n) <==> Aggregation.IsMicro(input[n]) && !Aggregation.Completes(input, cfg, n);
    if i: nat :| LastLeft(input, cfg, i) {
      if i < n {
        LastLeftPrefix(input, cfg, i);
      }
    }
    if i: nat :| LastLeft(input[..n], cfg, i) {
      LastLeftPrefix(input, cfg, i);
    }
  }

  /** In a run of one trace, the steps stamped on the root are its spans since the last root, the root included, and
      one more exactly when the last micro-span among them did not complete an aggregate. */
  lemma StepsOfOneTrace(input: seq<Span>, root: Span, cfg: Config, clock: Clock, limit: nat, budget: real,
                        round8: real -> real)
    requires root.spanType == AgentLoop && Taken(input, root, cfg, clock, limit)
    requires OneTrace(input, root.context.traceId)
    ensures Get(RootOut(input, root, cfg, clock, limit, budget, round8).attributes, "steps.count", Null)
         == Num((|Traces.OpenSpans(input, root.context.traceId)| + 1 + One(LeftOver(input, cfg))) as real)
  {
    StepsAreOffers(input, root, cfg, clock, limit, budget, round8);
    OffersAreSpans(input, cfg, root.context.traceId);
    HeldMeans(input, cfg);
    PushedOut(input, cfg, root.context.traceId);
  }

  /** What a root pushes out of the aggregator is one offer. */
  lemma PushedOut(input: seq<Span>, cfg: Config, t: string)
    requires HeldIn(Aggregation.After(input, cfg).held, t)
    ensures OffersSince(BeforeRoot(input, cfg), t)
         == OffersSince(Aggregation.After(input, cfg).offers, t) + One(Aggregation.After(input, cfg).held != [])
  {
    var log := Aggregation.After(input, cfg);
    if log.held == [] {
      assert log.offers + [] == log.offers;
    } else {
      OneMoreOffer(log.offers, log.held, t);
    }
  }

  lemma OneMoreOffer(offers: seq<Offering>, held: seq<Placed>, t: string)
    requires held != [] && HeldIn(held, t)
    ensures OffersSince(offers + [Aggregation.Together(held)], t) == OffersSince(offers, t) + 1
  {
    assert held[0] in held;
    var all := offers + [Aggregation.Together(held)];
    assert all[..|all| - 1] == offers;
  }
}
