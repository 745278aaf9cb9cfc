/** `SpanAggregator` of agent_obs/span_aggregator.py and the aggregation path of `_enqueue` in
    agent_obs/observability.py. */
module SpanAggregator {
  import opened Basics
  import opened Spans
  import opened Sequences

  datatype MicroEvent = MicroEvent(name: string, ts: int, attrs: Attrs)

  datatype Aggregate = Aggregate(parentSpanId: string, events: seq<MicroEvent>, childrenCount: nat, bytesSaved: int)

  /** The limits of the aggregator, and the lengths of the renderings of a span and of an aggregate. */
  datatype Config = Config(
    maxCount: int,
    maxWindow: int,
    spanSize: Span -> nat,
    aggregateSize: (string, seq<MicroEvent>) -> nat)

  function EventOf(s: Span): MicroEvent {
    MicroEvent(s.name, s.startTime, s.attributes)
  }

  function ParentOf(buffer: seq<Span>): string {
    if buffer == [] || buffer[0].context.parentSpanId.None? then "" else buffer[0].context.parentSpanId.value
  }

  function TotalSize(cfg: Config, buffer: seq<Span>): nat {
    if buffer == [] then 0 else TotalSize(cfg, buffer[..|buffer| - 1]) + cfg.spanSize(buffer[|buffer| - 1])
  }

  /** The aggregate of a buffer. */
  function AggregateOf(cfg: Config, buffer: seq<Span>): Aggregate {
    var events := Map(EventOf, buffer);
    Aggregate(ParentOf(buffer), events, |buffer|, TotalSize(cfg, buffer) - cfg.aggregateSize(ParentOf(buffer), events))
  }

  /** The first start time that Python takes for a time: 0 counts as "not set". */
  function FirstTime(buffer: seq<Span>): int {
    if buffer == [] then 0
    else if buffer[0].startTime != 0 then buffer[0].startTime
    else FirstTime(buffer[1..])
  }

  /** The last span added makes the buffer full or closes its window. */
  predicate Emits(cfg: Config, full: seq<Span>)
    requires full != []
  {
    || |full| >= cfg.maxCount
    || (FirstTime(full) != 0 && full[|full| - 1].startTime - FirstTime(full) >= cfg.maxWindow)
  }

  /** With start times that are set, the buffer is complete exactly when it has `maxCount` spans or the last of them
      started at least `maxWindow` after the first. */
  lemma EmitsMeans(cfg: Config, full: seq<Span>)
    requires full != [] && forall s :: s in full ==> s.startTime != 0
    ensures Emits(cfg, full) <==>
            |full| >= cfg.maxCount || full[|full| - 1].startTime - full[0].startTime >= cfg.maxWindow
  {
    assert full[0] in full;
  }

  /** What an aggregate says of its spans. */
  lemma AggregateMeans(cfg: Config, full: seq<Span>)
    requires full != []
    ensures var a := AggregateOf(cfg, full);
            && a.childrenCount == |full| == |a.events|
            && a.parentSpanId == (match full[0].context.parentSpanId case None => "" case Some(p) => p)
            && (forall i :: 0 <= i < |full| ==>
                  a.events[i] == MicroEvent(full[i].name, full[i].startTime, full[i].attributes))
            && a.bytesSaved + cfg.aggregateSize(a.parentSpanId, a.events) == TotalSize(cfg, full)
  {
  }

  /** The sizes of the spans add up. */
  lemma SizesAdd(cfg: Config, spans: seq<Span>, s: Span)
    ensures TotalSize(cfg, []) == 0 && TotalSize(cfg, spans + [s]) == TotalSize(cfg, spans) + cfg.spanSize(s)
  {
    assert (spans + [s])[..|spans|] == spans;
  }

  lemma {:induction false} FirstTimeAppend(buffer: seq<Span>, s: Span)
    ensures FirstTime(buffer + [s]) == if FirstTime(buffer) != 0 then FirstTime(buffer) else s.startTime
  {
    if buffer == [] {
      assert buffer + [s] == [s] && [s][1..] == [];
    } else {
      assert (buffer + [s])[1..] == buffer[1..] + [s];
      FirstTimeAppend(buffer[1..], s);
    }
  }

  /** When no start time counts as set, all are 0. */
  lemma {:induction false} NoTimes(buffer: seq<Span>, s: Span)
    requires s in buffer && FirstTime(buffer) == 0
    ensures s.startTime == 0
  {
    if s != buffer[0] {
      NoTimes(buffer[1..], s);
    }
  }

  // ---------------------------------------------------------------- the account of the aggregator

  ghost function AllEvents(aggs: seq<Aggregate>): seq<MicroEvent> {
    if aggs == [] then [] else AllEvents(aggs[..|aggs| - 1]) + aggs[|aggs| - 1].events
  }

  function AtLeastOne(n: int): int { if n < 1 then 1 else n }

  /** What is buffered, every micro-span added so far, and everything emitted so far. */
  datatype Book = Book(buffer: seq<Span>, added: seq<Span>, emitted: seq<Aggregate>)

  ghost predicate SizesFit(emitted: seq<Aggregate>, cfg: Config) {
    forall a :: a in emitted ==> a.childrenCount == |a.events| && 1 <= a.childrenCount <= AtLeastOne(cfg.maxCount)
  }

  /** The events of the emitted aggregates, followed by the buffer, are the input, and aggregates are
      neither empty nor too large. */
  ghost predicate Accounted(b: Book, cfg: Config) {
    AllEvents(b.emitted) + Map(EventOf, b.buffer) == Map(EventOf, b.added) && SizesFit(b.emitted, cfg)
  }

  /** What is buffered is below both limits. */
  ghost predicate Below(buffer: seq<Span>, cfg: Config) {
    && (buffer == [] || |buffer| < cfg.maxCount)
    && (FirstTime(buffer) != 0 ==>
          forall s :: s in buffer && s.startTime != 0 ==> s.startTime - FirstTime(buffer) < cfg.maxWindow)
  }

  lemma AddKeepsAccount(b: Book, span: Span, cfg: Config)
    requires Accounted(b, cfg)
    ensures Accounted(b.(buffer := b.buffer + [span], added := b.added + [span]), cfg)
  {
    MapAppend(EventOf, b.buffer, span);
    MapAppend(EventOf, b.added, span);
    Regroup(AllEvents(b.emitted), Map(EventOf, b.buffer), [EventOf(span)]);
  }

  lemma AddKeepsBelow(buffer: seq<Span>, span: Span, cfg: Config)
    requires Below(buffer, cfg)
    ensures |buffer + [span]| <= AtLeastOne(cfg.maxCount)
    ensures !Emits(cfg, buffer + [span]) ==> Below(buffer + [span], cfg)
  {
    var full := buffer + [span];
    FirstTimeAppend(buffer, span);
    if !Emits(cfg, full) && FirstTime(full) != 0 {
      forall s | s in full && s.startTime != 0
        ensures s.startTime - FirstTime(full) < cfg.maxWindow
      {
        if s in buffer && FirstTime(buffer) == 0 {
          NoTimes(buffer, s);
          assert false;
        }
      }
    }
  }

  function Emitted(emitted: seq<Aggregate>, r: Option<Aggregate>): seq<Aggregate> {
    if r.None? then emitted else emitted + [r.value]
  }

  /** The book after a flush. */
  function Flushed(b: Book, cfg: Config): Book {
    if b.buffer == [] then b else b.(buffer := [], emitted := b.emitted + [AggregateOf(cfg, b.buffer)])
  }

  lemma FlushKeepsAccount(b: Book, cfg: Config)
    requires Accounted(b, cfg) && |b.buffer| <= AtLeastOne(cfg.maxCount)
    ensures Accounted(Flushed(b, cfg), cfg) && Below([], cfg)
  {
    if b.buffer != [] {
      EmitKeepsAccount(b, AggregateOf(cfg, b.buffer), cfg);
    }
  }

  lemma EmitKeepsAccount(b: Book, a: Aggregate, cfg: Config)
    requires Accounted(b, cfg) && 1 <= |b.buffer| <= AtLeastOne(cfg.maxCount)
    requires a.events == Map(EventOf, b.buffer) && a.childrenCount == |b.buffer|
    ensures Accounted(b.(buffer := [], emitted := b.emitted + [a]), cfg)
  {
    assert (b.emitted + [a])[..|b.emitted|] == b.emitted;
    var all := AllEvents(b.emitted + [a]);
    assert all == AllEvents(b.emitted) + Map(EventOf, b.buffer);
    assert all + Map(EventOf, []) == all;
  }

  class Aggregator {
    const cfg: Config
    var buffer: seq<Span>
    /** `_first_span_time`; 0 also stands for `None`. */
    var firstTime: int
    ghost var added: seq<Span>
    ghost var emitted: seq<Aggregate>

    ghost function Abs(): Book
      reads this
    {
      Book(buffer, added, emitted)
    }

    ghost predicate Valid()
      reads this
    {
      Accounted(Abs(), cfg) && Below(buffer, cfg) && firstTime == FirstTime(buffer)
    }

    constructor (cfg: Config)
      ensures Valid() && buffer == [] && added == [] && emitted == [] && this.cfg == cfg
    {
      this.cfg := cfg;
      buffer, firstTime, added, emitted := [], 0, [], [];
    }

    /** `flush`. */
    method Flush() returns (r: Option<Aggregate>)
      requires Accounted(Abs(), cfg) && |buffer| <= AtLeastOne(cfg.maxCount)
      modifies this
      ensures Valid() && buffer == [] && added == old(added)
      ensures r == if old(buffer) == [] then None else Some(AggregateOf(cfg, old(buffer)))
      ensures emitted == if r.None? then old(emitted) else old(emitted) + [r.value]
    {
      FlushKeepsAccount(Abs(), cfg);
      r := Drain();
    }

    /** The code of `flush`. */
    method Drain() returns (r: Option<Aggregate>)
      modifies this
      ensures buffer == [] && firstTime == 0 && added == old(added)
      ensures r == if old(buffer) == [] then None else Some(AggregateOf(cfg, old(buffer)))
      ensures emitted == Emitted(old(emitted), r)
    {
      r := None;
      if buffer != [] {
        var a := MakeAggregate();
        r := Some(a);
      }
      buffer, firstTime, emitted := [], 0, Emitted(emitted, r);
    }

    /** Lines 160-192: the aggregate of the buffer, and the bytes it saves. */
    method MakeAggregate() returns (a: Aggregate)
      requires buffer != []
      ensures a == AggregateOf(cfg, buffer)
    {
      var p := buffer[0].context.parentSpanId;
      var parent := if p.None? then "" else p.value;
      var events, bytes := MakeEvents(cfg, buffer);
      a := Aggregate(parent, events, |buffer|, bytes - cfg.aggregateSize(parent, events));
    }

    /** Lines 164-174: one event per buffered span, and the bytes of their renderings. */
    static method MakeEvents(cfg: Config, spans: seq<Span>) returns (events: seq<MicroEvent>, bytes: nat)
      ensures events == Map(EventOf, spans) && bytes == TotalSize(cfg, spans)
    {
      events, bytes := [], 0;
      for i := 0 to |spans|
        invariant events == Map(EventOf, spans[..i]) && bytes == TotalSize(cfg, spans[..i])
      {
        assert spans[..i + 1] == spans[..i] + [spans[i]];
        MapAppend(EventOf, spans[..i], spans[i]);
        events, bytes := events + [EventOf(spans[i])], bytes + cfg.spanSize(spans[i]);
      }
      assert spans[..|spans|] == spans;
    }

    /** `add`: flushes when the buffer is full or the window has passed. */
    method Add(span: Span) returns (r: Option<Aggregate>)
      requires Valid()
      modifies this
      ensures Valid() && added == old(added) + [span]
      ensures var full := old(buffer) + [span];
              r == if Emits(cfg, full) then Some(AggregateOf(cfg, full)) else None
      ensures buffer == if r.Some? then [] else old(buffer) + [span]
      ensures emitted == if r.None? then old(emitted) else old(emitted) + [r.value]
    {
      Append(span);
      r := None;
      if |buffer| >= cfg.maxCount || (firstTime != 0 && span.startTime - firstTime >= cfg.maxWindow) {
        r := Flush();
      }
    }

    /** Lines 138-140. */
    method Append(span: Span)
      requires Valid()
      modifies this
      ensures buffer == old(buffer) + [span] && added == old(added) + [span] && emitted == old(emitted)
      ensures Accounted(Abs(), cfg) && |buffer| <= AtLeastOne(cfg.maxCount) && firstTime == FirstTime(buffer)
      ensures !Emits(cfg, buffer) ==> Below(buffer, cfg)
    {
      AddKeepsAccount(Abs(), span, cfg);
      AddKeepsBelow(buffer, span, cfg);
      FirstTimeAppend(buffer, span);
      buffer, added := buffer + [span], added + [span];
      if firstTime == 0 {
        firstTime := span.startTime;
      }
    }
  }

  // ---------------------------------------------------------------- runs of the enqueue path (lines 854-901)

  predicate IsMicro(span: Span) {
    span.spanType == AgentReasoning && "aggregation.children_count" !in span.attributes
  }

  /** Micro-spans are the reasoning spans that are not aggregates themselves. */
  lemma MicroMeans(s: Span)
    ensures IsMicro(s) <==> TypeName(s.spanType) == "agent.reasoning" && "aggregation.children_count" !in s.attributes
  {
    if s.spanType != AgentReasoning {
      assert ParseTypeName(TypeName(s.spanType)) == Some(s.spanType);
    }
  }

  /** A span and its position in the input. */
  datatype Placed = Placed(pos: nat, span: Span)

  /** What is offered to the ring: a span on its own, or buffered spans as one aggregate. */
  datatype Offering = Alone(one: Placed) | Together(many: seq<Placed>)

  /** The spans in the aggregator, and everything offered so far. */
  datatype Log = Log(held: seq<Placed>, offers: seq<Offering>)

  function PlacedSpan(p: Placed): Span { p.span }

  function SpansAt(ps: seq<Placed>): (ss: seq<Span>)
    ensures |ss| == |ps|
  {
    Map(PlacedSpan, ps)
  }

  /** One call of `_enqueue` with aggregation on. A micro-span that does not complete an aggregate is offered on
      its own as well; the one that does is offered only inside the aggregate. A root first pushes out what is
      buffered. */
  function Enqueued(log: Log, p: Placed, cfg: Config): Log {
    var full := log.held + [p];
    if IsMicro(p.span) then
      if Emits(cfg, SpansAt(full)) then Log([], log.offers + [Together(full)])
      else Log(full, log.offers + [Alone(p)])
    else if p.span.spanType == AgentLoop then
      Log([], log.offers + (if log.held == [] then [] else [Together(log.held)]) + [Alone(p)])
    else Log(log.held, log.offers + [Alone(p)])
  }

  /** The log after a whole input. */
  function After(input: seq<Span>, cfg: Config): Log {
    if input == [] then Log([], [])
    else
      var n := |input| - 1;
      Enqueued(After(input[..n], cfg), Placed(n, input[n]), cfg)
  }

  /** The `i`-th span is a micro-span whose own `add` returns an aggregate. */
  predicate Completes(input: seq<Span>, cfg: Config, i: nat)
    requires i < |input|
  {
    IsMicro(input[i]) && Emits(cfg, SpansAt(After(input[..i], cfg).held + [Placed(i, input[i])]))
  }

  /** How often the position occurs. */
  function Occurs(ps: seq<Placed>, i: nat): nat {
    if ps == [] then 0 else Occurs(ps[..|ps| - 1], i) + One(ps[|ps| - 1].pos == i)
  }

  function Carries(o: Offering, i: nat): nat {
    match o
    case Alone(p) => One(p.pos == i)
    case Together(ps) => Occurs(ps, i)
  }

  /** How often the `i`-th span has been offered. */
  function Times(offers: seq<Offering>, i: nat): nat {
    if offers == [] then 0 else Times(offers[..|offers| - 1], i) + Carries(offers[|offers| - 1], i)
  }

  lemma OccursAppend(ps: seq<Placed>, p: Placed, i: nat)
    ensures Occurs(ps + [p], i) == Occurs(ps, i) + One(p.pos == i)
  {
    assert (ps + [p])[..|ps|] == ps;
  }

  lemma TimesAppend(offers: seq<Offering>, o: Offering, i: nat)
    ensures Times(offers + [o], i) == Times(offers, i) + Carries(o, i)
  {
    assert (offers + [o])[..|offers|] == offers;
  }

  /** How often a span that has arrived is offered and held: a held span was offered once on its own, and is offered
      again when it leaves the aggregator. */
  ghost predicate Settled(log: Log, i: nat, arrived: bool, twice: bool) {
    if !arrived then Occurs(log.held, i) == 0 && Times(log.offers, i) == 0
    else if twice then Occurs(log.held, i) <= 1 && Times(log.offers, i) + Occurs(log.held, i) == 2
    else Occurs(log.held, i) == 0 && Times(log.offers, i) == 1
  }

  /** What one call does to the figures of a position. */
  lemma EnqueuedCounts(log: Log, p: Placed, cfg: Config, i: nat)
    ensures var next, completes := Enqueued(log, p, cfg), IsMicro(p.span) && Emits(cfg, SpansAt(log.held + [p]));
            && (IsMicro(p.span) && !completes ==>
                  Occurs(next.held, i) == Occurs(log.held, i) + One(p.pos == i)
                  && Times(next.offers, i) == Times(log.offers, i) + One(p.pos == i))
            && (completes || (!IsMicro(p.span) && p.span.spanType == AgentLoop) ==>
                  Occurs(next.held, i) == 0
                  && Times(next.offers, i) == Times(log.offers, i) + Occurs(log.held, i) + One(p.pos == i))
            && (!IsMicro(p.span) && p.span.spanType != AgentLoop ==>
                  Occurs(next.held, i) == Occurs(log.held, i)
                  && Times(next.offers, i) == Times(log.offers, i) + One(p.pos == i))
  {
    var full := log.held + [p];
    OccursAppend(log.held, p, i);
    TimesAppend(log.offers, Together(full), i);
    TimesAppend(log.offers, Alone(p), i);
    TimesAppend(log.offers, Together(log.held), i);
    TimesAppend(log.offers + [Together(log.held)], Alone(p), i);
    assert log.offers + [] == log.offers;
  }

  lemma EnqueuedSettles(log: Log, p: Placed, cfg: Config, i: nat, twice: bool)
    requires Settled(log, i, i < p.pos, twice)
    requires i == p.pos ==> (twice <==> IsMicro(p.span) && !Emits(cfg, SpansAt(log.held + [p])))
    ensures Settled(Enqueued(log, p, cfg), i, i <= p.pos, twice)
  {
    EnqueuedCounts(log, p, cfg, i);
  }

  /** The spans that are offered on their own and again in an aggregate. */
  predicate Twice(input: seq<Span>, cfg: Config, i: nat) {
    i < |input| && IsMicro(input[i]) && !Completes(input, cfg, i)
  }

  lemma {:induction false} RunSettles(input: seq<Span>, cfg: Config, i: nat)
    ensures Settled(After(input, cfg), i, i < |input|, Twice(input, cfg, i))
  {
    if input != [] {
      var n := |input| - 1;
      RunSettles(input[..n], cfg, i);
      if i < n {
        assert input[..n][..i] == input[..i];
      }
      EnqueuedSettles(After(input[..n], cfg), Placed(n, input[n]), cfg, i, Twice(input, cfg, i));
    }
  }

  /** Over every run with aggregation on: every span is offered once or twice, and exactly once if and only if it
      is no micro-span, or completes an aggregate with its own `add`, or is still in the aggregator. */
  lemma OfferedOnceOrTwice(input: seq<Span>, cfg: Config, i: nat)
    requires i < |input|
    ensures var log := After(input, cfg);
            && 1 <= Times(log.offers, i) <= 2
            && (Times(log.offers, i) == 1 <==>
                  !IsMicro(input[i]) || Completes(input, cfg, i) || Occurs(log.held, i) == 1)
  {
    RunSettles(input, cfg, i);
  }

  /** After a root nothing is left in the aggregator: a micro-span has been offered exactly once if and only if its
      own `add` emitted an aggregate. */
  lemma OfferedOnceAfterRoot(input: seq<Span>, cfg: Config, i: nat)
    requires i < |input| && IsMicro(input[i]) && input[|input| - 1].spanType == AgentLoop
    ensures After(input, cfg).held == []
    ensures Times(After(input, cfg).offers, i) == if Completes(input, cfg, i) then 1 else 2
  {
    RunSettles(input, cfg, i);
  }

  // ---------------------------------------------------------------- the enqueue path (lines 854-901 and 1085-1112)

  datatype Item = Single(span: Span) | Aggregated(aggregate: Aggregate)

  function Itemizer(cfg: Config): Offering -> Item {
    (o: Offering) =>
      match o
      case Alone(p) => Single(p.span)
      case Together(ps) => Aggregated(AggregateOf(cfg, SpansAt(ps)))
  }

  /** The log of a run; without aggregation every span is offered on its own and nothing is held. */
  function LogOf(aggregation: bool, input: seq<Span>, cfg: Config): Log {
    if aggregation then After(input, cfg) else Log([], Map(p => Alone(p), PlaceAll(input)))
  }

  function PlaceAll(input: seq<Span>): seq<Placed> {
    if input == [] then [] else PlaceAll(input[..|input| - 1]) + [Placed(|input| - 1, input[|input| - 1])]
  }

  lemma LogStep(aggregation: bool, input: seq<Span>, span: Span, cfg: Config)
    ensures var log, p := LogOf(aggregation, input, cfg), Placed(|input|, span);
            LogOf(aggregation, input + [span], cfg) ==
            if aggregation then Enqueued(log, p, cfg) else log.(offers := log.offers + [Alone(p)])
  {
    assert (input + [span])[..|input|] == input;
    MapAppend(p => Alone(p), PlaceAll(input), Placed(|input|, span));
  }

  /** The buffer and the items offered are those of the log. */
  ghost predicate Follows(log: Log, buffer: seq<Span>, offered: seq<Item>, cfg: Config) {
    buffer == SpansAt(log.held) && offered == Map(Itemizer(cfg), log.offers)
  }

  /** The spans that enter the aggregator. */
  function Micros(aggregation: bool, input: seq<Span>): seq<Span> {
    if aggregation then Filter(input, IsMicro) else []
  }

  lemma MicrosAppend(aggregation: bool, input: seq<Span>, span: Span)
    ensures Micros(aggregation, input + [span]) ==
            Micros(aggregation, input) + if aggregation && IsMicro(span) then [span] else []
  {
    FilterAppend(input, [span], IsMicro);
    assert [span][1..] == [];
  }

  class Sdk {
    const aggregation: bool
    const aggregator: Aggregator
    /** `asyncio.Queue` of this size; 0 or less means unbounded. */
    const capacity: int
    var ring: seq<Item>

    /** Everything enqueued, and everything offered to the ring, in order. */
    ghost var input: seq<Span>
    ghost var offered: seq<Item>

    /** The aggregator holds and the ring was offered exactly what the log of the run says. */
    ghost predicate Valid()
      reads this, aggregator
    {
      && aggregator.Valid()
      && aggregator.added == Micros(aggregation, input)
      && Follows(LogOf(aggregation, input, aggregator.cfg), aggregator.buffer, offered, aggregator.cfg)
      && RingFits()
    }

    /** The ring holds no more than its capacity, and only what it was offered; an unbounded one holds all of it. */
    ghost predicate RingFits()
      reads this
    {
      && (capacity > 0 ==> |ring| <= capacity) && (capacity <= 0 ==> ring == offered)
      && forall x :: x in ring ==> x in offered
    }

    constructor (aggregation: bool, capacity: int, cfg: Config)
      ensures Valid() && fresh(aggregator) && ring == [] && offered == [] && input == []
      ensures this.aggregation == aggregation && this.capacity == capacity && aggregator.cfg == cfg
    {
      this.aggregation, this.capacity := aggregation, capacity;
      aggregator := new Aggregator(cfg);
      ring, offered, input := [], [], [];
    }

    /** `put_nowait`: a full ring drops the item. */
    method Offer(item: Item)
      requires RingFits()
      modifies this`ring, this`offered
      ensures RingFits() && offered == old(offered) + [item]
      ensures ring == if capacity > 0 && |old(ring)| >= capacity then old(ring) else old(ring) + [item]
    {
      offered := offered + [item];
      if capacity <= 0 || |ring| < capacity {
        ring := ring + [item];
      }
    }

    /** Lines 855-883: what is buffered, put out or passed on. */
    method Gather(span: Span) returns (first: Option<Aggregate>, item: Item)
      requires aggregator.Valid()
      modifies aggregator
      ensures aggregator.Valid()
      ensures aggregator.buffer == NextBuffer(aggregator.cfg, aggregation, old(aggregator.buffer), span)
      ensures aggregator.added == old(aggregator.added) + if aggregation && IsMicro(span) then [span] else []
      ensures first == FirstItem(aggregator.cfg, aggregation, old(aggregator.buffer), span)
      ensures item == LastItem(aggregator.cfg, aggregation, old(aggregator.buffer), span)
    {
      first, item := None, Single(span);
      if aggregation {
        if IsMicro(span) {
          item := Collect(span);
        } else if span.spanType == AgentLoop {
          first := aggregator.Flush();
        }
      }
    }

    /** Lines 868-879: a micro-span is passed on as it is unless it completes an aggregate. */
    method Collect(span: Span) returns (item: Item)
      requires aggregator.Valid()
      modifies aggregator
      ensures aggregator.Valid() && aggregator.added == old(aggregator.added) + [span]
      ensures var full := old(aggregator.buffer) + [span];
              if Emits(aggregator.cfg, full)
              then aggregator.buffer == [] && item == Aggregated(AggregateOf(aggregator.cfg, full))
              else aggregator.buffer == full && item == Single(span)
    {
      var r := aggregator.Add(span);
      item := if r.Some? then Aggregated(r.value) else Single(span);
    }

    /** The aggregation part of `_enqueue`, seen from the aggregator and the ring. */
    method Feed(span: Span)
      requires aggregator.Valid() && RingFits()
      modifies this`ring, this`offered, aggregator
      ensures aggregator.Valid() && RingFits()
      ensures aggregator.added == old(aggregator.added) + if aggregation && IsMicro(span) then [span] else []
      ensures aggregator.buffer == NextBuffer(aggregator.cfg, aggregation, old(aggregator.buffer), span)
      ensures offered == old(offered) + NextItems(aggregator.cfg, aggregation, old(aggregator.buffer), span)
    {
      var first, item := Gather(span);
      OfferBoth(first, item);
    }

    /** What a root pushed out goes in front. */
    method OfferBoth(first: Option<Aggregate>, item: Item)
      requires RingFits()
      modifies this`ring, this`offered
      ensures RingFits()
      ensures offered == old(offered) + ((if first.Some? then [Aggregated(first.value)] else []) + [item])
    {
      ghost var before := offered;
      if first.Some? {
        Offer(Aggregated(first.value));
        Regroup(before, [Aggregated(first.value)], [item]);
      }
      Offer(item);
    }

    /** The same as one step of the log of the run. */
    method Enqueue(span: Span)
      requires Valid()
      modifies this, aggregator
      ensures Valid() && input == old(input) + [span]
      ensures aggregator.buffer == NextBuffer(aggregator.cfg, aggregation, old(aggregator.buffer), span)
      ensures offered == old(offered) + NextItems(aggregator.cfg, aggregation, old(aggregator.buffer), span)
    {
      LogItems(aggregation, input, span, aggregator.cfg, aggregator.buffer, offered);
      MicrosAppend(aggregation, input, span);
      Feed(span);
      input := input + [span];
    }
  }

  /** What the aggregator holds after a call. */
  function NextBuffer(cfg: Config, aggregation: bool, buffer: seq<Span>, span: Span): seq<Span> {
    if !aggregation then buffer
    else if IsMicro(span) then (if Emits(cfg, buffer + [span]) then [] else buffer + [span])
    else if span.spanType == AgentLoop then []
    else buffer
  }

  /** What a root pushes out of the aggregator. */
  function FirstItem(cfg: Config, aggregation: bool, buffer: seq<Span>, span: Span): Option<Aggregate> {
    if aggregation && !IsMicro(span) && span.spanType == AgentLoop && buffer != [] then Some(AggregateOf(cfg, buffer))
    else None
  }

  /** The span itself, or the aggregate that it completes. */
  function LastItem(cfg: Config, aggregation: bool, buffer: seq<Span>, span: Span): Item {
    if aggregation && IsMicro(span) && Emits(cfg, buffer + [span]) then Aggregated(AggregateOf(cfg, buffer + [span]))
    else Single(span)
  }

  /** What a call offers to the ring, in order. */
  function NextItems(cfg: Config, aggregation: bool, buffer: seq<Span>, span: Span): seq<Item> {
    var first := FirstItem(cfg, aggregation, buffer, span);
    (if first.Some? then [Aggregated(first.value)] else []) + [LastItem(cfg, aggregation, buffer, span)]
  }

  /** The buffer and the items after the step are those that the call leaves and offers. */
  ghost predicate Matches(log: Log, p: Placed, next: Log, cfg: Config) {
    && SpansAt(next.held) == NextBuffer(cfg, true, SpansAt(log.held), p.span)
    && Map(Itemizer(cfg), next.offers)
       == Map(Itemizer(cfg), log.offers) + NextItems(cfg, true, SpansAt(log.held), p.span)
  }

  lemma CompletedItems(log: Log, p: Placed, cfg: Config)
    requires IsMicro(p.span) && Emits(cfg, SpansAt(log.held + [p]))
    ensures Matches(log, p, Log([], log.offers + [Together(log.held + [p])]), cfg)
  {
    MapAppend(PlacedSpan, log.held, p);
    MapAppend(Itemizer(cfg), log.offers, Together(log.held + [p]));
  }

  lemma RootItems(log: Log, p: Placed, cfg: Config)
    requires !IsMicro(p.span) && p.span.spanType == AgentLoop && log.held != []
    ensures Matches(log, p, Log([], log.offers + [Together(log.held)] + [Alone(p)]), cfg)
  {
    MapAppend(Itemizer(cfg), log.offers, Together(log.held));
    MapAppend(Itemizer(cfg), log.offers + [Together(log.held)], Alone(p));
    Regroup(Map(Itemizer(cfg), log.offers), [Aggregated(AggregateOf(cfg, SpansAt(log.held)))], [Single(p.span)]);
  }

  lemma AloneItems(log: Log, p: Placed, cfg: Config, held: seq<Placed>)
    requires SpansAt(held) == NextBuffer(cfg, true, SpansAt(log.held), p.span)
    requires NextItems(cfg, true, SpansAt(log.held), p.span) == [Single(p.span)]
    ensures Matches(log, p, Log(held, log.offers + [Alone(p)]), cfg)
  {
    MapAppend(Itemizer(cfg), log.offers, Alone(p));
  }

  /** The step of the log is what a call does to the aggregator and the ring. */
  lemma EnqueuedItems(log: Log, p: Placed, cfg: Config)
    ensures Matches(log, p, Enqueued(log, p, cfg), cfg)
  {
    if IsMicro(p.span) && Emits(cfg, SpansAt(log.held + [p])) {
      CompletedItems(log, p, cfg);
    } else if !IsMicro(p.span) && p.span.spanType == AgentLoop && log.held != [] {
      RootItems(log, p, cfg);
    } else {
      MapAppend(PlacedSpan, log.held, p);
      assert log.offers + [] == log.offers;
      AloneItems(log, p, cfg, Enqueued(log, p, cfg).held);
    }
  }

  lemma LogItems(aggregation: bool, input: seq<Span>, span: Span, cfg: Config, buffer: seq<Span>, offered: seq<Item>)
    requires Follows(LogOf(aggregation, input, cfg), buffer, offered, cfg)
    ensures Follows(LogOf(aggregation, input + [span], cfg), NextBuffer(cfg, aggregation, buffer, span),
                    offered + NextItems(cfg, aggregation, buffer, span), cfg)
  {
    var log, p := LogOf(aggregation, input, cfg), Placed(|input|, span);
    LogStep(aggregation, input, span, cfg);
    if aggregation {
      EnqueuedItems(log, p, cfg);
    } else {
      MapAppend(Itemizer(cfg), log.offers, Alone(p));
    }
  }
}
