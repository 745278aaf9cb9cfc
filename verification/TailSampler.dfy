/** The default policies and `SamplingPolicyV2.decide` of agent_obs/exporters/tail_sampler.py, and what they
    make of the stamps written by the trace aggregation. */
module TailSampler {
  import opened Basics
  import opened Spans
  import opened TraceAggregation

  /** `scores["faithfulness"]` of an evaluation; `None` when it is missing or not a number. */
  datatype Eval = Eval(faithfulness: Option<real>)

  /** A policy; its predicate is `None` where the code raises. */
  datatype Policy = Policy(name: string, matches: (Span, seq<Eval>) -> Option<bool>, keepRate: real, reason: string)

  datatype Decision = Decision(keep: bool, policy: string, reason: string, contentRate: Option<nat>)

  /** What the sampler is configured with. `parse` stands for Python's reading of a text as a number. */
  datatype Settings = Settings(threshold: real, normalRate: real, parse: string -> Option<real>)

  predicate EvalFails(evals: seq<Eval>) {
    exists e :: e in evals && e.faithfulness.Some? && e.faithfulness.value < 0.7
  }

  /** `cost_high_predicate`, which raises when `float` accepts one of the two costs not. */
  function CostHigh(s: Span, settings: Settings): Option<bool> {
    match (ReadFloat(Get(s.attributes, "cost.usd", Num(0.0)), settings.parse),
           ReadFloat(Get(s.attributes, "cost.usd_sum", Num(0.0)), settings.parse))
    case (Some(own), Some(sum)) =>
      Some(own > settings.threshold || sum > settings.threshold
           || Get(s.attributes, "cost.over_budget", Null) == Text("true"))
    case _ => None
  }

  predicate Incident(s: Span) {
    Get(s.attributes, "security.incident", Null) == Text("true")
  }

  /** `_build_default_policies`. */
  function DefaultPolicies(settings: Settings): seq<Policy> {
    [
      Policy("error_keep", (s: Span, es: seq<Eval>) => Some(s.IsError()), 1.0, "error"),
      Policy("eval_fail_keep", (s: Span, es: seq<Eval>) => Some(EvalFails(es)), 1.0, "eval_fail"),
      Policy("cost_high_keep", (s: Span, es: seq<Eval>) => CostHigh(s, settings), 1.0, "cost"),
      Policy("security_keep", (s: Span, es: seq<Eval>) => Some(Incident(s)), 1.0, "security"),
      Policy("random", (s: Span, es: seq<Eval>) => Some(true), settings.normalRate, "random")
    ]
  }

  /** `_should_keep`; `hash` stands for the first eight digest bytes as a fraction. */
  predicate ShouldKeep(hash: real, rate: real) {
    rate >= 1.0 || (rate > 0.0 && hash < rate)
  }

  /** `decide`: the first policy whose predicate holds; `None` when a predicate raises before that. */
  function Decide(policies: seq<Policy>, s: Span, evals: seq<Eval>, hash: string -> real): Option<Decision> {
    if policies == [] then Some(Decision(false, "none", "none", None))
    else
      var p := policies[0];
      match p.matches(s, evals)
      case None => None
      case Some(true) =>
        Some(Decision(ShouldKeep(hash(s.Id()), p.keepRate), p.name, p.reason,
                      if p.name == "eval_fail_keep" then Some(30) else None))
      case Some(false) => Decide(policies[1..], s, evals, hash)
  }

  /** The policy at `i`, when none before it matches or raises, settles the decision: name, reason, content rate
      and keeping by its rate when it matches, an exception when it raises. */
  lemma {:induction false} FirstMatchDecides(policies: seq<Policy>, s: Span, evals: seq<Eval>,
                                             hash: string -> real, i: nat)
    requires i < |policies| && policies[i].matches(s, evals) != Some(false)
    requires forall j :: 0 <= j < i ==> policies[j].matches(s, evals) == Some(false)
    ensures var p := policies[i];
            Decide(policies, s, evals, hash) ==
            if p.matches(s, evals).None? then None
            else Some(Decision(ShouldKeep(hash(s.Id()), p.keepRate), p.name, p.reason,
                               if p.name == "eval_fail_keep" then Some(30) else None))
  {
    if i > 0 {
      FirstMatchDecides(policies[1..], s, evals, hash, i - 1);
    }
  }

  /** The decision under the default policies. */
  function DefaultDecision(settings: Settings, s: Span, evals: seq<Eval>, hash: string -> real): Option<Decision> {
    Decide(DefaultPolicies(settings), s, evals, hash)
  }

  predicate Keeps(d: Option<Decision>) { d.Some? && d.value.keep }

  /** The default policies raise exactly for a span that is neither erroneous nor badly evaluated and has a cost
      that is no number. Otherwise they keep it exactly when it is erroneous, badly evaluated, expensive or an
      incident, or when its id hash falls under the normal rate. */
  lemma DefaultKeeps(settings: Settings, s: Span, evals: seq<Eval>, hash: string -> real)
    ensures var d := DefaultDecision(settings, s, evals, hash);
            && (d.None? <==> !s.IsError() && !EvalFails(evals) && CostHigh(s, settings).None?)
            && (d.Some? ==>
                  (d.value.keep <==>
                     || s.IsError() || EvalFails(evals) || CostHigh(s, settings) == Some(true) || Incident(s)
                     || ShouldKeep(hash(s.Id()), settings.normalRate)))
  {
    var i := if s.IsError() then 0 else if EvalFails(evals) then 1
             else if CostHigh(s, settings) != Some(false) then 2 else if Incident(s) then 3 else 4;
    FirstMatchDecides(DefaultPolicies(settings), s, evals, hash, i);
  }

  /** The same from the attributes, for costs that are numbers: name and reason of the policy that decides, the
      content rate, and whether the span is kept. */
  lemma DefaultDecides(settings: Settings, s: Span, evals: seq<Eval>, hash: string -> real, own: real, sum: real)
    requires Get(s.attributes, "cost.usd", Num(0.0)) == Num(own)
    requires Get(s.attributes, "cost.usd_sum", Num(0.0)) == Num(sum)
    ensures DefaultDecision(settings, s, evals, hash) == Some(
              if Get(s.attributes, "status", Null) == Text("error") then Decision(true, "error_keep", "error", None)
              else if exists e :: e in evals && e.faithfulness.Some? && e.faithfulness.value < 0.7
              then Decision(true, "eval_fail_keep", "eval_fail", Some(30))
              else if own > settings.threshold || sum > settings.threshold
                      || Get(s.attributes, "cost.over_budget", Null) == Text("true")
              then Decision(true, "cost_high_keep", "cost", None)
              else if Get(s.attributes, "security.incident", Null) == Text("true")
              then Decision(true, "security_keep", "security", None)
              else Decision(ShouldKeep(hash(s.context.spanId), settings.normalRate), "random", "random", None))
  {
    var i := if s.IsError() then 0 else if EvalFails(evals) then 1
             else if CostHigh(s, settings) != Some(false) then 2 else if Incident(s) then 3 else 4;
    FirstMatchDecides(DefaultPolicies(settings), s, evals, hash, i);
  }

  /** Without a matching policy a span is dropped. */
  lemma {:induction false} NoMatchDrops(policies: seq<Policy>, s: Span, evals: seq<Eval>, hash: string -> real)
    requires forall i :: 0 <= i < |policies| ==> policies[i].matches(s, evals) == Some(false)
    ensures Decide(policies, s, evals, hash) == Some(Decision(false, "none", "none", None))
  {
    if policies != [] {
      NoMatchDrops(policies[1..], s, evals, hash);
    }
  }

  /** Keeping by rate: always from 1 on, never up to 0, by the hash in between; and a span kept at some rate is kept
      at every higher one. */
  lemma KeepByRate(hash: real, rate: real, higher: real)
    requires 0.0 <= hash < 1.0 && rate <= higher
    ensures ShouldKeep(hash, rate) <==> hash < rate
    ensures ShouldKeep(hash, rate) ==> ShouldKeep(hash, higher)
  {
  }

  /** The root of a trace whose totals show an error or exceed the budget is kept, whatever its id hash,
      the normal rate and the sampler's own threshold. A root that is only over budget and not badly evaluated
      must have an own cost that is a number, or none. */
  lemma StampedRootKept(settings: Settings, root: Span, a: Agg, budget: real, round8: real -> real,
                        evals: seq<Eval>, hash: string -> real)
    requires a.hasError || a.cost > budget
    ensures Keeps(DefaultDecision(settings, Stamp(root, a, budget, round8), evals, hash)) <==>
            || a.hasError || root.IsError() || EvalFails(evals)
            || ReadFloat(Get(root.attributes, "cost.usd", Num(0.0)), settings.parse).Some?
  {
    DefaultKeeps(settings, Stamp(root, a, budget, round8), evals, hash);
  }

  /** The spans of the trace that `root` closes after `spans`. */
  function TraceOf(spans: seq<Span>, root: Span): seq<Span> {
    OpenSpans(spans, root.context.traceId) + [root]
  }

  /** What the code makes of a root that arrives after a run. */
  ghost function RootAfter(spans: seq<Span>, limit: nat, root: Span, budget: real, round8: real -> real): Span {
    OutOf(After(spans, limit).agg, root, limit, budget, round8)
  }

  /** From the history: when a trace closes with its exact totals, and one of its spans was erroneous or its
      `llm.call` costs sum to more than the budget, its stamped root is kept under the same proviso. */
  lemma BadTraceKept(settings: Settings, history: seq<Span>, root: Span, budget: real, round8: real -> real,
                     evals: seq<Eval>, hash: string -> real)
    ensures AnyError(TraceOf(history, root)) || TotalCost(TraceOf(history, root)) > budget ==>
              (Keeps(DefaultDecision(settings, Stamp(root, TraceTotals(history, root), budget, round8), evals, hash))
               <==>
                 || AnyError(TraceOf(history, root)) || EvalFails(evals)
                 || ReadFloat(Get(root.attributes, "cost.usd", Num(0.0)), settings.parse).Some?)
  {
    var ss := TraceOf(history, root);
    assert ss[|ss| - 1] == root;
    if AnyError(ss) || TotalCost(ss) > budget {
      StampedRootKept(settings, root, TraceTotals(history, root), budget, round8, evals, hash);
    }
  }

  /** What can be read from a stamp. */
  lemma StampReads(root: Span, a: Agg, budget: real, round8: real -> real)
    ensures var out := Stamp(root, a, budget, round8);
            && Get(out.attributes, "steps.count", Null) == Num(a.steps as real)
            && Get(out.attributes, "cost.usd_sum", Null) == Num(round8(a.cost))
            && (Get(out.attributes, "cost.over_budget", Null) == Text("true") <==> a.cost > budget)
            && (out.IsError() <==> a.hasError || root.IsError())
            && Get(out.attributes, "security.incident", Null) == Text("false")
            && out == root.(attributes := out.attributes)
            && (!a.hasError ==> Get(out.attributes, "status", Null) == Get(root.attributes, "status", Null))
            && forall k :: k !in STAMPED ==>
                 (k in out.attributes <==> k in root.attributes)
                 && (k in root.attributes ==> out.attributes[k] == root.attributes[k])
  {
    assert "true" != "false";
  }

  /** The attributes that a stamp may write. */
  const STAMPED: set<string> :=
    {"steps.count", "cost.usd_sum", "cost.over_budget", "security.incident", "status"}

  /** Over every run: a root that closes a trace that lost no span carries the exact number of spans, the
      exact sum of `llm.call` costs, the over-budget mark exactly when that sum exceeds the budget, and the
      error status exactly when some span of the trace had it. Only a root that the full table turns away stays as
      it is, and it is then alone in its trace. */
  lemma RunStampsExactly(spans: seq<Span>, limit: nat, root: Span, budget: real, round8: real -> real)
    requires IsRoot(root) && root.context.traceId !in After(spans, limit).refused
    ensures var ss, out := TraceOf(spans, root), RootAfter(spans, limit, root, budget, round8);
            if Refuses(After(spans, limit).agg, root, limit) then out == root && ss == [root]
            else
              && Get(out.attributes, "steps.count", Null) == Num(|ss| as real)
              && Get(out.attributes, "cost.usd_sum", Null) == Num(round8(TotalCost(ss)))
              && (Get(out.attributes, "cost.over_budget", Null) == Text("true") <==> TotalCost(ss) > budget)
              && (out.IsError() <==> AnyError(ss))
  {
    RunsKeepTable(spans, limit);
    if Refuses(After(spans, limit).agg, root, limit) {
      RefusedRootAlone(spans, limit, root);
    } else {
      EntryBounds(After(spans, limit), root, limit);
      var ss := TraceOf(spans, root);
      assert ss[|ss| - 1] == root;
      StampReads(root, TraceTotals(spans, root), budget, round8);
    }
  }

  /** Over every run: if a root closes a trace that lost no span, and one of the trace's spans was erroneous or its
      costs exceed the budget, what the code makes of the root is kept, also when the full table turns it away.
      The own cost of a root that is not erroneous must be readable, as above. */
  lemma RunKeepsBadTraces(settings: Settings, spans: seq<Span>, limit: nat, root: Span, budget: real,
                          round8: real -> real, evals: seq<Eval>, hash: string -> real)
    requires IsRoot(root) && root.context.traceId !in After(spans, limit).refused
    ensures AnyError(TraceOf(spans, root))
            || (TotalCost(TraceOf(spans, root)) > budget
                && (budget >= 0.0 || !Refuses(After(spans, limit).agg, root, limit)))
            ==>
              (Keeps(DefaultDecision(settings, RootAfter(spans, limit, root, budget, round8), evals, hash)) <==>
                 || AnyError(TraceOf(spans, root)) || EvalFails(evals)
                 || ReadFloat(Get(root.attributes, "cost.usd", Num(0.0)), settings.parse).Some?)
  {
    if Refuses(After(spans, limit).agg, root, limit) {
      RefusedRootAlone(spans, limit, root);
      RefusedRootCost(root);
      DefaultKeeps(settings, root, evals, hash);
    } else {
      TakenRoot(spans, limit, root, budget, round8);
      BadTraceKept(settings, spans, root, budget, round8, evals, hash);
    }
  }

  lemma TakenRoot(spans: seq<Span>, limit: nat, root: Span, budget: real, round8: real -> real)
    requires IsRoot(root) && root.context.traceId !in After(spans, limit).refused
    requires !Refuses(After(spans, limit).agg, root, limit)
    ensures RootAfter(spans, limit, root, budget, round8) == Stamp(root, TraceTotals(spans, root), budget, round8)
  {
    RunsKeepTable(spans, limit);
    EntryBounds(After(spans, limit), root, limit);
  }

  lemma RefusedRootCost(root: Span)
    requires IsRoot(root)
    ensures TotalCost([] + [root]) == 0.0 && (AnyError([] + [root]) <==> root.IsError())
  {
    assert [root][..0] == [];
    assert root in [root];
  }
}
