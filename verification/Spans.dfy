/** The telemetry records of agent_obs/observability.py: spans, their contexts, attributes and
    events, and the dictionary form produced by `Span.to_dict`. */
module Spans {
  import opened Basics

  /** Attribute values. Python's `int` and `float` are both `Num`. */
  datatype Value = Null | Text(text: string) | Num(num: real) | Flag(flag: bool)

  type Attrs = map<string, Value>

  /** Python truthiness of an attribute value. */
  predicate Truthy(v: Value) {
    match v
    case Null => false
    case Text(s) => s != ""
    case Num(x) => x != 0.0
    case Flag(b) => b
  }

  /** `attrs.get(key, default)`. */
  function Get(attrs: Attrs, key: string, default: Value): Value {
    if key in attrs then attrs[key] else default
  }

  /** `attrs.get(key)` used as a condition. */
  predicate Has(attrs: Attrs, key: string) {
    Truthy(Get(attrs, key, Null))
  }

  /** `float(v)` for the values it accepts. */
  function Money(v: Value): real {
    match v
    case Num(x) => x
    case Flag(b) => if b then 1.0 else 0.0
    case _ => 0.0
  }

  /** `float(v)`, with `parse` standing for its reading of a text; `None` is the exception. */
  function ReadFloat(v: Value, parse: string -> Option<real>): Option<real> {
    match v
    case Null => None
    case Text(s) => parse(s)
    case _ => Some(Money(v))
  }

  /** The values that `float` accepts whatever texts it reads. */
  predicate Numeric(v: Value) { v.Num? || v.Flag? }

  datatype SpanType =
    | AgentLoop
    | LlmCall
    | LlmProxyCall
    | ToolCall
    | AgentReasoning
    | AgentReasoningCompressed

  /** `SpanType.value`. */
  function TypeName(t: SpanType): string {
    match t
    case AgentLoop => "agent.loop"
    case LlmCall => "llm.call"
    case LlmProxyCall => "llm.proxy.call"
    case ToolCall => "tool.call"
    case AgentReasoning => "agent.reasoning"
    case AgentReasoningCompressed => "agent.reasoning.compressed"
  }

  /** `SpanType(value)`; `None` stands for the `InvalidSpanTypeError`. */
  function ParseTypeName(s: string): (t: Option<SpanType>)
    ensures t.Some? ==> TypeName(t.value) == s
    ensures forall u :: TypeName(u) == s ==> t == Some(u)
  {
    if s == "agent.loop" then Some(AgentLoop)
    else if s == "llm.call" then Some(LlmCall)
    else if s == "llm.proxy.call" then Some(LlmProxyCall)
    else if s == "tool.call" then Some(ToolCall)
    else if s == "agent.reasoning" then Some(AgentReasoning)
    else if s == "agent.reasoning.compressed" then Some(AgentReasoningCompressed)
    else None
  }

  /** An ISO 8601 string: empty, or the rendering of a time. Formatting and parsing are taken
      to be inverse, so a rendering is represented by the time itself, in microseconds. */
  datatype Timestamp = Blank | Iso(micros: int)

  datatype Context = Context(
    traceId: string,
    spanId: string,
    parentSpanId: Option<string>,
    agentId: string,
    agentVersion: string,
    userId: string,
    sessionId: string,
    toolName: Option<string>,
    tenantId: string)

  datatype Event = Event(name: string, timestamp: Timestamp, attributes: Attrs)

  datatype Span = Span(
    name: string,
    spanType: SpanType,
    context: Context,
    attributes: Attrs,
    events: seq<Event>,
    startTime: int,
    endTime: Option<int>)
  {
    function Id(): string { context.spanId }

    predicate IsError() { Get(attributes, "status", Null) == Text("error") }

    predicate IsSummary() { spanType == AgentReasoningCompressed }

    predicate IsVirtualRoot() { Has(attributes, "tree.virtual_root") }
  }

  /** `float` accepts both cost attributes, which is where reading the costs would raise otherwise. */
  predicate NumericCost(s: Span) {
    Numeric(Get(s.attributes, "cost.usd", Num(0.0))) && Numeric(Get(s.attributes, "cost.usd_sum", Num(0.0)))
  }

  function StartOf(s: Span): int { s.startTime }

  /** A number in decimal, as `str` writes it. */
  function Decimal(n: nat): string {
    if n < 10 then [Digit(n)] else Decimal(n / 10) + [Digit(n % 10)]
  }

  function Digit(d: nat): char
    requires d < 10
  {
    "0123456789"[d]
  }

  /** Substring test, Python's `sub in s`. */
  predicate Contains(s: string, sub: string) {
    sub <= s || (s != [] && Contains(s[1..], sub))
  }

  ghost predicate OccursAt(s: string, sub: string, i: nat) {
    i <= |s| && sub <= s[i..]
  }

  /** A string contains another exactly when it occurs at some place. */
  lemma {:induction false} ContainsMeans(s: string, sub: string)
    ensures Contains(s, sub) <==> exists i: nat :: OccursAt(s, sub, i)
  {
    assert s[0..] == s;
    assert OccursAt(s, sub, 0) <==> sub <= s;
    if s != [] {
      ContainsMeans(s[1..], sub);
      forall i: nat
        ensures OccursAt(s[1..], sub, i) <==> OccursAt(s, sub, i + 1)
      {
        if i <= |s[1..]| {
          assert s[1..][i..] == s[i + 1..];
        }
      }
      if i: nat :| OccursAt(s, sub, i) {
        if i > 0 {
          var j: nat := i - 1;
          assert OccursAt(s[1..], sub, j);
        }
      }
      if i: nat :| OccursAt(s[1..], sub, i) {
        var j: nat := i + 1;
        assert OccursAt(s, sub, j);
      }
    }
  }

  /** The number that decimal digits write. */
  function ReadDecimal(s: string): int {
    if s == [] then 0 else ReadDecimal(s[..|s| - 1]) * 10 + (s[|s| - 1] as int - '0' as int)
  }

  lemma {:induction false} DecimalReads(n: nat)
    ensures ReadDecimal(Decimal(n)) == n
    ensures forall i :: 0 <= i < |Decimal(n)| ==> '0' <= Decimal(n)[i] <= '9'
  {
    if n < 10 {
      assert [Digit(n)][..0] == [];
    } else {
      DecimalReads(n / 10);
      var front := Decimal(n / 10);
      assert (front + [Digit(n % 10)])[..|front|] == front;
    }
  }

  /** The type names of the wire format. */
  lemma TypeNames()
    ensures TypeName(AgentLoop) == "agent.loop" && TypeName(LlmCall) == "llm.call"
    ensures TypeName(LlmProxyCall) == "llm.proxy.call" && TypeName(ToolCall) == "tool.call"
    ensures TypeName(AgentReasoning) == "agent.reasoning"
    ensures TypeName(AgentReasoningCompressed) == "agent.reasoning.compressed"
  {
  }

  /** What marks an error, a summary and a virtual root. */
  lemma MarksMean(s: Span)
    ensures s.IsError() <==> "status" in s.attributes && s.attributes["status"] == Text("error")
    ensures s.IsSummary() <==> TypeName(s.spanType) == "agent.reasoning.compressed"
    ensures "tree.virtual_root" !in s.attributes ==> !s.IsVirtualRoot()
    ensures "tree.virtual_root" in s.attributes && s.attributes["tree.virtual_root"].Flag? ==>
              (s.IsVirtualRoot() <==> s.attributes["tree.virtual_root"].flag)
  {
    if s.spanType != AgentReasoningCompressed {
      assert ParseTypeName(TypeName(s.spanType)) == Some(s.spanType);
    }
  }

  /** What counts as true in Python. */
  lemma TruthyMeans(v: Value)
    ensures v.Flag? ==> (Truthy(v) <==> v.flag)
    ensures v.Num? ==> (Truthy(v) <==> v.num != 0.0)
    ensures v.Text? ==> (Truthy(v) <==> |v.text| > 0)
    ensures v.Null? ==> !Truthy(v)
  {
  }
}
