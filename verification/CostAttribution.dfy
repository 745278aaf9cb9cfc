/** `CostAttributionTracker` and `BudgetEnforcer` of agent_obs/cost/attribution.py: spend per tenant, agent and
    day, kept in memory and raised to the authoritative snapshot, and the budget verdict read from it. */
module CostAttribution {
  import opened Basics

  datatype Key = Key(tenant: string, agent: string, day: int)

  type Amounts = map<Key, real>

  function Amount(m: Amounts, k: Key): real {
    if k in m then m[k] else 0.0
  }

  /** `record`: a zero cost leaves no trace. */
  function Credit(m: Amounts, k: Key, cost: real): Amounts {
    if cost == 0.0 then m else m[k := Amount(m, k) + cost]
  }

  /** A row of the snapshot for one day. */
  datatype Total = Total(tenant: string, agent: string, total: real)

  function KeyOf(r: Total, day: int): Key { Key(r.tenant, r.agent, day) }

  function Max(x: real, y: real): real { if x < y then y else x }

  /** Lines 213-217: every row raises its key to at least the row's total. */
  function Raise(m: Amounts, rows: seq<Total>, day: int): Amounts {
    if rows == [] then m
    else
      var before := Raise(m, rows[..|rows| - 1], day);
      var r := rows[|rows| - 1];
      before[KeyOf(r, day) := Max(Amount(before, KeyOf(r, day)), r.total)]
  }

  // ---------------------------------------------------------------- runs

  /** What this process tracks, what it recorded itself, and the true total over all processes. */
  datatype State = State(spend: Amounts, local: Amounts, truth: Amounts)

  datatype Step =
    | Record(key: Key, cost: real)
    | Elsewhere(key: Key, cost: real)
    | Merge(rows: seq<Total>, day: int)

  /** Costs are not negative, and a snapshot never shows more than the truth. */
  ghost predicate Next(s: State, step: Step, t: State) {
    match step
    case Record(k, c) =>
      c >= 0.0 && t == State(Credit(s.spend, k, c), Credit(s.local, k, c), Credit(s.truth, k, c))
    case Elsewhere(k, c) => c >= 0.0 && t == s.(truth := Credit(s.truth, k, c))
    case Merge(rows, day) =>
      && (forall r :: r in rows ==> r.total <= Amount(s.truth, KeyOf(r, day)))
      && t == s.(spend := Raise(s.spend, rows, day))
  }

  ghost predicate Bounded(s: State) {
    forall k :: 0.0 <= Amount(s.local, k) <= Amount(s.spend, k) <= Amount(s.truth, k)
  }

  /** No key loses spend or disappears. */
  ghost predicate Grows(a: Amounts, b: Amounts) {
    a.Keys <= b.Keys && forall k :: Amount(a, k) <= Amount(b, k)
  }

  /** Merging raises every key, and no key above a bound that the rows respect. */
  lemma {:induction false} RaiseBounds(m: Amounts, rows: seq<Total>, day: int, truth: Amounts)
    requires forall r :: r in rows ==> r.total <= Amount(truth, KeyOf(r, day))
    requires forall k :: Amount(m, k) <= Amount(truth, k)
    ensures Grows(m, Raise(m, rows, day))
    ensures forall k :: Amount(Raise(m, rows, day), k) <= Amount(truth, k)
  {
    if rows != [] {
      RaiseBounds(m, rows[..|rows| - 1], day, truth);
    }
  }

  /** After the merge every row's key is at least at the row's total. */
  lemma {:induction false} RaiseReaches(m: Amounts, rows: seq<Total>, day: int, i: nat)
    requires i < |rows|
    ensures Amount(Raise(m, rows, day), KeyOf(rows[i], day)) >= rows[i].total
  {
    if i < |rows| - 1 {
      RaiseReaches(m, rows[..|rows| - 1], day, i);
    }
  }

  lemma StepBounds(s: State, step: Step, t: State)
    requires Bounded(s) && Next(s, step, t)
    ensures Bounded(t) && Grows(s.spend, t.spend)
  {
    if step.Merge? {
      RaiseBounds(s.spend, step.rows, step.day, s.truth);
    }
  }

  ghost predicate IsRun(states: seq<State>, steps: seq<Step>) {
    && |states| == |steps| + 1 && states[0] == State(map[], map[], map[])
    && forall i :: 0 <= i < |steps| ==> Next(states[i], steps[i], states[i + 1])
  }

  /** Over every run the tracked spend of a key stays between what this process recorded and the true
      total. */
  lemma {:induction false} RunBounded(states: seq<State>, steps: seq<Step>, n: nat)
    requires IsRun(states, steps) && n < |states|
    ensures Bounded(states[n])
  {
    if n > 0 {
      RunBounded(states, steps, n - 1);
      StepBounds(states[n - 1], steps[n - 1], states[n]);
    }
  }

  /** And it never decreases. */
  lemma {:induction false} RunGrows(states: seq<State>, steps: seq<Step>, m: nat, n: nat)
    requires IsRun(states, steps) && m <= n < |states|
    ensures Grows(states[m].spend, states[n].spend)
  {
    if m < n {
      RunGrows(states, steps, m, n - 1);
      RunBounded(states, steps, n - 1);
      StepBounds(states[n - 1], steps[n - 1], states[n]);
    }
  }

  // ---------------------------------------------------------------- the spend of a tenant

  ghost function Sum(m: Amounts, keys: set<Key>): real {
    if keys == {} then 0.0
    else
      var k :| k in keys;
      Amount(m, k) + Sum(m, keys - {k})
  }

  lemma {:induction false} SumPick(m: Amounts, keys: set<Key>, k: Key)
    requires k in keys
    ensures Sum(m, keys) == Amount(m, k) + Sum(m, keys - {k})
    decreases keys
  {
    var j :| j in keys && Sum(m, keys) == Amount(m, j) + Sum(m, keys - {j});
    if j != k {
      SumPick(m, keys - {j}, k);
      SumPick(m, keys - {k}, j);
      assert keys - {j} - {k} == keys - {k} - {j};
    }
  }

  lemma {:induction false} SumGrows(a: Amounts, b: Amounts, few: set<Key>, many: set<Key>)
    requires few <= many && Grows(a, b)
    requires forall k :: k in many ==> Amount(b, k) >= 0.0
    ensures Sum(a, few) <= Sum(b, many)
    decreases many
  {
    if many == {} {
      assert few == {};
    } else {
      var k :| k in many;
      SumPick(b, many, k);
      if k in few {
        SumPick(a, few, k);
      } else {
        assert few - {k} == few;
      }
      SumGrows(a, b, few - {k}, many - {k});
    }
  }

  function TenantKeys(m: Amounts, tenant: string, day: int): set<Key> {
    set k | k in m && k.tenant == tenant && k.day == day
  }

  /** All agents of a tenant on a day. */
  ghost function TenantSpend(m: Amounts, tenant: string, day: int): real {
    Sum(m, TenantKeys(m, tenant, day))
  }

  /** `spend_today`. */
  method SpendToday(m: Amounts, tenant: string, today: int) returns (total: real)
    ensures total == TenantSpend(m, tenant, today)
  {
    total := 0.0;
    var left := TenantKeys(m, tenant, today);
    while left != {}
      invariant left <= m.Keys
      invariant total + Sum(m, left) == TenantSpend(m, tenant, today)
      decreases |left|
    {
      var k :| k in left;
      SumPick(m, left, k);
      total := total + m[k];
      left := left - {k};
    }
  }

  /** Whether a key belongs to the tenant and the day. */
  predicate Belongs(k: Key, tenant: string, day: int) { k.tenant == tenant && k.day == day }

  lemma NothingSpent(tenant: string, day: int)
    ensures TenantSpend(map[], tenant, day) == 0.0
  {
  }

  lemma {:induction false} SumSame(a: Amounts, b: Amounts, keys: set<Key>)
    requires forall k :: k in keys ==> Amount(a, k) == Amount(b, k)
    ensures Sum(a, keys) == Sum(b, keys)
    decreases keys
  {
    if keys != {} {
      var k :| k in keys;
      SumPick(a, keys, k);
      SumPick(b, keys, k);
      SumSame(a, b, keys - {k});
    }
  }

  /** A recorded cost raises the spend of its own tenant and day by that cost, and no other spend. */
  lemma CreditSpend(m: Amounts, k: Key, cost: real, tenant: string, day: int)
    ensures TenantSpend(Credit(m, k, cost), tenant, day) ==
            TenantSpend(m, tenant, day) + if Belongs(k, tenant, day) then cost else 0.0
  {
    var after := Credit(m, k, cost);
    var before, now := TenantKeys(m, tenant, day), TenantKeys(after, tenant, day);
    if cost != 0.0 {
      if Belongs(k, tenant, day) {
        assert now == before + {k} && now - {k} == before - {k};
        SumPick(after, now, k);
        SumSame(m, after, before - {k});
        if k in before {
          SumPick(m, before, k);
        } else {
          assert before - {k} == before;
        }
      } else {
        assert now == before;
        SumSame(m, after, before);
      }
    }
  }

  /** What the first `n` steps of a run recorded here for a tenant and a day. */
  function RecordedFor(steps: seq<Step>, n: nat, tenant: string, day: int): real
    requires n <= |steps|
  {
    if n == 0 then 0.0
    else
      RecordedFor(steps, n - 1, tenant, day)
      + match steps[n - 1]
        case Record(k, c) => if k.tenant == tenant && k.day == day then c else 0.0
        case _ => 0.0
  }

  ghost predicate NoMerges(steps: seq<Step>) {
    forall i :: 0 <= i < |steps| ==> !steps[i].Merge?
  }

  /** Over every run, what this process recorded for a tenant and a day is the sum of its records for them; without
      merges that is also the tracked spend. */
  lemma {:induction false} RunSpend(states: seq<State>, steps: seq<Step>, n: nat, tenant: string, day: int)
    requires IsRun(states, steps) && n < |states|
    ensures TenantSpend(states[n].local, tenant, day) == RecordedFor(steps, n, tenant, day)
    ensures NoMerges(steps) ==> TenantSpend(states[n].spend, tenant, day) == RecordedFor(steps, n, tenant, day)
  {
    if n == 0 {
      NothingSpent(tenant, day);
    } else {
      RunSpend(states, steps, n - 1, tenant, day);
      assert Next(states[n - 1], steps[n - 1], states[n]);
      SpendStep(states[n - 1], steps[n - 1], states[n], tenant, day);
    }
  }

  lemma SpendStep(s: State, step: Step, t: State, tenant: string, day: int)
    requires Next(s, step, t)
    ensures var own := match step
                       case Record(k, c) => if k.tenant == tenant && k.day == day then c else 0.0
                       case _ => 0.0;
            && TenantSpend(t.local, tenant, day) == TenantSpend(s.local, tenant, day) + own
            && (!step.Merge? ==> TenantSpend(t.spend, tenant, day) == TenantSpend(s.spend, tenant, day) + own)
  {
    if step.Record? {
      CreditSpend(s.local, step.key, step.cost, tenant, day);
      CreditSpend(s.spend, step.key, step.cost, tenant, day);
    }
  }

  /** A merge changes a key to the larger of its amount and its row, and no key without a row. */
  lemma {:induction false} RaiseOthers(m: Amounts, rows: seq<Total>, day: int, k: Key)
    requires forall r :: r in rows ==> KeyOf(r, day) != k
    ensures Amount(Raise(m, rows, day), k) == Amount(m, k) && (k in Raise(m, rows, day) <==> k in m)
  {
    if rows != [] {
      RaiseOthers(m, rows[..|rows| - 1], day, k);
      assert rows[|rows| - 1] in rows;
    }
  }

  /** Rows of other tenants do not change a tenant's spend. */
  lemma MergeOfOthers(m: Amounts, rows: seq<Total>, today: int, tenant: string, day: int)
    requires forall r :: r in rows ==> r.tenant != tenant || today != day
    ensures TenantSpend(Raise(m, rows, today), tenant, day) == TenantSpend(m, tenant, day)
  {
    var after := Raise(m, rows, today);
    forall k | Belongs(k, tenant, day)
      ensures Amount(after, k) == Amount(m, k) && (k in after <==> k in m)
    {
      RaiseOthers(m, rows, today, k);
    }
    assert TenantKeys(after, tenant, day) == TenantKeys(m, tenant, day);
    SumSame(m, after, TenantKeys(m, tenant, day));
  }

  // ---------------------------------------------------------------- the verdict

  datatype Verdict = Ok | Approaching | Exhausted

  function Rank(v: Verdict): nat {
    match v
    case Ok => 0
    case Approaching => 1
    case Exhausted => 2
  }

  /** `check`, for a budget and a spend. */
  function Judge(budget: real, spend: real): Verdict {
    if budget <= 0.0 then Ok
    else if spend / budget >= 1.0 then Exhausted
    else if spend / budget >= 0.8 then Approaching
    else Ok
  }

  /** The verdict in terms of the budget: at 80 percent and at the whole budget. */
  lemma JudgeThresholds(budget: real, spend: real)
    ensures Judge(budget, spend) == Exhausted <==> spend >= budget > 0.0
    ensures Judge(budget, spend) == Approaching <==> 0.8 * budget <= spend < budget && budget > 0.0
  {
    if budget > 0.0 {
      RatioAtLeast(spend, budget, 1.0);
      RatioAtLeast(spend, budget, 0.8);
    }
  }

  lemma MoreSpendIsWorse(budget: real, less: real, more: real)
    requires less <= more
    ensures Rank(Judge(budget, less)) <= Rank(Judge(budget, more))
  {
    if budget > 0.0 {
      JudgeThresholds(budget, less);
      JudgeThresholds(budget, more);
    }
  }

  /** Over every run, with a fixed budget, a tenant's verdict for a day only moves from ok to approaching to
      exhausted. */
  lemma VerdictOnlyWorsens(states: seq<State>, steps: seq<Step>, m: nat, n: nat, tenant: string, day: int, budget: real)
    requires IsRun(states, steps) && m <= n < |states|
    ensures Rank(Judge(budget, TenantSpend(states[m].spend, tenant, day)))
         <= Rank(Judge(budget, TenantSpend(states[n].spend, tenant, day)))
  {
    var a, b := states[m].spend, states[n].spend;
    RunGrows(states, steps, m, n);
    RunBounded(states, steps, n);
    forall k
      ensures Amount(b, k) >= 0.0
    {
      assert 0.0 <= Amount(states[n].local, k) <= Amount(b, k);
    }
    SumGrows(a, b, TenantKeys(a, tenant, day), TenantKeys(b, tenant, day));
    MoreSpendIsWorse(budget, TenantSpend(a, tenant, day), TenantSpend(b, tenant, day));
  }

  /** A step that concerns other tenants or days leaves the verdict alone. */
  lemma OthersKeepVerdict(s: State, step: Step, t: State, tenant: string, day: int, budget: real)
    requires Next(s, step, t)
    requires match step
             case Record(k, _) => k.tenant != tenant || k.day != day
             case Elsewhere(_, _) => true
             case Merge(rows, today) => forall r :: r in rows ==> r.tenant != tenant || today != day
    ensures Judge(budget, TenantSpend(t.spend, tenant, day)) == Judge(budget, TenantSpend(s.spend, tenant, day))
  {
    match step
    case Record(k, c) => CreditSpend(s.spend, k, c, tenant, day);
    case Elsewhere(_, _) =>
    case Merge(rows, today) => MergeOfOthers(s.spend, rows, today, tenant, day);
  }

  /** The tracker's fields and the code that updates them. */
  class Tracker {
    var spend: Amounts
    var overrides: map<string, real>
    const defaultBudget: real

    constructor (defaultBudget: real)
      ensures spend == map[] && overrides == map[] && this.defaultBudget == defaultBudget
    {
      spend, overrides, this.defaultBudget := map[], map[], defaultBudget;
    }

    /** `record`. */
    method Record(tenant: string, agent: string, today: int, cost: real)
      modifies this`spend
      ensures spend == Credit(old(spend), Key(tenant, agent, today), cost)
    {
      if cost == 0.0 {
        return;
      }
      var key := Key(tenant, agent, today);
      spend := spend[key := (if key in spend then spend[key] else 0.0) + cost];
    }

    /** The snapshot part of `flush_once`. */
    method MergeSnapshot(rows: seq<Total>, today: int)
      modifies this`spend
      ensures spend == Raise(old(spend), rows, today)
    {
      for i := 0 to |rows|
        invariant spend == Raise(old(spend), rows[..i], today)
      {
        assert rows[..i + 1][..i] == rows[..i];
        var key := KeyOf(rows[i], today);
        spend := spend[key := Max(if key in spend then spend[key] else 0.0, rows[i].total)];
      }
      assert rows[..|rows|] == rows;
    }

    /** `BudgetEnforcer.check`. */
    method Check(tenant: string, today: int) returns (v: Verdict)
      ensures v == Judge(if tenant in overrides then overrides[tenant] else defaultBudget,
                         TenantSpend(spend, tenant, today))
    {
      var budget := if tenant in overrides then overrides[tenant] else defaultBudget;
      if budget <= 0.0 {
        return Ok;
      }
      var total := SpendToday(spend, tenant, today);
      v := Judge(budget, total);
    }
  }
}
