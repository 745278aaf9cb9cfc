/** Delivery in agent_obs/exporters/langfuse_exporter.py: retries with backoff, the bounded queue of pending
    batches, and the final flush. Circuit breakers are not part of this model; their answer is an input. */
module LangfuseExporter {
  import opened Basics

  /** The outcome of one HTTP attempt; `Transient` may be retried. */
  datatype Outcome = Success | Rejected | Transient

  // ---------------------------------------------------------------- retries (lines 472-502 and 583-587)

  function Pow2(n: nat): (p: real)
    ensures p >= 1.0
  {
    if n == 0 then 1.0 else 2.0 * Pow2(n - 1)
  }

  /** `_retry_delay`; `luck` in [0, 1] stands for the random draw. */
  function RetryDelay(attempt: nat, luck: real): real {
    var delay := 0.2 * Pow2(attempt);
    delay + luck * (delay * 0.5)
  }

  function Slept(luck: nat -> real, attempts: nat): real {
    if attempts == 0 then 0.0 else Slept(luck, attempts - 1) + RetryDelay(attempts - 1, luck(attempts - 1))
  }

  ghost predicate Draws(luck: nat -> real) {
    forall i :: 0.0 <= luck(i) <= 1.0
  }

  lemma DelayBounds(attempt: nat, luck: real)
    requires 0.0 <= luck <= 1.0
    ensures 0.2 * Pow2(attempt) <= RetryDelay(attempt, luck) <= 0.3 * Pow2(attempt)
    ensures RetryDelay(attempt, 0.0) == 0.2 * Pow2(attempt) && RetryDelay(attempt, 1.0) == 0.3 * Pow2(attempt)
  {
    var half := 0.1 * Pow2(attempt);
    assert RetryDelay(attempt, luck) == 0.2 * Pow2(attempt) + luck * half;
    assert 0.0 <= luck * half <= 1.0 * half;
  }

  /** The total backoff after `n` failed attempts. */
  lemma {:induction false} SleepBounds(luck: nat -> real, n: nat)
    requires Draws(luck)
    ensures 0.2 * (Pow2(n) - 1.0) <= Slept(luck, n) <= 0.3 * (Pow2(n) - 1.0)
  {
    if n > 0 {
      SleepBounds(luck, n - 1);
      DelayBounds(n - 1, luck(n - 1));
    }
  }

  /** `_post_with_retries`: stops at the first attempt that is not transient, sleeping after every one that
      is. `None` is the exception for want of any outcome, when no attempt is allowed. */
  method PostWithRetries(maxRetries: int, server: nat -> Outcome, luck: nat -> real)
    returns (outcome: Option<Outcome>, slept: real, attempts: nat)
    requires Draws(luck)
    ensures outcome.None? <==> maxRetries <= 0
    ensures outcome.None? ==> attempts == 0 && slept == 0.0
    ensures outcome.Some? ==> 1 <= attempts <= maxRetries && outcome.value == server(attempts - 1)
    ensures forall i :: 0 <= i < attempts - 1 ==> server(i) == Transient
    ensures outcome == Some(Transient) ==> attempts == maxRetries
    ensures outcome.Some? ==> slept == Slept(luck, if outcome.value == Transient then attempts else attempts - 1)
    ensures outcome == Some(Transient) ==>
              0.2 * (Pow2(attempts) - 1.0) <= slept <= 0.3 * (Pow2(attempts) - 1.0)
  {
    slept, outcome, attempts := 0.0, None, 0;
    while attempts < maxRetries
      invariant attempts == 0 || attempts <= maxRetries
      invariant slept == Slept(luck, attempts)
      invariant forall i :: 0 <= i < attempts ==> server(i) == Transient
      invariant outcome == if attempts == 0 then None else Some(Transient)
    {
      outcome := Some(server(attempts));
      attempts := attempts + 1;
      if outcome != Some(Transient) {
        return;
      }
      slept := slept + RetryDelay(attempts - 1, luck(attempts - 1));
    }
    SleepBounds(luck, attempts);
  }

  // ---------------------------------------------------------------- accounting of batches (lines 504-576)

  /** A non-empty batch, by identity. */
  type Batch = nat

  /** `stashed` lists what went into the pending queue since the last flush. */
  datatype State = State(
    pending: seq<Batch>,
    stashed: seq<Batch>,
    submitted: multiset<Batch>,
    exporting: multiset<Batch>,
    flushing: multiset<Batch>,
    delivered: multiset<Batch>,
    rejected: multiset<Batch>,
    overflowed: multiset<Batch>,
    lost: multiset<Batch>)

  /** How an export ends: as its last attempt did, or with an error that `_post_once` does not catch. */
  datatype Ending = Ended(outcome: Outcome) | Raised

  datatype Step =
    | Submit(batch: Batch, allowed: bool)
    | ExportEnds(batch: Batch, ending: Ending)
    | BeginFlush
    | FlushAttempt(batch: Batch, ok: bool)

  /** `_stash`: a queue over its limit gives up its oldest batch. */
  function Stash(s: State, b: Batch, cap: nat): State {
    var queue := s.pending + [b];
    var over := |queue| > cap;
    s.(pending := if over then queue[1..] else queue,
       stashed := s.stashed + [b],
       overflowed := if over then s.overflowed + multiset{queue[0]} else s.overflowed)
  }

  ghost predicate Next(s: State, step: Step, t: State, cap: nat) {
    match step
    case Submit(b, allowed) =>
      var s' := s.(submitted := s.submitted + multiset{b});
      t == if allowed then s'.(exporting := s.exporting + multiset{b}) else Stash(s', b, cap)
    case ExportEnds(b, ending) =>
      && b in s.exporting
      && var s' := s.(exporting := s.exporting - multiset{b});
         t == (match ending
               case Raised => s'.(lost := s.lost + multiset{b})
               case Ended(Success) => s'.(delivered := s.delivered + multiset{b})
               case Ended(Rejected) => s'.(rejected := s.rejected + multiset{b})
               case Ended(Transient) => Stash(s', b, cap))
    case BeginFlush =>
      t == s.(pending := [], stashed := [], flushing := s.flushing + multiset(s.pending))
    case FlushAttempt(b, ok) =>
      && b in s.flushing
      && var s' := s.(flushing := s.flushing - multiset{b});
         t == if ok then s'.(delivered := s.delivered + multiset{b}) else s'.(lost := s.lost + multiset{b})
  }

  /** In how many places a batch is. */
  ghost function Places(s: State, b: Batch): nat {
    s.exporting[b] + s.flushing[b] + multiset(s.pending)[b]
    + s.delivered[b] + s.rejected[b] + s.overflowed[b] + s.lost[b]
  }

  function LastOf(xs: seq<Batch>, n: nat): seq<Batch> {
    if |xs| <= n then xs else xs[|xs| - n..]
  }

  /** Every batch is in as many places as it was submitted times, and the queue is the newest `cap` batches
      stashed since the last flush, oldest first. */
  ghost predicate Accounted(s: State, cap: nat) {
    (forall b :: s.submitted[b] == Places(s, b)) && s.pending == LastOf(s.stashed, cap)
  }

  /** The newest `n` elements, in order. */
  lemma LastOfMeans(xs: seq<Batch>, n: nat)
    ensures |LastOf(xs, n)| == (if |xs| < n then |xs| else n)
    ensures xs == xs[..|xs| - |LastOf(xs, n)|] + LastOf(xs, n)
  {
  }

  const START: State :=
    State([], [], multiset{}, multiset{}, multiset{}, multiset{}, multiset{}, multiset{}, multiset{})

  lemma QueueCounts(queue: seq<Batch>, b: Batch, x: Batch)
    ensures multiset(queue + [b])[x] == multiset(queue)[x] + One(x == b)
    ensures multiset((queue + [b])[1..])[x] + One(x == (queue + [b])[0]) == multiset(queue)[x] + One(x == b)
  {
    var longer := queue + [b];
    assert longer == [longer[0]] + longer[1..];
    assert multiset(longer) == multiset{longer[0]} + multiset(longer[1..]);
  }

  lemma StashPlaces(s: State, b: Batch, cap: nat, x: Batch)
    ensures Places(Stash(s, b, cap), x) == Places(s, x) + One(x == b)
  {
    QueueCounts(s.pending, b, x);
  }

  lemma StashQueue(s: State, b: Batch, cap: nat)
    requires s.pending == LastOf(s.stashed, cap)
    ensures Stash(s, b, cap).pending == LastOf(Stash(s, b, cap).stashed, cap)
  {
  }

  lemma StepPlaces(s: State, step: Step, t: State, cap: nat, x: Batch)
    requires s.submitted[x] == Places(s, x) && Next(s, step, t, cap)
    ensures t.submitted[x] == Places(t, x)
  {
    match step
    case Submit(b, allowed) =>
      if !allowed {
        StashPlaces(s.(submitted := s.submitted + multiset{b}), b, cap, x);
      }
    case ExportEnds(b, ending) =>
      ExportPlaces(s, b, ending, t, cap, x);
    case BeginFlush =>
    case FlushAttempt(b, _) =>
      TakeOut(s.flushing, b, x);
  }

  lemma TakeOut(m: multiset<Batch>, b: Batch, x: Batch)
    requires b in m
    ensures m[x] == (m - multiset{b})[x] + One(x == b)
  {
  }

  lemma ExportPlaces(s: State, b: Batch, ending: Ending, t: State, cap: nat, x: Batch)
    requires Next(s, ExportEnds(b, ending), t, cap)
    ensures Places(t, x) == Places(s, x) && t.submitted == s.submitted
  {
    TakeOut(s.exporting, b, x);
    if ending == Ended(Transient) {
      StashPlaces(s.(exporting := s.exporting - multiset{b}), b, cap, x);
    }
  }

  lemma StepAccounts(s: State, step: Step, t: State, cap: nat)
    requires Accounted(s, cap) && Next(s, step, t, cap)
    ensures Accounted(t, cap)
  {
    forall x
      ensures t.submitted[x] == Places(t, x)
    {
      StepPlaces(s, step, t, cap, x);
    }
    match step
    case Submit(b, _) => StashQueue(s.(submitted := s.submitted + multiset{b}), b, cap);
    case ExportEnds(b, _) => StashQueue(s.(exporting := s.exporting - multiset{b}), b, cap);
    case BeginFlush =>
    case FlushAttempt(_, _) =>
  }

  ghost predicate IsRun(states: seq<State>, steps: seq<Step>, cap: nat) {
    && |states| == |steps| + 1 && states[0] == START
    && forall i :: 0 <= i < |steps| ==> Next(states[i], steps[i], states[i + 1], cap)
  }

  /** In every run, with exports and flushes overlapping in any way, each submitted batch is in exactly one of
      in progress, pending, delivered, rejected, dropped on overflow, or lost. */
  lemma {:induction false} RunAccounts(states: seq<State>, steps: seq<Step>, cap: nat, n: nat)
    requires IsRun(states, steps, cap) && n < |states|
    ensures Accounted(states[n], cap) && |states[n].pending| <= cap
  {
    if n == 0 {
      StartAccounts(cap);
    } else {
      RunAccounts(states, steps, cap, n - 1);
      StepBetween(states, steps, cap, n);
      StepAccounts(states[n - 1], steps[n - 1], states[n], cap);
      CapHolds(states[n], cap);
    }
  }

  lemma StartAccounts(cap: nat)
    ensures Accounted(START, cap)
  {
  }

  lemma CapHolds(s: State, cap: nat)
    requires Accounted(s, cap)
    ensures |s.pending| <= cap
  {
  }

  datatype Ledger = Submitted | Delivered | RejectedForGood | LostForGood

  function Entry(s: State, ledger: Ledger, b: Batch): nat {
    match ledger
    case Submitted => s.submitted[b]
    case Delivered => s.delivered[b]
    case RejectedForGood => s.rejected[b]
    case LostForGood => s.lost[b]
  }

  /** The step enters the batch into the ledger. */
  predicate Enters(step: Step, ledger: Ledger, b: Batch) {
    match ledger
    case Submitted => step.Submit? && step.batch == b
    case Delivered => step == ExportEnds(b, Ended(Success)) || step == FlushAttempt(b, true)
    case RejectedForGood => step == ExportEnds(b, Ended(Rejected))
    case LostForGood => step == ExportEnds(b, Raised) || step == FlushAttempt(b, false)
  }

  /** How many of the first `n` steps enter the batch into the ledger. */
  function Entries(steps: seq<Step>, n: nat, ledger: Ledger, b: Batch): nat
    requires n <= |steps|
  {
    if n == 0 then 0 else Entries(steps, n - 1, ledger, b) + One(Enters(steps[n - 1], ledger, b))
  }

  /** Stashing touches the queue only. */
  lemma StashKeepsLedger(s: State, b: Batch, cap: nat, ledger: Ledger, x: Batch)
    ensures Entry(Stash(s, b, cap), ledger, x) == Entry(s, ledger, x)
  {
  }

  lemma SubmitLedger(s: State, c: Batch, allowed: bool, t: State, cap: nat, ledger: Ledger, b: Batch)
    requires Next(s, Submit(c, allowed), t, cap)
    ensures Entry(t, ledger, b) == Entry(s, ledger, b) + One(Enters(Submit(c, allowed), ledger, b))
  {
    if !allowed {
      StashKeepsLedger(s.(submitted := s.submitted + multiset{c}), c, cap, ledger, b);
    }
  }

  lemma ExportLedger(s: State, c: Batch, ending: Ending, t: State, cap: nat, ledger: Ledger, b: Batch)
    requires Next(s, ExportEnds(c, ending), t, cap)
    ensures Entry(t, ledger, b) == Entry(s, ledger, b) + One(Enters(ExportEnds(c, ending), ledger, b))
  {
    match ending
    case Raised =>
    case Ended(Success) =>
    case Ended(Rejected) =>
    case Ended(Transient) =>
      StashKeepsLedger(s.(exporting := s.exporting - multiset{c}), c, cap, ledger, b);
  }

  lemma FlushLedger(s: State, c: Batch, ok: bool, t: State, cap: nat, ledger: Ledger, b: Batch)
    requires Next(s, FlushAttempt(c, ok), t, cap)
    ensures Entry(t, ledger, b) == Entry(s, ledger, b) + One(Enters(FlushAttempt(c, ok), ledger, b))
  {
  }

  lemma LedgerStep(s: State, step: Step, t: State, cap: nat, ledger: Ledger, b: Batch)
    requires Next(s, step, t, cap)
    ensures Entry(t, ledger, b) == Entry(s, ledger, b) + One(Enters(step, ledger, b))
  {
    match step
    case Submit(c, allowed) => SubmitLedger(s, c, allowed, t, cap, ledger, b);
    case ExportEnds(c, ending) => ExportLedger(s, c, ending, t, cap, ledger, b);
    case BeginFlush =>
    case FlushAttempt(c, ok) => FlushLedger(s, c, ok, t, cap, ledger, b);
  }

  lemma StepBetween(states: seq<State>, steps: seq<Step>, cap: nat, n: nat)
    requires IsRun(states, steps, cap) && 0 < n < |states|
    ensures Next(states[n - 1], steps[n - 1], states[n], cap)
  {
    assert Next(states[n - 1], steps[n - 1], states[n - 1 + 1], cap);
  }

  lemma LedgerAdvance(states: seq<State>, steps: seq<Step>, cap: nat, i: nat, ledger: Ledger, b: Batch)
    requires IsRun(states, steps, cap) && i + 1 < |states|
    ensures Entry(states[i + 1], ledger, b) == Entry(states[i], ledger, b) + One(Enters(steps[i], ledger, b))
  {
    StepBetween(states, steps, cap, i + 1);
    LedgerStep(states[i], steps[i], states[i + 1], cap, ledger, b);
  }

  /** A figure that starts at 0 and grows with every step that enters the batch is the number of those steps. */
  lemma {:induction false} GrowsByEntries(figure: nat -> nat, steps: seq<Step>, n: nat, ledger: Ledger, b: Batch)
    requires n <= |steps| && figure(0) == 0
    requires forall i :: 0 <= i < n ==> figure(i + 1) == figure(i) + One(Enters(steps[i], ledger, b))
    ensures figure(n) == Entries(steps, n, ledger, b)
  {
    if n > 0 {
      GrowsByEntries(figure, steps, n - 1, ledger, b);
      assert figure(n - 1 + 1) == figure(n - 1) + One(Enters(steps[n - 1], ledger, b));
    }
  }

  function EntryAt(states: seq<State>, ledger: Ledger, b: Batch): nat -> nat {
    (i: nat) => if i < |states| then Entry(states[i], ledger, b) else 0
  }

  /** Over every run, a batch is delivered, rejected and lost as often as an attempt for it succeeded, was refused for
      good, and failed without a way back. */
  lemma LedgerMeans(states: seq<State>, steps: seq<Step>, cap: nat, n: nat, ledger: Ledger, b: Batch)
    requires IsRun(states, steps, cap) && n < |states|
    ensures Entry(states[n], ledger, b) == Entries(steps, n, ledger, b)
  {
    forall i | 0 <= i < n
      ensures EntryAt(states, ledger, b)(i + 1)
           == EntryAt(states, ledger, b)(i) + One(Enters(steps[i], ledger, b))
    {
      LedgerAdvance(states, steps, cap, i, ledger, b);
    }
    LedgerStarts(ledger, b);
    GrowsByEntries(EntryAt(states, ledger, b), steps, n, ledger, b);
  }

  lemma LedgerStarts(ledger: Ledger, b: Batch)
    ensures Entry(START, ledger, b) == 0
  {
  }

  /** The fields of the exporter and the code that updates them. */
  class Exporter {
    var pending: seq<Batch>
    const cap: nat
    ghost var state: State

    ghost predicate Valid()
      reads this
    {
      state.pending == pending && Accounted(state, cap)
    }

    constructor (cap: nat)
      ensures Valid() && state == START && this.cap == cap
    {
      pending, state, this.cap := [], START, cap;
    }

    /** `_stash`. */
    method StashBatch(b: Batch)
      modifies this`pending
      ensures pending == Stash(START.(pending := old(pending)), b, cap).pending
    {
      pending := pending + [b];
      if |pending| > cap {
        pending := pending[1..];
      }
    }

    /** `export` while the breaker refuses. */
    method SubmitRefused(b: Batch)
      requires Valid()
      modifies this
      ensures Valid() && Next(old(state), Submit(b, false), state, cap)
    {
      ghost var before := state;
      StashBatch(b);
      state := Stash(state.(submitted := state.submitted + multiset{b}), b, cap);
      StepAccounts(before, Submit(b, false), state, cap);
    }

    /** The end of an `export` whose retries are exhausted. */
    method ExportExhausted(b: Batch)
      requires Valid() && b in state.exporting
      modifies this
      ensures Valid() && Next(old(state), ExportEnds(b, Ended(Transient)), state, cap)
    {
      ghost var before := state;
      StashBatch(b);
      state := Stash(state.(exporting := state.exporting - multiset{b}), b, cap);
      StepAccounts(before, ExportEnds(b, Ended(Transient)), state, cap);
    }

    /** `flush` up to its first attempt: the queue is swapped for an empty one. */
    method TakePending() returns (batches: seq<Batch>)
      requires Valid()
      modifies this
      ensures Valid() && Next(old(state), BeginFlush, state, cap)
      ensures batches == old(pending) && pending == []
    {
      ghost var before := state;
      batches, pending := pending, [];
      state := state.(pending := [], stashed := [], flushing := state.flushing + multiset(state.pending));
      StepAccounts(before, BeginFlush, state, cap);
    }
  }
}
