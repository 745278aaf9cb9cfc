/** `_update_error_rate` of agent_obs/observability.py: a sliding window per agent whose error count is
    kept incrementally. */
module ErrorRate {
  import opened Sequences

  datatype Entry = Entry(time: int, isError: bool)

  /** Five minutes, in microseconds. */
  const WINDOW: int := 300_000_000

  /** The full recount. */
  function Errors(es: seq<Entry>): (n: nat)
    ensures n <= |es|
  {
    if es == [] then 0 else (if es[0].isError then 1 else 0) + Errors(es[1..])
  }

  /** Drops the leading entries that are older than `cutoff`. */
  function Evict(es: seq<Entry>, cutoff: int): (rest: seq<Entry>)
    ensures |rest| <= |es|
    ensures rest != [] ==> rest[0].time >= cutoff
  {
    if es != [] && es[0].time < cutoff then Evict(es[1..], cutoff) else es
  }

  ghost predicate NonDecreasing(es: seq<Entry>) {
    forall i, j :: 0 <= i < j < |es| ==> es[i].time <= es[j].time
  }

  function Get<V>(m: map<string, V>, k: string, default: V): V {
    if k in m then m[k] else default
  }

  lemma {:induction false} ErrorsAppend(es: seq<Entry>, e: Entry)
    ensures Errors(es + [e]) == Errors(es) + if e.isError then 1 else 0
  {
    if es == [] {
      assert es + [e] == [e] && [e][1..] == [];
    } else {
      assert (es + [e])[1..] == es[1..] + [e];
      ErrorsAppend(es[1..], e);
    }
  }

  predicate IsBad(e: Entry) { e.isError }

  /** The recount is the number of entries that are errors. */
  lemma {:induction false} ErrorsMean(es: seq<Entry>)
    ensures Errors(es) == |Filter(es, IsBad)|
  {
    if es != [] {
      ErrorsMean(es[1..]);
    }
  }

  /** An entry at or after the cutoff stops the eviction. */
  lemma {:induction false} EvictKeepsLast(es: seq<Entry>, e: Entry, cutoff: int)
    requires e.time >= cutoff
    ensures var rest := Evict(es + [e], cutoff); rest != [] && rest[|rest| - 1] == e
  {
    if es != [] {
      assert (es + [e])[1..] == es[1..] + [e];
      EvictKeepsLast(es[1..], e, cutoff);
    }
  }

  /** Evicting early, with a smaller cutoff, makes no difference to a later eviction. */
  lemma {:induction false} EvictTwice(es: seq<Entry>, e: Entry, early: int, late: int)
    requires early <= late <= e.time
    ensures Evict(Evict(es, early) + [e], late) == Evict(es + [e], late)
  {
    if es != [] && es[0].time < early {
      assert (es + [e])[1..] == es[1..] + [e];
      EvictTwice(es[1..], e, early, late);
    }
  }

  /** On calls in time order, eviction keeps exactly the calls at or after the cutoff. */
  lemma {:induction false} EvictIsFilter(es: seq<Entry>, cutoff: int)
    requires NonDecreasing(es)
    ensures Evict(es, cutoff) == Filter(es, (e: Entry) => e.time >= cutoff)
  {
    if es == [] {
    } else if es[0].time < cutoff {
      EvictIsFilter(es[1..], cutoff);
    } else {
      FilterAll(es, (e: Entry) => e.time >= cutoff);
    }
  }

  /** The count `n` is exact whenever the `t` tracked entries are the whole window, and outside entries
      can only make the window longer. */
  ghost predicate Counted(w: seq<Entry>, t: int, n: int) {
    0 <= t <= |w| && (t == |w| ==> n == Errors(w))
  }

  /** With a clock that never goes back, the window is the history of calls cut at five minutes before
      the last one. */
  ghost predicate Follows(w: seq<Entry>, history: seq<Entry>) {
    NonDecreasing(history) ==>
      w == if history == [] then [] else Evict(history, history[|history| - 1].time - WINDOW)
  }

  lemma FollowsStep(w: seq<Entry>, history: seq<Entry>, e: Entry)
    requires Follows(w, history)
    ensures Follows(Evict(w + [e], e.time - WINDOW), history + [e])
  {
    var longer := history + [e];
    assert longer[|history|] == e;
    if NonDecreasing(longer) && history != [] {
      assert forall i :: 0 <= i < |history| ==> history[i] == longer[i];
      assert NonDecreasing(history);
      EvictTwice(history, e, history[|history| - 1].time - WINDOW, e.time - WINDOW);
    }
  }

  /** The tracker's figures, every call so far, and the agents whose window was written from outside. */
  datatype State = State(
    windows: map<string, seq<Entry>>,
    errors: map<string, int>,
    tracked: map<string, int>,
    calls: map<string, seq<Entry>>,
    injected: set<string>)

  ghost predicate SoundFor(s: State, agent: string) {
    && Counted(Get(s.windows, agent, []), Get(s.tracked, agent, 0), Get(s.errors, agent, 0))
    && (agent !in s.injected ==> Follows(Get(s.windows, agent, []), Get(s.calls, agent, [])))
  }

  ghost predicate Sound(s: State) {
    forall agent :: SoundFor(s, agent)
  }

  /** The state after a call. */
  function Called(s: State, agent: string, e: Entry): State {
    var window := Evict(Get(s.windows, agent, []) + [e], e.time - WINDOW);
    State(s.windows[agent := window], s.errors[agent := Errors(window)], s.tracked[agent := |window|],
      s.calls[agent := Get(s.calls, agent, []) + [e]], s.injected)
  }

  lemma CallKeepsSound(s: State, agent: string, e: Entry)
    requires Sound(s)
    ensures Sound(Called(s, agent, e))
  {
    forall a
      ensures SoundFor(Called(s, agent, e), a)
    {
      assert SoundFor(s, a);
      if a == agent {
        CalledAgentSound(s, agent, e);
      }
    }
  }

  lemma CalledAgentSound(s: State, agent: string, e: Entry)
    requires SoundFor(s, agent)
    ensures SoundFor(Called(s, agent, e), agent)
  {
    if agent !in s.injected {
      FollowsStep(Get(s.windows, agent, []), Get(s.calls, agent, []), e);
    }
  }

  class ErrorRateTracker {
    var windows: map<string, seq<Entry>>
    var errors: map<string, int>
    var tracked: map<string, int>
    /** The value last set on each agent's gauge. */
    var rates: map<string, real>

    /** Every call so far, and the agents whose window was written from outside. */
    ghost var calls: map<string, seq<Entry>>
    ghost var injected: set<string>

    function Window(agent: string): seq<Entry>
      reads this
    {
      Get(windows, agent, [])
    }

    ghost function Abs(): State
      reads this
    {
      State(windows, errors, tracked, calls, injected)
    }

    ghost predicate Valid()
      reads this
    {
      Sound(Abs())
    }

    constructor ()
      ensures Valid() && windows == map[] && calls == map[] && injected == {}
    {
      windows, errors, tracked, rates := map[], map[], map[], map[];
      calls, injected := map[], {};
    }

    /** Entries put into a window from outside, anywhere. */
    method Inject(agent: string, position: nat, entries: seq<Entry>)
      requires Valid() && entries != [] && position <= |Window(agent)|
      modifies this`windows, this`injected
      ensures Valid()
      ensures windows == old(windows)[agent :=
                old(Window(agent))[..position] + entries + old(Window(agent))[position..]]
      ensures injected == old(injected) + {agent}
    {
      var w := Get(windows, agent, []);
      windows := windows[agent := w[..position] + entries + w[position..]];
      injected := injected + {agent};
      forall a
        ensures SoundFor(Abs(), a)
      {
        assert SoundFor(old(Abs()), a);
      }
    }

    /** `_update_error_rate` at clock reading `now`. The count after every call is the full recount. */
    method Update(agent: string, isError: bool, now: int)
      requires Valid()
      modifies this
      ensures Valid() && Abs() == Called(old(Abs()), agent, Entry(now, isError))
      ensures windows[agent] != [] && errors[agent] == Errors(windows[agent])
      ensures rates == old(rates)[agent := Errors(windows[agent]) as real / |windows[agent]| as real]
    {
      var e := Entry(now, isError);
      var window, n := Measure(agent, e);
      CallKeepsSound(Abs(), agent, e);
      Store(agent, e, window, n);
    }

    /** Lines 1642-1651. */
    method Store(agent: string, ghost e: Entry, window: seq<Entry>, n: int)
      requires window != []
      modifies this
      ensures windows == old(windows)[agent := window] && errors == old(errors)[agent := n]
      ensures tracked == old(tracked)[agent := |window|]
      ensures rates == old(rates)[agent := n as real / |window| as real]
      ensures calls == old(calls)[agent := Get(old(calls), agent, []) + [e]] && injected == old(injected)
    {
      windows := windows[agent := window];
      errors := errors[agent := n];
      tracked := tracked[agent := |window|];
      rates := rates[agent := n as real / |window| as real];
      calls := calls[agent := Get(calls, agent, []) + [e]];
    }

    /** Lines 1616-1640: the new window and its error count. The branch for an empty window is never
        taken, because the new entry is always kept, and the final clamp never changes the count. */
    method Measure(agent: string, e: Entry) returns (window: seq<Entry>, n: int)
      requires Valid()
      ensures window == Evict(Window(agent) + [e], e.time - WINDOW) && window != []
      ensures n == Errors(window)
    {
      var t;
      window, t, n := Slide(agent, e);
      if t != |window| {
        n := Recount(window);
      }
      var clamped := if n > |window| then |window| else if n < 0 then 0 else n;
      assert clamped == n;
      n := clamped;
    }

    /** Lines 1616-1627: append, then evict while adjusting both counters. */
    method Slide(agent: string, e: Entry) returns (window: seq<Entry>, t: int, n: int)
      requires Valid()
      ensures window == Evict(Window(agent) + [e], e.time - WINDOW) && window != []
      ensures t <= |window| && (t == |window| ==> n == Errors(window))
    {
      assert SoundFor(Abs(), agent);
      var before := Get(windows, agent, []);
      ghost var all := before + [e];
      ErrorsAppend(before, e);
      EvictKeepsLast(before, e, e.time - WINDOW);
      window := before + [e];
      t := Get(tracked, agent, 0) + 1;
      n := Get(errors, agent, 0) + if e.isError then 1 else 0;
      var cutoff := e.time - WINDOW;
      while window != [] && window[0].time < cutoff
        invariant Evict(window, cutoff) == Evict(all, cutoff)
        invariant t <= |window| && (t == |window| ==> n == Errors(window))
        decreases |window|
      {
        t := t - 1;
        if window[0].isError {
          n := n - 1;
        }
        window := window[1..];
      }
    }

    /** Line 1638. */
    method Recount(window: seq<Entry>) returns (n: nat)
      ensures n == Errors(window)
    {
      n := 0;
      for i := 0 to |window|
        invariant n == Errors(window[..i])
      {
        assert window[..i + 1] == window[..i] + [window[i]];
        ErrorsAppend(window[..i], window[i]);
        if window[i].isError {
          n := n + 1;
        }
      }
      assert window[..|window|] == window;
    }

    /** The window of an untouched agent with a steady clock holds exactly the calls of the last five
        minutes before its last call. */
    lemma WindowIsRecentCalls(agent: string)
      requires Valid() && agent !in injected && agent in calls && calls[agent] != []
      requires NonDecreasing(calls[agent])
      ensures var h := calls[agent];
              Window(agent) == Filter(h, (e: Entry) => e.time >= h[|h| - 1].time - 300 * 1_000_000)
    {
      assert SoundFor(Abs(), agent);
      EvictIsFilter(calls[agent], calls[agent][|calls[agent]| - 1].time - WINDOW);
    }
  }
}
