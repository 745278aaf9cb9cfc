/** `ComplianceCatalog` and `CompositeCatalogWriter` of agent_obs/compliance/catalog.py. A flush gives up control
    at its `await`, so records and other flushes can come in between: the protocol is a state machine whose
    steps are the stretches of code between two awaits. */
module ComplianceCatalog {

  datatype Key = Key(agentId: string, tool: string, field: string, piiType: string)

  datatype Row = Row(key: Key, frequency: nat)

  type Counts = map<Key, nat>

  function Count(m: Counts, k: Key): nat {
    if k in m then m[k] else 0
  }

  /** `m[k] = m.get(k, 0) + n`. */
  function Bump(m: Counts, k: Key, n: nat): Counts {
    m[k := Count(m, k) + n]
  }

  /** Adds every row of a batch to the counts, in order. */
  function AddRows(m: Counts, rows: seq<Row>): Counts {
    if rows == [] then m else Bump(AddRows(m, rows[..|rows| - 1]), rows[|rows| - 1].key, rows[|rows| - 1].frequency)
  }

  /** What a batch holds of a key. */
  function RowsCount(rows: seq<Row>, k: Key): nat {
    if rows == [] then 0
    else RowsCount(rows[..|rows| - 1], k) + if rows[|rows| - 1].key == k then rows[|rows| - 1].frequency else 0
  }

  lemma {:induction false} AddRowsCounts(m: Counts, rows: seq<Row>, k: Key)
    ensures Count(AddRows(m, rows), k) == Count(m, k) + RowsCount(rows, k)
  {
    if rows != [] {
      AddRowsCounts(m, rows[..|rows| - 1], k);
    }
  }

  /** The rows say exactly what the buffer says. */
  ghost predicate RowsOf(rows: seq<Row>, m: Counts) {
    forall k :: RowsCount(rows, k) == Count(m, k)
  }

  lemma RowsAppend(rows: seq<Row>, r: Row, k: Key)
    ensures RowsCount(rows + [r], k) == RowsCount(rows, k) + if r.key == k then r.frequency else 0
  {
    assert (rows + [r])[..|rows|] == rows;
  }

  // ---------------------------------------------------------------- one writer

  /** `inFlight` holds the batches that are waiting at the `await`; the last three fields are the ledger. */
  datatype State = State(
    buffer: Counts,
    inFlight: seq<seq<Row>>,
    recorded: Counts,
    persisted: Counts,
    lost: Counts)

  datatype Step =
    | Record(key: Key)
    | BeginFlush(rows: seq<Row>)
    | Written(i: nat)
    | Failed(i: nat)
    | Cancelled(i: nat)

  function Drop<T>(xs: seq<T>, i: nat): seq<T>
    requires i < |xs|
  {
    xs[..i] + xs[i + 1..]
  }

  function InFlightCount(batches: seq<seq<Row>>, k: Key): nat {
    if batches == [] then 0 else RowsCount(batches[0], k) + InFlightCount(batches[1..], k)
  }

  lemma {:induction false} InFlightConcat(xs: seq<seq<Row>>, ys: seq<seq<Row>>, k: Key)
    ensures InFlightCount(xs + ys, k) == InFlightCount(xs, k) + InFlightCount(ys, k)
  {
    if xs == [] {
      assert xs + ys == ys;
    } else {
      assert (xs + ys)[1..] == xs[1..] + ys;
      InFlightConcat(xs[1..], ys, k);
    }
  }

  lemma InFlightDrop(batches: seq<seq<Row>>, i: nat, k: Key)
    requires i < |batches|
    ensures InFlightCount(batches, k) == InFlightCount(Drop(batches, i), k) + RowsCount(batches[i], k)
  {
    assert batches == batches[..i] + [batches[i]] + batches[i + 1..];
    InFlightConcat(batches[..i] + [batches[i]], batches[i + 1..], k);
    InFlightConcat(batches[..i], [batches[i]], k);
    InFlightConcat(batches[..i], batches[i + 1..], k);
    assert [batches[i]][1..] == [];
  }

  /** The stretch of code up to the `await`, and the three ways in which the `await` can end: the writer
      succeeds, the writer raises and the rows go back into the buffer, or the task is cancelled. */
  ghost predicate Next(s: State, step: Step, t: State) {
    match step
    case Record(k) => t == s.(buffer := Bump(s.buffer, k, 1), recorded := Bump(s.recorded, k, 1))
    case BeginFlush(rows) =>
      if s.buffer == map[] then t == s
      else RowsOf(rows, s.buffer) && t == s.(buffer := map[], inFlight := s.inFlight + [rows])
    case Written(i) =>
      i < |s.inFlight| &&
      t == s.(inFlight := Drop(s.inFlight, i), persisted := AddRows(s.persisted, s.inFlight[i]))
    case Failed(i) =>
      i < |s.inFlight| &&
      t == s.(inFlight := Drop(s.inFlight, i), buffer := AddRows(s.buffer, s.inFlight[i]))
    case Cancelled(i) =>
      i < |s.inFlight| &&
      t == s.(inFlight := Drop(s.inFlight, i), lost := AddRows(s.lost, s.inFlight[i]))
  }

  /** Every event is in exactly one place. */
  ghost predicate Conserved(s: State) {
    forall k :: Count(s.recorded, k) ==
                Count(s.buffer, k) + InFlightCount(s.inFlight, k) + Count(s.persisted, k) + Count(s.lost, k)
  }

  const START: State := State(map[], [], map[], map[], map[])

  lemma StepConserves(s: State, step: Step, t: State)
    requires Conserved(s) && Next(s, step, t)
    ensures Conserved(t)
  {
    forall k
      ensures Count(t.recorded, k) ==
              Count(t.buffer, k) + InFlightCount(t.inFlight, k) + Count(t.persisted, k) + Count(t.lost, k)
    {
      StepConservesKey(s, step, t, k);
    }
  }

  lemma StepConservesKey(s: State, step: Step, t: State, k: Key)
    requires Next(s, step, t)
    requires Count(s.recorded, k) ==
             Count(s.buffer, k) + InFlightCount(s.inFlight, k) + Count(s.persisted, k) + Count(s.lost, k)
    ensures Count(t.recorded, k) ==
            Count(t.buffer, k) + InFlightCount(t.inFlight, k) + Count(t.persisted, k) + Count(t.lost, k)
  {
    match step
    case Record(_) =>
    case BeginFlush(rows) =>
      InFlightConcat(s.inFlight, [rows], k);
      assert [rows][1..] == [];
    case Written(i) =>
      InFlightDrop(s.inFlight, i, k);
      AddRowsCounts(s.persisted, s.inFlight[i], k);
    case Failed(i) =>
      InFlightDrop(s.inFlight, i, k);
      AddRowsCounts(s.buffer, s.inFlight[i], k);
    case Cancelled(i) =>
      InFlightDrop(s.inFlight, i, k);
      AddRowsCounts(s.lost, s.inFlight[i], k);
  }

  /** A run from the start. */
  ghost predicate IsRun(states: seq<State>, steps: seq<Step>) {
    && |states| == |steps| + 1 && states[0] == START
    && forall i :: 0 <= i < |steps| ==> Next(states[i], steps[i], states[i + 1])
  }

  /** In every interleaving of records and overlapping flushes, for each key: recorded equals buffered, in
      flight, persisted and lost to cancellation together. */
  lemma {:induction false} RunConserves(states: seq<State>, steps: seq<Step>, n: nat)
    requires IsRun(states, steps) && n < |states|
    ensures Conserved(states[n])
  {
    if n > 0 {
      RunConserves(states, steps, n - 1);
      StepConserves(states[n - 1], steps[n - 1], states[n]);
    }
  }

  /** How many of the first `n` steps record the key. */
  function RecordsOf(steps: seq<Step>, n: nat, k: Key): nat
    requires n <= |steps|
  {
    if n == 0 then 0 else RecordsOf(steps, n - 1, k) + if steps[n - 1] == Record(k) then 1 else 0
  }

  /** Every call of `record` counts once, for its own key. */
  lemma {:induction false} RecordedIsCalls(states: seq<State>, steps: seq<Step>, n: nat, k: Key)
    requires IsRun(states, steps) && n < |states|
    ensures Count(states[n].recorded, k) == RecordsOf(steps, n, k)
  {
    if n > 0 {
      RecordedIsCalls(states, steps, n - 1, k);
      assert Next(states[n - 1], steps[n - 1], states[n]);
    }
  }

  // ---------------------------------------------------------------- the code of the catalog

  class Catalog {
    var buffer: Counts
    ghost var state: State

    ghost predicate Valid()
      reads this
    {
      state.buffer == buffer && Conserved(state)
    }

    constructor ()
      ensures Valid() && state == START
    {
      buffer, state := map[], START;
    }

    /** `record`. */
    method Record(key: Key)
      requires Valid()
      modifies this
      ensures Valid() && Next(old(state), Step.Record(key), state)
    {
      ghost var before := state;
      buffer := buffer[key := (if key in buffer then buffer[key] else 0) + 1];
      state := state.(buffer := buffer, recorded := Bump(state.recorded, key, 1));
      StepConserves(before, Step.Record(key), state);
    }

    /** `flush` up to the `await`: the rows are handed to the writer and the buffer is cleared. */
    method BeginFlush() returns (rows: seq<Row>)
      requires Valid()
      modifies this
      ensures Valid() && Next(old(state), Step.BeginFlush(rows), state)
      ensures rows == [] <==> old(buffer) == map[]
      ensures old(buffer) != map[] ==> state.inFlight == old(state.inFlight) + [rows]
    {
      rows := [];
      if buffer == map[] {
        return;
      }
      ghost var before := state;
      rows := Snapshot(buffer);
      buffer := map[];
      state := state.(buffer := map[], inFlight := state.inFlight + [rows]);
      StepConserves(before, Step.BeginFlush(rows), state);
    }

    /** The list comprehension of lines 339-348. */
    static method Snapshot(m: Counts) returns (rows: seq<Row>)
      ensures RowsOf(rows, m)
      ensures rows == [] <==> m == map[]
    {
      rows := [];
      var left := m.Keys;
      while left != {}
        invariant left <= m.Keys
        invariant forall k :: RowsCount(rows, k) == if k in m && k !in left then m[k] else 0
        invariant |rows| + |left| == |m.Keys|
        decreases |left|
      {
        var k :| k in left;
        forall x
          ensures RowsCount(rows + [Row(k, m[k])], x) == RowsCount(rows, x) + if x == k then m[k] else 0
        {
          RowsAppend(rows, Row(k, m[k]), x);
        }
        rows := rows + [Row(k, m[k])];
        left := left - {k};
      }
    }

    /** `flush` after the writer raised: every row is added back. */
    method RestoreFailed(i: nat, rows: seq<Row>)
      requires Valid() && i < |state.inFlight| && state.inFlight[i] == rows
      modifies this
      ensures Valid() && Next(old(state), Failed(i), state)
    {
      ghost var before := state;
      for j := 0 to |rows|
        invariant buffer == AddRows(before.buffer, rows[..j])
        invariant state == before
      {
        assert rows[..j + 1][..j] == rows[..j];
        buffer := buffer[rows[j].key := (if rows[j].key in buffer then buffer[rows[j].key] else 0) + rows[j].frequency];
      }
      assert rows[..|rows|] == rows;
      state := state.(inFlight := Drop(state.inFlight, i), buffer := buffer);
      StepConserves(before, Failed(i), state);
    }
  }

  /** The keys in the order in which they first occur. */
  function FirstKeys(rows: seq<Row>): (ks: seq<Key>)
    ensures forall k :: k in ks <==> exists r :: r in rows && r.key == k
  {
    if rows == [] then []
    else
      var before, last := rows[..|rows| - 1], rows[|rows| - 1];
      assert rows == before + [last];
      var ks := FirstKeys(before);
      if last.key in ks then ks else ks + [last.key]
  }

  /** `merged` holds one row for each key of `rows`, in the order in which the keys first occur, and each is a row
      of highest frequency with its key. */
  ghost predicate IsMerged(merged: seq<Row>, rows: seq<Row>) {
    && |merged| == |FirstKeys(rows)|
    && forall i :: 0 <= i < |merged| ==>
         && merged[i] in rows && merged[i].key == FirstKeys(rows)[i]
         && forall r :: r in rows && r.key == merged[i].key ==> r.frequency <= merged[i].frequency
  }

  /** `merged` holds, under each key of `rows`, a row of highest frequency with that key. */
  ghost predicate IsBest(merged: map<Key, Row>, rows: seq<Row>) {
    && (forall k :: k in merged ==> merged[k].key == k && merged[k] in rows)
    && forall r :: r in rows ==> r.key in merged && merged[r.key].frequency >= r.frequency
  }

  /** The dictionary and the order of its keys after the rows read so far. */
  ghost predicate Merging(merged: map<Key, Row>, order: seq<Key>, rows: seq<Row>) {
    IsBest(merged, rows) && order == FirstKeys(rows) && forall k :: k in merged <==> k in order
  }

  lemma MergeStep(merged: map<Key, Row>, order: seq<Key>, rows: seq<Row>, row: Row)
    requires Merging(merged, order, rows)
    ensures row.key !in merged ==> Merging(merged[row.key := row], order + [row.key], rows + [row])
    ensures row.key in merged && row.frequency > merged[row.key].frequency ==>
              Merging(merged[row.key := row], order, rows + [row])
    ensures row.key in merged && row.frequency <= merged[row.key].frequency ==> Merging(merged, order, rows + [row])
  {
    assert (rows + [row])[..|rows|] == rows;
  }

  lemma MergedList(merged: map<Key, Row>, order: seq<Key>, rows: seq<Row>, out: seq<Row>)
    requires Merging(merged, order, rows) && |out| == |order|
    requires forall i :: 0 <= i < |order| ==> order[i] in merged && out[i] == merged[order[i]]
    ensures IsMerged(out, rows)
  {
  }

  /** `_merge_and_deduplicate_compliance_rows`; `order` lists the keys of the dictionary as they were inserted. */
  method MergeRows(rows: seq<Row>) returns (out: seq<Row>)
    ensures IsMerged(out, rows)
  {
    var merged: map<Key, Row>, order: seq<Key> := map[], [];
    for n := 0 to |rows|
      invariant Merging(merged, order, rows[..n])
    {
      var row := rows[n];
      assert rows[..n + 1] == rows[..n] + [row];
      MergeStep(merged, order, rows[..n], row);
      if row.key !in merged {
        order := order + [row.key];
        merged := merged[row.key := row];
      } else if row.frequency > merged[row.key].frequency {
        merged := merged[row.key := row];
      }
    }
    assert rows[..|rows|] == rows;
    out := seq(|order|, i requires 0 <= i < |order| => assert order[i] in order; merged[order[i]]);
    MergedList(merged, order, rows, out);
  }

  /** The rows merged do not depend on the order in which the tiers are read, only the order in which they are
      listed does. */
  lemma MergeUnique(a: seq<Row>, b: seq<Row>, xs: seq<Row>, ys: seq<Row>)
    requires IsMerged(a, xs) && IsMerged(b, ys) && multiset(xs) == multiset(ys)
    ensures forall r :: r in a <==> r in b
  {
    forall r
      ensures r in xs <==> r in ys
    {
      assert r in multiset(xs) <==> r in multiset(ys);
    }
    MergedInOther(a, b, xs, ys);
    MergedInOther(b, a, ys, xs);
  }

  lemma MergedInOther(a: seq<Row>, b: seq<Row>, xs: seq<Row>, ys: seq<Row>)
    requires IsMerged(a, xs) && IsMerged(b, ys) && forall r :: r in xs <==> r in ys
    ensures forall r :: r in a ==> r in b
  {
    forall r | r in a
      ensures r in b
    {
      var i :| 0 <= i < |a| && a[i] == r;
      assert r in ys && r.key in FirstKeys(ys);
      var j :| 0 <= j < |b| && FirstKeys(ys)[j] == r.key;
      assert b[j] in ys && b[j] in xs && b[j].key == r.key;
      assert b[j].frequency == r.frequency;
      assert b[j] == r;
    }
  }

  // ---------------------------------------------------------------- several tiers

  /** A batch on its way through the tiers: `next` is the tier to be written next. */
  datatype Flight = Flight(rows: seq<Row>, next: nat)

  datatype TieredState = TieredState(buffer: Counts, flights: seq<Flight>, recorded: Counts, tiers: seq<Counts>)

  datatype TieredStep =
    | TieredRecord(key: Key)
    | TieredBegin(rows: seq<Row>)
    | TierEnds(i: nat, ok: bool)
    | Leave(i: nat)

  /** `CompositeCatalogWriter.upsert` writes the tiers one after the other and swallows their failures, so a
      batch never goes back; it leaves when it is done or cancelled. */
  ghost predicate TieredNext(s: TieredState, step: TieredStep, t: TieredState) {
    match step
    case TieredRecord(k) => t == s.(buffer := Bump(s.buffer, k, 1), recorded := Bump(s.recorded, k, 1))
    case TieredBegin(rows) =>
      RowsOf(rows, s.buffer) && t == s.(buffer := map[], flights := s.flights + [Flight(rows, 0)])
    case TierEnds(i, ok) =>
      && i < |s.flights| && s.flights[i].next < |s.tiers|
      && var f := s.flights[i];
         t == s.(
           flights := s.flights[i := f.(next := f.next + 1)],
           tiers := if ok then s.tiers[f.next := AddRows(s.tiers[f.next], f.rows)] else s.tiers)
    case Leave(i) => i < |s.flights| && t == s.(flights := Drop(s.flights, i))
  }

  /** What is still on its way to tier `j`. */
  function Ahead(flights: seq<Flight>, j: nat, k: Key): nat {
    if flights == [] then 0
    else (if flights[0].next <= j then RowsCount(flights[0].rows, k) else 0) + Ahead(flights[1..], j, k)
  }

  ghost predicate NoSurplus(s: TieredState) {
    forall j, k :: 0 <= j < |s.tiers| ==>
      Count(s.tiers[j], k) + Ahead(s.flights, j, k) + Count(s.buffer, k) <= Count(s.recorded, k)
  }

  lemma {:induction false} AheadConcat(xs: seq<Flight>, ys: seq<Flight>, j: nat, k: Key)
    ensures Ahead(xs + ys, j, k) == Ahead(xs, j, k) + Ahead(ys, j, k)
  {
    if xs == [] {
      assert xs + ys == ys;
    } else {
      assert (xs + ys)[1..] == xs[1..] + ys;
      AheadConcat(xs[1..], ys, j, k);
    }
  }

  function Weight(f: Flight, j: nat, k: Key): nat {
    if f.next <= j then RowsCount(f.rows, k) else 0
  }

  lemma AheadAround(flights: seq<Flight>, i: nat, f: Flight, j: nat, k: Key)
    requires i < |flights|
    ensures Ahead(flights, j, k) == Ahead(Drop(flights, i), j, k) + Weight(flights[i], j, k)
    ensures Ahead(flights[i := f], j, k) == Ahead(Drop(flights, i), j, k) + Weight(f, j, k)
  {
    var a, b := flights[..i], flights[i + 1..];
    assert flights == a + ([flights[i]] + b) && flights[i := f] == a + ([f] + b);
    AheadConcat(a, [flights[i]] + b, j, k);
    AheadConcat(a, [f] + b, j, k);
    AheadConcat(a, b, j, k);
    assert ([flights[i]] + b)[1..] == b && ([f] + b)[1..] == b;
  }

  lemma TieredStepKeeps(s: TieredState, step: TieredStep, t: TieredState)
    requires NoSurplus(s) && TieredNext(s, step, t)
    ensures NoSurplus(t)
  {
    forall j, k | 0 <= j < |t.tiers|
      ensures Count(t.tiers[j], k) + Ahead(t.flights, j, k) + Count(t.buffer, k) <= Count(t.recorded, k)
    {
      assert Count(s.tiers[j], k) + Ahead(s.flights, j, k) + Count(s.buffer, k) <= Count(s.recorded, k);
      match step
      case TieredRecord(_) =>
      case TieredBegin(rows) =>
        AheadConcat(s.flights, [Flight(rows, 0)], j, k);
        assert [Flight(rows, 0)][1..] == [];
      case TierEnds(i, ok) =>
        var f := s.flights[i];
        AheadAround(s.flights, i, f.(next := f.next + 1), j, k);
        AddRowsCounts(s.tiers[f.next], f.rows, k);
      case Leave(i) =>
        AheadAround(s.flights, i, s.flights[i], j, k);
    }
  }

  ghost predicate IsTieredRun(states: seq<TieredState>, steps: seq<TieredStep>) {
    && |states| == |steps| + 1
    && states[0].buffer == map[] && states[0].flights == [] && states[0].recorded == map[]
    && (forall j :: 0 <= j < |states[0].tiers| ==> states[0].tiers[j] == map[])
    && forall i :: 0 <= i < |steps| ==> TieredNext(states[i], steps[i], states[i + 1])
  }

  /** Behind the composite writer, in every interleaving and whatever tiers fail, no tier ever holds more of
      a key than was recorded. */
  lemma {:induction false} TiersNeverExceed(states: seq<TieredState>, steps: seq<TieredStep>, n: nat)
    requires IsTieredRun(states, steps) && n < |states|
    ensures NoSurplus(states[n])
    ensures forall j, k :: 0 <= j < |states[n].tiers| ==> Count(states[n].tiers[j], k) <= Count(states[n].recorded, k)
  {
    if n > 0 {
      TiersNeverExceed(states, steps, n - 1);
      TieredStepKeeps(states[n - 1], steps[n - 1], states[n]);
    }
  }

  /** What the first `n` steps wrote successfully to tier `j`. */
  ghost function WrittenTo(states: seq<TieredState>, steps: seq<TieredStep>, n: nat, j: nat, k: Key): nat
    requires n <= |steps| && |states| == |steps| + 1
  {
    if n == 0 then 0
    else
      WrittenTo(states, steps, n - 1, j, k)
      + match steps[n - 1]
        case TierEnds(i, ok) =>
          if ok && i < |states[n - 1].flights| && states[n - 1].flights[i].next == j
          then RowsCount(states[n - 1].flights[i].rows, k) else 0
        case _ => 0
  }

  /** Every tier holds exactly what was written to it successfully. */
  lemma {:induction false} TierHolds(states: seq<TieredState>, steps: seq<TieredStep>, n: nat, j: nat, k: Key)
    requires IsTieredRun(states, steps) && n < |states| && j < |states[0].tiers|
    ensures |states[n].tiers| == |states[0].tiers|
    ensures Count(states[n].tiers[j], k) == WrittenTo(states, steps, n, j, k)
  {
    if n > 0 {
      TierHolds(states, steps, n - 1, j, k);
      assert TieredNext(states[n - 1], steps[n - 1], states[n]);
      match steps[n - 1]
      case TierEnds(i, ok) =>
        var f := states[n - 1].flights[i];
        AddRowsCounts(states[n - 1].tiers[f.next], f.rows, k);
      case _ =>
    }
  }
}
