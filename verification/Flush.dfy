/**
 `TSF_STAT_FLUSH`: scans add their batches to the global counters one field at a time, each field atomically, in any
 interleaving.
 */
module Flush {
  import opened Scan

  const FIELDS: nat := 11

  /** The fields in the order in which they are flushed. */
  function AsFields(c: Counters): (fs: seq<nat>)
    ensures |fs| == FIELDS
  {
    [c.emitted, c.visited, c.gencnt, c.cred, c.ipver, c.state, c.port, c.addr, c.copyErrors, c.timedOut, c.interrupted]
  }

  function AsCounters(fs: seq<nat>): Counters
    requires |fs| == FIELDS
  {
    Counters(fs[0], fs[1], fs[2], fs[3], fs[4], fs[5], fs[6], fs[7], fs[8], fs[9], fs[10])
  }

  /** One flush: the fields before `next` have been added. */
  datatype Flushing = Flushing(batch: Counters, next: nat)

  datatype State = State(totals: seq<nat>, flushes: seq<Flushing>)

  datatype Action = Start(batch: Counters) | AddField(i: nat)

  const INITIAL: State := State(AsFields(NO_COUNTS), [])

  predicate Enabled(s: State, act: Action) {
    match act
    case Start(batch) => Balanced(batch)
    case AddField(i) => i < |s.flushes| && s.flushes[i].next < FIELDS
  }

  /** One atomic step; a field that is zero is skipped, which adds zero. */
  function Next(s: State, act: Action): State
    requires Enabled(s, act) && |s.totals| == FIELDS
  {
    match act
    case Start(batch) => s.(flushes := s.flushes + [Flushing(batch, 0)])
    case AddField(i) =>
      var f := s.flushes[i];
      State(s.totals[f.next := s.totals[f.next] + AsFields(f.batch)[f.next]], s.flushes[i := f.(next := f.next + 1)])
  }

  /** What is still to be added to field `k`. */
  function Owed(fs: seq<Flushing>, k: nat): nat
    requires k < FIELDS
  {
    if fs == [] then 0
    else
      var f := fs[|fs| - 1];
      Owed(fs[..|fs| - 1], k) + (if k < f.next then 0 else AsFields(f.batch)[k])
  }

  /** The sum of all batches in field `k`. */
  function Grand(fs: seq<Flushing>, k: nat): nat
    requires k < FIELDS
  {
    if fs == [] then 0 else Grand(fs[..|fs| - 1], k) + AsFields(fs[|fs| - 1].batch)[k]
  }

  predicate AllBalanced(fs: seq<Flushing>) { forall i | 0 <= i < |fs| :: Balanced(fs[i].batch) && fs[i].next <= FIELDS }

  predicate Safe(s: State) {
    && |s.totals| == FIELDS && AllBalanced(s.flushes)
    && forall k | 0 <= k < FIELDS :: s.totals[k] + Owed(s.flushes, k) == Grand(s.flushes, k)
  }

  predicate Quiet(s: State) { forall i | 0 <= i < |s.flushes| :: s.flushes[i].next == FIELDS }

  lemma {:induction false} OwedStep(fs: seq<Flushing>, i: nat, k: nat)
    requires i < |fs| && k < FIELDS && fs[i].next < FIELDS
    ensures var gs := fs[i := fs[i].(next := fs[i].next + 1)];
      && Grand(gs, k) == Grand(fs, k)
      && Owed(gs, k) == Owed(fs, k) - (if k == fs[i].next then AsFields(fs[i].batch)[k] else 0)
    decreases |fs|
  {
    hide AsFields;
    var gs := fs[i := fs[i].(next := fs[i].next + 1)];
    if i < |fs| - 1 {
      OwedStep(fs[..|fs| - 1], i, k);
      assert gs[..|gs| - 1] == fs[..|fs| - 1][i := fs[i].(next := fs[i].next + 1)];
    } else {
      assert gs[..|gs| - 1] == fs[..|fs| - 1];
    }
  }

  lemma StartSafe(s: State, batch: Counters)
    requires Safe(s) && Balanced(batch)
    ensures Safe(Next(s, Start(batch)))
  {
    hide AsFields, Balanced;
    assert Next(s, Start(batch)).flushes[..|s.flushes|] == s.flushes;
  }

  /** What one addition does to field `k`: it is owed that much less, or nothing changes. */
  lemma AddFieldSafe(s: State, i: nat, k: nat)
    requires Safe(s) && Enabled(s, AddField(i)) && k < FIELDS
    ensures var t := Next(s, AddField(i));
      t.totals[k] + Owed(t.flushes, k) == s.totals[k] + Owed(s.flushes, k) && Grand(t.flushes, k) == Grand(s.flushes, k)
  {
    hide AsFields, Balanced;
    OwedStep(s.flushes, i, k);
  }

  lemma StepSafe(s: State, act: Action)
    requires Safe(s) && Enabled(s, act)
    ensures Safe(Next(s, act))
  {
    hide AsFields, Balanced, Owed, Grand;
    match act
    case Start(batch) => StartSafe(s, batch);
    case AddField(i) => forall k: nat | k < FIELDS { AddFieldSafe(s, i, k); }
  }

  predicate IsRun(states: seq<State>, acts: seq<Action>) {
    && |states| == |acts| + 1 && states[0] == INITIAL
    && forall i | 0 <= i < |acts| ::
      |states[i].totals| == FIELDS && Enabled(states[i], acts[i]) && states[i + 1] == Next(states[i], acts[i])
  }

  lemma {:induction false} RunSafe(states: seq<State>, acts: seq<Action>, k: nat)
    requires IsRun(states, acts) && k <= |acts|
    ensures Safe(states[k])
  {
    hide Safe;
    if k == 0 { InitialSafe(); } else {
      RunSafe(states, acts, k - 1);
      StepSafe(states[k - 1], acts[k - 1]);
    }
  }

  lemma InitialSafe()
    ensures Safe(INITIAL)
  {
  }

  lemma {:induction false} NothingOwed(fs: seq<Flushing>, k: nat)
    requires k < FIELDS && forall i | 0 <= i < |fs| :: fs[i].next == FIELDS
    ensures Owed(fs, k) == 0
  {
    if fs != [] { NothingOwed(fs[..|fs| - 1], k); }
  }

  /** All batches together. */
  function Sum(fs: seq<Flushing>): Counters {
    AsCounters(seq(FIELDS, k requires 0 <= k < FIELDS => Grand(fs, k)))
  }

  lemma {:induction false} SumBalanced(fs: seq<Flushing>)
    requires AllBalanced(fs)
    ensures Balanced(Sum(fs))
  {
    if fs != [] { SumBalanced(fs[..|fs| - 1]); }
  }

  /** Whatever the interleaving, once no flush is under way every counter is the sum of the batches, and everything
      visited is accounted for. */
  lemma QuietTotals(states: seq<State>, acts: seq<Action>, k: nat)
    requires IsRun(states, acts) && k <= |acts| && Quiet(states[k])
    ensures |states[k].totals| == FIELDS
    ensures AsCounters(states[k].totals) == Sum(states[k].flushes) && Balanced(AsCounters(states[k].totals))
  {
    RunSafe(states, acts, k);
    var s := states[k];
    forall j | 0 <= j < FIELDS ensures s.totals[j] == Grand(s.flushes, j) { NothingOwed(s.flushes, j); }
    SumBalanced(s.flushes);
  }

  /** The equation that the integration test checks: visited is emitted plus skipped. */
  predicate TestEquation(c: Counters) {
    c.visited == c.emitted + c.gencnt + c.cred + c.ipver + c.state + c.port + c.addr
  }

  /** The scan was not cut short. */
  predicate Whole(c: Counters) { c.copyErrors == c.timedOut == c.interrupted == 0 }

  lemma CutFields(c: Counters)
    ensures Whole(c) <==> AsFields(c)[8] + AsFields(c)[9] + AsFields(c)[10] == 0
  {
  }

  lemma {:induction false} NoneCut(fs: seq<Flushing>)
    ensures Grand(fs, 8) + Grand(fs, 9) + Grand(fs, 10) == 0 <==> forall i | 0 <= i < |fs| :: Whole(fs[i].batch)
  {
    hide AsFields, Whole;
    if fs != [] {
      NoneCut(fs[..|fs| - 1]);
      CutFields(fs[|fs| - 1].batch);
    }
  }

  lemma TestWhole(c: Counters)
    requires Balanced(c)
    ensures TestEquation(c) <==> Whole(c)
  {
  }

  lemma SumWhole(fs: seq<Flushing>)
    ensures Whole(Sum(fs)) <==> Grand(fs, 8) + Grand(fs, 9) + Grand(fs, 10) == 0
  {
  }

  /** It holds of the quiet totals exactly when no scan was ever cut short by a signal, the deadline or a copy error. */
  lemma TestEquationExactly(states: seq<State>, acts: seq<Action>, k: nat)
    requires IsRun(states, acts) && k <= |acts| && Quiet(states[k])
    ensures |states[k].totals| == FIELDS
    ensures TestEquation(AsCounters(states[k].totals)) <==>
      forall i | 0 <= i < |states[k].flushes| :: Whole(states[k].flushes[i].batch)
  {
    hide Quiet, Balanced, TestEquation, Whole, AsCounters, Sum;
    QuietTotals(states, acts, k);
    TestWhole(AsCounters(states[k].totals));
    SumWhole(states[k].flushes);
    NoneCut(states[k].flushes);
  }

  /** While a flush is under way the totals need not balance. */
  lemma UnbalancedInBetween()
    ensures exists states: seq<State>, acts: seq<Action> ::
      && IsRun(states, acts) && |states[|acts|].totals| == FIELDS
      && !Balanced(AsCounters(states[|acts|].totals))
  {
    var acts := [Start(NO_COUNTS.(emitted := 1, visited := 1)), AddField(0)];
    var s1 := Next(INITIAL, acts[0]);
    var s2 := Next(s1, acts[1]);
    var states := [INITIAL, s1, s2];
    assert IsRun(states, acts);
    assert states[|acts|] == s2 && s2.totals[0] == 1 && s2.totals[1] == 0;
  }
}
