/**
 `TSF_STAT_MAX`: a maximum kept by compare-and-set, under every interleaving of its loads and exchanges.
 */
module CasMax {
  datatype Phase = Loading(value: nat) | Comparing(value: nat, seen: nat)

  /** `updates` holds the updates at work; `done` the values of those that are over. */
  datatype State = State(max: nat, updates: map<nat, Phase>, done: seq<nat>)

  datatype Action = Begin(a: nat, value: nat) | Load(a: nat) | CompareSet(a: nat)

  const INITIAL: State := State(0, map[], [])

  predicate Enabled(s: State, act: Action) {
    match act
    case Begin(a, _) => a !in s.updates
    case Load(a) => a in s.updates && s.updates[a].Loading?
    case CompareSet(a) => a in s.updates && s.updates[a].Comparing?
  }

  function Finish(s: State, a: nat, value: nat): State {
    s.(updates := s.updates - {a}, done := s.done + [value])
  }

  predicate Succeeds(s: State, a: nat)
    requires Enabled(s, CompareSet(a))
  {
    s.max == s.updates[a].seen
  }

  /** One atomic step: the load leaves the loop when the maximum is large enough; a failed exchange loads again. */
  function Next(s: State, act: Action): State
    requires Enabled(s, act)
  {
    match act
    case Begin(a, v) => s.(updates := s.updates[a := Loading(v)])
    case Load(a) =>
      var v := s.updates[a].value;
      if v <= s.max then Finish(s, a, v) else s.(updates := s.updates[a := Comparing(v, s.max)])
    case CompareSet(a) =>
      var v := s.updates[a].value;
      if Succeeds(s, a) then Finish(s.(max := v), a, v) else s.(updates := s.updates[a := Loading(v)])
  }

  /** The largest value of a list, 0 for none. */
  function Largest(vs: seq<nat>): (m: nat)
    ensures forall v | v in vs :: v <= m
    ensures m == 0 || m in vs
  {
    if vs == [] then 0
    else
      var m, v := Largest(vs[..|vs| - 1]), vs[|vs| - 1];
      assert vs == vs[..|vs| - 1] + [v];
      if v > m then v else m
  }

  predicate Safe(s: State) {
    && s.max == Largest(s.done)
    && forall a | a in s.updates && s.updates[a].Comparing? ::
      s.updates[a].seen <= s.max && s.updates[a].seen < s.updates[a].value
  }

  lemma LargestSnoc(vs: seq<nat>, v: nat)
    ensures Largest(vs + [v]) == if v > Largest(vs) then v else Largest(vs)
  {
    assert (vs + [v])[..|vs|] == vs;
  }

  lemma StepSafe(s: State, act: Action)
    requires Safe(s) && Enabled(s, act)
    ensures Safe(Next(s, act)) && Next(s, act).max >= s.max
  {
    if !act.Begin? { LargestSnoc(s.done, s.updates[act.a].value); }
  }

  predicate IsRun(states: seq<State>, acts: seq<Action>) {
    && |states| == |acts| + 1 && states[0] == INITIAL
    && forall i | 0 <= i < |acts| :: Enabled(states[i], acts[i]) && states[i + 1] == Next(states[i], acts[i])
  }

  /** In every state of every run the maximum is the largest value of any finished update. */
  lemma {:induction false} RunSafe(states: seq<State>, acts: seq<Action>, k: nat)
    requires IsRun(states, acts) && k <= |acts|
    ensures Safe(states[k])
  {
    if k > 0 {
      RunSafe(states, acts, k - 1);
      StepSafe(states[k - 1], acts[k - 1]);
    }
  }

  /** And it never decreases. */
  lemma {:induction false} NeverDecreases(states: seq<State>, acts: seq<Action>, j: nat, k: nat)
    requires IsRun(states, acts) && j <= k <= |acts|
    ensures states[j].max <= states[k].max
    decreases k
  {
    hide Next, Safe;
    if j < k {
      NeverDecreases(states, acts, j, k - 1);
      RunSafe(states, acts, k - 1);
      StepSafe(states[k - 1], acts[k - 1]);
    }
  }

  /** No update is lost: the value of an update that is over stays below the maximum for ever. */
  lemma NothingLost(states: seq<State>, acts: seq<Action>, j: nat, k: nat, v: nat)
    requires IsRun(states, acts) && j <= k <= |acts| && v in states[j].done
    ensures v <= states[k].max
  {
    RunSafe(states, acts, j);
    NeverDecreases(states, acts, j, k);
  }

  /** An exchange fails only because another update raised the maximum since the load: some update makes progress. */
  lemma FailureMeansProgress(states: seq<State>, acts: seq<Action>, k: nat)
    requires IsRun(states, acts) && k < |acts| && acts[k].CompareSet?
    ensures !Succeeds(states[k], acts[k].a) <==> states[k].max > states[k].updates[acts[k].a].seen
  {
    RunSafe(states, acts, k);
  }
}
