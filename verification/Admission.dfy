/**
 Admission by fetch-and-add with a later undo, as `open` uses it for file descriptors and `read` for reader slots,
 under every interleaving of the threads and while the administrator changes the limit.

 An attempt first increments the counter and gets its old value, then compares that value with the limit, and a
 refused attempt decrements the counter again.  A holder decrements it when it leaves: the destructor of a
 descriptor, a failed `open`, and every way out of `read`.
 */
module Admission {
  datatype Phase = Deciding(before: nat) | Refused | Holding

  /** Attempts that are not in `phases` have not started or are over.  `peak` is the largest limit there has been. */
  datatype State = State(counter: int, phases: map<nat, Phase>, limit: nat, peak: nat)

  datatype Action = FetchAdd(a: nat) | Decide(a: nat) | Undo(a: nat) | Leave(a: nat) | SetLimit(limit: nat)

  function Initial(limit: nat): State { State(0, map[], limit, limit) }

  predicate Enabled(s: State, act: Action) {
    match act
    case FetchAdd(a) => a !in s.phases
    case Decide(a) => a in s.phases && s.phases[a].Deciding?
    case Undo(a) => a in s.phases && s.phases[a] == Refused
    case Leave(a) => a in s.phases && s.phases[a] == Holding
    case SetLimit(_) => true
  }

  /** One atomic step. */
  function Next(s: State, act: Action): State
    requires Enabled(s, act) && s.counter >= 0
  {
    match act
    case FetchAdd(a) => s.(counter := s.counter + 1, phases := s.phases[a := Deciding(s.counter)])
    case Decide(a) => s.(phases := s.phases[a := if s.phases[a].before >= s.limit then Refused else Holding])
    case Undo(a) => s.(counter := s.counter - 1, phases := s.phases - {a})
    case Leave(a) => s.(counter := s.counter - 1, phases := s.phases - {a})
    case SetLimit(n) => s.(limit := n, peak := if n > s.peak then n else s.peak)
  }

  /** The attempts that hold a slot, or will get one at once if the limit is `p`. */
  function Within(s: State, p: nat): set<nat> {
    set a | a in s.phases && (s.phases[a] == Holding || (s.phases[a].Deciding? && s.phases[a].before < p))
  }

  function Holders(s: State): set<nat> { set a | a in s.phases && s.phases[a] == Holding }

  /** Attempts that have incremented and not yet been decided or undone. */
  function InFlight(s: State): set<nat> { set a | a in s.phases && s.phases[a] != Holding }

  /** The counter is exact, and for no limit that is or may yet be in force are there too many within it. */
  ghost predicate Safe(s: State) {
    && s.counter == |s.phases|
    && s.limit <= s.peak
    && forall p: nat | p >= s.peak :: |Within(s, p)| <= p
  }

  lemma Smaller(a: set<nat>, b: set<nat>)
    requires a <= b
    ensures |a| <= |b|
  {
    assert b == a + (b - a);
  }

  lemma InitialSafe(limit: nat)
    ensures Safe(Initial(limit))
  {
    forall p: nat ensures |Within(Initial(limit), p)| <= p { assert Within(Initial(limit), p) == {}; }
  }

  lemma FetchAddSafe(s: State, a: nat)
    requires Safe(s) && a !in s.phases
    ensures Safe(Next(s, FetchAdd(a)))
  {
    var t := Next(s, FetchAdd(a));
    assert t.phases.Keys == s.phases.Keys + {a};
    forall p: nat | p >= t.peak ensures |Within(t, p)| <= p {
      if s.counter < p {
        Smaller(Within(s, p), s.phases.Keys);
        Smaller(Within(t, p), Within(s, p) + {a});
      } else {
        assert Within(t, p) == Within(s, p);
      }
    }
  }

  lemma RemovedSafe(s: State, a: nat)
    requires Safe(s) && a in s.phases
    ensures s.counter >= 1 && Safe(s.(counter := s.counter - 1, phases := s.phases - {a}))
  {
    var t := s.(counter := s.counter - 1, phases := s.phases - {a});
    assert t.phases.Keys == s.phases.Keys - {a};
    forall p: nat | p >= t.peak ensures |Within(t, p)| <= p { Smaller(Within(t, p), Within(s, p)); }
  }

  lemma DecideSafe(s: State, a: nat)
    requires Safe(s) && a in s.phases && s.phases[a].Deciding?
    ensures Safe(Next(s, Decide(a)))
  {
    var t := Next(s, Decide(a));
    assert t.phases.Keys == s.phases.Keys;
    forall p: nat | p >= t.peak ensures |Within(t, p)| <= p { Smaller(Within(t, p), Within(s, p)); }
  }

  lemma StepSafe(s: State, act: Action)
    requires Safe(s) && Enabled(s, act)
    ensures Safe(Next(s, act))
  {
    match act
    case FetchAdd(a) => FetchAddSafe(s, a);
    case Decide(a) => DecideSafe(s, a);
    case Undo(a) => RemovedSafe(s, a);
    case Leave(a) => RemovedSafe(s, a);
    case SetLimit(n) => forall p: nat ensures Within(Next(s, act), p) == Within(s, p) {}
  }

  // ---------------------------------------------------------------- whole runs

  /** A run of any length and any interleaving. */
  ghost predicate IsRun(states: seq<State>, acts: seq<Action>) {
    && |states| == |acts| + 1
    && (exists limit :: states[0] == Initial(limit))
    && forall i | 0 <= i < |acts| ::
      states[i].counter >= 0 && Enabled(states[i], acts[i]) && states[i + 1] == Next(states[i], acts[i])
  }

  lemma {:induction false} RunSafe(states: seq<State>, acts: seq<Action>, k: nat)
    requires IsRun(states, acts) && k <= |acts|
    ensures Safe(states[k])
  {
    if k == 0 {
      var limit :| states[0] == Initial(limit);
      InitialSafe(limit);
    } else {
      RunSafe(states, acts, k - 1);
      StepSafe(states[k - 1], acts[k - 1]);
    }
  }

  /** In every state of every run the holders never exceed the largest limit there has been; the counter is the holders
      plus the attempts in flight, and so is exact when none is. */
  lemma Admitted(states: seq<State>, acts: seq<Action>, k: nat)
    requires IsRun(states, acts) && k <= |acts|
    ensures var s := states[k];
      && |Holders(s)| <= s.peak
      && s.counter == |Holders(s)| + |InFlight(s)| >= 0
  {
    RunSafe(states, acts, k);
    var s := states[k];
    Smaller(Holders(s), Within(s, s.peak));
    assert Holders(s) !! InFlight(s) && Holders(s) + InFlight(s) == s.phases.Keys;
  }

  /** While nobody changes the limit, it is never exceeded. */
  lemma {:induction false} FixedLimit(states: seq<State>, acts: seq<Action>, k: nat)
    requires IsRun(states, acts) && k <= |acts|
    requires forall i | 0 <= i < k :: !acts[i].SetLimit?
    ensures states[k].limit == states[k].peak == states[0].limit && |Holders(states[k])| <= states[0].limit
  {
    Admitted(states, acts, k);
    if k > 0 { FixedLimit(states, acts, k - 1); }
  }

  /** No decrement ever takes the counter below zero. */
  lemma NoUnderflow(states: seq<State>, acts: seq<Action>, k: nat)
    requires IsRun(states, acts) && k < |acts| && (acts[k].Undo? || acts[k].Leave?)
    ensures states[k].counter >= 1
  {
    RunSafe(states, acts, k);
    RemovedSafe(states[k], acts[k].a);
  }

  /** An attempt is let in exactly when the holders and the attempts in flight, at its increment, were fewer than the
      limit at its decision; with nothing in flight and the limit unchanged, exactly when a slot is free. */
  lemma Decision(s: State, a: nat, limit: nat)
    requires Safe(s) && a !in s.phases
    ensures var t := Next(s, FetchAdd(a)).(limit := limit);
      && Enabled(t, Decide(a))
      && (Next(t, Decide(a)).phases[a] == Holding <==> |Holders(s)| + |InFlight(s)| < limit)
      && (InFlight(s) == {} ==> (Next(t, Decide(a)).phases[a] == Holding <==> |Holders(s)| < limit))
  {
    assert Holders(s) !! InFlight(s) && Holders(s) + InFlight(s) == s.phases.Keys;
  }

  lemma Extend(states: seq<State>, acts: seq<Action>, act: Action) returns (t: State)
    requires IsRun(states, acts) && Safe(states[|acts|]) && Enabled(states[|acts|], act)
    ensures t == Next(states[|acts|], act) && Safe(t) && IsRun(states + [t], acts + [act])
  {
    StepSafe(states[|acts|], act);
    t := Next(states[|acts|], act);
  }

  /** But an attempt can be refused although no slot is held: a refused attempt that has not yet undone its increment
      stands in the way of the next. */
  lemma SpuriousRefusal() returns (states: seq<State>, acts: seq<Action>)
    ensures IsRun(states, acts) && acts != [] && acts[|acts| - 1] == Decide(2)
    ensures var s := states[|acts|]; s.limit == 1 && Holders(s) == {} && 2 in s.phases && s.phases[2] == Refused
  {
    hide IsRun, Safe;
    var s := Initial(1);
    states, acts := [s], [];
    RunOfNone(1);
    InitialSafe(1);
    s := Extend(states, acts, FetchAdd(0));
    states, acts := states + [s], acts + [FetchAdd(0)];
    s := Extend(states, acts, Decide(0));
    states, acts := states + [s], acts + [Decide(0)];
    s := Extend(states, acts, FetchAdd(1));
    states, acts := states + [s], acts + [FetchAdd(1)];
    s := Extend(states, acts, Decide(1));
    states, acts := states + [s], acts + [Decide(1)];
    s := Extend(states, acts, Leave(0));
    states, acts := states + [s], acts + [Leave(0)];
    s := Extend(states, acts, FetchAdd(2));
    states, acts := states + [s], acts + [FetchAdd(2)];
    s := Extend(states, acts, Decide(2));
    states, acts := states + [s], acts + [Decide(2)];
  }

  lemma RunOfNone(limit: nat)
    ensures IsRun([Initial(limit)], [])
  {
  }
}
