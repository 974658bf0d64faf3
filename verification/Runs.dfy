/** Runs of a step system given by an initial condition and a next-state relation. */
module Runs {

  /** `run` starts in an initial state and every later state follows from the one before it. */
  ghost predicate IsRun<S>(init: S -> bool, next: (S, S) -> bool, run: seq<S>)
  {
    && |run| > 0
    && init(run[0])
    && forall i :: 0 < i < |run| ==> next(run[i - 1], run[i])
  }

  ghost predicate Reachable<S(!new)>(init: S -> bool, next: (S, S) -> bool, s: S)
  {
    exists run :: IsRun(init, next, run) && run[|run| - 1] == s
  }

  /** An inductive invariant holds in every state of every run. */
  lemma {:induction false} Invariance<S(!new)>(init: S -> bool, next: (S, S) -> bool, inv: S -> bool, run: seq<S>)
    requires IsRun(init, next, run)
    requires forall s :: init(s) ==> inv(s)
    requires forall s, t :: inv(s) && next(s, t) ==> inv(t)
    ensures forall i :: 0 <= i < |run| ==> inv(run[i])
  {
    if |run| > 1 {
      var before := run[..|run| - 1];
      Invariance(init, next, inv, before);
      assert inv(before[|run| - 2]) && next(run[|run| - 2], run[|run| - 1]);
      forall i | 0 <= i < |run|
        ensures inv(run[i])
      {
        if i < |run| - 1 {
          assert run[i] == before[i];
        }
      }
    }
  }

  lemma InvariantOfReachable<S(!new)>(init: S -> bool, next: (S, S) -> bool, inv: S -> bool, s: S)
    requires Reachable(init, next, s)
    requires forall s :: init(s) ==> inv(s)
    requires forall s, t :: inv(s) && next(s, t) ==> inv(t)
    ensures inv(s)
  {
    var run :| IsRun(init, next, run) && run[|run| - 1] == s;
    Invariance(init, next, inv, run);
  }

  lemma InitReachable<S(!new)>(init: S -> bool, next: (S, S) -> bool, s: S)
    requires init(s)
    ensures Reachable(init, next, s)
  {
    assert IsRun(init, next, [s]);
  }

  lemma Extend<S(!new)>(init: S -> bool, next: (S, S) -> bool, s: S, t: S)
    requires Reachable(init, next, s) && next(s, t)
    ensures Reachable(init, next, t)
  {
    var run :| IsRun(init, next, run) && run[|run| - 1] == s;
    var longer := run + [t];
    forall i | 0 < i < |longer|
      ensures next(longer[i - 1], longer[i])
    {
      if i < |run| {
        assert longer[i - 1] == run[i - 1] && longer[i] == run[i];
      }
    }
    assert IsRun(init, next, longer);
  }

  /** Where every step lowers a measure, a run is no longer than the measure of its first state allows. */
  lemma {:induction false} Bounded<S(!new)>(
    init: S -> bool, next: (S, S) -> bool, inv: S -> bool, measure: S -> nat, run: seq<S>)
    requires IsRun(init, next, run)
    requires forall s :: init(s) ==> inv(s)
    requires forall s, t :: inv(s) && next(s, t) ==> inv(t) && measure(t) < measure(s)
    ensures |run| - 1 + measure(run[|run| - 1]) <= measure(run[0])
  {
    if |run| > 1 {
      var before := run[..|run| - 1];
      Invariance(init, next, inv, before);
      Bounded(init, next, inv, measure, before);
      assert inv(before[|run| - 2]) && next(run[|run| - 2], run[|run| - 1]);
    }
  }

  /** The states of the runs that go on from s. */
  ghost predicate Later<S(!new)>(next: (S, S) -> bool, s: S, t: S)
  {
    Reachable(u => u == s, next, t)
  }

  lemma Here<S(!new)>(next: (S, S) -> bool, s: S)
    ensures Later(next, s, s)
  {
    InitReachable(u => u == s, next, s);
  }

  lemma Go<S(!new)>(next: (S, S) -> bool, s: S, t: S, u: S)
    requires Later(next, s, t) && next(t, u)
    ensures Later(next, s, u)
  {
    Extend(u => u == s, next, t, u);
  }

  /** What can be reached from a reachable state, with some of the steps, is reachable. */
  lemma LaterReachable<S(!new)>(init: S -> bool, next: (S, S) -> bool, step: (S, S) -> bool, s: S, t: S)
    requires Reachable(init, next, s) && Later(step, s, t)
    requires forall u, v :: step(u, v) ==> next(u, v)
    ensures Reachable(init, next, t)
  {
    var reachable := u => Reachable(init, next, u);
    forall u, v | reachable(u) && step(u, v) ensures reachable(v) { Extend(init, next, u, v); }
    InvariantOfReachable(u => u == s, step, reachable, t);
  }

  lemma LaterTrans<S(!new)>(next: (S, S) -> bool, s: S, t: S, u: S)
    requires Later(next, s, t) && Later(next, t, u)
    ensures Later(next, s, u)
  {
    LaterReachable(v => v == s, next, next, t, u);
  }

  /** Where some step is possible until the goal is met, and every step lowers a measure, some run meets the goal. */
  lemma {:induction false} Completes<S(!new)>(step: (S, S) -> bool, inv: S -> bool, goal: S -> bool, measure: S -> nat, s: S)
    returns (t: S)
    requires inv(s)
    requires forall u :: inv(u) && !goal(u) ==> exists v :: step(u, v)
    requires forall u, v :: inv(u) && step(u, v) ==> inv(v) && measure(v) < measure(u)
    ensures Later(step, s, t) && inv(t) && goal(t)
    decreases measure(s)
  {
    Here(step, s);
    t := s;
    if !goal(s) {
      var v :| step(s, v);
      Go(step, s, s, v);
      t := Completes(step, inv, goal, measure, v);
      LaterTrans(step, s, v, t);
    }
  }
}
