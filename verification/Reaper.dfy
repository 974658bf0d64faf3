/**
 Reaping of child servers in `pserver.c`: the kernel keeps a single pending bit for SIGCHLD, so several
 deaths can share one signal, and `no_zombie` collects children in a loop.
 */
module Reaper {
  import Runs
  import Counting

  /** Where the parent stands: in its accept loop, in the `waitpid` loop of the handler, or about to return from it. */
  datatype Handler = Outside | Reaping | Returning

  /** `deaths` and `reaped` record, in order, which children died and which pids `waitpid` returned. */
  datatype State = State(
    alive: set<int>,
    zombies: set<int>,
    pending: bool,
    handler: Handler,
    deaths: seq<int>,
    reaped: seq<int>)

  ghost predicate Init(s: State)
  {
    s == State({}, {}, false, Outside, [], [])
  }

  /** The accept loop forks a child server; its pid is not that of a child that is alive or still a zombie. */
  ghost predicate Forks(s: State, t: State)
  {
    && s.handler == Outside
    && exists pid :: pid > 0 && pid !in s.alive + s.zombies && t == s.(alive := s.alive + {pid})
  }

  /** A child ends at any moment; a SIGCHLD that is already pending absorbs the new one. */
  ghost predicate ChildEnds(s: State, t: State)
  {
    exists pid :: pid in s.alive &&
      t == s.(alive := s.alive - {pid}, zombies := s.zombies + {pid}, pending := true, deaths := s.deaths + [pid])
  }

  /** SIGCHLD is delivered unless the handler runs already, which keeps it blocked. */
  ghost predicate Delivered(s: State, t: State)
  {
    s.pending && s.handler == Outside && t == s.(pending := false, handler := Reaping)
  }

  /** One call of waitpid(-1, &ret, WNOHANG): it returns a dead child, or 0 or -1 if there is none. */
  ghost predicate WaitPid(s: State, t: State)
  {
    && s.handler == Reaping
    && if s.zombies == {} then t == s.(handler := Returning)
       else exists pid :: pid in s.zombies && t == s.(zombies := s.zombies - {pid}, reaped := s.reaped + [pid])
  }

  ghost predicate HandlerReturns(s: State, t: State)
  {
    s.handler == Returning && t == s.(handler := Outside)
  }

  /** The steps that deal with the signal, without new children and new deaths. */
  ghost predicate SignalStep(s: State, t: State)
  {
    Delivered(s, t) || WaitPid(s, t) || HandlerReturns(s, t)
  }

  ghost predicate Next(s: State, t: State)
  {
    Forks(s, t) || ChildEnds(s, t) || SignalStep(s, t)
  }

  /** Every death is a zombie or has been reaped, and no zombie is without a signal on its way. */
  ghost predicate Inv(s: State)
  {
    && s.alive !! s.zombies
    && multiset(s.deaths) == multiset(s.reaped) + multiset(s.zombies)
    && (s.zombies != {} ==> s.pending || s.handler == Reaping)
  }

  lemma EndKeeps(s: State, pid: int)
    requires Inv(s) && pid in s.alive
    ensures Inv(s.(alive := s.alive - {pid}, zombies := s.zombies + {pid}, pending := true,
                   deaths := s.deaths + [pid]))
  {
    assert multiset(s.zombies + {pid}) == multiset(s.zombies) + multiset{pid};
    assert multiset(s.deaths + [pid]) == multiset(s.deaths) + multiset{pid};
  }

  lemma ReapKeeps(s: State, pid: int)
    requires Inv(s) && s.handler == Reaping && pid in s.zombies
    ensures Inv(s.(zombies := s.zombies - {pid}, reaped := s.reaped + [pid]))
  {
    assert multiset(s.zombies) == multiset(s.zombies - {pid}) + multiset{pid};
    assert multiset(s.reaped + [pid]) == multiset(s.reaped) + multiset{pid};
  }

  lemma NextKeeps(s: State, t: State)
    requires Inv(s) && Next(s, t)
    ensures Inv(t)
  {
    if ChildEnds(s, t) {
      var pid :| pid in s.alive && t == s.(alive := s.alive - {pid}, zombies := s.zombies + {pid}, pending := true,
                                           deaths := s.deaths + [pid]);
      EndKeeps(s, pid);
    } else if WaitPid(s, t) && s.zombies != {} {
      var pid :| pid in s.zombies && t == s.(zombies := s.zombies - {pid}, reaped := s.reaped + [pid]);
      ReapKeeps(s, pid);
    } else {
      assert t.zombies == s.zombies && t.deaths == s.deaths && t.reaped == s.reaped;
    }
  }

  lemma ReachableInv(s: State)
    requires Runs.Reachable(Init, Next, s)
    ensures Inv(s)
  {
    forall s, t | Inv(s) && Next(s, t) ensures Inv(t) { NextKeeps(s, t); }
    Runs.InvariantOfReachable(Init, Next, Inv, s);
  }

  /** A dead child that has not been reaped has its signal pending or its handler in the reaping loop. */
  lemma ZombieHasSignal(s: State)
    requires Runs.Reachable(Init, Next, s) && s.zombies != {}
    ensures s.pending || s.handler == Reaping
  {
    ReachableInv(s);
  }

  /** When the signal has been dealt with, `waitpid` has returned each death exactly as often as it happened. */
  lemma NobodyForgotten(s: State)
    requires Runs.Reachable(Init, Next, s)
    requires !s.pending && s.handler == Outside
    ensures s.zombies == {} && multiset(s.reaped) == multiset(s.deaths)
  {
    ReachableInv(s);
  }

  /** `waitpid` never returns a child more often than it died. */
  lemma NoDoubleReap(s: State, pid: int)
    requires Runs.Reachable(Init, Next, s)
    ensures multiset(s.reaped)[pid] <= multiset(s.deaths)[pid] <= multiset(s.reaped)[pid] + 1
    ensures multiset(s.reaped)[pid] < multiset(s.deaths)[pid] <==> pid in s.zombies
  {
    ReachableInv(s);
  }

  // ---------- the signal is dealt with in bounded time ----------

  function Work(s: State): nat
  {
    |s.zombies| + (if s.pending then 3 else 0) +
    match s.handler case Reaping => 2 case Returning => 1 case Outside => 0
  }

  lemma SignalStepsEnd(s: State, t: State)
    requires Inv(s) && SignalStep(s, t)
    ensures Work(t) < Work(s)
  {
    if WaitPid(s, t) && s.zombies != {} {
      var pid :| pid in s.zombies && t == s.(zombies := s.zombies - {pid}, reaped := s.reaped + [pid]);
      assert |t.zombies| == |s.zombies| - 1;
    }
  }

  ghost predicate Settled(s: State)
  {
    forall t :: !SignalStep(s, t)
  }

  /** While a signal is pending or the handler runs, some signal step is possible. */
  lemma SignalStepPossible(s: State) returns (t: State)
    requires s.pending || s.handler != Outside
    ensures SignalStep(s, t)
  {
    match s.handler
    case Outside => t := s.(pending := false, handler := Reaping);
    case Returning => t := s.(handler := Outside);
    case Reaping =>
      if s.zombies == {} {
        t := s.(handler := Returning);
      } else {
        var pid := Counting.AnyMember(s.zombies);
        t := s.(zombies := s.zombies - {pid}, reaped := s.reaped + [pid]);
      }
  }

  /** Between deaths the parent needs at most `Work` steps, and it does not rest before all are reaped. */
  lemma AllReapedSoon(run: seq<State>)
    requires Runs.IsRun(s => Runs.Reachable(Init, Next, s), SignalStep, run)
    ensures |run| <= Work(run[0]) + 1
    ensures Settled(run[|run| - 1]) ==>
              var last := run[|run| - 1]; last.zombies == {} && multiset(last.reaped) == multiset(last.deaths)
  {
    var start := s => Runs.Reachable(Init, Next, s);
    forall s | start(s) ensures Inv(s) { ReachableInv(s); }
    forall s, t | Inv(s) && SignalStep(s, t)
      ensures Inv(t) && Work(t) < Work(s)
    {
      NextKeeps(s, t);
      SignalStepsEnd(s, t);
    }
    Runs.Bounded(start, SignalStep, Inv, Work, run);
    Runs.Invariance(start, SignalStep, Inv, run);
    var last := run[|run| - 1];
    if last.pending || last.handler != Outside {
      var t := SignalStepPossible(last);
    }
  }

  // ---------- children that die together ----------

  function Members(pids: seq<int>): set<int>
  {
    set p | p in pids
  }

  /** The children with these pids have been forked and live. */
  lemma {:induction false} ForksAll(pids: seq<int>)
    requires forall i :: 0 <= i < |pids| ==> pids[i] > 0
    requires forall i, j :: 0 <= i < j < |pids| ==> pids[i] != pids[j]
    ensures Runs.Reachable(Init, Next, State(Members(pids), {}, false, Outside, [], []))
  {
    if pids == [] {
      Runs.InitReachable(Init, Next, State({}, {}, false, Outside, [], []));
      assert Members(pids) == {};
    } else {
      var rest, pid := pids[..|pids| - 1], pids[|pids| - 1];
      ForksAll(rest);
      var s := State(Members(rest), {}, false, Outside, [], []);
      var t := s.(alive := s.alive + {pid});
      assert t.alive == Members(pids);
      assert Forks(s, t);
      Runs.Extend(Init, Next, s, t);
    }
  }

  /** The first k of these children have died, and left one pending signal. */
  function Dying(pids: seq<int>, k: nat): State
    requires k <= |pids|
  {
    State(Members(pids[k..]), Members(pids[..k]), k > 0, Outside, pids[..k], [])
  }

  lemma NextDies(pids: seq<int>, k: nat)
    requires k < |pids| && forall i, j :: 0 <= i < j < |pids| ==> pids[i] != pids[j]
    ensures ChildEnds(Dying(pids, k), Dying(pids, k + 1))
  {
    var s, t, pid := Dying(pids, k), Dying(pids, k + 1), pids[k];
    assert pids[..k + 1] == pids[..k] + [pid] && pids[k..] == [pid] + pids[k + 1..];
    assert pid !in pids[k + 1..];
    assert t.alive == s.alive - {pid} && t.zombies == s.zombies + {pid};
  }

  lemma {:induction false} AllDie(pids: seq<int>, k: nat)
    requires k <= |pids| && forall i :: 0 <= i < |pids| ==> pids[i] > 0
    requires forall i, j :: 0 <= i < j < |pids| ==> pids[i] != pids[j]
    ensures Runs.Reachable(Init, Next, Dying(pids, k))
  {
    if k == 0 {
      ForksAll(pids);
      assert pids[0..] == pids && pids[..0] == [] && Members(pids[..0]) == {};
    } else {
      AllDie(pids, k - 1);
      var s, t := Dying(pids, k - 1), Dying(pids, k);
      NextDies(pids, k - 1);
      Runs.Extend(Init, Next, s, t);
    }
  }

  /** Any number of children can die behind a single pending signal, and the handler then reaps all of them. */
  lemma OneSignalReapsAll(pids: seq<int>) returns (s: State, t: State)
    requires forall i :: 0 <= i < |pids| ==> pids[i] > 0
    requires forall i, j :: 0 <= i < j < |pids| ==> pids[i] != pids[j]
    ensures Runs.Reachable(Init, Next, s) && s.zombies == Members(pids) && s.handler == Outside && s.reaped == []
    ensures Runs.Later(SignalStep, s, t) && t.zombies == {} && multiset(t.reaped) == multiset(pids)
  {
    AllDie(pids, |pids|);
    assert pids[..|pids|] == pids && pids[|pids|..] == [];
    s := Dying(pids, |pids|);
    var inv := (u: State) => Runs.Reachable(Init, Next, u) && u.deaths == pids;
    var goal := (u: State) => !u.pending && u.handler == Outside;
    forall u | inv(u) && !goal(u)
      ensures exists v :: SignalStep(u, v)
    {
      var v := SignalStepPossible(u);
    }
    forall u, v | inv(u) && SignalStep(u, v)
      ensures inv(v) && Work(v) < Work(u)
    {
      ReachableInv(u);
      SignalStepsEnd(u, v);
      Runs.Extend(Init, Next, u, v);
    }
    t := Runs.Completes(SignalStep, inv, goal, Work, s);
    NobodyForgotten(t);
  }
}
