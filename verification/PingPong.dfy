/**
 Parent and child of `sig_sync.c` take turns: each prints, signals the other and waits in `sigsuspend`
 for the answer. A process is modelled with its signal mask, its pending signals and the frames of its
 running signal handlers, so that a handler may interrupt any step whose signal is not blocked.
 */
module PingPong {
  import Runs

  datatype Signal = Usr1 | Usr2
  const BOTH: set<Signal> := {Usr1, Usr2}

  /** The next statement of a process; `Suspend` is about to enter `sigsuspend`, `Asleep` is inside it. */
  datatype Pc = Loop | Print | Kill | Test | Suspend | Asleep | ClearFlag | Reblock | Ended

  /** A running handler: its next statement and the mask to restore when it returns. */
  datatype Stage = StartSync | SetFlag | Return
  datatype Frame = Frame(stage: Stage, saved: set<Signal>)

  datatype Process = Process(
    pc: Pc,
    round: nat,              // i or j
    flag: bool,
    pending: set<Signal>,
    blocked: set<Signal>,    // the signal mask
    resume: set<Signal>,     // the mask `sigsuspend` will restore
    alt: set<Signal>,        // mask_alt
    frames: seq<Frame>)

  datatype Name = Eltern | Kind
  datatype State = State(max: nat, parent: Process, child: Process, output: seq<Name>)

  /** After `start_sync` and `fork`: both processes block both signals. */
  ghost predicate Init(s: State)
  {
    var p := Process(Loop, 0, false, {}, BOTH, {}, {}, []);
    s == State(s.max, p, p, [])
  }

  // ---------- steps of one process ----------

  /** Delivery of a pending signal that is not blocked; it ends a `sigsuspend`. */
  function Deliver(p: Process, sig: Signal): Process
  {
    p.(pending := p.pending - {sig},
       frames := p.frames + [Frame(StartSync, if p.pc == Asleep then p.resume else p.blocked)],
       blocked := p.blocked + {sig},
       pc := if p.pc == Asleep then Test else p.pc)
  }

  /** One statement of the innermost running handler `sig_func`. */
  function HandlerNext(p: Process): Process
    requires p.frames != []
  {
    var n := |p.frames| - 1;
    match p.frames[n].stage
    case StartSync =>   // SIG_BLOCK of both, with the old mask stored in mask_alt
      p.(alt := p.blocked, blocked := p.blocked + BOTH, frames := p.frames[n := p.frames[n].(stage := SetFlag)])
    case SetFlag => p.(flag := true, frames := p.frames[n := p.frames[n].(stage := Return)])
    case Return => p.(blocked := p.frames[n].saved, frames := p.frames[..n])
  }

  /** The statements of `kind_wartet` and `eltern_warten`; after `Reblock` the caller goes on at `after`. */
  function WaitNext(p: Process, after: Pc): Process
  {
    match p.pc
    case Test => p.(pc := if p.flag then ClearFlag else Suspend)
    case Suspend => p.(resume := p.blocked, blocked := {}, pc := Asleep)
    case ClearFlag => p.(flag := false, pc := Reblock)
    case Reblock => p.(blocked := p.blocked + p.alt, pc := after)
    case _ => p
  }

  /** A process can run unless it has ended or sleeps in `sigsuspend`. */
  predicate Ready(p: Process)
  {
    p.frames != [] || (p.pc != Asleep && p.pc != Ended)
  }

  // ---------- the program ----------

  function Queue(p: Process, sig: Signal): Process
  {
    p.(pending := p.pending + {sig})
  }

  function ParentNext(s: State): State
  {
    var p := s.parent;
    if p.frames != [] then s.(parent := HandlerNext(p))
    else match p.pc
      case Loop => s.(parent := p.(pc := if p.round < s.max then Print else Ended))
      case Print => s.(output := s.output + [Eltern], parent := p.(pc := Kill))
      case Kill => s.(parent := p.(pc := Test), child := Queue(s.child, Usr2))
      case Reblock => s.(parent := WaitNext(p, Loop).(round := p.round + 1))
      case _ => s.(parent := WaitNext(p, Loop))
  }

  function ChildNext(s: State): State
  {
    var p := s.child;
    if p.frames != [] then s.(child := HandlerNext(p))
    else match p.pc
      case Loop => s.(child := p.(pc := if p.round < s.max then Test else Ended))
      case Print => s.(output := s.output + [Kind], child := p.(pc := Kill))
      case Kill => s.(child := p.(pc := Loop, round := p.round + 1), parent := Queue(s.parent, Usr1))
      case _ => s.(child := WaitNext(p, Print))
  }

  ghost predicate Delivers(s: State, t: State)
  {
    || (exists sig :: sig in s.parent.pending - s.parent.blocked && t == s.(parent := Deliver(s.parent, sig)))
    || (exists sig :: sig in s.child.pending - s.child.blocked && t == s.(child := Deliver(s.child, sig)))
  }

  ghost predicate Next(s: State, t: State)
  {
    || (Ready(s.parent) && t == ParentNext(s))
    || (Ready(s.child) && t == ChildNext(s))
    || Delivers(s, t)
  }

  // ---------- the situations of a process ----------

  /** Outside its handler and `sigsuspend`, with nothing on its way to it. */
  predicate Plain(p: Process)
  {
    p.frames == [] && !p.flag && p.blocked == BOTH && p.pending == {}
  }

  /** In the wait loop with its flag down; inside `sigsuspend` nothing is blocked. */
  predicate Waits(p: Process)
  {
    && p.frames == [] && !p.flag
    && if p.pc == Asleep then p.blocked == {} && p.resume == BOTH else p.blocked == BOTH
  }

  /** The wake-up has arrived: in the handler, or past it with the flag up. */
  predicate Wakes(p: Process)
  {
    && p.pending == {}
    && if p.frames == [] then p.flag && p.blocked == BOTH && (p.pc == Test || p.pc == ClearFlag)
       else
         && |p.frames| == 1 && p.frames[0].saved == BOTH && p.pc == Test
         && (p.frames[0].stage != StartSync ==> p.blocked == BOTH)
         && (p.flag <==> p.frames[0].stage == Return)
  }

  predicate InWait(p: Process)
  {
    p.pc == Test || p.pc == Suspend || p.pc == Asleep
  }

  /** The child before or in its wait of round `child.round`, or past its last round. */
  predicate ChildIdle(s: State)
  {
    && Waits(s.child)
    && (s.child.pc == Loop || (InWait(s.child) && s.child.round < s.max) || (s.child.pc == Ended && s.child.round == s.max))
  }

  /** The parent in its wait of round `parent.round`. */
  predicate ParentIdle(s: State)
  {
    Waits(s.parent) && InWait(s.parent)
  }

  // ---------- where the turn is ----------

  predicate ParentTurn(s: State)
  {
    var p := s.parent;
    && Plain(p) && ChildIdle(s) && s.child.pending == {} && s.child.round == p.round <= s.max
    && match p.pc
       case Loop => |s.output| == 2 * p.round
       case Print => |s.output| == 2 * p.round && p.round < s.max
       case Kill => |s.output| == 2 * p.round + 1 && p.round < s.max
       case Ended => |s.output| == 2 * p.round && p.round == s.max
       case _ => false
  }

  predicate ChildSignalled(s: State)
  {
    && ParentIdle(s) && s.parent.pending == {}
    && ChildIdle(s) && s.child.pending == {Usr2}
    && s.child.round == s.parent.round < s.max && |s.output| == 2 * s.parent.round + 1
  }

  predicate ChildWakes(s: State)
  {
    && ParentIdle(s) && s.parent.pending == {}
    && Wakes(s.child)
    && s.child.round == s.parent.round < s.max && |s.output| == 2 * s.parent.round + 1
  }

  predicate ChildTurn(s: State)
  {
    && ParentIdle(s) && s.parent.pending == {}
    && Plain(s.child) && s.child.round == s.parent.round < s.max
    && match s.child.pc
       case Reblock => |s.output| == 2 * s.parent.round + 1
       case Print => |s.output| == 2 * s.parent.round + 1
       case Kill => |s.output| == 2 * s.parent.round + 2
       case _ => false
  }

  predicate ParentSignalled(s: State)
  {
    && ParentIdle(s) && s.parent.pending == {Usr1}
    && ChildIdle(s) && s.child.pending == {}
    && s.child.round == s.parent.round + 1 <= s.max && |s.output| == 2 * s.child.round
  }

  predicate ParentWakes(s: State)
  {
    && (Wakes(s.parent) || (Plain(s.parent) && s.parent.pc == Reblock))
    && ChildIdle(s) && s.child.pending == {}
    && s.child.round == s.parent.round + 1 <= s.max && |s.output| == 2 * s.child.round
  }

  predicate Alternates(output: seq<Name>)
  {
    forall i :: 0 <= i < |output| ==> output[i] == if i % 2 == 0 then Eltern else Kind
  }

  predicate Inv(s: State)
  {
    && Alternates(s.output)
    && (ParentTurn(s) || ChildSignalled(s) || ChildWakes(s) || ChildTurn(s) || ParentSignalled(s) || ParentWakes(s))
  }

  // ---------- every step keeps the turn and lowers the measure ----------

  function Rank(p: Process): nat
  {
    if p.frames != [] then
      match p.frames[|p.frames| - 1].stage case StartSync => 7 case SetFlag => 6 case Return => 5
    else
      match p.pc
      case Loop => 13
      case Print => 12
      case Kill => 11
      case Test => if p.flag then 4 else 10
      case Suspend => 9
      case Asleep => 8
      case ClearFlag => 3
      case Reblock => 2
      case Ended => 0
  }

  function ChildRank(p: Process): nat
  {
    if p.frames == [] && p.pc == Print then 1 else if p.frames == [] && p.pc == Kill then 0 else Rank(p)
  }

  /** An upper bound on the steps that are left. */
  function Work(s: State): nat
  {
    var parentRounds := if s.parent.round <= s.max then s.max - s.parent.round else 0;
    var childRounds := if s.child.round <= s.max then s.max - s.child.round else 0;
    16 * parentRounds + Rank(s.parent) + 16 * childRounds + ChildRank(s.child)
  }

  ghost predicate Keeps(s: State, t: State)
  {
    Inv(t) && Work(t) < Work(s)
  }

  /** There are no other signals, so adding both blocks everything. */
  lemma BothIsAll(x: set<Signal>)
    ensures x + BOTH == BOTH && BOTH + x == BOTH
  {
    forall sig: Signal
      ensures sig in BOTH
    {
      match sig case Usr1 => case Usr2 =>
    }
  }

  lemma ParentHandlerKeeps(s: State)
    requires Inv(s) && s.parent.frames != []
    ensures Keeps(s, ParentNext(s))
  {
    BothIsAll(s.parent.blocked);
  }

  lemma ParentWaitKeeps(s: State)
    requires Inv(s) && Ready(s.parent) && s.parent.frames == []
    requires s.parent.pc != Loop && s.parent.pc != Print && s.parent.pc != Kill
    ensures Keeps(s, ParentNext(s))
  {
    BothIsAll(s.parent.alt);
  }

  lemma ParentKeeps(s: State)
    requires Inv(s) && Ready(s.parent)
    ensures Keeps(s, ParentNext(s))
  {
    if s.parent.frames != [] {
      ParentHandlerKeeps(s);
    } else if s.parent.pc != Loop && s.parent.pc != Print && s.parent.pc != Kill {
      ParentWaitKeeps(s);
    }
  }

  lemma ChildHandlerKeeps(s: State)
    requires Inv(s) && s.child.frames != []
    ensures Keeps(s, ChildNext(s))
  {
    BothIsAll(s.child.blocked);
  }

  lemma ChildWaitKeeps(s: State)
    requires Inv(s) && Ready(s.child) && s.child.frames == []
    requires s.child.pc != Loop && s.child.pc != Print && s.child.pc != Kill
    ensures Keeps(s, ChildNext(s))
  {
    BothIsAll(s.child.alt);
  }

  lemma ChildKeeps(s: State)
    requires Inv(s) && Ready(s.child)
    ensures Keeps(s, ChildNext(s))
  {
    if s.child.frames != [] {
      ChildHandlerKeeps(s);
    } else if s.child.pc != Loop && s.child.pc != Print && s.child.pc != Kill {
      ChildWaitKeeps(s);
    }
  }

  lemma DeliveryKeeps(s: State, t: State)
    requires Inv(s) && Delivers(s, t)
    ensures Keeps(s, t)
  {
  }

  lemma NextKeeps(s: State, t: State)
    requires Inv(s) && Next(s, t)
    ensures Keeps(s, t)
  {
    if Ready(s.parent) && t == ParentNext(s) {
      ParentKeeps(s);
    } else if Ready(s.child) && t == ChildNext(s) {
      ChildKeeps(s);
    } else {
      DeliveryKeeps(s, t);
    }
  }

  lemma ReachableInv(s: State)
    requires Runs.Reachable(Init, Next, s)
    ensures Inv(s)
  {
    forall s, t | Inv(s) && Next(s, t) ensures Inv(t) { NextKeeps(s, t); }
    Runs.InvariantOfReachable(Init, Next, Inv, s);
  }

  // ---------- the masks of the handler ----------

  /** `sig` is the signal for this process: the handler starts with it blocked and keeps that mask for later. */
  predicate MasksFit(p: Process, sig: Signal)
  {
    && (p.frames != [] ==>
          && p.frames[0].saved == BOTH
          && if p.frames[0].stage == StartSync then p.blocked == {sig} else p.alt == {sig})
    && (p.frames == [] && (p.flag || p.pc == Reblock) ==> p.alt == {sig})
  }

  predicate BothMasksFit(s: State)
  {
    MasksFit(s.parent, Usr1) && MasksFit(s.child, Usr2)
  }

  lemma HandlerKeepsMasks(p: Process, sig: Signal)
    requires |p.frames| == 1 && MasksFit(p, sig) && p.pc != Reblock
    ensures MasksFit(HandlerNext(p), sig)
  {
  }

  lemma ParentKeepsMasks(s: State)
    requires Inv(s) && BothMasksFit(s) && Ready(s.parent)
    ensures BothMasksFit(ParentNext(s))
  {
    if s.parent.frames != [] {
      HandlerKeepsMasks(s.parent, Usr1);
    }
  }

  lemma ChildKeepsMasks(s: State)
    requires Inv(s) && BothMasksFit(s) && Ready(s.child)
    ensures BothMasksFit(ChildNext(s))
  {
    if s.child.frames != [] {
      HandlerKeepsMasks(s.child, Usr2);
    }
  }

  /** Only a sleeper is delivered its signal, and it has nothing else blocked then. */
  lemma DeliveryKeepsMasks(s: State, t: State)
    requires Inv(s) && BothMasksFit(s) && Delivers(s, t)
    ensures BothMasksFit(t)
  {
  }

  lemma NextKeepsMasks(s: State, t: State)
    requires Inv(s) && BothMasksFit(s) && Next(s, t)
    ensures BothMasksFit(t)
  {
    if Ready(s.parent) && t == ParentNext(s) {
      ParentKeepsMasks(s);
    } else if Ready(s.child) && t == ChildNext(s) {
      ChildKeepsMasks(s);
    } else {
      DeliveryKeepsMasks(s, t);
    }
  }

  lemma HandlerMasks(s: State)
    requires Runs.Reachable(Init, Next, s)
    ensures BothMasksFit(s)
  {
    var inv := (s: State) => Inv(s) && BothMasksFit(s);
    forall s, t | inv(s) && Next(s, t)
      ensures inv(t)
    {
      NextKeeps(s, t);
      NextKeepsMasks(s, t);
    }
    Runs.InvariantOfReachable(Init, Next, inv, s);
  }

  // ---------- the results ----------

  function Tokens(turn: bool, p: Process): nat
  {
    (if turn then 1 else 0) + |p.pending| + if p.flag || p.frames != [] then 1 else 0
  }

  /**
   The turn to act, a pending signal, and a handler or raised flag: there is exactly one of these in the
   whole system until the parent has ended, and none afterwards.
   */
  lemma ExactlyOneTurn(s: State)
    requires Runs.Reachable(Init, Next, s)
    ensures var parentActs := s.parent.pc == Loop || s.parent.pc == Print || s.parent.pc == Kill || s.parent.pc == Reblock;
            var childActs := s.child.pc == Print || s.child.pc == Kill || s.child.pc == Reblock;
            Tokens(parentActs, s.parent) + Tokens(childActs, s.child) == if s.parent.pc == Ended then 0 else 1
  {
    ReachableInv(s);
  }

  /** A handler runs only out of `sigsuspend`; everywhere else both signals are blocked. */
  lemma BlockedOutsideSuspend(s: State)
    requires Runs.Reachable(Init, Next, s)
    ensures forall p :: p == s.parent || p == s.child ==>
              && |p.frames| <= 1
              && (p.frames == [] && p.pc != Asleep ==> p.blocked == BOTH)
              && (p.pc == Asleep ==> p.frames == [] && p.blocked == {} && !p.flag)
  {
    ReachableInv(s);
  }

  /** A signal that is pending for a sleeper can be delivered at once, and it wakes the sleeper. */
  lemma NoWakeUpLost(s: State, sig: Signal)
    requires Runs.Reachable(Init, Next, s)
    ensures s.child.pc == Asleep && sig in s.child.pending ==>
              Next(s, s.(child := Deliver(s.child, sig))) && Wakes(Deliver(s.child, sig))
    ensures s.parent.pc == Asleep && sig in s.parent.pending ==>
              Next(s, s.(parent := Deliver(s.parent, sig))) && Wakes(Deliver(s.parent, sig))
  {
    ReachableInv(s);
    if s.child.pc == Asleep && sig in s.child.pending {
      assert Delivers(s, s.(child := Deliver(s.child, sig)));
    }
    if s.parent.pc == Asleep && sig in s.parent.pending {
      assert Delivers(s, s.(parent := Deliver(s.parent, sig)));
    }
  }

  /** "Eltern" and "Kind" alternate in every interleaving, and the two round counters never drift apart. */
  lemma StrictAlternation(s: State)
    requires Runs.Reachable(Init, Next, s)
    ensures Alternates(s.output) && |s.output| <= 2 * s.max
    ensures s.parent.round <= s.child.round <= s.parent.round + 1
  {
    ReachableInv(s);
  }

  predicate Finished(s: State)
  {
    s.parent.pc == Ended && s.child.pc == Ended
  }

  /** As long as one of the two has not ended, some step is possible. */
  lemma NeverStuck(s: State) returns (t: State)
    requires Runs.Reachable(Init, Next, s) && !Finished(s)
    ensures Next(s, t)
  {
    ReachableInv(s);
    if Ready(s.parent) {
      t := ParentNext(s);
    } else if Ready(s.child) {
      t := ChildNext(s);
    } else if s.child.pending != {} {
      assert Usr2 in s.child.pending - s.child.blocked;
      t := s.(child := Deliver(s.child, Usr2));
    } else {
      assert Usr1 in s.parent.pending - s.parent.blocked;
      t := s.(parent := Deliver(s.parent, Usr1));
    }
  }

  /** Every run is finite, and one that cannot go on has printed both names `max` times in turn. */
  lemma EveryRunEnds(run: seq<State>)
    requires Runs.IsRun(Init, Next, run)
    ensures |run| <= 32 * run[0].max + 27
    ensures var last := run[|run| - 1];
            (forall t :: !Next(last, t)) ==> Finished(last) && |last.output| == 2 * last.max && Alternates(last.output)
  {
    forall s, t | Inv(s) && Next(s, t) ensures Inv(t) && Work(t) < Work(s) { NextKeeps(s, t); }
    Runs.Bounded(Init, Next, Inv, Work, run);
    var last := run[|run| - 1];
    assert Runs.Reachable(Init, Next, last);
    ReachableInv(last);
    if !Finished(last) {
      var t := NeverStuck(last);
    }
  }

  lemma FinishedOutput(s: State)
    requires Runs.Reachable(Init, Next, s) && Finished(s)
    ensures |s.output| == 2 * s.max && Alternates(s.output)
  {
    ReachableInv(s);
  }

  lemma ReachableStep(s: State, t: State)
    requires Runs.Reachable(Init, Next, s) && Next(s, t)
    ensures Runs.Reachable(Init, Next, t) && t.max == s.max && Work(t) < Work(s)
  {
    ReachableInv(s);
    NextKeeps(s, t);
    Runs.Extend(Init, Next, s, t);
  }

  /** For every number of rounds there is a run to the end, with both names printed so often. */
  lemma SomeRunEnds(max: nat) returns (s: State)
    ensures Runs.Reachable(Init, Next, s) && s.max == max && Finished(s)
    ensures |s.output| == 2 * max && Alternates(s.output)
  {
    var p := Process(Loop, 0, false, {}, BOTH, {}, {}, []);
    var s0 := State(max, p, p, []);
    Runs.InitReachable(Init, Next, s0);
    var inv := (s: State) => Runs.Reachable(Init, Next, s) && s.max == max;
    forall s | inv(s) && !Finished(s)
      ensures exists t :: Next(s, t)
    {
      var t := NeverStuck(s);
    }
    forall s, t | inv(s) && Next(s, t)
      ensures inv(t) && Work(t) < Work(s)
    {
      ReachableStep(s, t);
    }
    s := Runs.Completes(Next, inv, Finished, Work, s0);
    FinishedOutput(s);
  }
}
