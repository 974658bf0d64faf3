/**
 Hand-over through a condition variable: n consumers (`theThread`) wait under a mutex for the flag
 `datenVorhanden`, and the main thread raises it in each of m rounds and signals once per round.
 */
module HandOver {
  import Runs
  import Counting

  /** Where a consumer stands in `theThread`. */
  datatype ConsumerPc = Start | Head | Test | Waiting | Woken | Process | Unlock | Finished

  /** A consumer with its local countdown `retries`. */
  datatype Consumer = Consumer(pc: ConsumerPc, retries: int)

  /** Where the main thread stands; `Join(k)` waits for consumer k. */
  datatype MainPc = Round | Lock | Count | Announce | Signal | Release | Join(k: nat) | Ended

  datatype Holder = Free | Main | Client(i: nat)

  datatype State = State(
    consumers: seq<Consumer>,
    main: MainPc,
    left: int,              // anzahlDaten
    rounds: nat,            // the initial value of anzahlDaten
    holder: Holder,         // owner of dataMutex
    waiters: set<nat>,      // wait set of datenVorhandenCondition
    vorhanden: int,         // datenVorhanden
    daten: int)             // geteilteDaten

  ghost predicate Init(s: State)
  {
    && (forall i :: 0 <= i < |s.consumers| ==> s.consumers[i] == Consumer(Start, 2))
    && s.main == Round && s.left == s.rounds
    && s.holder == Free && s.waiters == {} && s.vorhanden == 0 && s.daten == 0
  }

  // ---------- the steps of consumer i ----------

  function At(s: State, i: nat, pc: ConsumerPc): State
    requires i < |s.consumers|
  {
    s.(consumers := s.consumers[i := s.consumers[i].(pc := pc)])
  }

  /** Consumer i can take its next step without a wake-up of the condition variable. */
  predicate ConsumerReady(s: State, i: nat)
    requires i < |s.consumers|
  {
    match s.consumers[i].pc
    case Start => s.holder == Free
    case Woken => s.holder == Free
    case Waiting => false
    case Finished => false
    case _ => true
  }

  function ConsumerNext(s: State, i: nat): State
    requires i < |s.consumers|
  {
    var c := s.consumers[i];
    match c.pc
    case Start => At(s, i, Head).(holder := Client(i))
    case Head =>
      s.(consumers := s.consumers[i := Consumer(if c.retries - 1 != 0 then Test else Unlock, c.retries - 1)])
    case Test =>
      if s.vorhanden == 0 then At(s, i, Waiting).(holder := Free, waiters := s.waiters + {i}) else At(s, i, Process)
    case Woken => At(s, i, Test).(holder := Client(i))
    case Process => At(s, i, Head).(vorhanden := if s.daten == 0 then 0 else s.vorhanden)
    case Unlock => At(s, i, Finished).(holder := Free)
    case _ => s
  }

  /** Consumers in `woken` leave the wait set. */
  function Wake(s: State, woken: set<nat>): State
  {
    s.(waiters := s.waiters - woken,
       consumers := seq(|s.consumers|, i requires 0 <= i < |s.consumers| =>
         if i in woken then s.consumers[i].(pc := Woken) else s.consumers[i]))
  }

  /** pthread_cond_wait may return although nobody signalled. */
  ghost predicate SpuriousStep(s: State, t: State)
  {
    exists i :: i in s.waiters && t == Wake(s, {i})
  }

  /** pthread_cond_signal wakes at least one waiter if there is one. */
  ghost predicate SignalWakes(s: State, woken: set<nat>)
  {
    woken <= s.waiters && (s.waiters != {} ==> woken != {})
  }

  ghost predicate MainStep(s: State, t: State)
  {
    match s.main
    case Round => t == s.(left := s.left - 1, main := if s.left != 0 then Lock else Join(0))
    case Lock => s.holder == Free && t == s.(holder := Main, main := Count)
    case Count => t == s.(daten := s.daten + 1, main := Announce)
    case Announce => t == s.(vorhanden := 1, main := Signal)
    case Signal => exists woken :: SignalWakes(s, woken) && t == Wake(s, woken).(main := Release)
    case Release => t == s.(holder := Free, main := Round)
    case Join(k) =>
      if k < |s.consumers| then s.consumers[k].pc == Finished && t == s.(main := Join(k + 1)) else t == s.(main := Ended)
    case Ended => false
  }

  /** The steps a scheduler owes the program; a spurious wake-up is not one of them. */
  ghost predicate Progress(s: State, t: State)
  {
    MainStep(s, t) || exists i :: 0 <= i < |s.consumers| && ConsumerReady(s, i) && t == ConsumerNext(s, i)
  }

  ghost predicate Next(s: State, t: State)
  {
    Progress(s, t) || SpuriousStep(s, t)
  }

  // ---------- the invariant ----------

  predicate MainInside(pc: MainPc)
  {
    pc.Count? || pc.Announce? || pc.Signal? || pc.Release?
  }

  predicate Inside(pc: ConsumerPc)
  {
    pc.Head? || pc.Test? || pc.Process? || pc.Unlock?
  }

  /** The mutex is held by the thread whose code lies between lock and unlock. */
  ghost predicate HolderFits(s: State)
  {
    && (s.holder == Main <==> MainInside(s.main))
    && (forall i :: 0 <= i < |s.consumers| ==> (s.holder == Client(i) <==> Inside(s.consumers[i].pc)))
    && (s.holder.Client? ==> s.holder.i < |s.consumers|)
  }

  ghost predicate WaitersFit(s: State)
  {
    && (forall i :: i in s.waiters ==> i < |s.consumers|)
    && (forall i :: 0 <= i < |s.consumers| ==> (i in s.waiters <==> s.consumers[i].pc == Waiting))
  }

  /** The loop over `retries` runs its body exactly once. */
  ghost predicate RetriesFit(c: Consumer)
  {
    match c.pc
    case Start => c.retries == 2
    case Head => 1 <= c.retries <= 2
    case Unlock => c.retries == 0
    case Finished => c.retries == 0
    case _ => c.retries == 1
  }

  /** Rounds whose signal has been sent. */
  function Signalled(s: State): int
  {
    match s.main
    case Round => s.rounds - s.left
    case Release => s.rounds - s.left
    case Join(_) => s.rounds
    case Ended => s.rounds
    case _ => s.rounds - s.left - 1
  }

  /** Rounds whose datum has been counted. */
  function Counted(s: State): int
  {
    Signalled(s) + if s.main.Announce? || s.main.Signal? then 1 else 0
  }

  ghost predicate CountersFit(s: State)
  {
    && 0 <= Signalled(s) <= s.rounds
    && (!s.main.Join? && !s.main.Ended? ==> 0 <= s.left)
    && s.daten == Counted(s)
    && s.vorhanden == (if s.main == Announce then (if s.daten > 1 then 1 else 0) else if s.daten > 0 then 1 else 0)
  }

  /** Once the flag is up nobody starts to wait, and each signal lowers the number of waiters. */
  ghost predicate WaitersShrink(s: State)
  {
    Signalled(s) > 0 ==> s.waiters == {} || |s.waiters| <= |s.consumers| - Signalled(s)
  }

  ghost predicate Inv(s: State)
  {
    && HolderFits(s)
    && WaitersFit(s)
    && (forall i :: 0 <= i < |s.consumers| ==> RetriesFit(s.consumers[i]))
    && (forall i :: 0 <= i < |s.consumers| && s.consumers[i].pc == Process ==> s.vorhanden == 1)
    && CountersFit(s)
    && WaitersShrink(s)
    && (s.main.Join? ==> s.main.k <= |s.consumers| && forall i :: 0 <= i < s.main.k ==> s.consumers[i].pc == Finished)
    && (s.main == Ended ==> forall i :: 0 <= i < |s.consumers| ==> s.consumers[i].pc == Finished)
  }

  lemma WaitersBounded(s: State)
    requires WaitersFit(s)
    ensures |s.waiters| <= |s.consumers|
  {
    Counting.SubsetOfRange(s.waiters, |s.consumers|);
  }

  lemma FewerWaiters(s: State, woken: set<nat>)
    requires SignalWakes(s, woken)
    ensures s.waiters == {} || |s.waiters - woken| < |s.waiters|
  {
    assert |s.waiters - woken| == |s.waiters| - |woken|;
  }

  lemma ConsumerKeepsHolder(s: State, i: nat)
    requires Inv(s) && i < |s.consumers| && ConsumerReady(s, i)
    ensures HolderFits(ConsumerNext(s, i))
  {
  }

  lemma ConsumerKeepsWaiters(s: State, i: nat)
    requires WaitersFit(s) && i < |s.consumers| && ConsumerReady(s, i)
    ensures WaitersFit(ConsumerNext(s, i))
  {
  }

  lemma ConsumerKeepsRetries(s: State, i: nat)
    requires (forall j :: 0 <= j < |s.consumers| ==> RetriesFit(s.consumers[j])) && i < |s.consumers| && ConsumerReady(s, i)
    ensures forall j :: 0 <= j < |s.consumers| ==> RetriesFit(ConsumerNext(s, i).consumers[j])
  {
    assert RetriesFit(s.consumers[i]);
  }

  lemma ConsumerKeepsData(s: State, i: nat)
    requires Inv(s) && i < |s.consumers| && ConsumerReady(s, i)
    ensures CountersFit(ConsumerNext(s, i)) && WaitersShrink(ConsumerNext(s, i))
  {
    var t := ConsumerNext(s, i);
    assert t.main == s.main && t.left == s.left && t.daten == s.daten;
    assert t.vorhanden == s.vorhanden;
  }

  lemma ConsumerKeeps(s: State, i: nat)
    requires Inv(s) && i < |s.consumers| && ConsumerReady(s, i)
    ensures Inv(ConsumerNext(s, i))
  {
    ConsumerKeepsHolder(s, i);
    ConsumerKeepsWaiters(s, i);
    ConsumerKeepsRetries(s, i);
    ConsumerKeepsData(s, i);
  }

  lemma WakeKeepsPlaces(s: State, woken: set<nat>)
    requires Inv(s) && woken <= s.waiters
    ensures HolderFits(Wake(s, woken)) && WaitersFit(Wake(s, woken))
  {
  }

  lemma WakeKeepsData(s: State, woken: set<nat>)
    requires CountersFit(s) && WaitersShrink(s) && woken <= s.waiters
    ensures CountersFit(Wake(s, woken)) && WaitersShrink(Wake(s, woken))
  {
    assert |s.waiters - woken| == |s.waiters| - |woken|;
  }

  lemma WakeKeeps(s: State, woken: set<nat>)
    requires Inv(s) && woken <= s.waiters
    ensures Inv(Wake(s, woken))
  {
    WakeKeepsPlaces(s, woken);
    WakeKeepsData(s, woken);
  }

  lemma SignalKeeps(s: State, woken: set<nat>)
    requires Inv(s) && s.main == Signal && SignalWakes(s, woken)
    ensures Inv(Wake(s, woken).(main := Release))
  {
    WakeKeeps(s, woken);
    var u := Wake(s, woken);
    var t := u.(main := Release);
    assert WaitersShrink(t) by {
      FewerWaiters(s, woken);
      WaitersBounded(s);
    }
    assert HolderFits(t) && WaitersFit(t) && CountersFit(t);
  }

  lemma MainKeepsData(s: State, t: State)
    requires Inv(s) && MainStep(s, t) && s.main != Signal
    ensures t.consumers == s.consumers && t.waiters == s.waiters
    ensures CountersFit(t) && WaitersShrink(t)
  {
  }

  lemma MainKeeps(s: State, t: State)
    requires Inv(s) && MainStep(s, t)
    ensures Inv(t)
  {
    if s.main == Signal {
      var woken :| SignalWakes(s, woken) && t == Wake(s, woken).(main := Release);
      SignalKeeps(s, woken);
    } else {
      MainKeepsData(s, t);
      assert HolderFits(t);
    }
  }

  lemma NextKeeps(s: State, t: State)
    requires Inv(s) && Next(s, t)
    ensures Inv(t)
  {
    if MainStep(s, t) {
      MainKeeps(s, t);
    } else if Progress(s, t) {
      var i :| 0 <= i < |s.consumers| && ConsumerReady(s, i) && t == ConsumerNext(s, i);
      ConsumerKeeps(s, i);
    } else {
      var i :| i in s.waiters && t == Wake(s, {i});
      WakeKeeps(s, {i});
    }
  }

  lemma ReachableInv(s: State)
    requires Runs.Reachable(Init, Next, s)
    ensures Inv(s)
  {
    forall s | Init(s) ensures Inv(s) {}
    forall s, t | Inv(s) && Next(s, t) ensures Inv(t) { NextKeeps(s, t); }
    Runs.InvariantOfReachable(Init, Next, Inv, s);
  }

  // ---------- what holds in every reachable state ----------

  /** Whenever nobody holds the mutex the flag says whether data have been counted. */
  lemma FlagTellsData(s: State)
    requires Runs.Reachable(Init, Next, s) && s.holder == Free
    ensures s.vorhanden == 1 <==> s.daten > 0
    ensures s.vorhanden == 0 <==> s.daten == 0
  {
    ReachableInv(s);
  }

  /** A consumer that inspects the data always finds some: the branch that lowers the flag is never taken. */
  lemma ResetNeverHappens(s: State, i: nat)
    requires Runs.Reachable(Init, Next, s)
    requires i < |s.consumers| && s.consumers[i].pc == Process
    ensures s.daten != 0 && ConsumerNext(s, i).vorhanden == 1
  {
    ReachableInv(s);
  }

  /** In any state that step lowers a raised flag exactly if no data are there. */
  lemma ResetExactlyWhenEmpty(s: State, i: nat)
    requires i < |s.consumers| && s.consumers[i].pc == Process && s.vorhanden == 1
    ensures ConsumerNext(s, i).vorhanden == 0 <==> s.daten == 0
    ensures s.daten != 0 ==> ConsumerNext(s, i).vorhanden == 1
  {
  }

  /** Nobody else is between lock and unlock while consumer i is. */
  lemma MutualExclusion(s: State, i: nat, j: nat)
    requires Runs.Reachable(Init, Next, s)
    requires i < |s.consumers| && j < |s.consumers| && Inside(s.consumers[i].pc)
    ensures !MainInside(s.main)
    ensures Inside(s.consumers[j].pc) ==> i == j
  {
    ReachableInv(s);
  }

  // ---------- progress ----------

  /** The program has not ended and no thread can take a step. */
  ghost predicate Stuck(s: State)
  {
    s.main != Ended && forall t :: !Progress(s, t)
  }

  lemma ConsumerMoves(s: State, i: nat)
    requires i < |s.consumers| && ConsumerReady(s, i)
    ensures !Stuck(s)
  {
    assert Progress(s, ConsumerNext(s, i));
  }

  lemma MainMoves(s: State)
    requires s.main != Ended
    requires s.main == Lock ==> s.holder == Free
    requires s.main.Join? && s.main.k < |s.consumers| ==> s.consumers[s.main.k].pc == Finished
    ensures !Stuck(s)
  {
    var t := match s.main
      case Round => s.(left := s.left - 1, main := if s.left != 0 then Lock else Join(0))
      case Lock => s.(holder := Main, main := Count)
      case Count => s.(daten := s.daten + 1, main := Announce)
      case Announce => s.(vorhanden := 1, main := Signal)
      case Signal => Wake(s, s.waiters).(main := Release)
      case Release => s.(holder := Free, main := Round)
      case Join(k) => s.(main := if k < |s.consumers| then Join(k + 1) else Ended)
      case Ended => s;
    if s.main == Signal {
      assert SignalWakes(s, s.waiters);
    }
    assert MainStep(s, t);
    assert Progress(s, t);
  }

  /** With at least as many rounds as consumers the program always gets on, spurious wake-ups or not. */
  lemma NeverStuck(s: State)
    requires Runs.Reachable(Init, Next, s)
    requires s.rounds >= |s.consumers|
    ensures !Stuck(s)
  {
    ReachableInv(s);
    if s.holder.Client? {
      ConsumerMoves(s, s.holder.i);
    } else if s.main.Join? && s.main.k < |s.consumers| && s.consumers[s.main.k].pc != Finished {
      var k := s.main.k;
      assert s.waiters == {};
      ConsumerMoves(s, k);
    } else if s.main != Ended {
      MainMoves(s);
    }
  }

  // ---------- termination ----------

  /** Steps a consumer has before it at most, if it is not woken for nothing. */
  function Ahead(vorhanden: int): Consumer -> nat
  {
    (c: Consumer) => match c.pc
      case Start => 10
      case Head => if c.retries == 2 then 9 else 2
      case Woken => if vorhanden == 0 then 8 else 5
      case Test => if vorhanden == 0 then 7 else 4
      case Waiting => 6
      case Process => 3
      case Unlock => 1
      case Finished => 0
  }

  function MainAhead(s: State): nat
  {
    var left := if s.left > 0 then 6 * s.left else 0;
    var joins := |s.consumers| + 3;
    match s.main
    case Round => left + joins
    case Lock => left + joins + 5
    case Count => left + joins + 4
    case Announce => left + joins + 3
    case Signal => left + joins + 2
    case Release => left + joins + 1
    case Join(k) => if k <= |s.consumers| then |s.consumers| - k + 1 else 1
    case Ended => 0
  }

  function Work(s: State): nat
  {
    Counting.Sum(s.consumers, Ahead(s.vorhanden)) + MainAhead(s)
  }

  lemma ConsumerLowersWork(s: State, i: nat)
    requires Inv(s) && i < |s.consumers| && ConsumerReady(s, i)
    ensures Work(ConsumerNext(s, i)) < Work(s)
  {
    var t := ConsumerNext(s, i);
    assert RetriesFit(s.consumers[i]);
    assert t.vorhanden == s.vorhanden;
    Counting.SumUpdate(s.consumers, Ahead(s.vorhanden), i, t.consumers[i]);
    assert t.consumers == s.consumers[i := t.consumers[i]];
    assert MainAhead(t) == MainAhead(s);
    assert Ahead(s.vorhanden)(t.consumers[i]) < Ahead(s.vorhanden)(s.consumers[i]);
  }

  /** Raising the flag and waking waiters take no consumer back. */
  lemma ConsumersNotBack(s: State, t: State)
    requires Inv(s) && |t.consumers| == |s.consumers| && t.vorhanden == (if s.main == Announce then 1 else s.vorhanden)
    requires forall i :: 0 <= i < |s.consumers| ==>
               || t.consumers[i] == s.consumers[i]
               || (s.main == Signal && s.consumers[i].pc == Waiting && t.consumers[i] == s.consumers[i].(pc := Woken))
    ensures Counting.Sum(t.consumers, Ahead(t.vorhanden)) <= Counting.Sum(s.consumers, Ahead(s.vorhanden))
  {
    Counting.SumAtMost(t.consumers, Ahead(t.vorhanden), s.consumers, Ahead(s.vorhanden));
  }

  lemma MainGoesOn(s: State, t: State)
    requires Inv(s) && MainStep(s, t)
    ensures |t.consumers| == |s.consumers| && MainAhead(t) < MainAhead(s)
  {
  }

  lemma MainLowersWork(s: State, t: State)
    requires Inv(s) && MainStep(s, t)
    ensures Work(t) < Work(s)
  {
    MainGoesOn(s, t);
    ConsumersNotBack(s, t);
  }

  lemma ProgressLowersWork(s: State, t: State)
    requires Runs.Reachable(Init, Next, s) && Progress(s, t)
    ensures Work(t) < Work(s) && |t.consumers| == |s.consumers| && t.rounds == s.rounds
  {
    ReachableInv(s);
    if MainStep(s, t) {
      MainLowersWork(s, t);
    } else {
      var i :| 0 <= i < |s.consumers| && ConsumerReady(s, i) && t == ConsumerNext(s, i);
      ConsumerLowersWork(s, i);
    }
  }

  /**
   Every run without spurious wake-ups is finite, wherever it starts, and with at least as many rounds as
   consumers it ends with all of them finished.
   */
  lemma EveryRunEnds(run: seq<State>)
    requires Runs.IsRun(s => Runs.Reachable(Init, Next, s), Progress, run)
    ensures |run| <= Work(run[0]) + 1
    ensures Init(run[0]) ==> |run| <= 11 * |run[0].consumers| + 6 * run[0].rounds + 4
    ensures var last := run[|run| - 1];
            last.rounds >= |last.consumers| && (forall t :: !Progress(last, t)) ==>
              && last.main == Ended && last.daten == last.rounds
              && forall i :: 0 <= i < |last.consumers| ==> last.consumers[i].pc == Finished
  {
    var start := s => Runs.Reachable(Init, Next, s);
    forall s, t | start(s) && Progress(s, t)
      ensures start(t) && Work(t) < Work(s)
    {
      ProgressLowersWork(s, t);
      Runs.Extend(Init, Next, s, t);
    }
    Runs.Bounded(start, Progress, start, Work, run);
    Runs.Invariance(start, Progress, start, run);
    Counting.SumBounded(run[0].consumers, Ahead(run[0].vorhanden), 10);
    var last := run[|run| - 1];
    assert start(last);
    ReachableInv(last);
    if last.rounds >= |last.consumers| {
      NeverStuck(last);
    }
  }

  // ---------- fewer rounds than consumers: a run that gets stuck ----------

  function Range(lo: nat, hi: nat): (r: set<nat>)
    ensures forall j :: j in r <==> lo <= j < hi
    decreases hi - lo
  {
    if lo >= hi then {} else {lo} + Range(lo + 1, hi)
  }

  function Phase(n: nat, waitFrom: nat, waitTo: nat): seq<Consumer>
  {
    seq(n, j => if j < waitFrom then Consumer(Finished, 0)
                else if j < waitTo then Consumer(Waiting, 1)
                else Consumer(Start, 2))
  }

  /** The first k consumers have started to wait before the first round. */
  function Gathered(n: nat, m: nat, k: nat): State
  {
    State(Phase(n, 0, k), Round, m, m, Free, Range(0, k), 0, 0)
  }

  /** k rounds are over and have served the first k consumers; the others still wait. */
  function Served(n: nat, m: nat, k: nat): State
  {
    State(Phase(n, k, n), Round, m - k, m, Free, Range(k, n), if k > 0 then 1 else 0, k)
  }

  /** All m rounds are over and the main thread is about to join consumer k. */
  function Joining(n: nat, m: nat, k: nat): State
  {
    Served(n, m, m).(left := -1, main := Join(k))
  }

  lemma StepReachable(s: State, t: State)
    requires Runs.Reachable(Init, Next, s) && Progress(s, t)
    ensures Runs.Reachable(Init, Next, t)
  {
    Runs.Extend(Init, Next, s, t);
  }

  lemma ConsumerReaches(s: State, i: nat)
    requires Runs.Reachable(Init, Next, s) && i < |s.consumers| && ConsumerReady(s, i)
    ensures Runs.Reachable(Init, Next, ConsumerNext(s, i))
  {
    StepReachable(s, ConsumerNext(s, i));
  }

  lemma {:induction false} GatheredReachable(n: nat, m: nat, k: nat)
    requires k <= n
    ensures Runs.Reachable(Init, Next, Gathered(n, m, k))
  {
    if k == 0 {
      Runs.InitReachable(Init, Next, Gathered(n, m, 0));
    } else {
      GatheredReachable(n, m, k - 1);
      var s0 := Gathered(n, m, k - 1);
      ConsumerReaches(s0, k - 1);
      var s1 := ConsumerNext(s0, k - 1);
      ConsumerReaches(s1, k - 1);
      var s2 := ConsumerNext(s1, k - 1);
      ConsumerReaches(s2, k - 1);
      var s3 := ConsumerNext(s2, k - 1);
      assert s3.consumers == Phase(n, 0, k);
      assert s3.waiters == Range(0, k);
      assert s3 == Gathered(n, m, k);
    }
  }

  /** The main thread's part of round k, waking consumer k. */
  lemma RoundSignals(n: nat, m: nat, k: nat) returns (t: State)
    requires k < m < n && Runs.Reachable(Init, Next, Served(n, m, k))
    ensures Runs.Reachable(Init, Next, t)
    ensures t == Served(n, m, k).(consumers := Phase(n, k, n)[k := Consumer(Woken, 1)], left := m - k - 1,
                                  waiters := Range(k + 1, n), vorhanden := 1, daten := k + 1)
  {
    var s := Served(n, m, k);
    var s1 := s.(left := s.left - 1, main := Lock);
    StepReachable(s, s1);
    var s2 := s1.(holder := Main, main := Count);
    StepReachable(s1, s2);
    var s3 := s2.(daten := k + 1, main := Announce);
    StepReachable(s2, s3);
    var s4 := s3.(vorhanden := 1, main := Signal);
    StepReachable(s3, s4);
    var s5 := Wake(s4, {k}).(main := Release);
    assert SignalWakes(s4, {k});
    StepReachable(s4, s5);
    assert s5.consumers == Phase(n, k, n)[k := Consumer(Woken, 1)];
    assert s5.waiters == Range(k + 1, n);
    t := s5.(holder := Free, main := Round);
    StepReachable(s5, t);
  }

  /** The woken consumer runs to its end. */
  lemma WokenFinishes(s: State, i: nat) returns (t: State)
    requires Runs.Reachable(Init, Next, s) && s.holder == Free
    requires i < |s.consumers| && s.consumers[i] == Consumer(Woken, 1) && s.vorhanden == 1 && s.daten > 0
    ensures Runs.Reachable(Init, Next, t)
    ensures t == s.(consumers := s.consumers[i := Consumer(Finished, 0)])
  {
    ConsumerReaches(s, i);
    var s1 := ConsumerNext(s, i);
    ConsumerReaches(s1, i);
    var s2 := ConsumerNext(s1, i);
    ConsumerReaches(s2, i);
    var s3 := ConsumerNext(s2, i);
    ConsumerReaches(s3, i);
    var s4 := ConsumerNext(s3, i);
    ConsumerReaches(s4, i);
    t := ConsumerNext(s4, i);
    assert t.consumers == s.consumers[i := Consumer(Finished, 0)];
  }

  lemma {:induction false} ServedReachable(n: nat, m: nat, k: nat)
    requires k <= m < n
    ensures Runs.Reachable(Init, Next, Served(n, m, k))
  {
    if k == 0 {
      GatheredReachable(n, m, n);
      assert Gathered(n, m, n).waiters == Served(n, m, 0).waiters;
      assert Gathered(n, m, n) == Served(n, m, 0);
    } else {
      ServedReachable(n, m, k - 1);
      var s := RoundSignals(n, m, k - 1);
      var t := WokenFinishes(s, k - 1);
      assert t.consumers == Phase(n, k, n);
      assert t.waiters == Served(n, m, k).waiters;
      assert t == Served(n, m, k);
    }
  }

  lemma {:induction false} JoiningReachable(n: nat, m: nat, k: nat)
    requires k <= m < n
    ensures Runs.Reachable(Init, Next, Joining(n, m, k))
  {
    if k == 0 {
      ServedReachable(n, m, m);
      StepReachable(Served(n, m, m), Joining(n, m, 0));
    } else {
      JoiningReachable(n, m, k - 1);
      StepReachable(Joining(n, m, k - 1), Joining(n, m, k));
    }
  }

  lemma JoiningStuck(n: nat, m: nat)
    requires m < n
    ensures Stuck(Joining(n, m, m))
  {
    var s := Joining(n, m, m);
    forall i | 0 <= i < n
      ensures !ConsumerReady(s, i)
    {
      assert s.consumers[i].pc == Finished || s.consumers[i].pc == Waiting;
    }
  }

  /** The condition on the caller's two constants under which no run of any length gets stuck. */
  lemma NeverStuckExactlyWhen(n: nat, m: nat)
    ensures m >= n <==>
            forall s :: Runs.Reachable(Init, Next, s) && |s.consumers| == n && s.rounds == m ==> !Stuck(s)
  {
    if m >= n {
      forall s | Runs.Reachable(Init, Next, s) && |s.consumers| == n && s.rounds == m
        ensures !Stuck(s)
      {
        NeverStuck(s);
      }
    } else {
      JoiningReachable(n, m, m);
      JoiningStuck(n, m);
      assert |Joining(n, m, m).consumers| == n;
    }
  }

  // ---------- every consumer processes the data once ----------

  /** The consumer has processed the data: it is at the second test of its loop, or behind the loop. */
  function Beyond(c: Consumer): nat
  {
    if (c.pc == Head && c.retries == 1) || c.pc == Unlock || c.pc == Finished then 1 else 0
  }

  /** How often consumer i has processed the data in the first k steps of a run. */
  function Processed(run: seq<State>, i: nat, k: nat): nat
    requires k < |run| && forall j :: 0 <= j <= k ==> i < |run[j].consumers|
  {
    if k == 0 then 0
    else
      var c, d := run[k - 1].consumers[i], run[k].consumers[i];
      Processed(run, i, k - 1) + if c.pc == Process && d.pc != Process then 1 else 0
  }

  lemma WakesConsumer(s: State, woken: set<nat>, i: nat)
    requires WaitersFit(s) && woken <= s.waiters && i < |s.consumers|
    ensures Beyond(Wake(s, woken).consumers[i]) == Beyond(s.consumers[i])
    ensures s.consumers[i].pc == Process ==> Wake(s, woken).consumers[i].pc == Process
  {
  }

  lemma ConsumerProcesses(s: State, j: nat, i: nat)
    requires i < |s.consumers| && j < |s.consumers| && RetriesFit(s.consumers[i]) && ConsumerReady(s, j)
    ensures var t := ConsumerNext(s, j);
            && |t.consumers| == |s.consumers| && (j != i ==> t.consumers[i] == s.consumers[i])
            && Beyond(t.consumers[i]) == Beyond(s.consumers[i]) + (if j == i && s.consumers[i].pc == Process then 1 else 0)
            && (j == i ==> t.consumers[i].pc != s.consumers[i].pc)
  {
  }

  /** A consumer gets beyond the processing by exactly this step. */
  lemma StepProcesses(s: State, t: State, i: nat)
    requires Inv(s) && Next(s, t) && i < |s.consumers|
    ensures |t.consumers| == |s.consumers|
    ensures var c, d := s.consumers[i], t.consumers[i];
            Beyond(d) == Beyond(c) + if c.pc == Process && d.pc != Process then 1 else 0
  {
    assert RetriesFit(s.consumers[i]);
    if MainStep(s, t) {
      if s.main == Signal {
        var woken :| SignalWakes(s, woken) && t == Wake(s, woken).(main := Release);
        WakesConsumer(s, woken, i);
      } else {
        assert t.consumers == s.consumers;
      }
    } else if Progress(s, t) {
      var j :| 0 <= j < |s.consumers| && ConsumerReady(s, j) && t == ConsumerNext(s, j);
      ConsumerProcesses(s, j, i);
    } else {
      var j :| j in s.waiters && t == Wake(s, {j});
      WakesConsumer(s, {j}, i);
    }
  }

  lemma RunInv(run: seq<State>)
    requires Runs.IsRun(Init, Next, run)
    ensures forall k :: 0 <= k < |run| ==> Inv(run[k])
  {
    forall s | Init(s) ensures Inv(s) {}
    forall s, t | Inv(s) && Next(s, t) ensures Inv(t) { NextKeeps(s, t); }
    Runs.Invariance(Init, Next, Inv, run);
  }

  lemma {:induction false} ProcessedIsBeyond(run: seq<State>, i: nat, k: nat)
    requires Runs.IsRun(Init, Next, run) && k < |run| && i < |run[0].consumers|
    ensures forall j :: 0 <= j <= k ==> i < |run[j].consumers|
    ensures Processed(run, i, k) == Beyond(run[k].consumers[i])
  {
    if k > 0 {
      ProcessedIsBeyond(run, i, k - 1);
      RunInv(run);
      StepProcesses(run[k - 1], run[k], i);
    }
  }

  lemma {:induction false} ProcessedSomewhere(run: seq<State>, i: nat, k: nat) returns (j: nat)
    requires k < |run| && (forall j :: 0 <= j <= k ==> i < |run[j].consumers|) && Processed(run, i, k) > 0
    ensures j < k && run[j].consumers[i].pc == Process
  {
    if run[k - 1].consumers[i].pc == Process {
      j := k - 1;
    } else {
      j := ProcessedSomewhere(run, i, k - 1);
    }
  }

  /**
   In every run, spurious wake-ups included, a consumer that has finished has processed the data exactly
   once, at a moment when some were there.
   */
  lemma FinishedHasProcessed(run: seq<State>, i: nat, k: nat) returns (j: nat)
    requires Runs.IsRun(Init, Next, run) && k < |run| && i < |run[0].consumers|
    requires i < |run[k].consumers| && run[k].consumers[i].pc == Finished
    ensures forall j :: 0 <= j <= k ==> i < |run[j].consumers|
    ensures Processed(run, i, k) == 1
    ensures j < k && run[j].consumers[i].pc == Process && run[j].daten > 0 && run[j].vorhanden == 1
  {
    ProcessedIsBeyond(run, i, k);
    j := ProcessedSomewhere(run, i, k);
    RunInv(run);
    assert Inv(run[j]);
  }

  /** With m >= n there is a run to the end: everybody has finished and all rounds have been counted. */
  lemma SomeRunEnds(n: nat, m: nat) returns (s: State)
    requires m >= n
    ensures Runs.Reachable(Init, Next, s) && |s.consumers| == n && s.rounds == m && s.main == Ended && s.daten == m
    ensures forall i :: 0 <= i < n ==> s.consumers[i].pc == Finished
  {
    var s0 := State(seq(n, _ => Consumer(Start, 2)), Round, m, m, Free, {}, 0, 0);
    Runs.InitReachable(Init, Next, s0);
    var inv := (s: State) => Runs.Reachable(Init, Next, s) && |s.consumers| == n && s.rounds == m;
    var goal := (s: State) => s.main == Ended;
    forall s | inv(s) && !goal(s)
      ensures exists t :: Progress(s, t)
    {
      NeverStuck(s);
    }
    forall s, t | inv(s) && Progress(s, t)
      ensures inv(t) && Work(t) < Work(s)
    {
      ProgressLowersWork(s, t);
      Runs.Extend(Init, Next, s, t);
    }
    s := Runs.Completes(Progress, inv, goal, Work, s0);
    ReachableInv(s);
  }

  // ---------- spurious wake-ups ----------

  /**
   As long as no data have been announced, a waiter may be woken for nothing when the mutex is free; it then
   finds the flag down and waits again, and everything is as before.
   */
  lemma SpuriousWakeUp(s: State, i: nat) returns (t: State)
    requires Runs.Reachable(Init, Next, s) && i in s.waiters && s.holder == Free && s.vorhanden == 0
    ensures i < |s.consumers| && Next(s, t) && i < |t.consumers| && t.consumers[i].pc == Woken
    ensures Runs.Later(Progress, t, s)
  {
    ReachableInv(s);
    t := Wake(s, {i});
    assert SpuriousStep(s, t);
    assert t.consumers[i].pc == Woken && s.consumers[i].pc == Waiting;
    Runs.Here(Progress, t);
    var u := ConsumerNext(t, i);
    assert Progress(t, u);
    Runs.Go(Progress, t, t, u);
    var v := ConsumerNext(u, i);
    assert Progress(u, v);
    Runs.Go(Progress, t, u, v);
    assert v.consumers == s.consumers && v.waiters == s.waiters;
  }
}
