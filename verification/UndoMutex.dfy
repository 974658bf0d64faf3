/**
 The critical section of `sem.c`: any number of processes look up one System V semaphore, the first to
 arrive creates it and sets it to 1, and every operation is undone by the kernel when its process dies.
 */
module UndoMutex {
  import Runs
  import Counting

  /** The next call of a process. */
  datatype Pc = Probe | Create | SetValue | Acquire | Critical | Leave | Gone

  /** A process with the kernel's undo amount (semadj) for it. */
  datatype Process = Process(pc: Pc, undo: int)

  /** `created` and `value` describe the kernel's semaphore; `setvals` counts the calls of SETVAL. */
  datatype State = State(processes: seq<Process>, created: bool, value: int, setvals: nat)

  ghost predicate Init(s: State)
  {
    && (forall i :: 0 <= i < |s.processes| ==> s.processes[i] == Process(Probe, 0))
    && !s.created && s.value == 0 && s.setvals == 0
  }

  function Go(s: State, i: nat, pc: Pc): State
    requires i < |s.processes|
  {
    s.(processes := s.processes[i := s.processes[i].(pc := pc)])
  }

  /** semop with SEM_UNDO: the kernel adds `op` and remembers its opposite. */
  function Operate(s: State, i: nat, op: int): State
    requires i < |s.processes|
  {
    s.(value := s.value + op, processes := s.processes[i := s.processes[i].(undo := s.processes[i].undo - op)])
  }

  /** Process i ends, by exit or by a crash, and the kernel applies its undo amount. */
  function End(s: State, i: nat): State
    requires i < |s.processes|
  {
    s.(value := s.value + s.processes[i].undo, processes := s.processes[i := Process(Gone, 0)])
  }

  /** Linux clears every undo amount of a semaphore that SETVAL writes. */
  function SetVal(s: State, v: int): State
  {
    s.(value := v, setvals := s.setvals + 1,
       processes := seq(|s.processes|, j requires 0 <= j < |s.processes| => s.processes[j].(undo := 0)))
  }

  /** Process i is not blocked: only `semop` with LOCK can block, while the value is below 1. */
  predicate Ready(s: State, i: nat)
    requires i < |s.processes|
  {
    s.processes[i].pc != Gone && (s.processes[i].pc == Acquire ==> s.value >= 1)
  }

  function Step(s: State, i: nat): State
    requires i < |s.processes|
  {
    match s.processes[i].pc
    case Probe => Go(s, i, if s.created then Acquire else Create)
    case Create =>
      if s.created then End(s, i)   // IPC_EXCL: somebody else was faster
      else Go(s, i, SetValue).(created := true, value := 0)
    case SetValue => Go(SetVal(s, 1), i, Acquire)
    case Acquire => Go(Operate(s, i, -1), i, Critical)
    case Critical => Go(Operate(s, i, 1), i, Leave)
    case Leave => End(s, i)
    case Gone => s
  }

  ghost predicate Progress(s: State, t: State)
  {
    exists i :: 0 <= i < |s.processes| && Ready(s, i) && t == Step(s, i)
  }

  /** A process may die at any point. */
  ghost predicate Dies(s: State, t: State)
  {
    exists i :: 0 <= i < |s.processes| && s.processes[i].pc != Gone && t == End(s, i)
  }

  ghost predicate Next(s: State, t: State)
  {
    Progress(s, t) || Dies(s, t)
  }

  // ---------- the invariant ----------

  function Holds(p: Process): nat
  {
    if p.pc == Critical then 1 else 0
  }

  function Creating(p: Process): nat
  {
    if p.pc == SetValue then 1 else 0
  }

  function Holders(s: State): nat
  {
    Counting.Sum(s.processes, Holds)
  }

  function Creators(s: State): nat
  {
    Counting.Sum(s.processes, Creating)
  }

  ghost predicate Inv(s: State)
  {
    && (forall i :: 0 <= i < |s.processes| ==> s.processes[i].undo == Holds(s.processes[i]))
    && s.setvals + Creators(s) <= (if s.created then 1 else 0)
    && 0 <= s.value && s.value + Holders(s) == s.setvals
    && (!s.created ==> forall i :: 0 <= i < |s.processes| ==>
          s.processes[i].pc == Probe || s.processes[i].pc == Create || s.processes[i].pc == Gone)
  }

  /** How replacing one process changes the two counts. */
  lemma Counts(ps: seq<Process>, i: nat, p: Process)
    requires i < |ps|
    ensures Counting.Sum(ps[i := p], Holds) == Counting.Sum(ps, Holds) - Holds(ps[i]) + Holds(p)
    ensures Counting.Sum(ps[i := p], Creating) == Counting.Sum(ps, Creating) - Creating(ps[i]) + Creating(p)
    ensures Holds(ps[i]) <= Counting.Sum(ps, Holds) && Creating(ps[i]) <= Counting.Sum(ps, Creating)
  {
    Counting.SumUpdate(ps, Holds, i, p);
    Counting.SumUpdate(ps, Creating, i, p);
    Counting.SumCovers(ps, Holds, i);
    Counting.SumCovers(ps, Creating, i);
  }

  lemma EndKeeps(s: State, i: nat)
    requires Inv(s) && i < |s.processes|
    ensures Inv(End(s, i))
  {
    Counts(s.processes, i, Process(Gone, 0));
  }

  /** SETVAL finds no process inside, so clearing the undo amounts changes nothing. */
  lemma SetValFindsNobody(s: State, i: nat)
    requires Inv(s) && i < |s.processes| && s.processes[i].pc == SetValue
    ensures Holders(s) == 0 && s.value == 0 && s.setvals == 0
    ensures SetVal(s, 1).processes == s.processes
  {
    Counting.SumCovers(s.processes, Creating, i);
    Counting.SumZero(s.processes, Holds);
  }

  /** Both operations on the semaphore replace the process and move one unit between it and the value. */
  lemma OperateKeeps(s: State, i: nat)
    requires Inv(s) && i < |s.processes| && Ready(s, i)
    requires s.processes[i].pc == Acquire || s.processes[i].pc == Critical
    ensures Inv(Step(s, i))
  {
    var p := if s.processes[i].pc == Acquire then Process(Critical, 1) else Process(Leave, 0);
    Counts(s.processes, i, p);
    assert Step(s, i).processes == s.processes[i := p];
  }

  lemma StepKeeps(s: State, i: nat)
    requires Inv(s) && i < |s.processes| && Ready(s, i)
    ensures Inv(Step(s, i))
  {
    var p := s.processes[i];
    match p.pc
    case SetValue =>
      SetValFindsNobody(s, i);
      Counts(s.processes, i, Process(Acquire, 0));
    case Create =>
      if s.created {
        EndKeeps(s, i);
      } else {
        Counts(s.processes, i, Process(SetValue, 0));
        Counting.SumZero(s.processes, Creating);
      }
    case Acquire => OperateKeeps(s, i);
    case Critical => OperateKeeps(s, i);
    case Leave => EndKeeps(s, i);
    case Probe => Counts(s.processes, i, Process(if s.created then Acquire else Create, 0));
  }

  lemma ReachableInv(s: State)
    requires Runs.Reachable(Init, Next, s)
    ensures Inv(s)
  {
    forall s | Init(s)
      ensures Inv(s)
    {
      Counting.SumZero(s.processes, Holds);
      Counting.SumZero(s.processes, Creating);
    }
    forall s, t | Inv(s) && Next(s, t)
      ensures Inv(t)
    {
      if Progress(s, t) {
        var i :| 0 <= i < |s.processes| && Ready(s, i) && t == Step(s, i);
        StepKeeps(s, i);
      } else {
        var i :| 0 <= i < |s.processes| && s.processes[i].pc != Gone && t == End(s, i);
        EndKeeps(s, i);
      }
    }
    Runs.InvariantOfReachable(Init, Next, Inv, s);
  }

  // ---------- safety ----------

  /** At most one process is in the critical section, whichever processes died and whenever they did. */
  lemma MutualExclusion(s: State, i: nat, j: nat)
    requires Runs.Reachable(Init, Next, s)
    requires i < j < |s.processes|
    ensures !(s.processes[i].pc == Critical && s.processes[j].pc == Critical)
  {
    ReachableInv(s);
    Counting.SumCoversTwo(s.processes, Holds, i, j);
  }

  /**
   The value and the holders add up to 0 before SETVAL and to 1 after it, SETVAL happens at most once and
   only while nobody is inside, and exactly the holder's death would raise the value again.
   */
  lemma ValueAndHolders(s: State)
    requires Runs.Reachable(Init, Next, s)
    ensures s.setvals <= 1 && 0 <= s.value && s.value + Holders(s) == s.setvals
    ensures forall i :: 0 <= i < |s.processes| ==>
              s.processes[i].undo == (if s.processes[i].pc == Critical then 1 else 0)
    ensures forall i :: 0 <= i < |s.processes| && s.processes[i].pc == SetValue ==>
              s.setvals == 0 && forall j :: 0 <= j < |s.processes| ==> s.processes[j].pc != Critical
  {
    ReachableInv(s);
    forall i, j | 0 <= i < |s.processes| && s.processes[i].pc == SetValue && 0 <= j < |s.processes|
      ensures s.setvals == 0 && s.processes[j].pc != Critical
    {
      SetValFindsNobody(s, i);
      Counting.SumCovers(s.processes, Holds, j);
    }
  }

  /** The steps a process has before it at most. */
  function Ahead(p: Process): nat
  {
    match p.pc
    case Probe => 6
    case Create => 5
    case SetValue => 4
    case Acquire => 3
    case Critical => 2
    case Leave => 1
    case Gone => 0
  }

  /** A step replaces the process that takes it by one that is further on. */
  lemma StepGoesOn(s: State, i: nat)
    requires Inv(s) && i < |s.processes| && Ready(s, i)
    ensures |Step(s, i).processes| == |s.processes|
    ensures Step(s, i).processes == s.processes[i := Step(s, i).processes[i]]
    ensures Ahead(Step(s, i).processes[i]) < Ahead(s.processes[i])
  {
    if s.processes[i].pc == SetValue {
      SetValFindsNobody(s, i);
    }
  }

  // ---------- the way of a process ----------

  /** Process i has stood at pc in one of the first k + 1 states of the run, in the case of Probe with the semaphore there. */
  ghost predicate Was(run: seq<State>, k: nat, i: nat, pc: Pc)
  {
    exists j :: 0 <= j <= k < |run| && i < |run[j].processes| && run[j].processes[i].pc == pc && (pc == Probe ==> run[j].created)
  }

  /** A step moves a process on by one place of its way, or ends it. */
  lemma NextMoves(s: State, t: State, i: nat)
    requires Inv(s) && Next(s, t) && i < |s.processes|
    ensures |t.processes| == |s.processes|
    ensures var p, q := s.processes[i].pc, t.processes[i].pc;
            || q == p || q == Gone
            || (p == Probe && q == if s.created then Acquire else Create) || (p == Create && q == SetValue && !s.created)
            || (p == SetValue && q == Acquire) || (p == Acquire && q == Critical) || (p == Critical && q == Leave)
  {
    if Progress(s, t) {
      var j :| 0 <= j < |s.processes| && Ready(s, j) && t == Step(s, j);
      StepGoesOn(s, j);
    } else {
      var j :| 0 <= j < |s.processes| && s.processes[j].pc != Gone && t == End(s, j);
    }
  }

  lemma NextSize(s: State, t: State)
    requires Next(s, t)
    ensures |t.processes| == |s.processes|
  {
  }

  lemma WasStays(run: seq<State>, k: nat, i: nat)
    requires k + 1 < |run|
    ensures forall pc :: Was(run, k, i, pc) ==> Was(run, k + 1, i, pc)
  {
    forall pc | Was(run, k, i, pc)
      ensures Was(run, k + 1, i, pc)
    {
      var j :| 0 <= j <= k < |run| && i < |run[j].processes| && run[j].processes[i].pc == pc && (pc == Probe ==> run[j].created);
      assert 0 <= j <= k + 1;
    }
  }

  lemma RunInv(run: seq<State>, k: nat)
    requires Runs.IsRun(Init, Next, run) && k < |run|
    ensures Inv(run[k])
  {
    var before := run[..k + 1];
    assert Runs.IsRun(Init, Next, before) && before[|before| - 1] == run[k];
    assert Runs.Reachable(Init, Next, run[k]);
    ReachableInv(run[k]);
  }

  /**
   In every run a process that is past the critical section has been in it, and one that operates on the
   semaphore has found it there or has set it itself.
   */
  lemma {:induction false} WayOfProcess(run: seq<State>, k: nat, i: nat)
    requires Runs.IsRun(Init, Next, run) && k < |run| && i < |run[k].processes|
    ensures run[k].processes[i].pc == Leave ==> Was(run, k, i, Critical)
    ensures run[k].processes[i].pc in {Acquire, Critical, Leave} ==> Was(run, k, i, Probe) || Was(run, k, i, SetValue)
  {
    if k > 0 {
      var s, t := run[k - 1], run[k];
      RunInv(run, k - 1);
      assert Next(s, t);
      NextSize(s, t);
      NextMoves(s, t, i);
      WayOfProcess(run, k - 1, i);
      WasStays(run, k - 1, i);
      var p, q := s.processes[i].pc, t.processes[i].pc;
      if q == Leave && p == Critical {
        assert Was(run, k, i, Critical);
      } else if q == Acquire && p == Probe {
        assert Was(run, k, i, Probe);
      } else if q == Acquire && p == SetValue {
        assert Was(run, k, i, SetValue);
      }
    }
  }

  // ---------- progress ----------

  /** Some process is still there, and none of them can go on unless one dies. */
  ghost predicate Stuck(s: State)
  {
    && (exists i :: 0 <= i < |s.processes| && s.processes[i].pc != Gone)
    && forall t :: !Progress(s, t)
  }

  predicate AllBlocked(s: State)
  {
    forall i :: 0 <= i < |s.processes| ==> s.processes[i].pc == Acquire || s.processes[i].pc == Gone
  }

  /** The semaphore exists, has never been set, and nobody is about to set it. */
  ghost predicate Orphaned(s: State)
  {
    s.created && s.setvals == 0 && Creators(s) == 0
  }

  /**
   The only way to get stuck: the creator died between `semget` and SETVAL, and everybody who is left
   waits for the semaphore. After SETVAL no death at any point can stop the others.
   */
  lemma StuckExactlyWhen(s: State)
    requires Runs.Reachable(Init, Next, s)
    requires exists i :: 0 <= i < |s.processes| && s.processes[i].pc != Gone
    ensures Stuck(s) <==> s.setvals == 0 && AllBlocked(s)
    ensures Stuck(s) ==> Orphaned(s)
  {
    ReachableInv(s);
    if s.setvals == 0 && AllBlocked(s) {
      Counting.SumZero(s.processes, Creating);
      forall i | 0 <= i < |s.processes|
        ensures !Ready(s, i)
      {
        assert s.value == 0;
      }
    } else {
      var i: nat;
      if !AllBlocked(s) {
        i :| 0 <= i < |s.processes| && s.processes[i].pc != Acquire && s.processes[i].pc != Gone;
      } else {
        Counting.SumZero(s.processes, Holds);
        i :| 0 <= i < |s.processes| && s.processes[i].pc != Gone;
      }
      assert Ready(s, i);
      assert Progress(s, Step(s, i));
    }
  }

  lemma StepOrphansNobody(s: State, i: nat)
    requires Inv(s) && i < |s.processes| && Ready(s, i) && !Orphaned(s)
    ensures !Orphaned(Step(s, i))
    ensures forall j :: 0 <= j < |s.processes| && s.processes[j].pc == SetValue ==> Step(s, i) != End(s, j)
  {
    var t := Step(s, i);
    if s.processes[i].pc == SetValue {
      SetValFindsNobody(s, i);
      Counts(s.processes, i, Process(Acquire, 0));
    } else {
      StepGoesOn(s, i);
      Counts(s.processes, i, t.processes[i]);
      forall j | 0 <= j < |s.processes| && s.processes[j].pc == SetValue
        ensures t.processes[j].pc == SetValue
      {
        assert j != i;
      }
    }
  }

  /** The one step that orphans the semaphore is the death of its creator before SETVAL. */
  lemma OrphanedExactlyByCreator(s: State, t: State)
    requires Runs.Reachable(Init, Next, s) && !Orphaned(s) && Next(s, t)
    ensures Orphaned(t) <==> exists i :: 0 <= i < |s.processes| && s.processes[i].pc == SetValue && t == End(s, i)
  {
    ReachableInv(s);
    Counting.SumZero(s.processes, Creating);
    if Progress(s, t) {
      var i :| 0 <= i < |s.processes| && Ready(s, i) && t == Step(s, i);
      StepOrphansNobody(s, i);
    } else {
      var i :| 0 <= i < |s.processes| && s.processes[i].pc != Gone && t == End(s, i);
      Counts(s.processes, i, Process(Gone, 0));
      forall j | 0 <= j < |s.processes| && s.processes[j].pc == SetValue && t == End(s, j)
        ensures Orphaned(t)
      {
        Counts(s.processes, j, Process(Gone, 0));
      }
    }
  }

  lemma OrphanedStays(s: State, t: State)
    requires Inv(s) && Orphaned(s) && Next(s, t)
    ensures Orphaned(t)
  {
    Counting.SumZero(s.processes, Creating);
    if Progress(s, t) {
      var i :| 0 <= i < |s.processes| && Ready(s, i) && t == Step(s, i);
      Counts(s.processes, i, t.processes[i]);
      assert t.processes == s.processes[i := t.processes[i]];
    } else {
      var i :| 0 <= i < |s.processes| && s.processes[i].pc != Gone && t == End(s, i);
      Counts(s.processes, i, Process(Gone, 0));
    }
  }

  /** Once the semaphore is orphaned it stays so in every run, and nobody ever enters the critical section. */
  lemma OrphanedForGood(run: seq<State>, k: nat, i: nat)
    requires Runs.IsRun(s => Runs.Reachable(Init, Next, s) && Orphaned(s), Next, run)
    requires k < |run| && i < |run[k].processes|
    ensures Orphaned(run[k]) && run[k].processes[i].pc != Critical
  {
    var orphaned := s => Runs.Reachable(Init, Next, s) && Orphaned(s);
    forall s, t | orphaned(s) && Next(s, t)
      ensures orphaned(t)
    {
      ReachableInv(s);
      OrphanedStays(s, t);
      Runs.Extend(Init, Next, s, t);
    }
    Runs.Invariance(orphaned, Next, orphaned, run);
    assert orphaned(run[k]);
    ReachableInv(run[k]);
    Counting.SumZero(run[k].processes, Holds);
  }

  // ---------- everybody can still enter ----------

  lemma Moves(s: State, t: State, i: nat) returns (u: State)
    requires Runs.Later(Progress, s, t) && i < |t.processes| && Ready(t, i)
    ensures u == Step(t, i) && Runs.Later(Progress, s, u)
  {
    u := Step(t, i);
    assert Progress(t, u);
    Runs.Go(Progress, s, t, u);
  }

  /** A process in front of the semaphore gets in, after the holder or the creator has made its next step. */
  lemma WaiterEnters(s: State, t: State, i: nat) returns (u: State)
    requires Runs.Later(Progress, s, t) && Inv(t) && !Orphaned(t) && i < |t.processes| && t.processes[i].pc == Acquire
    ensures Runs.Later(Progress, s, u) && |u.processes| == |t.processes|
    ensures u.processes[i] == Process(Critical, 1) && u.value == 0
  {
    u := t;
    if t.value == 0 {
      Counting.SumZero(t.processes, Holds);
      Counting.SumZero(t.processes, Creating);
      var j :| 0 <= j < |t.processes| && if t.setvals == 1 then t.processes[j].pc == Critical else t.processes[j].pc == SetValue;
      StepKeeps(t, j);
      StepGoesOn(t, j);
      u := Moves(s, t, j);
      if t.setvals == 0 {
        SetValFindsNobody(t, j);
      }
      assert u.value == 1;
    }
    assert u.value == 1 && u.processes[i] == t.processes[i] && u.processes[i].undo == 0;
    u := Moves(s, u, i);
  }

  lemma SetValueMoves(t: State, i: nat)
    requires Inv(t) && i < |t.processes| && t.processes[i].pc == SetValue
    ensures var u := Step(t, i);
            Inv(u) && !Orphaned(u) && |u.processes| == |t.processes| && u.processes[i].pc == Acquire
  {
    StepKeeps(t, i);
    SetValFindsNobody(t, i);
  }

  /** From its first call a process comes to the semaphore, or to setting it if it has to create it. */
  lemma ProbeMoves(s: State, t: State, i: nat) returns (u: State)
    requires Runs.Later(Progress, s, t) && Inv(t) && !Orphaned(t) && i < |t.processes| && t.processes[i].pc == Probe
    ensures Runs.Later(Progress, s, u) && Inv(u) && !Orphaned(u) && |u.processes| == |t.processes|
    ensures u.processes[i].pc == Acquire || u.processes[i].pc == SetValue
  {
    StepKeeps(t, i);
    StepOrphansNobody(t, i);
    u := Moves(s, t, i);
    if !t.created {
      var v := u;
      StepKeeps(v, i);
      StepOrphansNobody(v, i);
      u := Moves(s, v, i);
    }
  }

  /**
   In every reachable state that is not orphaned, a process that looks for the semaphore, sets it or waits
   for it can still get into the critical section, without anybody dying.
   */
  lemma CanStillEnter(s: State, i: nat) returns (u: State)
    requires Runs.Reachable(Init, Next, s) && !Orphaned(s) && i < |s.processes|
    requires s.processes[i].pc in {Probe, SetValue, Acquire}
    ensures Runs.Later(Progress, s, u) && |u.processes| == |s.processes|
    ensures u.processes[i] == Process(Critical, 1) && u.value == 0
  {
    ReachableInv(s);
    Runs.Here(Progress, s);
    u := s;
    if s.processes[i].pc == Probe {
      u := ProbeMoves(s, u, i);
    }
    if u.processes[i].pc == SetValue {
      SetValueMoves(u, i);
      u := Moves(s, u, i);
    }
    u := WaiterEnters(s, u, i);
  }

  /** Among any number of processes each one can get into the critical section. */
  lemma EachCanEnter(n: nat, i: nat) returns (s: State)
    requires i < n
    ensures Runs.Reachable(Init, Next, s) && |s.processes| == n
    ensures s.processes[i] == Process(Critical, 1) && s.value == 0
  {
    var s0 := State(seq(n, _ => Process(Probe, 0)), false, 0, 0);
    Runs.InitReachable(Init, Next, s0);
    s := CanStillEnter(s0, i);
    Runs.LaterReachable(Init, Next, Progress, s0, s);
  }

  // ---------- every run ends ----------

  function Work(s: State): nat
  {
    Counting.Sum(s.processes, Ahead)
  }

  lemma NextLowersWork(s: State, t: State)
    requires Inv(s) && Next(s, t)
    ensures Work(t) < Work(s)
  {
    if Progress(s, t) {
      var i :| 0 <= i < |s.processes| && Ready(s, i) && t == Step(s, i);
      StepGoesOn(s, i);
      Counting.SumUpdate(s.processes, Ahead, i, t.processes[i]);
    } else {
      var i :| 0 <= i < |s.processes| && s.processes[i].pc != Gone && t == End(s, i);
      Counting.SumUpdate(s.processes, Ahead, i, Process(Gone, 0));
    }
  }

  /**
   Every run is finite, deaths included. When nobody can go on any more, either all processes have ended,
   or the semaphore is orphaned and all who are left wait for it.
   */
  lemma EveryRunEnds(run: seq<State>)
    requires Runs.IsRun(Init, Next, run)
    ensures |run| <= 6 * |run[0].processes| + 1
    ensures var last := run[|run| - 1];
            (forall t :: !Progress(last, t)) ==>
              if Orphaned(last) then AllBlocked(last)
              else forall i :: 0 <= i < |last.processes| ==> last.processes[i].pc == Gone
  {
    var start := s => Runs.Reachable(Init, Next, s);
    forall s | Init(s) ensures start(s) { Runs.InitReachable(Init, Next, s); }
    forall s, t | start(s) && Next(s, t)
      ensures start(t) && Work(t) < Work(s)
    {
      ReachableInv(s);
      NextLowersWork(s, t);
      Runs.Extend(Init, Next, s, t);
    }
    Runs.Bounded(Init, Next, start, Work, run);
    Counting.SumBounded(run[0].processes, Ahead, 6);
    var last := run[|run| - 1];
    if (exists i :: 0 <= i < |last.processes| && last.processes[i].pc != Gone) && forall t :: !Progress(last, t) {
      assert start(last);
      StuckExactlyWhen(last);
    }
  }

  /** The window exists: with two processes, one that dies right after `semget` leaves the other stuck. */
  lemma CrashBeforeSetValSticks() returns (s: State)
    ensures Runs.Reachable(Init, Next, s) && Stuck(s) && |s.processes| == 2
  {
    var s0 := State([Process(Probe, 0), Process(Probe, 0)], false, 0, 0);
    Runs.InitReachable(Init, Next, s0);
    var s1 := Step(s0, 0);
    assert Progress(s0, s1);
    Runs.Extend(Init, Next, s0, s1);
    var s2 := Step(s1, 0);
    assert Progress(s1, s2);
    Runs.Extend(Init, Next, s1, s2);
    var s3 := End(s2, 0);
    assert Dies(s2, s3);
    Runs.Extend(Init, Next, s2, s3);
    s := Step(s3, 1);
    assert Progress(s3, s);
    Runs.Extend(Init, Next, s3, s);
    assert s.processes[1] == Process(Acquire, 0);
    StuckExactlyWhen(s);
  }
}
