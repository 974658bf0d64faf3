/**
 The shared-memory buffer of `shm_server.c` and `shm_client.c`: two semaphores EMPTY and FULL guard one
 buffer that any number of clients fill and one server prints. Clients store and the server loads the
 buffer one character at a time, so an overlap of the two would show in what the server prints.
 */
module SharedBuffer {
  import Runs
  import Counting
  import opened CStrings

  datatype ClientPc = Menu | LockEmpty | Input | Store | UnlockFull | Gone

  /**
   A client, the line it is storing, and the kernel's undo amounts (semadj) of its two semaphores; `posted`
   counts the lines it has posted.
   */
  datatype Client = Client(pc: ClientPc, text: string, stored: nat, undoEmpty: int, undoFull: int, posted: nat)

  datatype Server = LockFull | Loading(text: string) | UnlockEmpty

  /** `sent` and `received` record the lines posted by clients and printed by the server. */
  datatype State = State(
    empty: int,
    full: int,
    memory: string,
    clients: seq<Client>,
    server: Server,
    sent: seq<string>,
    received: seq<string>)

  predicate Fresh(c: Client)
  {
    c.pc == Menu && c.undoEmpty == 0 && c.undoFull == 0 && c.posted == 0
  }

  /** After the server has set the semaphores and published the segment. */
  ghost predicate Init(s: State)
  {
    && s.empty == 1 && s.full == 0 && |s.memory| > 0
    && (forall i :: 0 <= i < |s.clients| ==> Fresh(s.clients[i]))
    && s.server == LockFull && s.sent == [] && s.received == []
  }

  /** What `fgets` can deliver into a buffer of `size` characters. */
  predicate Line(text: string, size: nat)
  {
    |text| < size && NUL !in text
  }

  // ---------- steps ----------

  /** The user asks client i to send a message. */
  ghost predicate Chooses(s: State, t: State, i: nat)
    requires i < |s.clients|
  {
    s.clients[i].pc == Menu && t == s.(clients := s.clients[i := s.clients[i].(pc := LockEmpty)])
  }

  ghost predicate ClientStep(s: State, t: State, i: nat)
    requires i < |s.clients|
  {
    var c := s.clients[i];
    match c.pc
    case LockEmpty =>
      && s.empty > 0
      && t == s.(empty := s.empty - 1, clients := s.clients[i := c.(pc := Input, undoEmpty := c.undoEmpty + 1)])
    case Input =>
      exists text :: Line(text, |s.memory|) && t == s.(clients := s.clients[i := c.(pc := Store, text := text, stored := 0)])
    case Store =>
      && c.stored < |s.memory|
      && t == if c.stored < |c.text|
              then s.(memory := s.memory[c.stored := c.text[c.stored]], clients := s.clients[i := c.(stored := c.stored + 1)])
              else s.(memory := s.memory[c.stored := NUL], clients := s.clients[i := c.(pc := UnlockFull)])
    case UnlockFull =>
      t == s.(full := s.full + 1, sent := s.sent + [c.text],
              clients := s.clients[i := c.(pc := Menu, undoFull := c.undoFull - 1, posted := c.posted + 1)])
    case _ => false
  }

  ghost predicate ServerStep(s: State, t: State)
  {
    match s.server
    case LockFull => s.full > 0 && t == s.(full := s.full - 1, server := Loading(""))
    case Loading(text) =>
      && |text| < |s.memory|
      && t == if s.memory[|text|] == NUL
              then s.(received := s.received + [text], server := UnlockEmpty)
              else s.(server := Loading(text + [s.memory[|text|]]))
    case UnlockEmpty => t == s.(empty := s.empty + 1, server := LockFull)
  }

  /** Steps that carry out requests already made. */
  ghost predicate Progress(s: State, t: State)
  {
    ServerStep(s, t) || exists i :: 0 <= i < |s.clients| && ClientStep(s, t, i)
  }

  /** Choice 2 of the menu: the client exits and the kernel applies its undo amounts, never below 0. */
  function Exit(s: State, i: nat): State
    requires i < |s.clients|
  {
    var c := s.clients[i];
    var full := s.full + c.undoFull;
    s.(empty := s.empty + c.undoEmpty, full := if full < 0 then 0 else full,
       clients := s.clients[i := c.(pc := Gone, undoEmpty := 0, undoFull := 0)])
  }

  /** Client i exits without ever having sent a line. */
  ghost predicate Leaves(s: State, t: State, i: nat)
    requires i < |s.clients|
  {
    s.clients[i].pc == Menu && s.clients[i].posted == 0 && t == Exit(s, i)
  }

  /** A step of a run in which no client exits that has sent something; those exits are studied below. */
  ghost predicate Next(s: State, t: State)
  {
    Progress(s, t) || exists i :: 0 <= i < |s.clients| && (Chooses(s, t, i) || Leaves(s, t, i))
  }

  // ---------- the invariant ----------

  function Inside(c: Client): nat
  {
    if c.pc == Input || c.pc == Store || c.pc == UnlockFull then 1 else 0
  }

  function Writers(s: State): nat
  {
    Counting.Sum(s.clients, Inside)
  }

  function Busy(server: Server): nat
  {
    if server == LockFull then 0 else 1
  }

  /** The memory holds `text` as a C string. */
  predicate HoldsText(memory: string, text: string)
  {
    Line(text, |memory|) && memory[..|text|] == text && memory[|text|] == NUL
  }

  predicate ClientFits(s: State, c: Client)
  {
    && c.undoEmpty == c.posted + Inside(c) && c.undoFull + c.posted == 0
    && (c.pc == Store ==> Line(c.text, |s.memory|) && c.stored <= |c.text| && s.memory[..c.stored] == c.text[..c.stored])
    && (c.pc == UnlockFull ==> HoldsText(s.memory, c.text))
  }

  /** The line that has been posted and not yet printed, if any. */
  predicate InFlight(s: State)
  {
    s.full == 1 || s.server.Loading?
  }

  predicate Delivered(s: State)
  {
    if InFlight(s) then
      && s.sent != []
      && s.sent[..|s.sent| - 1] == s.received
      && HoldsText(s.memory, s.sent[|s.sent| - 1])
      && (s.server.Loading? ==> s.server.text <= s.sent[|s.sent| - 1])
    else s.sent == s.received
  }

  predicate Inv(s: State)
  {
    && 0 <= s.empty && 0 <= s.full && |s.memory| > 0
    && s.empty + s.full + Writers(s) + Busy(s.server) == 1
    && (forall i :: 0 <= i < |s.clients| ==> ClientFits(s, s.clients[i]))
    && Delivered(s)
  }

  lemma OthersOutside(s: State, i: nat)
    requires i < |s.clients| && Writers(s) <= Inside(s.clients[i])
    ensures forall j :: 0 <= j < |s.clients| && j != i ==> Inside(s.clients[j]) == 0
  {
    forall j | 0 <= j < |s.clients| && j != i
      ensures Inside(s.clients[j]) == 0
    {
      if i < j {
        Counting.SumCoversTwo(s.clients, Inside, i, j);
      } else {
        Counting.SumCoversTwo(s.clients, Inside, j, i);
      }
    }
  }

  /** Only the client inside stores, and while it does nothing is in flight. */
  lemma StoreKeeps(s: State, t: State, i: nat)
    requires Inv(s) && i < |s.clients| && s.clients[i].pc == Store && ClientStep(s, t, i)
    ensures Inv(t)
  {
    Counting.SumUpdate(s.clients, Inside, i, t.clients[i]);
    Counting.SumCovers(s.clients, Inside, i);
    OthersOutside(s, i);
    assert ClientFits(s, s.clients[i]);
    assert ClientFits(t, t.clients[i]);
    forall j | 0 <= j < |s.clients|
      ensures ClientFits(t, t.clients[j])
    {
      assert ClientFits(s, s.clients[j]);
    }
  }

  lemma ClientKeeps(s: State, t: State, i: nat)
    requires Inv(s) && i < |s.clients| && ClientStep(s, t, i)
    ensures Inv(t)
  {
    if s.clients[i].pc == Store {
      StoreKeeps(s, t, i);
      return;
    }
    var c := t.clients[i];
    Counting.SumUpdate(s.clients, Inside, i, c);
    Counting.SumCovers(s.clients, Inside, i);
    if Inside(s.clients[i]) == 1 {
      OthersOutside(s, i);
    }
    assert ClientFits(s, s.clients[i]);
  }

  lemma ChoosesKeeps(s: State, t: State, i: nat)
    requires Inv(s) && i < |s.clients| && Chooses(s, t, i)
    ensures Inv(t)
  {
    Counting.SumUpdate(s.clients, Inside, i, t.clients[i]);
  }

  lemma LeavesKeeps(s: State, t: State, i: nat)
    requires Inv(s) && i < |s.clients| && Leaves(s, t, i)
    ensures Inv(t)
  {
    assert ClientFits(s, s.clients[i]);
    Counting.SumUpdate(s.clients, Inside, i, t.clients[i]);
  }

  /** The character that the server loads next is the next one of the line, or the NUL behind it. */
  lemma LoadsLine(s: State)
    requires s.server.Loading? && Delivered(s)
    ensures var line, k := s.sent[|s.sent| - 1], |s.server.text|;
            && s.sent == s.received + [line] && k <= |line|
            && if k < |line| then s.memory[k] == line[k] != NUL else s.memory[k] == NUL && s.server.text == line
  {
    var line := s.sent[|s.sent| - 1];
    var k := |s.server.text|;
    assert s.sent == s.received + [line];
    if k < |line| {
      assert s.memory[k] == s.memory[..|line|][k] && line[k] in line;
    } else {
      assert s.server.text == line;
    }
  }

  lemma ServerKeeps(s: State, t: State)
    requires Inv(s) && ServerStep(s, t)
    ensures Inv(t)
  {
    if s.server.Loading? {
      LoadsLine(s);
    }
  }

  lemma NextKeeps(s: State, t: State)
    requires Inv(s) && Next(s, t)
    ensures Inv(t)
  {
    if ServerStep(s, t) {
      ServerKeeps(s, t);
    } else if Progress(s, t) {
      var i :| 0 <= i < |s.clients| && ClientStep(s, t, i);
      ClientKeeps(s, t, i);
    } else {
      var i :| 0 <= i < |s.clients| && (Chooses(s, t, i) || Leaves(s, t, i));
      if Chooses(s, t, i) {
        ChoosesKeeps(s, t, i);
      } else {
        LeavesKeeps(s, t, i);
      }
    }
  }

  lemma ReachableInv(s: State)
    requires Runs.Reachable(Init, Next, s)
    ensures Inv(s)
  {
    forall s | Init(s)
      ensures Inv(s)
    {
      Counting.SumZero(s.clients, Inside);
    }
    forall s, t | Inv(s) && Next(s, t) ensures Inv(t) { NextKeeps(s, t); }
    Runs.InvariantOfReachable(Init, Next, Inv, s);
  }

  // ---------- safety ----------

  /** At most one process uses the buffer, and the two semaphores account for everybody else. */
  lemma BufferExclusive(s: State)
    requires Runs.Reachable(Init, Next, s)
    ensures s.empty >= 0 && s.full >= 0 && s.empty + s.full + Writers(s) + Busy(s.server) == 1
    ensures forall i, j :: 0 <= i < j < |s.clients| ==> Inside(s.clients[i]) + Inside(s.clients[j]) + Busy(s.server) <= 1
  {
    ReachableInv(s);
    forall i, j | 0 <= i < j < |s.clients|
      ensures Inside(s.clients[i]) + Inside(s.clients[j]) + Busy(s.server) <= 1
    {
      Counting.SumCoversTwo(s.clients, Inside, i, j);
    }
  }

  /** The server prints the lines that clients posted, whole and in that order; at most one is still on its way. */
  lemma RefinesFifo(s: State)
    requires Runs.Reachable(Init, Next, s)
    ensures s.received <= s.sent && |s.sent| <= |s.received| + 1
    ensures |s.sent| == |s.received| + 1 <==> InFlight(s)
    ensures |s.sent| == |s.received| + 1 ==> HoldsText(s.memory, s.sent[|s.sent| - 1])
    ensures s.server.Loading? ==> s.sent != [] && s.server.text <= s.sent[|s.sent| - 1]
  {
    ReachableInv(s);
  }

  // ---------- progress ----------

  predicate Idle(c: Client)
  {
    c.pc == Menu || c.pc == Gone
  }

  /** All requests have been carried out and everything sent has been printed. */
  predicate Drained(s: State)
  {
    && (forall i :: 0 <= i < |s.clients| ==> Idle(s.clients[i]))
    && s.empty == 1 && s.full == 0 && s.server == LockFull && s.sent == s.received
  }

  /** Client i is inside or can get in: its next step is possible. */
  lemma ClientMoves(s: State, i: nat) returns (t: State)
    requires Inv(s) && i < |s.clients| && !Idle(s.clients[i])
    requires s.clients[i].pc == LockEmpty ==> s.empty > 0
    ensures Progress(s, t)
  {
    var c := s.clients[i];
    match c.pc {
      case LockEmpty =>
        t := s.(empty := s.empty - 1, clients := s.clients[i := c.(pc := Input, undoEmpty := c.undoEmpty + 1)]);
      case Input =>
        assert Line("", |s.memory|);
        t := s.(clients := s.clients[i := c.(pc := Store, text := "", stored := 0)]);
      case Store =>
        assert ClientFits(s, c);
        t := if c.stored < |c.text|
             then s.(memory := s.memory[c.stored := c.text[c.stored]], clients := s.clients[i := c.(stored := c.stored + 1)])
             else s.(memory := s.memory[c.stored := NUL], clients := s.clients[i := c.(pc := UnlockFull)]);
      case UnlockFull =>
        t := s.(full := s.full + 1, sent := s.sent + [c.text],
                clients := s.clients[i := c.(pc := Menu, undoFull := c.undoFull - 1, posted := c.posted + 1)]);
    }
    assert ClientStep(s, t, i);
  }

  lemma ServerMoves(s: State) returns (t: State)
    requires Inv(s) && (s.server != LockFull || s.full > 0)
    ensures ServerStep(s, t) && Progress(s, t)
  {
    match s.server
    case LockFull =>
      t := s.(full := s.full - 1, server := Loading(""));
      assert ServerStep(s, t);
    case UnlockEmpty =>
      t := s.(empty := s.empty + 1, server := LockFull);
      assert ServerStep(s, t);
    case Loading(text) =>
      var line := s.sent[|s.sent| - 1];
      if s.memory[|text|] == NUL {
        t := s.(received := s.received + [text], server := UnlockEmpty);
      } else {
        t := s.(server := Loading(text + [s.memory[|text|]]));
      }
      assert |text| <= |line| < |s.memory|;
      assert ServerStep(s, t);
  }

  /** Whatever has been requested or posted, some process can go on. */
  lemma NeverStuck(s: State) returns (t: State)
    requires Runs.Reachable(Init, Next, s) && !Drained(s)
    ensures Progress(s, t)
  {
    ReachableInv(s);
    if s.server != LockFull || s.full > 0 {
      t := ServerMoves(s);
    } else {
      Counting.SumZero(s.clients, Inside);
      if Writers(s) > 0 {
        var i :| 0 <= i < |s.clients| && Inside(s.clients[i]) != 0;
        t := ClientMoves(s, i);
      } else {
        assert s.empty == 1;
        var i :| 0 <= i < |s.clients| && !Idle(s.clients[i]);
        t := ClientMoves(s, i);
      }
    }
  }

  /** Steps a client with a buffer of `size` characters still causes. */
  function ClientWork(size: nat): Client -> nat
  {
    (c: Client) => match c.pc
      case LockEmpty => 2 * size + 8
      case Input => 2 * size + 7
      case Store => size + 5 + if c.stored <= |c.text| then |c.text| - c.stored else 0
      case UnlockFull => size + 4
      case _ => 0
  }

  function ServerWork(server: Server, size: nat): nat
  {
    match server
    case LockFull => 0
    case Loading(text) => if |text| <= size then size - |text| + 2 else 2
    case UnlockEmpty => 1
  }

  function Work(s: State): nat
  {
    Counting.Sum(s.clients, ClientWork(|s.memory|)) + ServerWork(s.server, |s.memory|)
    + if s.full > 0 then |s.memory| + 3 else 0
  }

  lemma ClientLowersWork(s: State, t: State, i: nat)
    requires Inv(s) && i < |s.clients| && ClientStep(s, t, i)
    ensures Work(t) < Work(s)
  {
    assert ClientFits(s, s.clients[i]);
    Counting.SumUpdate(s.clients, ClientWork(|s.memory|), i, t.clients[i]);
    Counting.SumCovers(s.clients, Inside, i);
    assert t.clients == s.clients[i := t.clients[i]] && |t.memory| == |s.memory| && t.server == s.server;
    if s.clients[i].pc == UnlockFull {
      assert s.full == 0;
    }
  }

  lemma ServerLowersWork(s: State, t: State)
    requires Inv(s) && ServerStep(s, t)
    ensures Work(t) < Work(s)
  {
    assert t.clients == s.clients && t.memory == s.memory;
    assert s.full <= 1;
  }

  /** Without new requests the programs come to rest after boundedly many steps, and then all is delivered. */
  lemma DeliversEverything(run: seq<State>)
    requires Runs.IsRun(s => Runs.Reachable(Init, Next, s), Progress, run)
    ensures |run| <= Work(run[0]) + 1
    ensures var last := run[|run| - 1];
            (forall t :: !Progress(last, t)) ==> Drained(last)
  {
    var start := s => Runs.Reachable(Init, Next, s);
    forall s, t | start(s) && Progress(s, t)
      ensures start(t) && Work(t) < Work(s)
    {
      ReachableInv(s);
      if ServerStep(s, t) {
        ServerLowersWork(s, t);
      } else {
        var i :| 0 <= i < |s.clients| && ClientStep(s, t, i);
        ClientLowersWork(s, t, i);
      }
      Runs.Extend(Init, Next, s, t);
    }
    Runs.Bounded(start, Progress, start, Work, run);
    Runs.Invariance(start, Progress, start, run);
    var last := run[|run| - 1];
    assert start(last);
    if !Drained(last) {
      var t := NeverStuck(last);
    }
  }

  // ---------- a client that leaves ----------

  function Posted(c: Client): nat { c.posted }

  lemma PostedStep(s: State, t: State, i: nat)
    requires i < |s.clients| && (ClientStep(s, t, i) || Chooses(s, t, i) || Leaves(s, t, i))
    ensures Counting.Sum(t.clients, Posted) == Counting.Sum(s.clients, Posted) + |t.sent| - |s.sent|
  {
    Counting.SumUpdate(s.clients, Posted, i, t.clients[i]);
    assert t.clients == s.clients[i := t.clients[i]];
  }

  /**
   What the kernel would undo for a client: one for each line it has posted, and its hold on the buffer. The
   clients together have posted the lines of the log.
   */
  lemma UndoCountsLines(s: State)
    requires Runs.Reachable(Init, Next, s)
    ensures forall i :: 0 <= i < |s.clients| ==>
              && s.clients[i].undoEmpty == s.clients[i].posted + Inside(s.clients[i])
              && s.clients[i].undoFull + s.clients[i].posted == 0
    ensures Counting.Sum(s.clients, Posted) == |s.sent|
  {
    ReachableInv(s);
    assert forall i :: 0 <= i < |s.clients| ==> ClientFits(s, s.clients[i]);
    var tallied := (s: State) => Counting.Sum(s.clients, Posted) == |s.sent|;
    forall s | Init(s)
      ensures tallied(s)
    {
      Counting.SumZero(s.clients, Posted);
    }
    forall s, t | tallied(s) && Next(s, t)
      ensures tallied(t)
    {
      if !ServerStep(s, t) {
        var i :| 0 <= i < |s.clients| && (ClientStep(s, t, i) || Chooses(s, t, i) || Leaves(s, t, i));
        PostedStep(s, t, i);
      }
    }
    Runs.InvariantOfReachable(Init, Next, tallied, s);
  }

  predicate Accounted(s: State)
  {
    s.empty + s.full + Writers(s) + Busy(s.server) == 1
  }

  /** At most one process is inside, and what has been posted has been printed or will be. */
  predicate Safe(s: State)
  {
    Writers(s) + Busy(s.server) <= 1 && Delivered(s)
  }

  ghost predicate Later(s: State, t: State)
  {
    Runs.Later(Next, s, t)
  }

  lemma Go(s: State, t: State, u: State)
    requires Later(s, t) && Next(t, u)
    ensures Later(s, u)
  {
    Runs.Go(Next, s, t, u);
  }

  lemma Here(s: State)
    ensures Later(s, s)
  {
    Runs.Here(Next, s);
  }

  /**
   Because one process lowers what another raises, SEM_UNDO disturbs the two semaphores when a client that
   has sent something exits. Their sum survives only if a single line, still to be picked up, was all of it.
   */
  lemma ExitKeepsAccountsExactlyWhen(s: State, i: nat)
    requires Runs.Reachable(Init, Next, s)
    requires i < |s.clients| && s.clients[i].pc == Menu
    ensures Accounted(Exit(s, i)) <==> s.clients[i].posted == 0 || (s.clients[i].posted == 1 && s.full == 1)
  {
    ReachableInv(s);
    var t := Exit(s, i);
    Counting.SumUpdate(s.clients, Inside, i, t.clients[i]);
    assert ClientFits(s, s.clients[i]);
  }

  /** Such a line is lost, whoever has posted it: the server will not be told of it any more. */
  lemma ExitKeepsLineExactlyWhen(s: State, i: nat)
    requires Runs.Reachable(Init, Next, s)
    requires i < |s.clients| && s.clients[i].pc == Menu
    ensures Delivered(Exit(s, i)) <==> s.clients[i].posted == 0 || s.full == 0
  {
    ReachableInv(s);
    assert ClientFits(s, s.clients[i]);
  }

  // ---------- what an exit leads to ----------

  predicate Overlap(s: State)
  {
    s.server != LockFull && exists j :: 0 <= j < |s.clients| && Inside(s.clients[j]) == 1
  }

  lemma OverlapUnsafe(s: State)
    requires Overlap(s)
    ensures !Safe(s)
  {
    var j :| 0 <= j < |s.clients| && Inside(s.clients[j]) == 1;
    Counting.SumCovers(s.clients, Inside, j);
  }

  /** Client j, not inside, takes the semaphore. */
  lemma Enters(s: State, t: State, j: nat) returns (u: State)
    requires Later(s, t) && j < |t.clients| && t.empty > 0
    requires t.clients[j].pc == Menu || t.clients[j].pc == LockEmpty
    ensures Later(s, u)
    ensures |u.clients| == |t.clients| && u.clients[j].pc == Input && u.clients == t.clients[j := u.clients[j]]
    ensures u == t.(empty := t.empty - 1, clients := u.clients)
  {
    u := t;
    if t.clients[j].pc == Menu {
      u := t.(clients := t.clients[j := t.clients[j].(pc := LockEmpty)]);
      assert Chooses(t, u, j);
      Go(s, t, u);
    }
    var v := u.(empty := u.empty - 1, clients := u.clients[j := u.clients[j].(pc := Input, undoEmpty := u.clients[j].undoEmpty + 1)]);
    assert ClientStep(u, v, j);
    Go(s, u, v);
    u := v;
  }

  /** Client j stores what is left of its line. */
  lemma {:induction false} Stores(s: State, t: State, j: nat) returns (u: State)
    requires Later(s, t) && j < |t.clients| && t.clients[j].pc == Store
    requires t.clients[j].stored <= |t.clients[j].text| < |t.memory|
    ensures Later(s, u)
    ensures |u.clients| == |t.clients| && u.clients[j].pc == UnlockFull && u.clients[j].text == t.clients[j].text
    ensures u.clients == t.clients[j := u.clients[j]] && |u.memory| == |t.memory|
    ensures u == t.(memory := u.memory, clients := u.clients)
    decreases |t.clients[j].text| - t.clients[j].stored
  {
    var c := t.clients[j];
    if c.stored < |c.text| {
      var v := t.(memory := t.memory[c.stored := c.text[c.stored]], clients := t.clients[j := c.(stored := c.stored + 1)]);
      assert ClientStep(t, v, j);
      Go(s, t, v);
      u := Stores(s, v, j);
    } else {
      u := t.(memory := t.memory[c.stored := NUL], clients := t.clients[j := c.(pc := UnlockFull)]);
      assert ClientStep(t, u, j);
      Go(s, t, u);
    }
  }

  /** Client j, inside, posts its line; the server picks it up, and j comes back while it is being printed. */
  lemma PostsAndReturns(s: State, t: State, j: nat) returns (u: State)
    requires Later(s, t) && j < |t.clients| && Inside(t.clients[j]) == 1
    requires t.clients[j].pc == Store ==> t.clients[j].stored <= |t.clients[j].text| < |t.memory|
    requires t.empty > 0 && t.full >= 0 && t.server == LockFull && |t.memory| > 0
    ensures Later(s, u) && Overlap(u)
  {
    u := t;
    if u.clients[j].pc == Input {
      assert Line("", |u.memory|);
      var v := u.(clients := u.clients[j := u.clients[j].(pc := Store, text := "", stored := 0)]);
      assert ClientStep(u, v, j);
      Go(s, u, v);
      u := v;
    }
    if u.clients[j].pc == Store {
      u := Stores(s, u, j);
    }
    var c := u.clients[j];
    var v := u.(full := u.full + 1, sent := u.sent + [c.text], clients := u.clients[j := c.(pc := Menu, undoFull := c.undoFull - 1, posted := c.posted + 1)]);
    assert ClientStep(u, v, j);
    Go(s, u, v);
    var w := v.(full := v.full - 1, server := Loading(""));
    assert ServerStep(v, w);
    Go(s, v, w);
    u := Enters(s, w, j);
  }

  /** With nothing posted, the exit of a client that has sent something lets the server and another client overlap. */
  lemma ExitLeadsToOverlap(s: State, i: nat, j: nat) returns (u: State)
    requires Runs.Reachable(Init, Next, s)
    requires i < |s.clients| && s.clients[i].pc == Menu && s.clients[i].posted != 0 && s.full == 0
    requires j < |s.clients| && j != i && s.clients[j].pc != Gone
    ensures Later(Exit(s, i), u) && Overlap(u)
  {
    ReachableInv(s);
    assert ClientFits(s, s.clients[i]) && ClientFits(s, s.clients[j]);
    Counting.SumCovers(s.clients, Inside, j);
    var t := Exit(s, i);
    assert t.clients[j] == s.clients[j];
    Here(t);
    if t.server != LockFull {
      u := Enters(t, t, j);
      assert Inside(u.clients[j]) == 1;
    } else if Writers(s) == 0 {
      u := Enters(t, t, j);
      u := PostsAndReturns(t, u, j);
    } else {
      Counting.SumZero(s.clients, Inside);
      var k :| 0 <= k < |s.clients| && Inside(s.clients[k]) != 0;
      assert t.clients[k] == s.clients[k] && ClientFits(s, s.clients[k]);
      u := PostsAndReturns(t, t, k);
    }
  }

  /** Nobody is left who could use the buffer, and the server has at most one line to print. */
  predicate Deserted(s: State)
  {
    && |s.memory| > 0 && s.full == 0 && Delivered(s)
    && forall j :: 0 <= j < |s.clients| ==> s.clients[j].pc == Gone
  }

  lemma DesertedStays(s: State, t: State)
    requires Deserted(s) && Next(s, t)
    ensures Deserted(t)
  {
    assert ServerStep(s, t);
    if s.server.Loading? {
      LoadsLine(s);
    }
  }

  lemma InvLater(s: State, u: State)
    requires Inv(s) && Later(s, u)
    ensures Inv(u) && Safe(u)
  {
    forall s, t | Inv(s) && Next(s, t) ensures Inv(t) { NextKeeps(s, t); }
    Runs.InvariantOfReachable(u => u == s, Next, Inv, u);
  }

  lemma DesertedLater(s: State, u: State)
    requires Deserted(s) && Later(s, u)
    ensures Safe(u)
  {
    forall s, t | Deserted(s) && Next(s, t) ensures Deserted(t) { DesertedStays(s, t); }
    Runs.InvariantOfReachable(u => u == s, Next, Deserted, u);
    Counting.SumZero(u.clients, Inside);
  }

  predicate AloneAt(s: State, i: nat)
  {
    forall j :: 0 <= j < |s.clients| && j != i ==> s.clients[j].pc == Gone
  }

  /**
   The exit of client i does no harm in any run that goes on from it exactly when the client has never sent
   a line, or is the last one and the server has already picked up its lines. In all other cases some run
   loses a line or has the server print the buffer while a client is inside.
   */
  lemma ExitHarmlessExactlyWhen(s: State, i: nat)
    requires Runs.Reachable(Init, Next, s)
    requires i < |s.clients| && s.clients[i].pc == Menu
    ensures (forall u :: Later(Exit(s, i), u) ==> Safe(u)) <==>
              s.clients[i].posted == 0 || (s.full == 0 && AloneAt(s, i))
  {
    ReachableInv(s);
    var t := Exit(s, i);
    if s.clients[i].posted == 0 {
      LeavesKeeps(s, t, i);
      forall u | Later(t, u) ensures Safe(u) { InvLater(t, u); }
    } else if s.full != 0 {
      ExitKeepsLineExactlyWhen(s, i);
      Here(t);
    } else if AloneAt(s, i) {
      ExitKeepsLineExactlyWhen(s, i);
      forall u | Later(t, u) ensures Safe(u) { DesertedLater(t, u); }
    } else {
      var j :| 0 <= j < |s.clients| && j != i && s.clients[j].pc != Gone;
      var u := ExitLeadsToOverlap(s, i, j);
      OverlapUnsafe(u);
    }
  }

  /** Two clients, of which client 0 stands as given, in the course of sending the empty line. */
  function Sending(pc: ClientPc, full: nat, sent: seq<string>, server: Server): State
  {
    State(0, full, [NUL], [Client(pc, "", 0, 1, if pc == Menu then -1 else 0, if pc == Menu then 1 else 0), Client(Menu, "", 0, 0, 0, 0)], server, sent, [])
  }

  lemma InputReachable()
    ensures Runs.Reachable(Init, Next, Sending(Input, 0, [], LockFull))
  {
    var c := Client(Menu, "", 0, 0, 0, 0);
    var s0 := State(1, 0, [NUL], [c, c], LockFull, [], []);
    Runs.InitReachable(Init, Next, s0);
    var s1 := s0.(clients := s0.clients[0 := c.(pc := LockEmpty)]);
    assert Chooses(s0, s1, 0);
    Runs.Extend(Init, Next, s0, s1);
    var s2 := Sending(Input, 0, [], LockFull);
    assert s2.clients == s1.clients[0 := s2.clients[0]];
    assert ClientStep(s1, s2, 0);
    Runs.Extend(Init, Next, s1, s2);
  }

  lemma SendingStep(s: State, t: State)
    requires Runs.Reachable(Init, Next, s) && |s.clients| > 0 && ClientStep(s, t, 0)
    ensures Runs.Reachable(Init, Next, t)
  {
    Runs.Extend(Init, Next, s, t);
  }

  lemma PostedReachable()
    ensures Runs.Reachable(Init, Next, Sending(Menu, 1, [""], LockFull))
  {
    InputReachable();
    var s := Sending(Input, 0, [], LockFull);
    var s1 := Sending(Store, 0, [], LockFull);
    assert Line("", 1) && s1.clients == s.clients[0 := s1.clients[0]];
    SendingStep(s, s1);
    var s2 := Sending(UnlockFull, 0, [], LockFull);
    assert s2.clients == s1.clients[0 := s2.clients[0]] && s2.memory == s1.memory[0 := NUL];
    SendingStep(s1, s2);
    var s3 := Sending(Menu, 1, [""], LockFull);
    assert s3.clients == s2.clients[0 := s3.clients[0]] && s3.sent == s2.sent + [""];
    SendingStep(s2, s3);
  }

  /** Both harms occur: client 0 of two sends a line, and exits before or after the server has picked it up. */
  lemma ExitDoesHarm() returns (overlap: State)
    ensures var posted := Sending(Menu, 1, [""], LockFull);
            Runs.Reachable(Init, Next, posted) && Delivered(posted) && !Delivered(Exit(posted, 0))
    ensures var loading := Sending(Menu, 0, [""], Loading(""));
            Runs.Reachable(Init, Next, loading) && Later(Exit(loading, 0), overlap) && Overlap(overlap)
  {
    PostedReachable();
    var posted := Sending(Menu, 1, [""], LockFull);
    ExitKeepsLineExactlyWhen(posted, 0);
    ReachableInv(posted);
    var loading := Sending(Menu, 0, [""], Loading(""));
    assert ServerStep(posted, loading);
    Runs.Extend(Init, Next, posted, loading);
    overlap := ExitLeadsToOverlap(loading, 0, 1);
  }

  // ---------- whatever is sent can be printed ----------

  /** The server prints what has been posted and comes back to its lock, while the clients wait. */
  lemma ServerPrints(s: State, t: State) returns (u: State)
    requires Later(s, t) && Inv(t) && Writers(t) == 0
    ensures Later(s, u) && Inv(u) && u.clients == t.clients && |u.memory| == |t.memory|
    ensures u.server == LockFull && u.empty == 1 && u.full == 0 && u.sent == t.sent && u.received == t.sent
  {
    var inv := (x: State) => Inv(x) && x.clients == t.clients && x.sent == t.sent && |x.memory| == |t.memory|;
    var goal := (x: State) => x.server == LockFull && x.full == 0;
    forall x | inv(x) && !goal(x)
      ensures exists y :: ServerStep(x, y)
    {
      var y := ServerMoves(x);
    }
    forall x, y | inv(x) && ServerStep(x, y)
      ensures inv(y) && Work(y) < Work(x)
    {
      ServerKeeps(x, y);
      ServerLowersWork(x, y);
    }
    u := Runs.Completes(ServerStep, inv, goal, Work, t);
    Runs.LaterReachable(x => x == s, Next, ServerStep, t, u);
  }

  /** Client i, at the menu, takes the semaphore and stores the line. */
  lemma EntersLine(s: State, i: nat, line: string) returns (u: State)
    requires s.empty > 0 && i < |s.clients| && s.clients[i].pc == Menu && Line(line, |s.memory|)
    ensures Later(s, u) && |u.memory| == |s.memory| && u.sent == s.sent
    ensures |u.clients| == |s.clients| && u.clients == s.clients[i := u.clients[i]]
    ensures u.clients[i].pc == UnlockFull && u.clients[i].text == line
  {
    Here(s);
    var t := Enters(s, s, i);
    var v := t.(clients := t.clients[i := t.clients[i].(pc := Store, text := line, stored := 0)]);
    assert ClientStep(t, v, i);
    Go(s, t, v);
    u := Stores(s, v, i);
  }

  /** Client i, at the menu, posts the line; everybody else stands still. */
  lemma Posts(s: State, i: nat, line: string) returns (u: State)
    requires Inv(s) && s.empty > 0 && i < |s.clients| && s.clients[i].pc == Menu && Line(line, |s.memory|)
    ensures Later(s, u) && Inv(u) && u.sent == s.sent + [line] && |u.memory| == |s.memory|
    ensures |u.clients| == |s.clients| && u.clients == s.clients[i := u.clients[i]] && u.clients[i].pc == Menu
  {
    var w := EntersLine(s, i, line);
    var c := w.clients[i];
    u := w.(full := w.full + 1, sent := w.sent + [c.text],
            clients := w.clients[i := c.(pc := Menu, undoFull := c.undoFull - 1, posted := c.posted + 1)]);
    assert ClientStep(w, u, i);
    Go(s, w, u);
    InvLater(s, u);
  }

  predicate AllAtMenu(s: State)
  {
    forall i :: 0 <= i < |s.clients| ==> s.clients[i].pc == Menu
  }

  /** Which client sends which line. */
  datatype Message = Message(client: nat, line: string)

  function Lines(messages: seq<Message>): seq<string>
  {
    seq(|messages|, i requires 0 <= i < |messages| => messages[i].line)
  }

  /**
   For every buffer size, number of clients and sequence of lines, sent by any of the clients in turn, some
   run prints exactly these lines.
   */
  lemma {:induction false} AnyConversation(size: nat, clients: nat, messages: seq<Message>) returns (s: State)
    requires size > 0 && forall m :: m in messages ==> m.client < clients && Line(m.line, size)
    ensures Runs.Reachable(Init, Next, s) && |s.memory| == size && |s.clients| == clients
    ensures s.received == s.sent == Lines(messages)
    ensures AllAtMenu(s) && s.server == LockFull && s.empty == 1
  {
    if messages == [] {
      s := State(1, 0, seq(size, _ => NUL), seq(clients, _ => Client(Menu, "", 0, 0, 0, 0)), LockFull, [], []);
      Runs.InitReachable(Init, Next, s);
    } else {
      var last := |messages| - 1;
      var m := messages[last];
      var t := AnyConversation(size, clients, messages[..last]);
      ReachableInv(t);
      var u := Posts(t, m.client, m.line);
      Counting.SumZero(u.clients, Inside);
      s := ServerPrints(t, u);
      Runs.LaterReachable(Init, Next, Next, t, s);
      assert Lines(messages) == Lines(messages[..last]) + [m.line];
    }
  }
}
