/**
 The `select` loop of `multi_server.c`: a table of client sockets, the set of watched descriptors, and the
 two upper bounds `max` and `sock_max` that the loop keeps for them.
 */
module SelectServer {
  import Runs
  import Counting
  import opened Numbers
  import opened Sequences
  import CStrings

  // ---------- the table as a value ----------

  /** `slots` is client_sock[], `watched` is gesamt_sock. */
  datatype Table = Table(listener: int, slots: seq<int>, watched: set<int>, max: int, sockMax: int)

  predicate LiveAt(slots: seq<int>, fd: int)
  {
    fd >= 0 && fd in slots
  }

  ghost predicate Good(t: Table)
  {
    && t.listener >= 0 && !LiveAt(t.slots, t.listener)
    && (forall i :: 0 <= i < |t.slots| ==> t.slots[i] >= -1)
    && (forall i, j :: 0 <= i < j < |t.slots| && t.slots[i] >= 0 ==> t.slots[i] != t.slots[j])
    && (forall fd :: fd in t.watched <==> fd == t.listener || LiveAt(t.slots, fd))
    && -1 <= t.max < |t.slots|
    && (forall i :: t.max < i < |t.slots| ==> t.slots[i] == -1)
    && (forall fd :: fd in t.watched ==> fd <= t.sockMax)
  }

  /** The first slot without a client, or the number of slots if all are taken. */
  function FirstFree(slots: seq<int>): (i: nat)
    ensures i <= |slots| && (i < |slots| ==> slots[i] < 0)
    ensures forall j :: 0 <= j < i ==> slots[j] >= 0
  {
    if slots == [] || slots[0] < 0 then 0
    else
      var k := FirstFree(slots[1..]);
      assert forall j :: 1 <= j < k + 1 ==> slots[j] == slots[1..][j - 1];
      k + 1
  }

  /** The table after a new connection `fd` has been accepted into the first free slot. */
  function Accepted(t: Table, fd: int): Table
    requires FirstFree(t.slots) < |t.slots|
  {
    var i := FirstFree(t.slots);
    t.(slots := t.slots[i := fd], watched := t.watched + {fd}, max := Max(t.max, i), sockMax := Max(t.sockMax, fd))
  }

  /** What one wake-up of `select` brings: the ready descriptors, a connection to accept, and received data. */
  datatype Event = Event(ready: set<int>, connection: int, data: map<int, string>)

  /** What the kernel guarantees: only watched descriptors are ready, and a new one is not in use. */
  ghost predicate Possible(t: Table, e: Event)
  {
    && e.ready <= t.watched
    && (t.listener in e.ready ==> e.connection >= 0 && e.connection !in t.watched)
    && forall fd :: fd in e.ready && fd != t.listener ==> fd in e.data
  }

  /** `strcmp` compares the received buffer up to its first NUL. */
  predicate Quits(e: Event, fd: int)
  {
    fd in e.data && CStrings.Text(e.data[fd]) == "quit\n"
  }

  /** The clients among `slots` that are ready, in slot order. */
  function ReadyClients(slots: seq<int>, ready: set<int>): seq<int>
  {
    if slots == [] then []
    else (if slots[0] >= 0 && slots[0] in ready then [slots[0]] else []) + ReadyClients(slots[1..], ready)
  }

  /** Every client whose message was "quit" loses its slot and is no longer watched. */
  function Cleared(t: Table, e: Event): Table
  {
    t.(slots := seq(|t.slots|, i requires 0 <= i < |t.slots| =>
         if t.slots[i] in e.ready && Quits(e, t.slots[i]) then -1 else t.slots[i]),
       watched := set fd | fd in t.watched && !(fd in e.ready && fd != t.listener && Quits(e, fd)))
  }

  predicate Overloaded(t: Table, e: Event)
  {
    t.listener in e.ready && FirstFree(t.slots) == |t.slots|
  }

  /** The table after one pass of the loop. */
  function Passed(t: Table, e: Event): Table
    requires !Overloaded(t, e)
  {
    Cleared(if t.listener in e.ready then Accepted(t, e.connection) else t, e)
  }

  // ---------- what one pass means ----------

  lemma {:induction false} ReadySplit(a: seq<int>, b: seq<int>, ready: set<int>)
    ensures ReadyClients(a + b, ready) == ReadyClients(a, ready) + ReadyClients(b, ready)
  {
    if a == [] {
      assert a + b == b;
    } else {
      assert (a + b)[1..] == a[1..] + b;
      ReadySplit(a[1..], b, ready);
    }
  }

  predicate LiveDistinct(slots: seq<int>)
  {
    forall i, j :: 0 <= i < j < |slots| && slots[i] >= 0 ==> slots[i] != slots[j]
  }

  lemma {:induction false} ReadyMembers(slots: seq<int>, ready: set<int>)
    ensures forall fd :: fd in ReadyClients(slots, ready) <==> LiveAt(slots, fd) && fd in ready
    ensures LiveDistinct(slots) ==>
              forall i, j :: 0 <= i < j < |ReadyClients(slots, ready)| ==> ReadyClients(slots, ready)[i] != ReadyClients(slots, ready)[j]
  {
    if slots != [] {
      var rest := slots[1..];
      ReadyMembers(rest, ready);
      assert slots == [slots[0]] + rest;
      if LiveDistinct(slots) {
        assert forall j :: 0 <= j < |rest| ==> rest[j] == slots[j + 1];
        assert slots[0] >= 0 ==> slots[0] !in rest;
        assert LiveDistinct(rest);
      }
    }
  }

  lemma {:induction false} DistinctCount(s: seq<int>, members: set<int>)
    requires forall i, j :: 0 <= i < j < |s| ==> s[i] != s[j]
    requires forall x :: x in s <==> x in members
    ensures |s| == |members|
  {
    if s == [] {
      forall x: int
        ensures x !in members
      {
        assert x !in s;
      }
      Counting.NoMember(members);
    } else {
      assert s == [s[0]] + s[1..];
      DistinctCount(s[1..], members - {s[0]});
    }
  }

  /**
   The loop serves every ready client exactly once, in slot order; neither the listener nor the connection
   just accepted is among them, and together with the listener they make up the number `select` returned.
   */
  lemma ExactService(t: Table, e: Event)
    requires Good(t) && Possible(t, e)
    ensures var served := ReadyClients(t.slots, e.ready);
            && (forall i, j :: 0 <= i < j < |served| ==> served[i] != served[j])
            && (forall fd :: fd in served <==> fd in e.ready && fd != t.listener)
            && (t.listener in e.ready ==> e.connection !in served)
            && |served| + (if t.listener in e.ready then 1 else 0) == |e.ready|
  {
    ReadyMembers(t.slots, e.ready);
    DistinctCount(ReadyClients(t.slots, e.ready), e.ready - {t.listener});
  }

  /** A connection is refused only when every slot has a client. */
  lemma OverloadOnlyWhenFull(t: Table, e: Event)
    ensures Overloaded(t, e) <==> t.listener in e.ready && forall i :: 0 <= i < |t.slots| ==> t.slots[i] >= 0
  {
  }

  lemma AcceptedLive(t: Table, fd: int, x: int)
    requires FirstFree(t.slots) < |t.slots| && fd >= 0
    ensures LiveAt(Accepted(t, fd).slots, x) <==> x == fd || LiveAt(t.slots, x)
  {
    var i := FirstFree(t.slots);
    var u := Accepted(t, fd);
    assert u.slots[i] == fd;
    if LiveAt(t.slots, x) {
      var j :| 0 <= j < |t.slots| && t.slots[j] == x;
      assert u.slots[j] == x;
    }
  }

  lemma AcceptedGood(t: Table, fd: int)
    requires Good(t) && FirstFree(t.slots) < |t.slots| && fd >= 0 && fd !in t.watched
    ensures Good(Accepted(t, fd))
  {
    var u := Accepted(t, fd);
    forall x
      ensures LiveAt(u.slots, x) <==> x == fd || LiveAt(t.slots, x)
    {
      AcceptedLive(t, fd, x);
    }
    forall j | 0 <= j < |t.slots|
      ensures t.slots[j] != fd
    {
      assert t.slots[j] >= 0 ==> LiveAt(t.slots, t.slots[j]);
    }
  }

  lemma ClearedLive(t: Table, e: Event, x: int)
    ensures LiveAt(Cleared(t, e).slots, x) <==> LiveAt(t.slots, x) && !(x in e.ready && Quits(e, x))
  {
    var u := Cleared(t, e);
    if LiveAt(t.slots, x) && !(x in e.ready && Quits(e, x)) {
      var j :| 0 <= j < |t.slots| && t.slots[j] == x;
      assert u.slots[j] == x;
    }
  }

  lemma ClearedGood(t: Table, e: Event)
    requires Good(t)
    ensures Good(Cleared(t, e))
  {
    var u := Cleared(t, e);
    forall x
      ensures LiveAt(u.slots, x) <==> LiveAt(t.slots, x) && !(x in e.ready && Quits(e, x))
    {
      ClearedLive(t, e, x);
    }
  }

  /** A pass keeps the agreement of slots, watched set and bounds. */
  lemma PassKeepsGood(t: Table, e: Event)
    requires Good(t) && Possible(t, e) && !Overloaded(t, e)
    ensures Good(Passed(t, e))
  {
    if t.listener in e.ready {
      AcceptedGood(t, e.connection);
      ClearedGood(Accepted(t, e.connection), e);
    } else {
      ClearedGood(t, e);
    }
  }

  /** The clients after a pass: the old ones without those that said "quit", and the accepted one. */
  lemma ClientsAfterPass(t: Table, e: Event, fd: int)
    requires Good(t) && Possible(t, e) && !Overloaded(t, e)
    ensures LiveAt(Passed(t, e).slots, fd) <==>
              || (LiveAt(t.slots, fd) && !(fd in e.ready && Quits(e, fd)))
              || (t.listener in e.ready && fd == e.connection)
    ensures forall i :: 0 <= i < |t.slots| && t.slots[i] >= 0 && LiveAt(Passed(t, e).slots, t.slots[i]) ==>
              Passed(t, e).slots[i] == t.slots[i]
  {
    if t.listener in e.ready {
      AcceptedLive(t, e.connection, fd);
      ClearedLive(Accepted(t, e.connection), e, fd);
    } else {
      ClearedLive(t, e, fd);
    }
    forall i | 0 <= i < |t.slots| && t.slots[i] >= 0 && LiveAt(Passed(t, e).slots, t.slots[i])
      ensures Passed(t, e).slots[i] == t.slots[i]
    {
      var u := if t.listener in e.ready then Accepted(t, e.connection) else t;
      ClearedLive(u, e, t.slots[i]);
    }
  }

  /** Which received bytes end a client, spelled out. */
  predicate SaysQuit(d: string)
  {
    |d| >= 5 && d[0] == 'q' && d[1] == 'u' && d[2] == 'i' && d[3] == 't' && d[4] == '\n' && (|d| == 5 || d[5] == '\0')
  }

  lemma TextIsQuit(d: string)
    ensures CStrings.Text(d) == "quit\n" <==> SaysQuit(d)
  {
    if SaysQuit(d) {
      assert d[..5] == "quit\n";
      if |d| > 5 {
        CStrings.TextIs(d, 5);
      } else {
        var t := CStrings.Text(d);
        assert forall i :: 0 <= i < 5 ==> d[i] != CStrings.NUL;
        assert t == d;
      }
    }
  }

  /** A ready client loses its slot and is no longer watched exactly if the received bytes say "quit" in a line. */
  lemma LeavesExactlyWhenQuit(t: Table, e: Event, fd: int)
    requires Good(t) && Possible(t, e) && !Overloaded(t, e)
    requires LiveAt(t.slots, fd) && fd in e.ready
    ensures fd in e.data
    ensures !LiveAt(Passed(t, e).slots, fd) <==> SaysQuit(e.data[fd])
    ensures fd !in Passed(t, e).watched <==> SaysQuit(e.data[fd])
  {
    TextIsQuit(e.data[fd]);
    ClientsAfterPass(t, e, fd);
    PassKeepsGood(t, e);
  }

  // ---------- whole runs ----------

  ghost predicate Init(t: Table)
  {
    && t.listener >= 0 && t.watched == {t.listener} && t.max == -1 && t.sockMax == t.listener
    && forall i :: 0 <= i < |t.slots| ==> t.slots[i] == -1
  }

  ghost predicate Next(t: Table, u: Table)
  {
    exists e :: Possible(t, e) && !Overloaded(t, e) && u == Passed(t, e)
  }

  /** In every run the watched descriptors are the listener and the clients, and the bounds cover them. */
  lemma TableStaysGood(t: Table)
    requires Runs.Reachable(Init, Next, t)
    ensures Good(t)
  {
    forall t, u | Good(t) && Next(t, u)
      ensures Good(u)
    {
      var e :| Possible(t, e) && !Overloaded(t, e) && u == Passed(t, e);
      PassKeepsGood(t, e);
    }
    Runs.InvariantOfReachable(Init, Next, Good, t);
  }

  // ---------- descriptors that a set can hold ----------

  /** `fd_set` holds the descriptors below FD_SETSIZE, which is the number of slots. */
  ghost predicate InRange(t: Table)
  {
    forall fd :: fd in t.watched ==> fd < |t.slots|
  }

  /** As long as they fit, at least one slot is free: the listener takes one descriptor of the range away. */
  lemma InRangeHasRoom(t: Table)
    requires Good(t) && InRange(t)
    ensures FirstFree(t.slots) < |t.slots|
  {
    if forall i :: 0 <= i < |t.slots| ==> t.slots[i] >= 0 {
      var all := t.slots + [t.listener];
      assert forall i :: 0 <= i < |t.slots| ==> LiveAt(t.slots, t.slots[i]);
      DistinctCount(all, t.watched);
      Counting.SubsetOfRange(t.watched, |t.slots|);
    }
  }

  /** A pass keeps the descriptors in range exactly if the one it accepts, if any, is in range. */
  lemma StaysInRangeExactlyWhen(t: Table, e: Event)
    requires Good(t) && Possible(t, e) && InRange(t)
    ensures !Overloaded(t, e)
    ensures InRange(Passed(t, e)) <==> (t.listener in e.ready ==> e.connection < |t.slots|)
  {
    InRangeHasRoom(t);
    if t.listener in e.ready {
      assert e.connection !in e.ready;
      assert e.connection in Passed(t, e).watched;
    }
  }

  /** For every number of slots, the first descriptor that does not fit may be accepted into a server without clients. */
  lemma FirstBeyondRange(n: nat) returns (t: Table, e: Event)
    requires n > 0
    ensures |t.slots| == n && Runs.Reachable(Init, Next, t) && InRange(t)
    ensures Possible(t, e) && e.connection == n && !Overloaded(t, e) && !InRange(Passed(t, e))
  {
    t := Table(0, seq(n, _ => -1), {0}, -1, 0);
    e := Event({0}, n, map[]);
    Runs.InitReachable(Init, Next, t);
    TableStaysGood(t);
    StaysInRangeExactlyWhen(t, e);
  }

  /** The kernel has only given out descriptors that a set can hold. */
  ghost predicate NextInRange(t: Table, u: Table)
  {
    exists e :: Possible(t, e) && !Overloaded(t, e) && (t.listener in e.ready ==> e.connection < |t.slots|) && u == Passed(t, e)
  }

  /** In every run with such descriptors no connection is ever refused. */
  lemma NeverOverloadedInRange(t: Table, e: Event)
    requires Runs.Reachable(t => Init(t) && t.listener < |t.slots|, NextInRange, t) && Possible(t, e)
    ensures InRange(t) && !Overloaded(t, e)
  {
    var inv := t => Good(t) && InRange(t);
    forall t, u | inv(t) && NextInRange(t, u)
      ensures inv(u)
    {
      var e :| Possible(t, e) && !Overloaded(t, e) && (t.listener in e.ready ==> e.connection < |t.slots|) && u == Passed(t, e);
      PassKeepsGood(t, e);
      StaysInRangeExactlyWhen(t, e);
    }
    Runs.InvariantOfReachable(t => Init(t) && t.listener < |t.slots|, NextInRange, inv, t);
    StaysInRangeExactlyWhen(t, e);
  }

  // ---------- the loop itself ----------

  lemma {:induction false} ReadyIgnores(slots: seq<int>, i: nat, fd: int, ready: set<int>)
    requires i < |slots| && slots[i] < 0 && fd !in ready
    ensures ReadyClients(slots[i := fd], ready) == ReadyClients(slots, ready)
  {
    if i == 0 {
      assert slots[0 := fd][1..] == slots[1..];
    } else {
      assert slots[i := fd][1..] == slots[1..][i - 1 := fd];
      ReadyIgnores(slots[1..], i - 1, fd, ready);
    }
  }

  /** The connection accepted in this pass is not among the ready descriptors. */
  lemma NewcomerNotReady(t: Table, e: Event)
    requires Possible(t, e) && t.listener in e.ready && FirstFree(t.slots) < |t.slots|
    ensures ReadyClients(Accepted(t, e.connection).slots, e.ready) == ReadyClients(t.slots, e.ready)
  {
    ReadyIgnores(t.slots, FirstFree(t.slots), e.connection, e.ready);
  }

  /** Where no ready client is left the remaining slots stay as they are. */
  lemma NothingToClear(t: Table, e: Event, i: nat)
    requires Good(t) && i <= |t.slots| && ReadyClients(t.slots[i..], e.ready) == []
    ensures Cleared(t, e).slots[i..] == t.slots[i..]
  {
    ReadyMembers(t.slots[i..], e.ready);
    forall j | i <= j < |t.slots|
      ensures Cleared(t, e).slots[j] == t.slots[j]
    {
      assert t.slots[j] in t.slots[i..];
    }
  }

  lemma WatchedAfterClearing(t: Table, e: Event)
    requires Good(t)
    ensures Cleared(t, e).watched == t.watched - set fd | fd in ReadyClients(t.slots, e.ready) && Quits(e, fd)
  {
    ReadyMembers(t.slots, e.ready);
  }

  lemma ReadyStep(slots: seq<int>, i: nat, ready: set<int>)
    requires i < |slots|
    ensures ReadyClients(slots[..i + 1], ready) == ReadyClients(slots[..i], ready) + ReadyClients([slots[i]], ready)
    ensures ReadyClients(slots[i..], ready) == ReadyClients([slots[i]], ready) + ReadyClients(slots[i + 1..], ready)
  {
    assert slots[..i + 1] == slots[..i] + [slots[i]];
    assert slots[i..] == [slots[i]] + slots[i + 1..];
    ReadySplit(slots[..i], [slots[i]], ready);
    ReadySplit([slots[i]], slots[i + 1..], ready);
  }

  lemma {:induction false} NoClientsNoneReady(slots: seq<int>, ready: set<int>)
    requires forall i :: 0 <= i < |slots| ==> slots[i] < 0
    ensures ReadyClients(slots, ready) == []
  {
    if slots != [] {
      NoClientsNoneReady(slots[1..], ready);
    }
  }

  /** The state of the client loop before slot i: slots, watched set, clients served, and how many are left. */
  ghost predicate LoopAt(t: Table, e: Event, i: nat, slots: seq<int>, watched: set<int>, served: seq<int>, left: int)
  {
    && i <= |t.slots| == |slots|
    && slots[..i] == Cleared(t, e).slots[..i] && slots[i..] == t.slots[i..]
    && served == ReadyClients(t.slots[..i], e.ready)
    && watched == t.watched - (set fd | fd in served && Quits(e, fd))
    && left == |ReadyClients(t.slots[i..], e.ready)|
  }

  lemma LoopStart(t: Table, e: Event)
    ensures LoopAt(t, e, 0, t.slots, t.watched, [], |ReadyClients(t.slots, e.ready)|)
  {
    assert t.slots[..0] == [] && t.slots[0..] == t.slots;
  }

  /** Slot i is free or its client is not ready. */
  lemma LoopSkips(t: Table, e: Event, i: nat, slots: seq<int>, watched: set<int>, served: seq<int>, left: int)
    requires Good(t) && i < |slots| && LoopAt(t, e, i, slots, watched, served, left)
    requires !(slots[i] >= 0 && slots[i] in e.ready)
    ensures LoopAt(t, e, i + 1, slots, watched, served, left)
  {
    var c := Cleared(t, e);
    assert slots[i] == slots[i..][0] == t.slots[i..][0] == t.slots[i];
    ReadyStep(t.slots, i, e.ready);
    assert ReadyClients([t.slots[i]], e.ready) == [];
    LoopSlots(c.slots, t.slots, slots, i, slots);
  }

  /** Slot i has a ready client. */
  lemma LoopServes(t: Table, e: Event, i: nat, slots: seq<int>, watched: set<int>, served: seq<int>, left: int)
    requires Good(t) && i < |slots| && LoopAt(t, e, i, slots, watched, served, left)
    requires slots[i] >= 0 && slots[i] in e.ready
    ensures var fd := slots[i];
            if Quits(e, fd) then LoopAt(t, e, i + 1, slots[i := -1], watched - {fd}, served + [fd], left - 1)
            else LoopAt(t, e, i + 1, slots, watched, served + [fd], left - 1)
  {
    var c, fd := Cleared(t, e), slots[i];
    assert slots[i] == slots[i..][0] == t.slots[i..][0] == t.slots[i];
    ReadyStep(t.slots, i, e.ready);
    assert ReadyClients([fd], e.ready) == [fd];
    LoopSlots(c.slots, t.slots, slots, i, if Quits(e, fd) then slots[i := -1] else slots);
  }

  /** Slot i gets its final value; those before it have theirs, and those behind it are as they were. */
  lemma LoopSlots(last: seq<int>, first: seq<int>, slots: seq<int>, i: nat, after: seq<int>)
    requires i < |slots| == |first| == |last| && slots[..i] == last[..i] && slots[i..] == first[i..]
    requires after == slots[i := last[i]]
    ensures after[..i + 1] == last[..i + 1] && after[i + 1..] == first[i + 1..]
  {
    assert last[..i + 1] == last[..i] + [last[i]];
    assert first[i + 1..] == first[i..][1..] && slots[i + 1..] == slots[i..][1..];
  }

  lemma LoopStep(t: Table, e: Event, i: nat, slots: seq<int>, watched: set<int>, served: seq<int>, left: int)
    requires Good(t) && i < |slots| && LoopAt(t, e, i, slots, watched, served, left)
    ensures var fd := slots[i];
            if fd >= 0 && fd in e.ready then
              if Quits(e, fd) then LoopAt(t, e, i + 1, slots[i := -1], watched - {fd}, served + [fd], left - 1)
              else LoopAt(t, e, i + 1, slots, watched, served + [fd], left - 1)
            else LoopAt(t, e, i + 1, slots, watched, served, left)
  {
    if slots[i] >= 0 && slots[i] in e.ready {
      LoopServes(t, e, i, slots, watched, served, left);
    } else {
      LoopSkips(t, e, i, slots, watched, served, left);
    }
  }

  /** What the loop has done once no ready client is left. */
  lemma LoopDone(t: Table, e: Event, i: nat, slots: seq<int>, watched: set<int>, served: seq<int>)
    requires Good(t) && LoopAt(t, e, i, slots, watched, served, 0)
    ensures served == ReadyClients(t.slots, e.ready)
    ensures t.(slots := slots, watched := watched) == Cleared(t, e)
  {
    var c := Cleared(t, e);
    NothingToClear(t, e, i);
    WatchedAfterClearing(t, e);
    ReadySplit(t.slots[..i], t.slots[i..], e.ready);
    assert t.slots == t.slots[..i] + t.slots[i..];
    SameParts(slots, c.slots, i);
  }

  class Server {
    const listener: int
    const clientSock: array<int>
    var gesamt: set<int>
    var max: int
    var sockMax: int

    ghost function Abs(): Table
      reads this, clientSock
    {
      Table(listener, clientSock[..], gesamt, max, sockMax)
    }

    constructor (listener: int, size: nat)
      requires listener >= 0
      ensures Init(Abs()) && |Abs().slots| == size && this.listener == listener && fresh(clientSock)
    {
      var slots := new int[size];
      for i := 0 to size
        invariant forall j :: 0 <= j < i ==> slots[j] == -1
      {
        slots[i] := -1;
      }
      this.listener := listener;
      clientSock := slots;
      gesamt := {listener};
      max := -1;
      sockMax := listener;
    }

    /** The accept branch; `full` says that no slot was left and the program gives up. */
    method Accept(connection: int) returns (full: bool)
      requires Good(Abs())
      modifies this, clientSock
      ensures full == (FirstFree(old(Abs()).slots) == |old(Abs()).slots|)
      ensures Abs() == if full then old(Abs()) else Accepted(old(Abs()), connection)
    {
      var i := 0;
      while i < clientSock.Length
        invariant 0 <= i <= clientSock.Length
        invariant Abs() == old(Abs())
        invariant i <= FirstFree(clientSock[..])
      {
        if clientSock[i] < 0 {
          break;
        }
        i := i + 1;
      }
      if i == clientSock.Length {
        return true;
      }
      clientSock[i] := connection;
      gesamt := gesamt + {connection};
      if connection > sockMax {
        sockMax := connection;
      }
      if i > max {
        max := i;
      }
      return false;
    }

    /** The loop over the client slots; `ready` clients are still to be served. */
    method Serve(e: Event, count: int) returns (served: seq<int>)
      requires Good(Abs()) && listener == Abs().listener && count == |ReadyClients(Abs().slots, e.ready)|
      modifies this, clientSock
      ensures Abs() == Cleared(old(Abs()), e)
      ensures served == ReadyClients(old(Abs()).slots, e.ready)
    {
      ghost var t := Abs();
      var ready := count;
      served := [];
      var i := 0;
      LoopStart(t, e);
      while i <= max
        invariant 0 <= i <= clientSock.Length && max == t.max && sockMax == t.sockMax
        invariant LoopAt(t, e, i, clientSock[..], gesamt, served, ready)
      {
        LoopStep(t, e, i, clientSock[..], gesamt, served, ready);
        var sock := clientSock[i];
        i := i + 1;
        if sock < 0 {
          continue;
        }
        if sock in e.ready {
          served := served + [sock];
          if Quits(e, sock) {
            gesamt := gesamt - {sock};
            clientSock[i - 1] := -1;
          }
          ready := ready - 1;
          if ready <= 0 {
            break;
          }
        }
      }
      if ready > 0 {
        NoClientsNoneReady(t.slots[i..], e.ready);
      }
      LoopDone(t, e, i, clientSock[..], gesamt, served);
    }

    /** One turn of the endless loop, with the event and the number that `select` returned. */
    method Pass(e: Event, count: int) returns (served: seq<int>, full: bool)
      requires Good(Abs()) && Possible(Abs(), e) && count == |e.ready|
      modifies this, clientSock
      ensures full == Overloaded(old(Abs()), e)
      ensures !full ==> Abs() == Passed(old(Abs()), e) && Good(Abs()) && Next(old(Abs()), Abs())
      ensures !full ==> served == ReadyClients(old(Abs()).slots, e.ready)
    {
      ghost var t0 := Abs();
      ghost var t := t0;
      var ready := count;
      served := [];
      full := false;
      ExactService(t0, e);
      if listener in e.ready {
        full := Accept(e.connection);
        if full {
          return;
        }
        t := Accepted(t0, e.connection);
        AcceptedGood(t0, e.connection);
        NewcomerNotReady(t0, e);
        ready := ready - 1;
        if ready <= 0 {
          NothingToClear(t, e, 0);
          WatchedAfterClearing(t, e);
          assert t.slots[0..] == t.slots && Cleared(t, e).slots[0..] == Cleared(t, e).slots;
          PassKeepsGood(t0, e);
          return;
        }
      }
      PassKeepsGood(t0, e);
      served := Serve(e, ready);
    }
  }
}
