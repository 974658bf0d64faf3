/**
 The message-queue protocol of `msq_server.c` and its clients: a client logs in, receives the logins that
 the server broadcasts, logs out and removes its queue, while the server works through its requests and
 its session list one `msgsnd` at a time.
 */
module Broadcast {
  import Runs
  import opened SessionList

  datatype ClientPc = Start | First | Polling | Removing | Gone | Aborted

  /**
   A client and its message queue. `enqueued` and `read` record the queue's whole history, `joined` is the
   index of its own login among all processed logins, and `offered` counts the logins offered to it since.
   */
  datatype Client = Client(
    pc: ClientPc,
    open: bool,
    inbox: seq<int>,
    enqueued: seq<int>,
    read: seq<int>,
    joined: nat,
    offered: nat)

  /** `Distributing(p, k)` is in `verteilen` for the login of p, about to serve the k-th session. */
  datatype ServerPc = Idle | Distributing(p: int, k: nat)

  /** `logins` and `loggedOut` record the requests the server has processed. */
  datatype State = State(
    requests: seq<Request>,
    server: ServerPc,
    sessions: seq<int>,
    clients: map<int, Client>,
    logins: seq<int>,
    loggedOut: set<int>)

  ghost predicate Init(s: State)
  {
    s == State([], Idle, [], map[], [], {})
  }

  function In(c: int): Request { Login(c, "Login") }

  function Put(s: State, c: int, client: Client): State
  {
    s.(clients := s.clients[c := client])
  }

  function Take(client: Client): Client
    requires client.inbox != []
  {
    client.(inbox := client.inbox[1..], read := client.read + [client.inbox[0]])
  }

  /** A step of client c: its creation with a fresh queue id, or the next call of its `main`. */
  ghost predicate ClientStep(s: State, t: State, c: int)
  {
    if c !in s.clients then
      t == Put(s, c, Client(Start, true, [], [], [], 0, 0))
    else
      var client := s.clients[c];
      match client.pc
      case Start => t == Put(s, c, client.(pc := First)).(requests := s.requests + [In(c)])
      case First =>
        || (client.inbox != [] && t == Put(s, c, Take(client).(pc := Polling)))
        || t == Put(s, c, client.(pc := Aborted))   // the first msgrcv was interrupted
      case Polling =>
        || (client.inbox != [] && t == Put(s, c, Take(client)))
        || t == Put(s, c, client.(pc := Removing)).(requests := s.requests + [Logout(c)])
      case Removing => t == Put(s, c, client.(pc := Gone, open := false, inbox := []))
      case _ => false
  }

  /** The next `msgsnd` of `verteilen`, which fails for a removed queue or a message type below 1. */
  function Offer(s: State, c: int, p: int): State
  {
    if c in s.clients && s.clients[c].open then
      var client := s.clients[c];
      Put(s, c, if p >= 1 then client.(inbox := client.inbox + [p], enqueued := client.enqueued + [p], offered := |s.logins|)
                else client.(offered := |s.logins|))
    else s
  }

  /** Logging c in: its queue id joins the list, and what follows is offered to it from here on. */
  function Admit(s: State, c: int): State
  {
    var clients := if c in s.clients
                   then s.clients[c := s.clients[c].(joined := |s.logins|, offered := |s.logins|)]
                   else s.clients;
    s.(sessions := s.sessions + [c], server := Distributing(c, 0), clients := clients, logins := s.logins + [c])
  }

  ghost predicate ServerStep(s: State, t: State)
  {
    match s.server
    case Idle =>
      && s.requests != []
      && (match s.requests[0]
          case Login(c, _) => t == Admit(s, c).(requests := s.requests[1..])
          case Logout(c) =>
            t == s.(requests := s.requests[1..], sessions := Without(s.sessions, c), loggedOut := s.loggedOut + {c})
          case Malformed => false)
    case Distributing(p, k) =>
      if k < |s.sessions| then t == Offer(s, s.sessions[k], p).(server := Distributing(p, k + 1))
      else t == s.(server := Idle)
  }

  ghost predicate Next(s: State, t: State)
  {
    ServerStep(s, t) || exists c :: ClientStep(s, t, c)
  }

  // ---------- the login log ----------

  /** The logged-in ids of `log` that are not among `gone`, in login order. */
  function Live(log: seq<int>, gone: set<int>): seq<int>
  {
    if log == [] then []
    else Live(log[..|log| - 1], gone) + if log[|log| - 1] in gone then [] else [log[|log| - 1]]
  }

  /** The entries that `msgsnd` accepts as a message type. */
  function Positive(log: seq<int>): seq<int>
  {
    if log == [] then []
    else Positive(log[..|log| - 1]) + if log[|log| - 1] >= 1 then [log[|log| - 1]] else []
  }

  lemma {:induction false} LiveMembers(log: seq<int>, gone: set<int>)
    ensures forall c :: c in Live(log, gone) <==> c in log && c !in gone
    ensures Distinct(log) ==> Distinct(Live(log, gone))
  {
    if log != [] {
      var before := log[..|log| - 1];
      var last := log[|log| - 1];
      LiveMembers(before, gone);
      assert log == before + [last];
      if Distinct(log) {
        assert forall i :: 0 <= i < |before| ==> before[i] == log[i];
        assert last !in before;
      }
    }
  }

  lemma LiveAppend(log: seq<int>, c: int, gone: set<int>)
    requires c !in gone
    ensures Live(log + [c], gone) == Live(log, gone) + [c]
  {
    assert (log + [c])[..|log|] == log;
  }

  lemma {:induction false} WithoutAppend(ids: seq<int>, x: int, c: int)
    requires x != c
    ensures Without(ids + [x], c) == Without(ids, c) + [x]
  {
    if ids == [] {
      assert Without([x], c) == [x] + Without([], c);
    } else {
      assert (ids + [x])[1..] == ids[1..] + [x];
      WithoutAppend(ids[1..], x, c);
    }
  }

  /** Removing an id from the session list is what its logout means for the log. */
  lemma {:induction false} LiveLogout(log: seq<int>, gone: set<int>, c: int)
    requires Distinct(log)
    ensures Live(log, gone + {c}) == Without(Live(log, gone), c)
  {
    if log != [] {
      var before := log[..|log| - 1];
      var last := log[|log| - 1];
      assert forall i :: 0 <= i < |before| ==> before[i] == log[i];
      LiveLogout(before, gone, c);
      if last == c {
        LiveMembers(before, gone);
        assert c !in before;
        WithoutAbsent(Live(before, gone), c);
        WithoutFirst(Live(before, gone), c, []);
        assert Live(before, gone) + [c] + [] == Live(before, gone) + [c];
        assert Live(log, gone + {c}) == Live(before, gone);
        assert c in gone ==> Live(log, gone) == Live(before, gone);
      } else if last !in gone {
        WithoutAppend(Live(before, gone), last, c);
      } else {
        assert Live(log, gone) == Live(before, gone) && Live(log, gone + {c}) == Live(before, gone + {c});
      }
    }
  }

  lemma PositiveAppend(log: seq<int>, a: nat)
    requires a < |log|
    ensures Positive(log[a..]) == Positive(log[a..|log| - 1]) + if log[|log| - 1] >= 1 then [log[|log| - 1]] else []
  {
    assert log[a..][..|log| - 1 - a] == log[a..|log| - 1];
  }

  // ---------- the invariant ----------

  /** What the pending and processed requests say about where client c stands. */
  predicate RequestsFit(s: State, c: int)
  {
    if c !in s.clients then
      In(c) !in s.requests && Logout(c) !in s.requests && c !in s.logins && c !in s.loggedOut
    else
      var pc := s.clients[c].pc;
      && (In(c) in s.requests || c in s.logins <==> pc != Start)
      && !(In(c) in s.requests && c in s.logins)
      && (Logout(c) in s.requests || c in s.loggedOut <==> pc == Removing || pc == Gone)
      && !(Logout(c) in s.requests && c in s.loggedOut)
      && (c in s.loggedOut ==> c in s.logins)
      && (pc == Polling || pc == Removing || pc == Gone ==> c in s.logins)
  }

  predicate DistinctRequests(requests: seq<Request>)
  {
    forall i, j :: 0 <= i < j < |requests| ==> requests[i] != requests[j]
  }

  predicate QueueFits(s: State)
  {
    && DistinctRequests(s.requests)
    && forall i :: 0 <= i < |s.requests| ==> s.requests[i].Logout? || (s.requests[i].Login? && s.requests[i].text == "Login")
  }

  predicate SessionsFit(s: State)
  {
    && Distinct(s.logins)
    && s.sessions == Live(s.logins, s.loggedOut)
    && (s.server.Distributing? ==> s.logins != [] && s.server.p == s.logins[|s.logins| - 1] && s.server.k <= |s.sessions|)
  }

  /** Client c is in the list, has its queue, and has not yet been offered the login being distributed. */
  predicate Awaits(s: State, c: int)
  {
    s.server.Distributing? && s.server.k <= |s.sessions| && c in s.sessions[s.server.k..]
  }

  /** What client c's queue has received is the slice of the log from its own login on. */
  predicate InboxFits(s: State, c: int)
    requires c in s.clients
  {
    var client := s.clients[c];
    && (client.open ==> client.enqueued == client.read + client.inbox)
    && client.read <= client.enqueued
    && (client.pc == Start || client.pc == First ==> client.read == [])
    && (client.pc == Polling || client.pc == Removing || client.pc == Gone ==> client.read != [])
    && (client.open <==> client.pc != Gone)
    && if c in s.logins then
         && client.joined <= client.offered <= |s.logins|
         && client.joined < |s.logins| && s.logins[client.joined] == c
         && client.enqueued == Positive(s.logins[client.joined..client.offered])
         && (c in s.sessions && client.open ==> client.offered == |s.logins| - if Awaits(s, c) then 1 else 0)
       else client.enqueued == []
  }

  ghost predicate Inv(s: State)
  {
    && QueueFits(s)
    && SessionsFit(s)
    && (forall c :: RequestsFit(s, c))
    && (forall c :: c in s.clients ==> InboxFits(s, c))
  }

  // ---------- the steps keep the invariant ----------

  /** A client step changes only the client itself, and sends at most one of its two requests. */
  lemma ClientTouchesItself(s: State, t: State, c: int)
    requires ClientStep(s, t, c)
    ensures c in t.clients && t.clients == s.clients[c := t.clients[c]]
    ensures t == s.(clients := t.clients, requests := t.requests)
    ensures t.requests == s.requests || t.requests == s.requests + [In(c)] || t.requests == s.requests + [Logout(c)]
  {
    if c in s.clients {
      assert s.clients[c := t.clients[c]] == t.clients;
    }
  }

  lemma ClientKeepsOthers(s: State, t: State, c: int, d: int)
    requires ClientStep(s, t, c) && d != c && RequestsFit(s, d) && (d in s.clients ==> InboxFits(s, d))
    ensures RequestsFit(t, d) && (d in t.clients ==> InboxFits(t, d))
  {
    ClientTouchesItself(s, t, c);
    assert d in t.clients <==> d in s.clients;
    assert d in s.clients ==> t.clients[d] == s.clients[d];
    assert In(d) in t.requests <==> In(d) in s.requests;
    assert Logout(d) in t.requests <==> Logout(d) in s.requests;
  }

  lemma ClientKeepsItsRequests(s: State, t: State, c: int)
    requires ClientStep(s, t, c) && RequestsFit(s, c) && QueueFits(s) && (c in s.clients ==> InboxFits(s, c))
    ensures RequestsFit(t, c) && QueueFits(t)
  {
    ClientTouchesItself(s, t, c);
  }

  lemma ClientKeepsItsInbox(s: State, t: State, c: int)
    requires ClientStep(s, t, c) && RequestsFit(s, c) && (c in s.clients ==> InboxFits(s, c))
    ensures InboxFits(t, c)
  {
    ClientTouchesItself(s, t, c);
    if c in s.clients {
      var client := s.clients[c];
      if client.open && client.inbox != [] {
        assert client.read + client.inbox == (client.read + [client.inbox[0]]) + client.inbox[1..];
      }
    }
  }

  lemma ClientKeeps(s: State, t: State, c: int)
    requires Inv(s) && ClientStep(s, t, c)
    ensures Inv(t)
  {
    ClientTouchesItself(s, t, c);
    ClientKeepsItsRequests(s, t, c);
    ClientKeepsItsInbox(s, t, c);
    forall d
      ensures RequestsFit(t, d) && (d in t.clients ==> InboxFits(t, d))
    {
      if d != c {
        ClientKeepsOthers(s, t, c, d);
      }
    }
  }

  /** Taking the first request off the queue. */
  lemma HeadRequest(s: State)
    requires QueueFits(s) && s.requests != []
    ensures DistinctRequests(s.requests[1..]) && s.requests[0] !in s.requests[1..]
    ensures forall r :: r in s.requests <==> r == s.requests[0] || r in s.requests[1..]
  {
  }

  lemma AdmitKeepsRequests(s: State, c: int, d: int)
    requires QueueFits(s) && s.requests != [] && s.requests[0] == In(c) && RequestsFit(s, c) && RequestsFit(s, d)
    ensures RequestsFit(Admit(s, c).(requests := s.requests[1..]), d)
  {
    HeadRequest(s);
    assert d in s.logins + [c] <==> d in s.logins || d == c;
  }

  lemma AdmitKeepsInbox(s: State, c: int, d: int)
    requires s.server == Idle && c !in s.logins && d in s.clients && InboxFits(s, d)
    ensures InboxFits(Admit(s, c), d)
  {
    var t := Admit(s, c);
    var client := s.clients[d];
    assert t.sessions[0..] == t.sessions;
    assert d in t.logins <==> d in s.logins || d == c;
    assert d in t.sessions <==> d in s.sessions || d == c;
    if d == c {
      assert t.logins[|s.logins|..|s.logins|] == [];
    } else if d in s.logins {
      assert t.logins[client.joined..client.offered] == s.logins[client.joined..client.offered];
    }
  }

  lemma AdmitKeepsSessions(s: State, c: int)
    requires SessionsFit(s) && c !in s.logins && c !in s.loggedOut
    ensures SessionsFit(Admit(s, c))
  {
    LiveAppend(s.logins, c, s.loggedOut);
  }

  lemma AdmitKeeps(s: State, c: int)
    requires Inv(s) && s.server == Idle && s.requests != [] && s.requests[0] == In(c)
    ensures Inv(Admit(s, c).(requests := s.requests[1..]))
  {
    var u := Admit(s, c);
    var t := u.(requests := s.requests[1..]);
    HeadRequest(s);
    assert c !in s.logins && c !in s.loggedOut by {
      assert RequestsFit(s, c);
    }
    AdmitKeepsSessions(s, c);
    assert QueueFits(t);
    forall d
      ensures RequestsFit(t, d)
    {
      assert RequestsFit(s, d) && RequestsFit(s, c);
      AdmitKeepsRequests(s, c, d);
    }
    forall d | d in t.clients
      ensures InboxFits(t, d)
    {
      AdmitKeepsInbox(s, c, d);
      assert InboxFits(u, d);
    }
  }

  lemma LogoutKeeps(s: State, c: int)
    requires Inv(s) && s.server == Idle && s.requests != [] && s.requests[0] == Logout(c)
    ensures Inv(s.(requests := s.requests[1..], sessions := Without(s.sessions, c), loggedOut := s.loggedOut + {c}))
  {
    var t := s.(requests := s.requests[1..], sessions := Without(s.sessions, c), loggedOut := s.loggedOut + {c});
    HeadRequest(s);
    assert RequestsFit(s, c);
    LiveLogout(s.logins, s.loggedOut, c);
    LiveMembers(s.logins, s.loggedOut);
    LiveMembers(s.logins, t.loggedOut);
    forall d
      ensures RequestsFit(t, d)
    {
      assert RequestsFit(s, d);
    }
    forall d | d in t.clients
      ensures InboxFits(t, d)
    {
      assert InboxFits(s, d);
    }
  }

  /** After an offer the same clients are waiting, except the one just served. */
  lemma OfferAwaits(s: State, t: State, d: int)
    requires SessionsFit(s) && s.server.Distributing? && s.server.k < |s.sessions|
    requires t.sessions == s.sessions && t.server == Distributing(s.server.p, s.server.k + 1)
    ensures Awaits(t, d) <==> Awaits(s, d) && d != s.sessions[s.server.k]
    ensures Awaits(s, s.sessions[s.server.k])
  {
    var k := s.server.k;
    LiveMembers(s.logins, s.loggedOut);
    assert s.sessions[k..] == [s.sessions[k]] + s.sessions[k + 1..];
  }

  lemma OfferTouches(s: State, target: int, p: int, c: int)
    requires c in s.clients && !(c == target && s.clients[c].open)
    ensures c in Offer(s, target, p).clients && Offer(s, target, p).clients[c] == s.clients[c]
  {
  }

  /** The client whose turn it is has then been offered the whole log. */
  lemma OfferServes(s: State, t: State, d: int)
    requires SessionsFit(s) && s.server.Distributing? && s.server.k < |s.sessions| && d in s.clients && InboxFits(s, d)
    requires d == s.sessions[s.server.k] && s.clients[d].open
    requires t == Offer(s, d, s.server.p).(server := Distributing(s.server.p, s.server.k + 1))
    ensures InboxFits(t, d)
  {
    OfferAwaits(s, t, d);
    LiveMembers(s.logins, s.loggedOut);
    var client := s.clients[d];
    PositiveAppend(s.logins, client.joined);
    assert s.logins[client.joined..|s.logins|] == s.logins[client.joined..];
    assert client.offered == |s.logins| - 1 && s.logins[|s.logins| - 1] == s.server.p;
    assert t.clients[d].enqueued == Positive(s.logins[client.joined..]);
  }

  lemma OfferKeepsInbox(s: State, t: State, d: int)
    requires SessionsFit(s) && s.server.Distributing? && s.server.k < |s.sessions| && d in s.clients && InboxFits(s, d)
    requires t == Offer(s, s.sessions[s.server.k], s.server.p).(server := Distributing(s.server.p, s.server.k + 1))
    ensures InboxFits(t, d)
  {
    var target := s.sessions[s.server.k];
    if d == target && s.clients[d].open {
      OfferServes(s, t, d);
    } else {
      OfferAwaits(s, t, d);
      OfferTouches(s, target, s.server.p, d);
      assert t.clients[d] == s.clients[d] && t.logins == s.logins && t.sessions == s.sessions;
    }
  }

  lemma OfferKeeps(s: State, t: State)
    requires Inv(s) && s.server.Distributing? && s.server.k < |s.sessions|
    requires t == Offer(s, s.sessions[s.server.k], s.server.p).(server := Distributing(s.server.p, s.server.k + 1))
    ensures Inv(t)
  {
    forall d
      ensures RequestsFit(t, d)
    {
      assert RequestsFit(s, d);
    }
    forall d | d in t.clients
      ensures InboxFits(t, d)
    {
      OfferKeepsInbox(s, t, d);
    }
  }

  lemma RestKeeps(s: State)
    requires Inv(s) && s.server.Distributing? && s.server.k >= |s.sessions|
    ensures Inv(s.(server := Idle))
  {
    var t := s.(server := Idle);
    forall d
      ensures RequestsFit(t, d)
    {
      assert RequestsFit(s, d);
    }
    forall d | d in t.clients
      ensures InboxFits(t, d)
    {
      assert InboxFits(s, d);
    }
  }

  lemma NextKeeps(s: State, t: State)
    requires Inv(s) && Next(s, t)
    ensures Inv(t)
  {
    if ServerStep(s, t) {
      if s.server == Idle {
        match s.requests[0]
        case Login(c, _) => AdmitKeeps(s, c);
        case Logout(c) => LogoutKeeps(s, c);
      } else if s.server.k < |s.sessions| {
        OfferKeeps(s, t);
      } else {
        RestKeeps(s);
      }
    } else {
      var c :| ClientStep(s, t, c);
      ClientKeeps(s, t, c);
    }
  }

  lemma ReachableInv(s: State)
    requires Runs.Reachable(Init, Next, s)
    ensures Inv(s)
  {
    forall s, t | Inv(s) && Next(s, t) ensures Inv(t) { NextKeeps(s, t); }
    Runs.InvariantOfReachable(Init, Next, Inv, s);
  }

  // ---------- the results ----------

  /** The session list never repeats an id and holds exactly the ids logged in and not logged out, in login order. */
  lemma SessionsAreLive(s: State)
    requires Runs.Reachable(Init, Next, s)
    ensures Distinct(s.logins) && Distinct(s.sessions)
    ensures s.sessions == Live(s.logins, s.loggedOut)
    ensures forall c :: c in s.sessions <==> c in s.logins && c !in s.loggedOut
  {
    ReachableInv(s);
    LiveMembers(s.logins, s.loggedOut);
  }

  /**
   What has been put into a client's queue is a slice of the login log that begins with the client's own
   login. As long as the client is in the list and has its queue the slice reaches to the end of the log,
   apart from the login that is just being distributed.
   */
  lemma InboxIsSlice(s: State, c: int) returns (a: nat, b: nat)
    requires Runs.Reachable(Init, Next, s)
    requires c in s.clients && c in s.logins
    ensures a <= b <= |s.logins| && a < |s.logins| && s.logins[a] == c
    ensures s.clients[c].enqueued == Positive(s.logins[a..b])
    ensures c in s.sessions && s.clients[c].open ==> b == |s.logins| - if Awaits(s, c) then 1 else 0
    ensures s.server == Idle ==> !Awaits(s, c)
  {
    ReachableInv(s);
    assert InboxFits(s, c);
    a, b := s.clients[c].joined, s.clients[c].offered;
  }

  /** The server adds to no queue but that of an open session. */
  lemma ServerTouches(s: State, t: State, c: int)
    requires ServerStep(s, t) && c in s.clients && !(c in s.sessions && s.clients[c].open)
    ensures c in t.clients && t.clients[c].enqueued == s.clients[c].enqueued
  {
    if s.server.Distributing? && s.server.k < |s.sessions| {
      OfferTouches(s, s.sessions[s.server.k], s.server.p, c);
    }
  }

  /** Before its login is processed, and after its logout or the removal of its queue, nothing is enqueued. */
  lemma ClosedReceivesNothing(s: State, t: State, c: int)
    requires Runs.Reachable(Init, Next, s) && Next(s, t)
    requires c in s.clients && !(c in s.sessions && s.clients[c].open)
    ensures c in t.clients && t.clients[c].enqueued == s.clients[c].enqueued
    ensures c !in s.logins ==> s.clients[c].enqueued == []
  {
    assert InboxFits(s, c) by {
      ReachableInv(s);
    }
    if ServerStep(s, t) {
      ServerTouches(s, t, c);
    } else {
      var d :| ClientStep(s, t, d);
      ClientTouchesItself(s, t, d);
    }
  }

  // ---------- a client's inbox over a whole run ----------

  /** Client c is in the session list and has its queue: the two conditions of receiving a broadcast. */
  predicate Receives(s: State, c: int)
  {
    c in s.sessions && c in s.clients && s.clients[c].open
  }

  /** The logins processed when c's turn in the broadcast came last. */
  function Reached(s: State, c: int): int
  {
    |s.logins| - if Awaits(s, c) then 1 else 0
  }

  lemma LogsGrow(s: State, t: State)
    requires Next(s, t)
    ensures s.logins <= t.logins && s.loggedOut <= t.loggedOut
  {
    if !ServerStep(s, t) {
      var d :| ClientStep(s, t, d);
      ClientTouchesItself(s, t, d);
    }
  }

  /** A queue that has been removed stays away. */
  lemma OpenBefore(s: State, t: State, c: int)
    requires Next(s, t) && c in s.clients && c in t.clients && t.clients[c].open
    ensures s.clients[c].open
  {
    if ServerStep(s, t) {
      if s.server.Distributing? && s.server.k < |s.sessions| && !s.clients[c].open {
        OfferTouches(s, s.sessions[s.server.k], s.server.p, c);
      }
    } else {
      var d :| ClientStep(s, t, d);
      ClientTouchesItself(s, t, d);
    }
  }

  lemma LoginProcessed(s: State, t: State, c: int)
    requires Next(s, t) && c !in s.logins && c in t.logins
    ensures s.server == Idle && s.requests != [] && s.requests[0].Login? && s.requests[0].id == c
    ensures t == Admit(s, c).(requests := s.requests[1..])
  {
    if !ServerStep(s, t) {
      var d :| ClientStep(s, t, d);
      ClientTouchesItself(s, t, d);
    }
  }

  /** A client begins to receive when its login is processed. */
  lemma LoginBegins(s: State, t: State, c: int)
    requires Inv(s) && Next(s, t) && c !in s.logins && c in t.logins && c in t.clients
    ensures Receives(t, c)
  {
    LoginProcessed(s, t, c);
    assert s.requests[0] == In(c) && In(c) in s.requests;
    assert c in s.clients && s.clients[c].open by {
      assert RequestsFit(s, c);
      assert InboxFits(s, c);
    }
  }

  /** Once it has stopped it never receives again. */
  lemma StoppedStays(s: State, t: State, c: int)
    requires Inv(s) && Inv(t) && Next(s, t) && c in s.logins && Receives(t, c)
    ensures Receives(s, c)
  {
    LogsGrow(s, t);
    LiveMembers(s.logins, s.loggedOut);
    LiveMembers(t.logins, t.loggedOut);
    assert RequestsFit(s, c);
    OpenBefore(s, t, c);
  }

  /** Whoever does not receive after a step has been sent nothing in it. */
  lemma NotReceivingIsSentNothing(s: State, t: State, c: int)
    requires Inv(s) && Next(s, t) && c in s.clients && !Receives(t, c)
    ensures c in t.clients && t.clients[c].enqueued == s.clients[c].enqueued
  {
    if !ServerStep(s, t) {
      var d :| ClientStep(s, t, d);
      ClientTouchesItself(s, t, d);
    } else if !Receives(s, c) {
      ServerTouches(s, t, c);
    }
  }

  /** In the k-th state c's login has just been processed, and the i-th is the last one in which c receives. */
  ghost predicate Stay(run: seq<State>, c: int, k: nat, i: nat)
  {
    && k <= i < |run|
    && (forall j :: 0 <= j < k ==> c !in run[j].logins)
    && (forall j :: k <= j <= i ==> Receives(run[j], c))
    && (forall j :: i < j < |run| ==> !Receives(run[j], c))
  }

  lemma {:induction false} NotBeforeLogin(run: seq<State>, c: int, n: nat)
    requires Runs.IsRun(Init, Next, run) && n < |run| && c !in run[n].logins
    ensures forall j :: 0 <= j <= n ==> c !in run[j].logins
  {
    if n > 0 {
      LogsGrow(run[n - 1], run[n]);
      assert c !in run[n - 1].logins;
      NotBeforeLogin(run, c, n - 1);
    }
  }

  /** What c's queue has received at the end of a run in which it stopped after the i-th state. */
  ghost predicate ReceivedUntil(s: State, c: int, a: nat, last: State)
  {
    && s.logins <= last.logins
    && a <= Reached(s, c) <= |s.logins| && a < |s.logins| && last.logins[a] == c
    && c in last.clients && last.clients[c].enqueued == Positive(last.logins[a..Reached(s, c)])
  }

  /** The last step of a run, before which c stayed from the k-th to the i-th state. */
  lemma StayGoesOn(run: seq<State>, c: int, k: nat, i: nat) returns (i': nat)
    requires |run| > 1 && Stay(run[..|run| - 1], c, k, i)
    requires Receives(run[|run| - 1], c) ==> Receives(run[|run| - 2], c)
    ensures Stay(run, c, k, i') && (i' == |run| - 1 || (i' == i && !Receives(run[|run| - 1], c)))
  {
    var before, s, last := run[..|run| - 1], run[|run| - 2], run[|run| - 1];
    assert forall j :: 0 <= j < |run| - 1 ==> run[j] == before[j];
    i' := i;
    if Receives(last, c) {
      assert before[|run| - 2] == s;
      i' := |run| - 1;
    }
  }

  lemma ReceivedSoFar(s: State, c: int)
    requires Inv(s) && c in s.logins && Receives(s, c)
    ensures ReceivedUntil(s, c, s.clients[c].joined, s)
  {
    assert InboxFits(s, c);
  }

  lemma ReceivedStays(at: State, c: int, a: nat, s: State, t: State)
    requires ReceivedUntil(at, c, a, s) && s.logins <= t.logins
    requires c in t.clients && t.clients[c].enqueued == s.clients[c].enqueued
    ensures ReceivedUntil(at, c, a, t)
  {
    assert t.logins[a..Reached(at, c)] == s.logins[a..Reached(at, c)];
  }

  lemma StayBegins(run: seq<State>, c: int)
    requires Runs.IsRun(Init, Next, run) && |run| > 1
    requires c !in run[|run| - 2].logins && Receives(run[|run| - 1], c)
    ensures Stay(run, c, |run| - 1, |run| - 1)
  {
    NotBeforeLogin(run, c, |run| - 2);
  }

  lemma RunInv(run: seq<State>)
    requires Runs.IsRun(Init, Next, run)
    ensures forall j :: 0 <= j < |run| ==> Inv(run[j])
  {
    forall s, t | Inv(s) && Next(s, t) ensures Inv(t) { NextKeeps(s, t); }
    Runs.Invariance(Init, Next, Inv, run);
  }

  /**
   Over a whole run a client is in the list with its queue for one stretch, from its login until its logout
   or the removal of its queue, and what its queue has received at the end of the run is exactly what the
   server processed during that stretch: the logins from its own to the last one that was broadcast to it.
   */
  lemma {:induction false} InboxOfRun(run: seq<State>, c: int) returns (k: nat, i: nat, a: nat)
    requires Runs.IsRun(Init, Next, run)
    requires c in run[|run| - 1].clients && c in run[|run| - 1].logins
    ensures Stay(run, c, k, i) && ReceivedUntil(run[i], c, a, run[|run| - 1])
  {
    RunInv(run);
    assert |run| > 1;
    var s, last := run[|run| - 2], run[|run| - 1];
    if c !in s.logins {
      LoginBegins(s, last, c);
      StayBegins(run, c);
      k, i, a := |run| - 1, |run| - 1, last.clients[c].joined;
      ReceivedSoFar(last, c);
    } else {
      assert RequestsFit(s, c);
      k, i, a := InboxOfRun(run[..|run| - 1], c);
      var was := i;
      if Receives(last, c) {
        StoppedStays(s, last, c);
      }
      i := StayGoesOn(run, c, k, was);
      if i == |run| - 1 {
        a := last.clients[c].joined;
        ReceivedSoFar(last, c);
      } else {
        LogsGrow(s, last);
        NotReceivingIsSentNothing(s, last, c);
        ReceivedStays(run[was], c, a, s, last);
      }
    }
  }

  lemma {:induction false} PositiveHead(log: seq<int>)
    ensures forall m :: m in Positive(log) ==> m >= 1
    ensures log != [] && log[0] >= 1 ==> Positive(log) != [] && Positive(log)[0] == log[0]
  {
    if log != [] {
      PositiveHead(log[..|log| - 1]);
    }
  }

  /** The first message a client reads carries its own id, provided the id can be a message type at all. */
  lemma FirstMessageIsOwn(s: State, c: int)
    requires Runs.Reachable(Init, Next, s)
    requires c in s.clients && s.clients[c].read != []
    ensures s.clients[c].read[0] == c <==> c >= 1
  {
    ReachableInv(s);
    assert InboxFits(s, c);
    var client := s.clients[c];
    var slice := s.logins[client.joined..client.offered];
    PositiveHead(slice);
    assert client.read[0] == client.enqueued[0];
    assert client.enqueued[0] in Positive(slice);
  }

  /** With the server at rest, such a client has been offered everything from its own login on, in vain. */
  lemma FirstReceiveEmpty(s: State, c: int)
    requires SessionsFit(s) && RequestsFit(s, c) && c in s.clients && InboxFits(s, c)
    requires s.clients[c].pc == First && s.clients[c].inbox == []
    requires s.server == Idle && s.requests == []
    ensures s.clients[c].joined < |s.logins| && s.logins[s.clients[c].joined] == c
    ensures Positive(s.logins[s.clients[c].joined..]) == []
  {
    LiveMembers(s.logins, s.loggedOut);
    assert s.logins[s.clients[c].joined..|s.logins|] == s.logins[s.clients[c].joined..];
  }

  /** A client still blocked in its first `msgrcv` when the server is at rest has an id no message can carry. */
  lemma FirstReceiveEnds(s: State, c: int)
    requires Runs.Reachable(Init, Next, s)
    requires c in s.clients && s.clients[c].pc == First && s.clients[c].inbox == []
    requires s.server == Idle && s.requests == []
    ensures c < 1
  {
    ReachableInv(s);
    assert RequestsFit(s, c) && InboxFits(s, c);
    FirstReceiveEmpty(s, c);
    var client := s.clients[c];
    PositiveHead(s.logins[client.joined..]);
  }

  /** The server never meets a request it cannot act on. */
  lemma ServerNeverStuck(s: State) returns (t: State)
    requires Runs.Reachable(Init, Next, s)
    requires s.requests != [] || s.server != Idle
    ensures ServerStep(s, t) && Next(s, t)
  {
    ReachableInv(s);
    match s.server
    case Distributing(p, k) =>
      t := if k < |s.sessions| then Offer(s, s.sessions[k], p).(server := Distributing(p, k + 1)) else s.(server := Idle);
    case Idle =>
      var r := s.requests[0];
      t := if r.Login? then Admit(s, r.id).(requests := s.requests[1..])
           else s.(requests := s.requests[1..], sessions := Without(s.sessions, r.id), loggedOut := s.loggedOut + {r.id});
  }

  /** Steps the server has before it without new requests: for each request, the sessions there can be by then. */
  function ServerWork(s: State): nat
  {
    |s.requests| * (|s.sessions| + |s.requests| + 2)
    + match s.server
      case Idle => 0
      case Distributing(_, k) => if k <= |s.sessions| then |s.sessions| - k + 1 else 1
  }

  lemma {:induction false} WithoutShrinks(ids: seq<int>, c: int)
    ensures |Without(ids, c)| <= |ids|
  {
    if ids != [] && ids[0] != c {
      WithoutShrinks(ids[1..], c);
    }
  }

  lemma Distribute(a: int, b: int, c: int)
    ensures a * (b + c) == a * b + a * c
  {
  }

  lemma ProductNonNegative(a: nat, b: nat)
    ensures a * b >= 0
  {
  }

  /** One request fewer outweighs one session more and the steps for all sessions. */
  lemma RequestOutweighs(requests: nat, sessions: nat, after: nat)
    requires requests > 0 && after <= sessions + 1
    ensures (requests - 1) * (after + (requests - 1) + 2) + sessions + 2 < requests * (sessions + requests + 2)
  {
    var fewer, work, spare := requests - 1, after + requests + 1, sessions + 1 - after;
    Distribute(fewer, work, spare);
    ProductNonNegative(fewer, spare);
    Distribute(work + spare, fewer, 1);
  }

  lemma ServerLowersWork(s: State, t: State)
    requires ServerStep(s, t)
    ensures ServerWork(t) < ServerWork(s)
  {
    if s.server == Idle {
      WithoutShrinks(s.sessions, s.requests[0].id);
      RequestOutweighs(|s.requests|, |s.sessions|, |t.sessions|);
    } else {
      assert t.requests == s.requests && t.sessions == s.sessions;
    }
  }

  /** Without new requests the server comes to rest: no request is open then, and no login is being distributed. */
  lemma ServerRests(run: seq<State>)
    requires Runs.IsRun(s => Runs.Reachable(Init, Next, s), ServerStep, run)
    ensures |run| <= ServerWork(run[0]) + 1
    ensures var last := run[|run| - 1];
            (forall t :: !ServerStep(last, t)) <==> last.requests == [] && last.server == Idle
  {
    var start := s => Runs.Reachable(Init, Next, s);
    forall s, t | start(s) && ServerStep(s, t)
      ensures start(t) && ServerWork(t) < ServerWork(s)
    {
      ServerLowersWork(s, t);
      Runs.Extend(Init, Next, s, t);
    }
    Runs.Bounded(start, ServerStep, start, ServerWork, run);
    Runs.Invariance(start, ServerStep, start, run);
    var last := run[|run| - 1];
    assert start(last);
    if last.requests != [] || last.server != Idle {
      var t := ServerNeverStuck(last);
    }
  }

  // ---------- the server's steps and its code ----------

  function Messages(inbox: seq<int>): seq<Message>
  {
    seq(|inbox|, i requires 0 <= i < |inbox| => Message(inbox[i], "Login"))
  }

  /** The kernel's client queues. */
  function QueuesOf(s: State): Queues
  {
    map c | c in s.clients && s.clients[c].open :: Messages(s.clients[c].inbox)
  }

  /** An offer is one `msgsnd`. */
  lemma OfferSends(s: State, c: int, p: int)
    ensures QueuesOf(Offer(s, c, p)) == Send(QueuesOf(s), c, Message(p, "Login"))
  {
    var t := Offer(s, c, p);
    if c in s.clients && s.clients[c].open && p >= 1 {
      var inbox := s.clients[c].inbox;
      assert Messages(inbox + [p]) == Messages(inbox) + [Message(p, "Login")];
    }
    assert QueuesOf(t).Keys == QueuesOf(s).Keys;
  }

  /** A step of the server while it distributes a login. */
  ghost predicate Distributes(s: State, t: State)
  {
    s.server.Distributing? && ServerStep(s, t)
  }

  /** The login of p being distributed to `ids` will leave these queues. */
  predicate WillLeave(s: State, ids: seq<int>, p: int, queues: Queues)
  {
    && s.sessions == ids
    && match s.server
       case Idle => QueuesOf(s) == queues
       case Distributing(q, k) => q == p && k <= |ids| && SendAll(QueuesOf(s), ids[k..], Message(p, "Login")) == queues
  }

  lemma DistributesKeeps(s: State, t: State, ids: seq<int>, p: int, queues: Queues)
    requires WillLeave(s, ids, p, queues) && Distributes(s, t)
    ensures WillLeave(t, ids, p, queues)
  {
    var k := s.server.k;
    if k < |ids| {
      OfferSends(s, ids[k], p);
      assert ids[k..][0] == ids[k] && ids[k..][1..] == ids[k + 1..];
      assert QueuesOf(t) == QueuesOf(Offer(s, ids[k], p));
    } else {
      assert ids[k..] == [] && QueuesOf(t) == QueuesOf(s);
    }
  }

  lemma AdmitKeepsQueues(s: State, c: int)
    ensures QueuesOf(Admit(s, c)) == QueuesOf(s)
  {
  }

  /**
   The server's steps from taking a request until it is idle again, with no client step between, do to list
   and queues what one turn of its dispatch loop does.
   */
  lemma StepsDispatch(s: State, u: State, t: State)
    requires Runs.Reachable(Init, Next, s) && s.server == Idle && s.requests != [] && ServerStep(s, u)
    requires Runs.Reachable(x => x == u, Distributes, t) && t.server == Idle
    ensures s.requests[0] != Malformed
    ensures Dispatched(s.sessions, QueuesOf(s), s.requests[0], t.sessions, QueuesOf(t))
  {
    ReachableInv(s);
    var p := s.requests[0].id;
    var ids := u.sessions;
    var queues := if s.requests[0].Login? then SendAll(QueuesOf(s), ids, Message(p, "Login")) else QueuesOf(s);
    assert QueuesOf(u) == QueuesOf(s) by {
      AdmitKeepsQueues(s, p);
    }
    assert ids[0..] == ids;
    forall x, y | WillLeave(x, ids, p, queues) && Distributes(x, y)
      ensures WillLeave(y, ids, p, queues)
    {
      DistributesKeeps(x, y, ids, p, queues);
    }
    Runs.InvariantOfReachable(x => x == u, Distributes, x => WillLeave(x, ids, p, queues), t);
  }

  // ---------- what a client can always do ----------

  /** Every client stands where it stood, with what it has read, and its queue has lost nothing. */
  predicate SameStand(s: State, t: State)
  {
    && t.clients.Keys == s.clients.Keys
    && forall c :: c in s.clients ==>
         && t.clients[c].pc == s.clients[c].pc && t.clients[c].read == s.clients[c].read
         && s.clients[c].inbox <= t.clients[c].inbox
  }

  lemma ServerKeepsStand(s: State, t: State)
    requires ServerStep(s, t)
    ensures SameStand(s, t)
  {
  }

  /** The server works off all requests while the clients stand still. */
  lemma ServerFinishes(s: State) returns (t: State)
    requires Runs.Reachable(Init, Next, s)
    ensures Runs.Later(Next, s, t) && Runs.Reachable(Init, Next, t) && SameStand(s, t)
    ensures t.requests == [] && t.server == Idle
  {
    var inv := (u: State) => Runs.Reachable(Init, Next, u) && SameStand(s, u);
    var goal := (u: State) => u.requests == [] && u.server == Idle;
    forall u | inv(u) && !goal(u)
      ensures exists v :: ServerStep(u, v)
    {
      var v := ServerNeverStuck(u);
    }
    forall u, v | inv(u) && ServerStep(u, v)
      ensures inv(v) && ServerWork(v) < ServerWork(u)
    {
      ServerKeepsStand(u, v);
      ServerLowersWork(u, v);
      Runs.Extend(Init, Next, u, v);
    }
    t := Runs.Completes(ServerStep, inv, goal, ServerWork, s);
    Runs.Here(Next, s);
    Runs.LaterReachable(u => u == s, Next, ServerStep, s, t);
  }

  lemma ClientGoes(s: State, t: State, u: State, c: int)
    requires Runs.Later(Next, s, t) && Runs.Reachable(Init, Next, t) && ClientStep(t, u, c)
    ensures Runs.Later(Next, s, u) && Runs.Reachable(Init, Next, u)
  {
    Runs.Go(Next, s, t, u);
    Runs.Extend(Init, Next, t, u);
  }

  lemma ServerGoes(s: State, t: State) returns (u: State)
    requires Runs.Later(Next, s, t) && Runs.Reachable(Init, Next, t)
    ensures Runs.Later(Next, s, u) && Runs.Reachable(Init, Next, u) && SameStand(t, u)
    ensures u.requests == [] && u.server == Idle
  {
    u := ServerFinishes(t);
    Runs.LaterTrans(Next, s, t, u);
  }

  /** With the server at rest, a client with a positive id that waits for its first message has one, and is in the list. */
  lemma LoggedIn(s: State, c: int)
    requires Runs.Reachable(Init, Next, s) && s.requests == [] && s.server == Idle
    requires c in s.clients && s.clients[c].pc == First && c >= 1
    ensures s.clients[c].inbox != [] && s.clients[c].read == [] && c in s.sessions
  {
    ReachableInv(s);
    SessionsAreLive(s);
    assert RequestsFit(s, c) && InboxFits(s, c);
    if s.clients[c].inbox == [] {
      FirstReceiveEnds(s, c);
    }
  }

  /** From every reachable state a new client with a positive id can log in and read its own id. */
  lemma CanLogIn(s: State, c: int) returns (t: State)
    requires Runs.Reachable(Init, Next, s) && c !in s.clients && c >= 1
    ensures Runs.Later(Next, s, t) && Runs.Reachable(Init, Next, t)
    ensures c in t.clients && t.clients[c].pc == Polling && t.clients[c].read == [c] && c in t.sessions
  {
    Runs.Here(Next, s);
    var s1 := Put(s, c, Client(Start, true, [], [], [], 0, 0));
    ClientGoes(s, s, s1, c);
    var s2 := Put(s1, c, s1.clients[c].(pc := First)).(requests := s1.requests + [In(c)]);
    ClientGoes(s, s1, s2, c);
    var s3 := ServerGoes(s, s2);
    LoggedIn(s3, c);
    t := Put(s3, c, Take(s3.clients[c]).(pc := Polling));
    ClientGoes(s, s3, t, c);
    FirstMessageIsOwn(t, c);
  }

  /** From every reachable state a client in its polling loop can read all that has been sent to it. */
  lemma {:induction false} CanReadAll(s: State, c: int) returns (t: State)
    requires Runs.Reachable(Init, Next, s) && c in s.clients && s.clients[c].pc == Polling
    ensures Runs.Later(Next, s, t) && c in t.clients && t.clients[c].pc == Polling
    ensures t.clients[c].read == t.clients[c].enqueued == s.clients[c].enqueued
    decreases |s.clients[c].inbox|
  {
    Runs.Here(Next, s);
    assert InboxFits(s, c) by {
      ReachableInv(s);
    }
    if s.clients[c].inbox == [] {
      t := s;
    } else {
      var u := Put(s, c, Take(s.clients[c]));
      ClientGoes(s, s, u, c);
      t := CanReadAll(u, c);
      Runs.LaterTrans(Next, s, u, t);
    }
  }

  /** A client reads its messages in the order in which they were sent to it. */
  lemma ReadsInOrder(s: State, c: int)
    requires Runs.Reachable(Init, Next, s) && c in s.clients
    ensures s.clients[c].read <= s.clients[c].enqueued
    ensures s.clients[c].open ==> s.clients[c].enqueued == s.clients[c].read + s.clients[c].inbox
  {
    ReachableInv(s);
    assert InboxFits(s, c);
  }

  /** The first receive of a client may be interrupted, and the client ends at once. */
  lemma CanBeInterrupted(s: State, c: int) returns (t: State)
    requires Runs.Reachable(Init, Next, s) && c in s.clients && s.clients[c].pc == First
    ensures Next(s, t) && c in t.clients && t.clients[c].pc == Aborted
  {
    t := Put(s, c, s.clients[c].(pc := Aborted));
    assert ClientStep(s, t, c);
  }

  lemma InterruptedEnds(s: State, t: State, c: int)
    requires Next(s, t) && c in s.clients && s.clients[c].pc == Aborted
    ensures c in t.clients && t.clients[c].pc == Aborted
  {
    if ServerStep(s, t) {
      ServerKeepsStand(s, t);
    } else {
      var d :| ClientStep(s, t, d);
      ClientTouchesItself(s, t, d);
    }
  }

  /**
   Such a client never logs out: in every later state its queue is still there, and it is in the session list
   as soon as its login has been processed.
   */
  lemma InterruptedStays(s: State, c: int, t: State)
    requires Runs.Reachable(Init, Next, s) && c in s.clients && s.clients[c].pc == Aborted && Runs.Later(Next, s, t)
    ensures c in t.clients && t.clients[c].pc == Aborted && t.clients[c].open
    ensures c in t.sessions <==> c in t.logins
  {
    var inv := (u: State) => c in u.clients && u.clients[c].pc == Aborted;
    forall u, v | inv(u) && Next(u, v) ensures inv(v) { InterruptedEnds(u, v, c); }
    Runs.InvariantOfReachable(u => u == s, Next, inv, t);
    Runs.LaterReachable(Init, Next, Next, s, t);
    SessionsAreLive(t);
    assert RequestsFit(t, c) && InboxFits(t, c) by {
      ReachableInv(t);
    }
  }

  /** From every reachable state a client in its polling loop can log out: it ends and is no longer in the list. */
  lemma CanLogOut(s: State, c: int) returns (t: State)
    requires Runs.Reachable(Init, Next, s) && c in s.clients && s.clients[c].pc == Polling
    ensures Runs.Later(Next, s, t) && Runs.Reachable(Init, Next, t)
    ensures c in t.clients && t.clients[c].pc == Gone && !t.clients[c].open && c !in t.sessions && c in t.loggedOut
  {
    Runs.Here(Next, s);
    var s1 := Put(s, c, s.clients[c].(pc := Removing)).(requests := s.requests + [Logout(c)]);
    ClientGoes(s, s, s1, c);
    var s2 := ServerGoes(s, s1);
    assert RequestsFit(s2, c) by {
      ReachableInv(s2);
    }
    SessionsAreLive(s2);
    t := Put(s2, c, s2.clients[c].(pc := Gone, open := false, inbox := []));
    ClientGoes(s, s2, t, c);
  }

  // ---------- a run in which a client first reads another id ----------

  lemma ServerReaches(s: State, t: State)
    requires Runs.Reachable(Init, Next, s) && ServerStep(s, t)
    ensures Runs.Reachable(Init, Next, t)
  {
    Runs.Extend(Init, Next, s, t);
  }

  lemma ClientReaches(s: State, t: State, c: int)
    requires Runs.Reachable(Init, Next, s) && ClientStep(s, t, c)
    ensures Runs.Reachable(Init, Next, t)
  {
    Runs.Extend(Init, Next, s, t);
  }

  /** A client that has just logged in, waits for its first message, and has not been sent any. */
  function Waiting(joined: nat, offered: nat): Client
  {
    Client(First, true, [], [], [], joined, offered)
  }

  /** Client c is created and logs in; the server admits it but cannot send it its own id. */
  lemma LoginInVain(c: int)
    requires c < 1
    ensures Runs.Reachable(Init, Next, State([], Idle, [c], map[c := Waiting(0, 1)], [c], {}))
  {
    var s0 := State([], Idle, [], map[], [], {});
    Runs.InitReachable(Init, Next, s0);
    var s1 := State([], Idle, [], map[c := Waiting(0, 0).(pc := Start)], [], {});
    ClientReaches(s0, s1, c);
    var s2 := State([In(c)], Idle, [], map[c := Waiting(0, 0)], [], {});
    assert s2.requests == s1.requests + [In(c)];
    ClientReaches(s1, s2, c);
    var s3 := State([], Distributing(c, 0), [c], map[c := Waiting(0, 0)], [c], {});
    assert s3.requests == s2.requests[1..] && s3.logins == s2.logins + [c] && s3.sessions == s2.sessions + [c];
    ServerReaches(s2, s3);
    var s4 := State([], Distributing(c, 1), [c], map[c := Waiting(0, 1)], [c], {});
    ServerReaches(s3, s4);
    ServerReaches(s4, s4.(server := Idle));
  }

  /** Whatever id below 1 a client has, the first message it reads may carry the id of another one. */
  lemma FirstMessageOfOther(c: int, d: int) returns (s: State)
    requires c < 1 <= d
    ensures Runs.Reachable(Init, Next, s)
    ensures c in s.clients && s.clients[c].read == [d]
  {
    LoginInVain(c);
    var s0 := State([], Idle, [c], map[c := Waiting(0, 1)], [c], {});
    var s1 := Put(s0, d, Waiting(0, 0).(pc := Start));
    ClientReaches(s0, s1, d);
    var s2 := Put(s1, d, Waiting(0, 0)).(requests := [In(d)]);
    assert s2.requests == s1.requests + [In(d)];
    ClientReaches(s1, s2, d);
    var s3 := Admit(s2, d).(requests := []);
    assert s3.requests == s2.requests[1..];
    ServerReaches(s2, s3);
    var s4 := Offer(s3, c, d).(server := Distributing(d, 1));
    assert s3.sessions[0] == c;
    ServerReaches(s3, s4);
    assert s4.clients[c].inbox == [d];
    s := Put(s4, c, Take(s4.clients[c]).(pc := Polling));
    ClientReaches(s4, s, c);
  }
}
