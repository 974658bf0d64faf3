/**
 The session list of `msq_server.c`: a singly linked list of client queue ids behind the global pointer
 `id_first`, the broadcast over it, and the dispatch of one request.
 */
module SessionList {
  import Decimal
  import opened Splitting

  // ---------- the list as a sequence ----------

  predicate Distinct<T(==)>(ids: seq<T>)
  {
    forall i, j :: 0 <= i < j < |ids| ==> ids[i] != ids[j]
  }

  lemma DistinctRemove<T>(ids: seq<T>, k: nat)
    requires Distinct(ids) && k < |ids|
    ensures Distinct(ids[..k] + ids[k + 1..])
  {
    var rest := ids[..k] + ids[k + 1..];
    assert forall i :: 0 <= i < |rest| ==> rest[i] == ids[if i < k then i else i + 1];
  }

  function Without(ids: seq<int>, id: int): seq<int>
  {
    if ids == [] then []
    else if ids[0] == id then ids[1..]
    else [ids[0]] + Without(ids[1..], id)
  }

  /** Only the first occurrence is taken out. */
  lemma {:induction false} WithoutFirst(a: seq<int>, id: int, b: seq<int>)
    requires id !in a
    ensures Without(a + [id] + b, id) == a + b
  {
    var ids := a + [id] + b;
    if a == [] {
      assert ids[1..] == b;
    } else {
      assert ids[1..] == a[1..] + [id] + b;
      WithoutFirst(a[1..], id, b);
    }
  }

  lemma {:induction false} WithoutIndex(ids: seq<int>, k: nat)
    requires k < |ids| && ids[k] !in ids[..k]
    ensures Without(ids, ids[k]) == ids[..k] + ids[k + 1..]
  {
    assert ids == ids[..k] + [ids[k]] + ids[k + 1..];
    WithoutFirst(ids[..k], ids[k], ids[k + 1..]);
  }

  lemma {:induction false} WithoutAbsent(ids: seq<int>, id: int)
    requires id !in ids
    ensures Without(ids, id) == ids
  {
    if ids != [] {
      WithoutAbsent(ids[1..], id);
    }
  }

  // ---------- messages and queues ----------

  datatype Message = Message(priority: int, text: string)
  type Queues = map<int, seq<Message>>

  /** `msgsnd` fails without effect if the queue does not exist or the message type is not positive. */
  function Send(queues: Queues, id: int, m: Message): Queues
  {
    if id in queues && m.priority >= 1 then queues[id := queues[id] + [m]] else queues
  }

  function SendAll(queues: Queues, ids: seq<int>, m: Message): Queues
  {
    if ids == [] then queues else SendAll(Send(queues, ids[0], m), ids[1..], m)
  }

  /** A broadcast appends the message once to the queue of every session that still has one, and touches no other. */
  lemma {:induction false} SendAllDelivers(queues: Queues, ids: seq<int>, m: Message, id: int)
    requires Distinct(ids)
    ensures SendAll(queues, ids, m).Keys == queues.Keys
    ensures id in queues ==>
              SendAll(queues, ids, m)[id] == queues[id] + if id in ids && m.priority >= 1 then [m] else []
  {
    if ids != [] {
      SendAllDelivers(Send(queues, ids[0], m), ids[1..], m, id);
      assert id in ids <==> id == ids[0] || id in ids[1..];
      assert Distinct(ids) ==> ids[0] !in ids[1..];
    }
  }

  function LoginMessage(id: int): Message
  {
    Message(2, Decimal.Print(id) + ":Login")
  }

  function LogoutMessage(id: int): Message
  {
    Message(1, Decimal.Print(id))
  }

  datatype Request = Login(id: int, text: string) | Logout(id: int) | Malformed

  /** What `%s` stores: the first run of non-blank characters. */
  function Word(text: string): string
  {
    var words := Split(text, Decimal.Blank);
    if words == [] then [] else words[0]
  }

  /** How the server reads a request with `sscanf`; `Malformed` stands for a text that leaves a variable unset. */
  function Decode(m: Message): Request
  {
    match Decimal.Scan(m.text)
    case NoNumber => Malformed
    case Number(id, rest) =>
      if m.priority == 1 then Logout(id)
      else if rest == [] || rest[0] != ':' || Word(rest[1..]) == [] then Malformed
      else Login(id, Word(rest[1..]))
  }

  lemma LoginIsWord()
    ensures IsWord("Login", Decimal.Blank)
  {
  }

  /** The white space that `%s` skips and stops at. */
  const WHITE: string := [' ', '\t', '\n', '\U{0B}', '\U{0C}', '\r']

  lemma BlanksAreWhite(c: char)
    ensures Decimal.Blank(c) <==> c in WHITE
  {
    assert WHITE[0] == ' ' && WHITE[1] == '\t' && WHITE[2] == '\n' && WHITE[3] == '\U{0B}' && WHITE[4] == '\U{0C}' && WHITE[5] == '\r';
  }

  lemma FirstWord(gap: string, word: string, rest: string)
    requires forall c :: c in gap ==> c in WHITE
    requires word != [] && forall c :: c in word ==> c !in WHITE
    requires rest == [] || rest[0] in WHITE
    ensures Word(gap + (word + rest)) == word
  {
    forall c: char ensures Decimal.Blank(c) <==> c in WHITE { BlanksAreWhite(c); }
    SplitSkipsGap(gap, word + rest, Decimal.Blank);
    SplitTakesWord(word, rest, Decimal.Blank);
  }

  /** The server takes a request that is not of type 1 for a login with the number and the first word behind its colon. */
  lemma DecodeOfWord(priority: int, id: int, gap: string, word: string, rest: string)
    requires priority != 1 && forall c :: c in gap ==> c in WHITE
    requires word != [] && forall c :: c in word ==> c !in WHITE
    requires rest == [] || rest[0] in WHITE
    ensures Decode(Message(priority, Decimal.Print(id) + (":" + (gap + (word + rest))))) == Login(id, word)
  {
    var text := gap + (word + rest);
    Decimal.ScanOfPrint(id, ":" + text);
    assert (":" + text)[1..] == text;
    FirstWord(gap, word, rest);
  }

  /** The server recovers the queue id of every client message. */
  lemma DecodeOfLogin(id: int)
    ensures Decode(LoginMessage(id)) == Login(id, "Login")
  {
    Decimal.ScanOfPrint(id, ":Login");
    assert ":Login"[1..] == "Login";
    LoginIsWord();
    SplitTakesWord("Login", "", Decimal.Blank);
    assert "Login" + "" == "Login";
  }

  lemma DecodeOfLogout(id: int)
    ensures Decode(LogoutMessage(id)) == Logout(id)
  {
    Decimal.ScanOfPrint(id, "");
    assert Decimal.Print(id) + "" == Decimal.Print(id);
  }

  /** What one request does to the session ids and the queues. */
  predicate Dispatched(ids: seq<int>, queues: Queues, r: Request, ids': seq<int>, queues': Queues)
    requires r != Malformed
  {
    match r
    case Login(id, text) => ids' == ids + [id] && queues' == SendAll(queues, ids', Message(id, text))
    case Logout(id) => ids' == Without(ids, id) && queues' == queues
  }

  // ---------- the linked list ----------

  class Node {
    const id: int   // set when the node is made
    var next: Node?

    constructor (id: int)
      ensures this.id == id && next == null
    {
      this.id := id;
      next := null;
    }
  }

  ghost function Ids(nodes: seq<Node>): (ids: seq<int>)
    ensures |ids| == |nodes| && forall i :: 0 <= i < |nodes| ==> ids[i] == nodes[i].id
  {
    seq(|nodes|, i requires 0 <= i < |nodes| => nodes[i].id)
  }

  /** Without the node k, which is the first with its id, the ids are those without that id. */
  lemma IdsRemove(nodes: seq<Node>, k: nat)
    requires k < |nodes| && nodes[k].id !in Ids(nodes)[..k]
    ensures Ids(nodes[..k] + nodes[k + 1..]) == Without(Ids(nodes), nodes[k].id)
  {
    WithoutIndex(Ids(nodes), k);
    assert Ids(nodes[..k] + nodes[k + 1..]) == Ids(nodes)[..k] + Ids(nodes)[k + 1..];
  }

  class Verwaltung {
    var first: Node?
    ghost var nodes: seq<Node>

    /** The chain from `first` runs through `nodes`, never twice through the same node, and ends in null. */
    ghost predicate Valid()
      reads this, nodes
    {
      && Distinct(nodes)
      && first == (if nodes == [] then null else nodes[0])
      && forall i {:trigger nodes[i].next} :: 0 <= i < |nodes| ==> nodes[i].next == if i + 1 < |nodes| then nodes[i + 1] else null
    }

    ghost function Contents(): (ids: seq<int>)
      reads this
      ensures |ids| == |nodes| && forall i :: 0 <= i < |nodes| ==> ids[i] == nodes[i].id
    {
      Ids(nodes)
    }

    constructor ()
      ensures Valid() && Contents() == [] && nodes == []
    {
      first := null;
      nodes := [];
    }

    /** `mq_verwaltung_add` */
    method Add(id: int)
      requires Valid()
      modifies this, nodes
      ensures Valid() && fresh(set n | n in nodes && n !in old(nodes))
      ensures Contents() == old(Contents()) + [id]
    {
      var node := new Node(id);
      if first == null {
        first := node;
      } else {
        var ptr: Node := first;
        ghost var k := 0;
        while ptr.next != null
          invariant 0 <= k < |nodes| && ptr == nodes[k]
          decreases |nodes| - k
        {
          ptr := ptr.next;
          k := k + 1;
        }
        ptr.next := node;
      }
      nodes := nodes + [node];
    }

    /** Takes the node after `ptr` out of the chain; it is the first one with its id. */
    method Unlink(ptr: Node, ghost k: nat)
      requires Valid() && k + 1 < |nodes| && ptr == nodes[k]
      requires nodes[k + 1].id !in Contents()[..k + 1]
      modifies this, ptr
      ensures Valid() && nodes == old(nodes)[..k + 1] + old(nodes)[k + 2..]
      ensures Contents() == Without(old(Contents()), old(nodes)[k + 1].id)
    {
      ghost var was := nodes;
      ptr.next := ptr.next.next;
      nodes := was[..k + 1] + was[k + 2..];
      DistinctRemove(was, k + 1);
      IdsRemove(was, k + 1);
      forall i | 0 <= i < |nodes|
        ensures nodes[i].next == if i + 1 < |nodes| then nodes[i + 1] else null
      {
        var j := if i <= k then i else i + 1;
        assert nodes[i] == was[j] && (i + 1 < |nodes| ==> nodes[i + 1] == was[if i < k then i + 1 else i + 2]);
        assert j != k ==> was[j] != ptr;
      }
    }

    /** `mq_verwaltung_remove`; a freed node is one that is no longer among `nodes`. */
    method Remove(id: int)
      requires Valid()
      modifies this, nodes
      ensures Valid() && forall n :: n in nodes ==> n in old(nodes)
      ensures Contents() == Without(old(Contents()), id)
    {
      if first == null {
        return;
      }
      if first.id == id {
        first := first.next;
        nodes := nodes[1..];
        return;
      }
      var ptr: Node := first;
      ghost var k := 0;
      while ptr.next != null
        invariant 0 <= k < |nodes| && ptr == nodes[k]
        invariant id !in Contents()[..k + 1]
        invariant Valid() && nodes == old(nodes) && Contents() == old(Contents())
        decreases |nodes| - k
      {
        var tmp: Node := ptr.next;
        if tmp.id == id {
          Unlink(ptr, k);
          return;
        }
        ptr := tmp;
        k := k + 1;
      }
      assert Contents()[..k + 1] == Contents();
      WithoutAbsent(Contents(), id);
    }
  }

  // ---------- the server ----------

  class Server {
    const list: Verwaltung
    var queues: Queues   // the kernel's client queues

    constructor (queues: Queues)
      ensures this.queues == queues && fresh(list) && list.Valid() && list.Contents() == [] && list.nodes == []
    {
      this.queues := queues;
      list := new Verwaltung();
    }

    /** `verteilen` */
    method Verteilen(str: string, p: int)
      requires list.Valid()
      modifies this`queues
      ensures queues == SendAll(old(queues), list.Contents(), Message(p, str))
    {
      var m := Message(p, str);
      var ptr := list.first;
      ghost var k := 0;
      while ptr != null
        invariant 0 <= k <= |list.nodes|
        invariant ptr == if k < |list.nodes| then list.nodes[k] else null
        invariant SendAll(queues, list.Contents()[k..], m) == SendAll(old(queues), list.Contents(), m)
        decreases |list.nodes| - k
      {
        queues := Send(queues, ptr.id, m);
        ptr := ptr.next;
        assert list.Contents()[k..][1..] == list.Contents()[k + 1..];
        k := k + 1;
      }
    }

    /** One turn of the dispatch loop in `main`. */
    method Dispatch(c2s: Message)
      requires list.Valid() && Decode(c2s) != Malformed
      modifies this`queues, list, list.nodes
      ensures list.Valid()
      ensures Dispatched(old(list.Contents()), old(queues), Decode(c2s), list.Contents(), queues)
    {
      var Number(clientId, rest) := Decimal.Scan(c2s.text);
      if c2s.priority == 1 {
        list.Remove(clientId);
      } else {
        list.Add(clientId);
        Verteilen(Word(rest[1..]), clientId);
      }
    }
  }
}
