/**
 Message queues (hal.x86/message.c): a doubly linked list per process, with receive from
 anybody and receive from one sender. A queue stands for a sequence of messages.
 */
module Messages {
  import opened Machine

  const ANY: nat := WORD - 1      // MESSAGE_ANY, -1 as a uint32_t
  const SENT: nat := 0
  const RECEIVED: nat := 0
  const ERR_SEND: nat := 1
  const ERR_RECEIVE: nat := 2

  const TEXT: nat := 512          // MESSAGE_STRING_SIZE
  const LENGTH: nat := 528        // the bytes of a message_t that copy_message copies

  type Text = s: seq<byte> | |s| == TEXT ghost witness ZeroBytes(TEXT)

  datatype Message = Message(sender: u32, receiver: u32, size: u32, signal: u32, text: Text)

  // A message as it lies in memory (hal.x86/include/kmessage.h:16-27).
  function Encode(m: Message): (s: seq<byte>)
    ensures |s| == LENGTH
  {
    Bytes32(m.sender) + Bytes32(m.receiver) + Bytes32(m.size) + Bytes32(m.signal) + m.text
  }

  function Decode(s: seq<byte>): Message
    requires |s| == LENGTH
  {
    Message(Word32(s, 0), Word32(s, 4), Word32(s, 8), Word32(s, 12), s[16..])
  }

  // Copying a message field by field keeps it.
  lemma MessageRoundTrip(m: Message)
    ensures Decode(Encode(m)) == m
  {
    var s := Encode(m);
    WordRoundTrip(m.sender);
    WordRoundTrip(m.receiver);
    WordRoundTrip(m.size);
    WordRoundTrip(m.signal);
    assert s[0..4] == Bytes32(m.sender) && s[4..8] == Bytes32(m.receiver) && s[8..12] == Bytes32(m.size) && s[12..16] == Bytes32(m.signal);
    SameWord(s, 0, Bytes32(m.sender));
    SameWord(s, 4, Bytes32(m.receiver));
    SameWord(s, 8, Bytes32(m.size));
    SameWord(s, 12, Bytes32(m.signal));
    assert s[16..] == m.text;
  }

  lemma SameWord(s: seq<byte>, i: nat, w: seq<byte>)
    requires i + 4 <= |s| && |w| == 4 && s[i..i + 4] == w
    ensures Word32(s, i) == Word32(w, 0)
  {
    assert s[i] == w[0] && s[i + 1] == w[1] && s[i + 2] == w[2] && s[i + 3] == w[3];
  }

  lemma BytesOfMessage(s: seq<byte>)
    requires |s| == LENGTH
    ensures Encode(Decode(s)) == s
  {
    BytesRoundTrip(s, 0);
    BytesRoundTrip(s, 4);
    BytesRoundTrip(s, 8);
    BytesRoundTrip(s, 12);
    assert s == s[0..4] + s[4..8] + s[8..12] + s[12..16] + s[16..];
  }

  // The message that a receive from `who` takes, or |q|.
  function Find(q: seq<Message>, who: nat): (r: nat)
    ensures r <= |q|
    ensures r < |q| ==> who == ANY || q[r].sender == who
    ensures forall i :: 0 <= i < r ==> who != ANY && q[i].sender != who
  {
    if q == [] || who == ANY || q[0].sender == who then 0 else 1 + Find(q[1..], who)
  }

  function Without<T>(s: seq<T>, i: nat): seq<T>
    requires i < |s|
  {
    s[..i] + s[i + 1..]
  }

  // ----- whole runs

  datatype Event = Send(m: Message) | Receive(who: u32)

  // A queue and what its owner has received so far.
  datatype Mail = Mail(queue: seq<Message>, got: seq<Message>)

  function Step(s: Mail, e: Event): Mail {
    match e
    case Send(m) => s.(queue := s.queue + [m])
    case Receive(who) =>
      var i := Find(s.queue, who);
      if i == |s.queue| then s else Mail(Without(s.queue, i), s.got + [s.queue[i]])
  }

  function Run(events: seq<Event>): Mail {
    if events == [] then Mail([], [])
    else Step(Run(events[..|events| - 1]), events[|events| - 1])
  }

  function AllSent(events: seq<Event>): seq<Message> {
    if events == [] then []
    else
      var last := events[|events| - 1];
      AllSent(events[..|events| - 1]) + if last.Send? then [last.m] else []
  }

  // The messages of one sender, in order.
  function From(q: seq<Message>, sender: nat): seq<Message> {
    if q == [] then []
    else if q[0].sender == sender then [q[0]] + From(q[1..], sender)
    else From(q[1..], sender)
  }

  lemma {:induction false} FromAppend(a: seq<Message>, b: seq<Message>, sender: nat)
    ensures From(a + b, sender) == From(a, sender) + From(b, sender)
  {
    if a == [] {
      assert a + b == b;
    } else {
      assert (a + b)[1..] == a[1..] + b;
      FromAppend(a[1..], b, sender);
    }
  }

  // Taking the message a receive finds takes the first one of its sender.
  lemma {:induction false} FindTakesFirst(q: seq<Message>, who: nat, sender: nat)
    requires Find(q, who) < |q|
    ensures var i := Find(q, who);
            From(q, sender) == (if q[i].sender == sender then [q[i]] else []) + From(Without(q, i), sender)
  {
    var i := Find(q, who);
    if i == 0 {
      assert Without(q, 0) == q[1..];
    } else {
      FindTakesFirst(q[1..], who, sender);
      assert Without(q, i) == [q[0]] + Without(q[1..], i - 1);
    }
  }

  // Under any mix of sends and receives, what was received from a sender followed by what
  // is still queued from it is exactly what it sent, in order and unchanged.
  lemma {:induction false} PerSenderFifo(events: seq<Event>, sender: nat)
    ensures From(Run(events).got, sender) + From(Run(events).queue, sender) == From(AllSent(events), sender)
  {
    if events != [] {
      var init, last := events[..|events| - 1], events[|events| - 1];
      PerSenderFifo(init, sender);
      var s := Run(init);
      match last
      case Send(m) =>
        FromAppend(s.queue, [m], sender);
        FromAppend(AllSent(init), [m], sender);
      case Receive(who) =>
        var i := Find(s.queue, who);
        assert AllSent(events) == AllSent(init);
        if i < |s.queue| {
          FromAppend(s.got, [s.queue[i]], sender);
          FindTakesFirst(s.queue, who, sender);
        }
    }
  }

  // No message is lost, made up or received twice.
  lemma {:induction false} NothingLost(events: seq<Event>)
    ensures multiset(Run(events).got) + multiset(Run(events).queue) == multiset(AllSent(events))
  {
    if events != [] {
      var init, last := events[..|events| - 1], events[|events| - 1];
      NothingLost(init);
      var s := Run(init);
      if last.Receive? {
        assert AllSent(events) == AllSent(init);
        if Find(s.queue, last.who) < |s.queue| { OneTaken(s.queue, Find(s.queue, last.who)); }
      }
    }
  }

  lemma OneTaken(q: seq<Message>, i: nat)
    requires i < |q|
    ensures multiset(q) == multiset(Without(q, i)) + multiset([q[i]])
  {
    assert q == q[..i] + ([q[i]] + q[i + 1..]);
  }

  // ----- the linked list

  class Node {
    var message: Message
    var next: Node?
    var prev: Node?

    constructor (message: Message, prev: Node?)
      ensures this.message == message && this.prev == prev && next == null
    {
      this.message, this.prev, next := message, prev, null;
    }
  }

  // The message_t a caller passes by address.
  class Buffer {
    var message: Message

    constructor (message: Message)
      ensures this.message == message
    {
      this.message := message;
    }
  }

  // The part of a process that holds its queue.
  class Mailbox {
    const pid: u32
    var first: Node?
    var last: Node?        // never read; it keeps its old value when a receive from
                           // anybody drains the queue (message.c:167-173)
    var numMessages: nat
    ghost var nodes: seq<Node>

    // CreateKernelProcess and CreateUserProcess set num_messages only
    // (multitasking.c:63, :112); the list is meant to start empty.
    constructor (pid: u32)
      ensures Valid() && this.pid == pid && Contents() == []
    {
      this.pid := pid;
      first, last, numMessages, nodes := null, null, 0, [];
    }

    ghost predicate Valid()
      reads this, nodes
    {
      && numMessages == |nodes|
      && (forall i, j :: 0 <= i < j < |nodes| ==> nodes[i] != nodes[j])
      && first == (if nodes == [] then null else nodes[0])
      && (nodes != [] ==> last == nodes[|nodes| - 1])
      && (forall i {:trigger nodes[i].next} :: 0 <= i < |nodes| ==> nodes[i].next == if i + 1 < |nodes| then nodes[i + 1] else null)
      && (forall i {:trigger nodes[i].prev} :: 0 <= i < |nodes| ==> nodes[i].prev == if i > 0 then nodes[i - 1] else null)
    }

    ghost function Contents(): (q: seq<Message>)
      reads this, nodes
      ensures |q| == |nodes| && forall i :: 0 <= i < |q| ==> q[i] == nodes[i].message
    {
      seq(|nodes|, i requires 0 <= i < |nodes| reads this, nodes => nodes[i].message)
    }

    // ksend_message to this process, past its checks
    method Append(message: Message)
      requires Valid()
      modifies this, nodes
      ensures Valid() && Contents() == old(Contents()) + [message]
      ensures exists n :: fresh(n) && nodes == old(nodes) + [n]
    {
      var node := first;
      ghost var i := 0;
      var newmsg;
      if node == null {
        newmsg := new Node(message, null);
        first := newmsg;
      } else {
        while node.next != null
          invariant 0 <= i < |nodes| && node == nodes[i]
          decreases |nodes| - i
        {
          node, i := node.next, i + 1;
        }
        newmsg := new Node(message, node);
        node.next := newmsg;
      }
      last := newmsg;
      numMessages := numMessages + 1;
      nodes := nodes + [newmsg];
    }

    // Node k leaves the list: the relinking of kreceive_message for a named sender. With a
    // single node the source follows NULL, in message.c:187 or :195; the intent, an empty
    // list, is modelled and `stray` tells that it happened.
    method Unlink(node: Node, ghost k: nat) returns (stray: bool)
      requires Valid() && k < |nodes| && nodes[k] == node
      modifies this, nodes
      ensures Valid() && nodes == Without(old(nodes), k) && stray == (|old(nodes)| == 1)
      ensures forall n <- old(nodes) :: n.message == old(n.message)
    {
      stray := node.next == null && node.prev == null;
      if node.next != null {
        node.next.prev := node.prev;
      } else {
        last := node.prev;
        if node.prev != null { node.prev.next := null; }
      }
      if node.prev != null {
        node.prev.next := node.next;
      } else {
        first := node.next;
        if node.next != null { node.next.prev := null; }
      }
      numMessages := numMessages - 1;
      nodes := Without(nodes, k);
    }

    // The first node leaves the list: receive from anybody.
    method TakeFirst()
      requires Valid() && first != null
      modifies this, nodes
      ensures Valid() && nodes == Without(old(nodes), 0)
      ensures forall n <- old(nodes) :: n.message == old(n.message)
    {
      if first.next != null { first.next.prev := null; }
      first := first.next;
      numMessages := numMessages - 1;
      nodes := nodes[1..];
    }

    // The search for a message of one sender.
    method FindFrom(who: u32) returns (node: Node?, ghost k: nat)
      requires Valid() && who != ANY
      ensures k == Find(Contents(), who) && node == (if k < |nodes| then nodes[k] else null)
    {
      node, k := first, 0;
      while node != null && node.message.sender != who
        invariant 0 <= k <= |nodes| && node == if k < |nodes| then nodes[k] else null
        invariant forall i :: 0 <= i < k ==> Contents()[i].sender != who
        decreases |nodes| - k
      {
        node, k := node.next, k + 1;
      }
    }

    lemma Facts()
      requires Valid()
      ensures first == (if nodes == [] then null else nodes[0]) && numMessages == |nodes| == |Contents()|
      ensures forall k :: 0 <= k < |nodes| ==> nodes[k] !in Without(nodes, k)
      ensures forall k :: 0 <= k < |nodes| ==> Contents()[k] == nodes[k].message
    {
    }

    twostate lemma ContentsWithout(k: nat)
      requires k < |old(nodes)| && nodes == Without(old(nodes), k)
      requires forall n <- old(nodes) :: n.message == old(n.message)
      ensures Contents() == Without(old(Contents()), k)
    {
    }

    // kreceive_message. The node that is taken is freed; no node of the list is.
    method Receive(msg: Buffer?, who: u32) returns (code: nat, stray: bool)
      requires Valid()
      modifies this, nodes, msg
      ensures Valid()
      ensures var q := old(Contents()); var i := Find(q, who);
              if msg == null || i == |q| then
                code == ERR_RECEIVE && !stray && nodes == old(nodes) && Contents() == q && (msg != null ==> msg.message == old(msg.message))
              else
                && code == RECEIVED && nodes == Without(old(nodes), i) && Contents() == Without(q, i)
                && msg.message == q[i] && old(nodes)[i] !in nodes
                && (stray <==> who != ANY && |q| == 1)
    {
      hide Valid, Find, Without, Contents;
      Facts();
      FindFacts(Contents(), who);
      code, stray := ERR_RECEIVE, false;
      if msg == null || first == null || numMessages == 0 { return; }
      var node := first;
      ghost var k := 0;
      if who == ANY {
        TakeFirst();
      } else {
        node, k := FindFrom(who);
        if node == null { return; }
        stray := Unlink(node, k);
      }
      ContentsWithout(k);
      msg.message := node.message;
      code := RECEIVED;
    }
  }

  lemma FindFacts(q: seq<Message>, who: nat)
    ensures Find(q, who) <= |q| && (who == ANY ==> Find(q, who) == 0)
  {
  }

  // ksend_message: the message carries the pids of its sender and receiver from now on.
  method SendMessage(sender: Option<u32>, receiver: Mailbox?, msg: Buffer?) returns (code: nat)
    requires receiver != null ==> receiver.Valid()
    modifies msg, receiver, if receiver == null then [] else receiver.nodes
    ensures receiver != null ==> receiver.Valid()
    ensures if msg == null || sender == None || receiver == null then
              code == ERR_SEND && (receiver != null ==> receiver.Contents() == old(receiver.Contents()))
            else
              && code == SENT && msg.message == old(msg.message).(sender := sender.value, receiver := receiver.pid)
              && receiver.Contents() == old(receiver.Contents()) + [msg.message]
  {
    code := ERR_SEND;
    if msg == null { return; }
    if sender == None || receiver == null { return; }
    msg.message := msg.message.(sender := sender.value, receiver := receiver.pid);
    receiver.Append(msg.message);
    code := SENT;
  }
}
