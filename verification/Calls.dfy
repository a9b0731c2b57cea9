/**
 What each call does, in terms of what its caller asked for: who gets a message and which one
 is taken, who is gone after an exit or a fault, and how a launched process starts
 (hal.x86/syscall.c:12-111).
 */
module Calls {
  import opened Machine
  import opened Frames
  import opened Paging
  import opened Ownership
  import opened Translation
  import opened Boot
  import opened Access
  import opened Elf
  import opened Images
  import Scheduling
  import opened Kernel
  import opened KernelRuns
  import opened Conservation
  import Messages
  import Spaces = AddressSpaceRuns
  import Heap

  // ----- send_message

  // What the caller's memory holds at the address of the message.
  function MessageAt(s: State, buffer: u32): (r: Option<Messages.Message>)
    requires Shape(s) && s.sched.current.Some?
  {
    match ReadBytes(s.loaded.m, s.loaded.ram, Current(s).context, buffer, Messages.LENGTH)
    case None => None
    case Some(bytes) => Some(Messages.Decode(bytes))
  }

  // The word at offset 4 of a message is its receiver.
  lemma ReceiverIsRead(m: Mem, ram: seq<byte>, c: nat, buffer: u32)
    requires |ram| == WORD && buffer + Messages.LENGTH <= WORD && ReadBytes(m, ram, c, buffer, Messages.LENGTH).Some?
    ensures var word := ReadBytes(m, ram, c, Wrap(buffer + 4), 4);
            word.Some? && Word32(word.value, 0) == Messages.Decode(ReadBytes(m, ram, c, buffer, Messages.LENGTH).value).receiver
  {
    hide ReadBytes, ReadByte, Word32;
    ReadBytesAre(m, ram, c, buffer, Messages.LENGTH);
    ReadBytesAre(m, ram, c, buffer + 4, 4);
    var bytes := ReadBytes(m, ram, c, buffer, Messages.LENGTH).value;
    forall at: nat | buffer + 4 <= at < buffer + 8 ensures ReadByte(m, ram, c, at) == Some(bytes[at - buffer]) {}
    var word := ReadBytes(m, ram, c, buffer + 4, 4).value;
    forall i | 0 <= i < 4 ensures word[i] == bytes[4 + i] { assert ReadByte(m, ram, c, buffer + 4 + i) == Some(word[i]); }
    assert bytes[4..8] == word;
    Messages.SameWord(bytes, 4, word);
  }

  // Whether bytes can be read does not depend on what they are.
  lemma {:induction false} SameReadable(m: Mem, ram: seq<byte>, ram': seq<byte>, c: nat, va: nat, n: nat)
    requires |ram| == |ram'| == WORD
    ensures ReadBytes(m, ram, c, va, n).Some? <==> ReadBytes(m, ram', c, va, n).Some?
  {
    hide Phys;
    if n > 0 { SameReadable(m, ram, ram', c, va, n - 1); }
  }

  lemma BoxIsListed(s: State, owner: map<nat, Role>, reserved: set<nat>, pid: nat)
    requires Inv(s, owner, reserved)
    ensures (pid in s.mail <==> Listed(s.sched.procs, pid)) && (pid in s.mail <==> pid in s.nodes)
  {
    hide Spaces.Inv, OwnContexts, HeapOk;
  }

  // Nothing is sent exactly if the address is NULL or the receiver that the message names is no
  // process; else the message, with the caller as its sender, goes to the box of that process
  // and of no other, and nothing is started, ended or woken.
  lemma SendExactly(s: State, buffer: u32, owner: map<nat, Role>, reserved: set<nat>)
    requires Inv(s, owner, reserved) && s.sched.current.Some? && OwnBuffer(s, buffer)
    requires Step(s, Do(Send(buffer))).Some? && MessageAt(s, buffer).Some?
    ensures var s', asked := Step(s, Do(Send(buffer))).value, MessageAt(s, buffer).value;
            && (s' == s <==> buffer == 0 || !Listed(s.sched.procs, asked.receiver))
            && (s' != s ==>
                  && var box, sent := s.mail[asked.receiver], asked.(sender := Current(s).pid);
                  s'.mail == s.mail[asked.receiver := Messages.Mail(box.queue + [sent], box.got)])
            && s'.sched == s.sched && s'.breaks == s.breaks && s'.blocks == s.blocks && s'.starts == s.starts && s'.loaded.m == s.loaded.m
  {
    hide Inv, OwnBuffer, Sent, Write, ReadBytes, Word32, Heap.Malloc, Messages.Decode, Listed;
    InvShape(s, owner, reserved);
    BufferInMemory(s, buffer);
    var c := Current(s).context;
    ReceiverIsRead(s.loaded.m, s.loaded.ram, c, buffer);
    var asked := MessageAt(s, buffer).value;
    BoxIsListed(s, owner, reserved, asked.receiver);
    SendParts(s, buffer);
    assert Outgoing(s, buffer).value.Some? <==> buffer != 0 && asked.receiver in s.mail;
    if Outgoing(s, buffer).value.Some? {
      SendTakes(s, buffer, owner, reserved);
      QueueGrew(s, Sent(s, buffer).value, asked.receiver);
    }
  }

  lemma QueueGrew(s: State, s': State, pid: nat)
    requires pid in s.mail && pid in s'.mail && |s'.mail[pid].queue| == |s.mail[pid].queue| + 1
    ensures s' != s
  {
  }

  lemma BufferInMemory(s: State, buffer: u32)
    requires Shape(s) && s.sched.current.Some? && OwnBuffer(s, buffer)
    ensures buffer + Messages.LENGTH <= WORD
  {
  }

  // ----- every message in a box was sent to it

  // Action e is a send of this message, by the process that it names as the sender and with
  // the receiver it names.
  ghost predicate SentBy(s: State, e: Action, pid: nat, message: Messages.Message)
    requires Shape(s)
  {
    && e.Do? && e.call.Send? && s.sched.current.Some? && MessageAt(s, e.call.buffer).Some?
    && MessageAt(s, e.call.buffer).value.receiver == pid && message == MessageAt(s, e.call.buffer).value.(sender := Current(s).pid)
  }

  lemma LogIsSend(s: State, e: Action, pid: nat, owner: map<nat, Role>, reserved: set<nat>)
    requires Inv(s, owner, reserved) && Proper(s, e) && Step(s, e).Some?
    ensures var log := MailEvent(s, e, pid); |log| <= 1 && (log != [] && log[0].Send? ==> SentBy(s, e, pid, log[0].m))
  {
    hide Inv, OwnBuffer, Write, ReadBytes, Word32, Heap.Malloc, Messages.Decode, Step, Sent;
    InvShape(s, owner, reserved);
    var log := MailEvent(s, e, pid);
    if log != [] && log[0].Send? {
      var buffer := e.call.buffer;
      StepOfSend(s, buffer);
      SendParts(s, buffer);
      SameReadable(s.loaded.m, s.loaded.ram, Outgoing(s, buffer).value.value.1, Current(s).context, buffer, Messages.LENGTH);
      BufferInMemory(s, buffer);
      ReceiverIsRead(s.loaded.m, s.loaded.ram, Current(s).context, buffer);
      SendTakes(s, buffer, owner, reserved);
    }
  }

  lemma StepOfSend(s: State, buffer: u32)
    requires Shape(s) && s.sched.current.Some?
    ensures Step(s, Do(Send(buffer))) == Sent(s, buffer)
  {
  }

  // What is queued for a process, or was received by it, was sent to it by a call on the way,
  // whose message named it, and by the process that the message says.
  lemma {:induction false} MailIsAddressed(s: State, actions: seq<Action>, pid: nat, message: Messages.Message, owner: map<nat, Role>, reserved: set<nat>)
    returns (n: nat)
    requires Inv(s, owner, reserved) && ProperRun(s, actions) && Run(s, actions).Some?
    requires pid in s.mail ==> pid < s.sched.numProc && s.mail[pid] == Messages.Mail([], [])
    requires pid in Run(s, actions).value.mail
    requires message in Run(s, actions).value.mail[pid].queue || message in Run(s, actions).value.mail[pid].got
    ensures n < |actions| && Run(s, actions[..n]).Some? && SentBy(Run(s, actions[..n]).value, actions[n], pid, message)
  {
    hide Inv, Step, Proper, ProperRun, MailEvent, SameDirectory, Frames.Ledger, SentBy, Messages.Find, MailEvents;
    InvShape(s, owner, reserved);
    assert actions != [];
    FewerProper(s, actions);
    var init, e := actions[..|actions| - 1], actions[|actions| - 1];
    var owner1 := RunKeeps(s, init, owner, reserved);
    var s1 := Run(s, init).value;
    MailIsRun(s, init, pid);
    MailOfStep(s1, e, pid);
    LogIsSend(s1, e, pid, owner1, reserved);
    var log := MailEvent(s1, e, pid);
    if log != [] && log[0].Send? && message == log[0].m {
      n := |actions| - 1;
    } else {
      WasThere(s1, Run(s, actions).value, log, pid, message);
      n := MailIsAddressed(s, init, pid, message, owner, reserved);
      assert actions[..n] == init[..n];
    }
  }

  lemma WasThere(s1: State, s': State, log: seq<Messages.Event>, pid: nat, message: Messages.Message)
    requires pid in s'.mail && (message in s'.mail[pid].queue || message in s'.mail[pid].got)
    requires pid in s1.mail ==> s'.mail[pid] == if log == [] then s1.mail[pid] else Messages.Step(s1.mail[pid], log[0])
    requires pid !in s1.mail ==> s'.mail[pid] == Messages.Mail([], [])
    requires !(log != [] && log[0].Send? && message == log[0].m)
    ensures pid in s1.mail && (message in s1.mail[pid].queue || message in s1.mail[pid].got)
  {
    hide Messages.Find;
  }

  // ----- receive_message

  predicate Wanted(m: Messages.Message, who: nat) {
    who == 0xFFFF_FFFF || m.sender == who
  }

  ghost predicate NoneWanted(q: seq<Messages.Message>, who: nat) {
    forall m <- q :: !Wanted(m, who)
  }

  // Message i, the first one wanted, has left the box of pid; all else is as before.
  ghost predicate Takes(mail: map<nat, Messages.Mail>, mail': map<nat, Messages.Mail>, pid: nat, who: nat, i: nat, message: Messages.Message)
    requires pid in mail
  {
    var q := mail[pid].queue;
    && i < |q| && q[i] == message && Wanted(message, who) && (forall j :: 0 <= j < i ==> !Wanted(q[j], who))
    && mail' == mail[pid := Messages.Mail(q[..i] + q[i + 1..], mail[pid].got + [message])]
  }

  // A receive takes the first message in the caller's box that is wanted, and nothing exactly
  // if the address is NULL or there is none. The caller's memory holds it then, it has left the
  // box, the order of the rest stays, and no other box changes.
  lemma ReceiveExactly(s: State, buffer: u32, who: u32, owner: map<nat, Role>, reserved: set<nat>)
    returns (i: nat, message: Messages.Message)
    requires Inv(s, owner, reserved) && s.sched.current.Some? && OwnBuffer(s, buffer) && Received(s, buffer, who).Some?
    ensures Step(s, Do(Receive(buffer, who))) == Received(s, buffer, who)
    ensures Current(s).pid in s.mail
    ensures var s', none := Received(s, buffer, who).value, buffer == 0 || NoneWanted(s.mail[Current(s).pid].queue, who);
            && s'.sched == s.sched && s'.breaks == s.breaks && s'.blocks == s.blocks && s'.starts == s.starts && s'.loaded.m == s.loaded.m
            && (s' == s <==> none) && (!none ==> Takes(s.mail, s'.mail, Current(s).pid, who, i, message) && MessageAt(s', buffer) == Some(message))
  {
    hide Inv, OwnBuffer, Received, Write, ReadBytes, Heap.Free, Messages.Decode, Messages.Encode, Messages.Find;
    InvShape(s, owner, reserved);
    CurrentBox(s, owner, reserved);
    var pid := Current(s).pid;
    var q := s.mail[pid].queue;
    i := Messages.Find(q, who);
    message := if i < |q| then q[i] else Messages.Message(0, 0, 0, 0, ZeroBytes(Messages.TEXT));
    ReceiveParts(s, buffer, who);
    FindsWanted(q, who);
    assert Incoming(s, buffer, who).Some? <==> buffer != 0 && i < |q|;
    if Incoming(s, buffer, who).Some? {
      ReceiveDelivers(s, buffer, who, owner, reserved);
      QueueShrank(s, Received(s, buffer, who).value, pid);
    }
  }

  // What decides the result in eax.
  lemma IncomingExactly(s: State, buffer: u32, who: u32, owner: map<nat, Role>, reserved: set<nat>)
    requires Inv(s, owner, reserved) && s.sched.current.Some?
    ensures Current(s).pid in s.mail
    ensures Incoming(s, buffer, who).Some? <==> buffer != 0 && !NoneWanted(s.mail[Current(s).pid].queue, who)
  {
    hide Inv, Messages.Find, Wanted;
    InvShape(s, owner, reserved);
    CurrentBox(s, owner, reserved);
    FindsWanted(s.mail[Current(s).pid].queue, who);
  }

  lemma QueueShrank(s: State, s': State, pid: nat)
    requires pid in s.mail && pid in s'.mail && |s'.mail[pid].queue| + 1 == |s.mail[pid].queue|
    ensures s' != s
  {
  }

  lemma CurrentBox(s: State, owner: map<nat, Role>, reserved: set<nat>)
    requires Inv(s, owner, reserved) && s.sched.current.Some?
    ensures var pid := Current(s).pid; pid in s.mail && pid in s.nodes && |s.nodes[pid]| == |s.mail[pid].queue|
  {
    hide Spaces.Inv, OwnContexts, ByPid, HeapOk;
    CurrentIsLive(s, owner, reserved);
  }

  lemma FindsWanted(q: seq<Messages.Message>, who: nat)
    ensures var i := Messages.Find(q, who);
            && (i == |q| <==> forall m <- q :: !Wanted(m, who))
            && (i < |q| ==> Wanted(q[i], who)) && i <= |q| && forall j :: 0 <= j < i ==> !Wanted(q[j], who)
  {
    var i := Messages.Find(q, who);
    if i < |q| { assert q[i] in q; }
  }

  // ----- exit

  // After an exit the process is in no list and has no box; its address space is gone, and
  // exactly the frames that it had are free; exactly its three blocks are free; the others keep
  // their order, and the first of them is resumed.
  lemma ExitExactly(s: State, owner: map<nat, Role>, reserved: set<nat>)
    requires Inv(s, owner, reserved) && s.sched.current.Some? && Step(s, Do(Exit)).Some?
    ensures Current(s).pid in s.blocks && s.blocks[Current(s).pid].userStack.Some?
    ensures var s', p, k, b := Step(s, Do(Exit)).value, Current(s), s.sched.current.value, s.blocks[Current(s).pid];
            && s'.sched.current == Some(0) && |s'.sched.procs| == |s.sched.procs| - 1
            && (forall i :: 0 <= i < |s'.sched.procs| ==> s'.sched.procs[i] == s.sched.procs[if i < k then i else i + 1])
            && (forall q :: Listed(s'.sched.procs, q) <==> Listed(s.sched.procs, q) && q != p.pid)
            && s'.mail == s.mail - {p.pid} && s'.blocks == s.blocks - {p.pid} && s'.breaks == s.breaks - {p.context}
            && s'.loaded.ram == s.loaded.ram
            && |s'.loaded.heap| == |s.loaded.heap|
            && (forall i :: 0 <= i < |s.loaded.heap| ==>
                  s'.loaded.heap[i] == if s.loaded.heap[i].Payload() in {b.stack, b.userStack.value, b.record}
                                       then s.loaded.heap[i].(free := true) else s.loaded.heap[i])
            && (forall f :: f in s'.loaded.m.frames.used <==> f in s.loaded.m.frames.used && !FrameOfContext(s, p.context, f))
  {
    hide Inv, Killed, Scheduling.Step, Paging.Destroy, Listed, FrameOfContext;
    InvShape(s, owner, reserved);
    ExitParts(s);
    OneLess(s.sched);
    ExitSelectsHead(s.sched);
    GoneFromList(s, owner, reserved);
    ContextFrames(s, owner, reserved);
  }

  // A frame that plays a role for context c.
  ghost predicate FrameOfContext(s: State, c: nat, f: nat) {
    exists r: Role :: r.c == c && Spaces.Exists(SysOf(s), r) && Spaces.FrameOf(s.loaded.m, r) == f
  }

  lemma ExitSelectsHead(s: Scheduling.Sched)
    requires s.Valid() && s.current.Some? && Scheduling.Step(s, Scheduling.Event.Exit).Some?
    ensures Scheduling.Step(s, Scheduling.Event.Exit).value.current == Some(0)
  {
  }

  lemma GoneFromList(s: State, owner: map<nat, Role>, reserved: set<nat>)
    requires Inv(s, owner, reserved) && s.sched.current.Some? && Killed(s).Some?
    ensures forall q :: Listed(Killed(s).value.sched.procs, q) <==> Listed(s.sched.procs, q) && q != Current(s).pid
  {
    hide Spaces.Inv, Killed, HeapOk, NodesOk, Scheduling.Step, Paging.Destroy, FreeBlocks;
    ExitParts(s);
    ListAfterExit(s.sched, s.breaks.Keys, s.mail.Keys);
  }

  lemma ContextFrames(s: State, owner: map<nat, Role>, reserved: set<nat>)
    requires Inv(s, owner, reserved) && s.sched.current.Some? && Killed(s).Some?
    ensures forall f :: f in Killed(s).value.loaded.m.frames.used <==>
                          f in s.loaded.m.frames.used && !FrameOfContext(s, Current(s).context, f)
  {
    hide Owned, NoUserSlots, KernelIdentity, Killed, OwnContexts, ByPid, HeapOk, NodesOk, Scheduling.Step, Paging.Destroy, FreeBlocks, Spaces.Exists,
      Spaces.FrameOf;
    ExitParts(s);
    CurrentIsLive(s, owner, reserved);
    var c, y := Current(s).context, SysOf(s);
    DestroyKeepsOwned(s.loaded.m, s.k, y.Live(), owner, reserved, c);
    forall f ensures f in OwnedBy(owner, c) <==> FrameOfContext(s, c, f) {
      if f in OwnedBy(owner, c) { RoleExists(y, owner, reserved, f); }
      if FrameOfContext(s, c, f) {
        var r: Role :| r.c == c && Spaces.Exists(y, r) && Spaces.FrameOf(s.loaded.m, r) == f;
        Spaces.RoleIsOwned(y, owner, reserved, r);
      }
    }
  }

  // ----- stores and faults

  // A store goes to the one byte that the caller's tables name, and changes nothing else. One
  // that faults ends the process, as an exit does (idt.c:230-241).
  lemma StoreExactly(s: State, va: u32, b: byte, owner: map<nat, Role>, reserved: set<nat>)
    requires Inv(s, owner, reserved) && s.sched.current.Some? && Step(s, Do(Store(va, b))).Some?
    ensures var s', pa := Step(s, Do(Store(va, b))).value, Phys(s.loaded.m, Current(s).context, va);
            if pa == None then
              && Step(s, Do(Store(va, b))) == Step(s, Do(Exit)) && !Listed(s'.sched.procs, Current(s).pid) && Current(s).context !in s'.breaks
            else
              && s' == s.(loaded := s.loaded.(ram := s'.loaded.ram)) && |s'.loaded.ram| == |s.loaded.ram|
              && ReadByte(s'.loaded.m, s'.loaded.ram, Current(s).context, va) == Some(b)
              && forall x :: 0 <= x < |s.loaded.ram| && x != pa.value ==> s'.loaded.ram[x] == s.loaded.ram[x]
  {
    hide Inv, Killed, Phys, Listed;
    InvShape(s, owner, reserved);
    if Phys(s.loaded.m, Current(s).context, va) == None {
      ExitParts(s);
      GoneFromList(s, owner, reserved);
    }
  }

  // ----- the scheduler's calls

  // The timer and set_timer change nothing but the scheduler's state, by one of its steps.
  lemma TimerExactly(s: State, e: Action)
    requires Shape(s) && Step(s, e).Some? && (e.Timer? || (e.Do? && e.call.SetTimer?))
    ensures var s' := Step(s, e).value;
            && s' == s.(sched := s'.sched)
            && Some(s'.sched) == Scheduling.Step(s.sched, if e.Timer? then Scheduling.Tick(e.cpu) else Scheduling.Event.SetTimer(e.call.cpu, e.call.ms))
  {
    hide Scheduling.Step;
  }

  // ----- launch_elf_program

  // A launch with an entry puts a process at the head of the list that may run at once, in the
  // new address space, in user mode, from that entry and with an empty user stack of its own;
  // its registers fill the end of its kernel stack. It has an empty box and its break is 0. All
  // others are as they were, one entry further on.
  lemma LaunchExactly(s: State, addr: u32)
    requires Shape(s) && s.sched.current.Some? && Launched(s, addr).Some? && NewProgram(s, addr).value.2 != 0
    ensures NewProgram(s, addr).Some? && s.sched.numProc in Launched(s, addr).value.blocks && s.sched.numProc in Launched(s, addr).value.starts
    ensures var s', (_, c, entry), pid := Launched(s, addr).value, NewProgram(s, addr).value, s.sched.numProc;
            var p, b, cpu := s'.sched.procs[0], s'.blocks[pid], s'.starts[pid];
            && p.pid == pid && p.context == c && p.status == Scheduling.Runnable && p.timer == 0
            && b.stack <= p.state && p.state + 72 == b.stack + 4096
            && b.userStack.Some? && cpu.eip == entry && cpu.esp == b.userStack.value + 4096 && cpu.cs % 4 == 3 && cpu.ds % 4 == 3
            && cpu.eflags / 0x200 % 2 == 1
            && s'.mail == s.mail[pid := Messages.Mail([], [])] && s'.breaks == s.breaks[c := 0]
            && |s'.sched.procs| == |s.sched.procs| + 1 && (forall i :: 0 <= i < |s.sched.procs| ==> s'.sched.procs[i + 1] == s.sched.procs[i])
            && s'.sched.current == Some(s.sched.current.value + 1) && s'.sched.ticks == s.sched.ticks
            && s'.blocks - {pid} == s.blocks - {pid} && s'.starts - {pid} == s.starts - {pid}
  {
    hide NewProgram, Housed, Hosted, Launched, Scheduling.Created;
    LaunchParts(s, addr);
    var (l, c, entry) := NewProgram(s, addr).value;
    var (heap, b) := Housed(l.heap, true).value;
    HostedParts(s.(loaded := l, breaks := s.breaks[c := 0]), heap, b, c, entry);
    HasUserStack(l.heap);
    CreatedIs(s.sched, Registers(b), c);
    Scheduling.CreateExactly(s.sched, Registers(b), c);
  }

  lemma CreatedIs(s: Scheduling.Sched, state: nat, c: nat)
    requires s.Valid()
    ensures Scheduling.Step(s, Scheduling.Create(state, c)) == Scheduling.Created(s, state, c)
  {
  }

  lemma HasUserStack(h: seq<Heap.Block>)
    requires Housed(h, true).Some?
    ensures Housed(h, true).value.1.userStack.Some?
  {
    hide Heap.Malloc;
  }

  // It is selected within as many timer interrupts and set_timer calls as there are processes,
  // if the tail of the list stays ready or is idle.
  lemma LaunchedIsSelected(s: State, addr: u32, events: seq<Scheduling.Event>)
    requires Shape(s) && s.sched.current.Some? && Launched(s, addr).Some? && NewProgram(s, addr).Some? && NewProgram(s, addr).value.2 != 0
    requires |events| == |Launched(s, addr).value.sched.procs| && forall e <- events :: Scheduling.KeepsList(e)
    requires var sched := Launched(s, addr).value.sched;
             Scheduling.StaysReady(sched, events, |sched.procs| - 1) || sched.idle == |sched.procs| - 1
    ensures var sched := Launched(s, addr).value.sched;
            exists m :: 0 < m <= |events| && Scheduling.Run(sched, events[..m]).Some? && Scheduling.Run(sched, events[..m]).value.current == Some(0)
  {
    hide Launched, NewProgram, Scheduling.Run, Scheduling.StaysReady;
    LaunchExactly(s, addr);
    Scheduling.ReadyIsSelected(Launched(s, addr).value.sched, events, 0);
  }

  // ----- boot

  // The three first processes run in the kernel, each from its own function, on its own stack
  // and in its own address space; all but idle may run, and nobody has been selected yet.
  lemma BootedExactly(m: Mem, ram: Bytes, heap: seq<Heap.Block>, ticks: u32, entries: (u32, u32, u32), pid: nat)
    requires Booted(m, ram, heap, ticks, entries).Some? && pid < 3
    ensures var s := Booted(m, ram, heap, ticks, entries).value;
            && |s.sched.procs| == 3 && s.sched.current == None && pid in s.blocks && pid in s.starts && pid in s.mail
            && var p, b, cpu := s.sched.procs[2 - pid], s.blocks[pid], s.starts[pid];
            && p.pid == pid && p.context in s.breaks && s.breaks[p.context] == 0 && s.mail[pid] == Messages.Mail([], [])
            && (Scheduling.MayBeSelected(p, ticks) <==> pid != 1) && s.sched.procs[s.sched.idle].pid == 1
            && b.stack <= p.state && p.state + 72 == b.stack + 4096
            && cpu.eip == (if pid == 0 then entries.0 else if pid == 1 then entries.1 else entries.2)
            && cpu.esp == b.stack + 4096 && cpu.cs % 4 == 0 && cpu.eflags / 0x200 % 2 == 1
  {
    hide InitVmm, ThreeContexts, ThreeHoused;
  }
}
