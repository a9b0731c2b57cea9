/**
 Whole runs of the kernel: every process has an address space of its own, nobody changes
 another's memory, and mail is delivered in order, from boot and whatever is called.
 */
module KernelRuns {
  import opened Machine
  import opened Frames
  import opened Paging
  import opened Ownership
  import opened Translation
  import opened Boot
  import opened Access
  import opened Elf
  import opened Images
  import Scheduling
  import opened Kernel
  import Messages
  import Spaces = AddressSpaceRuns
  import Heap

  // ----- the invariant

  predicate Listed(procs: seq<Scheduling.Proc>, pid: nat) {
    exists i :: 0 <= i < |procs| && procs[i].pid == pid
  }

  // Each process has a live context of its own.
  ghost predicate OwnContexts(procs: seq<Scheduling.Proc>, contexts: set<nat>) {
    && (forall i :: 0 <= i < |procs| ==> procs[i].context in contexts)
    && (forall i, j :: 0 <= i < j < |procs| ==> procs[i].context != procs[j].context)
  }

  // The keys are the pids of the processes.
  ghost predicate ByPid(procs: seq<Scheduling.Proc>, pids: set<nat>) {
    forall pid :: pid in pids <==> Listed(procs, pid)
  }

  // What the kernel frees one day is a block of the heap.
  ghost predicate HeapOk(heap: seq<Heap.Block>, nodes: map<nat, seq<nat>>, blocks: map<nat, Blocks>) {
    && Heap.Holds(heap)
    && (forall pid <- nodes :: forall a <- nodes[pid] :: Heap.IsPayload(heap, a))
    && (forall pid <- blocks :: BlocksOk(heap, blocks[pid]))
  }

  ghost predicate BlocksOk(heap: seq<Heap.Block>, b: Blocks) {
    Heap.IsPayload(heap, b.stack) && Heap.IsPayload(heap, b.record) && (b.userStack.Some? ==> Heap.IsPayload(heap, b.userStack.value))
  }

  // One block for each message in a queue.
  ghost predicate NodesOk(mail: map<nat, Messages.Mail>, nodes: map<nat, seq<nat>>) {
    nodes.Keys == mail.Keys && forall pid <- mail :: |nodes[pid]| == |mail[pid].queue|
  }

  ghost predicate Inv(s: State, owner: map<nat, Role>, reserved: set<nat>) {
    && Shape(s) && Spaces.Inv(SysOf(s), owner, reserved)
    && OwnContexts(s.sched.procs, s.breaks.Keys) && ByPid(s.sched.procs, s.mail.Keys) && s.blocks.Keys == s.mail.Keys
    && NodesOk(s.mail, s.nodes) && HeapOk(s.loaded.heap, s.nodes, s.blocks)
  }

  // ----- what is asked of a call

  // An address in the stack that the current process runs on: a heap block. (A kernel process
  // has no other stack than the kernel's for it.)
  predicate OnOwnStack(s: State, at: nat)
    requires Shape(s) && s.sched.current.Some?
  {
    var pid := Current(s).pid;
    pid in s.blocks && InHeap(at)
    && var b := s.blocks[pid]; var stack := if b.userStack.Some? then b.userStack.value else b.stack;
    stack <= at < stack + STACK_SIZE
  }

  predicate Own(s: State, at: nat)
    requires Shape(s) && s.sched.current.Some?
  {
    at < WORD && (UserPage(s.loaded.m, s.k, at / PAGE) || OnOwnStack(s, at))
  }

  ghost predicate OwnBuffer(s: State, buffer: u32)
    requires Shape(s) && s.sched.current.Some?
  {
    buffer + Messages.LENGTH <= WORD && forall at: nat :: buffer <= at < buffer + Messages.LENGTH ==> Own(s, at)
  }

  // The blocks of the heap end in time (heap.c:42 does not see to it).
  predicate EndsInHeap(s: Option<State>) {
    s.Some? ==> Heap.EndOf(s.value.loaded.heap) <= Heap.END
  }

  // What the current process can read.
  ghost function SeenBy(s: State): (image: seq<byte>)
    requires Shape(s) && s.sched.current.Some?
    ensures |image| == WORD
  {
    Seen(s.loaded.m, s.loaded.ram, Current(s).context)
  }

  // launch_elf_program finds the magic number.
  predicate FindsImage(s: State, addr: u32)
    requires Shape(s) && s.sched.current.Some?
  {
    addr != 0 && var magic := ReadBytes(s.loaded.m, s.loaded.ram, Current(s).context, addr, 4);
    magic.Some? && Word32(magic.value, 0) == ELF_MAGIC
  }

  // The blocks of a new process end in the heap.
  predicate HouseFits(heap: seq<Heap.Block>) {
    Housed(heap, true).Some? ==> Heap.EndOf(Housed(heap, true).value.0) <= Heap.END
  }

  // The image lies in user pages of the caller, its segments are to lie in user memory, and
  // the heap has room for the buffers and then for the blocks of the process.
  ghost predicate GoodImage(s: State, addr: u32)
    requires Shape(s) && s.sched.current.Some?
  {
    FindsImage(s, addr) ==>
      var image := SeenBy(s); var n := Count(image, addr);
      && ShownImage(s.loaded.m, s.loaded.ram, s.k, Current(s).context, image, addr, n)
      && AllFit(s.loaded.m, s.k, image, addr, n) && StaysInHeap(s.loaded.heap, image, addr, n)
      && (Staged(s.loaded.heap, image, addr, n).Some? && Entry(image, addr) != 0 ==> HouseFits(Staged(s.loaded.heap, image, addr, n).value))
  }

  // User code stores to its user pages and its stack, and its message buffers lie there;
  // requests for memory and segments are on user pages; what is allocated ends in the heap.
  // The source sees to none of it. Module Stray says what a store or a message elsewhere does.
  ghost predicate Proper(s: State, e: Action)
    requires Shape(s)
  {
    e.Do? && s.sched.current.Some? ==>
      match e.call
      case Send(buffer) => OwnBuffer(s, buffer) && Heap.HasRoom(s.loaded.heap, NODE_SIZE)
      case Receive(buffer, _) => OwnBuffer(s, buffer)
      case Sbrk(request) => Spaces.OnUserPages(SysOf(s), Spaces.Sbrk(Current(s).context, request))
      case Launch(addr) => GoodImage(s, addr)
      case Store(va, _) => Own(s, va)
      case _ => true
  }

  // The call works on the memory of the caller.
  predicate OnOwnMemory(call: Call) {
    call.Exit? || call.Sbrk? || call.Store? || call.Send? || call.Receive?
  }

  // The event is such a call by the process of context a.
  predicate By(s: State, e: Action, a: nat)
    requires Shape(s)
  {
    e.Do? && OnOwnMemory(e.call) && s.sched.current.Some? && Current(s).context == a
  }

  // No user byte of a live context changes, but for those of a caller that works on its own.
  ghost predicate Undisturbed(s: State, s': State, e: Action)
    requires Shape(s) && Shape(s')
  {
    forall a, va: nat :: a in s.breaks && !By(s, e, a) && UserPage(s.loaded.m, s.k, va / PAGE) ==>
      KeepsByte(s.loaded.m, s.loaded.ram, s'.loaded.m, s'.loaded.ram, a, va)
  }

  ghost predicate Kept(s: State, s': State, e: Action, owner': map<nat, Role>, reserved: set<nat>)
    requires Shape(s)
  {
    && Inv(s', owner', reserved) && s'.k == s.k && SameDirectory(s.loaded.m, s'.loaded.m, s.k)
    && s'.loaded.m.frames.Ledger() == s.loaded.m.frames.Ledger()
    && Undisturbed(s, s', e)
    && (forall a <- s.breaks :: By(s, e, a) || a in s'.breaks)
  }

  lemma CurrentIsLive(s: State, owner: map<nat, Role>, reserved: set<nat>)
    requires Inv(s, owner, reserved) && s.sched.current.Some?
    ensures var c, pid := Current(s).context, Current(s).pid;
            c in s.breaks && c != s.k && c in SysOf(s).Live() && pid in s.mail && pid in s.blocks && pid in s.nodes
  {
    hide Spaces.Laid, HeapOk;
    assert Listed(s.sched.procs, Current(s).pid);
  }

  lemma SameIsSame(m: Mem, k: nat)
    ensures SameDirectory(m, m, k)
  {
  }

  // ----- the scheduler's part

  // Schedule and what is done before it keep the contexts and pids of the list.
  lemma SchedKeeps(s: Scheduling.Sched, e: Scheduling.Event, contexts: set<nat>, pids: set<nat>)
    requires s.Valid() && (e.Tick? || e.SetTimer?) && Scheduling.Step(s, e).Some?
    requires OwnContexts(s.procs, contexts) && ByPid(s.procs, pids)
    ensures var s' := Scheduling.Step(s, e).value;
            OwnContexts(s'.procs, contexts) && ByPid(s'.procs, pids)
  {
    hide Scheduling.Step;
    var s' := Scheduling.Step(s, e).value;
    SameListing(s, e);
    SamePids(s.procs, s'.procs);
  }

  lemma SamePids(procs: seq<Scheduling.Proc>, procs': seq<Scheduling.Proc>)
    requires |procs'| == |procs| && forall i :: 0 <= i < |procs| ==> procs'[i].pid == procs[i].pid
    ensures forall pid :: Listed(procs', pid) <==> Listed(procs, pid)
  {
    forall pid ensures Listed(procs', pid) <==> Listed(procs, pid) {
      if Listed(procs, pid) { var i :| 0 <= i < |procs| && procs[i].pid == pid; assert procs'[i].pid == pid; }
    }
  }

  lemma SameListing(s: Scheduling.Sched, e: Scheduling.Event)
    requires s.Valid() && (e.Tick? || e.SetTimer?) && Scheduling.Step(s, e).Some?
    ensures var s' := Scheduling.Step(s, e).value;
            s'.numProc == s.numProc && |s'.procs| == |s.procs| && forall i :: 0 <= i < |s.procs| ==>
              s'.procs[i].pid == s.procs[i].pid && s'.procs[i].context == s.procs[i].context
  {
    hide Scheduling.Schedule, Scheduling.Prepared;
    var s1 := Scheduling.Prepared(s, e).value;
    SamePrepared(s, e);
    Scheduling.ScheduleKeepsProcs(s1, Scheduling.Cpu(e));
  }

  lemma SamePrepared(s: Scheduling.Sched, e: Scheduling.Event)
    requires s.Valid() && (e.Tick? || e.SetTimer?) && Scheduling.Prepared(s, e).Some?
    ensures var s1 := Scheduling.Prepared(s, e).value;
            s1.numProc == s.numProc && |s1.procs| == |s.procs| && forall i :: 0 <= i < |s.procs| ==>
              s1.procs[i].pid == s.procs[i].pid && s1.procs[i].context == s.procs[i].context
  {
  }

  lemma TimerStep(s: State, e: Action, sched: Scheduling.Event, owner: map<nat, Role>, reserved: set<nat>)
    requires Inv(s, owner, reserved) && (sched.Tick? || sched.SetTimer?) && Scheduling.Step(s.sched, sched).Some?
    ensures var s' := s.(sched := Scheduling.Step(s.sched, sched).value);
            Shape(s') && Kept(s, s', e, owner, reserved)
  {
    hide Spaces.Inv, OwnContexts, ByPid, NodesOk, HeapOk, Scheduling.Step, ReadByte, UserPage, Frames.Ledger;
    SameListing(s.sched, sched);
    SchedKeeps(s.sched, sched, s.breaks.Keys, s.mail.Keys);
    SameIsSame(s.loaded.m, s.k);
  }

  // ----- the heap

  lemma MallocKeepsOk(h: seq<Heap.Block>, size: nat, nodes: map<nat, seq<nat>>, blocks: map<nat, Blocks>)
    requires HeapOk(h, nodes, blocks) && 0 < size < WORD && Heap.Malloc(h, size).Some?
    requires Heap.HasRoom(h, size) || Heap.EndOf(Heap.Malloc(h, size).value.0) <= Heap.END
    ensures var (h1, buf) := Heap.Malloc(h, size).value; HeapOk(h1, nodes, blocks) && Heap.IsPayload(h1, buf)
  {
    hide Heap.Malloc, Heap.Holds, Heap.IsPayload, Heap.EndOf, Heap.FirstFit;
    Heap.MallocHoldsExactly(h, size);
  }

  lemma FreeKeepsOk(h: seq<Heap.Block>, addr: nat, nodes: map<nat, seq<nat>>, blocks: map<nat, Blocks>)
    requires HeapOk(h, nodes, blocks)
    ensures HeapOk(Heap.Free(h, addr), nodes, blocks)
  {
    hide Heap.Free, Heap.Holds, Heap.IsPayload, Heap.EndOf;
    Heap.FreeHolds(h, addr);
  }

  lemma FewerKeepOk(h: seq<Heap.Block>, nodes: map<nat, seq<nat>>, nodes': map<nat, seq<nat>>, blocks: map<nat, Blocks>, blocks': map<nat, Blocks>)
    requires HeapOk(h, nodes, blocks) && nodes'.Keys <= nodes.Keys && blocks'.Keys <= blocks.Keys
    requires (forall pid <- nodes' :: forall a <- nodes'[pid] :: a in nodes[pid]) && forall pid <- blocks' :: blocks'[pid] == blocks[pid]
    ensures HeapOk(h, nodes', blocks')
  {
    hide Heap.Holds, Heap.IsPayload;
  }

  // ----- messages

  lemma OwnIsOpen(s: State, at: nat)
    requires Shape(s) && s.sched.current.Some? && Own(s, at)
    ensures Open(s.loaded.m, s.k, at)
  {
    hide UserPage;
  }

  lemma BufferIsOpen(s: State, buffer: u32)
    requires Shape(s) && s.sched.current.Some? && OwnBuffer(s, buffer)
    ensures OpenRange(s.loaded.m, s.k, buffer, Messages.LENGTH) && OpenRange(s.loaded.m, s.k, buffer, 8)
  {
    hide Own, Open;
    forall at: nat | buffer <= at < buffer + Messages.LENGTH ensures Open(s.loaded.m, s.k, at) { OwnIsOpen(s, at); }
  }

  // A write by the current process to addresses of its own disturbs nobody else.
  lemma OwnWrite(s: State, va: u32, data: seq<byte>, owner: map<nat, Role>, reserved: set<nat>)
    requires Inv(s, owner, reserved) && s.sched.current.Some? && OpenRange(s.loaded.m, s.k, va, |data|)
    requires Write(s.loaded.ram, s.loaded.m, Current(s).context, va, data).Some?
    ensures var r := Write(s.loaded.ram, s.loaded.m, Current(s).context, va, data).value;
            && (forall at: nat :: va <= at < va + |data| ==> ReadByte(s.loaded.m, r, Current(s).context, at) == Some(data[at - va]))
            && (forall a, at: nat :: a in s.breaks && a != Current(s).context && UserPage(s.loaded.m, s.k, at / PAGE) ==>
                  KeepsByte(s.loaded.m, s.loaded.ram, s.loaded.m, r, a, at))
  {
    hide Owned, NoUserSlots, KernelIdentity, Write, ReadByte, UserPage, OwnContexts, ByPid, NodesOk, HeapOk;
    var c, m, ram, live := Current(s).context, s.loaded.m, s.loaded.ram, SysOf(s).Live();
    CurrentIsLive(s, owner, reserved);
    WriteEffect(m, s.k, live, owner, reserved, ram, c, va, data);
    var r := Write(ram, m, c, va, data).value;
    forall a, at: nat | a in s.breaks && a != c && UserPage(m, s.k, at / PAGE) ensures ReadByte(m, r, a, at) == ReadByte(m, ram, a, at) {
      UserAddress(m, s.k, at);
      UserIsNotHeap(m, s.k, live, at);
      assert Open(m, s.k, at) && !Touches(c, va, |data|, a, at);
    }
  }

  lemma SendParts(s: State, buffer: u32)
    requires Shape(s) && s.sched.current.Some? && Sent(s, buffer).Some?
    ensures Outgoing(s, buffer).Some?
    ensures Outgoing(s, buffer).value == None ==> Sent(s, buffer) == Some(s)
    ensures Outgoing(s, buffer).value.Some? ==>
              var (to, ram1, message) := Outgoing(s, buffer).value.value;
              && Heap.Malloc(s.loaded.heap, NODE_SIZE).Some? && to in s.mail && to in s.nodes
              && Write(s.loaded.ram, s.loaded.m, Current(s).context, buffer, Bytes32(Current(s).pid) + Bytes32(to)) == Some(ram1)
              && ReadBytes(s.loaded.m, ram1, Current(s).context, buffer, Messages.LENGTH).Some?
              && message == Messages.Decode(ReadBytes(s.loaded.m, ram1, Current(s).context, buffer, Messages.LENGTH).value)
              && var (heap1, node) := Heap.Malloc(s.loaded.heap, NODE_SIZE).value;
              Sent(s, buffer) == Some(s.(loaded := s.loaded.(ram := ram1, heap := heap1),
                mail := s.mail[to := Messages.Step(s.mail[to], Messages.Send(message))], nodes := s.nodes[to := s.nodes[to] + [node]]))
  {
    hide Write, ReadBytes, Heap.Malloc, Messages.Step, Messages.Decode;
  }

  lemma SendStep(s: State, buffer: u32, owner: map<nat, Role>, reserved: set<nat>)
    requires Inv(s, owner, reserved) && s.sched.current.Some? && OwnBuffer(s, buffer) && Sent(s, buffer).Some? && Heap.HasRoom(s.loaded.heap, NODE_SIZE)
    ensures Kept(s, Sent(s, buffer).value, Do(Send(buffer)), owner, reserved)
  {
    hide Spaces.Inv, OwnContexts, ByPid, HeapOk, ReadByte, UserPage, Frames.Ledger, Write, ReadBytes, Sent, Outgoing, Heap.Malloc, Messages.Decode;
    SameIsSame(s.loaded.m, s.k);
    SendParts(s, buffer);
    if Outgoing(s, buffer).value.Some? {
      var (to, ram1, message) := Outgoing(s, buffer).value.value;
      var (heap1, node) := Heap.Malloc(s.loaded.heap, NODE_SIZE).value;
      BufferIsOpen(s, buffer);
      OwnWrite(s, buffer, Bytes32(Current(s).pid) + Bytes32(to), owner, reserved);
      MallocKeepsOk(s.loaded.heap, NODE_SIZE, s.nodes, s.blocks);
      OneNodeMore(heap1, s.nodes, s.blocks, to, node);
      var s' := Sent(s, buffer).value;
      assert s'.mail.Keys == s.mail.Keys && s'.nodes.Keys == s.nodes.Keys;
    }
  }

  lemma OneNodeMore(h: seq<Heap.Block>, nodes: map<nat, seq<nat>>, blocks: map<nat, Blocks>, to: nat, node: nat)
    requires HeapOk(h, nodes, blocks) && to in nodes && Heap.IsPayload(h, node)
    ensures HeapOk(h, nodes[to := nodes[to] + [node]], blocks)
  {
    hide Heap.Holds, Heap.IsPayload;
  }

  lemma ReceiveParts(s: State, buffer: u32, who: u32)
    requires Shape(s) && s.sched.current.Some? && Received(s, buffer, who).Some?
    ensures Incoming(s, buffer, who) == None ==> Received(s, buffer, who) == Some(s)
    ensures Incoming(s, buffer, who).Some? ==>
              var i, pid := Incoming(s, buffer, who).value, Current(s).pid;
              && pid in s.nodes && i == Messages.Find(s.mail[pid].queue, who) && i < |s.nodes[pid]|
              && var r := Write(s.loaded.ram, s.loaded.m, Current(s).context, buffer, Messages.Encode(s.mail[pid].queue[i]));
              && r.Some?
              && Received(s, buffer, who) == Some(s.(loaded := s.loaded.(ram := r.value, heap := Heap.Free(s.loaded.heap, s.nodes[pid][i])),
                   mail := s.mail[pid := Messages.Step(s.mail[pid], Messages.Receive(who))],
                   nodes := s.nodes[pid := Messages.Without(s.nodes[pid], i)]))
  {
    hide Write, Heap.Free, Messages.Step, Messages.Encode, Messages.Find, Messages.Without;
  }

  lemma ReceiveStep(s: State, buffer: u32, who: u32, owner: map<nat, Role>, reserved: set<nat>)
    requires Inv(s, owner, reserved) && s.sched.current.Some? && OwnBuffer(s, buffer) && Received(s, buffer, who).Some?
    ensures Kept(s, Received(s, buffer, who).value, Do(Receive(buffer, who)), owner, reserved)
  {
    hide Spaces.Inv, OwnContexts, ByPid, NodesOk, HeapOk, ReadByte, UserPage, Frames.Ledger, Write, Received, Incoming, Heap.Free, Messages.Encode,
      Messages.Step, Messages.Find, Messages.Without;
    SameIsSame(s.loaded.m, s.k);
    ReceiveParts(s, buffer, who);
    if Incoming(s, buffer, who).Some? {
      var i, pid := Incoming(s, buffer, who).value, Current(s).pid;
      OneMessageLess(s.mail, s.nodes, pid, who);
      BufferIsOpen(s, buffer);
      OwnWrite(s, buffer, Messages.Encode(s.mail[pid].queue[i]), owner, reserved);
      FreeKeepsOk(s.loaded.heap, s.nodes[pid][i], s.nodes, s.blocks);
      WithoutIn(s.nodes[pid], i);
      FewerKeepOk(Heap.Free(s.loaded.heap, s.nodes[pid][i]), s.nodes, s.nodes[pid := Messages.Without(s.nodes[pid], i)], s.blocks, s.blocks);
      var s' := Received(s, buffer, who).value;
      assert s'.mail.Keys == s.mail.Keys && s'.nodes.Keys == s.nodes.Keys;
    }
  }

  lemma OneMessageLess(mail: map<nat, Messages.Mail>, nodes: map<nat, seq<nat>>, pid: nat, who: u32)
    requires NodesOk(mail, nodes) && pid in mail && Messages.Find(mail[pid].queue, who) < |mail[pid].queue|
    ensures var i := Messages.Find(mail[pid].queue, who);
            i < |nodes[pid]| && NodesOk(mail[pid := Messages.Step(mail[pid], Messages.Receive(who))], nodes[pid := Messages.Without(nodes[pid], i)])
  {
  }

  lemma WithoutIn(s: seq<nat>, i: nat)
    requires i < |s|
    ensures forall a <- Messages.Without(s, i) :: a in s
  {
  }

  // What a receive puts into the caller's memory is the message, byte by byte; and what a send
  // queues is what the caller's memory holds once both pids are written into it.
  lemma ReceiveDelivers(s: State, buffer: u32, who: u32, owner: map<nat, Role>, reserved: set<nat>)
    requires Inv(s, owner, reserved) && s.sched.current.Some? && OwnBuffer(s, buffer) && Received(s, buffer, who).Some?
    requires Incoming(s, buffer, who).Some?
    ensures var s', message := Received(s, buffer, who).value, s.mail[Current(s).pid].queue[Incoming(s, buffer, who).value];
            var r := ReadBytes(s'.loaded.m, s'.loaded.ram, Current(s).context, buffer, Messages.LENGTH);
            r.Some? && Messages.Decode(r.value) == message
  {
    hide Spaces.Inv, OwnContexts, ByPid, NodesOk, HeapOk, ReadByte, UserPage, Write, Received, Incoming, Heap.Free, Messages.Encode, Messages.Decode, ReadBytes;
    ReceiveParts(s, buffer, who);
    var message := s.mail[Current(s).pid].queue[Incoming(s, buffer, who).value];
    var s' := Received(s, buffer, who).value;
    BufferIsOpen(s, buffer);
    OwnWrite(s, buffer, Messages.Encode(message), owner, reserved);
    ReadBytesAre(s'.loaded.m, s'.loaded.ram, Current(s).context, buffer, Messages.LENGTH);
    var r := ReadBytes(s'.loaded.m, s'.loaded.ram, Current(s).context, buffer, Messages.LENGTH).value;
    forall i | 0 <= i < Messages.LENGTH ensures r[i] == Messages.Encode(message)[i] {
      assert ReadByte(s'.loaded.m, s'.loaded.ram, Current(s).context, buffer + i) == Some(r[i]);
    }
    assert r == Messages.Encode(message);
    Messages.MessageRoundTrip(message);
  }

  lemma SendTakes(s: State, buffer: u32, owner: map<nat, Role>, reserved: set<nat>)
    requires Inv(s, owner, reserved) && s.sched.current.Some? && OwnBuffer(s, buffer) && Sent(s, buffer).Some?
    requires Outgoing(s, buffer).value.Some? && ReadBytes(s.loaded.m, s.loaded.ram, Current(s).context, buffer, Messages.LENGTH).Some?
    ensures var s', (to, _, message) := Sent(s, buffer).value, Outgoing(s, buffer).value.value;
            && s'.mail[to].queue == s.mail[to].queue + [message]
            && message == Messages.Decode(ReadBytes(s.loaded.m, s.loaded.ram, Current(s).context, buffer, Messages.LENGTH).value).(sender := Current(s).pid, receiver := to)
  {
    hide Spaces.Inv, OwnContexts, ByPid, NodesOk, HeapOk, ReadByte, UserPage, Write, Sent, Outgoing, Heap.Malloc, ReadBytes;
    SendParts(s, buffer);
    var (to, ram1, message) := Outgoing(s, buffer).value.value;
    var m, ram, c, head := s.loaded.m, s.loaded.ram, Current(s).context, Bytes32(Current(s).pid) + Bytes32(to);
    BufferIsOpen(s, buffer);
    OwnWrite(s, buffer, head, owner, reserved);
    OwnElsewhere(s, buffer, head, owner, reserved);
    ReadBytesAre(m, ram, c, buffer, Messages.LENGTH);
    ReadBytesAre(m, ram1, c, buffer, Messages.LENGTH);
    var before, after := ReadBytes(m, ram, c, buffer, Messages.LENGTH).value, ReadBytes(m, ram1, c, buffer, Messages.LENGTH).value;
    forall i | 0 <= i < Messages.LENGTH ensures after[i] == if i < 8 then head[i] else before[i] {
      assert ReadByte(m, ram1, c, buffer + i) == Some(after[i]);
    }
    Restamped(before, after, Current(s).pid, to);
  }

  // The caller reads the rest of its memory as before.
  lemma OwnElsewhere(s: State, va: u32, data: seq<byte>, owner: map<nat, Role>, reserved: set<nat>)
    requires Inv(s, owner, reserved) && s.sched.current.Some? && OpenRange(s.loaded.m, s.k, va, |data|)
    requires Write(s.loaded.ram, s.loaded.m, Current(s).context, va, data).Some?
    ensures var r := Write(s.loaded.ram, s.loaded.m, Current(s).context, va, data).value;
            forall at: nat :: Open(s.loaded.m, s.k, at) && !(va <= at < va + |data|) ==>
              ReadByte(s.loaded.m, r, Current(s).context, at) == ReadByte(s.loaded.m, s.loaded.ram, Current(s).context, at)
  {
    hide Owned, NoUserSlots, KernelIdentity, Write, ReadByte, UserPage, OwnContexts, ByPid, NodesOk, HeapOk;
    CurrentIsLive(s, owner, reserved);
    WriteEffect(s.loaded.m, s.k, SysOf(s).Live(), owner, reserved, s.loaded.ram, Current(s).context, va, data);
  }

  lemma Restamped(before: seq<byte>, after: seq<byte>, sender: u32, receiver: u32)
    requires |before| == |after| == Messages.LENGTH
    requires forall i :: 0 <= i < Messages.LENGTH ==> after[i] == if i < 8 then (Bytes32(sender) + Bytes32(receiver))[i] else before[i]
    ensures Messages.Decode(after) == Messages.Decode(before).(sender := sender, receiver := receiver)
  {
    hide Bytes32, Word32;
    assert after[0..4] == Bytes32(sender) && after[4..8] == Bytes32(receiver);
    Messages.SameWord(after, 0, Bytes32(sender));
    Messages.SameWord(after, 4, Bytes32(receiver));
    WordRoundTrip(sender);
    WordRoundTrip(receiver);
    Messages.SameWord(after, 8, before[8..12]);
    Messages.SameWord(before, 8, before[8..12]);
    Messages.SameWord(after, 12, before[12..16]);
    Messages.SameWord(before, 12, before[12..16]);
    assert after[8..12] == before[8..12] && after[12..16] == before[12..16] && after[16..] == before[16..];
  }

  // ----- sbrk, exit and stores

  lemma SbrkStep(s: State, e: Action, request: u32, owner: map<nat, Role>, reserved: set<nat>) returns (owner': map<nat, Role>)
    requires Inv(s, owner, reserved) && s.sched.current.Some? && e == Do(Call.Sbrk(request)) && Proper(s, e) && Step(s, e).Some?
    ensures Kept(s, Step(s, e).value, e, owner', reserved)
  {
    hide Spaces.Laid, Spaces.Step, Spaces.OnUserPages, Walk, UserPage, Scheduling.Step, SameDirectory, OwnContexts, ByPid, NodesOk, HeapOk,
      Frames.Ledger, KeepsByte, ReadByte;
    var c, y := Current(s).context, SysOf(s);
    var op := Spaces.Sbrk(c, request);
    owner' := Spaces.StepKeepsInv(y, op, owner, reserved);
    SbrkKeys(y, c, request);
    var s' := Step(s, e).value;
    forall a, va: nat | a in s.breaks && !By(s, e, a) && UserPage(s.loaded.m, s.k, va / PAGE)
      ensures KeepsByte(s.loaded.m, s.loaded.ram, s'.loaded.m, s'.loaded.ram, a, va)
    {
      SameWalkKept(s.loaded.m, s'.loaded.m, s.loaded.ram, a, va);
    }
  }

  lemma SameWalkKept(m: Mem, m': Mem, ram: seq<byte>, a: nat, va: nat)
    requires |ram| == WORD && Walk(m', a, va / PAGE) == Walk(m, a, va / PAGE)
    ensures KeepsByte(m, ram, m', ram, a, va)
  {
    SameWalkSameByte(m, m', ram, a, va);
  }

  lemma SbrkKeys(y: Spaces.Sys, c: nat, request: u32)
    requires Spaces.Step(y, Spaces.Sbrk(c, request)).Some?
    ensures var y' := Spaces.Step(y, Spaces.Sbrk(c, request)).value; y'.breaks.Keys == y.breaks.Keys && y'.k == y.k
  {
  }

  // Who is left after the current process has gone.
  lemma ListAfterExit(s: Scheduling.Sched, contexts: set<nat>, pids: set<nat>)
    requires s.Valid() && s.current.Some? && Scheduling.Step(s, Scheduling.Event.Exit).Some?
    requires OwnContexts(s.procs, contexts) && ByPid(s.procs, pids)
    ensures var s', p := Scheduling.Step(s, Scheduling.Event.Exit).value, s.procs[s.current.value];
            OwnContexts(s'.procs, contexts - {p.context}) && ByPid(s'.procs, pids - {p.pid}) && s'.numProc == s.numProc
  {
    hide Scheduling.Step;
    var s', k := Scheduling.Step(s, Scheduling.Event.Exit).value, s.current.value;
    OneLess(s);
    var p := s.procs[k];
    forall pid ensures pid in pids - {p.pid} <==> Listed(s'.procs, pid) {
      if Listed(s.procs, pid) && pid != p.pid {
        var i :| 0 <= i < |s.procs| && s.procs[i].pid == pid;
        assert s'.procs[if i < k then i else i - 1].pid == pid;
      }
    }
  }

  lemma OneLess(s: Scheduling.Sched)
    requires s.Valid() && s.current.Some? && Scheduling.Step(s, Scheduling.Event.Exit).Some?
    ensures var s', k := Scheduling.Step(s, Scheduling.Event.Exit).value, s.current.value;
            s'.numProc == s.numProc && |s'.procs| == |s.procs| - 1
            && forall i :: 0 <= i < |s'.procs| ==> s'.procs[i] == s.procs[if i < k then i else i + 1]
  {
  }

  lemma ExitParts(s: State)
    requires Shape(s) && s.sched.current.Some? && Killed(s).Some?
    ensures var s', p := Killed(s).value, Current(s);
            && p.pid in s.blocks && s.blocks[p.pid].userStack.Some?
            && Scheduling.Step(s.sched, Scheduling.Event.Exit) == Some(s'.sched)
            && Paging.Destroy(s.loaded.m, p.context, s.k) == Some(s'.loaded.m)
            && var b := s.blocks[p.pid];
            s' == s.(loaded := s.loaded.(m := s'.loaded.m, heap := FreeBlocks(s.loaded.heap, b.stack, b.userStack.value, b.record)),
                     breaks := s.breaks - {p.context}, sched := s'.sched,
                     mail := s.mail - {p.pid}, nodes := s.nodes - {p.pid}, blocks := s.blocks - {p.pid}, starts := s.starts - {p.pid})
  {
    hide Scheduling.Step, FreeBlocks;
  }

  lemma BlocksFreed(h: seq<Heap.Block>, stack: nat, userStack: nat, record: nat, nodes: map<nat, seq<nat>>, blocks: map<nat, Blocks>)
    requires HeapOk(h, nodes, blocks)
    ensures HeapOk(FreeBlocks(h, stack, userStack, record), nodes, blocks)
  {
    hide HeapOk, Heap.Free;
    FreeKeepsOk(h, stack, nodes, blocks);
    FreeKeepsOk(Heap.Free(h, stack), userStack, nodes, blocks);
    FreeKeepsOk(Heap.Free(Heap.Free(h, stack), userStack), record, nodes, blocks);
  }

  lemma ExitStep(s: State, e: Action, owner: map<nat, Role>, reserved: set<nat>) returns (owner': map<nat, Role>)
    requires Inv(s, owner, reserved) && s.sched.current.Some? && Killed(s).Some? && By(s, e, Current(s).context)
    ensures Kept(s, Killed(s).value, e, owner', reserved)
  {
    hide Spaces.Laid, Spaces.Step, Scheduling.Step, Walk, UserPage, OwnContexts, ByPid, HeapOk, Frames.Ledger, KeepsByte, ReadByte, Killed,
      SameDirectory, Paging.Destroy, FreeBlocks;
    ExitParts(s);
    var s', y, p := Killed(s).value, SysOf(s), Current(s);
    CurrentIsLive(s, owner, reserved);
    ListAfterExit(s.sched, s.breaks.Keys, s.mail.Keys);
    assert s'.breaks.Keys == s.breaks.Keys - {p.context} && s'.mail.Keys == s.mail.Keys - {p.pid};
    assert s'.nodes.Keys == s.nodes.Keys - {p.pid} && s'.blocks.Keys == s.blocks.Keys - {p.pid};
    var b := s.blocks[p.pid];
    BlocksFreed(s.loaded.heap, b.stack, b.userStack.value, b.record, s.nodes, s.blocks);
    FewerKeepOk(s'.loaded.heap, s.nodes, s'.nodes, s.blocks, s'.blocks);
    DestroyIs(y, p.context, s'.loaded.m);
    owner' := Spaces.StepKeepsInv(y, Spaces.Destroy(p.context), owner, reserved);
    forall a, va: nat | a in s.breaks && !By(s, e, a) && UserPage(s.loaded.m, s.k, va / PAGE)
      ensures KeepsByte(s.loaded.m, s.loaded.ram, s'.loaded.m, s'.loaded.ram, a, va)
    {
      SameWalkKept(s.loaded.m, s'.loaded.m, s.loaded.ram, a, va);
    }
  }

  lemma DestroyIs(y: Spaces.Sys, c: nat, m': Mem)
    requires c in y.breaks && Paging.Destroy(y.m, c, y.k) == Some(m')
    ensures Spaces.Step(y, Spaces.Destroy(c)) == Some(y.(m := m', breaks := y.breaks - {c}))
  {
  }

  lemma StoreStep(s: State, va: u32, b: byte, owner: map<nat, Role>, reserved: set<nat>)
    requires Inv(s, owner, reserved) && s.sched.current.Some? && Own(s, va) && Phys(s.loaded.m, Current(s).context, va).Some?
    ensures var e := Do(Store(va, b)); Step(s, e).Some? && Kept(s, Step(s, e).value, e, owner, reserved)
  {
    hide Spaces.Laid, Phys, UserPage, OwnContexts, ByPid, NodesOk, HeapOk, Frames.Ledger, ReadByte, Own;
    var e, c, m, ram, live := Do(Store(va, b)), Current(s).context, s.loaded.m, s.loaded.ram, SysOf(s).Live();
    var s' := Step(s, e).value;
    CurrentIsLive(s, owner, reserved);
    SameIsSame(m, s.k);
    OwnIsOpen(s, va);
    forall a, at: nat | a in s.breaks && !By(s, e, a) && UserPage(m, s.k, at / PAGE)
      ensures KeepsByte(m, ram, s'.loaded.m, s'.loaded.ram, a, at)
    {
      UserAddress(m, s.k, at);
      UserIsOpen(m, s.k, live, owner, reserved, at);
      StoreEffect(m, s.k, live, owner, reserved, ram, c, va, b, a, at);
    }
  }

  lemma UserIsOpen(m: Mem, k: nat, live: set<nat>, owner: map<nat, Role>, reserved: set<nat>, at: nat)
    requires Spaces.Laid(m, k, live, owner, reserved) && UserPage(m, k, at / PAGE)
    ensures Open(m, k, at) && !InHeap(at)
  {
    hide Owned, KernelIdentity, NoUserSlots, UserPage;
    UserAddress(m, k, at);
    UserIsNotHeap(m, k, live, at);
  }

  // ----- launching a program

  // The new, empty context.
  lemma ContextStep(s: State, owner: map<nat, Role>, reserved: set<nat>) returns (owner': map<nat, Role>)
    requires Inv(s, owner, reserved) && CreateUser(s.loaded.m, s.k).Some?
    ensures var (m1, c) := CreateUser(s.loaded.m, s.k).value;
            var y := Spaces.Sys(m1, s.k, s.breaks[c := 0]);
            && c !in s.breaks && c != s.k && Spaces.Inv(y, owner', reserved) && SameDirectory(s.loaded.m, m1, s.k)
            && m1.frames.Ledger() == s.loaded.m.frames.Ledger()
            && (forall a, p: nat :: a in s.breaks && p < FRAMES ==> Walk(m1, a, p) == Walk(s.loaded.m, a, p))
  {
    hide Spaces.Laid, CreateUser, Walk, UserPage, OwnContexts, ByPid, NodesOk, HeapOk, Frames.Ledger, SameDirectory;
    var y := SysOf(s);
    NewContextIsNew(y, owner, reserved);
    CreateIs(y);
    Spaces.CreateKeepsLaid(y.m, y.k, y.Live(), owner, reserved);
    owner' := Spaces.StepKeepsInv(y, Spaces.Create, owner, reserved);
  }

  lemma CreateIs(y: Spaces.Sys)
    requires CreateUser(y.m, y.k).Some?
    ensures var (m1, c) := CreateUser(y.m, y.k).value; Spaces.Step(y, Spaces.Create) == Some(Spaces.Sys(m1, y.k, y.breaks[c := 0]))
  {
  }

  lemma NewContextIsNew(y: Spaces.Sys, owner: map<nat, Role>, reserved: set<nat>)
    requires Spaces.Inv(y, owner, reserved) && CreateUser(y.m, y.k).Some?
    ensures CreateUser(y.m, y.k).value.1 !in y.Live()
  {
    hide Spaces.Laid, CreateUser;
    Spaces.CreateKeepsLaid(y.m, y.k, y.Live(), owner, reserved);
  }

  // The list with one process more, in the new context.
  lemma ListAfterLaunch(s: Scheduling.Sched, state: nat, c: nat, contexts: set<nat>, pids: set<nat>)
    requires s.Valid() && Scheduling.Created(s, state, c).Some? && c !in contexts
    requires OwnContexts(s.procs, contexts) && ByPid(s.procs, pids)
    ensures var s' := Scheduling.Created(s, state, c).value;
            OwnContexts(s'.procs, contexts + {c}) && ByPid(s'.procs, pids + {s.numProc}) && s'.numProc < WORD && s.numProc !in pids
  {
    var s' := Scheduling.Created(s, state, c).value;
    assert forall i :: 0 < i < |s'.procs| ==> s'.procs[i] == s.procs[i - 1];
    forall pid ensures pid in pids + {s.numProc} <==> Listed(s'.procs, pid) {
      if Listed(s.procs, pid) {
        var i :| 0 <= i < |s.procs| && s.procs[i].pid == pid;
        assert s'.procs[i + 1].pid == pid;
      }
      if pid == s.numProc { assert s'.procs[0].pid == pid; }
    }
  }

  lemma MoreContexts(procs: seq<Scheduling.Proc>, contexts: set<nat>, c: nat)
    requires OwnContexts(procs, contexts)
    ensures OwnContexts(procs, contexts + {c})
  {
  }

  // Loading into a context that no process has yet changes nobody's memory.
  lemma LoadStep(s: State, m1: Mem, c: nat, image: Bytes, addr: u32, owner1: map<nat, Role>, reserved: set<nat>)
    returns (owner': map<nat, Role>)
    requires Shape(s) && c != s.k && c !in s.breaks && s.sched.current.Some? && Current(s).context in s.breaks
    requires Spaces.Inv(Spaces.Sys(m1, s.k, s.breaks[c := 0]), owner1, reserved) && AllFit(m1, s.k, image, addr, Count(image, addr))
    requires HeapOk(s.loaded.heap, s.nodes, s.blocks)
    requires var l1, active, n := s.loaded.(m := m1), Current(s).context, Count(image, addr);
             StaysInHeap(l1.heap, image, addr, n) && LoadAll(l1, active, c, image, addr, n).Some?
    ensures var n := Count(image, addr); var l := LoadAll(s.loaded.(m := m1), Current(s).context, c, image, addr, n).value;
            && Spaces.Inv(Spaces.Sys(l.m, s.k, s.breaks[c := 0]), owner', reserved) && SameDirectory(m1, l.m, s.k)
            && l.m.frames.Ledger() == m1.frames.Ledger() && HeapOk(l.heap, s.nodes, s.blocks)
            && (forall a, va: nat :: a in s.breaks && UserPage(m1, s.k, va / PAGE) ==> KeepsByte(m1, s.loaded.ram, l.m, l.ram, a, va))
            && (AllApart(image, addr, n) ==> AllContent(l, c, image, addr, n))
  {
    hide Spaces.Laid, LoadAll, AllContent, AllFit, AllApart, Count, SameDirectory, Frames.Ledger, UserPage, KeepsByte, StaysInHeap, BuffersFit, HeapOk;
    var y, l1, active, n := Spaces.Sys(m1, s.k, s.breaks[c := 0]), s.loaded.(m := m1), Current(s).context, Count(image, addr);
    HeapHolds(s);
    BuffersStayInHeap(l1, active, c, image, addr, n);
    owner' := LoadAllStep(l1, s.k, y.Live(), owner1, reserved, active, c, image, addr, n);
    HeapAfterLoad(s.loaded.heap, LoadAll(l1, active, c, image, addr, n).value.heap, s.nodes, s.blocks);
  }

  lemma HeapHolds(s: State)
    requires HeapOk(s.loaded.heap, s.nodes, s.blocks)
    ensures Heap.Holds(s.loaded.heap)
  {
  }

  lemma HeapAfterLoad(h: seq<Heap.Block>, h': seq<Heap.Block>, nodes: map<nat, seq<nat>>, blocks: map<nat, Blocks>)
    requires HeapOk(h, nodes, blocks) && Heap.Holds(h') && forall a :: Heap.IsPayload(h, a) ==> Heap.IsPayload(h', a)
    ensures HeapOk(h', nodes, blocks)
  {
    hide Heap.Holds, Heap.IsPayload;
  }

  lemma HousedOk(h: seq<Heap.Block>, user: bool, nodes: map<nat, seq<nat>>, blocks: map<nat, Blocks>, pid: nat)
    requires HeapOk(h, nodes, blocks) && Housed(h, user).Some? && Heap.EndOf(Housed(h, user).value.0) <= Heap.END
    ensures var (h', b) := Housed(h, user).value; HeapOk(h', nodes, blocks[pid := b])
  {
    hide Heap.Malloc, Heap.EndOf, HeapOk, WithRecord, Heap.IsPayload, BlocksOk;
    HeapEnds(h, nodes, blocks);
    var (h1, stack) := Heap.Malloc(h, STACK_SIZE).value;
    var (h', b) := Housed(h, user).value;
    Heap.EndMovesOn(h, STACK_SIZE);
    if user {
      var (h2, userStack) := Heap.Malloc(h1, STACK_SIZE).value;
      Heap.EndMovesOn(h1, STACK_SIZE);
      RecordOk(h2, stack, Some(userStack));
      MallocKeepsOk(h, STACK_SIZE, nodes, blocks);
      MallocKeepsOk(h1, STACK_SIZE, nodes, blocks);
      Heap.PayloadsAfterMalloc(h1, STACK_SIZE);
      MallocKeepsOk(h2, PROCESS_SIZE, nodes, blocks);
      Heap.PayloadsAfterMalloc(h2, PROCESS_SIZE);
    } else {
      RecordOk(h1, stack, None);
      MallocKeepsOk(h, STACK_SIZE, nodes, blocks);
      MallocKeepsOk(h1, PROCESS_SIZE, nodes, blocks);
      Heap.PayloadsAfterMalloc(h1, PROCESS_SIZE);
    }
    OneProcessMore(h', nodes, blocks, pid, b);
  }

  lemma HeapEnds(h: seq<Heap.Block>, nodes: map<nat, seq<nat>>, blocks: map<nat, Blocks>)
    requires HeapOk(h, nodes, blocks)
    ensures Heap.EndOf(h) <= Heap.END
  {
  }

  lemma RecordOk(h: seq<Heap.Block>, stack: nat, userStack: Option<nat>)
    requires WithRecord(h, stack, userStack).Some? && Heap.EndOf(h) < WORD
    ensures Heap.Malloc(h, PROCESS_SIZE).Some?
    ensures var (h', record) := Heap.Malloc(h, PROCESS_SIZE).value;
            WithRecord(h, stack, userStack) == Some((h', Blocks(stack, userStack, record))) && Heap.EndOf(h) <= Heap.EndOf(h')
  {
    Heap.EndMovesOn(h, PROCESS_SIZE);
    hide Heap.Malloc, Heap.EndOf;
  }

  lemma OneProcessMore(h: seq<Heap.Block>, nodes: map<nat, seq<nat>>, blocks: map<nat, Blocks>, pid: nat, b: Blocks)
    requires HeapOk(h, nodes, blocks) && Heap.IsPayload(h, b.stack) && Heap.IsPayload(h, b.record)
    requires b.userStack.Some? ==> Heap.IsPayload(h, b.userStack.value)
    ensures HeapOk(h, nodes, blocks[pid := b])
  {
    hide Heap.Holds, Heap.IsPayload;
  }

  lemma NewBoxOk(h: seq<Heap.Block>, nodes: map<nat, seq<nat>>, blocks: map<nat, Blocks>, pid: nat)
    requires HeapOk(h, nodes, blocks)
    ensures HeapOk(h, nodes[pid := []], blocks)
  {
    hide Heap.Holds, Heap.IsPayload;
  }

  // How launch_elf_program ended: the context stays, and perhaps the loaded segments and a
  // process in it.
  lemma LaunchParts(s: State, addr: u32)
    requires Shape(s) && s.sched.current.Some? && Launched(s, addr).Some?
    ensures NewProgram(s, addr).Some?
    ensures var (l, c, entry) := NewProgram(s, addr).value; var s1 := s.(loaded := l, breaks := s.breaks[c := 0]);
            && (entry == 0 ==> Launched(s, addr) == Some(s1))
            && (entry != 0 ==> Housed(l.heap, true).Some?
                               && Launched(s, addr) == Hosted(s1, Housed(l.heap, true).value.0, Housed(l.heap, true).value.1, c, entry))
  {
    hide NewProgram, Housed, Hosted;
  }

  // A context reads the same bytes through the same walks.
  lemma {:induction false} SameBytesRead(m: Mem, m': Mem, ram: seq<byte>, a: nat, at: nat, n: nat)
    requires |ram| == WORD && forall p: nat :: p < FRAMES ==> Walk(m', a, p) == Walk(m, a, p)
    ensures ReadBytes(m', ram, a, at, n) == ReadBytes(m, ram, a, at, n)
  {
    hide Walk;
    if n > 0 {
      SameBytesRead(m, m', ram, a, at, n - 1);
      assert Wrap(at + n - 1) / PAGE < FRAMES;
    }
  }

  // Without a magic number nothing is loaded.
  lemma NoImage(l: Loaded, active: nat, c: nat, addr: u32)
    requires |l.ram| == WORD && Parse(l, active, c, addr).Some?
    requires addr != 0 ==> var magic := ReadBytes(l.m, l.ram, active, addr, 4); magic.Some? ==> Word32(magic.value, 0) != ELF_MAGIC
    ensures Parse(l, active, c, addr) == Some((l, 0))
  {
    hide ReadBytes, ParseFrom;
  }

  // When the new context exists, all is ready for the loader.
  lemma ReadyToLoad(s: State, addr: u32, m1: Mem, c: nat, owner1: map<nat, Role>, reserved: set<nat>)
    requires Shape(s) && s.sched.current.Some? && Current(s).context in s.breaks && FindsImage(s, addr) && GoodImage(s, addr)
    requires c !in s.breaks && c != s.k && Spaces.Inv(Spaces.Sys(m1, s.k, s.breaks[c := 0]), owner1, reserved) && SameDirectory(s.loaded.m, m1, s.k)
    requires HeapOk(s.loaded.heap, s.nodes, s.blocks)
    requires forall a, p: nat :: a in s.breaks && p < FRAMES ==> Walk(m1, a, p) == Walk(s.loaded.m, a, p)
    ensures var l1, live := s.loaded.(m := m1), s.breaks.Keys + {c} + {s.k};
            Ready(l1, s.k, live, owner1, reserved, Current(s).context, c, SeenBy(s), addr) && ReadU32(SeenBy(s), addr) == ELF_MAGIC
  {
    hide Spaces.Laid, Walk, UserPage, ReadByte, SameDirectory, Seen, AllFit, StaysInHeap, HeapOk, ReadU32, Entry, Count, HouseFits, Word32;
    var m, ram, a, image, n := s.loaded.m, s.loaded.ram, Current(s).context, SeenBy(s), Count(SeenBy(s), addr);
    FitsStays(m, m1, s.k, image, addr, n);
    forall va: nat | UserPage(m, s.k, va / PAGE) ensures KeepsByte(m, ram, m1, ram, a, va) {
      UserAddress(m, s.k, va);
      SameWalkKept(m, m1, ram, a, va);
    }
    ShownHeader(m, ram, s.k, a, image, addr, n);
    ImageStaysShown(m, ram, m1, ram, s.k, a, image, addr, n);
    HeapHolds(s);
    assert Spaces.Sys(m1, s.k, s.breaks[c := 0]).Live() == s.breaks.Keys + {c} + {s.k};
  }

  lemma ShownHeader(m: Mem, ram: seq<byte>, k: nat, a: nat, image: seq<byte>, addr: u32, n: nat)
    requires |ram| == |image| == WORD && ShownImage(m, ram, k, a, image, addr, n)
    ensures ReadBytes(m, ram, a, addr, 4).Some? && Word32(ReadBytes(m, ram, a, addr, 4).value, 0) == ReadU32(image, addr)
  {
    hide ShownRange, ShownFile, ReadBytes, Word32, ReadU32;
    assert ShownRange(m, ram, k, a, image, addr, 52) && Wrap(addr + 0) == addr;
    ReadWord(m, ram, k, a, image, addr, 52, 0);
  }

  // What launch_elf_program loads is the image that the caller's memory held.
  lemma ProgramIs(s: State, addr: u32, owner: map<nat, Role>, reserved: set<nat>)
    returns (owner1: map<nat, Role>)
    requires Inv(s, owner, reserved) && s.sched.current.Some? && CreateUser(s.loaded.m, s.k).Some? && GoodImage(s, addr)
    ensures var (m1, c) := CreateUser(s.loaded.m, s.k).value; var l1, a, image := s.loaded.(m := m1), Current(s).context, SeenBy(s);
            && c !in s.breaks && c != s.k && Spaces.Inv(Spaces.Sys(m1, s.k, s.breaks[c := 0]), owner1, reserved)
            && SameDirectory(s.loaded.m, m1, s.k) && m1.frames.Ledger() == s.loaded.m.frames.Ledger()
            && (forall b, p: nat :: b in s.breaks && p < FRAMES ==> Walk(m1, b, p) == Walk(s.loaded.m, b, p))
            && HeapStaysShort(l1, a, c, addr)
            && if FindsImage(s, addr)
               then Parse(l1, a, c, addr) == match LoadAll(l1, a, c, image, addr, Count(image, addr))
                                             case None => None
                                             case Some(l) => Some((l, Entry(image, addr)))
               else Parse(l1, a, c, addr).Some? ==> Parse(l1, a, c, addr) == Some((l1, 0))
  {
    hide Spaces.Laid, CreateUser, Walk, GoodImage, ShownImage, AllFit, StaysInHeap, Parse, LoadAll, Count, Entry, ReadBytes, SameDirectory, Frames.Ledger,
      OwnContexts, ByPid, NodesOk, HeapOk, Ready, Seen, ReadU32, Word32, ShortHeap;
    CurrentIsLive(s, owner, reserved);
    owner1 := ContextStep(s, owner, reserved);
    var (m1, c) := CreateUser(s.loaded.m, s.k).value;
    var l1, a, image, live := s.loaded.(m := m1), Current(s).context, SeenBy(s), s.breaks.Keys + {c} + {s.k};
    SameBytesRead(s.loaded.m, m1, s.loaded.ram, a, addr, 4);
    if FindsImage(s, addr) {
      ReadyToLoad(s, addr, m1, c, owner1, reserved);
      ReadyStaysShort(l1, s.k, live, owner1, reserved, a, c, image, addr);
      ParseIs(l1, s.k, live, owner1, reserved, a, c, image, addr);
    } else if Parse(l1, a, c, addr).Some? {
      NoImage(l1, a, c, addr);
    }
  }

  // A new context, empty or with the image in it, that no process runs in yet.
  lemma ProgramStep(s: State, addr: u32, owner: map<nat, Role>, reserved: set<nat>)
    returns (owner': map<nat, Role>)
    requires Inv(s, owner, reserved) && s.sched.current.Some? && NewProgram(s, addr).Some? && GoodImage(s, addr)
    ensures var (l, c, entry) := NewProgram(s, addr).value; var image := SeenBy(s);
            && c !in s.breaks && Spaces.Inv(Spaces.Sys(l.m, s.k, s.breaks[c := 0]), owner', reserved) && SameDirectory(s.loaded.m, l.m, s.k)
            && l.m.frames.Ledger() == s.loaded.m.frames.Ledger() && HeapOk(l.heap, s.nodes, s.blocks)
            && (forall a, va: nat :: a in s.breaks && UserPage(s.loaded.m, s.k, va / PAGE) ==>
                  KeepsByte(s.loaded.m, s.loaded.ram, l.m, l.ram, a, va))
            && (entry != 0 ==> HouseFits(l.heap))
            && (entry != 0 && AllApart(image, addr, Count(image, addr)) ==> AllContent(l, c, image, addr, Count(image, addr)))
  {
    hide Spaces.Laid, LoadAll, CreateUser, AllFit, AllApart, AllContent, Count, Entry, SameDirectory, Frames.Ledger, UserPage, KeepsByte, Parse,
      ReadByte, Walk, OwnContexts, ByPid, NodesOk, HeapOk, StaysInHeap, GoodImage, FindsImage, Seen, Staged, HouseFits, HeapStaysShort;
    CurrentIsLive(s, owner, reserved);
    var (m1, _) := CreateUser(s.loaded.m, s.k).value;
    var (l, c, entry) := NewProgram(s, addr).value;
    owner' := ProgramIs(s, addr, owner, reserved);
    if FindsImage(s, addr) {
      var image := SeenBy(s);
      GoodImageHas(s, addr);
      FitsStays(s.loaded.m, m1, s.k, image, addr, Count(image, addr));
      StagedIs(s.loaded.(m := m1), Current(s).context, c, image, addr, Count(image, addr));
      owner' := LoadStep(s, m1, c, image, addr, owner', reserved);
      SameDirectoryTwice(s.loaded.m, m1, l.m, s.k);
      forall a, va: nat | a in s.breaks && UserPage(s.loaded.m, s.k, va / PAGE)
        ensures KeepsByte(s.loaded.m, s.loaded.ram, l.m, l.ram, a, va)
      {
        SameUserPage(s.loaded.m, m1, s.k, va / PAGE);
        UserAddress(s.loaded.m, s.k, va);
        KeptThrough(s.loaded.m, m1, l.m, s.loaded.ram, l.ram, a, va);
      }
    } else {
      forall a, va: nat | a in s.breaks && UserPage(s.loaded.m, s.k, va / PAGE)
        ensures KeepsByte(s.loaded.m, s.loaded.ram, l.m, l.ram, a, va)
      {
        UserAddress(s.loaded.m, s.k, va);
        SameWalkKept(s.loaded.m, l.m, s.loaded.ram, a, va);
      }
    }
  }

  lemma GoodImageHas(s: State, addr: u32)
    requires Shape(s) && s.sched.current.Some? && FindsImage(s, addr) && GoodImage(s, addr)
    ensures var image := SeenBy(s); var n := Count(image, addr);
            && ShownImage(s.loaded.m, s.loaded.ram, s.k, Current(s).context, image, addr, n)
            && AllFit(s.loaded.m, s.k, image, addr, n) && StaysInHeap(s.loaded.heap, image, addr, n)
            && (Staged(s.loaded.heap, image, addr, n).Some? && Entry(image, addr) != 0 ==> HouseFits(Staged(s.loaded.heap, image, addr, n).value))
  {
    hide ShownImage, AllFit, StaysInHeap, Staged, HouseFits, Entry, Seen, Count, FindsImage;
  }

  lemma KeptThrough(m: Mem, m1: Mem, m': Mem, ram: seq<byte>, ram': seq<byte>, a: nat, va: nat)
    requires |ram| == |ram'| == WORD
    requires Walk(m1, a, va / PAGE) == Walk(m, a, va / PAGE) && KeepsByte(m1, ram, m', ram', a, va)
    ensures KeepsByte(m, ram, m', ram', a, va)
  {
    SameWalkSameByte(m, m1, ram, a, va);
  }

  lemma HostedParts(s: State, heap: seq<Heap.Block>, b: Blocks, c: nat, entry: nat)
    requires Shape(s) && Hosted(s, heap, b, c, entry).Some?
    ensures Scheduling.Created(s.sched, Registers(b), c).Some?
    ensures var pid := s.sched.numProc;
            Hosted(s, heap, b, c, entry).value == s.(loaded := s.loaded.(heap := heap), sched := Scheduling.Created(s.sched, Registers(b), c).value,
              mail := s.mail[pid := Messages.Mail([], [])], nodes := s.nodes[pid := []], blocks := s.blocks[pid := b],
              starts := s.starts[pid := UserStart(entry, b)])
  {
    hide Scheduling.Created;
  }

  lemma LaunchStep(s: State, addr: u32, owner: map<nat, Role>, reserved: set<nat>)
    returns (owner': map<nat, Role>)
    requires Inv(s, owner, reserved) && s.sched.current.Some? && Launched(s, addr).Some?
    requires GoodImage(s, addr)
    ensures Kept(s, Launched(s, addr).value, Do(Launch(addr)), owner', reserved)
  {
    hide Spaces.Inv, NewProgram, GoodImage, Housed, Hosted, Launched, SameDirectory, Frames.Ledger, UserPage, KeepsByte, ReadByte,
      OwnContexts, ByPid, HeapOk, Scheduling.Created, Count, AllApart, AllContent, Heap.EndOf, SeenBy;
    LaunchParts(s, addr);
    var (l, c, entry) := NewProgram(s, addr).value;
    var s', s1 := Launched(s, addr).value, s.(loaded := l, breaks := s.breaks[c := 0]);
    owner' := ProgramStep(s, addr, owner, reserved);
    assert s1.breaks.Keys == s.breaks.Keys + {c};
    MoreContexts(s.sched.procs, s.breaks.Keys, c);
    if entry != 0 {
      var (heap, b) := Housed(l.heap, true).value;
      var pid := s.sched.numProc;
      HostedParts(s1, heap, b, c, entry);
      ListAfterLaunch(s.sched, Registers(b), c, s.breaks.Keys, s.mail.Keys);
      HousedOk(l.heap, true, s.nodes, s.blocks, pid);
      NewBoxOk(heap, s.nodes, s.blocks[pid := b], pid);
      assert s'.mail.Keys == s.mail.Keys + {pid} && s'.nodes.Keys == s.nodes.Keys + {pid} && s'.blocks.Keys == s.blocks.Keys + {pid};
    }
  }

  // ----- every step

  lemma StepKeeps(s: State, e: Action, owner: map<nat, Role>, reserved: set<nat>) returns (owner': map<nat, Role>)
    requires Inv(s, owner, reserved) && Proper(s, e) && Step(s, e).Some?
    ensures Kept(s, Step(s, e).value, e, owner', reserved)
  {
    hide Spaces.Inv, OwnContexts, ByPid, NodesOk, HeapOk, Kept, Scheduling.Step, Launched, Killed, Sent, Received, GoodImage, UserPage, Phys, Own,
      OwnBuffer, Spaces.Step, Spaces.OnUserPages, SysOf, EndsInHeap;
    owner' := owner;
    match e
    case Timer(cpu) => TimerStep(s, e, Scheduling.Tick(cpu), owner, reserved);
    case Do(call) =>
      match call
      case Exit => owner' := ExitStep(s, e, owner, reserved);
      case Send(buffer) => SendStep(s, buffer, owner, reserved);
      case Receive(buffer, who) => ReceiveStep(s, buffer, who, owner, reserved);
      case Sbrk(request) => owner' := SbrkStep(s, e, request, owner, reserved);
      case SetTimer(cpu, ms) => TimerStep(s, e, Scheduling.Event.SetTimer(cpu, ms), owner, reserved);
      case Launch(addr) => owner' := LaunchStep(s, addr, owner, reserved);
      case Store(va, b) =>
        if Phys(s.loaded.m, Current(s).context, va) == None {
          owner' := ExitStep(s, e, owner, reserved);
        } else {
          StoreStep(s, va, b, owner, reserved);
        }
  }

  // ----- whole runs

  // Every action is proper when its turn comes.
  ghost predicate ProperRun(s: State, actions: seq<Action>)
    requires Shape(s)
  {
    forall n :: 0 <= n < |actions| ==> Run(s, actions[..n]).Some? && Proper(Run(s, actions[..n]).value, actions[n])
  }

  lemma FewerProper(s: State, actions: seq<Action>)
    requires Shape(s) && ProperRun(s, actions) && actions != []
    ensures var init := actions[..|actions| - 1];
            ProperRun(s, init) && Run(s, init).Some? && Proper(Run(s, init).value, actions[|actions| - 1])
  {
    hide Proper, Run;
    var init := actions[..|actions| - 1];
    assert forall n :: 0 <= n <= |init| ==> init[..n] == actions[..n];
    assert init[..|init|] == init;
  }

  lemma {:induction false} RunKeeps(s: State, actions: seq<Action>, owner: map<nat, Role>, reserved: set<nat>) returns (owner': map<nat, Role>)
    requires Inv(s, owner, reserved) && ProperRun(s, actions) && Run(s, actions).Some?
    ensures var s' := Run(s, actions).value;
            && Inv(s', owner', reserved) && s'.k == s.k && SameDirectory(s.loaded.m, s'.loaded.m, s.k)
            && s'.loaded.m.frames.Ledger() == s.loaded.m.frames.Ledger()
  {
    hide Spaces.Inv, OwnContexts, ByPid, NodesOk, HeapOk, Step, Proper, ProperRun, SameDirectory, Undisturbed, Frames.Ledger;
    owner' := owner;
    if actions == [] {
      SameIsSame(s.loaded.m, s.k);
    } else {
      FewerProper(s, actions);
      var init, e := actions[..|actions| - 1], actions[|actions| - 1];
      owner' := RunKeeps(s, init, owner, reserved);
      var s1 := Run(s, init).value;
      owner' := StepKeeps(s1, e, owner', reserved);
      SameDirectoryTwice(s.loaded.m, s1.loaded.m, Run(s, actions).value.loaded.m, s.k);
    }
  }

  // The process of context a makes no call on its own memory.
  ghost predicate Rests(s: State, actions: seq<Action>, a: nat)
    requires Shape(s)
  {
    forall n :: 0 <= n < |actions| ==> Run(s, actions[..n]).Some? && !By(Run(s, actions[..n]).value, actions[n], a)
  }

  lemma FewerRests(s: State, actions: seq<Action>, a: nat)
    requires Shape(s) && Rests(s, actions, a) && actions != []
    ensures var init := actions[..|actions| - 1];
            Rests(s, init, a) && Run(s, init).Some? && !By(Run(s, init).value, actions[|actions| - 1], a)
  {
    hide By, Run;
    var init := actions[..|actions| - 1];
    assert forall n :: 0 <= n <= |init| ==> init[..n] == actions[..n];
    assert init[..|init|] == init;
  }

  // As long as a process does not store, grow, exit, send or receive, every user byte it could
  // read it reads unchanged, whatever all the others do.
  lemma {:induction false} MemoryIsPrivate(s: State, actions: seq<Action>, owner: map<nat, Role>, reserved: set<nat>, a: nat)
    returns (owner': map<nat, Role>)
    requires Inv(s, owner, reserved) && ProperRun(s, actions) && Run(s, actions).Some?
    requires a in s.breaks && Rests(s, actions, a)
    ensures var s' := Run(s, actions).value;
            && Inv(s', owner', reserved) && s'.k == s.k && SameDirectory(s.loaded.m, s'.loaded.m, s.k) && a in s'.breaks
            && forall va: nat :: UserPage(s.loaded.m, s.k, va / PAGE) ==>
                 KeepsByte(s.loaded.m, s.loaded.ram, s'.loaded.m, s'.loaded.ram, a, va)
  {
    hide Spaces.Inv, OwnContexts, ByPid, NodesOk, HeapOk, Step, Proper, ProperRun, Rests, SameDirectory, Frames.Ledger, By, ReadByte, UserPage;
    owner' := owner;
    if actions == [] {
      SameIsSame(s.loaded.m, s.k);
    } else {
      FewerProper(s, actions);
      FewerRests(s, actions, a);
      var init, e := actions[..|actions| - 1], actions[|actions| - 1];
      owner' := MemoryIsPrivate(s, init, owner, reserved, a);
      var s1, s' := Run(s, init).value, Run(s, actions).value;
      owner' := StepKeeps(s1, e, owner', reserved);
      SameDirectoryTwice(s.loaded.m, s1.loaded.m, s'.loaded.m, s.k);
      forall va: nat | UserPage(s.loaded.m, s.k, va / PAGE)
        ensures KeepsByte(s.loaded.m, s.loaded.ram, s'.loaded.m, s'.loaded.ram, a, va)
      {
        SameUserPage(s.loaded.m, s1.loaded.m, s.k, va / PAGE);
        assert KeepsByte(s1.loaded.m, s1.loaded.ram, s'.loaded.m, s'.loaded.ram, a, va);
      }
    }
  }

  // ----- a program keeps its image

  // After launch_elf_program there is a process that reads the image it was launched from.
  lemma LaunchedReadsImage(s: State, addr: u32, owner: map<nat, Role>, reserved: set<nat>) returns (owner': map<nat, Role>)
    requires Inv(s, owner, reserved) && s.sched.current.Some? && Launched(s, addr).Some?
    requires GoodImage(s, addr) && AllApart(SeenBy(s), addr, Count(SeenBy(s), addr))
    requires NewProgram(s, addr).Some? && NewProgram(s, addr).value.2 != 0
    ensures var s', c, image := Launched(s, addr).value, NewProgram(s, addr).value.1, SeenBy(s);
            && s'.sched.procs != [] && s'.sched.procs[0].context == c && c in s'.breaks && Inv(s', owner', reserved)
            && AllContent(s'.loaded, c, image, addr, Count(image, addr))
  {
    hide Spaces.Inv, NewProgram, GoodImage, Housed, Hosted, Launched, OwnContexts, ByPid, NodesOk, HeapOk, Count, AllApart, AllContent,
      Heap.EndOf, Undisturbed, SameDirectory, Frames.Ledger;
    owner' := LaunchStep(s, addr, owner, reserved);
    var _ := ProgramStep(s, addr, owner, reserved);
    LaunchParts(s, addr);
    var (l, c, entry) := NewProgram(s, addr).value;
    var s1 := s.(loaded := l, breaks := s.breaks[c := 0]);
    var (heap, b) := Housed(l.heap, true).value;
    HostedParts(s1, heap, b, c, entry);
    SameContent(l, Launched(s, addr).value.loaded, c, SeenBy(s), addr, Count(SeenBy(s), addr));
  }

  // Byte for byte: what the caller's memory held at the file before the call, and then zeros.
  lemma LaunchedReadsCaller(s: State, addr: u32, owner: map<nat, Role>, reserved: set<nat>, i: nat, j: nat)
    requires Inv(s, owner, reserved) && s.sched.current.Some? && Launched(s, addr).Some?
    requires GoodImage(s, addr) && AllApart(SeenBy(s), addr, Count(SeenBy(s), addr))
    requires NewProgram(s, addr).Some? && NewProgram(s, addr).value.2 != 0
    requires i < Count(SeenBy(s), addr) && Loadable(ProgramAt(SeenBy(s), addr, i), addr) && j < Span(ProgramAt(SeenBy(s), addr, i))
    ensures var s', c, p := Launched(s, addr).value, NewProgram(s, addr).value.1, ProgramAt(SeenBy(s), addr, i);
            var b := ReadByte(s'.loaded.m, s'.loaded.ram, c, p.vaddr + j);
            b.Some? && b == if j < p.fsize then ReadByte(s.loaded.m, s.loaded.ram, Current(s).context, Wrap(addr + p.offset + j)) else Some(0)
  {
    hide Inv, GoodImage, Launched, NewProgram, AllApart, AllContent, ProgramAt, Seen, ReadByte, FindsImage, Count;
    InvShape(s, owner, reserved);
    EntryOfProgram(s, addr, owner, reserved);
    GoodImageHas(s, addr);
    var owner' := LaunchedReadsImage(s, addr, owner, reserved);
    InvShape(Launched(s, addr).value, owner', reserved);
    var image, p, s' := SeenBy(s), ProgramAt(SeenBy(s), addr, i), Launched(s, addr).value;
    ContentOf(s'.loaded, NewProgram(s, addr).value.1, image, addr, Count(image, addr), i);
    if j < p.fsize { ShownFileByte(s.loaded.m, s.loaded.ram, s.k, Current(s).context, image, addr, Count(image, addr), i, j); }
  }

  lemma ContentOf(l: Loaded, c: nat, image: seq<byte>, addr: nat, n: nat, i: nat)
    requires |l.ram| == |image| == WORD && AllContent(l, c, image, addr, n) && i < n && Loadable(ProgramAt(image, addr, i), addr)
    ensures Content(l.m, l.ram, c, image, addr, ProgramAt(image, addr, i))
  {
    hide Content, ProgramAt;
  }

  lemma ShownFileByte(m: Mem, ram: seq<byte>, k: nat, a: nat, image: seq<byte>, addr: nat, n: nat, i: nat, j: nat)
    requires |ram| == |image| == WORD && ShownImage(m, ram, k, a, image, addr, n) && i < n && Loadable(ProgramAt(image, addr, i), addr)
    requires j < ProgramAt(image, addr, i).fsize
    ensures var p := ProgramAt(image, addr, i); ReadByte(m, ram, a, Wrap(addr + p.offset + j)) == Some(Byte(image, addr + p.offset + j))
  {
    hide ReadByte, UserPage, ProgramAt, HeaderAt;
    var p := ProgramAt(image, addr, i);
    assert ShownFile(m, ram, k, a, image, addr, p);
    assert Shown(m, ram, k, a, image, Wrap(addr + p.offset) + j);
    WrapTwice(addr + p.offset, j);
  }

  lemma SameContent(l: Loaded, l': Loaded, c: nat, image: seq<byte>, addr: nat, n: nat)
    requires |l.ram| == |l'.ram| == |image| == WORD && AllContent(l, c, image, addr, n) && l'.m == l.m && l'.ram == l.ram
    ensures AllContent(l', c, image, addr, n)
  {
    hide Content, ProgramAt;
  }

  // And on it does, on every run on which it rests.
  lemma ImageStays(s: State, actions: seq<Action>, owner: map<nat, Role>, reserved: set<nat>, c: nat, image: Bytes, addr: u32, n: nat)
    requires Inv(s, owner, reserved) && ProperRun(s, actions) && Run(s, actions).Some?
    requires c in s.breaks && Rests(s, actions, c) && AllFit(s.loaded.m, s.k, image, addr, n) && AllContent(s.loaded, c, image, addr, n)
    ensures AllContent(Run(s, actions).value.loaded, c, image, addr, n)
  {
    hide Inv, ProperRun, Rests, Run, AllFit, AllContent, ReadByte, UserPage, ProgramAt, SameDirectory, Content, Fits;
    InvShape(s, owner, reserved);
    var _ := MemoryIsPrivate(s, actions, owner, reserved, c);
    var s' := Run(s, actions).value;
    forall i | 0 <= i < n && Loadable(ProgramAt(image, addr, i), addr) ensures Content(s'.loaded.m, s'.loaded.ram, c, image, addr, ProgramAt(image, addr, i)) {
      ContentAt(s.loaded, s.k, c, image, addr, n, i);
      SegmentStays(s.loaded, s'.loaded, s.k, c, image, addr, ProgramAt(image, addr, i));
    }
    ContentOfAll(s'.loaded, c, image, addr, n);
  }

  lemma InvShape(s: State, owner: map<nat, Role>, reserved: set<nat>)
    requires Inv(s, owner, reserved)
    ensures Shape(s)
  {
  }

  lemma ContentAt(l: Loaded, k: nat, c: nat, image: seq<byte>, addr: nat, n: nat, i: nat)
    requires |l.ram| == |image| == WORD && AllFit(l.m, k, image, addr, n) && AllContent(l, c, image, addr, n)
    requires i < n && Loadable(ProgramAt(image, addr, i), addr)
    ensures Content(l.m, l.ram, c, image, addr, ProgramAt(image, addr, i)) && Fits(l.m, k, ProgramAt(image, addr, i))
  {
    hide Content, Fits, ProgramAt;
  }

  lemma ContentOfAll(l: Loaded, c: nat, image: seq<byte>, addr: nat, n: nat)
    requires |l.ram| == |image| == WORD
    requires forall i :: 0 <= i < n && Loadable(ProgramAt(image, addr, i), addr) ==> Content(l.m, l.ram, c, image, addr, ProgramAt(image, addr, i))
    ensures AllContent(l, c, image, addr, n)
  {
    hide Content, ProgramAt;
  }

  lemma SegmentStays(l: Loaded, l': Loaded, k: nat, c: nat, image: seq<byte>, addr: nat, p: Program)
    requires |l.ram| == |l'.ram| == |image| == WORD && Content(l.m, l.ram, c, image, addr, p) && Fits(l.m, k, p)
    requires forall va: nat :: UserPage(l.m, k, va / PAGE) ==> KeepsByte(l.m, l.ram, l'.m, l'.ram, c, va)
    ensures Content(l'.m, l'.ram, c, image, addr, p)
  {
    hide ReadByte, UserPage, Byte, Fits;
    SegmentIsOpen(l.m, k, p);
    forall at: nat | p.vaddr <= at < p.vaddr + Span(p) ensures ReadByte(l'.m, l'.ram, c, at) == Some(Expected(image, addr, p, at - p.vaddr)) {
      assert KeepsByte(l.m, l.ram, l'.m, l'.ram, c, at);
    }
  }

  // ----- mail over whole runs

  // What happens to the mail of pid at action e.
  function MailEvent(s: State, e: Action, pid: nat): seq<Messages.Event>
    requires Shape(s)
  {
    if e.Timer? || s.sched.current == None || pid !in s.mail then []
    else
      match e.call
      case Send(buffer) => (
        match Outgoing(s, buffer)
        case Some(Some((to, _, message))) => if to == pid then [Messages.Send(message)] else []
        case _ => [])
      case Receive(buffer, who) => if Current(s).pid == pid && Incoming(s, buffer, who).Some? then [Messages.Receive(who)] else []
      case _ => []
  }

  function MailEvents(s: State, actions: seq<Action>, pid: nat): seq<Messages.Event>
    requires Shape(s)
  {
    if actions == [] then []
    else
      var init := actions[..|actions| - 1];
      match Run(s, init)
      case None => []
      case Some(s1) => MailEvents(s, init, pid) + MailEvent(s1, actions[|actions| - 1], pid)
  }

  // One action and one box: it is delivered to, emptied by one, untouched, new or gone.
  lemma MailOfStep(s: State, e: Action, pid: nat)
    requires Shape(s) && Step(s, e).Some? && (pid in s.mail ==> pid < s.sched.numProc)
    ensures var s', log := Step(s, e).value, MailEvent(s, e, pid);
            && s.sched.numProc <= s'.sched.numProc
            && (pid in s'.mail && pid in s.mail ==>
                  s'.mail[pid] == if log == [] then s.mail[pid] else Messages.Step(s.mail[pid], log[0]))
            && |log| <= 1 && (pid !in s.mail ==> log == [])
            && (pid in s'.mail && pid !in s.mail ==> pid >= s.sched.numProc && s'.mail[pid] == Messages.Mail([], []))
            && (pid in s'.mail ==> pid < s'.sched.numProc)
  {
    hide Messages.Step, Spaces.Step, Phys, Killed, Launched, Sent, Received, Outgoing, Incoming, SysOf, Scheduling.Step;
    match e
    case Timer(cpu) => SameListing(s.sched, Scheduling.Tick(cpu));
    case Do(call) =>
      match call
      case SetTimer(cpu, ms) => SameListing(s.sched, Scheduling.Event.SetTimer(cpu, ms));
      case Launch(addr) => MailOfLaunch(s, addr);
      case Send(buffer) => MailOfSend(s, buffer);
      case Receive(buffer, who) => MailOfReceive(s, buffer, who);
      case Exit => MailOfExit(s);
      case Store(va, _) => if Phys(s.loaded.m, Current(s).context, va) == None { MailOfExit(s); }
      case _ =>
  }

  lemma MailOfExit(s: State)
    requires Shape(s) && s.sched.current.Some? && Killed(s).Some?
    ensures Killed(s).value.mail == s.mail - {Current(s).pid} && Killed(s).value.sched.numProc == s.sched.numProc
  {
    hide Scheduling.Step, Killed;
    ExitParts(s);
    OneLess(s.sched);
  }

  lemma MailOfSend(s: State, buffer: u32)
    requires Shape(s) && s.sched.current.Some? && Sent(s, buffer).Some?
    ensures Sent(s, buffer).value.sched == s.sched
    ensures match Outgoing(s, buffer)
            case Some(Some((to, _, message))) =>
              to in s.mail && Sent(s, buffer).value.mail == s.mail[to := Messages.Step(s.mail[to], Messages.Send(message))]
            case _ => Sent(s, buffer).value.mail == s.mail
  {
    hide Sent, Outgoing, Messages.Step;
    SendParts(s, buffer);
  }

  lemma MailOfReceive(s: State, buffer: u32, who: u32)
    requires Shape(s) && s.sched.current.Some? && Received(s, buffer, who).Some?
    ensures Received(s, buffer, who).value.sched == s.sched
    ensures Received(s, buffer, who).value.mail ==
            if Incoming(s, buffer, who).Some? then s.mail[Current(s).pid := Messages.Step(s.mail[Current(s).pid], Messages.Receive(who))] else s.mail
  {
    hide Received, Incoming, Messages.Step;
    ReceiveParts(s, buffer, who);
  }

  lemma MailOfLaunch(s: State, addr: u32)
    requires Shape(s) && s.sched.current.Some? && Launched(s, addr).Some?
    ensures var s' := Launched(s, addr).value;
            || (s'.mail == s.mail && s'.sched == s.sched)
            || (s'.mail == s.mail[s.sched.numProc := Messages.Mail([], [])] && s'.sched.numProc == s.sched.numProc + 1)
  {
    hide NewProgram, Housed, Launched, Hosted;
    LaunchParts(s, addr);
    var (l, c, entry) := NewProgram(s, addr).value;
    if entry != 0 {
      var (heap, b) := Housed(l.heap, true).value;
      HostedParts(s.(loaded := l, breaks := s.breaks[c := 0]), heap, b, c, entry);
    }
  }

  // The box of every process is exactly what the sends to it and its own receives make of an
  // empty one; so per-sender order and conservation hold of it.
  lemma {:induction false} MailIsRun(s: State, actions: seq<Action>, pid: nat)
    requires Shape(s) && Run(s, actions).Some? && (pid in s.mail ==> pid < s.sched.numProc && s.mail[pid] == Messages.Mail([], []))
    ensures var s' := Run(s, actions).value;
            && (pid in s'.mail ==> pid < s'.sched.numProc && s'.mail[pid] == Messages.Run(MailEvents(s, actions, pid)))
            && (pid !in s'.mail && pid >= s'.sched.numProc ==> MailEvents(s, actions, pid) == [])
  {
    hide Step, MailEvent, Messages.Step, Shape;
    if actions != [] {
      var init, e := actions[..|actions| - 1], actions[|actions| - 1];
      MailIsRun(s, init, pid);
      var s1 := Run(s, init).value;
      MailOfStep(s1, e, pid);
      var before, log := MailEvents(s, init, pid), MailEvent(s1, e, pid);
      assert MailEvents(s, actions, pid) == before + log;
      if log == [] { assert before + log == before; } else { assert (before + log)[..|before|] == before; }
    }
  }

  lemma DeliveredInOrder(s: State, actions: seq<Action>, pid: nat, sender: nat)
    requires Shape(s) && Run(s, actions).Some? && (pid in s.mail ==> pid < s.sched.numProc && s.mail[pid] == Messages.Mail([], []))
    requires pid in Run(s, actions).value.mail
    ensures var box, sent := Run(s, actions).value.mail[pid], Messages.AllSent(MailEvents(s, actions, pid));
            && Messages.From(box.got, sender) + Messages.From(box.queue, sender) == Messages.From(sent, sender)
            && multiset(box.got) + multiset(box.queue) == multiset(sent)
  {
    hide Messages.Run, MailEvents, Run;
    MailIsRun(s, actions, pid);
    Messages.PerSenderFifo(MailEvents(s, actions, pid), sender);
    Messages.NothingLost(MailEvents(s, actions, pid));
  }

  // ----- a context that is left behind

  // Nobody runs in context a.
  ghost predicate Orphan(s: State, a: nat) {
    a in s.breaks && forall i :: 0 <= i < |s.sched.procs| ==> s.sched.procs[i].context != a
  }

  // launch_elf_program leaves its context behind exactly if it finds no image, or an entry of 0
  // once the image is loaded: the entry that the image had, if it lies in the caller's memory.
  lemma LaunchLeavesExactly(s: State, addr: u32, owner: map<nat, Role>, reserved: set<nat>)
    requires Inv(s, owner, reserved) && s.sched.current.Some? && Launched(s, addr).Some?
    ensures var s', c := Launched(s, addr).value, CreateUser(s.loaded.m, s.k).value.1;
            && c !in s.breaks && c in s'.breaks
            && (Orphan(s', c) <==> !FindsImage(s, addr) || EntryRead(s', Current(s).context, addr) == Some(0))
            && (GoodImage(s, addr) ==> (Orphan(s', c) <==> !FindsImage(s, addr) || Entry(SeenBy(s), addr) == 0))
  {
    hide Spaces.Laid, ByPid, NodesOk, HeapOk, Entry, LoadAll, CreateUser, Launched, Housed, Hosted, Parse, FindsImage, ReadBytes, GoodImage, Seen;
    LaunchParts(s, addr);
    NewContextIsNew(SysOf(s), owner, reserved);
    var (l, c, entry) := NewProgram(s, addr).value;
    EntryOfProgram(s, addr, owner, reserved);
    if entry != 0 {
      var (heap, b) := Housed(l.heap, true).value;
      HostedParts(s.(loaded := l, breaks := s.breaks[c := 0]), heap, b, c, entry);
      assert Launched(s, addr).value.sched.procs[0].context == c;
    }
    if GoodImage(s, addr) { var _ := ProgramIs(s, addr, owner, reserved); }
  }

  function EntryRead(s: State, a: nat, addr: nat): Option<nat>
    requires Shape(s)
  {
    match ReadBytes(s.loaded.m, s.loaded.ram, a, Wrap(addr + 24), 4)
    case None => None
    case Some(w) => Some(Word32(w, 0))
  }

  lemma EntryOfProgram(s: State, addr: u32, owner: map<nat, Role>, reserved: set<nat>)
    requires Inv(s, owner, reserved) && s.sched.current.Some? && NewProgram(s, addr).Some?
    ensures var (l, c, entry) := NewProgram(s, addr).value;
            if FindsImage(s, addr) then EntryRead(s.(loaded := l), Current(s).context, addr) == Some(entry) else entry == 0
  {
    hide Spaces.Laid, CreateUser, Walk, OwnContexts, ByPid, NodesOk, HeapOk, ReadBytes, ParseFrom, SameDirectory, Frames.Ledger;
    CurrentIsLive(s, owner, reserved);
    var _ := ContextStep(s, owner, reserved);
    var (m1, c) := CreateUser(s.loaded.m, s.k).value;
    SameBytesRead(s.loaded.m, m1, s.loaded.ram, Current(s).context, addr, 4);
  }

  lemma OrphanStep(s: State, e: Action, owner: map<nat, Role>, reserved: set<nat>, a: nat)
    requires Inv(s, owner, reserved) && Orphan(s, a) && Step(s, e).Some? && a in Step(s, e).value.breaks
    ensures Orphan(Step(s, e).value, a)
  {
    hide Spaces.Inv, ByPid, NodesOk, HeapOk, Spaces.Step, Phys, Killed, Launched, Sent, Received, Outgoing, Incoming, Scheduling.Step;
    match e
    case Timer(cpu) => SameListing(s.sched, Scheduling.Tick(cpu));
    case Do(call) =>
      match call
      case SetTimer(cpu, ms) => SameListing(s.sched, Scheduling.Event.SetTimer(cpu, ms));
      case Launch(addr) => OrphanOfLaunch(s, addr, owner, reserved, a);
      case Send(buffer) => MailOfSend(s, buffer);
      case Receive(buffer, who) => MailOfReceive(s, buffer, who);
      case Exit => ExitParts(s); OneLess(s.sched);
      case Store(va, _) => if Phys(s.loaded.m, Current(s).context, va) == None { ExitParts(s); OneLess(s.sched); }
      case _ =>
  }

  lemma OrphanOfLaunch(s: State, addr: u32, owner: map<nat, Role>, reserved: set<nat>, a: nat)
    requires Inv(s, owner, reserved) && Orphan(s, a) && s.sched.current.Some? && Launched(s, addr).Some?
    ensures Orphan(Launched(s, addr).value, a)
  {
    hide Spaces.Laid, ByPid, NodesOk, HeapOk, CreateUser, LoadAll, Count, ReadU32, Entry, Launched, Housed, Hosted;
    LaunchParts(s, addr);
    NewContextIsNew(SysOf(s), owner, reserved);
    var (l, c, entry) := NewProgram(s, addr).value;
    if entry != 0 {
      var (heap, b) := Housed(l.heap, true).value;
      HostedParts(s.(loaded := l, breaks := s.breaks[c := 0]), heap, b, c, entry);
    }
  }

  lemma OrphanIsNobodys(s: State, e: Action, a: nat)
    requires Shape(s) && Orphan(s, a)
    ensures !By(s, e, a)
  {
  }

  // Nothing ever destroys it: its frames stay used for good.
  lemma {:induction false} LeakedForGood(s: State, actions: seq<Action>, owner: map<nat, Role>, reserved: set<nat>, a: nat)
    returns (owner': map<nat, Role>)
    requires Inv(s, owner, reserved) && ProperRun(s, actions) && Run(s, actions).Some? && Orphan(s, a)
    ensures var s' := Run(s, actions).value;
            && Inv(s', owner', reserved) && s'.k == s.k
            && Orphan(s', a) && a in s'.loaded.m.frames.used && DirOf(s'.loaded.m, a) in s'.loaded.m.frames.used
  {
    hide Spaces.Inv, OwnContexts, ByPid, NodesOk, HeapOk, Step, Proper, ProperRun, SameDirectory, Undisturbed, Frames.Ledger, By, Orphan, DirOf;
    owner' := owner;
    if actions == [] {
      LiveIsUsed(s, owner, reserved, a);
    } else {
      FewerProper(s, actions);
      var init, e := actions[..|actions| - 1], actions[|actions| - 1];
      owner' := LeakedForGood(s, init, owner, reserved, a);
      var s1, s' := Run(s, init).value, Run(s, actions).value;
      OrphanIsNobodys(s1, e, a);
      var owner1 := owner';
      owner' := StepKeeps(s1, e, owner', reserved);
      OrphanIsLive(s1, a);
      OrphanStep(s1, e, owner1, reserved, a);
      LiveIsUsed(s', owner', reserved, a);
    }
  }

  lemma OrphanIsLive(s: State, a: nat)
    requires Orphan(s, a)
    ensures a in s.breaks
  {
  }

  lemma LiveIsUsed(s: State, owner: map<nat, Role>, reserved: set<nat>, a: nat)
    requires Inv(s, owner, reserved) && Orphan(s, a)
    ensures a in s.loaded.m.frames.used && DirOf(s.loaded.m, a) in s.loaded.m.frames.used
  {
    hide DirOf, TableOk, WellFormed, KernelIdentity, NoUserSlots, HeapOk, ByPid, NodesOk;
    assert ContextOk(s.loaded.m, s.k, owner, a);
  }

  // ----- from boot

  lemma NewSpace(y: Spaces.Sys, owner: map<nat, Role>, reserved: set<nat>) returns (owner': map<nat, Role>)
    requires Spaces.Inv(y, owner, reserved) && CreateUser(y.m, y.k).Some?
    ensures var (m1, c) := CreateUser(y.m, y.k).value;
            c !in y.breaks && Spaces.Inv(Spaces.Sys(m1, y.k, y.breaks[c := 0]), owner', reserved)
            && m1.frames.Ledger() == y.m.frames.Ledger()
  {
    hide Spaces.Laid, CreateUser, Frames.Ledger;
    NewContextIsNew(y, owner, reserved);
    CreateIs(y);
    owner' := Spaces.StepKeepsInv(y, Spaces.Create, owner, reserved);
  }

  lemma ThreeSpaces(m: Mem, k: nat, owner: map<nat, Role>, reserved: set<nat>) returns (owner': map<nat, Role>)
    requires Spaces.Inv(Spaces.Sys(m, k, map[]), owner, reserved) && ThreeContexts(m, k).Some?
    ensures var (m3, c0, c1, c2) := ThreeContexts(m, k).value;
            && c0 != c1 && c1 != c2 && c0 != c2
            && Spaces.Inv(Spaces.Sys(m3, k, map[c0 := 0][c1 := 0][c2 := 0]), owner', reserved)
  {
    hide Spaces.Inv, CreateUser, Frames.Ledger;
    owner' := NewSpace(Spaces.Sys(m, k, map[]), owner, reserved);
    var (m1, c0) := CreateUser(m, k).value;
    owner' := NewSpace(Spaces.Sys(m1, k, map[c0 := 0]), owner', reserved);
    var (m2, c1) := CreateUser(m1, k).value;
    owner' := NewSpace(Spaces.Sys(m2, k, map[c0 := 0][c1 := 0]), owner', reserved);
  }

  lemma ThreeBlocks(heap: seq<Heap.Block>)
    requires Heap.Holds(heap) && ThreeHoused(heap).Some? && Heap.EndOf(ThreeHoused(heap).value.0) <= Heap.END
    ensures var (h, b0, b1, b2) := ThreeHoused(heap).value;
            HeapOk(h, map[0 := []][1 := []][2 := []], map[0 := b0][1 := b1][2 := b2])
  {
    hide Housed, Heap.EndOf, HeapOk, Heap.Holds;
    var (h0, b0) := Housed(heap, false).value;
    var (h1, b1) := Housed(h0, false).value;
    NothingYet(heap);
    HousedMovesOn(heap, false);
    HousedMovesOn(h0, false);
    HousedMovesOn(h1, false);
    HousedOk(heap, false, map[], map[], 0);
    HousedOk(h0, false, map[], map[0 := b0], 1);
    HousedOk(h1, false, map[], map[0 := b0][1 := b1], 2);
    var (h, _, _, b2) := ThreeHoused(heap).value;
    NewBoxOk(h, map[], map[0 := b0][1 := b1][2 := b2], 0);
    NewBoxOk(h, map[0 := []], map[0 := b0][1 := b1][2 := b2], 1);
    NewBoxOk(h, map[0 := []][1 := []], map[0 := b0][1 := b1][2 := b2], 2);
  }

  lemma NothingYet(h: seq<Heap.Block>)
    requires Heap.Holds(h)
    ensures HeapOk(h, map[], map[]) && Heap.EndOf(h) <= Heap.END
  {
  }

  lemma HousedMovesOn(h: seq<Heap.Block>, user: bool)
    requires Housed(h, user).Some? && Heap.EndOf(h) <= Heap.END + 0x10_0000
    ensures Heap.EndOf(h) <= Heap.EndOf(Housed(h, user).value.0) <= Heap.EndOf(h) + 0x4000
  {
    hide Heap.Malloc, Heap.EndOf, WithRecord;
    var (h1, stack) := Heap.Malloc(h, STACK_SIZE).value;
    Heap.EndMovesOn(h, STACK_SIZE);
    if user {
      var (h2, userStack) := Heap.Malloc(h1, STACK_SIZE).value;
      Heap.EndMovesOn(h1, STACK_SIZE);
      RecordOk(h2, stack, Some(userStack));
      Heap.EndMovesOn(h2, PROCESS_SIZE);
    } else {
      RecordOk(h1, stack, None);
      Heap.EndMovesOn(h1, PROCESS_SIZE);
    }
  }

  lemma BootedInv(m: Mem, ram: Bytes, heap: seq<Heap.Block>, ticks: u32, entries: (u32, u32, u32)) returns (owner: map<nat, Role>)
    requires WellFormed(m) && Heap.Holds(heap) && Booted(m, ram, heap, ticks, entries).Some? && EndsInHeap(Booted(m, ram, heap, ticks, entries))
    ensures Inv(Booted(m, ram, heap, ticks, entries).value, owner, m.frames.used)
  {
    hide Spaces.Inv, ThreeContexts, ThreeHoused, InitVmm, WellFormed, HeapOk, Heap.EndOf, Heap.Holds;
    owner := Spaces.BootInv(m);
    var (m0, k) := InitVmm(m).value;
    owner := ThreeSpaces(m0, k, owner, m.frames.used);
    ThreeBlocks(heap);
    ThreeBoxes(Booted(m, ram, heap, ticks, entries).value);
  }

  lemma ThreeBoxes(s: State)
    requires |s.sched.procs| == 3 && (forall i :: 0 <= i < 3 ==> s.sched.procs[i].pid == 2 - i) && s.mail.Keys == {0, 1, 2}
    ensures ByPid(s.sched.procs, s.mail.Keys)
  {
    forall pid ensures pid in s.mail.Keys <==> Listed(s.sched.procs, pid) {
      if pid in s.mail.Keys { assert s.sched.procs[2 - pid].pid == pid; }
    }
  }

  // On every run from boot: the processes have different address spaces; all context pages,
  // directories, tables and user frames of all of them are pairwise different, used and none
  // that boot reserved; every context sees the kernel one to one; and the counter of free
  // memory agrees with the bitmap as at the start.
  lemma EveryRunIsIsolated(m: Mem, ram: Bytes, heap: seq<Heap.Block>, ticks: u32, entries: (u32, u32, u32), actions: seq<Action>)
    requires WellFormed(m) && Heap.Holds(heap) && Booted(m, ram, heap, ticks, entries).Some? && EndsInHeap(Booted(m, ram, heap, ticks, entries))
    requires var s := Booted(m, ram, heap, ticks, entries).value; ProperRun(s, actions) && Run(s, actions).Some?
    ensures var s := Booted(m, ram, heap, ticks, entries).value; var s' := Run(s, actions).value;
            && Spaces.Isolated(SysOf(s'), m.frames.used) && OwnContexts(s'.sched.procs, s'.breaks.Keys)
            && KernelIdentity(s'.loaded.m, s'.k, SysOf(s').Live())
            && s'.loaded.m.frames.Ledger() == s.loaded.m.frames.Ledger()
            && (forall pid :: pid in s'.mail.Keys <==> Listed(s'.sched.procs, pid))
  {
    hide Owned, NoUserSlots, KernelIdentity, Spaces.Isolated, OwnContexts, Booted, Run, ProperRun, SameDirectory, Frames.Ledger, WellFormed,
      Listed, NodesOk, HeapOk, Heap.Holds, Heap.EndOf;
    var s := Booted(m, ram, heap, ticks, entries).value;
    var owner := BootedInv(m, ram, heap, ticks, entries);
    owner := RunKeeps(s, actions, owner, m.frames.used);
    Spaces.OwnedIsIsolated(SysOf(Run(s, actions).value), owner, m.frames.used);
  }
}
