/**
 The system calls as the source dispatches them (hal.x86/syscall.c:12-111), on the objects of
 the memory manager, the loader, the heap and the process list. Each computes the step of
 module Kernel. The box of a process is kept here by its value; class Messages.Mailbox is the
 linked list.
 */
module Syscalls {
  import opened Machine
  import opened Paging
  import Ownership
  import opened Frames
  import Vmm
  import opened Translation
  import opened Access
  import opened Elf
  import opened Images
  import opened Kernel
  import opened KernelRuns
  import opened Calls
  import opened Loader
  import opened Processes
  import Scheduling
  import Messages
  import Spaces = AddressSpaceRuns
  import opened SbrkRuns
  import Heap

  ghost function Memory(loader: Loader): set<object> {
    {loader, loader.vmm, loader.vmm.pmm, loader.vmm.pmm.bitmap, loader.vmm.words, loader.heap, loader.ram}
  }

  // Different objects, as their types already make them.
  ghost predicate Separate(loader: Loader, multi: Multitasking, procs: seq<Process>) {
    multi as object !in Memory(loader) && forall p <- procs :: p as object !in Memory(loader) && p as object != multi
  }

  class Syscalls {
    const loader: Loader
    const multi: Multitasking
    var breaks: map<nat, nat>             // sbrk_state, by the context of the process
    var mail: map<nat, Messages.Mail>     // the boxes, by pid
    var nodes: map<nat, seq<nat>>         // the heap blocks of the queued messages
    var blocks: map<nat, Blocks>          // the heap blocks of the processes
    var starts: map<nat, Cpu>             // the registers they start with

    constructor (loader: Loader, multi: Multitasking, breaks: map<nat, nat>, mail: map<nat, Messages.Mail>,
                 nodes: map<nat, seq<nat>>, blocks: map<nat, Blocks>, starts: map<nat, Cpu>)
      requires loader.Valid() && multi.Valid() && Heap.EndOf(loader.heap.chain) < WORD
      requires Separate(loader, multi, multi.procs)
      requires var s := State(loader.Value(), loader.vmm.kernelContext, breaks, multi.sched, mail, nodes, blocks, starts);
               && Inv(s, loader.vmm.owner, loader.vmm.reserved) && loader.vmm.live == SysOf(s).Live()
               && loader.vmm.currentContext in loader.vmm.live && Active(s, loader.vmm.currentContext)
      ensures Valid() && Value() == State(loader.Value(), loader.vmm.kernelContext, breaks, multi.sched, mail, nodes, blocks, starts)
      ensures this.loader == loader && this.multi == multi
    {
      hide Inv, Heap.EndOf, SysOf, loader.Valid, multi.Valid, Separate, Active;
      this.loader, this.multi, this.breaks, this.mail, this.nodes, this.blocks := loader, multi, breaks, mail, nodes, blocks;
      this.starts := starts;
    }

    ghost function Value(): State
      reads this, loader.vmm, loader.heap, loader.ram, multi
    {
      State(loader.Value(), loader.vmm.kernelContext, breaks, multi.sched, mail, nodes, blocks, starts)
    }

    // The objects are what they should be and are apart.
    ghost predicate Objects()
      reads loader.vmm, loader.vmm.pmm, loader.vmm.pmm.bitmap, loader.vmm.words, loader.heap, loader.ram, multi, multi.procs
    {
      && Separate(loader, multi, multi.procs) && this !in Memory(loader) && this as object != multi && (forall p <- multi.procs :: p as object != this)
      && loader.Valid() && multi.Valid() && Heap.EndOf(loader.heap.chain) < WORD
    }

    ghost predicate Valid()
      reads this, loader.vmm, loader.vmm.pmm, loader.vmm.pmm.bitmap, loader.vmm.words, loader.heap, loader.ram, multi, multi.procs
    {
      && Objects() && Inv(Value(), loader.vmm.owner, loader.vmm.reserved) && loader.vmm.live == SysOf(Value()).Live()
      && loader.vmm.currentContext in loader.vmm.live && Active(Value(), loader.vmm.currentContext)
    }

    // The current process object and its value.
    lemma CurrentIs()
      requires Valid() && multi.currentProcess != null
      ensures multi.sched.current.Some? && Current(Value()).context == multi.currentProcess.context
      ensures Current(Value()).pid == multi.currentProcess.pid && Current(Value()).pid < WORD
      ensures Current(Value()).context == loader.vmm.currentContext && Current(Value()).context in breaks
      ensures Current(Value()).context in loader.vmm.live && Current(Value()).context != loader.vmm.kernelContext
      ensures Current(Value()).pid in mail && Current(Value()).pid in nodes && Current(Value()).pid in blocks
    {
      hide Spaces.Laid, ByPid, HeapOk, NodesOk, loader.Valid;
      multi.CurrentHolds();
      CurrentIsLive(Value(), loader.vmm.owner, loader.vmm.reserved);
    }

    // The invariant after a step that changed the memory.
    lemma StillInv(s: State, e: Action, owner: map<nat, Ownership.Role>, owner': map<nat, Ownership.Role>, reserved: set<nat>)
      requires Inv(s, owner, reserved) && Proper(s, e) && Step(s, e).Some?
      requires var s' := Step(s, e).value; Ownership.Owned(s'.loaded.m, s'.k, SysOf(s').Live(), owner', reserved)
      ensures Inv(Step(s, e).value, owner', reserved) && Step(s, e).value.k == s.k
    {
      hide Step, Ownership.Owned, Proper;
      var owner1 := StepKeeps(s, e, owner, reserved);
    }

    lemma OwnedNow()
      requires Objects()
      ensures Ownership.Owned(loader.vmm.mem, loader.vmm.kernelContext, loader.vmm.live, loader.vmm.owner, loader.vmm.reserved)
    {
    }

    lemma RootedNow()
      requires loader.Valid() && loader.vmm.currentContext in loader.vmm.live
      ensures loader.vmm.Valid() && loader.vmm.Rooted(loader.vmm.currentContext)
    {
      hide Ownership.Owned;
      Vmm.OwnedIsRooted(loader.vmm.mem, loader.vmm.kernelContext, loader.vmm.live, loader.vmm.owner, loader.vmm.reserved, loader.vmm.currentContext);
    }

    // System call 5. The result goes to eax.
    method Sbrk(request: u32) returns (ok: bool, eax: nat)
      requires Valid() && multi.currentProcess != null && Proper(Value(), Do(Call.Sbrk(request)))
      modifies this`breaks, loader.vmm`mem, loader.vmm`owner, loader.vmm.pmm`freeMemory, loader.vmm.pmm.bitmap, loader.vmm.words
      ensures match Step(old(Value()), Do(Call.Sbrk(request)))
              case None => !ok
              case Some(s) => ok && Valid() && Value() == s && eax == SbrkResult(SysOf(old(Value())), Current(old(Value())).context, request)
    {
      hide Inv, multi.Valid, Ownership.Owned, Paging.VmmAlloc, Heap.EndOf, Heap.InMemory, loader.vmm.Valid, Step, Proper;
      CurrentIs();
      ok, eax := true, 0;
      ghost var s, owner, reserved := Value(), loader.vmm.owner, loader.vmm.reserved;
      SbrkIs(s, owner, reserved, request);
      if request == 0 { return true, WORD - 1; }
      var c := multi.currentProcess.context;
      var at := Wrap(USER_START * PAGE + breaks[c]);
      ok := loader.vmm.VmmAlloc(c, at, request);
      if !ok { return; }
      eax := at;
      breaks := breaks[c := Wrap(breaks[c] + request)];
      assert breaks.Keys == s.breaks.Keys;
      StillInv(s, Do(Call.Sbrk(request)), owner, loader.vmm.owner, reserved);
    }

    // The receiver is read from the message, and both pids are written into it.
    method Stamp(buffer: u32) returns (ok: bool, receiver: Process?, message: Messages.Message)
      requires Valid() && multi.currentProcess != null
      modifies loader.ram
      ensures Objects()
      ensures match Outgoing(old(Value()), buffer)
              case None => !ok
              case Some(None) => ok && receiver == null && Value() == old(Value())
              case Some(Some((to, ram1, msg))) =>
                && ok && receiver != null && receiver.pid == to && to in mail && to in nodes && message == msg
                && Value() == old(Value()).(loaded := old(Value()).loaded.(ram := ram1))
    {
      hide Inv, multi.Valid, Ownership.Owned, Heap.EndOf, loader.heap.Valid, loader.vmm.Valid, Write, ReadBytes, Vmm.RootedIn, Messages.Decode, Word32, Bytes32;
      CurrentIs();
      RootedNow();
      multi.PidsHold();
      BoxesByPid();
      receiver, message := null, Messages.Message(0, 0, 0, 0, ZeroBytes(Messages.TEXT));
      var word;
      ok, word := loader.Fetch(Wrap(buffer + 4), 4);
      if !ok { return; }
      var process := multi.GetProcessByPid(Word32(word, 0));
      if buffer == 0 || process == null { return; }
      ok := loader.Put(buffer, Bytes32(multi.currentProcess.pid) + Bytes32(Word32(word, 0)));
      if !ok { return; }
      var bytes;
      ok, bytes := loader.Fetch(buffer, Messages.LENGTH);
      if !ok { return; }
      receiver, message := process, Messages.Decode(bytes);
    }

    lemma BoxesByPid()
      requires Valid()
      ensures mail.Keys == nodes.Keys && forall pid :: pid in mail <==> Listed(multi.sched.procs, pid)
    {
      hide Spaces.Inv, OwnContexts, HeapOk;
    }

    // System call 3, send_message, with the address of the message.
    method SendMessage(buffer: u32) returns (ok: bool, eax: nat)
      requires Valid() && multi.currentProcess != null && Proper(Value(), Do(Send(buffer)))
      modifies this`mail, this`nodes, loader.heap, loader.ram
      ensures match Step(old(Value()), Do(Send(buffer)))
              case None => !ok
              case Some(s) => ok && Valid() && Value() == s && eax == SendCode(old(Value()), buffer)
    {
      hide Spaces.Inv, OwnContexts, ByPid, NodesOk, HeapOk, multi.Valid, loader.vmm.Valid, Ownership.Owned, Outgoing, Proper, Heap.Malloc, Heap.InMemory,
        Heap.FirstFit, Step, Messages.Step;
      CurrentIs();
      ghost var s := Value();
      SendIs(s, buffer);
      HeapIsShort(s, loader.vmm.owner, loader.vmm.reserved, NODE_SIZE);
      eax := Messages.ERR_SEND;
      var receiver, message, node;
      ok, receiver, message := Stamp(buffer);
      if !ok || receiver == null { return; }
      ok, node := loader.heap.Kmalloc(NODE_SIZE);
      if !ok { return; }
      mail := mail[receiver.pid := Messages.Step(mail[receiver.pid], Messages.Send(message))];
      nodes := nodes[receiver.pid := nodes[receiver.pid] + [node]];
      eax := Messages.SENT;
      SendInv(s, buffer, loader.vmm.owner, loader.vmm.reserved);
    }

    // The message is copied out and its node is freed.
    method HandOver(buffer: u32, data: seq<byte>, node: nat) returns (ok: bool)
      requires Objects() && loader.vmm.currentContext in loader.vmm.live && 0 < node < Heap.END
      requires (exists j :: 0 <= j < |loader.heap.chain| && loader.heap.chain[j].Payload() == node)
      requires Heap.EndOf(Heap.Free(loader.heap.chain, node)) < WORD
      modifies loader.heap, loader.ram
      ensures Objects()
      ensures match Write(old(loader.ram[..]), loader.vmm.mem, loader.vmm.currentContext, buffer, data)
              case None => !ok
              case Some(ram1) => ok && loader.ram[..] == ram1 && loader.heap.chain == Heap.Free(old(loader.heap.chain), node)
    {
      hide multi.Valid, loader.vmm.Valid, Ownership.Owned, Heap.Free, Heap.InMemory, Vmm.RootedIn, Write, Heap.EndOf;
      RootedNow();
      ok := loader.Put(buffer, data);
      if !ok { return; }
      ok := loader.heap.Kfree(node);
    }

    // System call 4, receive_message.
    method ReceiveMessage(buffer: u32, who: u32) returns (ok: bool, eax: nat)
      requires Valid() && multi.currentProcess != null && Proper(Value(), Do(Receive(buffer, who)))
      modifies this`mail, this`nodes, loader.heap, loader.ram
      ensures match Step(old(Value()), Do(Receive(buffer, who)))
              case None => !ok
              case Some(s) => ok && Valid() && Value() == s
                              && eax == if Incoming(old(Value()), buffer, who).Some? then Messages.RECEIVED else Messages.ERR_RECEIVE
    {
      hide Spaces.Inv, OwnContexts, ByPid, NodesOk, HeapOk, multi.Valid, loader.vmm.Valid, Ownership.Owned, Proper, Heap.Free, Heap.InMemory,
        Step, Messages.Step, Messages.Without, Messages.Encode, Messages.Find, Write, Heap.EndOf, Incoming, Objects;
      CurrentIs();
      ghost var s := Value();
      ReceiveIs(s, buffer, who, loader.vmm.owner, loader.vmm.reserved);
      ok, eax := true, Messages.ERR_RECEIVE;
      var pid := multi.currentProcess.pid;
      var i := Messages.Find(mail[pid].queue, who);
      if buffer == 0 || i == |mail[pid].queue| { return; }
      ok := HandOver(buffer, Messages.Encode(mail[pid].queue[i]), nodes[pid][i]);
      if !ok { return; }
      mail := mail[pid := Messages.Step(mail[pid], Messages.Receive(who))];
      nodes := nodes[pid := Messages.Without(nodes[pid], i)];
      eax := Messages.RECEIVED;
    }

    // The timer interrupt (idt.c:243-247).
    method Timer(cpu: nat) returns (state: nat)
      requires Valid()
      modifies multi`tickCount, multi`currentProcess, multi`activeContext, multi`sched, multi.procs, loader.vmm`currentContext
      ensures var r := Step(old(Value()), Kernel.Timer(cpu));
              r.Some? && Valid() && Value() == r.value && Resumes(r.value, state)
    {
      hide Spaces.Inv, OwnContexts, ByPid, NodesOk, HeapOk, multi.Valid, loader.vmm.Valid, Ownership.Owned, Heap.InMemory, Scheduling.Step, Heap.EndOf, Step;
      ghost var s, owner, reserved := Value(), loader.vmm.owner, loader.vmm.reserved;
      state := multi.TimerInterrupt(cpu);
      TimerIs(s, cpu, multi.sched);
      TimerInv(s, Kernel.Timer(cpu), owner, reserved);
      loader.vmm.Activate(multi.activeContext);
    }

    // System call 8, set_timer.
    method SetTimer(cpu: nat, ms: u32) returns (state: nat)
      requires Valid() && multi.currentProcess != null
      modifies multi`currentProcess, multi`activeContext, multi`sched, multi.procs, loader.vmm`currentContext
      ensures var r := Step(old(Value()), Do(Call.SetTimer(cpu, ms)));
              r.Some? && Valid() && Value() == r.value && Resumes(r.value, state)
    {
      hide Spaces.Inv, OwnContexts, ByPid, NodesOk, HeapOk, multi.Valid, loader.vmm.Valid, Ownership.Owned, Heap.InMemory, Scheduling.Step, Heap.EndOf, Step;
      CurrentIs();
      ghost var s, owner, reserved := Value(), loader.vmm.owner, loader.vmm.reserved;
      state := multi.SetTimer(cpu, ms);
      SetTimerIs(s, cpu, ms, multi.sched);
      TimerInv(s, Do(Call.SetTimer(cpu, ms)), owner, reserved);
      loader.vmm.Activate(multi.activeContext);
    }

    lemma TimerInv(s: State, e: Action, owner: map<nat, Ownership.Role>, reserved: set<nat>)
      requires Inv(s, owner, reserved) && (e.Timer? || (e.Do? && e.call.SetTimer?)) && Step(s, e).Some?
      ensures var s' := Step(s, e).value;
              Inv(s', owner, reserved) && SysOf(s') == SysOf(s) && (s'.sched.current.Some? ==> Current(s').context in SysOf(s').Live())
    {
      hide Spaces.Inv, ByPid, NodesOk, HeapOk, Scheduling.Step, Undisturbed, Ownership.SameDirectory, Frames.Ledger;
      match e
      case Timer(cpu) => TimerStep(s, e, Scheduling.Tick(cpu), owner, reserved);
      case Do(call) => TimerStep(s, e, Scheduling.Event.SetTimer(call.cpu, call.ms), owner, reserved);
    }

    // KillCurrentProcess, without the memory.
    method LeaveList() returns (state: nat)
      requires Objects() && multi.currentProcess != null && Scheduling.Step(multi.sched, Scheduling.Event.Exit).Some?
      modifies multi`firstProcess, multi`currentProcess, multi`activeContext, multi`procs, multi`sched, multi.procs
      modifies loader.vmm`currentContext
      ensures Objects() && Scheduling.Step(old(multi.sched), Scheduling.Event.Exit) == Some(multi.sched)
      ensures multi.sched.Valid() && multi.sched.current.Some? && state == Scheduling.Resumed(multi.sched)
      ensures loader.vmm.currentContext == multi.sched.procs[multi.sched.current.value].context
    {
      hide multi.Valid, loader.vmm.Valid, Ownership.Owned, Heap.InMemory, Scheduling.Step, Heap.EndOf;
      state := multi.KillCurrentProcess();
      multi.NumProcIs();
      loader.vmm.Activate(multi.activeContext);
    }

    // kfree of the blocks of a process.
    method FreeAll(stack: nat, userStack: nat, record: nat) returns (ok: bool)
      requires Objects() && Heap.Holds(loader.heap.chain) && Heap.IsPayload(loader.heap.chain, stack)
      requires Heap.IsPayload(loader.heap.chain, userStack) && Heap.IsPayload(loader.heap.chain, record)
      modifies loader.heap
      ensures ok && Objects() && loader.heap.chain == FreeBlocks(old(loader.heap.chain), stack, userStack, record)
    {
      hide Heap.Holds, Heap.IsPayload, Heap.Free, Heap.InMemory, multi.Valid, loader.vmm.Valid, Ownership.Owned, Heap.EndOf;
      ghost var h := loader.heap.chain;
      Heap.PayloadIsInside(h, stack);
      Heap.FreeHolds(h, stack);
      Heap.PayloadIsInside(Heap.Free(h, stack), userStack);
      Heap.FreeHolds(Heap.Free(h, stack), userStack);
      Heap.PayloadIsInside(Heap.Free(Heap.Free(h, stack), userStack), record);
      Heap.FreeHolds(Heap.Free(Heap.Free(h, stack), userStack), record);
      ok := loader.heap.Kfree(stack);
      ok := loader.heap.Kfree(userStack);
      ok := loader.heap.Kfree(record);
    }

    // The memory of a process: its address space and its blocks.
    method Release(c: nat, b: Blocks) returns (ok: bool)
      requires Objects() && c in loader.vmm.live && c != loader.vmm.kernelContext && b.userStack.Some?
      requires Heap.Holds(loader.heap.chain) && Heap.IsPayload(loader.heap.chain, b.stack)
      requires Heap.IsPayload(loader.heap.chain, b.userStack.value) && Heap.IsPayload(loader.heap.chain, b.record)
      modifies loader.vmm`mem, loader.vmm`owner, loader.vmm`live, loader.vmm.pmm`freeMemory, loader.vmm.pmm.bitmap, loader.heap
      ensures ok && Objects() && loader.vmm.live == old(loader.vmm.live) - {c} && loader.ram[..] == old(loader.ram[..])
      ensures Paging.Destroy(old(loader.vmm.mem), c, loader.vmm.kernelContext) == Some(loader.vmm.mem)
      ensures loader.heap.chain == FreeBlocks(old(loader.heap.chain), b.stack, b.userStack.value, b.record)
    {
      hide Heap.Holds, Heap.IsPayload, Heap.InMemory, FreeBlocks, multi.Valid, loader.vmm.Valid, Ownership.Owned, Paging.Destroy, Heap.EndOf;
      ok := loader.vmm.DestroyContext(c);
      ok := FreeAll(b.stack, b.userStack.value, b.record);
    }

    // System call 2: the context is destroyed, the blocks are freed and the process leaves the
    // list.
    method Exit() returns (ok: bool, state: nat)
      requires Valid() && multi.currentProcess != null && Killed(Value()).Some?
      modifies this, loader.vmm`mem, loader.vmm`owner, loader.vmm`live, loader.vmm`currentContext
      modifies loader.vmm.pmm`freeMemory, loader.vmm.pmm.bitmap, loader.heap
      modifies multi`firstProcess, multi`currentProcess, multi`activeContext, multi`procs, multi`sched, multi.procs
      ensures var r := Step(old(Value()), Do(Call.Exit));
              r.Some? && ok && Valid() && Value() == r.value && Resumes(r.value, state)
    {
      hide Spaces.Inv, OwnContexts, ByPid, NodesOk, HeapOk, multi.Valid, Scheduling.Step, loader.vmm.Valid, Ownership.Owned, Paging.Destroy, Step,
        Killed, FreeBlocks, Heap.Holds, Heap.IsPayload, Objects;
      CurrentIs();
      ghost var s, owner, reserved := Value(), loader.vmm.owner, loader.vmm.reserved;
      ExitHas(s, owner, reserved);
      var c, pid := multi.currentProcess.context, multi.currentProcess.pid;
      var b := blocks[pid];
      ok := Release(c, b);
      state := LeaveList();
      breaks, mail, nodes, blocks, starts := breaks - {c}, mail - {pid}, nodes - {pid}, blocks - {pid}, starts - {pid};
      Dismissed(s, owner, reserved);
    }

    lemma Dismissed(s: State, owner: map<nat, Ownership.Role>, reserved: set<nat>)
      requires Inv(s, owner, reserved) && s.sched.current.Some? && Killed(s).Some?
      requires var v, p := Value(), Current(s);
               && p.pid in s.blocks && s.blocks[p.pid].userStack.Some?
               && Scheduling.Step(s.sched, Scheduling.Event.Exit) == Some(v.sched)
               && Paging.Destroy(s.loaded.m, p.context, s.k) == Some(v.loaded.m)
               && var b := s.blocks[p.pid];
               v == s.(loaded := s.loaded.(m := v.loaded.m, heap := FreeBlocks(s.loaded.heap, b.stack, b.userStack.value, b.record)),
                       breaks := s.breaks - {p.context}, sched := v.sched,
                       mail := s.mail - {p.pid}, nodes := s.nodes - {p.pid}, blocks := s.blocks - {p.pid}, starts := s.starts - {p.pid})
      requires Objects() && loader.vmm.reserved == reserved && loader.vmm.live == SysOf(s).Live() - {Current(s).context}
      requires Value().sched.current.Some? && loader.vmm.currentContext == Current(Value()).context
      ensures Valid() && Step(s, Do(Call.Exit)) == Some(Value())
    {
      hide Objects, OwnContexts, ByPid, NodesOk, HeapOk, Spaces.Inv, Step, Killed;
      ExitIs(s, owner, reserved);
      CurrentIsLive(s, owner, reserved);
      assert breaks.Keys + {s.k} == SysOf(s).Live() - {Current(s).context};
      OwnedNow();
      StillInv(s, Do(Call.Exit), owner, loader.vmm.owner, reserved);
      CurrentContextLives(Value(), loader.vmm.owner, reserved);
    }

    // A store in user mode: the processor walks the tables. If that fails the process is ended
    // (idt.c:230-241) and `state` is what is resumed.
    method UserStore(va: u32, b: byte) returns (faulted: bool, state: nat)
      requires Valid() && multi.currentProcess != null && Proper(Value(), Do(Store(va, b)))
      requires Phys(loader.vmm.mem, loader.vmm.currentContext, va) == None ==> Killed(Value()).Some?
      modifies this, loader.vmm`mem, loader.vmm`owner, loader.vmm`live, loader.vmm`currentContext
      modifies loader.vmm.pmm`freeMemory, loader.vmm.pmm.bitmap, loader.heap, loader.ram
      modifies multi`firstProcess, multi`currentProcess, multi`activeContext, multi`procs, multi`sched, multi.procs
      ensures var r := Step(old(Value()), Do(Store(va, b)));
              && r.Some? && Valid() && Value() == r.value
              && faulted == (Phys(old(loader.vmm.mem), old(loader.vmm.currentContext), va) == None) && (faulted ==> Resumes(r.value, state))
    {
      hide Spaces.Inv, OwnContexts, ByPid, NodesOk, HeapOk, multi.Valid, loader.vmm.Valid, Ownership.Owned, Heap.InMemory, Heap.EndOf, Phys, Killed,
        Vmm.RootedIn, Proper, Step;
      CurrentIs();
      RootedNow();
      ghost var s, owner, reserved := Value(), loader.vmm.owner, loader.vmm.reserved;
      StoreIs(s, va, b);
      state := 0;
      var stored := loader.StoreByte(va, b);
      faulted := !stored;
      if faulted {
        assert Value() == s;
        var ok;
        ok, state := Exit();
      } else {
        OwnedNow();
        StillInv(s, Do(Store(va, b)), owner, owner, reserved);
      }
    }

    // A new context and ParseElf.
    method NewProgram(addr: u32) returns (ok: bool, context: nat, entry: nat)
      requires Valid() && multi.currentProcess != null
      requires ProgramFits(Value(), addr)
      modifies loader.vmm`mem, loader.vmm`owner, loader.vmm`live, loader.vmm`currentContext
      modifies loader.vmm.pmm`freeMemory, loader.vmm.pmm.bitmap, loader.vmm.words, loader.heap, loader.ram
      ensures match Kernel.NewProgram(old(Value()), addr)
              case None => !ok
              case Some((l, c, e)) =>
                && ok && context == c && entry == e && loader.Value() == l && (Heap.EndOf(l.heap) < WORD ==> Objects())
                && loader.vmm.live == old(loader.vmm.live) + {c} && loader.vmm.currentContext == old(loader.vmm.currentContext)
    {
      hide Inv, multi.Valid, loader.vmm.Valid, Ownership.Owned, CreateUser, Parse, HeapStaysShort, Heap.InMemory, Heap.EndOf;
      CurrentIs();
      NotNull(loader.vmm.mem, loader.vmm.kernelContext, loader.vmm.live, loader.vmm.owner, loader.vmm.reserved);
      entry := 0;
      ok, context := loader.vmm.CreateUsermodeContext();
      if !ok { return; }
      ok, entry := loader.ParseElf(addr, context);
    }

    // The three blocks of a user process.
    method House() returns (ok: bool, b: Blocks)
      requires Objects() && Heap.EndOf(loader.heap.chain) <= Heap.END
      modifies loader.heap
      ensures match Housed(old(loader.heap.chain), true)
              case None => !ok
              case Some((h, x)) => ok && b == x && loader.heap.chain == h && Objects()
    {
      hide multi.Valid, loader.vmm.Valid, Ownership.Owned, Heap.Malloc, Heap.InMemory, Heap.EndOf, Heap.FirstFit;
      b := Blocks(0, None, 0);
      var stack, userStack, record;
      ShortOfWord(loader.heap.chain);
      ok, stack := loader.heap.Kmalloc(STACK_SIZE);
      if !ok { return; }
      ok, userStack := loader.heap.Kmalloc(STACK_SIZE);
      if !ok { return; }
      ok, record := loader.heap.Kmalloc(PROCESS_SIZE);
      if !ok { return; }
      b := Blocks(stack, Some(userStack), record);
    }

    // CreateUserProcess, with an empty box.
    method AddProcess(b: Blocks, context: nat, entry: nat)
      requires Objects() && multi.numProc + 1 < WORD
      modifies this`mail, this`nodes, this`blocks, this`starts, multi
      ensures Objects() && Value() == old(Value()).(sched := multi.sched, mail := mail, nodes := nodes, blocks := blocks, starts := starts)
      ensures Scheduling.Created(old(multi.sched), Registers(b), context) == Some(multi.sched)
      ensures var pid := old(multi.sched).numProc;
              mail == old(mail)[pid := Messages.Mail([], [])] && nodes == old(nodes)[pid := []] && blocks == old(blocks)[pid := b] && starts == old(starts)[pid := UserStart(entry, b)]
    {
      hide multi.Valid, loader.Valid, Heap.EndOf;
      multi.NumProcIs();
      var process := multi.Create(Registers(b), context, false);
      mail := mail[process.pid := Messages.Mail([], [])];
      nodes, blocks := nodes[process.pid := []], blocks[process.pid := b];
      starts := starts[process.pid := UserStart(entry, b)];
    }

    // System call 9, launch_elf_program.
    method LaunchElf(addr: u32) returns (ok: bool)
      requires Valid() && multi.currentProcess != null && multi.numProc + 1 < WORD && Proper(Value(), Do(Launch(addr)))
      modifies this, loader.vmm`mem, loader.vmm`owner, loader.vmm`live, loader.vmm`currentContext
      modifies loader.vmm.pmm`freeMemory, loader.vmm.pmm.bitmap, loader.vmm.words, loader.heap, loader.ram, multi
      ensures match Step(old(Value()), Do(Launch(addr)))
              case None => !ok
              case Some(s) => ok && Valid() && Value() == s
    {
      hide Spaces.Inv, OwnContexts, ByPid, NodesOk, HeapOk, multi.Valid, loader.vmm.Valid, Ownership.Owned, Kernel.NewProgram, Housed, Proper,
        Heap.InMemory, Heap.EndOf, Scheduling.Created, ProgramFits, Step, Hosted;
      CurrentIs();
      multi.NumProcIs();
      ghost var s, owner, reserved := Value(), loader.vmm.owner, loader.vmm.reserved;
      LaunchIs(s, addr, owner, reserved);
      var context, entry, b;
      ok, context, entry := NewProgram(addr);
      if !ok { return; }
      breaks := breaks[context := 0];
      if entry != 0 {
        ok, b := House();
        if !ok { return; }
        AddProcess(b, context, entry);
      }
      assert breaks.Keys + {s.k} == SysOf(s).Live() + {context};
      StillInv(s, Do(Launch(addr)), owner, loader.vmm.owner, reserved);
    }
  }

  // The address space of the current process is the active one.
  ghost predicate Active(s: State, current: nat) {
    s.sched.Valid() && (s.sched.current.Some? ==> current == Current(s).context)
  }

  // The interrupt returns to the registers of the current process.
  ghost predicate Resumes(s: State, state: nat) {
    s.sched.Valid() && s.sched.current.Some? && state == s.sched.procs[s.sched.current.value].state
  }

  function SendCode(s: State, buffer: u32): nat
    requires Shape(s) && s.sched.current.Some?
  {
    match Outgoing(s, buffer)
    case Some(Some(_)) => Messages.SENT
    case _ => Messages.ERR_SEND
  }

  // The result in eax tells exactly whether there is such a process.
  lemma SendCodeExactly(s: State, buffer: u32, owner: map<nat, Ownership.Role>, reserved: set<nat>)
    requires Inv(s, owner, reserved) && s.sched.current.Some? && OwnBuffer(s, buffer) && Sent(s, buffer).Some? && MessageAt(s, buffer).Some?
    ensures SendCode(s, buffer) == if buffer != 0 && Listed(s.sched.procs, MessageAt(s, buffer).value.receiver) then 0 else 1
  {
    hide Inv, OwnBuffer, Sent, Outgoing, Listed, MessageAt, Heap.Malloc, Messages.Step;
    InvShape(s, owner, reserved);
    SendExactly(s, buffer, owner, reserved);
    SendParts(s, buffer);
    if Outgoing(s, buffer).value.Some? { QueueOfSend(s, buffer); }
  }

  lemma QueueOfSend(s: State, buffer: u32)
    requires Shape(s) && s.sched.current.Some? && Sent(s, buffer).Some? && Outgoing(s, buffer).value.Some?
    ensures Sent(s, buffer).value != s
  {
    hide Sent, Outgoing;
    SendParts(s, buffer);
    var to := Outgoing(s, buffer).value.value.0;
    QueueGrew(s, Sent(s, buffer).value, to);
  }

  lemma SbrkIs(s: State, owner: map<nat, Ownership.Role>, reserved: set<nat>, request: u32)
    requires Inv(s, owner, reserved) && s.sched.current.Some?
    ensures var c := Current(s).context;
            && c in s.breaks
            && SbrkResult(SysOf(s), c, request) == (if request == 0 then WORD - 1 else Wrap(USER_START * PAGE + s.breaks[c]))
            && Step(s, Do(Call.Sbrk(request))) ==
               if request == 0 then Some(s)
               else match Paging.VmmAlloc(s.loaded.m, c, Wrap(USER_START * PAGE + s.breaks[c]), request)
                    case None => None
                    case Some(m) => Some(s.(loaded := s.loaded.(m := m), breaks := s.breaks[c := Wrap(s.breaks[c] + request)]))
  {
    hide Spaces.Laid, ByPid, NodesOk, HeapOk, Paging.VmmAlloc;
  }

  lemma SendIs(s: State, buffer: u32)
    requires Shape(s) && s.sched.current.Some?
    ensures Step(s, Do(Send(buffer))) ==
            match Outgoing(s, buffer)
            case None => None
            case Some(None) => Some(s)
            case Some(Some((to, ram1, message))) =>
              match Heap.Malloc(s.loaded.heap, NODE_SIZE)
              case None => None
              case Some((heap1, node)) =>
                Some(s.(loaded := s.loaded.(ram := ram1, heap := heap1),
                        mail := s.mail[to := Messages.Step(s.mail[to], Messages.Send(message))], nodes := s.nodes[to := s.nodes[to] + [node]]))
  {
    hide Outgoing, Heap.Malloc, Messages.Step;
  }

  lemma HeapIsShort(s: State, owner: map<nat, Ownership.Role>, reserved: set<nat>, size: nat)
    requires Inv(s, owner, reserved) && size < PAGE
    ensures Heap.EndOf(s.loaded.heap) < WORD
    ensures Heap.Malloc(s.loaded.heap, size).Some? ==> Heap.EndOf(Heap.Malloc(s.loaded.heap, size).value.0) < WORD
  {
    hide Spaces.Inv, OwnContexts, ByPid, NodesOk, Heap.Malloc, Heap.EndOf, Heap.IsPayload;
    if Heap.Malloc(s.loaded.heap, size).Some? { Heap.EndMovesOn(s.loaded.heap, size); }
  }

  lemma SendInv(s: State, buffer: u32, owner: map<nat, Ownership.Role>, reserved: set<nat>)
    requires Inv(s, owner, reserved) && s.sched.current.Some? && Proper(s, Do(Send(buffer))) && Step(s, Do(Send(buffer))).Some?
    ensures Inv(Step(s, Do(Send(buffer))).value, owner, reserved)
  {
    hide Spaces.Inv, OwnContexts, ByPid, NodesOk, HeapOk, Sent, OwnBuffer, Undisturbed, Ownership.SameDirectory, Frames.Ledger, OwnBuffer;
    SendStep(s, buffer, owner, reserved);
  }

  lemma ReceiveIs(s: State, buffer: u32, who: u32, owner: map<nat, Ownership.Role>, reserved: set<nat>)
    requires Inv(s, owner, reserved) && s.sched.current.Some? && Proper(s, Do(Receive(buffer, who)))
    ensures var pid := Current(s).pid; var after := Step(s, Do(Receive(buffer, who)));
            && pid in s.mail && pid in s.nodes
            && var i := Messages.Find(s.mail[pid].queue, who);
            && i <= |s.mail[pid].queue| == |s.nodes[pid]|
            && Incoming(s, buffer, who) == (if buffer != 0 && i < |s.mail[pid].queue| then Some(i) else None)
            && (Incoming(s, buffer, who) == None ==> after == Some(s))
            && (Incoming(s, buffer, who).Some? ==>
                  && 0 < s.nodes[pid][i] < Heap.END && (exists j :: 0 <= j < |s.loaded.heap| && s.loaded.heap[j].Payload() == s.nodes[pid][i])
                  && Heap.EndOf(Heap.Free(s.loaded.heap, s.nodes[pid][i])) < WORD
                  && after ==
                     match Write(s.loaded.ram, s.loaded.m, Current(s).context, buffer, Messages.Encode(s.mail[pid].queue[i]))
                     case None => None
                     case Some(ram1) =>
                       Some(s.(loaded := s.loaded.(ram := ram1, heap := Heap.Free(s.loaded.heap, s.nodes[pid][i])),
                               mail := s.mail[pid := Messages.Step(s.mail[pid], Messages.Receive(who))],
                               nodes := s.nodes[pid := Messages.Without(s.nodes[pid], i)])))
            && (after.Some? ==> Inv(after.value, owner, reserved))
  {
    hide Spaces.Inv, OwnContexts, ByPid, Received, OwnBuffer, Undisturbed, Ownership.SameDirectory, Frames.Ledger, Heap.Holds, Heap.IsPayload,
      Heap.Free, Heap.EndOf, Write, Messages.Step, Messages.Encode, Messages.Without;
    CurrentHasBox(s, owner, reserved);
    ReceivedIs(s, buffer, who);
    if Received(s, buffer, who).Some? { ReceiveStep(s, buffer, who, owner, reserved); }
    if Incoming(s, buffer, who).Some? {
      var pid := Current(s).pid;
      NodeIsBlock(s.loaded.heap, s.nodes[pid][Incoming(s, buffer, who).value]);
    }
  }

  lemma CurrentHasBox(s: State, owner: map<nat, Ownership.Role>, reserved: set<nat>)
    requires Inv(s, owner, reserved) && s.sched.current.Some?
    ensures var pid := Current(s).pid; pid in s.mail && pid in s.nodes && |s.nodes[pid]| == |s.mail[pid].queue|
  {
    hide Spaces.Inv, OwnContexts, ByPid, HeapOk;
    CurrentIsLive(s, owner, reserved);
  }

  lemma ReceivedIs(s: State, buffer: u32, who: u32)
    requires Shape(s) && s.sched.current.Some?
    ensures Received(s, buffer, who) ==
            match Incoming(s, buffer, who)
            case None => Some(s)
            case Some(i) =>
              var pid := Current(s).pid;
              match Write(s.loaded.ram, s.loaded.m, Current(s).context, buffer, Messages.Encode(s.mail[pid].queue[i]))
              case None => None
              case Some(ram1) =>
                Some(s.(loaded := s.loaded.(ram := ram1, heap := Heap.Free(s.loaded.heap, s.nodes[pid][i])),
                        mail := s.mail[pid := Messages.Step(s.mail[pid], Messages.Receive(who))],
                        nodes := s.nodes[pid := Messages.Without(s.nodes[pid], i)]))
  {
    hide Heap.Free, Write, Messages.Step, Messages.Encode, Messages.Without;
  }

  lemma NodeIsBlock(h: seq<Heap.Block>, a: nat)
    requires Heap.Holds(h) && Heap.IsPayload(h, a)
    ensures 0 < a < Heap.END && (exists j :: 0 <= j < |h| && h[j].Payload() == a) && Heap.EndOf(Heap.Free(h, a)) < WORD
  {
    hide Heap.IsPayload, Heap.Free;
    Heap.PayloadIsInside(h, a);
    Heap.FreeHolds(h, a);
  }

  lemma TimerIs(s: State, cpu: nat, sched: Scheduling.Sched)
    requires Shape(s) && Scheduling.Step(s.sched, Scheduling.Tick(cpu)) == Some(sched)
    ensures Step(s, Kernel.Timer(cpu)) == Some(s.(sched := sched))
  {
    hide Scheduling.Step;
    SameListing(s.sched, Scheduling.Tick(cpu));
  }

  lemma SetTimerIs(s: State, cpu: nat, ms: u32, sched: Scheduling.Sched)
    requires Shape(s) && s.sched.current.Some? && Scheduling.Step(s.sched, Scheduling.Event.SetTimer(cpu, ms)) == Some(sched)
    ensures Step(s, Do(Call.SetTimer(cpu, ms))) == Some(s.(sched := sched))
  {
    hide Scheduling.Step;
    SameListing(s.sched, Scheduling.Event.SetTimer(cpu, ms));
  }

  lemma StoreIs(s: State, va: u32, b: byte)
    requires Shape(s) && s.sched.current.Some?
    ensures Step(s, Do(Store(va, b))) ==
            match Phys(s.loaded.m, Current(s).context, va)
            case None => Step(s, Do(Call.Exit))
            case Some(pa) => Some(s.(loaded := s.loaded.(ram := s.loaded.ram[pa := b])))
  {
    hide Phys, Killed;
  }

  // What the kernel finds when the current process exits.
  lemma ExitHas(s: State, owner: map<nat, Ownership.Role>, reserved: set<nat>)
    requires Inv(s, owner, reserved) && s.sched.current.Some? && Killed(s).Some?
    ensures var p := Current(s);
            && p.pid in s.blocks && s.blocks[p.pid].userStack.Some? && Scheduling.Step(s.sched, Scheduling.Event.Exit).Some?
            && var b := s.blocks[p.pid];
            && Heap.Holds(s.loaded.heap) && Heap.IsPayload(s.loaded.heap, b.stack)
            && Heap.IsPayload(s.loaded.heap, b.userStack.value) && Heap.IsPayload(s.loaded.heap, b.record)
  {
    hide Inv, Scheduling.Step, FreeBlocks, Killed, Heap.Holds, Heap.IsPayload, Paging.Destroy;
    ExitIs(s, owner, reserved);
  }

  lemma ExitIs(s: State, owner: map<nat, Ownership.Role>, reserved: set<nat>)
    requires Inv(s, owner, reserved) && s.sched.current.Some? && Killed(s).Some?
    ensures var p := Current(s); var s' := Killed(s).value;
            && Step(s, Do(Call.Exit)) == Some(s') && Proper(s, Do(Call.Exit))
            && p.pid in s.blocks && s.blocks[p.pid].userStack.Some?
            && Scheduling.Step(s.sched, Scheduling.Event.Exit) == Some(s'.sched)
            && Paging.Destroy(s.loaded.m, p.context, s.k) == Some(s'.loaded.m)
            && var b := s.blocks[p.pid];
            && Heap.Holds(s.loaded.heap) && Heap.IsPayload(s.loaded.heap, b.stack)
            && Heap.IsPayload(s.loaded.heap, b.userStack.value) && Heap.IsPayload(s.loaded.heap, b.record)
            && s' == s.(loaded := s.loaded.(m := s'.loaded.m, heap := FreeBlocks(s.loaded.heap, b.stack, b.userStack.value, b.record)),
                        breaks := s.breaks - {p.context}, sched := s'.sched,
                        mail := s.mail - {p.pid}, nodes := s.nodes - {p.pid}, blocks := s.blocks - {p.pid}, starts := s.starts - {p.pid})
  {
    hide Spaces.Inv, OwnContexts, ByPid, NodesOk, Scheduling.Step, FreeBlocks, Killed, Heap.Holds, Heap.IsPayload, Paging.Destroy;
    ExitParts(s);
  }

  // The current process runs in a live context.
  lemma CurrentContextLives(s: State, owner: map<nat, Ownership.Role>, reserved: set<nat>)
    requires Inv(s, owner, reserved) && s.sched.current.Some?
    ensures Current(s).context in SysOf(s).Live() && Active(s, Current(s).context)
  {
    hide Spaces.Inv, ByPid, NodesOk, HeapOk;
  }

  lemma NotNull(m: Mem, k: nat, live: set<nat>, owner: map<nat, Ownership.Role>, reserved: set<nat>)
    requires Ownership.Owned(m, k, live, owner, reserved)
    ensures CreateUser(m, k).Some? ==> CreateUser(m, k).value.1 != 0
  {
    hide Ownership.Owned;
    Vmm.CreateBasics(m, k, live, owner, reserved);
  }

  // The heap has room for the buffers of the loader.
  ghost predicate ProgramFits(s: State, addr: u32)
    requires Shape(s) && s.sched.current.Some?
  {
    match CreateUser(s.loaded.m, s.k)
    case None => true
    case Some((m1, c)) => HeapStaysShort(s.loaded.(m := m1), Current(s).context, c, addr)
  }

  lemma LaunchIs(s: State, addr: u32, owner: map<nat, Ownership.Role>, reserved: set<nat>)
    requires Inv(s, owner, reserved) && s.sched.current.Some? && s.sched.numProc + 1 < WORD && Proper(s, Do(Launch(addr)))
    ensures var after := Step(s, Do(Launch(addr)));
            ProgramFits(s, addr) &&
            match NewProgram(s, addr)
            case None => after == None
            case Some((l, c, entry)) =>
              && Heap.EndOf(l.heap) <= Heap.END && c !in s.breaks
              && var s1 := s.(loaded := l, breaks := s.breaks[c := 0]);
              if entry == 0 then after == Some(s1)
              else
                match Housed(l.heap, true)
                case None => after == None
                case Some((heap, b)) =>
                  && Scheduling.Created(s.sched, Registers(b), c).Some?
                  && var sched := Scheduling.Created(s.sched, Registers(b), c).value;
                  && sched.current.Some? && sched.procs[sched.current.value].context == Current(s).context
                  && after == Some(s1.(loaded := l.(heap := heap), sched := sched, mail := s.mail[s.sched.numProc := Messages.Mail([], [])],
                                    nodes := s.nodes[s.sched.numProc := []], blocks := s.blocks[s.sched.numProc := b],
                                    starts := s.starts[s.sched.numProc := UserStart(entry, b)]))
  {
    hide Spaces.Inv, OwnContexts, ByPid, NodesOk, HeapOk, NewProgram, Housed, Heap.EndOf, GoodImage, HouseFits, Ownership.SameDirectory, UserPage, KeepsByte, Count,
      AllApart, AllContent, SeenBy, CreateUser, Parse, HeapStaysShort, LoadAll, FindsImage, Elf.Entry;
    if CreateUser(s.loaded.m, s.k).Some? { var _ := ProgramIs(s, addr, owner, reserved); }
    if NewProgram(s, addr).Some? {
      var _ := ProgramStep(s, addr, owner, reserved);
      HeapEnds(NewProgram(s, addr).value.0.heap, s.nodes, s.blocks);
    }
  }

  // The three requests of House stay below 2^32.
  lemma ShortOfWord(h: seq<Heap.Block>)
    requires Heap.EndOf(h) <= Heap.END
    ensures Heap.EndOf(h) < WORD
    ensures Heap.Malloc(h, STACK_SIZE).Some? ==>
              var h1 := Heap.Malloc(h, STACK_SIZE).value.0;
              && Heap.EndOf(h1) < WORD
              && (Heap.Malloc(h1, STACK_SIZE).Some? ==>
                    var h2 := Heap.Malloc(h1, STACK_SIZE).value.0;
                    && Heap.EndOf(h2) < WORD
                    && (Heap.Malloc(h2, PROCESS_SIZE).Some? ==> Heap.EndOf(Heap.Malloc(h2, PROCESS_SIZE).value.0) < WORD))
  {
    hide Heap.Malloc, Heap.EndOf;
    if Heap.Malloc(h, STACK_SIZE).Some? {
      var h1 := Heap.Malloc(h, STACK_SIZE).value.0;
      Heap.EndMovesOn(h, STACK_SIZE);
      if Heap.Malloc(h1, STACK_SIZE).Some? {
        var h2 := Heap.Malloc(h1, STACK_SIZE).value.0;
        Heap.EndMovesOn(h1, STACK_SIZE);
        if Heap.Malloc(h2, PROCESS_SIZE).Some? { Heap.EndMovesOn(h2, PROCESS_SIZE); }
      }
    }
  }
}
