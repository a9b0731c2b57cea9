/**
 The kernel as one state machine: memory, processes and mail. A step is a timer interrupt, a
 system call of the current process (hal.x86/syscall.c: exit, send_message, receive_message,
 sbrk, set_timer, launch_elf_program) or a store that its user code makes.
 */
module Kernel {
  import opened Machine
  import opened Frames
  import opened Paging
  import opened Ownership
  import opened Translation
  import opened Boot
  import opened Access
  import opened Elf
  import opened Scheduling
  import Messages
  import Spaces = AddressSpaceRuns
  import Heap

  type Bytes = s: seq<byte> | |s| == WORD ghost witness ZeroBytes(WORD)

  // sizeof process_t, struct cpu and struct MESSAGE_NODE; the size of a stack
  const PROCESS_SIZE: nat := 52
  const CPU_SIZE: nat := 72
  const NODE_SIZE: nat := 540
  const STACK_SIZE: nat := 4096

  // The heap blocks of a process. A kernel process has no user stack.
  datatype Blocks = Blocks(stack: nat, userStack: Option<nat>, record: nat)

  // The registers that a process starts with. The general ones are 0; ss, es, fs and gs are as
  // ds.
  datatype Cpu = Cpu(eip: nat, esp: nat, cs: nat, ds: nat, eflags: nat)

  // The memory and the kernel heap; the kernel context; the sbrk_state of each live context;
  // the processes; by pid, the mail of each process, the heap blocks of the messages in its
  // queue, its own blocks and the registers it starts with. What the kernel keeps in its blocks
  // is in these fields, not in the bytes of memory.
  datatype State = State(loaded: Loaded, k: nat, breaks: map<nat, nat>, sched: Sched, mail: map<nat, Messages.Mail>,
                         nodes: map<nat, seq<nat>>, blocks: map<nat, Blocks>, starts: map<nat, Cpu>)

  // The calls of the current process.
  datatype Call =
    | Exit                               // system call 2; also what a fault in user mode does (idt.c:237)
    | Send(buffer: u32)                  // system call 3, with the address of a message_t
    | Receive(buffer: u32, who: u32)     // system call 4
    | Sbrk(request: u32)                 // system call 5
    | SetTimer(cpu: nat, ms: u32)        // system call 8
    | Launch(addr: u32)                  // system call 9, with the address of an image
    | Store(va: u32, b: byte)            // a store in user mode

  datatype Action = Timer(cpu: nat) | Do(call: Call)

  predicate Shape(s: State) {
    |s.loaded.ram| == WORD && s.sched.Valid() && s.sched.numProc < WORD
  }

  function SysOf(s: State): Spaces.Sys {
    Spaces.Sys(s.loaded.m, s.k, s.breaks)
  }

  function Current(s: State): Proc
    requires s.sched.Valid() && s.sched.current.Some?
  {
    s.sched.procs[s.sched.current.value]
  }

  function WithSched(s: State, sched: Option<Sched>): (r: Option<State>)
    requires Shape(s) && (sched.Some? ==> sched.value.Valid() && sched.value.numProc < WORD)
    ensures r.Some? ==> Shape(r.value)
  {
    match sched
    case None => None
    case Some(x) => Some(s.(sched := x))
  }

  // ----- exit

  // kfree of the three blocks of a process.
  function FreeBlocks(heap: seq<Heap.Block>, stack: nat, userStack: nat, record: nat): seq<Heap.Block> {
    Heap.Free(Heap.Free(Heap.Free(heap, stack), userStack), record)
  }

  // KillCurrentProcess: the process leaves the list, its context is destroyed and its blocks
  // are freed; its messages stay. For a kernel process kfree would get a user_stack that was
  // never set (multitasking.c:230), and nothing is said.
  function Killed(s: State): (r: Option<State>)
    requires Shape(s) && s.sched.current.Some?
    ensures r.Some? ==> Shape(r.value)
  {
    var p := Current(s);
    if p.pid !in s.blocks || s.blocks[p.pid].userStack == None then None
    else
      match Scheduling.Step(s.sched, Scheduling.Event.Exit)
      case None => None
      case Some(sched) =>
        match Paging.Destroy(s.loaded.m, p.context, s.k)
        case None => None
        case Some(m) =>
          var b := s.blocks[p.pid];
          Some(s.(loaded := s.loaded.(m := m, heap := FreeBlocks(s.loaded.heap, b.stack, b.userStack.value, b.record)),
                  breaks := s.breaks - {p.context}, sched := sched,
                  mail := s.mail - {p.pid}, nodes := s.nodes - {p.pid}, blocks := s.blocks - {p.pid}, starts := s.starts - {p.pid}))
  }

  // ----- messages

  // What send_message does to the caller's memory: the receiver is read from the message; if
  // there is such a process both pids are written into it, and all of it is read. The outer
  // None is a page fault in the kernel.
  function Outgoing(s: State, buffer: u32): (r: Option<Option<(u32, seq<byte>, Messages.Message)>>)
    requires Shape(s) && s.sched.current.Some?
    ensures r.Some? && r.value.Some? ==> var (to, ram1, _) := r.value.value; |ram1| == WORD && to in s.mail && to in s.nodes
  {
    var m, c := s.loaded.m, Current(s).context;
    match ReadBytes(m, s.loaded.ram, c, Wrap(buffer + 4), 4)
    case None => None
    case Some(word) =>
      var to := Word32(word, 0);
      if buffer == 0 || to !in s.mail || to !in s.nodes then Some(None)
      else
        match Write(s.loaded.ram, m, c, buffer, Bytes32(Current(s).pid) + Bytes32(to))
        case None => None
        case Some(ram1) =>
          match ReadBytes(m, ram1, c, buffer, Messages.LENGTH)
          case None => None
          case Some(bytes) => Some(Some((to, ram1, Messages.Decode(bytes))))
  }

  function Sent(s: State, buffer: u32): (r: Option<State>)
    requires Shape(s) && s.sched.current.Some?
    ensures r.Some? ==> Shape(r.value)
  {
    match Outgoing(s, buffer)
    case None => None
    case Some(None) => Some(s)
    case Some(Some((to, ram1, message))) =>
      match Heap.Malloc(s.loaded.heap, NODE_SIZE)
      case None => None
      case Some((heap1, node)) =>
        Some(s.(loaded := s.loaded.(ram := ram1, heap := heap1),
                mail := s.mail[to := Messages.Step(s.mail[to], Messages.Send(message))], nodes := s.nodes[to := s.nodes[to] + [node]]))
  }

  // Which message of the caller's queue a receive takes, if any.
  function Incoming(s: State, buffer: u32, who: u32): (r: Option<nat>)
    requires Shape(s) && s.sched.current.Some?
    ensures r.Some? ==> var pid := Current(s).pid; pid in s.mail && r.value < |s.mail[pid].queue|
  {
    var pid := Current(s).pid;
    if buffer == 0 || pid !in s.mail || pid !in s.nodes then None
    else
      var i := Messages.Find(s.mail[pid].queue, who);
      if i < |s.mail[pid].queue| && i < |s.nodes[pid]| then Some(i) else None
  }

  // The message is copied to the caller and its node is freed.
  function Received(s: State, buffer: u32, who: u32): (r: Option<State>)
    requires Shape(s) && s.sched.current.Some?
    ensures r.Some? ==> Shape(r.value)
  {
    match Incoming(s, buffer, who)
    case None => Some(s)
    case Some(i) =>
      var pid := Current(s).pid;
      match Write(s.loaded.ram, s.loaded.m, Current(s).context, buffer, Messages.Encode(s.mail[pid].queue[i]))
      case None => None
      case Some(ram1) =>
        Some(s.(loaded := s.loaded.(ram := ram1, heap := Heap.Free(s.loaded.heap, s.nodes[pid][i])),
                mail := s.mail[pid := Messages.Step(s.mail[pid], Messages.Receive(who))],
                nodes := s.nodes[pid := Messages.Without(s.nodes[pid], i)]))
  }

  // ----- launching a program

  // A new context with the segments of the image in it, and the entry address, or 0 if there
  // is no image: then the context is empty and is left behind.
  function NewProgram(s: State, addr: u32): (r: Option<(Loaded, nat, nat)>)
    requires Shape(s) && s.sched.current.Some?
    ensures r.Some? ==> |r.value.0.ram| == WORD
  {
    match CreateUser(s.loaded.m, s.k)
    case None => None
    case Some((m1, c)) =>
      match Parse(s.loaded.(m := m1), Current(s).context, c, addr)
      case None => None
      case Some((l, entry)) => Some((l, c, entry))
  }

  // CreateUserProcess and CreateKernelProcess: the blocks of a process.
  function Housed(heap: seq<Heap.Block>, user: bool): Option<(seq<Heap.Block>, Blocks)> {
    match Heap.Malloc(heap, STACK_SIZE)
    case None => None
    case Some((h1, stack)) =>
      if user then
        match Heap.Malloc(h1, STACK_SIZE)
        case None => None
        case Some((h2, userStack)) => WithRecord(h2, stack, Some(userStack))
      else WithRecord(h1, stack, None)
  }

  function WithRecord(heap: seq<Heap.Block>, stack: nat, userStack: Option<nat>): Option<(seq<Heap.Block>, Blocks)> {
    match Heap.Malloc(heap, PROCESS_SIZE)
    case None => None
    case Some((h, record)) => Some((h, Blocks(stack, userStack, record)))
  }

  // launch_elf_program. The registers of the new process lie at the end of its stack.
  function Launched(s: State, addr: u32): (r: Option<State>)
    requires Shape(s) && s.sched.current.Some?
    ensures r.Some? ==> Shape(r.value)
  {
    match NewProgram(s, addr)
    case None => None
    case Some((l, c, entry)) =>
      var s1 := s.(loaded := l, breaks := s.breaks[c := 0]);
      if entry == 0 then Some(s1)
      else
        match Housed(l.heap, true)
        case None => None
        case Some((heap, b)) => Hosted(s1, heap, b, c, entry)
  }

  function Registers(b: Blocks): nat {
    b.stack + STACK_SIZE - CPU_SIZE
  }

  function KernelStart(entry: nat, b: Blocks): Cpu {
    Cpu(entry, b.stack + STACK_SIZE, 0x08, 0x10, 0x202)
  }

  function UserStart(entry: nat, b: Blocks): Cpu {
    Cpu(entry, if b.userStack.Some? then b.userStack.value + STACK_SIZE else 0, 0x1B, 0x23, 0x202)
  }

  function Hosted(s: State, heap: seq<Heap.Block>, b: Blocks, c: nat, entry: nat): (r: Option<State>)
    requires Shape(s)
    ensures r.Some? ==> Shape(r.value)
  {
    var pid := s.sched.numProc;
    match Created(s.sched, Registers(b), c)
    case None => None
    case Some(sched) =>
      Some(s.(loaded := s.loaded.(heap := heap), sched := sched,
              mail := s.mail[pid := Messages.Mail([], [])], nodes := s.nodes[pid := []], blocks := s.blocks[pid := b],
              starts := s.starts[pid := UserStart(entry, b)]))
  }

  // ----- steps

  function Called(s: State, call: Call): (r: Option<State>)
    requires Shape(s) && s.sched.current.Some?
    ensures r.Some? ==> Shape(r.value)
  {
    match call
    case Exit => Killed(s)
    case Send(buffer) => Sent(s, buffer)
    case Receive(buffer, who) => Received(s, buffer, who)
    case Sbrk(request) => (
      match Spaces.Step(SysOf(s), Spaces.Sbrk(Current(s).context, request))
      case None => None
      case Some(y) => Some(s.(loaded := s.loaded.(m := y.m), breaks := y.breaks)))
    case SetTimer(cpu, ms) => WithSched(s, Scheduling.Step(s.sched, Scheduling.Event.SetTimer(cpu, ms)))
    case Launch(addr) => Launched(s, addr)
    case Store(va, b) =>
      match Phys(s.loaded.m, Current(s).context, va)
      case None => Killed(s)
      case Some(pa) => Some(s.(loaded := s.loaded.(ram := s.loaded.ram[pa := b])))
  }

  // None: the kernel halted, or there is no current process to make the call.
  function Step(s: State, e: Action): (r: Option<State>)
    requires Shape(s)
    ensures r.Some? ==> Shape(r.value)
  {
    match e
    case Timer(cpu) => WithSched(s, Scheduling.Step(s.sched, Tick(cpu)))
    case Do(call) => if s.sched.current == None then None else Called(s, call)
  }

  function Run(s: State, actions: seq<Action>): (r: Option<State>)
    requires Shape(s)
    ensures r.Some? ==> Shape(r.value)
  {
    if actions == [] then Some(s)
    else
      match Run(s, actions[..|actions| - 1])
      case None => None
      case Some(s1) => Step(s1, actions[|actions| - 1])
  }

  // ----- boot

  // The contexts of the first three processes.
  function ThreeContexts(m: Mem, k: nat): Option<(Mem, nat, nat, nat)> {
    match CreateUser(m, k)
    case None => None
    case Some((m1, c0)) =>
      match CreateUser(m1, k)
      case None => None
      case Some((m2, c1)) =>
        match CreateUser(m2, k)
        case None => None
        case Some((m3, c2)) => Some((m3, c0, c1, c2))
  }

  // Their blocks.
  function ThreeHoused(heap: seq<Heap.Block>): Option<(seq<Heap.Block>, Blocks, Blocks, Blocks)> {
    match Housed(heap, false)
    case None => None
    case Some((h0, b0)) =>
      match Housed(h0, false)
      case None => None
      case Some((h1, b1)) =>
        match Housed(h1, false)
        case None => None
        case Some((h2, b2)) => Some((h2, b0, b1, b2))
  }

  // The kernel, idle and RAM-disk processes, each with a context of its own.
  function Started(m: Mem, k: nat, c: (nat, nat, nat), ram: Bytes, heap: seq<Heap.Block>, b: (Blocks, Blocks, Blocks), ticks: u32, entries: (u32, u32, u32)): (s: State)
    ensures Shape(s)
  {
    var empty := Messages.Mail([], []);
    State(Loaded(m, ram, heap), k, map[c.0 := 0][c.1 := 0][c.2 := 0],
          Scheduling.Boot(Registers(b.0), Registers(b.1), Registers(b.2), c, ticks),
          map[0 := empty][1 := empty][2 := empty], map[0 := []][1 := []][2 := []], map[0 := b.0][1 := b.1][2 := b.2],
          map[0 := KernelStart(entries.0, b.0)][1 := KernelStart(entries.1, b.1)][2 := KernelStart(entries.2, b.2)])
  }

  // After InitVmm and InitMultitasking. The contents of memory, the heap and the addresses of
  // the three functions are given.
  function Booted(m: Mem, ram: Bytes, heap: seq<Heap.Block>, ticks: u32, entries: (u32, u32, u32)): (r: Option<State>)
    ensures r.Some? ==> Shape(r.value)
  {
    match InitVmm(m)
    case None => None
    case Some((m0, k)) =>
      match ThreeContexts(m0, k)
      case None => None
      case Some((m3, c0, c1, c2)) =>
        match ThreeHoused(heap)
        case None => None
        case Some((h, b0, b1, b2)) => Some(Started(m3, k, (c0, c1, c2), ram, h, (b0, b1, b2), ticks, entries))
  }
}
