/**
 The runs of the kernel are runs of the address-space operations, so that what is proved of
 those holds of them: where every frame is, whatever is launched, grown and ended in between.
 */
module FrameRuns {
  import opened Machine
  import opened Frames
  import opened Paging
  import opened Ownership
  import opened Translation
  import opened Boot
  import opened Access
  import opened Elf
  import opened Images
  import Scheduling
  import Spaces = AddressSpaceRuns
  import opened Conservation
  import opened Kernel
  import opened KernelRuns
  import Heap

  // ----- the operations of a step

  // Loading the first n segments into c.
  function SegmentOps(c: nat, image: seq<byte>, addr: nat, n: nat): seq<Spaces.Op>
    requires |image| == WORD
  {
    if n == 0 then []
    else
      var p := ProgramAt(image, addr, n - 1);
      SegmentOps(c, image, addr, n - 1) + if Loadable(p, addr) then [Spaces.Alloc(c, p.vaddr, p.msize)] else []
  }

  ghost function SpaceOps(s: State, e: Action): seq<Spaces.Op>
    requires Shape(s)
  {
    if e.Timer? || s.sched.current == None then []
    else
      var c := Current(s).context;
      match e.call
      case Exit => [Spaces.Destroy(c)]
      case Sbrk(request) => [Spaces.Sbrk(c, request)]
      case Launch(addr) => (
        match CreateUser(s.loaded.m, s.k)
        case None => []
        case Some((_, new_)) =>
          [Spaces.Create] + if FindsImage(s, addr) then SegmentOps(new_, SeenBy(s), addr, Count(SeenBy(s), addr)) else [])
      case Store(va, _) => if Phys(s.loaded.m, c, va) == None then [Spaces.Destroy(c)] else []
      case _ => []
  }

  ghost function SpaceOpsOf(s: State, actions: seq<Action>): seq<Spaces.Op>
    requires Shape(s)
  {
    if actions == [] then []
    else
      var init := actions[..|actions| - 1];
      match Run(s, init)
      case None => []
      case Some(s1) => SpaceOpsOf(s, init) + SpaceOps(s1, actions[|actions| - 1])
  }

  // ----- runs one after the other

  // A run of these operations leads from y to z and stays on user pages.
  ghost predicate Leads(y: Spaces.Sys, ops: seq<Spaces.Op>, z: Spaces.Sys) {
    Spaces.Run(y, ops) == Some(z) && Spaces.AllOnUserPages(y, ops)
  }

  lemma LeadsNowhere(y: Spaces.Sys)
    ensures Leads(y, [], y)
  {
  }

  lemma LeadsOneMore(y: Spaces.Sys, ops: seq<Spaces.Op>, z: Spaces.Sys, op: Spaces.Op)
    requires Leads(y, ops, z) && Spaces.OnUserPages(z, op) && Spaces.Step(z, op).Some?
    ensures Leads(y, ops + [op], Spaces.Step(z, op).value)
  {
    hide Spaces.OnUserPages, Spaces.Step;
    var all := ops + [op];
    assert all[..|all| - 1] == ops;
    forall n | 0 <= n < |all| ensures Spaces.Run(y, all[..n]).Some? && Spaces.OnUserPages(Spaces.Run(y, all[..n]).value, all[n]) {
      if n < |ops| { assert all[..n] == ops[..n]; } else { assert all[..n] == ops; }
    }
  }

  lemma {:induction false} LeadsOn(y: Spaces.Sys, a: seq<Spaces.Op>, z: Spaces.Sys, b: seq<Spaces.Op>, w: Spaces.Sys)
    requires Leads(y, a, z) && Leads(z, b, w)
    ensures Leads(y, a + b, w)
  {
    hide Spaces.OnUserPages, Spaces.Step;
    if b == [] {
      assert a + b == a;
    } else {
      var init, op := b[..|b| - 1], b[|b| - 1];
      LeadsLess(z, b);
      LeadsOn(y, a, z, init, Spaces.Run(z, init).value);
      LeadsOneMore(y, a + init, Spaces.Run(z, init).value, op);
      assert a + init + [op] == a + b;
    }
  }

  lemma LeadsLess(y: Spaces.Sys, ops: seq<Spaces.Op>)
    requires ops != [] && Spaces.Run(y, ops).Some? && Spaces.AllOnUserPages(y, ops)
    ensures var init, op := ops[..|ops| - 1], ops[|ops| - 1];
            Spaces.Run(y, init).Some? && Leads(y, init, Spaces.Run(y, init).value)
            && Spaces.OnUserPages(Spaces.Run(y, init).value, op) && Spaces.Step(Spaces.Run(y, init).value, op) == Spaces.Run(y, ops)
  {
    hide Spaces.OnUserPages, Spaces.Step, Spaces.AllOnUserPages;
    Spaces.FewerOnUserPages(y, ops);
  }

  lemma LeadsByOne(y: Spaces.Sys, op: Spaces.Op)
    requires Spaces.OnUserPages(y, op) && Spaces.Step(y, op).Some?
    ensures Leads(y, [op], Spaces.Step(y, op).value)
  {
    hide Spaces.OnUserPages, Spaces.Step, Leads;
    LeadsNowhere(y);
    LeadsOneMore(y, [], y, op);
    assert [] + [op] == [op];
  }

  // ----- every step of the kernel

  // Loading an image is allocating its segments, as far as the tables go.
  lemma {:induction false} LoadLeads(y: Spaces.Sys, l: Loaded, owner: map<nat, Role>, reserved: set<nat>, active: nat, c: nat, image: seq<byte>, addr: nat, n: nat)
    requires |l.ram| == |image| == WORD && y.m == l.m && Spaces.Inv(y, owner, reserved) && c in y.breaks && active in y.breaks
    requires AllFit(l.m, y.k, image, addr, n) && BuffersFit(l, active, c, image, addr, n) && LoadAll(l, active, c, image, addr, n).Some?
    ensures Leads(y, SegmentOps(c, image, addr, n), y.(m := LoadAll(l, active, c, image, addr, n).value.m))
  {
    hide Spaces.Laid, LoadOne, ProgramAt, Leads, AllFit, BuffersFit, VmmAlloc, KeepsOtherContexts, AllContent, AllApart, SameDirectory, Frames.Ledger,
      Fits, UserPage;
    if n == 0 {
      LeadsNowhere(y);
    } else {
      var l1, p := LoadAll(l, active, c, image, addr, n - 1).value, ProgramAt(image, addr, n - 1);
      FewerFit(l, y.k, active, c, image, addr, n);
      LoadLeads(y, l, owner, reserved, active, c, image, addr, n - 1);
      if Loadable(p, addr) {
        var _ := LoadAllStep(l, y.k, y.Live(), owner, reserved, active, c, image, addr, n - 1);
        LoadParts(l1, active, c, image, addr, p);
        FitsAt(l.m, l, y.k, active, c, image, addr, n, n - 1);
        FitsAfter(l.m, l1.m, y.k, p);
        PagesOfSegment(l1.m, y.k, p);
        LeadsOneMore(y, SegmentOps(c, image, addr, n - 1), y.(m := l1.m), Spaces.Alloc(c, p.vaddr, p.msize));
      } else {
        Skipped(l1, active, c, image, addr, p);
        assert SegmentOps(c, image, addr, n) == SegmentOps(c, image, addr, n - 1);
      }
    }
  }

  lemma LaunchLeads(s: State, addr: u32, owner: map<nat, Role>, reserved: set<nat>)
    requires Inv(s, owner, reserved) && s.sched.current.Some? && GoodImage(s, addr) && Launched(s, addr).Some?
    ensures Leads(SysOf(s), SpaceOps(s, Do(Launch(addr))), SysOf(Launched(s, addr).value))
  {
    hide Inv, Spaces.Inv, CreateUser, GoodImage, Launched, Parse, LoadAll, FindsImage, SeenBy, Count, Entry, Housed, Hosted, Leads,
      AllFit, BuffersFit, StaysInHeap, SegmentOps, HeapStaysShort, SameDirectory, Frames.Ledger, Heap.Holds, ShownImage, Staged, HouseFits;
    InvShape(s, owner, reserved);
    LaunchParts(s, addr);
    var y, a, image := SysOf(s), Current(s).context, SeenBy(s);
    var (m1, c) := CreateUser(s.loaded.m, s.k).value;
    var l1, y1 := s.loaded.(m := m1), Spaces.Sys(m1, s.k, s.breaks[c := 0]);
    CurrentIsLive(s, owner, reserved);
    var owner1 := ProgramIs(s, addr, owner, reserved);
    CreateIs(y);
    LeadsByOne(y, Spaces.Create);
    var (l, _, entry) := NewProgram(s, addr).value;
    if FindsImage(s, addr) {
      var n := Count(image, addr);
      GoodImageHas(s, addr);
      FitsStays(s.loaded.m, m1, s.k, image, addr, n);
      HeapOf(s, owner, reserved);
      BuffersStayInHeap(l1, a, c, image, addr, n);
      LoadLeads(y1, l1, owner1, reserved, a, c, image, addr, n);
      LeadsOn(y, [Spaces.Create], y1, SegmentOps(c, image, addr, n), y1.(m := l.m));
    } else {
      assert [Spaces.Create] + [] == [Spaces.Create];
    }
    if entry != 0 {
      var (heap, b) := Housed(l.heap, true).value;
      HostedParts(s.(loaded := l, breaks := s.breaks[c := 0]), heap, b, c, entry);
    }
  }

  lemma HeapOf(s: State, owner: map<nat, Role>, reserved: set<nat>)
    requires Inv(s, owner, reserved)
    ensures Heap.Holds(s.loaded.heap)
  {
    hide Spaces.Inv;
  }

  lemma ExitLeads(s: State, owner: map<nat, Role>, reserved: set<nat>)
    requires Inv(s, owner, reserved) && s.sched.current.Some? && Killed(s).Some?
    ensures Leads(SysOf(s), [Spaces.Destroy(Current(s).context)], SysOf(Killed(s).value))
  {
    hide Spaces.Inv, Killed, Leads, Paging.Destroy, OwnContexts, ByPid, NodesOk, HeapOk, Scheduling.Step, FreeBlocks;
    ExitParts(s);
    CurrentIsLive(s, owner, reserved);
    DestroyIs(SysOf(s), Current(s).context, Killed(s).value.loaded.m);
    LeadsByOne(SysOf(s), Spaces.Destroy(Current(s).context));
  }

  // Each proper step of the kernel is a run of such operations.
  lemma StepLeads(s: State, e: Action, owner: map<nat, Role>, reserved: set<nat>)
    requires Inv(s, owner, reserved) && Proper(s, e) && Step(s, e).Some?
    ensures Leads(SysOf(s), SpaceOps(s, e), SysOf(Step(s, e).value))
  {
    hide Inv, Leads, Scheduling.Step, Launched, Killed, Sent, Received, GoodImage, Phys, Own, OwnBuffer, Spaces.Step, Spaces.OnUserPages, CreateUser,
      Outgoing, Incoming;
    InvShape(s, owner, reserved);
    LeadsNowhere(SysOf(s));
    match e
    case Timer(cpu) =>
    case Do(call) =>
      match call
      case Exit => ExitLeads(s, owner, reserved);
      case Send(buffer) => SendParts(s, buffer);
      case Receive(buffer, who) => ReceiveParts(s, buffer, who);
      case Sbrk(request) => SbrkLeads(s, request);
      case SetTimer(cpu, ms) =>
      case Launch(addr) => LaunchLeads(s, addr, owner, reserved);
      case Store(va, b) => if Phys(s.loaded.m, Current(s).context, va) == None { ExitLeads(s, owner, reserved); }
  }

  lemma SbrkLeads(s: State, request: u32)
    requires Shape(s) && s.sched.current.Some? && Step(s, Do(Call.Sbrk(request))).Some?
    requires Spaces.OnUserPages(SysOf(s), Spaces.Sbrk(Current(s).context, request))
    ensures Leads(SysOf(s), [Spaces.Sbrk(Current(s).context, request)], SysOf(Step(s, Do(Call.Sbrk(request))).value))
  {
    hide Leads, Spaces.OnUserPages, Spaces.Step;
    var y := SysOf(s);
    SbrkKeepsKernel(y, Current(s).context, request);
    LeadsByOne(y, Spaces.Sbrk(Current(s).context, request));
  }

  lemma SbrkKeepsKernel(y: Spaces.Sys, c: nat, request: u32)
    requires Spaces.Step(y, Spaces.Sbrk(c, request)).Some?
    ensures Spaces.Step(y, Spaces.Sbrk(c, request)).value.k == y.k
  {
  }

  // ----- every run

  lemma {:induction false} RunLeads(s: State, actions: seq<Action>, owner: map<nat, Role>, reserved: set<nat>)
    requires Inv(s, owner, reserved) && ProperRun(s, actions) && Run(s, actions).Some?
    ensures Leads(SysOf(s), SpaceOpsOf(s, actions), SysOf(Run(s, actions).value))
  {
    hide Inv, Leads, Step, Proper, ProperRun, SpaceOps, SameDirectory, Frames.Ledger;
    InvShape(s, owner, reserved);
    if actions == [] {
      LeadsNowhere(SysOf(s));
    } else {
      FewerProper(s, actions);
      var init, e := actions[..|actions| - 1], actions[|actions| - 1];
      RunLeads(s, init, owner, reserved);
      var s1 := Run(s, init).value;
      var owner1 := RunKeeps(s, init, owner, reserved);
      StepLeads(s1, e, owner1, reserved);
      LeadsOn(SysOf(s), SpaceOpsOf(s, init), SysOf(s1), SpaceOps(s1, e), SysOf(Run(s, actions).value));
    }
  }

  // From boot, the first three contexts included.
  ghost function OpsFromBoot(m: Mem, ram: Bytes, heap: seq<Heap.Block>, ticks: u32, entries: (u32, u32, u32), actions: seq<Action>): seq<Spaces.Op> {
    match Booted(m, ram, heap, ticks, entries)
    case None => []
    case Some(s) => [Spaces.Create] + [Spaces.Create] + [Spaces.Create] + SpaceOpsOf(s, actions)
  }

  lemma BootLeads(m: Mem, ram: Bytes, heap: seq<Heap.Block>, ticks: u32, entries: (u32, u32, u32))
    requires Booted(m, ram, heap, ticks, entries).Some?
    ensures InitVmm(m).Some?
    ensures var (m0, k) := InitVmm(m).value;
            Leads(Spaces.Sys(m0, k, map[]), [Spaces.Create] + [Spaces.Create] + [Spaces.Create], SysOf(Booted(m, ram, heap, ticks, entries).value))
  {
    hide InitVmm, CreateUser, Leads, ThreeHoused;
    var (m0, k) := InitVmm(m).value;
    var y0 := Spaces.Sys(m0, k, map[]);
    var (m1, c0) := CreateUser(m0, k).value;
    var y1 := Spaces.Sys(m1, k, map[c0 := 0]);
    var (m2, c1) := CreateUser(m1, k).value;
    var y2 := Spaces.Sys(m2, k, map[c0 := 0][c1 := 0]);
    CreateIs(y0);
    LeadsByOne(y0, Spaces.Create);
    CreateIs(y1);
    LeadsOneMore(y0, [Spaces.Create], y1, Spaces.Create);
    CreateIs(y2);
    LeadsOneMore(y0, [Spaces.Create] + [Spaces.Create], y2, Spaces.Create);
  }

  // On every run of the kernel: a frame is used exactly if boot had marked it, a live context
  // has it, or a later allocation of the same page replaced it; and only one of the three. So
  // whatever was launched, grown and ended in between has given everything else back.
  lemma KernelFramesOnEveryRun(m: Mem, ram: Bytes, heap: seq<Heap.Block>, ticks: u32, entries: (u32, u32, u32), actions: seq<Action>)
    requires WellFormed(m) && Heap.Holds(heap) && Booted(m, ram, heap, ticks, entries).Some? && EndsInHeap(Booted(m, ram, heap, ticks, entries))
    requires var s := Booted(m, ram, heap, ticks, entries).value; ProperRun(s, actions) && Run(s, actions).Some?
    ensures InitVmm(m).Some?
    ensures var s', (m0, k) := Run(Booted(m, ram, heap, ticks, entries).value, actions).value, InitVmm(m).value;
            var lost := LostOn(Spaces.Sys(m0, k, map[]), OpsFromBoot(m, ram, heap, ticks, entries, actions));
            && (forall f :: f in s'.loaded.m.frames.used <==> f in m.frames.used || InUse(SysOf(s'), f) || f in lost)
            && (forall f :: InUse(SysOf(s'), f) ==> f !in m.frames.used && f !in lost) && m.frames.used !! lost
  {
    hide Inv, Booted, Run, ProperRun, InitVmm, WellFormed, SpaceOpsOf, InUse, LostOn, Spaces.AllOnUserPages, Spaces.Run, Heap.Holds, EndsInHeap;
    BootLeads(m, ram, heap, ticks, entries);
    var (m0, k) := InitVmm(m).value;
    var s := Booted(m, ram, heap, ticks, entries).value;
    var owner := BootedInv(m, ram, heap, ticks, entries);
    RunLeads(s, actions, owner, m.frames.used);
    LeadsOn(Spaces.Sys(m0, k, map[]), [Spaces.Create] + [Spaces.Create] + [Spaces.Create], SysOf(s), SpaceOpsOf(s, actions), SysOf(Run(s, actions).value));
    FramesOnEveryRun(m, OpsFromBoot(m, ram, heap, ticks, entries, actions));
  }
}
