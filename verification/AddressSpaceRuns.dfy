/**
 Whole runs of the address-space operations: creating and destroying user contexts,
 vmm_alloc at any address and the sbrk system call, in any order and for any contexts
 (hal.x86/vmm.c:16-152, hal.x86/syscall.c:45-62).
 */
module AddressSpaceRuns {
  import opened Machine
  import opened Frames
  import opened Paging
  import opened Ownership
  import opened Translation
  import opened Boot
  import Pmm

  // The memory, the kernel context and, for each live user context, its sbrk_state.
  datatype Sys = Sys(m: Mem, k: nat, breaks: map<nat, nat>) {
    function Live(): set<nat> {
      breaks.Keys + {k}
    }
  }

  datatype Op =
    | Create
    | Alloc(c: nat, vaddr: u32, sz: u32)
    | Sbrk(c: nat, request: u32)
    | Destroy(c: nat)

  // The break of a context as an address, and what an sbrk call returns.
  function BreakAddress(s: Sys, c: nat): nat
    requires c in s.breaks
  {
    Wrap(USER_START * PAGE + s.breaks[c])
  }

  // One operation; None means that the kernel halted on a failed assertion. An operation
  // on a context that is not live is no call at all. sbrk of 0 fails and changes nothing.
  function Step(s: Sys, op: Op): Option<Sys> {
    match op
    case Create => (
      match CreateUser(s.m, s.k)
      case None => None
      case Some((m', c)) => Some(s.(m := m', breaks := s.breaks[c := 0])))
    case Alloc(c, vaddr, sz) =>
      if c !in s.breaks then Some(s) else WithMem(s, VmmAlloc(s.m, c, vaddr, sz))
    case Sbrk(c, request) =>
      if c !in s.breaks || request == 0 then Some(s)
      else WithMem(s.(breaks := s.breaks[c := Wrap(s.breaks[c] + request)]), VmmAlloc(s.m, c, BreakAddress(s, c), request))
    case Destroy(c) =>
      if c !in s.breaks then Some(s) else WithMem(s.(breaks := s.breaks - {c}), Paging.Destroy(s.m, c, s.k))
  }

  function WithMem(s: Sys, m: Option<Mem>): Option<Sys> {
    match m
    case None => None
    case Some(m') => Some(s.(m := m'))
  }

  function Run(s: Sys, ops: seq<Op>): Option<Sys> {
    if ops == [] then Some(s)
    else
      match Run(s, ops[..|ops| - 1])
      case None => None
      case Some(s1) => Step(s1, ops[|ops| - 1])
  }

  // A memory as boot leaves it and every operation on user pages keeps it: each frame has its
  // owner and every context sees the kernel's memory in the kernel's slots, nothing else.
  ghost predicate Laid(m: Mem, k: nat, live: set<nat>, owner: map<nat, Role>, reserved: set<nat>) {
    Owned(m, k, live, owner, reserved) && NoUserSlots(m, k) && KernelIdentity(m, k, live)
  }

  ghost predicate Inv(s: Sys, owner: map<nat, Role>, reserved: set<nat>) {
    Laid(s.m, s.k, s.Live(), owner, reserved) && s.k !in s.breaks
  }

  // The request covers user pages only, or wraps around and covers nothing.
  ghost predicate CoversUserPages(m: Mem, k: nat, vaddr: u32, sz: u32) {
    vaddr + sz < WORD ==> forall p :: vaddr / PAGE <= p < vaddr / PAGE + PagesOf(sz) ==> UserPage(m, k, p)
  }

  // Nothing keeps a request off the kernel's pages (syscall.c:53-55). Where it covers one the
  // kernel goes on to read its tables through another frame, and nothing more is said.
  ghost predicate OnUserPages(s: Sys, op: Op) {
    match op
    case Alloc(_, vaddr, sz) => CoversUserPages(s.m, s.k, vaddr, sz)
    case Sbrk(c, request) => c in s.breaks ==> CoversUserPages(s.m, s.k, BreakAddress(s, c), request)
    case _ => true
  }

  // ----- one step

  // Every live context still reads the same user pages, unless the step was its own.
  ghost predicate OthersSame(s: Sys, s': Sys, op: Op) {
    forall a, p :: a in s.Live() && a in s'.Live() && UserPage(s.m, s.k, p) && !((op.Alloc? || op.Sbrk?) && op.c == a)
      ==> Walk(s'.m, a, p) == Walk(s.m, a, p)
  }

  lemma CreateStep(s: Sys, owner: map<nat, Role>, reserved: set<nat>) returns (owner': map<nat, Role>)
    requires Inv(s, owner, reserved) && Step(s, Create).Some?
    ensures var s' := Step(s, Create).value;
            Inv(s', owner', reserved) && s'.m.frames.Ledger() == s.m.frames.Ledger() && SameDirectory(s.m, s'.m, s.k) && OthersSame(s, s', Create)
  {
    hide Laid, CreateUser, SameDirectory, WithContext, Walk, UserPage, DirOf, Frames.Ledger;
    var (m', c) := CreateUser(s.m, s.k).value;
    owner' := WithContext(owner, c, DirOf(m', c));
    CreateKeepsLaid(s.m, s.k, s.Live(), owner, reserved);
    LiveHas(s.m, s.k, s.Live(), owner, reserved);
    var s' := Step(s, Create).value;
    assert s'.Live() == s.Live() + {c};
    forall p: nat | UserPage(s.m, s.k, p) ensures p < FRAMES { UserPageInRange(s.m, s.k, p); }
  }

  lemma LiveHas(m: Mem, k: nat, live: set<nat>, owner: map<nat, Role>, reserved: set<nat>)
    requires Laid(m, k, live, owner, reserved)
    ensures k in live
  {
  }

  lemma CreateKeepsLaid(m: Mem, k: nat, live: set<nat>, owner: map<nat, Role>, reserved: set<nat>)
    requires Laid(m, k, live, owner, reserved) && CreateUser(m, k).Some?
    ensures var (m', c) := CreateUser(m, k).value;
            && c !in live && Laid(m', k, live + {c}, WithContext(owner, c, DirOf(m', c)), reserved)
            && m'.frames.Ledger() == m.frames.Ledger() && SameDirectory(m, m', k)
            && forall a, p :: a in live && 0 <= p < FRAMES ==> Walk(m', a, p) == Walk(m, a, p)
  {
    hide Owned, CreateUser, SameDirectory, SamePrivateTables, WithContext, Walk, NoUserSlots, DirOf, KernelIdentity, PdEntry, Frames.Ledger;
    LiveHas(m, k, live, owner, reserved);
    CreateKeepsOwned(m, k, live, owner, reserved);
    var (m', c) := CreateUser(m, k).value;
    TakeTwoLedger(m.frames, c, DirOf(m', c));
    KernelSlotsSame(m, m', k);
    forall a, p | a in live && 0 <= p < FRAMES ensures Walk(m', a, p) == Walk(m, a, p) {
      SameTablesSameWalk(m, m', k, live, owner, reserved, a, p);
    }
    CreateKeepsKernel(m, m', k, live, c);
  }

  lemma CreateKeepsKernel(m: Mem, m': Mem, k: nat, live: set<nat>, c: nat)
    requires KernelIdentity(m, k, live) && k in live && SameDirectory(m, m', k)
    requires forall a, p :: a in live && 0 <= p < FRAMES ==> Walk(m', a, p) == Walk(m, a, p)
    requires forall i :: PdEntry(m', c, i) == PdEntry(m, k, i)
    ensures KernelIdentity(m', k, live + {c})
  {
    hide Walk, UserPage, PdEntry, SameDirectory;
    forall p ensures UserPage(m', k, p) == UserPage(m, k, p) { SameUserPage(m, m', k, p); }
    forall p | 0 <= p < FRAMES ensures Walk(m', c, p) == Walk(m', k, p) {
      PageInSlot(p);
      CopiedWalk(m, m', k, c, p);
    }
  }

  lemma PageInSlot(p: nat)
    requires p < FRAMES
    ensures p / SLOTS < SLOTS
  {
  }

  // A context with the kernel's directory entries walks as the kernel does.
  lemma CopiedWalk(m: Mem, m': Mem, k: nat, c: nat, p: nat)
    requires SameDirectory(m, m', k) && p < FRAMES && PdEntry(m', c, p / SLOTS) == PdEntry(m, k, p / SLOTS)
    ensures Walk(m', c, p) == Walk(m', k, p)
  {
  }

  lemma TakeTwoLedger(m: Frames, f: nat, g: nat)
    requires f !in m.used && g !in m.used && f != g
    ensures m.Take(f).Take(g).Ledger() == m.Ledger()
  {
    LedgerKeptExactlyByLegalUse(m, f);
    LedgerKeptExactlyByLegalUse(m.Take(f), g);
  }

  lemma AllocKeepsLaid(m: Mem, k: nat, live: set<nat>, owner: map<nat, Role>, reserved: set<nat>, c: nat, vaddr: u32, sz: u32)
    returns (fs: seq<nat>, owner': map<nat, Role>)
    requires Laid(m, k, live, owner, reserved) && c in live && c != k && VmmAlloc(m, c, vaddr, sz).Some? && CoversUserPages(m, k, vaddr, sz)
    ensures |fs| == if vaddr + sz < WORD then PagesOf(sz) else 0
    ensures fs != [] ==> vaddr % PAGE == 0
    ensures var m' := VmmAlloc(m, c, vaddr, sz).value;
            && Laid(m', k, live, owner', reserved) && m'.frames.Ledger() == m.frames.Ledger()
            && SameDirectory(m, m', k) && MappedRange(m, m', k, live, c, vaddr / PAGE, fs)
  {
    hide Owned, MappedRange, SameDirectory, VmmAlloc, KernelIdentity, UserPage, NoUserSlots, PagesOf, Frames.Ledger;
    fs, owner' := VmmAllocExact(m, k, live, owner, reserved, c, vaddr, sz);
    var m' := VmmAlloc(m, c, vaddr, sz).value;
    KernelSlotsSame(m, m', k);
    AllocKeepsKernel(m, m', k, live, c, vaddr / PAGE, fs);
  }

  lemma AllocStep(s: Sys, owner: map<nat, Role>, reserved: set<nat>, c: nat, vaddr: u32, sz: u32)
    returns (fs: seq<nat>, owner': map<nat, Role>)
    requires Inv(s, owner, reserved) && c in s.breaks && VmmAlloc(s.m, c, vaddr, sz).Some? && CoversUserPages(s.m, s.k, vaddr, sz)
    ensures |fs| == if vaddr + sz < WORD then PagesOf(sz) else 0
    ensures fs != [] ==> vaddr % PAGE == 0
    ensures var s' := s.(m := VmmAlloc(s.m, c, vaddr, sz).value);
            && Inv(s', owner', reserved) && s'.m.frames.Ledger() == s.m.frames.Ledger()
            && SameDirectory(s.m, s'.m, s.k) && MappedRange(s.m, s'.m, s.k, s.Live(), c, vaddr / PAGE, fs)
  {
    hide Laid, MappedRange, SameDirectory, VmmAlloc, PagesOf, Frames.Ledger, CoversUserPages;
    fs, owner' := AllocKeepsLaid(s.m, s.k, s.Live(), owner, reserved, c, vaddr, sz);
  }

  lemma AllocKeepsKernel(m: Mem, m': Mem, k: nat, live: set<nat>, c: nat, page: nat, fs: seq<nat>)
    requires KernelIdentity(m, k, live) && MappedRange(m, m', k, live, c, page, fs) && SameDirectory(m, m', k)
    requires forall p :: page <= p < page + |fs| ==> UserPage(m, k, p)
    ensures KernelIdentity(m', k, live)
  {
    hide Walk, UserPage, SameDirectory;
    forall p ensures UserPage(m', k, p) == UserPage(m, k, p) { SameUserPage(m, m', k, p); }
  }

  lemma KernelSlotsSame(m: Mem, m': Mem, k: nat)
    requires SameDirectory(m, m', k) && NoUserSlots(m, k)
    ensures NoUserSlots(m', k)
  {
  }

  lemma DestroyStep(s: Sys, owner: map<nat, Role>, reserved: set<nat>, c: nat) returns (owner': map<nat, Role>)
    requires Inv(s, owner, reserved) && c in s.breaks
    ensures Step(s, Op.Destroy(c)).Some?
    ensures var s' := Step(s, Op.Destroy(c)).value;
            && Inv(s', owner', reserved) && s'.m.frames.Ledger() == s.m.frames.Ledger() && s'.m.pool == s.m.pool
  {
    hide Owned, ReleaseAll, ContextFrees, KernelIdentity, NoUserSlots, Frames.Ledger;
    DestroyKeepsOwned(s.m, s.k, s.Live(), owner, reserved, c);
    owner' := WithoutContext(owner, c);
    var s' := Step(s, Op.Destroy(c)).value;
    assert s'.Live() == s.Live() - {c};
    SameKernel(s.m, s'.m, s.k, s.Live(), s'.Live());
  }

  lemma SameKernel(m: Mem, m': Mem, k: nat, live: set<nat>, live': set<nat>)
    requires m'.pool == m.pool && KernelIdentity(m, k, live) && NoUserSlots(m, k) && live' <= live
    ensures KernelIdentity(m', k, live') && NoUserSlots(m', k)
  {
    SamePool(m, m');
    KernelSlotsSame(m, m', k);
    hide Walk, UserPage, SameDirectory;
    forall p ensures UserPage(m', k, p) == UserPage(m, k, p) { SameUserPage(m, m', k, p); }
  }

  lemma StepKeepsInv(s: Sys, op: Op, owner: map<nat, Role>, reserved: set<nat>) returns (owner': map<nat, Role>)
    requires Inv(s, owner, reserved) && OnUserPages(s, op) && Step(s, op).Some?
    ensures var s' := Step(s, op).value;
            && Inv(s', owner', reserved) && s'.m.frames.Ledger() == s.m.frames.Ledger() && s'.k == s.k
            && SameDirectory(s.m, s'.m, s.k) && OthersSame(s, s', op)
  {
    owner' := owner;
    match op
    case Create =>
      owner' := CreateStep(s, owner, reserved);
    case Alloc(c, vaddr, sz) =>
      if c in s.breaks { owner' := CallStep(s, Step(s, op).value, op, owner, reserved, c, vaddr, sz); }
    case Sbrk(c, request) =>
      if c in s.breaks && request != 0 { owner' := CallStep(s, Step(s, op).value, op, owner, reserved, c, BreakAddress(s, c), request); }
    case Destroy(c) =>
      if c in s.breaks {
        owner' := DestroyStep(s, owner, reserved, c);
        SamePool(s.m, Step(s, op).value.m);
      }
  }

  lemma SamePool(m: Mem, m': Mem)
    requires m.pool == m'.pool
    ensures forall a :: SameDirectory(m, m', a)
    ensures forall a, p :: Walk(m', a, p) == Walk(m, a, p)
  {
  }

  lemma CallStep(s: Sys, s': Sys, op: Op, owner: map<nat, Role>, reserved: set<nat>, c: nat, vaddr: u32, sz: u32)
    returns (owner': map<nat, Role>)
    requires Inv(s, owner, reserved) && c in s.breaks && VmmAlloc(s.m, c, vaddr, sz) == Some(s'.m) && CoversUserPages(s.m, s.k, vaddr, sz)
    requires (op.Alloc? || op.Sbrk?) && op.c == c && s'.k == s.k && s'.breaks.Keys == s.breaks.Keys
    ensures Inv(s', owner', reserved) && OthersSame(s, s', op)
    ensures s'.m.frames.Ledger() == s.m.frames.Ledger() && SameDirectory(s.m, s'.m, s.k)
  {
    var fs;
    fs, owner' := AllocStep(s, owner, reserved, c, vaddr, sz);
    hide Owned, VmmAlloc, SameDirectory, Walk, KernelIdentity;
    forall a, p | a in s.Live() && UserPage(s.m, s.k, p) && a != c ensures Walk(s'.m, a, p) == Walk(s.m, a, p) {
    }
  }

  // ----- whole runs

  // Every request of the run covers user pages only.
  ghost predicate AllOnUserPages(s: Sys, ops: seq<Op>) {
    forall n :: 0 <= n < |ops| ==> Run(s, ops[..n]).Some? && OnUserPages(Run(s, ops[..n]).value, ops[n])
  }

  lemma FewerOnUserPages(s: Sys, ops: seq<Op>)
    requires AllOnUserPages(s, ops) && ops != []
    ensures var init := ops[..|ops| - 1]; AllOnUserPages(s, init) && Run(s, init).Some? && OnUserPages(Run(s, init).value, ops[|ops| - 1])
  {
    hide OnUserPages, Run;
    var init := ops[..|ops| - 1];
    assert forall n :: 0 <= n <= |init| ==> init[..n] == ops[..n];
    assert init[..|init|] == init;
  }

  lemma {:induction false} RunKeepsInv(s: Sys, ops: seq<Op>, owner: map<nat, Role>, reserved: set<nat>) returns (owner': map<nat, Role>)
    requires Inv(s, owner, reserved) && AllOnUserPages(s, ops) && Run(s, ops).Some?
    ensures var s' := Run(s, ops).value;
            Inv(s', owner', reserved) && s'.k == s.k && s'.m.frames.Ledger() == s.m.frames.Ledger()
            && forall p :: UserPage(s'.m, s.k, p) == UserPage(s.m, s.k, p)
  {
    hide Inv, AllOnUserPages, OnUserPages, Step, UserPage, OthersSame, Frames.Ledger, SameDirectory;
    owner' := owner;
    if ops != [] {
      FewerOnUserPages(s, ops);
      var s1 := Run(s, ops[..|ops| - 1]).value;
      owner' := RunKeepsInv(s, ops[..|ops| - 1], owner, reserved);
      owner' := StepKeepsInv(s1, ops[|ops| - 1], owner', reserved);
      forall p { SameUserPage(s1.m, Run(s, ops).value.m, s.k, p); }
    }
  }

  // The frame that plays a role, and the roles that exist in a state.
  function FrameOf(m: Mem, r: Role): nat {
    match r
    case Context(c) => c
    case Directory(c) => DirOf(m, c)
    case Table(c, i) => PdEntry(m, c, i) / PAGE
    case Page(c, i, j) => PtEntry(m, c, i, j) / PAGE
  }

  predicate Exists(s: Sys, r: Role) {
    && r.c in s.Live()
    && (r.Table? ==> r.i < SLOTS && Private(s.m, s.k, r.c, r.i))
    && (r.Page? ==> r.c != s.k && r.i < SLOTS && r.j < SLOTS && Private(s.m, s.k, r.c, r.i) && PtEntry(s.m, r.c, r.i, r.j) != 0)
  }

  predicate MapsUserPage(s: Sys, a: nat, p: nat) {
    a in s.breaks && UserPage(s.m, s.k, p) && Walk(s.m, a, p) != 0
  }

  // Counting all live contexts: context pages, directories, private tables and the frames
  // of user pages are pairwise different, used and never a frame that boot reserved; tables
  // lie in the pool and user frames above the heap.
  ghost predicate Isolated(s: Sys, reserved: set<nat>) {
    && (forall r, r' :: Exists(s, r) && Exists(s, r') && r != r' ==> FrameOf(s.m, r) != FrameOf(s.m, r'))
    && (forall r :: Exists(s, r) ==>
          && FrameOf(s.m, r) in s.m.frames.used && FrameOf(s.m, r) !in reserved
          && if r.Page? then HEAP_END <= FrameOf(s.m, r) < FRAMES else InPool(FrameOf(s.m, r)))
    && (forall a, b, p, q :: MapsUserPage(s, a, p) && MapsUserPage(s, b, q) && (a != b || p != q) ==>
          Walk(s.m, a, p) / PAGE != Walk(s.m, b, q) / PAGE)
  }

  lemma RoleIsOwned(s: Sys, owner: map<nat, Role>, reserved: set<nat>, r: Role)
    requires Inv(s, owner, reserved) && Exists(s, r)
    ensures Has(owner, FrameOf(s.m, r), r)
    ensures if r.Page? then HEAP_END <= FrameOf(s.m, r) < FRAMES else InPool(FrameOf(s.m, r))
  {
    assert ContextOk(s.m, s.k, owner, r.c);
    if r.Table? || r.Page? { assert TableOk(s.m, s.k, owner, r.c, r.i); }
    if r.Page? { assert PageOk(s.m, owner, r.c, r.i, r.j); }
  }

  lemma MappedPageIsRole(s: Sys, owner: map<nat, Role>, reserved: set<nat>, a: nat, p: nat)
    requires Inv(s, owner, reserved) && MapsUserPage(s, a, p)
    ensures var r := Page(a, p / SLOTS, p % SLOTS); Exists(s, r) && FrameOf(s.m, r) == Walk(s.m, a, p) / PAGE
  {
    WalkIsEntry(s.m, s.k, s.Live(), owner, reserved, a, p / SLOTS);
  }

  lemma OwnedIsIsolated(s: Sys, owner: map<nat, Role>, reserved: set<nat>)
    requires Inv(s, owner, reserved)
    ensures Isolated(s, reserved)
  {
    forall r | Exists(s, r)
      ensures Has(owner, FrameOf(s.m, r), r)
      ensures if r.Page? then HEAP_END <= FrameOf(s.m, r) < FRAMES else InPool(FrameOf(s.m, r))
    {
      RoleIsOwned(s, owner, reserved, r);
    }
    hide ContextOk, Plays, Exists, FrameOf, Walk, UserPage, NoUserSlots, WellFormed;
    forall a, b, p, q | MapsUserPage(s, a, p) && MapsUserPage(s, b, q) && (a != b || p != q)
      ensures Walk(s.m, a, p) / PAGE != Walk(s.m, b, q) / PAGE
    {
      MappedPageIsRole(s, owner, reserved, a, p);
      MappedPageIsRole(s, owner, reserved, b, q);
    }
  }

  lemma BootInv(m: Mem) returns (owner: map<nat, Role>)
    requires WellFormed(m) && InitVmm(m).Some?
    ensures var (m', k) := InitVmm(m).value; Inv(Sys(m', k, map[]), owner, m.frames.used) && AllOwned(m', owner, m.frames.used)
  {
    hide InitVmm, Owned, AllOwned, Identity, NoUserSlots, KernelIdentity, WellFormed;
    owner := InitVmmOwned(m);
    var (m', k) := InitVmm(m).value;
    IdentityOfKernel(m', k);
    assert Sys(m', k, map[]).Live() == {k};
  }

  // Isolation and the ledger of frames, on every run from boot whose requests are on user
  // pages.
  lemma IsolationOnEveryRun(m: Mem, ops: seq<Op>)
    requires WellFormed(m) && InitVmm(m).Some?
    requires var (m', k) := InitVmm(m).value; AllOnUserPages(Sys(m', k, map[]), ops) && Run(Sys(m', k, map[]), ops).Some?
    ensures var (m', k) := InitVmm(m).value; var s := Run(Sys(m', k, map[]), ops).value;
            Isolated(s, m.frames.used) && s.m.frames.Ledger() == m'.frames.Ledger() && KernelIdentity(s.m, k, s.Live())
            && (forall p :: USER_START <= p < FRAMES ==> UserPage(s.m, k, p))
  {
    hide InitVmm, Owned, NoUserSlots, KernelIdentity, WellFormed, Run, AllOnUserPages, Isolated, Frames.Ledger, UserPage;
    var owner := BootInv(m);
    var (m', k) := InitVmm(m).value;
    var s0 := Sys(m', k, map[]);
    owner := RunKeepsInv(s0, ops, owner, m.frames.used);
    OwnedIsIsolated(Run(s0, ops).value, owner, m.frames.used);
    HighPagesAreUser(Run(s0, ops).value.m, k);
  }

  // What was marked when the memory was first looked at is nobody's on any run: the kernel's
  // image, the heap and the boot structures lie in no user page, and no byte `at` of a module
  // does, such as the RAM disk.
  lemma MarkedIsNobodys(m: Mem, ops: seq<Op>, info: nat, mods: nat, modules: seq<Pmm.BootModule>, a: nat, p: nat, i: nat, at: nat)
    requires WellFormed(m) && InitVmm(m).Some? && forall f :: f in m.frames.used <==> Pmm.MarkedAtBoot(f, info, mods, modules)
    requires var (m', k) := InitVmm(m).value; AllOnUserPages(Sys(m', k, map[]), ops) && Run(Sys(m', k, map[]), ops).Some?
    requires var (m', k) := InitVmm(m).value; MapsUserPage(Run(Sys(m', k, map[]), ops).value, a, p)
    ensures var (m', k) := InitVmm(m).value; var f := Walk(Run(Sys(m', k, map[]), ops).value.m, a, p) / PAGE;
            && !(KERNEL_START <= f < POOL_START) && !(HEAP_START <= f < HEAP_END) && f != 0 && f != info / PAGE && f != mods / PAGE
            && (i < |modules| && modules[i].start % PAGE == 0 && modules[i].start <= at < modules[i].end ==> f != at / PAGE)
  {
    hide InitVmm, Inv, WellFormed, Run, AllOnUserPages, Walk, UserPage, Pmm.HoldsModule;
    var owner := BootInv(m);
    var (m', k) := InitVmm(m).value;
    var s0 := Sys(m', k, map[]);
    var s := Run(s0, ops).value;
    owner := RunKeepsInv(s0, ops, owner, m.frames.used);
    var f := Walk(s.m, a, p) / PAGE;
    UserFrameUnreserved(s, owner, m.frames.used, a, p);
    if i < |modules| && modules[i].start % PAGE == 0 && modules[i].start <= at < modules[i].end { ByteOfModule(modules[i], at); }
  }

  lemma UserFrameUnreserved(s: Sys, owner: map<nat, Role>, reserved: set<nat>, a: nat, p: nat)
    requires Inv(s, owner, reserved) && MapsUserPage(s, a, p)
    ensures Walk(s.m, a, p) / PAGE !in reserved
  {
    hide Owned, Walk, UserPage, NoUserSlots, KernelIdentity;
    OwnedIsIsolated(s, owner, reserved);
    MappedPageIsRole(s, owner, reserved, a, p);
  }

  lemma ByteOfModule(b: Pmm.BootModule, at: nat)
    requires b.start % PAGE == 0 && b.start <= at < b.end
    ensures Pmm.HoldsModule(at / PAGE, b)
  {
  }

  lemma HighPagesAreUser(m: Mem, k: nat)
    requires NoUserSlots(m, k)
    ensures forall p :: USER_START <= p < FRAMES ==> UserPage(m, k, p)
  {
    hide PdEntry;
  }

  // ----- the page at the end of the heap

  // It is mapped one to one for everybody (vmm.c:134) and yet the first that is handed out:
  // the next page of c lies in it, and every other context may write to it there.
  lemma NextPageIsEverybodys(s: Sys, owner: map<nat, Role>, reserved: set<nat>, c: nat, page: nat)
    requires Inv(s, owner, reserved) && c in s.breaks && UserPage(s.m, s.k, page) && HEAP_END !in s.m.frames.used
    requires AllocPage(s.m, c, page).Some?
    ensures var m' := AllocPage(s.m, c, page).value;
            && Walk(m', c, page) == HEAP_END * PAGE + USER
            && forall b :: b in s.Live() ==> Walk(m', b, HEAP_END) == HEAP_END * PAGE + USER
  {
    hide Owned, AllocPage, Walk, UserPage, Claimed, OwnersOfAlloc, SameDirectory, NoUserSlots;
    UserPageInRange(s.m, s.k, page);
    var f, owner' := AllocPageStep(s.m, s.k, s.Live(), owner, reserved, c, page);
    assert f == HEAP_END;
    assert !UserPage(s.m, s.k, HEAP_END);
  }

  // That is all there is: a user page of a context shares its frame with another page, of
  // itself or of anybody, exactly if that page is the one at the end of the heap and the
  // frame is the one there.
  lemma SharedExactly(s: Sys, owner: map<nat, Role>, reserved: set<nat>, a: nat, p: nat, b: nat, q: nat)
    requires Inv(s, owner, reserved) && MapsUserPage(s, a, p) && b in s.Live() && q < FRAMES && (b != a || q != p)
    ensures Walk(s.m, b, q) != 0 && Walk(s.m, b, q) / PAGE == Walk(s.m, a, p) / PAGE
            <==> q == HEAP_END && Walk(s.m, a, p) / PAGE == HEAP_END
  {
    hide Owned, Walk, UserPage, NoUserSlots, Exists, FrameOf;
    OwnedIsIsolated(s, owner, reserved);
    UserFrameIsHigh(s, owner, reserved, a, p);
    if UserPage(s.m, s.k, q) {
      if b == s.k { NoUserPageOfKernel(s.m, s.k, q); }
    } else {
      WordParts(q);
    }
  }

  lemma UserFrameIsHigh(s: Sys, owner: map<nat, Role>, reserved: set<nat>, a: nat, p: nat)
    requires Inv(s, owner, reserved) && MapsUserPage(s, a, p)
    ensures Walk(s.m, a, p) / PAGE >= HEAP_END
  {
    hide Owned, Walk, UserPage, NoUserSlots, KernelIdentity;
    MappedPageIsRole(s, owner, reserved, a, p);
    RoleIsOwned(s, owner, reserved, Page(a, p / SLOTS, p % SLOTS));
  }

  lemma NoUserPageOfKernel(m: Mem, k: nat, q: nat)
    requires UserPage(m, k, q)
    ensures Walk(m, k, q) == 0
  {
  }

  lemma WordParts(q: nat)
    ensures KernelWord(q) != 0 <==> KERNEL_START <= q <= HEAP_END
    ensures KernelWord(q) != 0 ==> KernelWord(q) / PAGE == q
  {
  }

  lemma SharedOnEveryRun(m: Mem, ops: seq<Op>, a: nat, p: nat, b: nat, q: nat)
    requires WellFormed(m) && InitVmm(m).Some?
    requires var (m', k) := InitVmm(m).value; AllOnUserPages(Sys(m', k, map[]), ops) && Run(Sys(m', k, map[]), ops).Some?
    requires var (m', k) := InitVmm(m).value; var s := Run(Sys(m', k, map[]), ops).value;
             MapsUserPage(s, a, p) && b in s.Live() && q < FRAMES && (b != a || q != p)
    ensures var (m', k) := InitVmm(m).value; var s := Run(Sys(m', k, map[]), ops).value;
            Walk(s.m, b, q) != 0 && Walk(s.m, b, q) / PAGE == Walk(s.m, a, p) / PAGE
            <==> q == HEAP_END && Walk(s.m, a, p) / PAGE == HEAP_END
  {
    hide InitVmm, Inv, WellFormed, Run, AllOnUserPages, MapsUserPage, Walk;
    var owner := BootInv(m);
    var (m', k) := InitVmm(m).value;
    var s0 := Sys(m', k, map[]);
    owner := RunKeepsInv(s0, ops, owner, m.frames.used);
    SharedExactly(Run(s0, ops).value, owner, m.frames.used, a, p, b, q);
  }

  // ----- requests that are not on user pages

  // Every live context maps the kernel's memory one to one.
  ghost predicate KernelMapped(s: Sys) {
    forall a, p :: a in s.Live() && KERNEL_START <= p <= HEAP_END ==> Walk(s.m, a, p) == p * PAGE + USER
  }

  predicate CoversKernel(vaddr: u32, sz: u32) {
    sz > 0 && vaddr + sz < WORD && vaddr / PAGE <= HEAP_END && KERNEL_START < vaddr / PAGE + PagesOf(sz)
  }

  // A request leaves the kernel mapped exactly if it covers no page of the kernel, or begins
  // at the page at the end of the heap while that is the next frame: then it is mapped to
  // itself again.
  lemma KernelSurvivesExactly(s: Sys, m': Mem, owner: map<nat, Role>, reserved: set<nat>, c: nat, vaddr: u32, sz: u32)
    requires Inv(s, owner, reserved) && c in s.breaks && VmmAlloc(s.m, c, vaddr, sz) == Some(m')
    ensures KernelMapped(s.(m := m')) <==>
              !CoversKernel(vaddr, sz) || (vaddr / PAGE == HEAP_END && HEAP_END !in s.m.frames.used)
  {
    hide Owned, VmmAlloc, SameDirectory, Walk, UserPage, PagesOf, NoUserSlots, Claimed;
    var fs, _ := VmmAllocExact(s.m, s.k, s.Live(), owner, reserved, c, vaddr, sz);
    SomePagesOf(sz);
    var page := vaddr / PAGE;
    if CoversKernel(vaddr, sz) {
      var p := if page < KERNEL_START then KERNEL_START else page;
      NewWord(s.m, m', s.k, s.Live(), c, page, fs, p);
      WordInjective(fs[p - page], p);
      assert fs[p - page] in fs;
      FirstFrame(s.m, fs);
      assert s.k in s.Live();
      if p < HEAP_END || fs[0] != HEAP_END {
        assert Walk(m', s.k, p) != p * PAGE + USER;
      } else {
        OthersStayMapped(s, m', c, page, fs);
      }
    } else {
      OthersStayMapped(s, m', c, page, fs);
    }
  }

  lemma OthersStayMapped(s: Sys, m': Mem, c: nat, page: nat, fs: seq<nat>)
    requires KernelIdentity(s.m, s.k, s.Live()) && MappedRange(s.m, m', s.k, s.Live(), c, page, fs)
    requires fs == [] || page > HEAP_END || page + |fs| <= KERNEL_START || (page == HEAP_END && fs[0] == HEAP_END)
    ensures KernelMapped(s.(m := m'))
  {
    hide Walk, UserPage;
    forall a, q | a in s.Live() && KERNEL_START <= q <= HEAP_END ensures Walk(m', a, q) == q * PAGE + USER {
      assert !UserPage(s.m, s.k, q);
      if page <= q < page + |fs| { NewWord(s.m, m', s.k, s.Live(), c, page, fs, q); }
    }
  }

  lemma SomePagesOf(sz: nat)
    ensures PagesOf(sz) > 0 <==> sz > 0
  {
  }

  lemma FirstFrame(m: Mem, fs: seq<nat>)
    requires fs != [] && LowestFree(m.frames.used, HEAP_END, FRAMES) == Some(fs[0])
    ensures fs[0] == HEAP_END <==> HEAP_END !in m.frames.used
  {
  }

  lemma NewWord(m: Mem, m': Mem, k: nat, live: set<nat>, c: nat, page: nat, fs: seq<nat>, p: nat)
    requires MappedRange(m, m', k, live, c, page, fs) && page <= p < page + |fs| && !UserPage(m, k, p)
    ensures forall a :: a in live ==> Walk(m', a, p) == fs[p - page] * PAGE + USER
  {
  }

  lemma WordInjective(f: nat, p: nat)
    ensures f * PAGE + USER == p * PAGE + USER <==> f == p
  {
  }

  // Two calls of sbrk suffice. The first wraps around 2^32: it maps nothing but moves the
  // break to the first page of the page pool. The second maps a user frame over it, for
  // everybody; from then on the kernel follows the addresses of tables in it to that frame.
  lemma TwoRequestsUnmapKernel(s: Sys, owner: map<nat, Role>, reserved: set<nat>, c: nat)
    requires Inv(s, owner, reserved) && c in s.breaks && s.breaks[c] == 0
    ensures var request: u32 := WORD - USER_START * PAGE + POOL_START * PAGE; var r := Step(s, Sbrk(c, request));
            && r == Some(s.(breaks := s.breaks[c := request])) && BreakAddress(r.value, c) == POOL_START * PAGE
            && (Step(r.value, Sbrk(c, PAGE)).Some? ==> !KernelMapped(Step(r.value, Sbrk(c, PAGE)).value))
  {
    hide Owned, NoUserSlots, KernelIdentity, KernelMapped, AllocPages;
    var request: u32 := WORD - USER_START * PAGE + POOL_START * PAGE;
    var s1 := s.(breaks := s.breaks[c := request]);
    assert s1.Live() == s.Live();
    assert Step(s, Sbrk(c, request)) == Some(s1) && BreakAddress(s1, c) == POOL_START * PAGE;
    var r := Step(s1, Sbrk(c, PAGE));
    if r.Some? {
      assert CoversKernel(POOL_START * PAGE, PAGE);
      KernelSurvivesExactly(s1, r.value.m, owner, reserved, c, POOL_START * PAGE, PAGE);
      SameLive(s1, r.value);
    }
  }

  lemma SameLive(s: Sys, s': Sys)
    requires s'.k == s.k && s'.breaks.Keys == s.breaks.Keys
    ensures KernelMapped(s.(m := s'.m)) <==> KernelMapped(s')
  {
    hide Walk;
    assert s.(m := s'.m).Live() == s'.Live();
  }
}
