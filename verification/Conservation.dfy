/**
 Where the frames are, over whole runs (hal.x86/vmm.c:16-152): whatever is used was marked
 by boot, plays a role for a live context, or is a frame that a second allocation of the same
 page has replaced.
 */
module Conservation {
  import opened Machine
  import opened Frames
  import opened Paging
  import opened Ownership
  import opened Translation
  import opened Boot
  import opened AddressSpaceRuns
  import LifeCycle

  // ----- what a run loses

  // The frames at n pages of c from `page` on.
  function FramesAt(m: Mem, c: nat, page: nat, n: nat): set<nat> {
    set p: nat | page <= p < page + n && Walk(m, c, p) != 0 :: Walk(m, c, p) / PAGE
  }

  // A request over pages that are mapped takes their frames away, and nobody releases them.
  function Replaced(m: Mem, c: nat, vaddr: nat, sz: nat): set<nat> {
    if vaddr + sz >= WORD then {} else FramesAt(m, c, vaddr / PAGE, PagesOf(sz))
  }

  function LostBy(s: Sys, op: Op): set<nat> {
    match op
    case Alloc(c, vaddr, sz) => if c in s.breaks then Replaced(s.m, c, vaddr, sz) else {}
    case Sbrk(c, request) => if c in s.breaks then Replaced(s.m, c, BreakAddress(s, c), request) else {}
    case _ => {}
  }

  function LostOn(s: Sys, ops: seq<Op>): set<nat> {
    if ops == [] then {}
    else
      var init := ops[..|ops| - 1];
      match Run(s, init)
      case None => {}
      case Some(s1) => LostOn(s, init) + LostBy(s1, ops[|ops| - 1])
  }

  // ----- one step

  // Every used frame has one owner, or is reserved for good: by boot, or because it is lost.
  ghost predicate Accounted(m: Mem, k: nat, live: set<nat>, owner: map<nat, Role>, gone: set<nat>) {
    Owned(m, k, live, owner, gone) && AllOwned(m, owner, gone)
  }

  lemma PageAccounted(m: Mem, k: nat, live: set<nat>, owner: map<nat, Role>, gone: set<nat>, c: nat, page: nat)
    returns (owner': map<nat, Role>)
    requires Accounted(m, k, live, owner, gone) && c in live && c != k && UserPage(m, k, page) && AllocPage(m, c, page).Some?
    ensures var lost := if Walk(m, c, page) != 0 then {Walk(m, c, page) / PAGE} else {};
            Accounted(AllocPage(m, c, page).value, k, live, owner', gone + lost) && gone !! lost
  {
    hide Owned, AllocPage, Walk, UserPage, Mapped, SameDirectory, Claimed;
    UserPageInRange(m, k, page);
    var f;
    f, owner' := AllocPageStep(m, k, live, owner, gone, c, page);
    var m' := AllocPage(m, c, page).value;
    LifeCycle.LostIsNobodys(m, m', k, live, owner, owner', gone, c, page, f);
    if Walk(m, c, page) != 0 {
      LifeCycle.LostFrameWasOwned(m, k, live, owner, gone, c, page);
      OwnedIsNotGone(m, k, live, owner, gone, Walk(m, c, page) / PAGE);
    }
  }

  lemma OwnedIsNotGone(m: Mem, k: nat, live: set<nat>, owner: map<nat, Role>, gone: set<nat>, f: nat)
    requires Owned(m, k, live, owner, gone) && f in owner
    ensures f !in gone
  {
  }

  lemma {:induction false} PagesAccounted(m: Mem, k: nat, live: set<nat>, owner: map<nat, Role>, gone: set<nat>, c: nat, page: nat, n: nat)
    returns (owner': map<nat, Role>)
    requires Accounted(m, k, live, owner, gone) && c in live && c != k && AllocPages(m, c, page, n).Some?
    requires forall p :: page <= p < page + n ==> UserPage(m, k, p)
    ensures var lost := FramesAt(m, c, page, n); Accounted(AllocPages(m, c, page, n).value, k, live, owner', gone + lost) && gone !! lost
  {
    hide Owned, AllOwned, AllocPage, Walk, UserPage, MappedRange, Claimed, SameDirectory, Distinct;
    owner' := owner;
    if n == 0 {
      assert gone + FramesAt(m, c, page, 0) == gone;
    } else {
      var last, m1 := page + n - 1, AllocPages(m, c, page, n - 1).value;
      UserPageInRange(m, k, last);
      owner' := PagesAccounted(m, k, live, owner, gone, c, page, n - 1);
      var fs, _ := AllocPagesStep(m, k, live, owner, gone, c, page, n - 1);
      NotYetMapped(m, m1, k, live, c, page, fs, last);
      SameUserPage(m, m1, k, last);
      var lost := FramesAt(m, c, page, n - 1);
      var more := if Walk(m, c, last) != 0 then {Walk(m, c, last) / PAGE} else {};
      assert FramesAt(m, c, page, n) == lost + more;
      assert gone + FramesAt(m, c, page, n) == gone + lost + more;
      owner' := PageAccounted(m1, k, live, owner', gone + lost, c, last);
    }
  }

  lemma NotYetMapped(m: Mem, m1: Mem, k: nat, live: set<nat>, c: nat, page: nat, fs: seq<nat>, p: nat)
    requires MappedRange(m, m1, k, live, c, page, fs) && c in live && p == page + |fs| && p < FRAMES
    ensures Walk(m1, c, p) == Walk(m, c, p)
  {
    hide Walk, UserPage;
  }

  lemma AllocAccounted(m: Mem, k: nat, live: set<nat>, owner: map<nat, Role>, gone: set<nat>, c: nat, vaddr: u32, sz: u32)
    returns (owner': map<nat, Role>)
    requires Accounted(m, k, live, owner, gone) && c in live && c != k && VmmAlloc(m, c, vaddr, sz).Some? && CoversUserPages(m, k, vaddr, sz)
    ensures var lost := Replaced(m, c, vaddr, sz); Accounted(VmmAlloc(m, c, vaddr, sz).value, k, live, owner', gone + lost) && gone !! lost
  {
    hide Accounted, AllocPages, Walk, UserPage;
    owner' := owner;
    if sz == 0 || vaddr + sz >= WORD {
      assert PagesOf(0) == 0;
      assert gone + Replaced(m, c, vaddr, sz) == gone;
    } else {
      owner' := PagesAccounted(m, k, live, owner, gone, c, vaddr / PAGE, PagesOf(sz));
    }
  }

  lemma CreateAccounted(m: Mem, k: nat, live: set<nat>, owner: map<nat, Role>, gone: set<nat>)
    requires Accounted(m, k, live, owner, gone) && CreateUser(m, k).Some?
    ensures var (m', c) := CreateUser(m, k).value; Accounted(m', k, live + {c}, WithContext(owner, c, DirOf(m', c)), gone)
  {
    hide Owned, CreateUser, SameDirectory, SamePrivateTables, DirOf, PdEntry;
    CreateKeepsOwned(m, k, live, owner, gone);
  }

  lemma DestroyAccounted(m: Mem, k: nat, live: set<nat>, owner: map<nat, Role>, gone: set<nat>, c: nat)
    requires Accounted(m, k, live, owner, gone) && c in live && c != k
    ensures Paging.Destroy(m, c, k).Some? && Accounted(Paging.Destroy(m, c, k).value, k, live - {c}, WithoutContext(owner, c), gone)
  {
    hide Owned, ContextFrees, ReleaseAll;
    DestroyKeepsOwned(m, k, live, owner, gone, c);
  }

  lemma StepAccounted(s: Sys, op: Op, owner: map<nat, Role>, gone: set<nat>) returns (owner': map<nat, Role>)
    requires Inv(s, owner, gone) && AllOwned(s.m, owner, gone) && OnUserPages(s, op) && Step(s, op).Some?
    ensures var s', lost := Step(s, op).value, LostBy(s, op);
            Accounted(s'.m, s'.k, s'.Live(), owner', gone + lost) && gone !! lost
  {
    hide Owned, AllOwned, CreateUser, VmmAlloc, Paging.Destroy, KernelIdentity, NoUserSlots, WithContext, WithoutContext, CoversUserPages, Walk;
    var s' := Step(s, op).value;
    owner' := owner;
    assert gone + {} == gone;
    match op
    case Create =>
      CreateAccounted(s.m, s.k, s.Live(), owner, gone);
      var (m', c) := CreateUser(s.m, s.k).value;
      assert s'.Live() == s.Live() + {c};
      owner' := WithContext(owner, c, DirOf(m', c));
    case Alloc(c, vaddr, sz) =>
      if c in s.breaks { owner' := AllocAccounted(s.m, s.k, s.Live(), owner, gone, c, vaddr, sz); }
    case Sbrk(c, request) =>
      if c in s.breaks {
        assert request == 0 ==> LostBy(s, op) == {} by { assert PagesOf(0) == 0; }
        if request != 0 {
          owner' := AllocAccounted(s.m, s.k, s.Live(), owner, gone, c, BreakAddress(s, c), request);
          assert s'.Live() == s.Live();
        }
      }
    case Destroy(c) =>
      if c in s.breaks {
        DestroyAccounted(s.m, s.k, s.Live(), owner, gone, c);
        assert s'.Live() == s.Live() - {c};
        owner' := WithoutContext(owner, c);
      }
  }

  // ----- whole runs

  lemma {:induction false} RunAccounted(s: Sys, ops: seq<Op>, owner: map<nat, Role>, reserved: set<nat>) returns (owner': map<nat, Role>)
    requires Inv(s, owner, reserved) && AllOwned(s.m, owner, reserved) && AllOnUserPages(s, ops) && Run(s, ops).Some?
    ensures var s', lost := Run(s, ops).value, LostOn(s, ops);
            Inv(s', owner', reserved + lost) && AllOwned(s'.m, owner', reserved + lost) && reserved !! lost && s'.k == s.k
            && s'.m.frames.Ledger() == s.m.frames.Ledger() && SameDirectory(s.m, s'.m, s.k)
  {
    hide Owned, AllOwned, AllOnUserPages, OnUserPages, Step, LostBy, OthersSame, Frames.Ledger, SameDirectory, NoUserSlots, KernelIdentity;
    owner' := owner;
    if ops == [] {
      assert reserved + {} == reserved;
      SameAsItself(s.m, s.k);
    } else {
      FewerOnUserPages(s, ops);
      var init, op := ops[..|ops| - 1], ops[|ops| - 1];
      var s1, s' := Run(s, init).value, Run(s, ops).value;
      var owner1 := RunAccounted(s, init, owner, reserved);
      var gone := reserved + LostOn(s, init);
      var _ := StepKeepsInv(s1, op, owner1, gone);
      owner' := StepAccounted(s1, op, owner1, gone);
      assert reserved + LostOn(s, ops) == gone + LostBy(s1, op);
      SameDirectoryTwice(s.m, s1.m, s'.m, s.k);
    }
  }

  lemma SameAsItself(m: Mem, k: nat)
    ensures SameDirectory(m, m, k)
  {
  }

  // The frames in use by the live contexts, the kernel's included.
  ghost predicate InUse(s: Sys, f: nat) {
    exists r :: Exists(s, r) && FrameOf(s.m, r) == f
  }

  lemma OwnedIsInUse(s: Sys, owner: map<nat, Role>, gone: set<nat>, f: nat)
    requires Inv(s, owner, gone)
    ensures f in owner <==> InUse(s, f)
  {
    if f in owner { RoleExists(s, owner, gone, f); }
    hide Owned, Exists, FrameOf;
    if InUse(s, f) {
      var r :| Exists(s, r) && FrameOf(s.m, r) == f;
      RoleIsOwned(s, owner, gone, r);
    }
  }

  lemma RoleExists(s: Sys, owner: map<nat, Role>, gone: set<nat>, f: nat)
    requires Inv(s, owner, gone) && f in owner
    ensures Exists(s, owner[f]) && FrameOf(s.m, owner[f]) == f
  {
    hide ContextOk, DirOf, PdEntry, WellFormed;
    assert Plays(s.m, s.k, f, owner[f]);
    EntryParts(f);
  }

  // On every run from boot: a frame is used exactly if boot had marked it, a live context has
  // it, or it is lost; and it is only one of the three.
  lemma FramesOnEveryRun(m: Mem, ops: seq<Op>)
    requires WellFormed(m) && InitVmm(m).Some?
    requires var (m0, k) := InitVmm(m).value; AllOnUserPages(Sys(m0, k, map[]), ops) && Run(Sys(m0, k, map[]), ops).Some?
    ensures var (m0, k) := InitVmm(m).value; var s, lost := Run(Sys(m0, k, map[]), ops).value, LostOn(Sys(m0, k, map[]), ops);
            && (forall f :: f in s.m.frames.used <==> f in m.frames.used || InUse(s, f) || f in lost)
            && (forall f :: InUse(s, f) ==> f !in m.frames.used && f !in lost) && m.frames.used !! lost
  {
    hide InitVmm, WellFormed, Run, AllOnUserPages, Inv, InUse;
    var owner := BootInv(m);
    var (m0, k) := InitVmm(m).value;
    var s0 := Sys(m0, k, map[]);
    var s, gone := Run(s0, ops).value, m.frames.used + LostOn(s0, ops);
    owner := RunAccounted(s0, ops, owner, m.frames.used);
    forall f ensures f in owner <==> InUse(s, f) { OwnedIsInUse(s, owner, gone, f); }
    UsedOrGone(s, owner, gone);
  }

  lemma UsedOrGone(s: Sys, owner: map<nat, Role>, gone: set<nat>)
    requires Inv(s, owner, gone)
    ensures forall f :: f in owner || f in gone ==> f in s.m.frames.used
    ensures forall f :: f in owner ==> f !in gone
  {
    hide ContextOk, Plays, WellFormed;
  }

  // Once every process is gone, however their calls were interleaved, the bitmap and the
  // counter are what they were after boot exactly if nothing was lost on the way.
  lemma EverythingComesBackExactly(m: Mem, ops: seq<Op>)
    requires WellFormed(m) && InitVmm(m).Some?
    requires var (m0, k) := InitVmm(m).value; AllOnUserPages(Sys(m0, k, map[]), ops) && Run(Sys(m0, k, map[]), ops).Some?
    requires var (m0, k) := InitVmm(m).value; Run(Sys(m0, k, map[]), ops).value.breaks == map[]
    ensures var (m0, k) := InitVmm(m).value; var s0 := Sys(m0, k, map[]);
            && (Run(s0, ops).value.m.frames == m0.frames <==> LostOn(s0, ops) == {})
            && Run(s0, ops).value.m.frames.used == m0.frames.used + LostOn(s0, ops)
  {
    hide InitVmm, WellFormed, Run, AllOnUserPages, Inv, InUse, LostOn, SameDirectory, Frames.Ledger;
    var owner0 := BootInv(m);
    var (m0, k) := InitVmm(m).value;
    var s0 := Sys(m0, k, map[]);
    var s, lost := Run(s0, ops).value, LostOn(s0, ops);
    var owner := RunAccounted(s0, ops, owner0, m.frames.used);
    forall f ensures f in owner <==> f in owner0 {
      OwnedIsInUse(s, owner, m.frames.used + lost, f);
      OwnedIsInUse(s0, owner0, m.frames.used, f);
      SameKernelFrames(s0, s, f);
    }
    UsedOrGone(s, owner, m.frames.used + lost);
    UsedOrGone(s0, owner0, m.frames.used);
    assert s.m.frames.used == m0.frames.used + lost;
    FramesValid(s, owner, m.frames.used + lost);
    FramesValid(s0, owner0, m.frames.used);
    if lost == {} { LedgerDeterminesCounter(s.m.frames, m0.frames); }
    assert m0.frames.used !! lost;
  }

  lemma FramesValid(s: Sys, owner: map<nat, Role>, gone: set<nat>)
    requires Inv(s, owner, gone)
    ensures s.m.frames.Valid()
  {
  }

  lemma SameKernelFrames(s: Sys, s': Sys, f: nat)
    requires s.breaks == map[] == s'.breaks && s'.k == s.k && SameDirectory(s.m, s'.m, s.k)
    ensures InUse(s, f) <==> InUse(s', f)
  {
    hide PdEntry, DirOf, PtEntry;
    if InUse(s, f) { var r :| Exists(s, r) && FrameOf(s.m, r) == f; assert Exists(s', r) && FrameOf(s'.m, r) == f; }
    if InUse(s', f) { var r :| Exists(s', r) && FrameOf(s'.m, r) == f; assert Exists(s, r) && FrameOf(s.m, r) == f; }
  }
}
