/**
 InitVmm (hal.x86/vmm.c:154-182): the kernel context is created and the kernel's own memory
 is mapped one to one. This is where every run of the address-space operations starts.
 */
module Boot {
  import opened Machine
  import opened Frames
  import opened Paging
  import opened Ownership
  import opened Translation

  // In k exactly the pages lo .. hi are mapped, each to the frame of the same number.
  ghost predicate Identity(m: Mem, k: nat, lo: nat, hi: nat) {
    forall p :: 0 <= p < FRAMES ==> Walk(m, k, p) == if lo <= p < hi then p * PAGE + USER else 0
  }

  // The kernel directory has no entry for user space.
  ghost predicate NoUserSlots(m: Mem, k: nat) {
    forall i :: USER_START / SLOTS <= i < SLOTS ==> PdEntry(m, k, i) == 0
  }

  lemma KernelMapOwned(m: Mem, k: nat, owner: map<nat, Role>, reserved: set<nat>, page: nat, frame: nat)
    returns (owner': map<nat, Role>)
    requires Owned(m, k, {k}, owner, reserved) && page < USER_START && NoUserSlots(m, k)
    requires MapPage(m, k, page, frame, USER).Some?
    ensures var m' := MapPage(m, k, page, frame, USER).value;
            Owned(m', k, {k}, owner', reserved) && Mapped(m, m', k, {k}, k, page, frame * PAGE + USER) && NoUserSlots(m', k)
            && (AllOwned(m, owner, reserved) ==> AllOwned(m', owner', reserved))
  {
    var i, j, w := page / SLOTS, page % SLOTS, frame * PAGE + USER;
    WalkIsEntry(m, k, {k}, owner, reserved, k, i);
    if PdEntry(m, k, i) == 0 {
      MapPageInstalls(m, k, page, frame);
      var t := LowestFree(m.frames.used, POOL_START, POOL_END).value;
      var m' := WithTable(m, k, i, t, j, w);
      InstallIsMapped(m, k, {k}, owner, reserved, k, page, t, w);
      TableInstalled(m, k, {k}, owner, reserved, k, i, t, j, w);
      hide WithTable, Mapped, ContextOk, Plays, MapPage, WellFormed;
      GrownKernelOwned(m, m', k, owner, reserved, i, t, j, w);
      owner' := WithTableOwner(owner, k, i, t);
    } else {
      MapPageStores(m, k, page, frame);
      StoreIsMapped(m, k, {k}, owner, reserved, k, page, w);
      MapShared(m, k, {k}, owner, reserved, i, j, w);
      owner' := owner;
    }
  }

  lemma {:induction false} MapRangeStep(m: Mem, k: nat, owner: map<nat, Role>, reserved: set<nat>, lo: nat, hi: nat, page: nat, n: nat)
    returns (owner': map<nat, Role>)
    requires Owned(m, k, {k}, owner, reserved) && NoUserSlots(m, k)
    requires Identity(m, k, lo, hi) && lo <= page <= hi && page + n <= USER_START
    requires MapRange(m, k, page, page, n).Some?
    ensures var m' := MapRange(m, k, page, page, n).value;
            Owned(m', k, {k}, owner', reserved) && NoUserSlots(m', k)
            && Identity(m', k, lo, if page + n > hi then page + n else hi)
            && (AllOwned(m, owner, reserved) ==> AllOwned(m', owner', reserved))
  {
    hide Owned, AllOwned, NoUserSlots, MapPage;
    owner' := owner;
    if n > 0 {
      var m1 := MapRange(m, k, page, page, n - 1).value;
      owner' := MapRangeStep(m, k, owner, reserved, lo, hi, page, n - 1);
      owner' := KernelMapOwned(m1, k, owner', reserved, page + n - 1, page + n - 1);
    }
  }

  lemma MapKernelOwned(m: Mem, k: nat, owner: map<nat, Role>, reserved: set<nat>) returns (owner': map<nat, Role>)
    requires Owned(m, k, {k}, owner, reserved) && NoUserSlots(m, k) && Identity(m, k, KERNEL_START, KERNEL_START)
    requires MapKernel(m, k).Some?
    ensures var m' := MapKernel(m, k).value;
            Owned(m', k, {k}, owner', reserved) && Identity(m', k, KERNEL_START, HEAP_END + 1) && NoUserSlots(m', k)
            && (AllOwned(m, owner, reserved) ==> AllOwned(m', owner', reserved))
  {
    hide Owned, AllOwned, MapRange, Identity, NoUserSlots;
    owner' := MapRangeStep(m, k, owner, reserved, KERNEL_START, KERNEL_START, KERNEL_START, POOL_START - KERNEL_START + 1);
    var m1 := MapRange(m, k, KERNEL_START, KERNEL_START, POOL_START - KERNEL_START + 1).value;
    owner' := MapRangeStep(m1, k, owner', reserved, KERNEL_START, POOL_START + 1, POOL_START, POOL_END - POOL_START + 1);
    var m2 := MapRange(m1, k, POOL_START, POOL_START, POOL_END - POOL_START + 1).value;
    owner' := MapRangeStep(m2, k, owner', reserved, KERNEL_START, POOL_END + 1, HEAP_START, HEAP_END - HEAP_START + 1);
  }

  // Every run starts here: the kernel owns its tables, exactly the kernel's memory and the
  // one page after it is mapped one to one, and every frame that boot had marked is reserved.
  lemma InitVmmOwned(m: Mem) returns (owner: map<nat, Role>)
    requires WellFormed(m) && InitVmm(m).Some?
    ensures var (m', k) := InitVmm(m).value;
            && Owned(m', k, {k}, owner, m.frames.used) && AllOwned(m', owner, m.frames.used)
            && Identity(m', k, KERNEL_START, HEAP_END + 1) && NoUserSlots(m', k)
  {
    FirstContextOwned(m);
    var (m0, k) := CreateContext(m).value;
    assert Identity(m0, k, KERNEL_START, KERNEL_START) && NoUserSlots(m0, k);
    hide Owned, AllOwned, MapKernel, CreateContext, Identity, NoUserSlots;
    owner := MapKernelOwned(m0, k, WithContext(map[], k, DirOf(m0, k)), m.frames.used);
  }

  // ----- what every context sees of the kernel

  // In the slots of the kernel every live context maps exactly the kernel's memory and the
  // one page after it, each page to the frame of the same number. That is why the kernel may
  // follow physical addresses of tables whatever context is active.
  ghost predicate KernelIdentity(m: Mem, k: nat, live: set<nat>) {
    && (forall p :: KERNEL_START <= p <= HEAP_END ==> !UserPage(m, k, p))
    && (forall a, p :: a in live && 0 <= p < FRAMES && !UserPage(m, k, p) ==> Walk(m, a, p) == KernelWord(p))
  }

  function KernelWord(p: nat): nat {
    if KERNEL_START <= p <= HEAP_END then p * PAGE + USER else 0
  }

  lemma IdentityOfKernel(m: Mem, k: nat)
    requires Identity(m, k, KERNEL_START, HEAP_END + 1)
    ensures KernelIdentity(m, k, {k})
  {
    hide PtEntry, DirOf;
    forall p | KERNEL_START <= p <= HEAP_END ensures !UserPage(m, k, p) { assert Walk(m, k, p) == p * PAGE + USER; }
  }

  // ----- when boot has enough tables

  function FreePool(m: Mem): set<nat> {
    set f | POOL_START <= f < POOL_END && f !in m.frames.used
  }

  // The directory slots that pages lo .. hi lie in.
  function SlotsOf(lo: nat, hi: nat): int {
    if hi <= lo then 0 else (hi - 1) / SLOTS - lo / SLOTS + 1
  }

  function Upto(hi: nat, page: nat): nat {
    if page > hi then page else hi
  }

  lemma TakenFromPool(m: Mem, m': Mem, f: nat)
    requires f in FreePool(m) && m'.frames == m.frames.Take(f)
    ensures |FreePool(m')| == |FreePool(m)| - 1
  {
    assert FreePool(m') == FreePool(m) - {f};
  }

  lemma PoolIsEmpty(m: Mem)
    ensures LowestFree(m.frames.used, POOL_START, POOL_END).None? <==> |FreePool(m)| == 0
    ensures LowestFree(m.frames.used, POOL_START, POOL_END).Some? ==> LowestFree(m.frames.used, POOL_START, POOL_END).value in FreePool(m)
  {
    var free := LowestFree(m.frames.used, POOL_START, POOL_END);
    assert free.None? ==> FreePool(m) == {};
    assert free.Some? ==> free.value in FreePool(m);
  }

  // The directory of k has entries exactly for the slots of pages lo .. hi.
  ghost predicate Spanned(m: Mem, k: nat, lo: nat, hi: nat) {
    forall i :: 0 <= i < SLOTS ==> (PdEntry(m, k, i) != 0 <==> lo < hi && lo / SLOTS <= i <= (hi - 1) / SLOTS)
  }

  // One page more takes a table exactly if its slot is new.
  lemma MapPageCounts(m: Mem, k: nat, owner: map<nat, Role>, reserved: set<nat>, lo: nat, hi: nat, page: nat)
    requires Owned(m, k, {k}, owner, reserved) && Spanned(m, k, lo, hi) && lo <= page <= hi && page < FRAMES
    ensures var need, r := SlotsOf(lo, Upto(hi, page + 1)) - SlotsOf(lo, hi), MapPage(m, k, page, page, USER);
            && (r.Some? <==> |FreePool(m)| >= need)
            && (r.Some? ==> |FreePool(r.value)| == |FreePool(m)| - need && Spanned(r.value, k, lo, Upto(hi, page + 1)))
  {
    hide Owned, PtEntry, DirOf, FreePool, LowestFree, Spanned, WithTable, Store, WellFormed, PdEntry;
    WalkIsEntry(m, k, {k}, owner, reserved, k, page / SLOTS);
    TableIsThere(m, k, lo, hi, page);
    var r := MapPage(m, k, page, page, USER);
    if PdEntry(m, k, page / SLOTS) == 0 {
      PoolIsEmpty(m);
      NoTableNoPage(m, k, page);
      if r.Some? {
        MapPageInstalls(m, k, page, page);
        var t := LowestFree(m.frames.used, POOL_START, POOL_END).value;
        TableInstalled(m, k, {k}, owner, reserved, k, page / SLOTS, t, page % SLOTS, page * PAGE + USER);
        TakenFromPool(m, r.value, t);
        SpannedMore(m, r.value, k, lo, hi, t, page % SLOTS, page * PAGE + USER);
      }
    } else {
      MapPageStores(m, k, page, page);
      StoreIsMapped(m, k, {k}, owner, reserved, k, page, page * PAGE + USER);
      SpannedSame(m, r.value, k, lo, hi, page);
    }
  }

  lemma NoTableNoPage(m: Mem, k: nat, page: nat)
    requires PdEntry(m, k, page / SLOTS) == 0
    ensures MapPage(m, k, page, page, USER).Some? <==> LowestFree(m.frames.used, POOL_START, POOL_END).Some?
  {
  }

  // The slot of the page is new exactly if the page is the next and the first of its slot.
  lemma TableIsThere(m: Mem, k: nat, lo: nat, hi: nat, page: nat)
    requires Spanned(m, k, lo, hi) && lo <= page <= hi && page < FRAMES
    ensures SlotsOf(lo, Upto(hi, page + 1)) - SlotsOf(lo, hi) == if PdEntry(m, k, page / SLOTS) == 0 then 1 else 0
    ensures PdEntry(m, k, page / SLOTS) == 0 ==> page == hi && (lo < hi ==> (hi - 1) / SLOTS < hi / SLOTS)
    ensures SlotsOf(lo, hi) >= 0
  {
    hide PdEntry;
    assert page / SLOTS < SLOTS && lo / SLOTS <= page / SLOTS;
  }

  lemma SpannedMore(m: Mem, m': Mem, k: nat, lo: nat, hi: nat, t: nat, j: nat, w: nat)
    requires Spanned(m, k, lo, hi) && lo <= hi < FRAMES && (lo < hi ==> (hi - 1) / SLOTS < hi / SLOTS)
    requires GrownView(m, m', k, k, hi / SLOTS, t, j, w)
    ensures Spanned(m', k, lo, hi + 1)
  {
    hide PdEntry, PtEntry, DirOf;
    assert lo < hi ==> (hi - 1) / SLOTS + 1 == hi / SLOTS;
    assert lo == hi ==> lo / SLOTS == hi / SLOTS;
  }

  lemma SpannedSame(m: Mem, m': Mem, k: nat, lo: nat, hi: nat, page: nat)
    requires Spanned(m, k, lo, hi) && lo <= page <= hi && page < FRAMES && PdEntry(m, k, page / SLOTS) != 0
    requires SameDirectory(m, m', k) && m'.frames == m.frames
    ensures Spanned(m', k, lo, Upto(hi, page + 1)) && FreePool(m') == FreePool(m)
  {
    hide PdEntry;
    assert page / SLOTS < SLOTS && lo < hi && page / SLOTS <= (hi - 1) / SLOTS;
    if page == hi { assert hi / SLOTS == (hi - 1) / SLOTS; }
  }

  lemma {:induction false} MapRangeCounts(m: Mem, k: nat, owner: map<nat, Role>, reserved: set<nat>, lo: nat, hi: nat, page: nat, count: nat)
    returns (owner': map<nat, Role>)
    requires Owned(m, k, {k}, owner, reserved) && NoUserSlots(m, k) && Identity(m, k, lo, hi) && Spanned(m, k, lo, hi)
    requires lo <= page <= hi <= USER_START && page + count <= USER_START
    ensures var r, hi' := MapRange(m, k, page, page, count), Upto(hi, page + count);
            var need := SlotsOf(lo, hi') - SlotsOf(lo, hi);
            && need >= 0 && (r.Some? <==> |FreePool(m)| >= need)
            && (r.Some? ==>
                  && Owned(r.value, k, {k}, owner', reserved) && NoUserSlots(r.value, k) && Identity(r.value, k, lo, hi')
                  && Spanned(r.value, k, lo, hi') && |FreePool(r.value)| == |FreePool(m)| - need)
  {
    hide Owned, NoUserSlots, MapPage, Identity, Spanned, SlotsOf, FreePool;
    owner' := owner;
    if count > 0 {
      owner' := MapRangeCounts(m, k, owner, reserved, lo, hi, page, count - 1);
      var r1, hi1 := MapRange(m, k, page, page, count - 1), Upto(hi, page + count - 1);
      MoreSlots(lo, hi1, page + count);
      if r1.Some? {
        MapPageCounts(r1.value, k, owner', reserved, lo, hi1, page + count - 1);
        if MapRange(m, k, page, page, count).Some? {
          owner' := MapRangeStep(m, k, owner, reserved, lo, hi, page, count);
        }
      }
    }
  }

  lemma MoreSlots(lo: nat, hi: nat, page: nat)
    requires lo <= page && lo <= hi
    ensures SlotsOf(lo, hi) <= SlotsOf(lo, Upto(hi, page))
  {
  }

  lemma ContextCounts(m: Mem)
    ensures CreateContext(m).Some? <==> |FreePool(m)| >= 2
    ensures CreateContext(m).Some? ==> |FreePool(CreateContext(m).value.0)| == |FreePool(m)| - 2
  {
    hide FreePool, LowestFree, Store;
    PoolIsEmpty(m);
    var free := LowestFree(m.frames.used, POOL_START, POOL_END);
    if free.Some? {
      var m1 := m.(frames := m.frames.Take(free.value));
      TakenFromPool(m, m1, free.value);
      PoolIsEmpty(m1);
      if CreateContext(m).Some? {
        var next := LowestFree(m1.frames.used, POOL_START, POOL_END).value;
        SecondFrame(m, free.value, next);
        TakenFromPool(m1, CreateContext(m).value.0, next);
      }
    }
  }

  lemma SecondFrame(m: Mem, c: nat, d: nat)
    requires LowestFree(m.frames.used, POOL_START, POOL_END) == Some(c)
    requires LowestFree(m.frames.Take(c).used, POOL_START, POOL_END) == Some(d)
    ensures CreateContext(m).Some? && CreateContext(m).value.0.frames == m.frames.Take(c).Take(d)
  {
    hide LowestFree;
  }

  lemma FirstIsEmpty(m: Mem, k: nat)
    requires forall i :: PdEntry(m, k, i) == 0
    ensures Identity(m, k, KERNEL_START, KERNEL_START) && NoUserSlots(m, k) && Spanned(m, k, KERNEL_START, KERNEL_START)
    ensures SlotsOf(KERNEL_START, KERNEL_START) == 0
  {
  }

  // InitVmm runs into an assertion exactly if fewer pool frames are free than the kernel
  // context, its directory and a table for each slot of the kernel's memory take.
  lemma InitVmmSucceedsExactly(m: Mem)
    requires WellFormed(m)
    ensures InitVmm(m).Some? <==> |FreePool(m)| >= 2 + SlotsOf(KERNEL_START, HEAP_END + 1)
  {
    hide Identity, NoUserSlots, MapRange, Owned, CreateContext, Spanned, SlotsOf, FreePool;
    ContextCounts(m);
    FewSlots();
    if CreateContext(m).Some? {
      FirstContextOwned(m);
      var (m0, k) := CreateContext(m).value;
      FirstIsEmpty(m0, k);
      var owner := MapRangeCounts(m0, k, WithContext(map[], k, DirOf(m0, k)), m.frames.used, KERNEL_START, KERNEL_START, KERNEL_START, POOL_START - KERNEL_START + 1);
      var r1 := MapRange(m0, k, KERNEL_START, KERNEL_START, POOL_START - KERNEL_START + 1);
      if r1.Some? {
        owner := MapRangeCounts(r1.value, k, owner, m.frames.used, KERNEL_START, POOL_START + 1, POOL_START, POOL_END - POOL_START + 1);
        var r2 := MapRange(r1.value, k, POOL_START, POOL_START, POOL_END - POOL_START + 1);
        if r2.Some? {
          owner := MapRangeCounts(r2.value, k, owner, m.frames.used, KERNEL_START, POOL_END + 1, HEAP_START, HEAP_END - HEAP_START + 1);
        }
      }
    }
  }

  lemma FewSlots()
    ensures 0 == SlotsOf(KERNEL_START, KERNEL_START) <= SlotsOf(KERNEL_START, POOL_START + 1) <= SlotsOf(KERNEL_START, POOL_END + 1) <= SlotsOf(KERNEL_START, HEAP_END + 1)
  {
  }
}
