/**
 When there is enough memory (hal.x86/vmm.c:141-152): a request returns exactly if enough
 frames for users and enough pool frames for tables are free when it is made.
 */
module Room {
  import opened Machine
  import opened Frames
  import opened Paging
  import opened Ownership
  import opened Translation
  import opened Boot

  // The frames that vmm_alloc hands out and that are free.
  function FreeUser(m: Mem): set<nat> {
    set f | HEAP_END <= f < FRAMES && f !in m.frames.used
  }

  // The directory slots of n pages from `page` on that have no table in c yet.
  function NewSlots(m: Mem, c: nat, page: nat, n: nat): set<nat> {
    set i: nat | i < SLOTS && n > 0 && page / SLOTS <= i <= (page + n - 1) / SLOTS && PdEntry(m, c, i) == 0
  }

  // ----- one page

  lemma UserFramesEmpty(m: Mem)
    ensures LowestFree(m.frames.used, HEAP_END, FRAMES).None? <==> |FreeUser(m)| == 0
    ensures LowestFree(m.frames.used, HEAP_END, FRAMES).Some? ==> LowestFree(m.frames.used, HEAP_END, FRAMES).value in FreeUser(m)
  {
    var free := LowestFree(m.frames.used, HEAP_END, FRAMES);
    assert free.None? ==> FreeUser(m) == {};
    assert free.Some? ==> free.value in FreeUser(m);
  }

  lemma TakenFromUsers(m: Mem, m': Mem, f: nat)
    requires f in FreeUser(m) && m'.frames == m.frames.Take(f)
    ensures |FreeUser(m')| == |FreeUser(m)| - 1 && FreePool(m') == FreePool(m)
  {
    assert FreeUser(m') == FreeUser(m) - {f};
  }

  lemma PoolIsNoUsers(m: Mem, m': Mem, t: nat)
    requires InPool(t) && m'.frames == m.frames.Take(t)
    ensures FreeUser(m') == FreeUser(m)
  {
  }

  // The directories after one turn: c has a table for the page, the others are as before.
  ghost predicate OneSlotMore(m: Mem, m': Mem, live: set<nat>, c: nat, i: nat) {
    && (forall x :: 0 <= x < SLOTS ==> (PdEntry(m', c, x) == 0 <==> PdEntry(m, c, x) == 0 && x != i))
    && (forall a <- live :: a != c ==> SameDirectory(m, m', a))
  }

  // One turn of vmm_alloc returns exactly if a frame and, where one is missing, a table can
  // be had.
  lemma AllocPageCounts(m: Mem, k: nat, live: set<nat>, owner: map<nat, Role>, reserved: set<nat>, c: nat, page: nat)
    requires Owned(m, k, live, owner, reserved) && c in live && c != k && page < FRAMES
    ensures var need, r := if PdEntry(m, c, page / SLOTS) == 0 then 1 else 0, AllocPage(m, c, page);
            && (r.Some? <==> |FreeUser(m)| >= 1 && |FreePool(m)| >= need)
            && (r.Some? ==>
                  && |FreeUser(r.value)| == |FreeUser(m)| - 1 && |FreePool(r.value)| == |FreePool(m)| - need
                  && OneSlotMore(m, r.value, live, c, page / SLOTS))
  {
    hide Owned, FreeUser, FreePool, LowestFree, PdEntry, MapPage, OneSlotMore;
    UserFramesEmpty(m);
    var free := LowestFree(m.frames.used, HEAP_END, FRAMES);
    if free.Some? {
      var f := free.value;
      var m1 := m.(frames := m.frames.Take(f));
      IsFreeUser(m, f);
      TakenFromUsers(m, m1, f);
      TakeKeepsOwned(m, k, live, owner, reserved, f);
      SameEntries(m, m1);
      MapPageCounts(m1, k, live, owner, reserved, c, page, f);
      if AllocPage(m, c, page).Some? { SlotMoreAfterTake(m, m1, AllocPage(m, c, page).value, live, c, page / SLOTS); }
    }
  }

  lemma IsFreeUser(m: Mem, f: nat)
    requires f in FreeUser(m)
    ensures HEAP_END <= f < FRAMES && f !in m.frames.used
  {
  }

  lemma SameEntries(m: Mem, m1: Mem)
    requires m1.pool == m.pool
    ensures forall a, x :: PdEntry(m1, a, x) == PdEntry(m, a, x)
    ensures forall a :: SameDirectory(m, m1, a)
  {
  }

  lemma SlotMoreAfterTake(m: Mem, m1: Mem, m': Mem, live: set<nat>, c: nat, i: nat)
    requires m1.pool == m.pool && OneSlotMore(m1, m', live, c, i)
    ensures OneSlotMore(m, m', live, c, i)
  {
    SameEntries(m, m1);
    hide PdEntry;
    forall a <- live | a != c ensures SameDirectory(m, m', a) { SameDirectoryTwice(m, m1, m', a); }
  }

  lemma MapPageCounts(m: Mem, k: nat, live: set<nat>, owner: map<nat, Role>, reserved: set<nat>, c: nat, page: nat, f: nat)
    requires Owned(m, k, live, owner, reserved) && c in live && c != k && page < FRAMES
    ensures var need, r := if PdEntry(m, c, page / SLOTS) == 0 then 1 else 0, MapPage(m, c, page, f, USER);
            && (r.Some? <==> |FreePool(m)| >= need)
            && (r.Some? ==>
                  && |FreeUser(r.value)| == |FreeUser(m)| && |FreePool(r.value)| == |FreePool(m)| - need
                  && OneSlotMore(m, r.value, live, c, page / SLOTS))
  {
    hide Owned, PtEntry, DirOf, FreePool, FreeUser, LowestFree, WithTable, Store, WellFormed, PdEntry, GrownView, SameDirectory, SamePrivateTables, OneSlotMore;
    WalkIsEntry(m, k, live, owner, reserved, c, page / SLOTS);
    var i, j, w, r := page / SLOTS, page % SLOTS, f * PAGE + USER, MapPage(m, c, page, f, USER);
    if PdEntry(m, c, i) == 0 {
      PoolIsEmpty(m);
      TableOrNone(m, c, page, f);
      if r.Some? {
        MapPageInstalls(m, c, page, f);
        var t := LowestFree(m.frames.used, POOL_START, POOL_END).value;
        TableInstalled(m, k, live, owner, reserved, c, i, t, j, w);
        TakenFromPool(m, r.value, t);
        PoolIsNoUsers(m, r.value, t);
        SlotInstalled(m, r.value, k, live, c, i, t, j, w);
      }
    } else {
      MapPageStores(m, c, page, f);
      SlotKept(m, r.value, k, live, owner, reserved, c, i, j, w);
      SameFrames(m, r.value);
    }
  }

  lemma SameFrames(m: Mem, m': Mem)
    requires m'.frames == m.frames
    ensures FreeUser(m') == FreeUser(m) && FreePool(m') == FreePool(m)
  {
  }

  lemma TableOrNone(m: Mem, c: nat, page: nat, f: nat)
    requires PdEntry(m, c, page / SLOTS) == 0
    ensures MapPage(m, c, page, f, USER).Some? <==> LowestFree(m.frames.used, POOL_START, POOL_END).Some?
  {
  }

  lemma SlotInstalled(m: Mem, m': Mem, k: nat, live: set<nat>, c: nat, i: nat, t: nat, j: nat, w: nat)
    requires GrownView(m, m', k, c, i, t, j, w) && forall a <- live :: a != c ==> SameDirectory(m, m', a)
    ensures OneSlotMore(m, m', live, c, i)
  {
    hide PtEntry, DirOf, SameDirectory;
    assert t * PAGE + USER != 0;
  }

  lemma SlotKept(m: Mem, m': Mem, k: nat, live: set<nat>, owner: map<nat, Role>, reserved: set<nat>, c: nat, i: nat, j: nat, w: nat)
    requires Owned(m, k, live, owner, reserved) && c in live && i < SLOTS && j < SLOTS && PdEntry(m, c, i) != 0
    requires m' == Store(m, PdEntry(m, c, i) / PAGE, j, w)
    ensures OneSlotMore(m, m', live, c, i)
  {
    hide TableOk, PtEntry, DirOf, WellFormed, Plays, PdEntry;
    WalkIsEntry(m, k, live, owner, reserved, c, i);
    var a0 := if PdEntry(m, k, i) != 0 then k else c;
    TableStore(m, k, live, owner, reserved, a0, i, j, w);
    hide Owned, Store;
    forall a <- live ensures SameDirectory(m, m', a) { assert SameViewBut(m, m', k, a, a0, i, j); }
    assert SameDirectory(m, m', c);
  }

  // ----- a request

  lemma NewSlotsOneMore(m: Mem, c: nat, page: nat, n: nat)
    requires page + n < FRAMES
    ensures var i, more, slots := (page + n) / SLOTS, NewSlots(m, c, page, n + 1), NewSlots(m, c, page, n);
            |more| == |slots| + if i !in slots && PdEntry(m, c, i) == 0 then 1 else 0
    ensures forall x :: x in NewSlots(m, c, page, n + 1) <==> x in NewSlots(m, c, page, n) || (x == (page + n) / SLOTS && PdEntry(m, c, x) == 0)
  {
    hide PdEntry;
    var i, more, slots := (page + n) / SLOTS, NewSlots(m, c, page, n + 1), NewSlots(m, c, page, n);
    assert n > 0 ==> i == (page + n - 1) / SLOTS || i == (page + n - 1) / SLOTS + 1;
    assert n == 0 ==> i == page / SLOTS;
    assert more == if i !in slots && PdEntry(m, c, i) == 0 then slots + {i} else slots;
  }

  // n turns of vmm_alloc return exactly if n frames are free for users, and a pool frame for
  // each directory slot that has no table yet.
  lemma {:induction false} AllocPagesCounts(m: Mem, k: nat, live: set<nat>, owner: map<nat, Role>, reserved: set<nat>, c: nat, page: nat, n: nat)
    requires Owned(m, k, live, owner, reserved) && c in live && c != k && page + n <= FRAMES
    ensures var r := AllocPages(m, c, page, n);
            && (r.Some? <==> n <= |FreeUser(m)| && |NewSlots(m, c, page, n)| <= |FreePool(m)|)
            && (r.Some? ==> SlotsAfter(m, r.value, live, c, page, n))
  {
    hide Owned, AllocPage, NewSlots, FreeUser, FreePool, SlotsAfter;
    if n == 0 {
      NothingNew(m, live, c, page);
    } else {
      AllocPagesCounts(m, k, live, owner, reserved, c, page, n - 1);
      NewSlotsOneMore(m, c, page, n - 1);
      if AllocPages(m, c, page, n - 1).Some? {
        var m1 := AllocPages(m, c, page, n - 1).value;
        var _, owner1 := AllocPagesStep(m, k, live, owner, reserved, c, page, n - 1);
        AllocPageCounts(m1, k, live, owner1, reserved, c, page + n - 1);
        SlotAt(m, m1, live, c, page, n - 1);
        if AllocPages(m, c, page, n).Some? { SlotsOneMore(m, m1, AllocPages(m, c, page, n).value, live, c, page, n - 1); }
      }
    }
  }

  // The directories and the free frames after n turns.
  ghost predicate SlotsAfter(m: Mem, m': Mem, live: set<nat>, c: nat, page: nat, n: nat) {
    && |FreeUser(m')| == |FreeUser(m)| - n && |FreePool(m')| == |FreePool(m)| - |NewSlots(m, c, page, n)|
    && (forall x :: 0 <= x < SLOTS ==> (PdEntry(m', c, x) == 0 <==> PdEntry(m, c, x) == 0 && x !in NewSlots(m, c, page, n)))
    && (forall a <- live :: a != c ==> SameDirectory(m, m', a))
  }

  lemma NothingNew(m: Mem, live: set<nat>, c: nat, page: nat)
    ensures NewSlots(m, c, page, 0) == {} && SlotsAfter(m, m, live, c, page, 0)
  {
  }

  lemma SlotAt(m: Mem, m1: Mem, live: set<nat>, c: nat, page: nat, n: nat)
    requires SlotsAfter(m, m1, live, c, page, n) && page + n < FRAMES
    ensures var i := (page + n) / SLOTS; PdEntry(m1, c, i) == 0 <==> PdEntry(m, c, i) == 0 && i !in NewSlots(m, c, page, n)
    ensures |FreeUser(m1)| == |FreeUser(m)| - n && |FreePool(m1)| == |FreePool(m)| - |NewSlots(m, c, page, n)|
  {
    hide PdEntry, NewSlots, FreeUser, FreePool;
  }

  lemma SlotsOneMore(m: Mem, m1: Mem, m': Mem, live: set<nat>, c: nat, page: nat, n: nat)
    requires SlotsAfter(m, m1, live, c, page, n) && page + n < FRAMES && OneSlotMore(m1, m', live, c, (page + n) / SLOTS)
    requires |FreeUser(m')| == |FreeUser(m1)| - 1
    requires |FreePool(m')| == |FreePool(m1)| - if PdEntry(m1, c, (page + n) / SLOTS) == 0 then 1 else 0
    ensures SlotsAfter(m, m', live, c, page, n + 1)
  {
    hide PdEntry, FreeUser, FreePool, NewSlots, SameDirectory;
    NewSlotsOneMore(m, c, page, n);
    forall a <- live | a != c ensures SameDirectory(m, m', a) { SameDirectoryTwice(m, m1, m', a); }
  }
}
