/**
 What the page tables mean: a map from pages to frames, and how map_page and vmm_alloc
 change it (hal.x86/vmm.c:85-152).
 */
module Translation {
  import opened Machine
  import opened Frames
  import opened Paging
  import opened Ownership

  // The address space of c as a plain map from page to (frame, flags).
  ghost function Space(m: Mem, c: nat): map<nat, (nat, nat)> {
    map p: nat | 0 <= p < FRAMES && Walk(m, c, p) % 2 == 1 :: (Walk(m, c, p) / PAGE, Walk(m, c, p) % PAGE)
  }

  // A page in a directory slot that the kernel does not use.
  predicate UserPage(m: Mem, k: nat, page: nat) {
    page < FRAMES && PdEntry(m, k, page / SLOTS) == 0
  }

  // Word w is now the entry of page `page` in c, and, where the table is the kernel's, in
  // every context; every other entry of every context is as before.
  ghost predicate Mapped(m: Mem, m': Mem, k: nat, live: set<nat>, c: nat, page: nat, w: nat) {
    && (forall a, p :: a in live && 0 <= p < FRAMES && p != page ==> Walk(m', a, p) == Walk(m, a, p))
    && (forall a :: a in live ==> Walk(m', a, page) == if a == c || !UserPage(m, k, page) then w else Walk(m, a, page))
  }

  lemma WalkIsEntry(m: Mem, k: nat, live: set<nat>, owner: map<nat, Role>, reserved: set<nat>, a: nat, i: nat)
    requires Owned(m, k, live, owner, reserved) && a in live && i < SLOTS
    ensures PdEntry(m, a, i) != 0 ==> PdEntry(m, a, i) % 2 == 1
    ensures PdEntry(m, k, i) != 0 ==> PdEntry(m, a, i) == PdEntry(m, k, i) && Private(m, k, k, i)
    ensures PdEntry(m, a, i) != 0 && PdEntry(m, k, i) == 0 ==> Private(m, k, a, i)
  {
    assert ContextOk(m, k, owner, a) && SharesKernel(m, k, a, i) && TableOk(m, k, owner, a, i);
    assert ContextOk(m, k, owner, k) && TableOk(m, k, owner, k, i);
  }

  // Through equal directory entries, a context reads the kernel's table.
  lemma ViaKernel(m: Mem, m': Mem, k: nat, a: nat, x: nat, y: nat)
    ensures PdEntry(m, a, x) == PdEntry(m, k, x) ==> PtEntry(m, a, x, y) == PtEntry(m, k, x, y)
    ensures PdEntry(m', a, x) == PdEntry(m', k, x) ==> PtEntry(m', a, x, y) == PtEntry(m', k, x, y)
  {
  }

  // A store into entry j of the table in slot i of c, present already.
  lemma StoreIsMapped(m: Mem, k: nat, live: set<nat>, owner: map<nat, Role>, reserved: set<nat>, c: nat, page: nat, w: nat)
    requires Owned(m, k, live, owner, reserved) && c in live && page < FRAMES && PdEntry(m, c, page / SLOTS) != 0
    ensures var m' := Store(m, PdEntry(m, c, page / SLOTS) / PAGE, page % SLOTS, w);
            Mapped(m, m', k, live, c, page, w) && SameDirectory(m, m', k)
  {
    hide TableOk, PtEntry, DirOf, WellFormed, Plays;
    var i, j := page / SLOTS, page % SLOTS;
    var m' := Store(m, PdEntry(m, c, i) / PAGE, j, w);
    WalkIsEntry(m, k, live, owner, reserved, c, i);
    var a0 := if PdEntry(m, k, i) != 0 then k else c;
    TableStore(m, k, live, owner, reserved, a0, i, j, w);
    hide Owned, Store, TableOk;
    forall a, p | a in live && 0 <= p < FRAMES
      ensures Walk(m', a, p) == if p == page && (a == c || PdEntry(m, k, i) != 0) then w else Walk(m, a, p)
    {
      WalkIsEntry(m, k, live, owner, reserved, a, p / SLOTS);
      assert SameViewBut(m, m', k, a, a0, i, j) && SameViewBut(m, m', k, k, a0, i, j);
      SamePage(page, p);
      ViaKernel(m, m', k, a, p / SLOTS, p % SLOTS);
    }
  }

  lemma InstallIsMapped(m: Mem, k: nat, live: set<nat>, owner: map<nat, Role>, reserved: set<nat>, c: nat, page: nat, t: nat, w: nat)
    requires Owned(m, k, live, owner, reserved) && c in live && page < FRAMES && PdEntry(m, c, page / SLOTS) == 0
    requires InPool(t) && t !in m.frames.used && (c != k || live == {k})
    ensures Mapped(m, WithTable(m, c, page / SLOTS, t, page % SLOTS, w), k, live, c, page, w)
  {
    hide Owned, WithTable, TableOk, PtEntry, PdEntry, DirOf, Store, WellFormed, GrownView, SameDirectory, SamePrivateTables, Walk;
    var i, j := page / SLOTS, page % SLOTS;
    var m' := WithTable(m, c, i, t, j, w);
    TableInstalled(m, k, live, owner, reserved, c, i, t, j, w);
    KernelOrUser(m, k, live, owner, reserved, c, page);
    forall a, p | a in live && 0 <= p < FRAMES
      ensures Walk(m', a, p) == if p == page && a == c then w else Walk(m, a, p)
    {
      if a == c {
        GrownWalk(m, m', k, live, owner, reserved, c, page, t, w, p);
      } else {
        SameTablesSameWalk(m, m', k, live, owner, reserved, a, p);
      }
    }
  }

  lemma KernelOrUser(m: Mem, k: nat, live: set<nat>, owner: map<nat, Role>, reserved: set<nat>, c: nat, page: nat)
    requires Owned(m, k, live, owner, reserved) && c in live && page < FRAMES && PdEntry(m, c, page / SLOTS) == 0
    ensures k in live && UserPage(m, k, page)
  {
    hide PdEntry, ContextOk, WellFormed;
    WalkIsEntry(m, k, live, owner, reserved, c, page / SLOTS);
  }

  // A context whose directory and private tables, and the kernel's, are the same.
  lemma SameTablesSameWalk(m: Mem, m': Mem, k: nat, live: set<nat>, owner: map<nat, Role>, reserved: set<nat>, a: nat, p: nat)
    requires Owned(m, k, live, owner, reserved) && a in live && p < FRAMES
    requires SameDirectory(m, m', a) && SamePrivateTables(m, m', k, a)
    requires SameDirectory(m, m', k) && SamePrivateTables(m, m', k, k)
    ensures Walk(m', a, p) == Walk(m, a, p)
  {
    hide Owned, PdEntry, PtEntry, DirOf;
    WalkIsEntry(m, k, live, owner, reserved, a, p / SLOTS);
    ViaKernel(m, m', k, a, p / SLOTS, p % SLOTS);
  }

  // The context that grew: a walk through the new table, or through one it had.
  lemma GrownWalk(m: Mem, m': Mem, k: nat, live: set<nat>, owner: map<nat, Role>, reserved: set<nat>, c: nat, page: nat, t: nat, w: nat, p: nat)
    requires Owned(m, k, live, owner, reserved) && c in live && page < FRAMES && p < FRAMES && PdEntry(m, c, page / SLOTS) == 0
    requires GrownView(m, m', k, c, page / SLOTS, t, page % SLOTS, w)
    requires k != c ==> SameDirectory(m, m', k) && SamePrivateTables(m, m', k, k)
    ensures Walk(m', c, p) == if p == page then w else Walk(m, c, p)
  {
    hide Owned, PdEntry, PtEntry, DirOf;
    SamePage(page, p);
    EntryParts(t);
    WalkIsEntry(m, k, live, owner, reserved, c, p / SLOTS);
    ViaKernel(m, m', k, c, p / SLOTS, p % SLOTS);
  }

  lemma SamePage(page: nat, p: nat)
    ensures p == page <==> p / SLOTS == page / SLOTS && p % SLOTS == page % SLOTS
    ensures p < FRAMES ==> p / SLOTS < SLOTS
  {
  }

  lemma PageParts(i: nat, y: nat)
    requires i < SLOTS && y < SLOTS
    ensures var p := i * SLOTS + y; p < FRAMES && p / SLOTS == i && p % SLOTS == y
  {
  }

  lemma EntryParts(f: nat)
    ensures var w := f * PAGE + USER; w != 0 && w % 2 == 1 && w / PAGE == f && w % PAGE == USER
  {
  }

  // ----- map_page and vmm_alloc on a user context

  // How map_page changes the owners when it maps page `page` of c to frame f, used already.
  // Only the frame mapped there before loses its owner; f and a new table frame get one,
  // unless the table is the kernel's.
  ghost predicate OwnersOfMap(m: Mem, m': Mem, k: nat, owner: map<nat, Role>, owner': map<nat, Role>, c: nat, page: nat, f: nat) {
    && (forall g <- owner' :: Has(owner, g, owner'[g]) || (owner'[g].c == c && (g == f || g !in m.frames.used)))
    && (forall g <- owner :: Has(owner', g, owner[g]) || (UserPage(m, k, page) && Walk(m, c, page) != 0 && g == Walk(m, c, page) / PAGE))
    && (UserPage(m, k, page) ==> f in owner' && forall g <- m'.frames.used :: g in m.frames.used || g in owner')
    && (!UserPage(m, k, page) ==> owner' == owner && m'.frames == m.frames)
  }

  // map_page claims at most one frame, for a table.
  ghost predicate ClaimedTable(m: Mem, m': Mem) {
    m'.frames == m.frames || exists t :: InPool(t) && t !in m.frames.used && m'.frames == m.frames.Take(t)
  }

  lemma MapPageInstalls(m: Mem, c: nat, page: nat, f: nat)
    requires PdEntry(m, c, page / SLOTS) == 0 && MapPage(m, c, page, f, USER).Some?
    ensures var free := LowestFree(m.frames.used, POOL_START, POOL_END);
            free.Some? && MapPage(m, c, page, f, USER).value == WithTable(m, c, page / SLOTS, free.value, page % SLOTS, f * PAGE + USER)
  {
  }

  lemma MapPageStores(m: Mem, c: nat, page: nat, f: nat)
    requires PdEntry(m, c, page / SLOTS) % 2 == 1
    ensures MapPage(m, c, page, f, USER) == Some(Store(m, PdEntry(m, c, page / SLOTS) / PAGE, page % SLOTS, f * PAGE + USER))
    ensures MapPage(m, c, page, f, USER).value.frames == m.frames
  {
  }

  lemma MapNewOwned(m: Mem, k: nat, live: set<nat>, owner: map<nat, Role>, reserved: set<nat>, c: nat, i: nat, t: nat, j: nat, f: nat)
    requires Owned(m, k, live, owner, reserved) && c in live && c != k && i < SLOTS && j < SLOTS && PdEntry(m, c, i) == 0
    requires InPool(t) && t !in m.frames.used
    requires HEAP_END <= f < FRAMES && f in m.frames.used && f !in owner && f !in reserved
    ensures var m' := WithTable(m, c, i, t, j, f * PAGE + USER);
            Owned(m', k, live, WithPageOwner(owner, c, i, t, j, f), reserved) && m'.frames == m.frames.Take(t)
            && SameDirectory(m, m', k)
  {
    TableInstalled(m, k, live, owner, reserved, c, i, t, j, f * PAGE + USER);
    hide ContextOk, Plays, WithTable, GrownView, SamePrivateTables, WellFormed;
    GrownOwned(m, WithTable(m, c, i, t, j, f * PAGE + USER), k, live, owner, reserved, c, i, t, j, f);
  }

  lemma MapNewOwners(m: Mem, m': Mem, k: nat, live: set<nat>, owner: map<nat, Role>, reserved: set<nat>, c: nat, page: nat, t: nat, f: nat)
    requires Owned(m, k, live, owner, reserved) && c in live && f !in owner && InPool(t) && t !in m.frames.used && HEAP_END <= f
    requires page < FRAMES && PdEntry(m, c, page / SLOTS) == 0 && m'.frames == m.frames.Take(t)
    ensures OwnersOfMap(m, m', k, owner, WithPageOwner(owner, c, page / SLOTS, t, page % SLOTS, f), c, page, f)
  {
    hide ContextOk, Plays, WellFormed, Walk, PdEntry, PtEntry, DirOf;
    WalkIsEntry(m, k, live, owner, reserved, c, page / SLOTS);
  }

  lemma MapPrivateOwners(m: Mem, m': Mem, k: nat, live: set<nat>, owner: map<nat, Role>, reserved: set<nat>, c: nat, page: nat, f: nat)
    requires Owned(m, k, live, owner, reserved) && c in live && page < FRAMES && f !in owner && m'.frames == m.frames
    requires Private(m, k, c, page / SLOTS) && c != k
    ensures OwnersOfMap(m, m', k, owner, Remapped(owner, c, page / SLOTS, page % SLOTS, f), c, page, f)
  {
    hide Owned, Walk, PdEntry, PtEntry, Private, DirOf, Plays;
    var i, j := page / SLOTS, page % SLOTS;
    PrivateIsUser(m, k, c, page);
    forall g | g in owner && owner[g] == Page(c, i, j) ensures Walk(m, c, page) / PAGE == g && Walk(m, c, page) != 0 {
      PageOwnerIsMapped(m, k, live, owner, reserved, c, page, g);
    }
  }

  lemma PrivateIsUser(m: Mem, k: nat, c: nat, page: nat)
    requires page < FRAMES && Private(m, k, c, page / SLOTS) && c != k
    ensures UserPage(m, k, page)
  {
  }

  lemma PageOwnerIsMapped(m: Mem, k: nat, live: set<nat>, owner: map<nat, Role>, reserved: set<nat>, c: nat, page: nat, g: nat)
    requires Owned(m, k, live, owner, reserved) && c in live && page < FRAMES && Has(owner, g, Page(c, page / SLOTS, page % SLOTS))
    ensures Walk(m, c, page) / PAGE == g && Walk(m, c, page) != 0
  {
    hide ContextOk, PdEntry, PtEntry, WellFormed;
    WalkIsEntry(m, k, live, owner, reserved, c, page / SLOTS);
    assert Plays(m, k, g, owner[g]);
  }

  // What one map_page does to a user context: the owners, the translations, the frames claimed.
  ghost predicate MappedFor(m: Mem, m': Mem, k: nat, live: set<nat>, owner: map<nat, Role>, owner': map<nat, Role>, reserved: set<nat>, c: nat, page: nat, f: nat) {
    && Owned(m', k, live, owner', reserved)
    && Mapped(m, m', k, live, c, page, f * PAGE + USER) && SameDirectory(m, m', k)
    && ClaimedTable(m, m')
    && OwnersOfMap(m, m', k, owner, owner', c, page, f)
  }

  lemma MapNewStep(m: Mem, k: nat, live: set<nat>, owner: map<nat, Role>, reserved: set<nat>, c: nat, page: nat, t: nat, f: nat)
    returns (owner': map<nat, Role>)
    requires Owned(m, k, live, owner, reserved) && c in live && c != k && page < FRAMES && PdEntry(m, c, page / SLOTS) == 0
    requires InPool(t) && t !in m.frames.used
    requires HEAP_END <= f < FRAMES && f in m.frames.used && f !in owner && f !in reserved
    ensures MappedFor(m, WithTable(m, c, page / SLOTS, t, page % SLOTS, f * PAGE + USER), k, live, owner, owner', reserved, c, page, f)
  {
    var i, j, w := page / SLOTS, page % SLOTS, f * PAGE + USER;
    var m' := WithTable(m, c, i, t, j, w);
    owner' := WithPageOwner(owner, c, i, t, j, f);
    hide Owned, WithTable, WithPageOwner, Mapped, OwnersOfMap, SameDirectory, PdEntry;
    InstallIsMapped(m, k, live, owner, reserved, c, page, t, w);
    MapNewOwned(m, k, live, owner, reserved, c, i, t, j, f);
    MapNewOwners(m, m', k, live, owner, reserved, c, page, t, f);
  }

  lemma MapOldStep(m: Mem, k: nat, live: set<nat>, owner: map<nat, Role>, reserved: set<nat>, c: nat, page: nat, f: nat)
    returns (owner': map<nat, Role>)
    requires Owned(m, k, live, owner, reserved) && c in live && c != k && page < FRAMES && PdEntry(m, c, page / SLOTS) != 0
    requires HEAP_END <= f < FRAMES && f in m.frames.used && f !in owner && f !in reserved
    ensures MappedFor(m, Store(m, PdEntry(m, c, page / SLOTS) / PAGE, page % SLOTS, f * PAGE + USER), k, live, owner, owner', reserved, c, page, f)
  {
    var i, j, w := page / SLOTS, page % SLOTS, f * PAGE + USER;
    var m' := Store(m, PdEntry(m, c, i) / PAGE, j, w);
    WalkIsEntry(m, k, live, owner, reserved, c, i);
    StoreIsMapped(m, k, live, owner, reserved, c, page, w);
    assert m'.frames == m.frames;
    hide Owned, Store, Mapped, SameDirectory, PdEntry, Remapped, PtEntry, Walk;
    if PdEntry(m, k, i) != 0 {
      MapShared(m, k, live, owner, reserved, i, j, w);
      owner' := owner;
    } else {
      MapPrivate(m, k, live, owner, reserved, c, i, j, f);
      owner' := Remapped(owner, c, i, j, f);
      MapPrivateOwners(m, m', k, live, owner, reserved, c, page, f);
    }
  }

  lemma MapPageStep(m: Mem, k: nat, live: set<nat>, owner: map<nat, Role>, reserved: set<nat>, c: nat, page: nat, f: nat)
    returns (owner': map<nat, Role>)
    requires Owned(m, k, live, owner, reserved) && c in live && c != k && page < FRAMES
    requires HEAP_END <= f < FRAMES && f in m.frames.used && f !in owner && f !in reserved
    requires MapPage(m, c, page, f, USER).Some?
    ensures MappedFor(m, MapPage(m, c, page, f, USER).value, k, live, owner, owner', reserved, c, page, f)
  {
    WalkIsEntry(m, k, live, owner, reserved, c, page / SLOTS);
    if PdEntry(m, c, page / SLOTS) == 0 {
      MapPageInstalls(m, c, page, f);
      owner' := MapNewStep(m, k, live, owner, reserved, c, page, LowestFree(m.frames.used, POOL_START, POOL_END).value, f);
    } else {
      MapPageStores(m, c, page, f);
      owner' := MapOldStep(m, k, live, owner, reserved, c, page, f);
    }
  }

  // ----- vmm_alloc

  // The bitmap grew by the frames fs and by pool frames for tables; the ledger is kept.
  ghost predicate Claimed(m: Mem, m': Mem, fs: set<nat>) {
    && m.frames.used + fs <= m'.frames.used
    && (forall g <- m'.frames.used :: g in m.frames.used || g in fs || InPool(g))
    && m'.frames.Ledger() == m.frames.Ledger()
  }

  lemma TakeLedger(m: Mem, m': Mem, m'': Mem, f: nat)
    requires f !in m.frames.used && m'.frames == m.frames.Take(f) && ClaimedTable(m', m'')
    ensures Claimed(m, m'', {f})
  {
    LedgerKeptExactlyByLegalUse(m.frames, f);
    if m''.frames != m'.frames {
      var t :| InPool(t) && t !in m'.frames.used && m''.frames == m'.frames.Take(t);
      LedgerKeptExactlyByLegalUse(m'.frames, t);
    }
  }

  lemma MappedAfterTake(m: Mem, m': Mem, f: nat, k: nat, live: set<nat>, c: nat, page: nat, w: nat)
    requires var m1 := m.(frames := m.frames.Take(f)); Mapped(m1, m', k, live, c, page, w) && SameDirectory(m1, m', k)
    ensures Mapped(m, m', k, live, c, page, w) && SameDirectory(m, m', k)
  {
    var m1 := m.(frames := m.frames.Take(f));
    assert forall a, p :: Walk(m1, a, p) == Walk(m, a, p);
    assert forall p :: UserPage(m1, k, p) == UserPage(m, k, p);
    assert forall x :: PdEntry(m1, k, x) == PdEntry(m, k, x);
    assert DirOf(m1, k) == DirOf(m, k);
  }

  // How vmm_alloc changes the owners when it maps page `page` of c to frame f, free before.
  ghost predicate OwnersOfAlloc(m: Mem, m': Mem, k: nat, owner: map<nat, Role>, owner': map<nat, Role>, c: nat, page: nat, f: nat) {
    && (forall g <- owner' :: Has(owner, g, owner'[g]) || (owner'[g].c == c && g !in m.frames.used))
    && (forall g <- owner :: Has(owner', g, owner[g]) || (UserPage(m, k, page) && Walk(m, c, page) != 0 && g == Walk(m, c, page) / PAGE))
    && (UserPage(m, k, page) ==> forall g <- m'.frames.used :: g in m.frames.used || g in owner')
    && (!UserPage(m, k, page) ==> owner' == owner && m'.frames.used == m.frames.used + {f})
  }

  lemma OwnersAfterTake(m: Mem, m': Mem, f: nat, k: nat, owner: map<nat, Role>, owner': map<nat, Role>, c: nat, page: nat)
    requires var m1 := m.(frames := m.frames.Take(f)); OwnersOfMap(m1, m', k, owner, owner', c, page, f)
    requires f !in m.frames.used
    ensures OwnersOfAlloc(m, m', k, owner, owner', c, page, f)
  {
    var m1 := m.(frames := m.frames.Take(f));
    assert UserPage(m1, k, page) == UserPage(m, k, page) && Walk(m1, c, page) == Walk(m, c, page);
    hide Walk, UserPage;
  }

  // The effect of mapping page `page` of c to frame f, which was free before.
  ghost predicate PageAdded(m: Mem, m': Mem, k: nat, live: set<nat>, owner: map<nat, Role>, owner': map<nat, Role>, reserved: set<nat>, c: nat, page: nat, f: nat) {
    && f !in m.frames.used && HEAP_END <= f < FRAMES
    && Owned(m', k, live, owner', reserved)
    && Mapped(m, m', k, live, c, page, f * PAGE + USER) && SameDirectory(m, m', k)
    && Claimed(m, m', {f})
    && OwnersOfAlloc(m, m', k, owner, owner', c, page, f)
  }

  lemma AllocPageStep(m: Mem, k: nat, live: set<nat>, owner: map<nat, Role>, reserved: set<nat>, c: nat, page: nat)
    returns (f: nat, owner': map<nat, Role>)
    requires Owned(m, k, live, owner, reserved) && c in live && c != k && page < FRAMES
    requires AllocPage(m, c, page).Some?
    ensures PageAdded(m, AllocPage(m, c, page).value, k, live, owner, owner', reserved, c, page, f)
    ensures LowestFree(m.frames.used, HEAP_END, FRAMES) == Some(f)
  {
    f := LowestFree(m.frames.used, HEAP_END, FRAMES).value;
    var m1 := m.(frames := m.frames.Take(f));
    var m' := MapPage(m1, c, page, f, USER).value;
    hide Owned, MapPage, Walk, PdEntry, Claimed, ClaimedTable, Mapped, SameDirectory, OwnersOfMap, OwnersOfAlloc;
    TakeKeepsOwned(m, k, live, owner, reserved, f);
    owner' := MapPageStep(m1, k, live, owner, reserved, c, page, f);
    TakeLedger(m, m1, m', f);
    MappedAfterTake(m, m', f, k, live, c, page, f * PAGE + USER);
    OwnersAfterTake(m, m', f, k, owner, owner', c, page);
  }

  // ----- the whole loop

  // Pages page .. page + |fs| of c are mapped to the frames fs, and in a slot of the
  // kernel they are so in every context; every other entry of every context is as before.
  ghost predicate MappedRange(m: Mem, m': Mem, k: nat, live: set<nat>, c: nat, page: nat, fs: seq<nat>) {
    && (forall a, p :: a in live && 0 <= p < FRAMES && !(page <= p < page + |fs|) ==> Walk(m', a, p) == Walk(m, a, p))
    && (forall a, p :: a in live && page <= p < page + |fs| ==>
          Walk(m', a, p) == if a == c || !UserPage(m, k, p) then fs[p - page] * PAGE + USER else Walk(m, a, p))
  }

  ghost predicate PagesAdded(m: Mem, m': Mem, k: nat, live: set<nat>, owner': map<nat, Role>, reserved: set<nat>, c: nat, page: nat, fs: seq<nat>) {
    && Distinct(fs) && (forall f <- fs :: f !in m.frames.used && HEAP_END <= f < FRAMES)
    && Owned(m', k, live, owner', reserved)
    && MappedRange(m, m', k, live, c, page, fs) && SameDirectory(m, m', k)
    && Claimed(m, m', Elements(fs))
  }

  lemma MappedOneMore(m: Mem, m1: Mem, m': Mem, k: nat, live: set<nat>, c: nat, page: nat, fs: seq<nat>, f: nat)
    requires c in live && page + |fs| < FRAMES
    requires MappedRange(m, m1, k, live, c, page, fs) && Mapped(m1, m', k, live, c, page + |fs|, f * PAGE + USER)
    requires SameDirectory(m, m1, k)
    ensures MappedRange(m, m', k, live, c, page, fs + [f])
  {
    assert forall p :: UserPage(m1, k, p) == UserPage(m, k, p);
    hide UserPage, Walk;
  }

  lemma ClaimedOneMore(m: Mem, m1: Mem, m': Mem, fs: seq<nat>, f: nat)
    requires Claimed(m, m1, Elements(fs)) && Claimed(m1, m', {f}) && f !in m1.frames.used
    ensures Claimed(m, m', Elements(fs + [f])) && f !in m.frames.used && f !in fs
  {
    assert Elements(fs + [f]) == Elements(fs) + {f};
    assert forall g :: g in fs <==> g in Elements(fs);
  }

  lemma SameDirectoryTwice(m: Mem, m1: Mem, m': Mem, k: nat)
    requires SameDirectory(m, m1, k) && SameDirectory(m1, m', k)
    ensures SameDirectory(m, m', k)
  {
  }

  lemma PagesOneMore(m: Mem, m1: Mem, m': Mem, k: nat, live: set<nat>, owner1: map<nat, Role>, owner': map<nat, Role>, reserved: set<nat>, c: nat, page: nat, fs: seq<nat>, f: nat)
    requires c in live && page + |fs| < FRAMES
    requires PagesAdded(m, m1, k, live, owner1, reserved, c, page, fs)
    requires PageAdded(m1, m', k, live, owner1, owner', reserved, c, page + |fs|, f)
    ensures PagesAdded(m, m', k, live, owner', reserved, c, page, fs + [f])
  {
    hide Owned, MappedRange, Mapped, Walk, UserPage, SameDirectory, Claimed, Distinct, Elements;
    MappedOneMore(m, m1, m', k, live, c, page, fs, f);
    ClaimedOneMore(m, m1, m', fs, f);
    DistinctSnoc(fs, f);
    SameDirectoryTwice(m, m1, m', k);
  }

  lemma NoPages(m: Mem, k: nat, live: set<nat>, owner: map<nat, Role>, reserved: set<nat>, c: nat, page: nat)
    requires Owned(m, k, live, owner, reserved)
    ensures PagesAdded(m, m, k, live, owner, reserved, c, page, [])
  {
    hide Walk, ContextOk, Plays;
  }

  // The loop of vmm_alloc: frames fs, all free before, one for each page.
  lemma {:induction false} AllocPagesStep(m: Mem, k: nat, live: set<nat>, owner: map<nat, Role>, reserved: set<nat>, c: nat, page: nat, n: nat)
    returns (fs: seq<nat>, owner': map<nat, Role>)
    requires Owned(m, k, live, owner, reserved) && c in live && c != k && page + n <= FRAMES
    requires AllocPages(m, c, page, n).Some?
    ensures |fs| == n && PagesAdded(m, AllocPages(m, c, page, n).value, k, live, owner', reserved, c, page, fs)
    ensures n > 0 ==> LowestFree(m.frames.used, HEAP_END, FRAMES) == Some(fs[0])
  {
    hide Owned, MappedRange, Mapped, Claimed, AllocPage, SameDirectory, Distinct;
    if n == 0 {
      NoPages(m, k, live, owner, reserved, c, page);
      fs, owner' := [], owner;
    } else {
      var m1 := AllocPages(m, c, page, n - 1).value;
      var fs1, owner1 := AllocPagesStep(m, k, live, owner, reserved, c, page, n - 1);
      var m' := AllocPage(m1, c, page + n - 1).value;
      var f;
      f, owner' := AllocPageStep(m1, k, live, owner1, reserved, c, page + n - 1);
      fs := fs1 + [f];
      PagesOneMore(m, m1, m', k, live, owner1, owner', reserved, c, page, fs1, f);
    }
  }

  // vmm_alloc, when it returns: exactly the pages of vaddr .. vaddr + sz are mapped, each to
  // its own frame that was free; a request that wraps around 2^32 maps nothing.
  lemma VmmAllocExact(m: Mem, k: nat, live: set<nat>, owner: map<nat, Role>, reserved: set<nat>, c: nat, vaddr: nat, sz: nat)
    returns (fs: seq<nat>, owner': map<nat, Role>)
    requires Owned(m, k, live, owner, reserved) && c in live && c != k && vaddr < WORD && sz < WORD
    requires VmmAlloc(m, c, vaddr, sz).Some?
    ensures |fs| == if vaddr + sz < WORD then PagesOf(sz) else 0
    ensures fs != [] ==> vaddr % PAGE == 0 && LowestFree(m.frames.used, HEAP_END, FRAMES) == Some(fs[0])
    ensures PagesAdded(m, VmmAlloc(m, c, vaddr, sz).value, k, live, owner', reserved, c, vaddr / PAGE, fs)
  {
    hide Owned, PagesAdded, AllocPages;
    if sz == 0 || vaddr + sz >= WORD {
      NoPages(m, k, live, owner, reserved, c, vaddr / PAGE);
      fs, owner' := [], owner;
    } else {
      fs, owner' := AllocPagesStep(m, k, live, owner, reserved, c, vaddr / PAGE, PagesOf(sz));
    }
  }

  // map_page updates exactly one key of the address space.
  lemma MapPageUpdatesOneKey(m: Mem, k: nat, live: set<nat>, owner: map<nat, Role>, reserved: set<nat>, c: nat, page: nat, f: nat)
    requires Owned(m, k, live, owner, reserved) && c in live && c != k && page < FRAMES
    requires HEAP_END <= f < FRAMES && f in m.frames.used && f !in owner && f !in reserved
    requires MapPage(m, c, page, f, USER).Some?
    ensures var m' := MapPage(m, c, page, f, USER).value;
            && Space(m', c) == Space(m, c)[page := (f, USER)]
            && (UserPage(m, k, page) ==> forall a :: a in live && a != c ==> Space(m', a) == Space(m, a))
            && (!UserPage(m, k, page) ==> forall a :: a in live ==> Space(m', a) == Space(m, a)[page := (f, USER)])
  {
    var m' := MapPage(m, c, page, f, USER).value;
    hide Owned, MapPage, UserPage, Space, Mapped, SameDirectory;
    var owner' := MapPageStep(m, k, live, owner, reserved, c, page, f);
    forall a | a in live ensures Space(m', a) == if a == c || !UserPage(m, k, page) then Space(m, a)[page := (f, USER)] else Space(m, a) {
      MappedSpace(m, m', k, live, c, page, f, a);
    }
  }

  lemma MappedSpace(m: Mem, m': Mem, k: nat, live: set<nat>, c: nat, page: nat, f: nat, a: nat)
    requires Mapped(m, m', k, live, c, page, f * PAGE + USER) && a in live && page < FRAMES
    ensures Space(m', a) == if a == c || !UserPage(m, k, page) then Space(m, a)[page := (f, USER)] else Space(m, a)
  {
    var w := f * PAGE + USER;
    assert w / PAGE == f && w % PAGE == USER && w % 2 == 1;
    hide Walk, UserPage;
  }

  lemma SameUserPage(m: Mem, m': Mem, k: nat, p: nat)
    requires SameDirectory(m, m', k)
    ensures UserPage(m', k, p) == UserPage(m, k, p)
  {
  }

  lemma UserPageInRange(m: Mem, k: nat, p: nat)
    requires UserPage(m, k, p)
    ensures p < FRAMES
  {
  }
}
