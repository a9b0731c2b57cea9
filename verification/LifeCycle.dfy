/**
 The life of one address space: it is created, memory is allocated into it any number of
 times, and it is destroyed (hal.x86/vmm.c:33-82, hal.x86/vmm.c:141-152). Afterwards the
 frame bitmap and the free-memory counter are what they were before exactly if every page
 was allocated once and none lay in a slot of the kernel.
 */
module LifeCycle {
  import opened Machine
  import opened Frames
  import opened Paging
  import opened Ownership
  import opened Translation
  import opened AddressSpaceRuns

  // One vmm_alloc request: an address and a size in bytes.
  datatype Request = Request(vaddr: u32, sz: u32)

  function AllocRequests(m: Mem, c: nat, requests: seq<Request>): Option<Mem> {
    if requests == [] then Some(m)
    else
      var last := requests[|requests| - 1];
      match AllocRequests(m, c, requests[..|requests| - 1])
      case None => None
      case Some(m1) => VmmAlloc(m1, c, last.vaddr, last.sz)
  }

  // The pages a request covers; one that wraps around covers none.
  function PagesOfRequest(r: Request): seq<nat> {
    if r.vaddr + r.sz >= WORD then [] else PageRange(r.vaddr / PAGE, PagesOf(r.sz))
  }

  function PageRange(page: nat, n: nat): seq<nat> {
    if n == 0 then [] else PageRange(page, n - 1) + [page + n - 1]
  }

  function PagesOfRequests(requests: seq<Request>): seq<nat> {
    if requests == [] then []
    else PagesOfRequests(requests[..|requests| - 1]) + PagesOfRequest(requests[|requests| - 1])
  }

  // The same, page by page.
  function AllocSeq(m: Mem, c: nat, pages: seq<nat>): Option<Mem> {
    if pages == [] then Some(m)
    else
      match AllocSeq(m, c, pages[..|pages| - 1])
      case None => None
      case Some(m1) => AllocPage(m1, c, pages[|pages| - 1])
  }

  ghost predicate OnlyUserPages(m: Mem, k: nat, pages: seq<nat>) {
    forall p <- pages :: UserPage(m, k, p)
  }

  // ----- the frame that one allocation loses

  // Memory allocated into a slot of the kernel, or over a page that is mapped, leaves one
  // frame marked used that no context owns.
  function Lost(m: Mem, k: nat, c: nat, page: nat, f: nat): set<nat> {
    if !UserPage(m, k, page) then {f}
    else if Walk(m, c, page) != 0 then {Walk(m, c, page) / PAGE}
    else {}
  }

  lemma LostFrameWasOwned(m: Mem, k: nat, live: set<nat>, owner: map<nat, Role>, reserved: set<nat>, c: nat, page: nat)
    requires Owned(m, k, live, owner, reserved) && c in live && c != k && page < FRAMES && UserPage(m, k, page) && Walk(m, c, page) != 0
    ensures Has(owner, Walk(m, c, page) / PAGE, Page(c, page / SLOTS, page % SLOTS))
  {
    WalkIsEntry(m, k, live, owner, reserved, c, page / SLOTS);
    assert ContextOk(m, k, owner, c) && TableOk(m, k, owner, c, page / SLOTS);
    assert PageOk(m, owner, c, page / SLOTS, page % SLOTS);
  }

  // One page of a table has one frame.
  lemma OneFrameAPage(m: Mem, k: nat, live: set<nat>, owner: map<nat, Role>, reserved: set<nat>, g: nat, f: nat)
    requires Owned(m, k, live, owner, reserved) && g in owner && f in owner && owner[g].Page? && owner[f] == owner[g]
    ensures f == g
  {
    assert Plays(m, k, g, owner[g]) && Plays(m, k, f, owner[f]);
  }

  lemma LostIsNobodys(m: Mem, m': Mem, k: nat, live: set<nat>, owner: map<nat, Role>, owner': map<nat, Role>, reserved: set<nat>, c: nat, page: nat, f: nat)
    requires Owned(m, k, live, owner, reserved) && c in live && c != k && page < FRAMES
    requires PageAdded(m, m', k, live, owner, owner', reserved, c, page, f)
    ensures forall g <- Lost(m, k, c, page, f) :: g in m'.frames.used && g !in owner'
    ensures Owned(m', k, live, owner', reserved + Lost(m, k, c, page, f))
  {
    var lost := Lost(m, k, c, page, f);
    forall g <- lost ensures g in m'.frames.used && g !in owner' {
      if UserPage(m, k, page) {
        LostFrameWasOwned(m, k, live, owner, reserved, c, page);
        MappedRole(m, m', k, live, owner', reserved, c, page, f);
        if g in owner' { OneFrameAPage(m', k, live, owner', reserved, g, f); }
      }
    }
    hide ContextOk, Plays, WellFormed, Mapped, Lost;
  }

  lemma MappedRole(m: Mem, m': Mem, k: nat, live: set<nat>, owner': map<nat, Role>, reserved: set<nat>, c: nat, page: nat, f: nat)
    requires Owned(m', k, live, owner', reserved) && c in live && c != k && page < FRAMES && UserPage(m, k, page)
    requires Mapped(m, m', k, live, c, page, f * PAGE + USER) && SameDirectory(m, m', k)
    ensures Has(owner', f, Page(c, page / SLOTS, page % SLOTS))
  {
    SameUserPage(m, m', k, page);
    LostFrameWasOwned(m', k, live, owner', reserved, c, page);
    assert (f * PAGE + USER) / PAGE == f;
  }

  // ----- while the context lives

  // Relative to the frames `before` that were used when context c was created: whatever
  // else is used now is c's or lost.
  ghost predicate Accounted(before: set<nat>, m: Mem, owner: map<nat, Role>, c: nat, lost: set<nat>) {
    && before <= m.frames.used && before !! lost && lost <= m.frames.used
    && (forall g <- m.frames.used :: g in before || g in lost || (g in owner && owner[g].c == c))
    && (forall g <- owner :: owner[g].c == c ==> g !in before)
  }

  // The owners and used frames after one more allocation, seen from c; `gone` is what it lost.
  ghost predicate OneMore(m: Mem, m': Mem, owner: map<nat, Role>, owner': map<nat, Role>, c: nat, gone: set<nat>) {
    && m.frames.used <= m'.frames.used && gone <= m'.frames.used
    && (forall g <- owner' :: Has(owner, g, owner'[g]) || (owner'[g].c == c && g !in m.frames.used))
    && (forall g <- owner :: Has(owner', g, owner[g]) || g in gone)
    && (forall g <- m'.frames.used :: g in m.frames.used || g in owner' || g in gone)
    && (forall g <- gone :: g !in m.frames.used || (g in owner && owner[g].c == c))
  }

  lemma AllocIsOneMore(m: Mem, m': Mem, k: nat, live: set<nat>, owner: map<nat, Role>, owner': map<nat, Role>, reserved: set<nat>, c: nat, page: nat, f: nat)
    requires Owned(m, k, live, owner, reserved) && c in live && c != k && page < FRAMES
    requires PageAdded(m, m', k, live, owner, owner', reserved, c, page, f)
    ensures OneMore(m, m', owner, owner', c, Lost(m, k, c, page, f))
  {
    hide Owned, Mapped, UserPage, Walk, SameDirectory, OwnersOfAlloc, OneMore, Lost, Claimed;
    LostIsNobodys(m, m', k, live, owner, owner', reserved, c, page, f);
    LostWasMineOrFree(m, k, live, owner, reserved, c, page, f);
    ClaimedMore(m, m', {f});
    OwnersOneMore(m, m', k, owner, owner', c, page, f);
  }

  lemma ClaimedMore(m: Mem, m': Mem, fs: set<nat>)
    requires Claimed(m, m', fs)
    ensures m.frames.used <= m'.frames.used
  {
  }

  lemma LostWasMineOrFree(m: Mem, k: nat, live: set<nat>, owner: map<nat, Role>, reserved: set<nat>, c: nat, page: nat, f: nat)
    requires Owned(m, k, live, owner, reserved) && c in live && c != k && page < FRAMES && f !in m.frames.used
    ensures forall g <- Lost(m, k, c, page, f) :: g !in m.frames.used || (g in owner && owner[g].c == c)
  {
    hide Owned, UserPage, Walk;
    if UserPage(m, k, page) && Walk(m, c, page) != 0 {
      LostFrameWasOwned(m, k, live, owner, reserved, c, page);
    }
  }

  lemma OwnersOneMore(m: Mem, m': Mem, k: nat, owner: map<nat, Role>, owner': map<nat, Role>, c: nat, page: nat, f: nat)
    requires OwnersOfAlloc(m, m', k, owner, owner', c, page, f) && m.frames.used <= m'.frames.used
    requires forall g <- Lost(m, k, c, page, f) :: g in m'.frames.used && (g !in m.frames.used || (g in owner && owner[g].c == c))
    ensures OneMore(m, m', owner, owner', c, Lost(m, k, c, page, f))
  {
    hide UserPage, Walk;
  }

  lemma AccountedOneMore(before: set<nat>, m: Mem, m': Mem, owner: map<nat, Role>, owner': map<nat, Role>, c: nat, lost: set<nat>, gone: set<nat>)
    requires Accounted(before, m, owner, c, lost) && OneMore(m, m', owner, owner', c, gone)
    requires forall g <- owner :: g in m.frames.used
    ensures Accounted(before, m', owner', c, lost + gone)
  {
  }

  // What mapping the pages, in this order, did to the translations.
  ghost predicate SeqMapped(m: Mem, m': Mem, k: nat, live: set<nat>, c: nat, pages: seq<nat>) {
    && SameDirectory(m, m', k) && m'.frames.Ledger() == m.frames.Ledger()
    && (forall a, p :: a in live && a != c && 0 <= p < FRAMES && (UserPage(m, k, p) || p !in pages) ==> Walk(m', a, p) == Walk(m, a, p))
    && (forall p :: UserPage(m, k, p) ==> (Walk(m', c, p) != 0 <==> Walk(m, c, p) != 0 || p in pages))
  }

  lemma SeqMappedOneMore(m: Mem, m1: Mem, m': Mem, k: nat, live: set<nat>, c: nat, pages: seq<nat>, page: nat, f: nat)
    requires c in live && page < FRAMES && SeqMapped(m, m1, k, live, c, pages)
    requires Mapped(m1, m', k, live, c, page, f * PAGE + USER) && SameDirectory(m1, m', k) && m'.frames.Ledger() == m1.frames.Ledger()
    ensures SeqMapped(m, m', k, live, c, pages + [page])
  {
    SameDirectoryTwice(m, m1, m', k);
    forall p { SameUserPage(m, m1, k, p); }
    hide SameDirectory, UserPage, Walk;
    forall p | UserPage(m, k, p) ensures Walk(m', c, p) != 0 <==> Walk(m, c, p) != 0 || p in pages + [page] {
      UserPageInRange(m, k, p);
    }
  }

  ghost predicate SeqDone(before: set<nat>, m: Mem, m': Mem, k: nat, live: set<nat>, owner': map<nat, Role>, reserved: set<nat>, c: nat, lost: set<nat>, pages: seq<nat>) {
    && Owned(m', k, live, owner', reserved + lost) && Accounted(before, m', owner', c, lost)
    && SeqMapped(m, m', k, live, c, pages)
    && (lost == {} <==> Distinct(pages) && OnlyUserPages(m, k, pages))
  }

  lemma SeqDoneNothing(before: set<nat>, m: Mem, k: nat, live: set<nat>, owner: map<nat, Role>, reserved: set<nat>, c: nat)
    requires Owned(m, k, live, owner, reserved) && Accounted(before, m, owner, c, {})
    ensures SeqDone(before, m, m, k, live, owner, reserved, c, {}, [])
  {
    assert reserved + {} == reserved;
    hide Owned, Accounted, Walk, UserPage;
  }

  lemma SeqDoneOneMore(before: set<nat>, m: Mem, m1: Mem, m': Mem, k: nat, live: set<nat>, owner1: map<nat, Role>, owner': map<nat, Role>, reserved: set<nat>, c: nat, lost: set<nat>, pages: seq<nat>, page: nat, f: nat)
    requires SeqDone(before, m, m1, k, live, owner1, reserved, c, lost, pages) && c in live && c != k && page < FRAMES
    requires PageAdded(m1, m', k, live, owner1, owner', reserved + lost, c, page, f)
    requires forall p :: UserPage(m, k, p) ==> Walk(m, c, p) == 0
    ensures SeqDone(before, m, m', k, live, owner', reserved, c, lost + Lost(m1, k, c, page, f), pages + [page])
  {
    hide Owned, Accounted, OneMore, SeqMapped, Mapped, SameDirectory, OwnersOfAlloc, Claimed, Lost, Distinct, OnlyUserPages;
    LostIsNobodys(m1, m', k, live, owner1, owner', reserved + lost, c, page, f);
    assert reserved + (lost + Lost(m1, k, c, page, f)) == (reserved + lost) + Lost(m1, k, c, page, f);
    AllocIsOneMore(m1, m', k, live, owner1, owner', reserved + lost, c, page, f);
    OwnersAreUsed(m1, k, live, owner1, reserved + lost);
    AccountedOneMore(before, m1, m', owner1, owner', c, lost, Lost(m1, k, c, page, f));
    LedgerOf(m1, m', f);
    SeqMappedOneMore(m, m1, m', k, live, c, pages, page, f);
    NothingLost(m, m1, k, live, c, pages, page, f);
  }

  // From a state where c maps no user page: nothing is lost exactly if the pages are user
  // pages and pairwise distinct.
  lemma {:induction false} AllocSeqStep(before: set<nat>, m: Mem, k: nat, live: set<nat>, owner: map<nat, Role>, reserved: set<nat>, c: nat, pages: seq<nat>)
    returns (owner': map<nat, Role>, lost: set<nat>)
    requires Owned(m, k, live, owner, reserved) && c in live && c != k && (forall p <- pages :: p < FRAMES)
    requires Accounted(before, m, owner, c, {}) && (forall p :: UserPage(m, k, p) ==> Walk(m, c, p) == 0)
    requires AllocSeq(m, c, pages).Some?
    ensures SeqDone(before, m, AllocSeq(m, c, pages).value, k, live, owner', reserved, c, lost, pages)
  {
    hide Owned, Accounted, AllocPage, SeqMapped, Lost, UserPage, Walk, Distinct, OnlyUserPages, PageAdded;
    if pages == [] {
      owner', lost := owner, {};
      SeqDoneNothing(before, m, k, live, owner, reserved, c);
    } else {
      var init, page := pages[..|pages| - 1], pages[|pages| - 1];
      assert pages == init + [page];
      assert page in pages && forall p <- init :: p in pages;
      var m1 := AllocSeq(m, c, init).value;
      var owner1, lost1 := AllocSeqStep(before, m, k, live, owner, reserved, c, init);
      var f;
      f, owner' := AllocPageStep(m1, k, live, owner1, reserved + lost1, c, page);
      lost := lost1 + Lost(m1, k, c, page, f);
      SeqDoneOneMore(before, m, m1, AllocSeq(m, c, pages).value, k, live, owner1, owner', reserved, c, lost1, init, page, f);
    }
  }

  lemma OwnersAreUsed(m: Mem, k: nat, live: set<nat>, owner: map<nat, Role>, reserved: set<nat>)
    requires Owned(m, k, live, owner, reserved)
    ensures forall g <- owner :: g in m.frames.used
  {
  }

  lemma LedgerOf(m: Mem, m': Mem, f: nat)
    requires Claimed(m, m', {f})
    ensures m'.frames.Ledger() == m.frames.Ledger()
  {
  }

  lemma NothingLost(m: Mem, m1: Mem, k: nat, live: set<nat>, c: nat, pages: seq<nat>, page: nat, f: nat)
    requires SeqMapped(m, m1, k, live, c, pages) && page < FRAMES
    requires forall p :: UserPage(m, k, p) ==> Walk(m, c, p) == 0
    ensures Distinct(pages + [page]) && OnlyUserPages(m, k, pages + [page])
       <==> Distinct(pages) && OnlyUserPages(m, k, pages) && Lost(m1, k, c, page, f) == {}
  {
    SameUserPage(m, m1, k, page);
    hide SameDirectory, Walk, UserPage;
    var all := pages + [page];
    if Distinct(all) && OnlyUserPages(m, k, all) {
      assert forall i :: 0 <= i < |pages| ==> all[i] == pages[i] && all[i] != all[|pages|];
      assert all[|pages|] == page && page !in pages;
    }
    if Distinct(pages) && page !in pages { DistinctSnoc(pages, page); }
  }

  // ----- requests are sequences of pages

  lemma {:induction false} AllocSeqAppend(m: Mem, c: nat, a: seq<nat>, b: seq<nat>)
    requires AllocSeq(m, c, a).Some?
    ensures AllocSeq(m, c, a + b) == AllocSeq(AllocSeq(m, c, a).value, c, b)
  {
    if b == [] {
      assert a + b == a;
    } else {
      AllocSeqAppend(m, c, a, b[..|b| - 1]);
      assert (a + b)[..|a + b| - 1] == a + b[..|b| - 1];
    }
  }

  lemma {:induction false} AllocPagesIsSeq(m: Mem, c: nat, page: nat, n: nat)
    ensures AllocPages(m, c, page, n) == AllocSeq(m, c, PageRange(page, n))
    ensures forall p :: p in PageRange(page, n) <==> page <= p < page + n
  {
    hide AllocPage;
    if n > 0 {
      AllocPagesIsSeq(m, c, page, n - 1);
      var pages := PageRange(page, n);
      assert pages[..|pages| - 1] == PageRange(page, n - 1) && pages[|pages| - 1] == page + n - 1;
    }
  }

  lemma RequestIsSeq(m: Mem, c: nat, r: Request)
    requires VmmAlloc(m, c, r.vaddr, r.sz).Some?
    ensures AllocSeq(m, c, PagesOfRequest(r)) == VmmAlloc(m, c, r.vaddr, r.sz)
    ensures forall p <- PagesOfRequest(r) :: p < FRAMES
  {
    AllocPagesIsSeq(m, c, r.vaddr / PAGE, PagesOf(r.sz));
    hide AllocPages;
  }

  lemma {:induction false} RequestsAreSeq(m: Mem, c: nat, requests: seq<Request>)
    requires AllocRequests(m, c, requests).Some?
    ensures AllocSeq(m, c, PagesOfRequests(requests)) == AllocRequests(m, c, requests)
    ensures forall p <- PagesOfRequests(requests) :: p < FRAMES
  {
    if requests != [] {
      var init, last := requests[..|requests| - 1], requests[|requests| - 1];
      RequestsAreSeq(m, c, init);
      var m1 := AllocRequests(m, c, init).value;
      RequestIsSeq(m1, c, last);
      AllocSeqAppend(m, c, PagesOfRequests(init), PagesOfRequest(last));
    }
  }

  // ----- birth, life and death

  // Right after creation the two new frames are all that the context accounts for.
  lemma BornAccounted(m: Mem, k: nat, live: set<nat>, owner: map<nat, Role>, reserved: set<nat>)
    requires Owned(m, k, live, owner, reserved) && CreateUser(m, k).Some?
    ensures var (m1, c) := CreateUser(m, k).value; var owner1 := WithContext(owner, c, DirOf(m1, c));
            && c !in live && Owned(m1, k, live + {c}, owner1, reserved)
            && Accounted(m.frames.used, m1, owner1, c, {}) && m1.frames.Ledger() == m.frames.Ledger()
            && SameDirectory(m, m1, k)
            && (forall p :: UserPage(m1, k, p) ==> Walk(m1, c, p) == 0)
            && (forall a, p :: a in live && 0 <= p < FRAMES ==> Walk(m1, a, p) == Walk(m, a, p))
  {
    hide Owned, CreateUser, Accounted, SameDirectory, SamePrivateTables, DirOf, WithContext, Frames.Ledger;
    CreateKeepsOwned(m, k, live, owner, reserved);
    var (m1, c) := CreateUser(m, k).value;
    var d := DirOf(m1, c);
    OwnedKernel(m, k, live, owner, reserved);
    TakeTwoLedger(m.frames, c, d);
    NewAccounted(m, m1, k, live, owner, reserved, c, d);
    forall a, p | a in live && 0 <= p < FRAMES ensures Walk(m1, a, p) == Walk(m, a, p) {
      SameTablesSameWalk(m, m1, k, live, owner, reserved, a, p);
    }
    forall p | UserPage(m1, k, p) ensures Walk(m1, c, p) == 0 {
      SameUserPage(m, m1, k, p);
    }
  }

  lemma OwnedKernel(m: Mem, k: nat, live: set<nat>, owner: map<nat, Role>, reserved: set<nat>)
    requires Owned(m, k, live, owner, reserved)
    ensures k in live
  {
  }

  lemma NewAccounted(m: Mem, m1: Mem, k: nat, live: set<nat>, owner: map<nat, Role>, reserved: set<nat>, c: nat, d: nat)
    requires Owned(m, k, live, owner, reserved) && c !in live && m1.frames == m.frames.Take(c).Take(d)
    requires c !in m.frames.used && d !in m.frames.used
    ensures Accounted(m.frames.used, m1, WithContext(owner, c, d), c, {})
  {
    hide ContextOk, Plays, WellFormed;
  }

  // A context that accounts for all but the lost frames gives everything else back.
  lemma DeathReturns(before: set<nat>, m: Mem, k: nat, live: set<nat>, owner: map<nat, Role>, reserved: set<nat>, c: nat, lost: set<nat>)
    requires Owned(m, k, live, owner, reserved) && c in live && c != k && Accounted(before, m, owner, c, lost) && lost <= reserved
    ensures var m' := Paging.Destroy(m, c, k).value;
            && m'.frames.used == before + lost && m'.frames.Ledger() == m.frames.Ledger()
            && m'.frames.Valid() && m'.pool == m.pool
  {
    DestroyKeepsOwned(m, k, live, owner, reserved, c);
    hide ContextOk, Plays, Paging.Destroy;
  }

  // The whole life of a context. Its frames come back, and so does the counter, exactly if
  // its requests covered user pages only and none of them twice. No other context sees it.
  lemma LifeCycleRestores(m: Mem, k: nat, live: set<nat>, owner: map<nat, Role>, reserved: set<nat>, requests: seq<Request>)
    requires Owned(m, k, live, owner, reserved) && CreateUser(m, k).Some?
    requires var (m1, c) := CreateUser(m, k).value; AllocRequests(m1, c, requests).Some?
    ensures var (m1, c) := CreateUser(m, k).value;
            var m2 := AllocRequests(m1, c, requests).value;
            var m3 := Paging.Destroy(m2, c, k).value;
            var pages := PagesOfRequests(requests);
            && (m3.frames == m.frames <==> Distinct(pages) && OnlyUserPages(m, k, pages))
            && m.frames.used <= m3.frames.used && m3.frames.Ledger() == m.frames.Ledger()
            && (forall a, p :: a in live && 0 <= p < FRAMES && (UserPage(m, k, p) || p !in pages) ==> Walk(m3, a, p) == Walk(m, a, p))
  {
    var (m1, c) := CreateUser(m, k).value;
    var m2 := AllocRequests(m1, c, requests).value;
    var m3 := Paging.Destroy(m2, c, k).value;
    var pages := PagesOfRequests(requests);
    BornAccounted(m, k, live, owner, reserved);
    RequestsAreSeq(m1, c, requests);
    hide Owned, CreateUser, AllocRequests, AllocSeq, Accounted, Paging.Destroy, Walk, Distinct, PagesOfRequests;
    var owner2, lost := AllocSeqStep(m.frames.used, m1, k, live + {c}, WithContext(owner, c, DirOf(m1, c)), reserved, c, pages);
    DeathReturns(m.frames.used, m2, k, live + {c}, owner2, reserved + lost, c, lost);
    forall p { SameUserPage(m, m1, k, p); }
    SamePool(m2, m3);
    FramesBack(m, m2, m3, k, live, owner2, c, reserved, lost);
  }

  lemma FramesBack(m: Mem, m2: Mem, m3: Mem, k: nat, live: set<nat>, owner2: map<nat, Role>, c: nat, reserved: set<nat>, lost: set<nat>)
    requires m.frames.Valid() && m3.frames.Valid() && Accounted(m.frames.used, m2, owner2, c, lost)
    requires m3.frames.used == m.frames.used + lost && m3.frames.Ledger() == m.frames.Ledger()
    ensures m3.frames == m.frames <==> lost == {}
  {
    if lost == {} {
      LedgerDeterminesCounter(m3.frames, m.frames);
    }
  }
}
