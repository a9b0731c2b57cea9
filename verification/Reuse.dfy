/**
 What is read in memory that was just handed out: vmm_alloc clears nothing
 (hal.x86/vmm.c:141-152), so that a new page shows what its frame held last.
 */
module Reuse {
  import opened Machine
  import opened Frames
  import opened Paging
  import opened Ownership
  import opened Translation
  import opened Boot
  import opened AddressSpaceRuns
  import opened Access

  // Byte i of page `page` of c in m' is byte i of page q of b in m.
  predicate SameByte(m: Mem, b: nat, q: nat, m': Mem, c: nat, page: nat, i: nat) {
    var pa := Phys(m', c, page * PAGE + i);
    pa.Some? && pa == Phys(m, b, q * PAGE + i)
  }

  // The whole page is, so that it reads the same.
  ghost predicate SamePlace(m: Mem, b: nat, q: nat, m': Mem, c: nat, page: nat) {
    forall i :: 0 <= i < PAGE ==> SameByte(m, b, q, m', c, page, i)
  }

  // Each new page of a request reads as the frame it was given was left, a frame that nobody
  // used when the request was made.
  lemma GrantedReadsAsLeft(s: Sys, owner: map<nat, Role>, reserved: set<nat>, ram: seq<byte>, c: nat, vaddr: u32, sz: u32, p: nat, i: nat)
    requires Inv(s, owner, reserved) && c in s.breaks && |ram| == WORD && VmmAlloc(s.m, c, vaddr, sz).Some? && i < PAGE
    requires vaddr + sz < WORD && vaddr / PAGE <= p < vaddr / PAGE + PagesOf(sz)
    ensures var m' := VmmAlloc(s.m, c, vaddr, sz).value; var f := Walk(m', c, p) / PAGE;
            HEAP_END <= f < FRAMES && f !in s.m.frames.used && ReadByte(m', ram, c, p * PAGE + i) == Some(ram[f * PAGE + i])
  {
    hide Owned, KernelIdentity, NoUserSlots, VmmAlloc, PagesOf, Walk, UserPage, SameDirectory, Phys, Claimed, Distinct;
    var fs, _ := VmmAllocExact(s.m, s.k, s.Live(), owner, reserved, c, vaddr, sz);
    var f := fs[p - vaddr / PAGE];
    assert f in fs && Walk(VmmAlloc(s.m, c, vaddr, sz).value, c, p) == f * PAGE + USER;
    EntryParts(f);
    FrameAddress(VmmAlloc(s.m, c, vaddr, sz).value, c, p, f, i);
  }

  // When context b is gone the next page that c is given is the page q of b exactly if the
  // frame of q is the lowest one free then.
  lemma NextPageIsLeftBehindExactly(s: Sys, owner: map<nat, Role>, reserved: set<nat>, b: nat, q: nat, c: nat, page: nat)
    requires Inv(s, owner, reserved) && MapsUserPage(s, b, q) && c in s.breaks && c != b && UserPage(s.m, s.k, page)
    requires var s1 := Step(s, Op.Destroy(b)); s1.Some? && AllocPage(s1.value.m, c, page).Some?
    ensures var m1 := Step(s, Op.Destroy(b)).value.m;
            SamePlace(s.m, b, q, AllocPage(m1, c, page).value, c, page)
            <==> LowestFree(m1.frames.used, HEAP_END, FRAMES) == Some(Walk(s.m, b, q) / PAGE)
  {
    hide Inv, Owned, AllocPage, Walk, UserPage, Step, SameDirectory;
    var s1 := Step(s, Op.Destroy(b)).value;
    var owner1 := AfterDestroy(s, owner, reserved, b);
    var f, g := Walk(s.m, b, q) / PAGE, LowestFree(s1.m.frames.used, HEAP_END, FRAMES);
    var m' := AllocPage(s1.m, c, page).value;
    NewEntry(s1, owner1, reserved, c, page);
    UserEntry(s, owner, reserved, b, q);
    forall i | 0 <= i < PAGE ensures SameByte(s.m, b, q, m', c, page, i) <==> g.value == f {
      FrameAddress(m', c, page, g.value, i);
      FrameAddress(s.m, b, q, f, i);
    }
    assert SamePlace(s.m, b, q, m', c, page) ==> SameByte(s.m, b, q, m', c, page, 0);
  }

  lemma AfterDestroy(s: Sys, owner: map<nat, Role>, reserved: set<nat>, b: nat) returns (owner': map<nat, Role>)
    requires Inv(s, owner, reserved) && b in s.breaks
    ensures Step(s, Op.Destroy(b)).Some?
    ensures var s1 := Step(s, Op.Destroy(b)).value;
            Inv(s1, owner', reserved) && s1.k == s.k && s1.breaks == s.breaks - {b} && s1.m.pool == s.m.pool
            && s1.m.frames.used == s.m.frames.used - OwnedBy(owner, b)
            && forall p :: UserPage(s1.m, s.k, p) == UserPage(s.m, s.k, p)
  {
    hide Owned, ContextFrees, ReleaseAll;
    owner' := DestroyStep(s, owner, reserved, b);
    DestroyKeepsOwned(s.m, s.k, s.Live(), owner, reserved, b);
    SamePool(s.m, Step(s, Op.Destroy(b)).value.m);
    forall p { SameUserPage(s.m, Step(s, Op.Destroy(b)).value.m, s.k, p); }
  }

  lemma NewEntry(s: Sys, owner: map<nat, Role>, reserved: set<nat>, c: nat, page: nat)
    requires Inv(s, owner, reserved) && c in s.breaks && UserPage(s.m, s.k, page) && AllocPage(s.m, c, page).Some?
    ensures var g := LowestFree(s.m.frames.used, HEAP_END, FRAMES);
            g.Some? && g.value < FRAMES && Walk(AllocPage(s.m, c, page).value, c, page) == g.value * PAGE + USER
  {
    hide Owned, AllocPage, Walk, UserPage, Claimed, OwnersOfAlloc, SameDirectory, NoUserSlots, KernelIdentity;
    UserPageInRange(s.m, s.k, page);
    var f, _ := AllocPageStep(s.m, s.k, s.Live(), owner, reserved, c, page);
  }

  lemma UserEntry(s: Sys, owner: map<nat, Role>, reserved: set<nat>, b: nat, q: nat)
    requires Inv(s, owner, reserved) && MapsUserPage(s, b, q)
    ensures var f := Walk(s.m, b, q) / PAGE;
            && HEAP_END <= f < FRAMES && Walk(s.m, b, q) == f * PAGE + USER && Has(owner, f, Page(b, q / SLOTS, q % SLOTS))
  {
    hide PdEntry, PtEntry, WellFormed;
    UserPageInRange(s.m, s.k, q);
    WalkIsEntry(s.m, s.k, s.Live(), owner, reserved, b, q / SLOTS);
    assert ContextOk(s.m, s.k, owner, b) && TableOk(s.m, s.k, owner, b, q / SLOTS) && PageOk(s.m, owner, b, q / SLOTS, q % SLOTS);
  }

  // And it is some page of b exactly if that lowest frame was used before b was gone.
  lemma NextPageIsAnothersExactly(s: Sys, owner: map<nat, Role>, reserved: set<nat>, b: nat, c: nat, page: nat)
    requires Inv(s, owner, reserved) && b in s.breaks && c in s.breaks && c != b && UserPage(s.m, s.k, page)
    requires var s1 := Step(s, Op.Destroy(b)); s1.Some? && AllocPage(s1.value.m, c, page).Some?
    ensures var m1 := Step(s, Op.Destroy(b)).value.m;
            (exists q :: MapsUserPage(s, b, q) && SamePlace(s.m, b, q, AllocPage(m1, c, page).value, c, page))
            <==> LowestFree(m1.frames.used, HEAP_END, FRAMES).value in s.m.frames.used
  {
    hide Inv, Owned, AllocPage, Walk, UserPage, Step, SameDirectory, SamePlace;
    var s1 := Step(s, Op.Destroy(b)).value;
    var owner1 := AfterDestroy(s, owner, reserved, b);
    NewEntry(s1, owner1, reserved, c, page);
    var g := LowestFree(s1.m.frames.used, HEAP_END, FRAMES).value;
    if g in s.m.frames.used {
      var q := PageOfFrame(s, owner, reserved, b, g);
      NextPageIsLeftBehindExactly(s, owner, reserved, b, q, c, page);
    }
    if q :| MapsUserPage(s, b, q) && SamePlace(s.m, b, q, AllocPage(s1.m, c, page).value, c, page) {
      NextPageIsLeftBehindExactly(s, owner, reserved, b, q, c, page);
      UserEntry(s, owner, reserved, b, q);
      OwnersUsed(s, owner, reserved, g);
    }
  }

  lemma OwnersUsed(s: Sys, owner: map<nat, Role>, reserved: set<nat>, f: nat)
    requires Inv(s, owner, reserved) && f in owner
    ensures f in s.m.frames.used
  {
  }

  lemma PageOfFrame(s: Sys, owner: map<nat, Role>, reserved: set<nat>, b: nat, f: nat) returns (q: nat)
    requires Inv(s, owner, reserved) && b in s.breaks && f in OwnedBy(owner, b) && HEAP_END <= f
    ensures MapsUserPage(s, b, q) && Walk(s.m, b, q) / PAGE == f
  {
    hide PdEntry, PtEntry, WellFormed, DirOf;
    assert ContextOk(s.m, s.k, owner, b) && Plays(s.m, s.k, f, owner[f]);
    var r := owner[f];
    assert r.Table? ==> TableOk(s.m, s.k, owner, b, r.i);
    EntryParts(f);
    q := r.i * SLOTS + r.j;
    PageParts(r.i, r.j);
    WalkIsEntry(s.m, s.k, s.Live(), owner, reserved, b, r.i);
  }
}
