/**
 The sbrk system call over whole runs (hal.x86/syscall.c:45-62), interleaved with anything
 that other contexts do.
 */
module SbrkRuns {
  import opened Machine
  import opened Frames
  import opened Paging
  import opened Ownership
  import opened Translation
  import opened Boot
  import opened AddressSpaceRuns
  import opened Room

  const BASE: nat := USER_START * PAGE

  // What c asked for in these operations, in bytes.
  function Total(ops: seq<Op>, c: nat): nat {
    if ops == [] then 0
    else Total(ops[..|ops| - 1], c) + Asked(ops[|ops| - 1], c)
  }

  function Asked(op: Op, c: nat): nat {
    if op.Sbrk? && op.c == c then op.request else 0
  }

  // The value in eax after the call: -1 for a request of 0, else the break before it.
  function SbrkResult(s: Sys, c: nat, request: u32): nat
    requires c in s.breaks
  {
    if request == 0 then WORD - 1 else BreakAddress(s, c)
  }

  // Whatever others do, c itself only calls sbrk, for whole pages.
  predicate OnlySbrk(op: Op, c: nat) {
    op.Create? || op.c != c || (op.Sbrk? && op.request % PAGE == 0)
  }

  // The first n pages of the sbrk area of c are mapped.
  ghost predicate MappedBelow(s: Sys, c: nat, n: nat) {
    forall p :: USER_START <= p < USER_START + n ==> UserPage(s.m, s.k, p) && Walk(s.m, c, p) != 0
  }

  // None of them has changed.
  ghost predicate Kept(s: Sys, s': Sys, c: nat, n: nat) {
    forall p :: USER_START <= p < USER_START + n ==> Walk(s'.m, c, p) == Walk(s.m, c, p)
  }

  // The break of c is n pages above the base.
  ghost predicate BreakAt(s: Sys, c: nat, n: nat) {
    c in s.breaks && s.breaks[c] == n * PAGE
  }

  lemma Pages(n: nat, request: nat)
    requires request % PAGE == 0 && BASE + n * PAGE + request < WORD
    ensures var q := request / PAGE;
            (BASE + n * PAGE) / PAGE == USER_START + n && PagesOf(request) == q && request == q * PAGE
            && USER_START + n + q <= FRAMES
  {
  }

  lemma GrownBreak(s: Sys, s': Sys, c: nat, n: nat, owner: map<nat, Role>, owner': map<nat, Role>, reserved: set<nat>, fs: seq<nat>)
    requires Inv(s, owner, reserved) && Inv(s', owner', reserved) && c in s.breaks && s'.k == s.k && MappedBelow(s, c, n)
    requires USER_START + n + |fs| <= FRAMES && MappedRange(s.m, s'.m, s.k, s.Live(), c, USER_START + n, fs)
    ensures MappedBelow(s', c, n + |fs|) && Kept(s, s', c, n)
  {
    hide Owned, Walk, UserPage, KernelIdentity, NoUserSlots;
    HighPagesAreUser(s.m, s.k);
    HighPagesAreUser(s'.m, s.k);
    forall p | USER_START <= p < USER_START + n + |fs|
      ensures UserPage(s'.m, s.k, p) && Walk(s'.m, c, p) != 0
      ensures p < USER_START + n ==> Walk(s'.m, c, p) == Walk(s.m, c, p)
    {
    }
  }

  // One own call for q pages.
  lemma SbrkGrows(s: Sys, s': Sys, c: nat, n: nat, vaddr: u32, request: u32, owner: map<nat, Role>, reserved: set<nat>) returns (owner': map<nat, Role>)
    requires Inv(s, owner, reserved) && c in s.breaks && MappedBelow(s, c, n)
    requires request % PAGE == 0 && vaddr == BASE + n * PAGE && vaddr + request < WORD
    requires VmmAlloc(s.m, c, vaddr, request) == Some(s'.m) && s'.k == s.k && s'.breaks.Keys == s.breaks.Keys
    ensures Inv(s', owner', reserved) && MappedBelow(s', c, n + request / PAGE) && Kept(s, s', c, n)
  {
    hide VmmAlloc, Inv, MappedRange, MappedBelow, Kept, PagesOf, UserPage, Walk;
    Pages(n, request);
    var fs;
    fs, owner' := SbrkMaps(s, s'.m, c, vaddr, request, USER_START + n, request / PAGE, owner, reserved);
    InvOfMem(s, s', owner', reserved);
    GrownBreak(s, s', c, n, owner, owner', reserved, fs);
  }

  lemma SbrkMaps(s: Sys, m': Mem, c: nat, vaddr: u32, request: u32, page: nat, q: nat, owner: map<nat, Role>, reserved: set<nat>)
    returns (fs: seq<nat>, owner': map<nat, Role>)
    requires Inv(s, owner, reserved) && c in s.breaks && VmmAlloc(s.m, c, vaddr, request) == Some(m')
    requires page == vaddr / PAGE && q == PagesOf(request) && vaddr + request < WORD && USER_START <= page && page + q <= FRAMES
    ensures Inv(s.(m := m'), owner', reserved) && MappedRange(s.m, m', s.k, s.Live(), c, page, fs) && |fs| == q
  {
    hide VmmAlloc, Owned, KernelIdentity, NoUserSlots, MappedRange, SameDirectory, PagesOf, UserPage, Walk;
    HighPagesAreUser(s.m, s.k);
    fs, owner' := AllocStep(s, owner, reserved, c, vaddr, request);
  }

  lemma InvOfMem(s: Sys, s': Sys, owner: map<nat, Role>, reserved: set<nat>)
    requires Inv(s.(m := s'.m), owner, reserved) && s'.k == s.k && s'.breaks.Keys == s.breaks.Keys
    ensures Inv(s', owner, reserved)
  {
  }

  lemma SbrkIsAlloc(s: Sys, c: nat, request: u32)
    requires c in s.breaks && BASE + s.breaks[c] + request < WORD && Step(s, Sbrk(c, request)).Some?
    ensures var s' := Step(s, Sbrk(c, request)).value;
            if request == 0 then s' == s
            else VmmAlloc(s.m, c, BASE + s.breaks[c], request) == Some(s'.m) && s'.k == s.k
                 && s'.breaks.Keys == s.breaks.Keys && s'.breaks[c] == s.breaks[c] + request
  {
  }

  lemma OwnSbrk(s: Sys, c: nat, n: nat, request: u32, owner: map<nat, Role>, reserved: set<nat>) returns (owner': map<nat, Role>)
    requires Inv(s, owner, reserved) && BreakAt(s, c, n) && MappedBelow(s, c, n)
    requires request % PAGE == 0 && BASE + n * PAGE + request < WORD && Step(s, Sbrk(c, request)).Some?
    ensures var s' := Step(s, Sbrk(c, request)).value; var n' := n + request / PAGE;
            Inv(s', owner', reserved) && BreakAt(s', c, n') && MappedBelow(s', c, n') && Kept(s, s', c, n)
  {
    hide Step, VmmAlloc, Inv, MappedBelow, UserPage, Walk;
    SbrkIsAlloc(s, c, request);
    var s' := Step(s, Sbrk(c, request)).value;
    owner' := owner;
    if request != 0 {
      owner' := SbrkGrows(s, s', c, n, BASE + n * PAGE, request, owner, reserved);
    }
  }

  lemma StaysLive(s: Sys, c: nat, op: Op, owner: map<nat, Role>, reserved: set<nat>)
    requires Inv(s, owner, reserved) && c in s.breaks && OnlySbrk(op, c) && !(op.Sbrk? && op.c == c)
    requires Step(s, op).Some?
    ensures var s' := Step(s, op).value; c in s'.breaks && s'.breaks[c] == s.breaks[c]
  {
    hide Owned, CreateUser, VmmAlloc, Paging.Destroy, WithContext, SameDirectory, SamePrivateTables, PdEntry, DirOf, KernelIdentity, NoUserSlots;
    if op.Create? {
      CreateKeepsOwned(s.m, s.k, s.Live(), owner, reserved);
    }
  }

  // The requests of the others are on user pages; those of c are by themselves.
  ghost predicate OthersOnUserPages(s: Sys, ops: seq<Op>, c: nat) {
    forall n :: 0 <= n < |ops| ==> Run(s, ops[..n]).Some? && ((ops[n].Sbrk? && ops[n].c == c) || OnUserPages(Run(s, ops[..n]).value, ops[n]))
  }

  lemma FewerOthersOnUserPages(s: Sys, ops: seq<Op>, c: nat)
    requires OthersOnUserPages(s, ops, c) && ops != []
    ensures var init, op := ops[..|ops| - 1], ops[|ops| - 1];
            OthersOnUserPages(s, init, c) && Run(s, init).Some? && ((op.Sbrk? && op.c == c) || OnUserPages(Run(s, init).value, op))
  {
    hide OnUserPages, Run;
    var init := ops[..|ops| - 1];
    assert forall n :: 0 <= n <= |init| ==> init[..n] == ops[..n];
    assert init[..|init|] == init;
  }

  lemma BreakStays(s: Sys, c: nat, n: nat, op: Op, owner: map<nat, Role>, reserved: set<nat>)
    requires Inv(s, owner, reserved) && BreakAt(s, c, n) && OnlySbrk(op, c) && !(op.Sbrk? && op.c == c)
    requires Step(s, op).Some?
    ensures BreakAt(Step(s, op).value, c, n) && c in s.Live() && c in Step(s, op).value.Live()
  {
    hide Inv, Step;
    StaysLive(s, c, op, owner, reserved);
  }

  lemma OtherStep(s: Sys, c: nat, n: nat, op: Op, owner: map<nat, Role>, reserved: set<nat>) returns (owner': map<nat, Role>)
    requires Inv(s, owner, reserved) && BreakAt(s, c, n) && MappedBelow(s, c, n)
    requires OnlySbrk(op, c) && !(op.Sbrk? && op.c == c) && OnUserPages(s, op) && Step(s, op).Some?
    ensures var s' := Step(s, op).value;
            Inv(s', owner', reserved) && BreakAt(s', c, n) && MappedBelow(s', c, n) && Kept(s, s', c, n)
  {
    hide Inv, UserPage, Walk, Step, SameDirectory, BreakAt, OnUserPages;
    BreakStays(s, c, n, op, owner, reserved);
    var s' := Step(s, op).value;
    owner' := StepKeepsInv(s, op, owner, reserved);
    forall p { SameUserPage(s.m, s'.m, s.k, p); }
  }

  // Over a whole run the break moves by what c asked for, every page below it is mapped
  // and no call, of c or of anybody else, remaps a page below the earlier break.
  lemma {:induction false} SbrkRun(s: Sys, c: nat, n: nat, ops: seq<Op>, owner: map<nat, Role>, reserved: set<nat>)
    returns (n': nat, owner': map<nat, Role>)
    requires Inv(s, owner, reserved) && BreakAt(s, c, n) && MappedBelow(s, c, n)
    requires (forall op <- ops :: OnlySbrk(op, c)) && OthersOnUserPages(s, ops, c)
    requires BASE + n * PAGE + Total(ops, c) < WORD && Run(s, ops).Some?
    ensures var s' := Run(s, ops).value;
            && Inv(s', owner', reserved) && BreakAt(s', c, n') && MappedBelow(s', c, n')
            && n' * PAGE == n * PAGE + Total(ops, c)
            && Kept(s, s', c, n)
  {
    hide Inv, Step, MappedBelow, UserPage, Walk, BreakAt, OthersOnUserPages, OnUserPages;
    n', owner' := n, owner;
    if ops != [] {
      FewerOthersOnUserPages(s, ops, c);
      var init, op := ops[..|ops| - 1], ops[|ops| - 1];
      var s1 := Run(s, init).value;
      assert op in ops && forall o <- init :: o in ops;
      n', owner' := SbrkRun(s, c, n, init, owner, reserved);
      if op.Sbrk? && op.c == c {
        owner' := OwnSbrk(s1, c, n', op.request, owner', reserved);
        n' := n' + op.request / PAGE;
      } else {
        owner' := OtherStep(s1, c, n', op, owner', reserved);
      }
    }
  }

  // Each call returns the pool base plus the sum of the earlier requests.
  lemma SbrkReturnsRunningTotal(s: Sys, c: nat, ops: seq<Op>, owner: map<nat, Role>, reserved: set<nat>, i: nat)
    requires i < |ops| && Inv(s, owner, reserved) && BreakAt(s, c, 0) && (forall op <- ops :: OnlySbrk(op, c)) && OthersOnUserPages(s, ops[..i], c)
    requires BASE + Total(ops[..i], c) < WORD && Run(s, ops[..i]).Some?
    requires ops[i].Sbrk? && ops[i].c == c && ops[i].request != 0
    ensures var si := Run(s, ops[..i]).value;
            c in si.breaks && SbrkResult(si, c, ops[i].request) == BASE + Total(ops[..i], c)
  {
    assert forall op <- ops[..i] :: op in ops;
    hide Inv, Step, Run, Walk, OthersOnUserPages;
    var n', owner' := SbrkRun(s, c, 0, ops[..i], owner, reserved);
  }

  // ----- single calls

  // A request of 0 gets -1 and changes nothing.
  lemma SbrkOfNothing(s: Sys, c: nat)
    requires c in s.breaks
    ensures SbrkResult(s, c, 0) == 0xFFFF_FFFF && Step(s, Sbrk(c, 0)) == Some(s)
  {
  }

  // The pages that a call asked for are mapped now, each to a frame that was free before.
  ghost predicate Granted(s: Sys, s': Sys, c: nat, vaddr: u32, request: u32) {
    forall p :: vaddr / PAGE <= p < vaddr / PAGE + PagesOf(request) ==>
      Walk(s'.m, c, p) != 0 && Walk(s'.m, c, p) / PAGE in s'.m.frames.used && Walk(s'.m, c, p) / PAGE !in s.m.frames.used
  }

  // A call that returns has granted its request exactly if break and request do not wrap
  // around 2^32; else it has mapped nothing, and yet moved the break (syscall.c:58).
  lemma GrantedExactly(s: Sys, c: nat, request: u32, owner: map<nat, Role>, reserved: set<nat>)
    requires Inv(s, owner, reserved) && c in s.breaks && request != 0 && Step(s, Sbrk(c, request)).Some?
    ensures var s', vaddr := Step(s, Sbrk(c, request)).value, BreakAddress(s, c);
            && (Granted(s, s', c, vaddr, request) <==> vaddr + request < WORD)
            && (vaddr + request >= WORD ==> s'.m == s.m) && s'.breaks[c] == Wrap(s.breaks[c] + request)
  {
    hide Owned, KernelIdentity, NoUserSlots, AllocPages, PagesOf, Walk;
    var s', vaddr := Step(s, Sbrk(c, request)).value, BreakAddress(s, c);
    SomePagesOf(request);
    if vaddr + request < WORD {
      GrantedPages(s, s'.m, c, vaddr, request, owner, reserved);
    } else {
      var p := vaddr / PAGE;
      assert !(Walk(s'.m, c, p) / PAGE in s'.m.frames.used && Walk(s'.m, c, p) / PAGE !in s.m.frames.used);
    }
  }

  lemma GrantedPages(s: Sys, m': Mem, c: nat, vaddr: u32, request: u32, owner: map<nat, Role>, reserved: set<nat>)
    requires Inv(s, owner, reserved) && c in s.breaks && VmmAlloc(s.m, c, vaddr, request) == Some(m') && vaddr + request < WORD
    ensures forall p :: vaddr / PAGE <= p < vaddr / PAGE + PagesOf(request) ==>
              Walk(m', c, p) != 0 && Walk(m', c, p) / PAGE in m'.frames.used && Walk(m', c, p) / PAGE !in s.m.frames.used
  {
    hide Owned, KernelIdentity, NoUserSlots, VmmAlloc, PagesOf, Walk, UserPage, SameDirectory;
    var fs, _ := VmmAllocExact(s.m, s.k, s.Live(), owner, reserved, c, vaddr, request);
    forall p | vaddr / PAGE <= p < vaddr / PAGE + PagesOf(request)
      ensures Walk(m', c, p) != 0 && Walk(m', c, p) / PAGE in m'.frames.used && Walk(m', c, p) / PAGE !in s.m.frames.used
    {
      var f := fs[p - vaddr / PAGE];
      assert f in fs && f in Elements(fs) && Walk(m', c, p) == f * PAGE + USER;
      EntryParts(f);
    }
  }

  // The alignment that the source leaves open (syscall.c:54): after a request that is not a
  // multiple of the page size the next one runs into the assertion of map_page. It also
  // halts if it ends in the last page below 2^32, where the loop does not end before memory
  // does, and if fewer frames are free than it has pages, or fewer pool frames than it needs
  // tables; and for no other reason.
  lemma SbrkHaltsExactly(s: Sys, c: nat, request: u32, owner: map<nat, Role>, reserved: set<nat>)
    requires Inv(s, owner, reserved) && c in s.breaks && request != 0
    ensures var vaddr, n := BreakAddress(s, c), PagesOf(request);
            Step(s, Sbrk(c, request)) == None <==>
              && vaddr + request < WORD
              && (|| s.breaks[c] % PAGE != 0
                  || vaddr + request > WORD - PAGE
                  || n > |FreeUser(s.m)|
                  || |NewSlots(s.m, c, vaddr / PAGE, n)| > |FreePool(s.m)|)
  {
    hide AllocPages, FreeUser, FreePool, NewSlots, Owned, KernelIdentity, NoUserSlots;
    AlignedBreak(s.breaks[c]);
    var vaddr := BreakAddress(s, c);
    if vaddr % PAGE == 0 && vaddr + request <= WORD - PAGE {
      AllocPagesCounts(s.m, s.k, s.Live(), owner, reserved, c, vaddr / PAGE, PagesOf(request));
    }
  }

  lemma AlignedBreak(break_: nat)
    ensures Wrap(USER_START * PAGE + break_) % PAGE == break_ % PAGE
  {
  }
}
