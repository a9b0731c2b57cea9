/**
 The virtual memory manager as the source has it (hal.x86/vmm.c): tables are words in
 memory, written one by one. Each method is proved to compute the function of module
 Paging on the value of the memory. A result `ok` that is false means that an assertion
 failed and the kernel halted.
 */
module Vmm {
  import opened Machine
  import opened Frames
  import opened Paging
  import opened Ownership
  import opened Translation
  import opened Boot
  import opened Room
  import opened Pmm

  // The pointers that reach the tables of c lead into the pool, to frames in use.
  ghost predicate RootedIn(m: Mem, c: nat) {
    && InPool(c) && InPool(DirOf(m, c)) && c in m.frames.used && DirOf(m, c) in m.frames.used
    && forall i :: 0 <= i < SLOTS && PdEntry(m, c, i) % 2 == 1 ==> InPool(PdEntry(m, c, i) / PAGE)
  }

  lemma OwnedIsRooted(m: Mem, k: nat, live: set<nat>, owner: map<nat, Role>, reserved: set<nat>, c: nat)
    requires Owned(m, k, live, owner, reserved) && c in live
    ensures RootedIn(m, c)
  {
    assert ContextOk(m, k, owner, c) && ContextOk(m, k, owner, k);
    forall i | 0 <= i < SLOTS && PdEntry(m, c, i) % 2 == 1 ensures InPool(PdEntry(m, c, i) / PAGE) {
      WalkIsEntry(m, k, live, owner, reserved, c, i);
      assert TableOk(m, k, owner, c, i) && TableOk(m, k, owner, k, i);
    }
  }

  class Vmm {
    const pmm: Pmm
    const words: array2<nat>   // the words of the pool frames
    var kernelContext: nat     // the frame of kernel_context, 0 before InitVmm
    var currentContext: nat
    ghost var mem: Mem                 // what the bitmap, the counter and the words stand for
    ghost var live: set<nat>           // the contexts that exist
    ghost var owner: map<nat, Role>    // who owns which frame
    ghost var reserved: set<nat>       // the frames that boot had marked

    ghost predicate Valid()
      reads this`mem, pmm, pmm.bitmap, words
      ensures Valid() ==> WellFormed(mem)
    {
      && pmm.Valid() && words.Length0 == POOL_END - POOL_START && words.Length1 == SLOTS
      && mem.frames == pmm.Value() && mem.pool == PoolWords()
    }

    ghost function FrameWords(frame: nat): (s: seq<nat>)
      requires words.Length0 == POOL_END - POOL_START && words.Length1 == SLOTS && InPool(frame)
      reads words
      ensures |s| == SLOTS && forall i :: 0 <= i < SLOTS ==> s[i] == words[frame - POOL_START, i]
    {
      seq(SLOTS, i requires 0 <= i < SLOTS reads words => words[frame - POOL_START, i])
    }

    ghost function PoolWords(): (pool: map<nat, seq<nat>>)
      requires words.Length0 == POOL_END - POOL_START && words.Length1 == SLOTS
      reads words
      ensures forall f :: f in pool <==> InPool(f)
      ensures forall f <- pool :: pool[f] == FrameWords(f)
    {
      map f: nat | POOL_START <= f < POOL_END :: FrameWords(f)
    }

    // The state between two operations, once InitVmm has run.
    ghost predicate Sound()
      reads this, pmm, pmm.bitmap, words
    {
      Valid() && Owned(mem, kernelContext, live, owner, reserved)
    }

    ghost predicate Rooted(c: nat)
      reads this
    {
      RootedIn(mem, c)
    }

    constructor (pmm: Pmm)
      requires pmm.Valid()
      ensures Valid() && this.pmm == pmm && fresh(words) && kernelContext == 0 && currentContext == 0
      ensures mem.frames == pmm.Value()
    {
      this.pmm := pmm;
      words := new nat[POOL_END - POOL_START, SLOTS]((i, j) => 0);
      kernelContext := 0;
      currentContext := 0;
      live, owner, reserved := {}, map[], {};
      new;
      mem := Mem(pmm.Value(), PoolWords());
    }

    method Read(frame: nat, i: nat) returns (word: nat)
      requires Valid() && InPool(frame) && i < SLOTS
      ensures word == Word(mem, frame, i)
    {
      word := words[frame - POOL_START, i];
    }

    method Write(frame: nat, i: nat, word: nat)
      requires Valid() && InPool(frame) && i < SLOTS
      modifies this`mem, words
      ensures Valid() && mem == Store(old(mem), frame, i, word)
    {
      ghost var before := mem;
      words[frame - POOL_START, i] := word;
      mem := Store(mem, frame, i, word);
      assert FrameWords(frame) == SetWord(before.pool[frame], i, word);
      assert forall f :: InPool(f) && f != frame ==> FrameWords(f) == before.pool[f];
    }

    // pmm_alloc(PAGEPOOL_START, PAGEPOOL_END) and the assertion on its result
    method AllocPoolFrame() returns (ok: bool, frame: nat)
      requires Valid()
      modifies this`mem, pmm`freeMemory, pmm.bitmap
      ensures Valid()
      ensures match AllocPool(old(mem))
              case None => !ok
              case Some((m, f)) => ok && frame == f && mem == m
    {
      var started, addr := pmm.Alloc(POOL_START * PAGE, POOL_END * PAGE);
      frame := addr / PAGE;
      ok := addr != 0;
      mem := mem.(frames := pmm.Value());
    }

    // The loop that clears a new directory or table.
    method Clear(frame: nat)
      requires Valid() && InPool(frame)
      modifies this`mem, words
      ensures Valid() && mem == old(mem).(pool := old(mem).pool[frame := Zeros()])
    {
      ghost var before := mem;
      for i := 0 to SLOTS
        invariant Valid() && mem == before.(pool := before.pool[frame := FrameWords(frame)])
        invariant forall j :: 0 <= j < i ==> FrameWords(frame)[j] == 0
      {
        Write(frame, i, 0);
      }
      assert FrameWords(frame) == Zeros();
    }

    method CreateContext() returns (ok: bool, context: nat)
      requires Valid()
      modifies this`mem, pmm`freeMemory, pmm.bitmap, words
      ensures Valid()
      ensures match Paging.CreateContext(old(mem))
              case None => !ok
              case Some((m, c)) => ok && context == c && mem == m
    {
      var pagedir;
      ok, context := AllocPoolFrame();
      if !ok { return; }
      ok, pagedir := AllocPoolFrame();
      if !ok { return; }
      Write(context, 0, pagedir * PAGE);
      Clear(pagedir);
    }

    // context->pagedir[i] = kernel_context->pagedir[i]
    method CopyEntry(context: nat, i: nat)
      requires Valid() && InPool(context) && InPool(kernelContext) && i < SLOTS
      requires InPool(DirOf(mem, context)) && InPool(DirOf(mem, kernelContext))
      modifies this`mem, words
      ensures Valid() && mem == Store(old(mem), DirOf(old(mem), context), i, PdEntry(old(mem), kernelContext, i))
    {
      var pagedir := Read(context, 0);
      var kernelDir := Read(kernelContext, 0);
      var entry := Read(kernelDir / PAGE, i);
      Write(pagedir / PAGE, i, entry);
    }

    // The loop of CreateUsermodeContext.
    method CopyKernelDirectory(context: nat, ghost target: nat, ghost source: nat)
      requires Valid() && InPool(context) && InPool(kernelContext) && InPool(target) && InPool(source)
      requires DirOf(mem, context) == target && DirOf(mem, kernelContext) == source
      requires target != source && context != target && kernelContext != target
      modifies this`mem, words
      ensures Valid() && mem == old(mem).(pool := old(mem).pool[target := old(mem).pool[source]])
    {
      hide Word, Store;
      ghost var before := mem;
      for i := 0 to SLOTS
        invariant Valid() && mem == before.(pool := before.pool[target := FrameWords(target)])
        invariant forall j :: 0 <= j < i ==> FrameWords(target)[j] == before.pool[source][j]
      {
        Unaffected(before, target, FrameWords(target), context, kernelContext, source);
        ghost var copied := FrameWords(target);
        CopyEntry(context, i);
        StoreInto(before, target, copied, i, before.pool[source][i]);
        assert mem.pool[target] == FrameWords(target);
      }
      assert FrameWords(target) == before.pool[source];
    }

    method CreateUsermodeContext() returns (ok: bool, context: nat)
      requires Sound()
      modifies this`mem, this`owner, this`live, pmm`freeMemory, pmm.bitmap, words
      ensures Valid()
      ensures match CreateUser(old(mem), kernelContext)
              case None => !ok
              case Some((m, c)) => ok && context == c && mem == m && Sound() && c !in old(live) && live == old(live) + {c}
    {
      hide Valid, Owned, Paging.CreateContext, Store, WithContext, WellFormed, Word, DirOf;
      ghost var start, k := mem, kernelContext;
      CreateBasics(mem, k, live, owner, reserved);
      ok, context := CreateContext();
      if !ok { return; }
      CopyKernelDirectory(context, DirOf(mem, context), DirOf(mem, k));
      CreateKeepsOwned(start, k, live, owner, reserved);
      owner, live := WithContext(owner, context, DirOf(mem, context)), live + {context};
    }

    // map_page's first half: the page table, looked up or made.
    method PageTable(context: nat, pdIndex: nat, flags: nat) returns (ok: bool, pageTable: nat)
      requires Valid() && Rooted(context) && pdIndex < SLOTS
      modifies this`mem, pmm`freeMemory, pmm.bitmap, words
      ensures Valid()
      ensures match TableFor(old(mem), context, pdIndex, flags)
              case None => !ok
              case Some((m, t)) => ok && pageTable == t * PAGE && InPool(t) && mem == m
    {
      var pagedir := Read(context, 0);
      var entry := Read(pagedir / PAGE, pdIndex);
      ok := true;
      if entry % 2 == 1 {
        pageTable := entry - entry % PAGE;
        assert pageTable == entry / PAGE * PAGE;
      } else {
        ok, pageTable := NewTable(context, pagedir / PAGE, pdIndex, flags);
      }
    }

    method NewTable(ghost context: nat, pagedir: nat, pdIndex: nat, flags: nat) returns (ok: bool, pageTable: nat)
      requires Valid() && Rooted(context) && pagedir == DirOf(mem, context) && pdIndex < SLOTS
      modifies this`mem, pmm`freeMemory, pmm.bitmap, words
      ensures Valid()
      ensures match AllocTable(old(mem))
              case None => !ok
              case Some((m, t)) => ok && pageTable == t * PAGE && InPool(t)
                                   && mem == Store(m, DirOf(m, context), pdIndex, t * PAGE + flags)
    {
      NewTableElsewhere(mem, context);
      hide Store, Word, DirOf, PdEntry;
      var frame;
      ok, frame := AllocPoolFrame();
      pageTable := frame * PAGE;
      if !ok { return; }
      Clear(frame);
      Write(pagedir, pdIndex, pageTable + flags);
    }

    lemma WholePages(address: u32)
      requires address % PAGE == 0
      ensures address == address / PAGE * PAGE && address / PAGE / SLOTS < SLOTS
    {
    }

    method MapPage(context: nat, virt: u32, phys: u32, userspace: bool) returns (ok: bool)
      requires Valid() && Rooted(context)
      modifies this`mem, pmm`freeMemory, pmm.bitmap, words
      ensures Valid()
      ensures var mapped := Paging.MapPage(old(mem), context, virt / PAGE, phys / PAGE, if userspace then USER else USED_WRITE);
              if virt % PAGE == 0 && phys % PAGE == 0 && mapped.Some? then ok && mem == mapped.value else !ok
    {
      hide TableFor, Store, Word, DirOf, PdEntry, WellFormed, Valid, RootedIn;
      var pageIndex := virt / PAGE;
      var pdIndex, ptIndex := pageIndex / SLOTS, pageIndex % SLOTS;
      var flags := if userspace then USER else USED_WRITE;
      ok := virt % PAGE == 0 && phys % PAGE == 0;
      if !ok { return; }
      WholePages(virt);
      WholePages(phys);
      var pageTable;
      ok, pageTable := PageTable(context, pdIndex, flags);
      if ok {
        Write(pageTable / PAGE, ptIndex, phys + flags);
      }
    }

    // map_range, which only InitVmm calls: on the kernel context, with equal addresses.
    // The loop runs to the end address inclusive.
    method MapRange(start: nat, size: nat, ghost page: nat, ghost total: nat,
                    ghost owners: map<nat, Role>, ghost boot: set<nat>, ghost lo: nat, ghost hi: nat)
      returns (ok: bool)
      requires Valid() && KernelReady(mem, kernelContext, owners, boot, lo, hi)
      requires start == page * PAGE && size + PAGE == total * PAGE && page + total <= USER_START && lo <= page <= hi
      modifies this`mem, pmm`freeMemory, pmm.bitmap, words
      ensures Valid()
      ensures match Paging.MapRange(old(mem), kernelContext, page, page, total)
              case None => !ok
              case Some(m) => ok && mem == m
    {
      ghost var before, n := mem, 0;
      var i := start;
      ok := true;
      hide KernelReady, Paging.MapPage, Valid, WellFormed, RootedIn;
      while i <= start + size
        invariant Valid() && i == (page + n) * PAGE && n <= total
        invariant Paging.MapRange(before, kernelContext, page, page, n) == Some(mem)
      {
        KernelStaysRooted(before, kernelContext, owners, boot, lo, hi, page, n);
        PageOf(page + n, i);
        ok := MapPage(kernelContext, i, i, true);
        if !ok {
          MapRangeFails(before, kernelContext, page, n + 1, total);
          return;
        }
        i, n := i + PAGE, n + 1;
      }
    }

    // vmm_alloc. When the end of the request lies in the last page below 4 GB the loop
    // counter wraps around and the loop ends only when no frame is left.
    method VmmAlloc(context: nat, vaddr: u32, sz: u32) returns (ok: bool)
      requires Sound() && context in live && context != kernelContext
      modifies this`mem, this`owner, pmm`freeMemory, pmm.bitmap, words
      ensures Valid()
      ensures match Paging.VmmAlloc(old(mem), context, vaddr, sz)
              case None => !ok
              case Some(m) => ok && mem == m && Sound()
    {
      var end := Wrap(vaddr + sz);
      var i: nat := vaddr;
      ghost var before, n, free := mem, 0, |FreeUser(mem)|;
      ok := true;
      hide Owned, AllocPage, InLoop, Valid, FreeUser, WellFormed, Paging.VmmAlloc;
      LoopStarts(before, context, vaddr, sz);
      while i < end
        invariant Sound() && InLoop(before, mem, context, vaddr, sz, i, n)
        invariant live == old(live) && kernelContext == old(kernelContext) && free == |FreeUser(mem)|
        decreases free
      {
        ghost var m := mem;
        LoopIndex(before, m, context, vaddr, sz, i, n);
        ok := AllocOne(context, i, i / PAGE);
        LoopGoesOn(before, m, context, vaddr, sz, i, n);
        if !ok { return; }
        i, n, free := Wrap(i + PAGE), n + 1, |FreeUser(mem)|;
      }
      LoopEnds(before, mem, context, vaddr, sz, i, n);
    }

    // pmm_alloc_start(HEAP_END)
    method TakeUserFrame() returns (addr: u32)
      requires Valid()
      modifies this`mem, pmm`freeMemory, pmm.bitmap
      ensures Valid()
      ensures match LowestFree(old(mem).frames.used, HEAP_END, FRAMES)
              case None => addr == 0
              case Some(f) => addr == f * PAGE && mem == old(mem).(frames := old(mem).frames.Take(f))
    {
      hide UsedFrames;
      addr := pmm.AllocStart(HEAP_END * PAGE);
      mem := mem.(frames := pmm.Value());
    }

    // The body of the loop of vmm_alloc.
    method AllocOne(context: nat, virt: u32, ghost page: nat) returns (ok: bool)
      requires Sound() && context in live && context != kernelContext && page == virt / PAGE
      modifies this`mem, this`owner, pmm`freeMemory, pmm.bitmap, words
      ensures Valid()
      ensures var added := AllocPage(old(mem), context, page);
              if virt % PAGE == 0 && added.Some? then ok && mem == added.value && Sound() else !ok
      ensures ok ==> |FreeUser(mem)| < |FreeUser(old(mem))|
    {
      ghost var m := mem;
      hide Owned, Paging.MapPage, AllocPage, RootedIn, Claimed, Mapped, SameDirectory, OwnersOfAlloc, Valid, FreeUser, WellFormed, LowestFree;
      AllocPageIs(m, context, page);
      var physPage := TakeUserFrame();
      ok := physPage != 0;
      if !ok { return; }
      ghost var f := LowestFree(m.frames.used, HEAP_END, FRAMES).value;
      TakenStaysRooted(m, kernelContext, live, owner, reserved, context, f);
      PageOf(f, physPage);
      ok := MapPage(context, virt, physPage, true);
      if ok {
        f, owner := AllocPageStep(m, kernelContext, live, owner, reserved, context, page);
        FewerFree(m, mem, f);
      }
    }

    method FreeFrame(addr: u32)
      requires Valid()
      modifies this`mem, pmm`freeMemory, pmm.bitmap
      ensures Valid() && mem == old(mem).(frames := old(mem).frames.Release(addr / PAGE))
    {
      hide UsedFrames;
      pmm.Free(addr);
      mem := mem.(frames := pmm.Value());
    }

    // The inner loop of destroy_context: the pages of one table. `done` are the frames
    // released before.
    method FreeTable(pageTable: nat, ghost table: nat, ghost before: Mem, ghost done: seq<nat>)
      requires Valid() && mem == Released(before, done) && pageTable == table * PAGE && InPool(table)
      requires forall j :: 0 <= j < SLOTS ==> Word(before, table, j) < WORD
      modifies this`mem, pmm`freeMemory, pmm.bitmap
      ensures Valid() && mem == Released(before, done + TableFrees(before, table, SLOTS))
    {
      hide Valid, Word, Released, TableFrees;
      PageOf(table, pageTable);
      TableStarts(before, done, table);
      for j := 0 to SLOTS
        invariant Valid() && mem == Released(before, done + TableFrees(before, table, j))
      {
        TableStep(before, done, table, j);
        var word := Read(pageTable / PAGE, j);
        if word != 0 && word > HEAP_END * PAGE {
          FreeFrame(word - word % PAGE);
        }
      }
    }

    // One turn of the outer loop of destroy_context.
    method FreeSlot(context: nat, i: nat, ghost before: Mem, ghost done: seq<nat>)
      requires Valid() && mem == Released(before, done) && context in live && context != kernelContext && i < SLOTS
      requires Owned(before, kernelContext, live, owner, reserved)
      modifies this`mem, pmm`freeMemory, pmm.bitmap
      ensures Valid() && mem == Released(before, done + SlotFrees(before, context, kernelContext, i))
    {
      hide Valid, Owned, Word, Released, TableFrees, SlotFrees;
      SlotPointers(before, kernelContext, live, owner, reserved, context, i);
      SlotStep(before, done, context, kernelContext, i);
      AlignDown(PdEntry(before, context, i));
      var pagedir := Read(context, 0);
      var entry := Read(pagedir / PAGE, i);
      var kernelDir := Read(kernelContext, 0);
      var kernelEntry := Read(kernelDir / PAGE, i);
      if entry != 0 && entry != kernelEntry {
        FreeTable(entry - entry % PAGE, entry / PAGE, before, done);
        FreeFrame(entry - entry % 0x100);
      }
    }

    // The outer loop of destroy_context.
    method FreeSlots(context: nat)
      requires Sound() && context in live && context != kernelContext
      modifies this`mem, pmm`freeMemory, pmm.bitmap
      ensures Valid() && mem == Released(old(mem), DirFrees(old(mem), context, kernelContext, SLOTS))
    {
      ghost var before := mem;
      hide Valid, Owned, Word, Released, SlotFrees, DirFrees;
      DirStarts(before, context, kernelContext);
      for i := 0 to SLOTS
        invariant Valid() && mem == Released(before, DirFrees(before, context, kernelContext, i))
      {
        DirStep(before, context, kernelContext, i);
        FreeSlot(context, i, before, DirFrees(before, context, kernelContext, i));
      }
    }

    method DestroyContext(context: nat) returns (ok: bool)
      requires Sound() && context in live
      modifies this`mem, this`owner, this`live, pmm`freeMemory, pmm.bitmap
      ensures Valid() && ok == (context != kernelContext)
      ensures ok ==> Paging.Destroy(old(mem), context, kernelContext) == Some(mem) && live == old(live) - {context} && Sound()
      ensures !ok ==> mem == old(mem) && live == old(live) && owner == old(owner)
    {
      hide Valid, Owned, Word, Released, DirFrees, Paging.Destroy, WithoutContext;
      ok := context != kernelContext;
      if !ok { return; }
      DestroyFacts(mem, kernelContext, live, owner, reserved, context);
      FreeSlots(context);
      var pagedir := Read(context, 0);
      FreeFrame(pagedir);
      FreeFrame(context * PAGE);
      owner, live := WithoutContext(owner, context), live - {context};
    }

    method Activate(context: nat)
      modifies this`currentContext
      ensures currentContext == context
    {
      currentContext := context;
    }

    // InitVmm: create_context, three calls of map_range, activate_memory_context. What boot
    // had marked used is reserved from now on.
    method InitVmm() returns (ok: bool)
      requires Valid()
      modifies this, pmm`freeMemory, pmm.bitmap, words
      ensures Valid()
      ensures match Paging.InitVmm(old(mem))
              case None => !ok
              case Some((m, k)) => ok && mem == m && kernelContext == k && currentContext == k
                                   && Sound() && live == {k} && reserved == old(mem).frames.used
    {
      hide Valid, Owned, Paging.MapRange, Paging.CreateContext, Identity, NoUserSlots;
      ghost var start, boot := mem, mem.frames.used;
      ok, kernelContext := CreateContext();
      if !ok { return; }
      ghost var owners, m1, m2 := InitVmmSteps(start);
      ok := MapRange(KERNEL_START * PAGE, (POOL_START - KERNEL_START) * PAGE, KERNEL_START, POOL_START - KERNEL_START + 1,
                     owners.0, boot, KERNEL_START, KERNEL_START);
      if !ok { return; }
      ok := MapRange(POOL_START * PAGE, 0x200000, POOL_START, POOL_END - POOL_START + 1, owners.1, boot, KERNEL_START, POOL_START + 1);
      if !ok { return; }
      ok := MapRange(HEAP_START * PAGE, 0x1400000, HEAP_START, HEAP_END - HEAP_START + 1, owners.2, boot, KERNEL_START, POOL_END + 1);
      if !ok { return; }
      Activate(kernelContext);
      owner := InitVmmOwned(start);
      live, reserved := {kernelContext}, boot;
    }
  }

  lemma FirstContextReady(m: Mem) returns (owner: map<nat, Role>)
    requires WellFormed(m) && Paging.CreateContext(m).Some?
    ensures var (m0, k) := Paging.CreateContext(m).value;
            KernelReady(m0, k, owner, m.frames.used, KERNEL_START, KERNEL_START)
  {
    FirstContextOwned(m);
    var (m0, k) := Paging.CreateContext(m).value;
    owner := WithContext(map[], k, DirOf(m0, k));
  }

  // The owners before each of the three calls of map_range.
  lemma InitVmmSteps(m: Mem) returns (owners: (map<nat, Role>, map<nat, Role>, map<nat, Role>), m1: Mem, m2: Mem)
    requires WellFormed(m) && Paging.CreateContext(m).Some?
    ensures var (m0, k) := Paging.CreateContext(m).value;
            KernelReady(m0, k, owners.0, m.frames.used, KERNEL_START, KERNEL_START)
    ensures var (m0, k) := Paging.CreateContext(m).value;
            Paging.MapRange(m0, k, KERNEL_START, KERNEL_START, POOL_START - KERNEL_START + 1) == Some(m1) ==>
              KernelReady(m1, k, owners.1, m.frames.used, KERNEL_START, POOL_START + 1)
    ensures var (m0, k) := Paging.CreateContext(m).value;
            Paging.MapRange(m0, k, KERNEL_START, KERNEL_START, POOL_START - KERNEL_START + 1).Some? ==>
              Paging.MapRange(m0, k, KERNEL_START, KERNEL_START, POOL_START - KERNEL_START + 1) == Some(m1)
    ensures var (m0, k) := Paging.CreateContext(m).value;
            Paging.MapRange(m0, k, KERNEL_START, KERNEL_START, POOL_START - KERNEL_START + 1) == Some(m1) ==>
              match Paging.MapRange(m1, k, POOL_START, POOL_START, POOL_END - POOL_START + 1)
              case None => true
              case Some(m') => m' == m2 && KernelReady(m2, k, owners.2, m.frames.used, KERNEL_START, POOL_END + 1)
  {
    hide Owned, Paging.MapRange, Paging.CreateContext, Identity, NoUserSlots;
    var boot := m.frames.used;
    var (m0, k) := Paging.CreateContext(m).value;
    var o0 := FirstContextReady(m);
    owners, m1, m2 := (o0, o0, o0), m0, m0;
    var r1 := Paging.MapRange(m0, k, KERNEL_START, KERNEL_START, POOL_START - KERNEL_START + 1);
    if r1.Some? {
      m1 := r1.value;
      var o1 := MapRangeStep(m0, k, o0, boot, KERNEL_START, KERNEL_START, KERNEL_START, POOL_START - KERNEL_START + 1);
      owners := (o0, o1, o1);
      var r2 := Paging.MapRange(m1, k, POOL_START, POOL_START, POOL_END - POOL_START + 1);
      if r2.Some? {
        m2 := r2.value;
        var o2 := MapRangeStep(m1, k, o1, boot, KERNEL_START, POOL_START + 1, POOL_START, POOL_END - POOL_START + 1);
        owners := (o0, o1, o2);
      }
    }
  }

  lemma AllocPageIs(m: Mem, c: nat, page: nat)
    ensures AllocPage(m, c, page) ==
            match LowestFree(m.frames.used, HEAP_END, FRAMES)
            case None => None
            case Some(f) => Paging.MapPage(m.(frames := m.frames.Take(f)), c, page, f, USER)
  {
  }

  function Released(m: Mem, frames: seq<nat>): Mem {
    m.(frames := ReleaseAll(m.frames, frames))
  }

  lemma ReleasedOneMore(m: Mem, frames: seq<nat>, f: nat)
    ensures Released(m, frames + [f]) == Released(m, frames).(frames := Released(m, frames).frames.Release(f))
  {
    assert (frames + [f])[..|frames|] == frames;
  }

  lemma SameWords(m: Mem, frames: seq<nat>)
    ensures forall f, i :: Word(Released(m, frames), f, i) == Word(m, f, i)
  {
  }

  // Releasing frame f next, or nothing.
  function ReleasedNext(m: Mem, frees: bool, f: nat): Mem {
    if frees then m.(frames := m.frames.Release(f)) else m
  }

  lemma TableStarts(m: Mem, done: seq<nat>, table: nat)
    ensures Released(m, done) == Released(m, done + TableFrees(m, table, 0))
  {
    assert done + [] == done;
  }

  lemma TableStep(m: Mem, done: seq<nat>, table: nat, j: nat)
    ensures var w := Word(m, table, j); var so := Released(m, done + TableFrees(m, table, j));
            && Word(so, table, j) == w
            && Released(m, done + TableFrees(m, table, j + 1)) == ReleasedNext(so, w != 0 && w > HEAP_END * PAGE, w / PAGE)
  {
    var w, so := Word(m, table, j), done + TableFrees(m, table, j);
    SameWords(m, so);
    ReleasedOneMore(m, so, w / PAGE);
    assert done + TableFrees(m, table, j + 1) == so + EntryFrees(w);
    assert so + [] == so;
  }

  lemma SlotStep(m: Mem, done: seq<nat>, c: nat, k: nat, i: nat)
    ensures var e := PdEntry(m, c, i); var so := Released(m, done);
            && DirOf(so, c) == DirOf(m, c) && PdEntry(so, c, i) == e && DirOf(so, k) == DirOf(m, k) && PdEntry(so, k, i) == PdEntry(m, k, i)
            && Released(m, done + SlotFrees(m, c, k, i)) ==
               if e != 0 && e != PdEntry(m, k, i)
               then ReleasedNext(Released(m, done + TableFrees(m, e / PAGE, SLOTS)), true, (e - e % 0x100) / PAGE)
               else so
  {
    SameWords(m, done);
    var e := PdEntry(m, c, i);
    if Differs(m, c, k, i) {
      var so := done + TableFrees(m, e / PAGE, SLOTS);
      ReleasedOneMore(m, so, (e - e % 0x100) / PAGE);
      assert done + SlotFrees(m, c, k, i) == so + [(e - e % 0x100) / PAGE];
    } else {
      assert done + [] == done;
    }
  }

  lemma DirStarts(m: Mem, c: nat, k: nat)
    ensures Released(m, DirFrees(m, c, k, 0)) == m
  {
  }

  lemma DirStep(m: Mem, c: nat, k: nat, i: nat)
    ensures DirFrees(m, c, k, i + 1) == DirFrees(m, c, k, i) + SlotFrees(m, c, k, i)
  {
  }

  lemma AlignDown(word: nat)
    ensures word - word % PAGE == word / PAGE * PAGE && word - word % 0x100 <= word
  {
  }

  lemma DestroyEnds(m: Mem, c: nat, k: nat)
    requires c != k
    ensures var so := Released(m, DirFrees(m, c, k, SLOTS)); var d := Word(m, c, 0) / PAGE;
            && Word(so, c, 0) == Word(m, c, 0)
            && Paging.Destroy(m, c, k) == Some(so.(frames := so.frames.Release(d).Release(c)))
  {
    var so, d := DirFrees(m, c, k, SLOTS), Word(m, c, 0) / PAGE;
    SameWords(m, so);
    ReleasedOneMore(m, so, d);
    ReleasedOneMore(m, so + [d], c);
  }

  // The addresses that destroy_context follows and releases are frames below 4 GB.
  lemma SlotPointers(m: Mem, k: nat, live: set<nat>, owner: map<nat, Role>, reserved: set<nat>, c: nat, i: nat)
    requires Owned(m, k, live, owner, reserved) && c in live && c != k && i < SLOTS
    ensures InPool(c) && InPool(DirOf(m, c)) && InPool(k) && InPool(DirOf(m, k))
    ensures Differs(m, c, k, i) ==>
              var e := PdEntry(m, c, i);
              InPool(e / PAGE) && e < WORD && forall j :: 0 <= j < SLOTS ==> Word(m, e / PAGE, j) < WORD
  {
    assert ContextOk(m, k, owner, c) && ContextOk(m, k, owner, k) && TableOk(m, k, owner, c, i) && SharesKernel(m, k, c, i);
    if Differs(m, c, k, i) {
      forall j | 0 <= j < SLOTS ensures Word(m, PdEntry(m, c, i) / PAGE, j) < WORD {
        assert PageOk(m, owner, c, i, j);
      }
    }
  }

  lemma DestroyFacts(m: Mem, k: nat, live: set<nat>, owner: map<nat, Role>, reserved: set<nat>, c: nat)
    requires Owned(m, k, live, owner, reserved) && c in live && c != k
    ensures var so := Released(m, DirFrees(m, c, k, SLOTS)); var pagedir := Word(so, c, 0);
            && InPool(c) && c * PAGE < WORD && c * PAGE / PAGE == c && pagedir < WORD
            && Paging.Destroy(m, c, k) == Some(so.(frames := so.frames.Release(pagedir / PAGE).Release(c)))
            && Owned(so.(frames := so.frames.Release(pagedir / PAGE).Release(c)), k, live - {c}, WithoutContext(owner, c), reserved)
  {
    ContextPointers(m, k, live, owner, reserved, c);
    DestroyKeepsOwned(m, k, live, owner, reserved, c);
    DestroyEnds(m, c, k);
  }

  lemma ContextPointers(m: Mem, k: nat, live: set<nat>, owner: map<nat, Role>, reserved: set<nat>, c: nat)
    requires Owned(m, k, live, owner, reserved) && c in live
    ensures InPool(c) && InPool(DirOf(m, c)) && c * PAGE < WORD && Word(m, c, 0) < WORD
  {
    assert ContextOk(m, k, owner, c);
  }

  lemma PageOf(page: nat, addr: nat)
    requires addr == page * PAGE
    ensures addr / PAGE == page && addr % PAGE == 0
  {
  }

  lemma SubsetSize(a: set<nat>, b: set<nat>)
    requires a <= b
    ensures |a| <= |b|
  {
    assert b == a + (b - a);
  }

  lemma FewerFree(m: Mem, m': Mem, f: nat)
    requires Claimed(m, m', {f}) && f !in m.frames.used && HEAP_END <= f < FRAMES
    ensures |FreeUser(m')| < |FreeUser(m)|
  {
    var free, free' := FreeUser(m), FreeUser(m');
    assert free' <= free - {f} && |free - {f}| == |free| - 1;
    SubsetSize(free', free - {f});
  }

  // The loop of vmm_alloc before its turn n, with counter i and memory m.
  ghost predicate InLoop(before: Mem, m: Mem, c: nat, vaddr: nat, sz: nat, i: nat, n: nat) {
    && i < WORD
    && if vaddr + sz >= WORD || vaddr % PAGE != 0 then i == vaddr && m == before && n == 0
       else if vaddr + sz > WORD - PAGE then i % PAGE == 0
       else i == vaddr + n * PAGE && n <= PagesOf(sz) && AllocPages(before, c, vaddr / PAGE, n) == Some(m)
  }

  lemma LoopStarts(m: Mem, c: nat, vaddr: u32, sz: u32)
    ensures InLoop(m, m, c, vaddr, sz, vaddr, 0)
  {
  }

  lemma LoopIndex(before: Mem, m: Mem, c: nat, vaddr: nat, sz: nat, i: nat, n: nat)
    requires InLoop(before, m, c, vaddr, sz, i, n)
    ensures i < WORD
  {
  }

  // One turn: if it fails the whole request fails.
  lemma LoopGoesOn(before: Mem, m: Mem, c: nat, vaddr: u32, sz: u32, i: nat, n: nat)
    requires InLoop(before, m, c, vaddr, sz, i, n) && i < Wrap(vaddr + sz)
    ensures var added := AllocPage(m, c, i / PAGE);
            if i % PAGE == 0 && added.Some? then InLoop(before, added.value, c, vaddr, sz, Wrap(i + PAGE), n + 1)
            else Paging.VmmAlloc(before, c, vaddr, sz) == None
  {
    hide AllocPage;
    if vaddr % PAGE == 0 && vaddr + sz <= WORD - PAGE {
      assert i / PAGE == vaddr / PAGE + n && n < PagesOf(sz);
      if AllocPage(m, c, i / PAGE) == None {
        AllocPagesFails(before, c, vaddr / PAGE, n + 1, PagesOf(sz));
      }
    }
  }

  lemma LoopEnds(before: Mem, m: Mem, c: nat, vaddr: u32, sz: u32, i: nat, n: nat)
    requires InLoop(before, m, c, vaddr, sz, i, n) && i >= Wrap(vaddr + sz)
    ensures Paging.VmmAlloc(before, c, vaddr, sz) == Some(m)
  {
    hide AllocPage;
  }

  ghost predicate KernelReady(m: Mem, k: nat, owner: map<nat, Role>, reserved: set<nat>, lo: nat, hi: nat) {
    Owned(m, k, {k}, owner, reserved) && NoUserSlots(m, k) && Identity(m, k, lo, hi)
  }

  lemma KernelStaysRooted(m: Mem, k: nat, owner: map<nat, Role>, reserved: set<nat>, lo: nat, hi: nat, page: nat, n: nat)
    requires KernelReady(m, k, owner, reserved, lo, hi) && lo <= page <= hi && page + n <= USER_START
    requires Paging.MapRange(m, k, page, page, n).Some?
    ensures RootedIn(Paging.MapRange(m, k, page, page, n).value, k)
  {
    var owner' := MapRangeStep(m, k, owner, reserved, lo, hi, page, n);
    OwnedIsRooted(Paging.MapRange(m, k, page, page, n).value, k, {k}, owner', reserved, k);
  }

  lemma {:induction false} MapRangeFails(m: Mem, k: nat, page: nat, n: nat, total: nat)
    requires n <= total && Paging.MapRange(m, k, page, page, n) == None
    ensures Paging.MapRange(m, k, page, page, total) == None
    decreases total
  {
    if n < total { MapRangeFails(m, k, page, n, total - 1); }
  }

  lemma {:induction false} AllocPagesFails(m: Mem, c: nat, page: nat, n: nat, total: nat)
    requires n <= total && AllocPages(m, c, page, n) == None
    ensures AllocPages(m, c, page, total) == None
    decreases total
  {
    if n < total { AllocPagesFails(m, c, page, n, total - 1); }
  }

  lemma TakenStaysRooted(m: Mem, k: nat, live: set<nat>, owner: map<nat, Role>, reserved: set<nat>, c: nat, f: nat)
    requires Owned(m, k, live, owner, reserved) && c in live && f < FRAMES && f !in m.frames.used
    ensures RootedIn(m.(frames := m.frames.Take(f)), c)
  {
    TakeKeepsOwned(m, k, live, owner, reserved, f);
    OwnedIsRooted(m.(frames := m.frames.Take(f)), k, live, owner, reserved, c);
  }

  // create_context leaves the kernel context and its directory alone.
  lemma CreateBasics(m: Mem, k: nat, live: set<nat>, owner: map<nat, Role>, reserved: set<nat>)
    requires Owned(m, k, live, owner, reserved)
    ensures Paging.CreateContext(m).Some? ==>
              var (m1, c) := Paging.CreateContext(m).value; var target, source := DirOf(m1, c), DirOf(m1, k);
              && InPool(c) && InPool(k) && InPool(target) && InPool(source)
              && target != source && c != target && k != target
              && CreateUser(m, k) == Some((m1.(pool := m1.pool[target := m1.pool[source]]), c))
    ensures Paging.CreateContext(m) == None ==> CreateUser(m, k) == None
  {
    assert ContextOk(m, k, owner, k);
    if Paging.CreateContext(m).Some? { ContextCreated(m); }
  }

  lemma StoreInto(m: Mem, target: nat, words: seq<nat>, i: nat, word: nat)
    requires |words| == SLOTS && i < SLOTS
    ensures var m' := Store(m.(pool := m.pool[target := words]), target, i, word);
            m' == m.(pool := m.pool[target := SetWord(words, i, word)]) && m'.pool[target] == SetWord(words, i, word)
  {
  }

  // Writing to one frame does not move the directories of contexts elsewhere.
  lemma Unaffected(m: Mem, target: nat, words: seq<nat>, c: nat, k: nat, source: nat)
    requires WellFormed(m) && InPool(target) && InPool(source) && |words| == SLOTS
    requires c != target && k != target && source != target
    ensures var m' := m.(pool := m.pool[target := words]);
            DirOf(m', c) == DirOf(m, c) && DirOf(m', k) == DirOf(m, k)
            && forall i :: 0 <= i < SLOTS ==> Word(m', source, i) == m.pool[source][i]
  {
  }

  lemma NewTableElsewhere(m: Mem, c: nat)
    requires WellFormed(m) && InPool(c) && c in m.frames.used && DirOf(m, c) in m.frames.used
    ensures AllocTable(m).Some? ==>
              var (m1, t) := AllocTable(m).value;
              WellFormed(m1) && InPool(t) && DirOf(m1, c) == DirOf(m, c)
  {
  }
}
