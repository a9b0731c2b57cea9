/**
 The physical frame allocator (hal.x86/pmm.c). The source keeps one bit per frame in
 32768 words and a counter of free bytes. `Frames` is the value it stands for: the set
 of used frame numbers and the counter.
 */
module Frames {
  import opened Machine

  datatype Frames = Frames(used: set<nat>, freeMemory: nat) {
    predicate Valid() {
      freeMemory < WORD && forall f <- used :: f < FRAMES
    }

    function Take(frame: nat): Frames {
      Frames(used + {frame}, Wrap(freeMemory - PAGE))
    }

    function Release(frame: nat): Frames {
      Frames(used - {frame}, Wrap(freeMemory + PAGE))
    }

    // What the counter and the bitmap have in common.
    function Ledger(): nat {
      Wrap(freeMemory + PAGE * |used|)
    }
  }

  // The first free frame in lo..hi. NULL is frame 0 here, which is why frame 0 is reserved.
  function LowestFree(used: set<nat>, lo: nat, hi: nat): (r: Option<nat>)
    ensures r.Some? ==> lo <= r.value < hi && r.value !in used && forall g :: lo <= g < r.value ==> g in used
    ensures r.None? ==> forall g :: lo <= g < hi ==> g in used
    decreases hi - lo
  {
    if lo >= hi then None
    else if lo !in used then Some(lo)
    else LowestFree(used, lo + 1, hi)
  }

  function Interval(lo: nat, hi: nat): (r: set<nat>)
    ensures forall p :: p in r <==> lo <= p < hi
    decreases hi - lo
  {
    if lo >= hi then {} else {lo} + Interval(lo + 1, hi)
  }

  // Releases frames one after the other; the list may name a frame twice.
  function ReleaseAll(m: Frames, frames: seq<nat>): Frames {
    if frames == [] then m
    else ReleaseAll(m, frames[..|frames| - 1]).Release(frames[|frames| - 1])
  }

  ghost predicate Distinct(frames: seq<nat>) {
    forall i, j :: 0 <= i < j < |frames| ==> frames[i] != frames[j]
  }

  function Elements(frames: seq<nat>): set<nat> {
    set f | f in frames
  }

  // Claiming a free frame or releasing a used one keeps the ledger; claiming a used
  // frame or releasing a free one breaks it.
  lemma LedgerKeptExactlyByLegalUse(m: Frames, frame: nat)
    ensures m.Take(frame).Ledger() == m.Ledger() <==> frame !in m.used
    ensures m.Release(frame).Ledger() == m.Ledger() <==> frame in m.used
  {
    hide Wrap;
    var taken, released := m.Take(frame), m.Release(frame);
    if frame in m.used {
      assert m.used + {frame} == m.used;
      assert |m.used - {frame}| == |m.used| - 1;
    } else {
      assert |m.used + {frame}| == |m.used| + 1;
      assert m.used - {frame} == m.used;
    }
    WrapShift(m.freeMemory - PAGE, PAGE * |taken.used|);
    WrapShift(m.freeMemory + PAGE, PAGE * |released.used|);
    var sum := m.freeMemory + PAGE * |m.used|;
    WrapApart(sum);
  }

  lemma WrapShift(x: int, y: int)
    ensures Wrap(Wrap(x) + y) == Wrap(x + y)
  {
    var q := x / WORD;
    assert x == q * WORD + Wrap(x);
    AddMultiple(Wrap(x) + y, q);
  }

  lemma AddMultiple(x: int, q: int)
    ensures Wrap(x + q * WORD) == Wrap(x)
  {
    assert (x + q * WORD) / WORD == x / WORD + q;
  }

  lemma WrapApart(x: int)
    ensures Wrap(x + PAGE) != Wrap(x) && Wrap(x - PAGE) != Wrap(x)
  {
  }

  // Releasing pairwise distinct used frames removes exactly them and keeps the ledger.
  lemma {:induction false} ReleaseAllExact(m: Frames, frames: seq<nat>)
    requires m.Valid() && Distinct(frames)
    requires forall f <- frames :: f in m.used
    ensures ReleaseAll(m, frames).Valid()
    ensures ReleaseAll(m, frames).used == m.used - Elements(frames)
    ensures ReleaseAll(m, frames).Ledger() == m.Ledger()
  {
    if frames != [] {
      var init, last := frames[..|frames| - 1], frames[|frames| - 1];
      ReleaseAllExact(m, init);
      ElementsOfAppend(frames);
      LedgerKeptExactlyByLegalUse(ReleaseAll(m, init), last);
    }
  }

  lemma ElementsOfAppend(frames: seq<nat>)
    requires frames != [] && Distinct(frames)
    ensures var init, last := frames[..|frames| - 1], frames[|frames| - 1];
            Elements(frames) == Elements(init) + {last} && last !in init
  {
    var init, last := frames[..|frames| - 1], frames[|frames| - 1];
    assert frames == init + [last];
  }

  // The ledger together with the set of used frames determines the counter.
  lemma LedgerDeterminesCounter(a: Frames, b: Frames)
    requires a.Valid() && b.Valid()
    requires a.used == b.used && a.Ledger() == b.Ledger()
    ensures a == b
  {
    var n := PAGE * |a.used|;
    var q, p := (a.freeMemory + n) / WORD, (b.freeMemory + n) / WORD;
    assert a.freeMemory - b.freeMemory == (q - p) * WORD;
  }
}

module Pmm {
  import opened Machine
  import opened Frames

  const BITMAP_SIZE: nat := 32768

  function Mask(offset: nat): bv32
    requires offset < 32
  {
    (1 as bv32) << offset
  }

  predicate Bit(word: bv32, offset: nat)
    requires offset < 32
  {
    word & Mask(offset) != 0
  }

  ghost function UsedFrames(words: seq<bv32>): set<nat>
    requires |words| == BITMAP_SIZE
  {
    set f: nat | 0 <= f < FRAMES && Bit(words[f / 32], f % 32)
  }

  // One memory map entry and one boot module, as the boot loader hands them over.
  datatype Region = Region(kind: nat, base: nat, length: nat)
  datatype BootModule = BootModule(start: nat, end: nat)

  class Pmm {
    const bitmap: array<bv32>
    var freeMemory: nat

    ghost predicate Valid()
      reads this
    {
      bitmap.Length == BITMAP_SIZE && freeMemory < WORD
    }

    ghost function Value(): (m: Frames)
      requires Valid()
      reads this, bitmap
      ensures m.Valid()
    {
      Frames(UsedFrames(bitmap[..]), freeMemory)
    }

    // static storage: the bitmap and the counter start out as zero
    constructor ()
      ensures Valid() && fresh(bitmap)
      ensures Value() == Frames({}, 0)
    {
      bitmap := new bv32[BITMAP_SIZE](_ => 0);
      freeMemory := 0;
      new;
      forall f: nat | 0 <= f < FRAMES ensures !Bit(bitmap[..][f / 32], f % 32) {
        Zero(Mask(f % 32));
      }
    }

    static function GetIndex(addr: nat): (r: (nat, nat))
      requires addr < WORD
      ensures r.0 < BITMAP_SIZE && r.1 < 32
      ensures 32 * r.0 + r.1 == addr / PAGE
    {
      var page := addr / PAGE;
      (page / 32, page % 32)
    }

    method Free(addr: nat)
      requires Valid() && addr < WORD
      modifies this`freeMemory, bitmap
      ensures Valid() && Value() == old(Value()).Release(addr / PAGE)
    {
      var (index, offset) := GetIndex(addr);
      ghost var before := bitmap[..];
      bitmap[index] := bitmap[index] & !Mask(offset);
      freeMemory := Wrap(freeMemory + PAGE);
      ClearingIsOneBit(before[index], offset);
      OneBitIsOneFrame(before, bitmap[..], index, offset, false);
    }

    method Use(addr: nat)
      requires Valid() && addr < WORD
      modifies this`freeMemory, bitmap
      ensures Valid() && Value() == old(Value()).Take(addr / PAGE)
    {
      var (index, offset) := GetIndex(addr);
      ghost var before := bitmap[..];
      bitmap[index] := bitmap[index] | Mask(offset);
      freeMemory := Wrap(freeMemory - PAGE);
      SettingIsOneBit(before[index], offset);
      OneBitIsOneFrame(before, bitmap[..], index, offset, true);
    }

    // As in the source, zero means that the page is free.
    method IsFree(addr: nat) returns (word: bv32)
      requires Valid() && addr < WORD
      ensures word == 0 <==> addr / PAGE !in Value().used
    {
      var (index, offset) := GetIndex(addr);
      word := bitmap[index] & Mask(offset);
    }

    // `ok` is false when the assertion start < end fails and the kernel halts.
    // The result 0 is NULL.
    method Alloc(start: nat, end: nat) returns (ok: bool, addr: nat)
      requires Valid() && start % PAGE == 0 && end % PAGE == 0 && end < WORD
      modifies this`freeMemory, bitmap
      ensures Valid() && addr < WORD && ok == (start < end)
      ensures ok ==> match LowestFree(old(Value()).used, start / PAGE, end / PAGE)
                     case Some(f) => addr == f * PAGE && Value() == old(Value()).Take(f)
                     case None => addr == 0 && Value() == old(Value())
      ensures !ok ==> Value() == old(Value())
    {
      hide UsedFrames;
      var i := start;
      addr := 0;
      ok := start < end;
      if !ok { return; }
      while i < end
        invariant start <= i <= end && i % PAGE == 0
        invariant Valid() && Value() == old(Value()) && bitmap[..] == old(bitmap[..])
        invariant LowestFree(Value().used, start / PAGE, end / PAGE) == LowestFree(Value().used, i / PAGE, end / PAGE)
      {
        var word := IsFree(i);
        if word == 0 {
          Use(i);
          addr := i;
          return;
        }
        i := i + PAGE;
      }
    }

    method AllocStart(start: nat) returns (addr: nat)
      requires Valid() && start < WORD
      modifies this`freeMemory, bitmap
      ensures Valid() && addr < WORD
      ensures match LowestFree(old(Value()).used, start / PAGE, FRAMES)
              case Some(f) => addr == f * PAGE && Value() == old(Value()).Take(f)
              case None => addr == 0 && Value() == old(Value())
    {
      hide UsedFrames;
      var i := start / PAGE;
      addr := 0;
      while i < FRAMES
        invariant start / PAGE <= i <= FRAMES
        invariant Valid() && Value() == old(Value()) && bitmap[..] == old(bitmap[..])
        invariant LowestFree(Value().used, start / PAGE, FRAMES) == LowestFree(Value().used, i, FRAMES)
      {
        var word := IsFree(i * PAGE);
        if word == 0 {
          Use(i * PAGE);
          addr := i * PAGE;
          return;
        }
        i := i + 1;
      }
    }

    // The marking loop used for the kernel, for each module and for the heap. A page that
    // is marked already is counted again.
    method UseRange(start: nat, end: nat)
      requires Valid() && end + PAGE <= WORD
      modifies this`freeMemory, bitmap
      ensures Valid() && Value() == Frames(old(Value()).used + PagesFrom(start, end), Counted(old(freeMemory), -Steps(start, end)))
    {
      hide UsedFrames, Counted;
      ghost var m := Value();
      var addr, n := start, 0;
      Uncounted(freeMemory);
      while addr < end
        invariant Valid() && addr == start + n * PAGE && n <= Steps(start, end)
        invariant Value() == Frames(m.used + Interval(start / PAGE, start / PAGE + n), Counted(m.freeMemory, -n))
      {
        StepIn(start, end, n);
        CountedDown(m.freeMemory, -n);
        Use(addr);
        addr, n := addr + PAGE, n + 1;
      }
      AllSteps(start, end, n);
    }

    method FreeRange(start: nat, end: nat)
      requires Valid() && end + PAGE <= WORD
      modifies this`freeMemory, bitmap
      ensures Valid() && Value() == Frames(old(Value()).used - PagesFrom(start, end), Counted(old(freeMemory), Steps(start, end)))
    {
      hide UsedFrames, Counted;
      ghost var m := Value();
      var addr, n := start, 0;
      Uncounted(freeMemory);
      while addr < end
        invariant Valid() && addr == start + n * PAGE && n <= Steps(start, end)
        invariant Value() == Frames(m.used - Interval(start / PAGE, start / PAGE + n), Counted(m.freeMemory, n))
      {
        StepIn(start, end, n);
        CountedUp(m.freeMemory, n);
        Free(addr);
        addr, n := addr + PAGE, n + 1;
      }
      AllSteps(start, end, n);
    }

    method Clear()
      requires Valid()
      modifies bitmap
      ensures Valid() && Value().used == {}
    {
      forall i | 0 <= i < bitmap.Length { bitmap[i] := 0; }
      forall f: nat | 0 <= f < FRAMES ensures !Bit(bitmap[..][f / 32], f % 32) {
        Zero(Mask(f % 32));
      }
    }

    method FreeRegions(regions: seq<Region>)
      requires Valid() && Value().used == {}
      requires forall r <- regions :: Wrap(r.base + r.length) + PAGE <= WORD
      modifies this`freeMemory, bitmap
      ensures Valid() && Value() == Frames({}, Counted(old(freeMemory), RegionSteps(regions)))
    {
      hide UsedFrames, Counted, PagesFrom, Steps;
      ghost var c := freeMemory;
      Uncounted(c);
      for i := 0 to |regions|
        invariant Valid() && Value() == Frames({}, Counted(c, RegionSteps(regions[..i])))
      {
        assert regions[..i + 1][..i] == regions[..i];
        var r := regions[i];
        if r.kind == 1 {
          WrapShift(r.base, r.length);
          CountedTwice(c, RegionSteps(regions[..i]), Steps(Wrap(r.base), Wrap(r.base + r.length)));
          FreeRange(Wrap(r.base), Wrap(Wrap(r.base) + r.length));
        }
      }
      assert regions[..|regions|] == regions;
    }

    method UseModules(modules: seq<BootModule>)
      requires Valid()
      requires forall b <- modules :: b.end + PAGE <= WORD
      modifies this`freeMemory, bitmap
      ensures Valid() && Value() == Frames(old(Value()).used + ModulePages(modules), Counted(old(freeMemory), -ModuleSteps(modules)))
    {
      hide UsedFrames, Counted, PagesFrom, Steps;
      ghost var m := Value();
      Uncounted(freeMemory);
      for i := 0 to |modules|
        invariant Valid() && Value() == Frames(m.used + ModulePages(modules[..i]), Counted(m.freeMemory, -ModuleSteps(modules[..i])))
      {
        assert modules[..i + 1][..i] == modules[..i];
        CountedTwice(m.freeMemory, -ModuleSteps(modules[..i]), -Steps(modules[i].start, modules[i].end));
        UseRange(modules[i].start, modules[i].end);
      }
      assert modules[..|modules|] == modules;
    }

    // InitPmm clears the bitmap under a comment that says "mark all used" (pmm.c:57-58);
    // a clear bit means free, so releasing the type-1 regions changes the counter only.
    // The end of a region is cut to 32 bits. A loop whose end lies in the last page
    // below 4 GB would not stop, hence the second and third precondition.
    // `ok` is false when the machine has too little memory and the kernel halts.
    method Init(memUpper: u32, regions: seq<Region>, info: u32, mods: u32, modules: seq<BootModule>) returns (ok: bool)
      requires Valid()
      requires forall r <- regions :: Wrap(r.base + r.length) + PAGE <= WORD
      requires forall b <- modules :: b.end + PAGE <= WORD
      modifies this`freeMemory, bitmap
      ensures Valid() && ok == (memUpper / 1024 + 1 > 30)
      ensures ok ==> Value() == Frames(BootReserved(info, mods, modules), Counted(old(freeMemory), RegionSteps(regions) - BootSteps(modules)))
      ensures ok ==> forall f :: f in Value().used <==> MarkedAtBoot(f, info, mods, modules)
      ensures ok ==> freeMemory == (old(freeMemory) + PAGE * (|RegionVisits(regions)| - |ModuleVisits(modules)| - KernelPages() - 5120 - 3)) % 0x1_0000_0000
    {
      BootReservedExactly(info, mods, modules);
      BootStepsExactly(freeMemory, regions, modules);
      hide UsedFrames, Counted, RegionSteps, BootSteps, BootReserved;
      ok := memUpper / 1024 + 1 > 30;
      if !ok { return; }
      ghost var c := freeMemory;
      Clear();
      FreeRegions(regions);
      MarkBoot(info, mods, modules);
      CountedTwice(c, RegionSteps(regions), -BootSteps(modules));
    }

    // The marking part of InitPmm.
    method MarkBoot(info: u32, mods: u32, modules: seq<BootModule>)
      requires Valid() && forall b <- modules :: b.end + PAGE <= WORD
      modifies this`freeMemory, bitmap
      ensures Valid()
      ensures Value() == Frames(old(Value()).used + BootReserved(info, mods, modules), Counted(old(freeMemory), -BootSteps(modules)))
    {
      hide UsedFrames, Counted, PagesFrom, Steps, ModulePages, ModuleSteps;
      ghost var m, kernel, heap := Value(), Steps(KERNEL_START * PAGE, POOL_START * PAGE), Steps(HEAP_START * PAGE, HEAP_END * PAGE);
      UseRange(KERNEL_START * PAGE, POOL_START * PAGE);
      UseTwo(info, mods);
      CountedTwice(m.freeMemory, -kernel, -2);
      UseModules(modules);
      CountedTwice(m.freeMemory, -kernel - 2, -ModuleSteps(modules));
      UseRange(HEAP_START * PAGE, HEAP_END * PAGE);
      CountedTwice(m.freeMemory, -kernel - 2 - ModuleSteps(modules), -heap);
      CountedDown(m.freeMemory, -kernel - 2 - ModuleSteps(modules) - heap);
      Use(0);
    }

    // The two boot structures.
    method UseTwo(info: u32, mods: u32)
      requires Valid()
      modifies this`freeMemory, bitmap
      ensures Valid() && Value() == Frames(old(Value()).used + {info / PAGE, mods / PAGE}, Counted(old(freeMemory), -2))
    {
      hide UsedFrames, Counted;
      Uncounted(freeMemory);
      CountedDown(freeMemory, 0);
      CountedDown(freeMemory, -1);
      Use(info);
      Use(mods);
    }
  }

  // How often the body of a loop runs from start up to end in steps of one page.
  function Steps(start: nat, end: nat): (n: int)
    ensures n >= 0
  {
    PagesOf(if start < end then end - start else 0)
  }

  // The counter after n more pages were freed than used.
  function Counted(counter: nat, n: int): nat {
    Wrap(counter + PAGE * n)
  }

  lemma Uncounted(counter: u32)
    ensures Counted(counter, 0) == counter
  {
  }

  lemma CountedUp(counter: nat, n: int)
    ensures Wrap(Counted(counter, n) + PAGE) == Counted(counter, n + 1)
  {
    WrapShift(counter + PAGE * n, PAGE);
  }

  lemma CountedDown(counter: nat, n: int)
    ensures Wrap(Counted(counter, n) - PAGE) == Counted(counter, n - 1)
  {
    WrapShift(counter + PAGE * n, 0 - PAGE);
  }

  lemma CountedTwice(counter: nat, n: int, k: int)
    ensures Counted(Counted(counter, n), k) == Counted(counter, n + k)
  {
    WrapShift(counter + PAGE * n, PAGE * k);
    assert PAGE * n + PAGE * k == PAGE * (n + k);
  }

  // In turn n the loop is at page n of the range.
  lemma StepIn(start: nat, end: nat, n: nat)
    requires start + n * PAGE < end
    ensures n < Steps(start, end) && (start + n * PAGE) / PAGE == start / PAGE + n
    ensures Interval(start / PAGE, start / PAGE + n + 1) == Interval(start / PAGE, start / PAGE + n) + {start / PAGE + n}
  {
  }

  lemma AllSteps(start: nat, end: nat, n: nat)
    requires start + n * PAGE >= end && n <= Steps(start, end)
    ensures n == Steps(start, end)
  {
  }

  // The type-1 regions, page by page.
  function RegionSteps(regions: seq<Region>): int {
    if regions == [] then 0
    else
      var r := regions[|regions| - 1];
      RegionSteps(regions[..|regions| - 1]) + if r.kind == 1 then Steps(Wrap(r.base), Wrap(r.base + r.length)) else 0
  }

  function ModuleSteps(modules: seq<BootModule>): int {
    if modules == [] then 0
    else ModuleSteps(modules[..|modules| - 1]) + Steps(modules[|modules| - 1].start, modules[|modules| - 1].end)
  }

  // The pages that InitPmm counts as used: the kernel, two boot structures, the modules, the
  // heap and page 0, each as often as it is marked.
  function BootSteps(modules: seq<BootModule>): int {
    Steps(KERNEL_START * PAGE, POOL_START * PAGE) + 2 + ModuleSteps(modules) + Steps(HEAP_START * PAGE, HEAP_END * PAGE) + 1
  }

  // The pages a loop visits that runs from start up to end in steps of one page.
  function PagesFrom(start: nat, end: nat): set<nat> {
    Interval(start / PAGE, start / PAGE + Steps(start, end))
  }

  function ModulePages(modules: seq<BootModule>): set<nat> {
    if modules == [] then {}
    else ModulePages(modules[..|modules| - 1]) + PagesFrom(modules[|modules| - 1].start, modules[|modules| - 1].end)
  }

  // What InitPmm leaves marked: the kernel, the boot structures, the modules, the heap, page 0.
  function BootReserved(info: nat, mods: nat, modules: seq<BootModule>): set<nat> {
    PagesFrom(KERNEL_START * PAGE, POOL_START * PAGE) + {info / PAGE, mods / PAGE} + ModulePages(modules)
    + PagesFrom(HEAP_START * PAGE, HEAP_END * PAGE) + {0}
  }

  // ----- what is marked at boot

  // A frame of the kernel, of the heap or of a module, frame 0, or that of a boot structure.
  ghost predicate MarkedAtBoot(f: nat, info: nat, mods: nat, modules: seq<BootModule>) {
    || KERNEL_START <= f < POOL_START || HEAP_START <= f < HEAP_END || f == 0 || f == info / PAGE || f == mods / PAGE
    || exists i :: 0 <= i < |modules| && HoldsModule(f, modules[i])
  }

  // The loop goes from the start of the module in steps of a page.
  predicate HoldsModule(f: nat, b: BootModule) {
    b.start < b.end && b.start / PAGE <= f <= b.start / PAGE + (b.end - b.start - 1) / PAGE
  }

  function KernelPages(): nat {
    POOL_START - KERNEL_START
  }

  // The addresses that a loop visits.
  function Visited(start: nat, end: nat): set<nat> {
    set a | start <= a < end && InSteps(start, a)
  }

  predicate InSteps(start: nat, a: nat) {
    start <= a && (a - start) % PAGE == 0
  }

  // Those of the type-1 regions, cut to 32 bits, and of the modules.
  function RegionVisits(regions: seq<Region>): set<(nat, nat)> {
    set i: nat, a | i < |regions| && regions[i].kind == 1
                    && a in Visited(regions[i].base % 0x1_0000_0000, (regions[i].base + regions[i].length) % 0x1_0000_0000) :: (i, a)
  }

  function ModuleVisits(modules: seq<BootModule>): set<(nat, nat)> {
    set i: nat, a | i < |modules| && a in Visited(modules[i].start, modules[i].end) :: (i, a)
  }

  lemma {:induction false} VisitedIs(start: nat, end: nat, n: nat)
    requires n == Steps(start, end)
    ensures |Visited(start, end)| == n
    decreases end
  {
    if n == 0 {
      assert Visited(start, end) == {};
    } else {
      var last := start + (n - 1) * PAGE;
      LastVisit(start, end, n);
      VisitedIs(start, last, n - 1);
      assert Visited(start, end) == Visited(start, last) + {last};
    }
  }

  lemma LastVisit(start: nat, end: nat, n: nat)
    requires n == Steps(start, end) && n > 0
    ensures var last := start + (n - 1) * PAGE;
            start <= last < end && Steps(start, last) == n - 1 && InSteps(start, last)
    ensures forall a :: start + (n - 1) * PAGE < a < end ==> !InSteps(start, a)
  {
    var last := start + (n - 1) * PAGE;
    forall a | last < a < end ensures !InSteps(start, a) {
      assert a - start == (n - 1) * PAGE + (a - last) && 0 < a - last < PAGE;
    }
  }

  lemma PagesFromIs(start: nat, end: nat)
    ensures forall f: nat :: f in PagesFrom(start, end) <==> start < end && start / PAGE <= f <= start / PAGE + (end - start - 1) / PAGE
  {
  }

  lemma {:induction false} ModulePagesAre(modules: seq<BootModule>)
    ensures forall f: nat :: f in ModulePages(modules) <==> exists i :: 0 <= i < |modules| && HoldsModule(f, modules[i])
  {
    hide PagesFrom;
    if modules != [] {
      var init, last := modules[..|modules| - 1], modules[|modules| - 1];
      ModulePagesAre(init);
      PagesFromIs(last.start, last.end);
      forall f: nat ensures f in ModulePages(modules) <==> exists i :: 0 <= i < |modules| && HoldsModule(f, modules[i]) {
        if f in ModulePages(init) {
          var i :| 0 <= i < |init| && HoldsModule(f, init[i]);
          assert HoldsModule(f, modules[i]);
        }
        if i :| 0 <= i < |modules| && HoldsModule(f, modules[i]) { assert i < |init| ==> HoldsModule(f, init[i]); }
        assert HoldsModule(f, last) ==> HoldsModule(f, modules[|modules| - 1]);
      }
    }
  }

  lemma BootReservedExactly(info: nat, mods: nat, modules: seq<BootModule>)
    ensures forall f: nat :: f in BootReserved(info, mods, modules) <==> MarkedAtBoot(f, info, mods, modules)
  {
    hide PagesFrom, ModulePages, HoldsModule;
    ModulePagesAre(modules);
    PagesFromIs(KERNEL_START * PAGE, POOL_START * PAGE);
    PagesFromIs(HEAP_START * PAGE, HEAP_END * PAGE);
    WholeRange(KERNEL_START, POOL_START);
    WholeRange(HEAP_START, HEAP_END);
  }

  lemma WholeRange(lo: nat, hi: nat)
    requires lo < hi
    ensures lo * PAGE < hi * PAGE && lo * PAGE / PAGE + (hi * PAGE - lo * PAGE - 1) / PAGE == hi - 1 && lo * PAGE / PAGE == lo
    ensures Steps(lo * PAGE, hi * PAGE) == hi - lo
  {
  }

  lemma {:induction false} RegionStepsAre(regions: seq<Region>)
    ensures RegionSteps(regions) == |RegionVisits(regions)|
  {
    hide Steps, Visited, RegionVisits, Tagged;
    if regions == [] {
      assert RegionVisits(regions) == {} by { NoRegions(); }
    } else {
      var init, n, r := regions[..|regions| - 1], |regions| - 1, regions[|regions| - 1];
      RegionStepsAre(init);
      var more := VisitedOf(r);
      if r.kind == 1 { VisitedIs(Wrap(r.base), Wrap(r.base + r.length), Steps(Wrap(r.base), Wrap(r.base + r.length))); }
      OneRegionMore(regions);
      TaggedSize(n, more);
    }
  }

  lemma NoRegions()
    ensures RegionVisits([]) == {}
  {
  }

  function VisitedOf(r: Region): set<nat> {
    if r.kind == 1 then Visited(r.base % 0x1_0000_0000, (r.base + r.length) % 0x1_0000_0000) else {}
  }

  lemma OneRegionMore(regions: seq<Region>)
    requires regions != []
    ensures var init, n, more := regions[..|regions| - 1], |regions| - 1, VisitedOf(regions[|regions| - 1]);
            RegionVisits(regions) == RegionVisits(init) + Tagged(n, more) && RegionVisits(init) !! Tagged(n, more)
  {
    hide Visited;
  }

  lemma {:induction false} ModuleStepsAre(modules: seq<BootModule>)
    ensures ModuleSteps(modules) == |ModuleVisits(modules)|
  {
    hide Steps, Visited;
    if modules == [] {
      assert ModuleVisits(modules) == {};
    } else {
      var init, n, b := modules[..|modules| - 1], |modules| - 1, modules[|modules| - 1];
      ModuleStepsAre(init);
      VisitedIs(b.start, b.end, Steps(b.start, b.end));
      assert ModuleVisits(modules) == ModuleVisits(init) + Tagged(n, Visited(b.start, b.end));
      TaggedSize(n, Visited(b.start, b.end));
    }
  }

  function Tagged(n: nat, visits: set<nat>): set<(nat, nat)> {
    set a | a in visits :: (n, a)
  }

  lemma {:induction false} TaggedSize(n: nat, visits: set<nat>)
    ensures |Tagged(n, visits)| == |visits|
  {
    if visits == {} {
      assert Tagged(n, visits) == {};
    } else {
      var a :| a in visits;
      TaggedSize(n, visits - {a});
      assert Tagged(n, visits) == Tagged(n, visits - {a}) + {(n, a)};
    }
  }

  lemma BootStepsExactly(counter: nat, regions: seq<Region>, modules: seq<BootModule>)
    ensures Counted(counter, RegionSteps(regions) - BootSteps(modules))
            == (counter + PAGE * (|RegionVisits(regions)| - |ModuleVisits(modules)| - KernelPages() - 5120 - 3)) % 0x1_0000_0000
  {
    hide Steps, RegionSteps, ModuleSteps, RegionVisits, ModuleVisits;
    RegionStepsAre(regions);
    ModuleStepsAre(modules);
    WholeRange(KERNEL_START, POOL_START);
    WholeRange(HEAP_START, HEAP_END);
  }

  // ----- one bit of a word

  lemma Zero(mask: bv32)
    ensures 0 & mask == 0
  {
  }

  lemma MaskDistinct(o: nat, p: nat)
    requires o < 32 && p < 32
    ensures Mask(o) & Mask(p) == if o == p then Mask(o) else 0
    ensures Mask(o) != 0
  {
  }

  lemma OrKeeps(w: bv32, a: bv32, b: bv32)
    requires a & b == 0
    ensures (w | a) & b == w & b
  {
  }

  lemma AndNotKeeps(w: bv32, a: bv32, b: bv32)
    requires a & b == 0
    ensures (w & !a) & b == w & b
  {
  }

  lemma OrSets(w: bv32, a: bv32)
    requires a != 0
    ensures (w | a) & a != 0
  {
  }

  lemma AndNotClears(w: bv32, a: bv32)
    ensures (w & !a) & a == 0
  {
  }

  lemma SetsIt(w: bv32, o: nat)
    requires o < 32
    ensures Bit(w | Mask(o), o)
  {
    MaskDistinct(o, o);
    OrSets(w, Mask(o));
  }

  lemma SetsNoOther(w: bv32, o: nat, p: nat)
    requires o < 32 && p < 32 && o != p
    ensures Bit(w | Mask(o), p) <==> Bit(w, p)
  {
    MaskDistinct(o, p);
    OrKeeps(w, Mask(o), Mask(p));
  }

  lemma ClearsIt(w: bv32, o: nat)
    requires o < 32
    ensures !Bit(w & !Mask(o), o)
  {
    AndNotClears(w, Mask(o));
  }

  lemma ClearsNoOther(w: bv32, o: nat, p: nat)
    requires o < 32 && p < 32 && o != p
    ensures Bit(w & !Mask(o), p) <==> Bit(w, p)
  {
    MaskDistinct(o, p);
    AndNotKeeps(w, Mask(o), Mask(p));
  }

  // `after` is `before` with the bit at `offset` set to `bit`.
  ghost predicate OneBit(before: bv32, after: bv32, offset: nat, bit: bool)
    requires offset < 32
  {
    forall p: nat | p < 32 :: Bit(after, p) <==> if p == offset then bit else Bit(before, p)
  }

  lemma SettingIsOneBit(w: bv32, o: nat)
    requires o < 32
    ensures OneBit(w, w | Mask(o), o, true)
  {
    forall p: nat | p < 32 ensures Bit(w | Mask(o), p) <==> p == o || Bit(w, p) {
      if p == o { SetsIt(w, o); } else { SetsNoOther(w, o, p); }
    }
  }

  lemma ClearingIsOneBit(w: bv32, o: nat)
    requires o < 32
    ensures OneBit(w, w & !Mask(o), o, false)
  {
    forall p: nat | p < 32 ensures Bit(w & !Mask(o), p) <==> p != o && Bit(w, p) {
      if p == o { ClearsIt(w, o); } else { ClearsNoOther(w, o, p); }
    }
  }

  // Replacing a word by one that differs in a single bit changes the set by a single frame.
  lemma OneBitIsOneFrame(before: seq<bv32>, after: seq<bv32>, index: nat, offset: nat, bit: bool)
    requires |before| == |after| == BITMAP_SIZE && index < BITMAP_SIZE && offset < 32
    requires after == before[index := after[index]]
    requires OneBit(before[index], after[index], offset, bit)
    ensures var frame := {32 * index + offset};
            UsedFrames(after) == if bit then UsedFrames(before) + frame else UsedFrames(before) - frame
  {
  }
}
