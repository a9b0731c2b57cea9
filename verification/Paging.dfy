/**
 Two-level page tables in frames of the page pool (hal.x86/vmm.c; Intel SDM volume 3A,
 "32-Bit Paging"), as functions on values. A table is a frame of 1024 words; a word is
 zero or a frame address plus flags. A context is named by the frame of its vmm_context_t,
 whose first word is the address of its page directory.

 None stands for a failed assertion: the kernel halts (hal.x86/include/debug.h:20).

 destroy_context uses a directory entry as a pointer without clearing its flag bits
 (vmm.c:46). Here it is cleared, as map_page does (vmm.c:108); module AsWritten is about
 the pointer as it stands.
 */
module Paging {
  import opened Machine
  import opened Frames

  datatype Mem = Mem(frames: Frames, pool: map<nat, seq<nat>>)

  const USED_WRITE: nat := 3  // VMM_USED | VMM_WRITE
  const USER: nat := 7        // VMM_USED | VMM_WRITE | VMM_USERSPACE

  ghost predicate WellFormed(m: Mem) {
    && m.frames.Valid()
    && (forall f :: f in m.pool <==> InPool(f))
    && (forall f <- m.pool :: |m.pool[f]| == SLOTS)
  }

  // ----- reading

  function Word(m: Mem, frame: nat, i: nat): nat {
    if frame in m.pool && i < |m.pool[frame]| then m.pool[frame][i] else 0
  }

  function Words(m: Mem, frame: nat): seq<nat> {
    if frame in m.pool then m.pool[frame] else Zeros()
  }

  function DirOf(m: Mem, c: nat): nat {
    Word(m, c, 0) / PAGE
  }

  function PdEntry(m: Mem, c: nat, i: nat): nat {
    Word(m, DirOf(m, c), i)
  }

  function PtEntry(m: Mem, c: nat, i: nat, j: nat): nat {
    Word(m, PdEntry(m, c, i) / PAGE, j)
  }

  // The page walk: the table word for a page, or 0 when its directory entry is not present.
  function Walk(m: Mem, c: nat, page: nat): nat {
    if PdEntry(m, c, page / SLOTS) % 2 == 1 then PtEntry(m, c, page / SLOTS, page % SLOTS) else 0
  }

  // ----- writing

  function Store(m: Mem, frame: nat, i: nat, word: nat): Mem {
    if frame in m.pool && i < |m.pool[frame]| then m.(pool := m.pool[frame := SetWord(m.pool[frame], i, word)]) else m
  }

  function SetWord(words: seq<nat>, i: nat, word: nat): seq<nat>
    requires i < |words|
  {
    words[i := word]
  }

  function Zeros(): (z: seq<nat>)
    ensures |z| == SLOTS && forall i :: 0 <= i < SLOTS ==> z[i] == 0
  {
    seq(SLOTS, _ => 0)
  }

  function AllocPool(m: Mem): Option<(Mem, nat)> {
    match LowestFree(m.frames.used, POOL_START, POOL_END)
    case None => None
    case Some(f) => Some((m.(frames := m.frames.Take(f)), f))
  }

  function AllocTable(m: Mem): Option<(Mem, nat)> {
    match AllocPool(m)
    case None => None
    case Some((m', f)) => Some((m'.(pool := m'.pool[f := Zeros()]), f))
  }

  // create_context
  function CreateContext(m: Mem): Option<(Mem, nat)> {
    match AllocPool(m)
    case None => None
    case Some((m1, c)) =>
      match AllocPool(m1)
      case None => None
      case Some((m2, d)) =>
        var m3 := Store(m2, c, 0, d * PAGE);
        Some((m3.(pool := m3.pool[d := Zeros()]), c))
  }

  // CreateUsermodeContext
  function CreateUser(m: Mem, k: nat): Option<(Mem, nat)>
  {
    match CreateContext(m)
    case None => None
    case Some((m1, c)) =>
      Some((m1.(pool := m1.pool[DirOf(m1, c) := Words(m1, DirOf(m1, k))]), c))
  }

  // The page table of directory slot i, made if the slot is not present.
  function TableFor(m: Mem, c: nat, i: nat, flags: nat): Option<(Mem, nat)> {
    var e := PdEntry(m, c, i);
    if e % 2 == 1 then Some((m, e / PAGE))
    else
      match AllocTable(m)
      case None => None
      case Some((m1, t)) => Some((Store(m1, DirOf(m1, c), i, t * PAGE + flags), t))
  }

  // map_page, past its alignment check
  function MapPage(m: Mem, c: nat, page: nat, frame: nat, flags: nat): Option<Mem> {
    match TableFor(m, c, page / SLOTS, flags)
    case None => None
    case Some((m1, t)) => Some(Store(m1, t, page % SLOTS, frame * PAGE + flags))
  }

  // map_range, which maps consecutive pages to consecutive frames
  function MapRange(m: Mem, c: nat, page: nat, frame: nat, n: nat): Option<Mem> {
    if n == 0 then Some(m)
    else
      match MapRange(m, c, page, frame, n - 1)
      case None => None
      case Some(m1) => MapPage(m1, c, page + n - 1, frame + n - 1, USER)
  }

  // One turn of the loop of vmm_alloc.
  function AllocPage(m: Mem, c: nat, page: nat): Option<Mem> {
    match LowestFree(m.frames.used, HEAP_END, FRAMES)
    case None => None
    case Some(f) => MapPage(m.(frames := m.frames.Take(f)), c, page, f, USER)
  }

  function AllocPages(m: Mem, c: nat, page: nat, n: nat): Option<Mem> {
    if n == 0 then Some(m)
    else
      match AllocPages(m, c, page, n - 1)
      case None => None
      case Some(m1) => AllocPage(m1, c, page + n - 1)
  }

  // vmm_alloc on 32-bit addresses. When vaddr + sz wraps the loop does nothing; when the
  // end lies inside the last page the loop counter wraps and it runs until memory is
  // exhausted; an unaligned address fails the assertion in map_page.
  function VmmAlloc(m: Mem, c: nat, vaddr: nat, sz: nat): Option<Mem> {
    if sz == 0 || vaddr + sz >= WORD then Some(m)
    else if vaddr % PAGE != 0 || vaddr + sz > WORD - PAGE then None
    else AllocPages(m, c, vaddr / PAGE, PagesOf(sz))
  }

  // ----- destroying: the frames released, in order

  function EntryFrees(word: nat): seq<nat> {
    if word != 0 && word > HEAP_END * PAGE then [word / PAGE] else []
  }

  function TableFrees(m: Mem, table: nat, n: nat): seq<nat> {
    if n == 0 then [] else TableFrees(m, table, n - 1) + EntryFrees(Word(m, table, n - 1))
  }

  predicate Differs(m: Mem, c: nat, k: nat, i: nat) {
    PdEntry(m, c, i) != 0 && PdEntry(m, c, i) != PdEntry(m, k, i)
  }

  function SlotFrees(m: Mem, c: nat, k: nat, i: nat): seq<nat> {
    var e := PdEntry(m, c, i);
    if Differs(m, c, k, i) then TableFrees(m, e / PAGE, SLOTS) + [(e - e % 0x100) / PAGE] else []
  }

  function DirFrees(m: Mem, c: nat, k: nat, n: nat): seq<nat> {
    if n == 0 then [] else DirFrees(m, c, k, n - 1) + SlotFrees(m, c, k, n - 1)
  }

  function ContextFrees(m: Mem, c: nat, k: nat): seq<nat> {
    DirFrees(m, c, k, SLOTS) + [DirOf(m, c)] + [c]
  }

  // destroy_context
  function Destroy(m: Mem, c: nat, k: nat): Option<Mem> {
    if c == k then None else Some(m.(frames := ReleaseAll(m.frames, ContextFrees(m, c, k))))
  }

  // The identity-mapped ranges of the kernel. map_range runs to the end address inclusive
  // (vmm.c:134), so each range has one page more.
  function MapKernel(m: Mem, k: nat): Option<Mem> {
    match MapRange(m, k, KERNEL_START, KERNEL_START, POOL_START - KERNEL_START + 1)
    case None => None
    case Some(m1) =>
      match MapRange(m1, k, POOL_START, POOL_START, POOL_END - POOL_START + 1)
      case None => None
      case Some(m2) => MapRange(m2, k, HEAP_START, HEAP_START, HEAP_END - HEAP_START + 1)
  }

  function InitVmm(m: Mem): Option<(Mem, nat)> {
    match CreateContext(m)
    case None => None
    case Some((m0, k)) =>
      match MapKernel(m0, k)
      case None => None
      case Some(m1) => Some((m1, k))
  }
}
