/**
 Loading a program (hal.x86/elf.c): for each segment memory is allocated in the new address
 space, the kernel switches to it and writes the bytes through its page tables.
 */
module Elf {
  import opened Machine
  import opened Frames
  import opened Paging
  import opened Ownership
  import opened Translation
  import opened Boot
  import opened AddressSpaceRuns
  import opened Access
  import Heap

  const ELF_MAGIC: nat := 0x464C457F

  // ----- the program headers

  // The part of a program header that is used.
  datatype Program = Program(kind: nat, offset: nat, vaddr: u32, fsize: u32, msize: u32)

  function Byte(image: seq<byte>, at: nat): byte
    requires |image| == WORD
  {
    image[Wrap(at)]
  }

  function ReadU16(image: seq<byte>, at: nat): nat
    requires |image| == WORD
  {
    Byte(image, at) + 0x100 * Byte(image, at + 1)
  }

  function ReadU32(image: seq<byte>, at: nat): u32
    requires |image| == WORD
  {
    ReadU16(image, at) + 0x1_0000 * ReadU16(image, at + 2)
  }

  // Program header i of the image at addr; 32 bytes each, from header->offset on.
  function ProgramAt(image: seq<byte>, addr: nat, i: nat): Program
    requires |image| == WORD
  {
    ProgramIn(image, HeaderAt(image, addr, i))
  }

  function HeaderAt(image: seq<byte>, addr: nat, i: nat): nat
    requires |image| == WORD
  {
    addr + ReadU32(image, addr + 28) + 32 * i
  }

  function ProgramIn(image: seq<byte>, p: nat): Program
    requires |image| == WORD
  {
    Program(ReadU32(image, p), ReadU32(image, p + 4), ReadU32(image, p + 8), ReadU32(image, p + 16), ReadU32(image, p + 20))
  }

  function Count(image: seq<byte>, addr: nat): nat
    requires |image| == WORD
  {
    ReadU16(image, addr + 44)
  }

  function Entry(image: seq<byte>, addr: nat): u32
    requires |image| == WORD
  {
    ReadU32(image, addr + 24)
  }

  predicate Loadable(p: Program, addr: nat) {
    p.kind == 1 && p.vaddr != 0 && Wrap(addr + p.offset) != 0
  }

  // The bytes of the file from address src on.
  function FileBytes(image: seq<byte>, src: nat, n: nat): (s: seq<byte>)
    requires |image| == WORD
    ensures |s| == n && forall i :: 0 <= i < n ==> s[i] == Byte(image, src + i)
  {
    seq<byte>(n, i requires 0 <= i => Byte(image, src + i))
  }

  // ----- loading

  // The tables, the bytes of memory and the kernel heap.
  datatype Loaded = Loaded(m: Mem, ram: seq<byte>, heap: seq<Heap.Block>)

  // One program header of a given image. The bytes of the file go into a buffer on the kernel heap, written in
  // the active address space; then, in the address space of c, zeros are written and the
  // buffer is copied. None: the heap or the memory is exhausted, the address is not aligned, a
  // write faults in the kernel, or the buffer begins at the very end of the heap, so that
  // kfree refuses it (heap.c:88); each time the kernel stops.
  function LoadOne(s: Loaded, active: nat, c: nat, image: seq<byte>, addr: nat, p: Program): (r: Option<Loaded>)
    requires |s.ram| == |image| == WORD
    ensures r.Some? ==> |r.value.ram| == WORD
  {
    if !Loadable(p, addr) then Some(s)
    else
      match Heap.Malloc(s.heap, p.fsize)
      case None => None
      case Some((heap1, buf)) =>
        match Write(s.ram, s.m, active, buf, FileBytes(image, addr + p.offset, p.fsize))
        case None => None
        case Some(ram1) => Placed(s.m, ram1, heap1, buf, c, p)
  }

  // The part after the buffer is filled.
  function Placed(m: Mem, ram: seq<byte>, heap: seq<Heap.Block>, buf: nat, c: nat, p: Program): (r: Option<Loaded>)
    requires |ram| == WORD
    ensures r.Some? ==> |r.value.ram| == WORD
  {
    match VmmAlloc(m, c, p.vaddr, p.msize)
    case None => None
    case Some(m1) =>
      match Fill(ram, m1, c, p, buf)
      case None => None
      case Some(ram1) => if buf >= Heap.END then None else Some(Loaded(m1, ram1, Heap.Free(heap, buf)))
  }

  // memset and the second memcpy.
  function Fill(ram: seq<byte>, m: Mem, c: nat, p: Program, buf: nat): (r: Option<seq<byte>>)
    requires |ram| == WORD
    ensures r.Some? ==> |r.value| == WORD
  {
    match Write(ram, m, c, p.vaddr, ZeroBytes(p.msize))
    case None => None
    case Some(ram1) => Copy(ram1, m, c, p.vaddr, buf, p.fsize)
  }

  function LoadAll(s: Loaded, active: nat, c: nat, image: seq<byte>, addr: nat, n: nat): (r: Option<Loaded>)
    requires |s.ram| == |image| == WORD
    ensures r.Some? ==> |r.value.ram| == WORD
  {
    if n == 0 then Some(s)
    else
      match LoadAll(s, active, c, image, addr, n - 1)
      case None => None
      case Some(s1) => LoadOne(s1, active, c, image, addr, ProgramAt(image, addr, n - 1))
  }

  // ----- loading what the caller's memory holds

  function Word16(s: seq<byte>): nat
    requires |s| == 2
  {
    var a: nat, b: nat := s[0], s[1];
    a + 0x100 * b
  }

  // One program header, at address `at`: the header, and then the file, are read through the
  // tables of the active context. None is a fault here too. The sizes are read only of a
  // segment to load.
  function LoadNext(s: Loaded, active: nat, c: nat, addr: nat, at: nat): (r: Option<Loaded>)
    requires |s.ram| == WORD
    ensures r.Some? ==> |r.value.ram| == WORD
  {
    match ReadBytes(s.m, s.ram, active, Wrap(at), 12)
    case None => None
    case Some(h) =>
      if Word32(h, 0) != 1 || Word32(h, 8) == 0 || Wrap(addr + Word32(h, 4)) == 0 then Some(s)
      else
        match ReadBytes(s.m, s.ram, active, Wrap(at + 16), 8)
        case None => None
        case Some(z) => LoadSegment(s, active, c, addr, Program(1, Word32(h, 4), Word32(h, 8), Word32(z, 0), Word32(z, 4)))
  }

  function LoadSegment(s: Loaded, active: nat, c: nat, addr: nat, p: Program): (r: Option<Loaded>)
    requires |s.ram| == WORD
    ensures r.Some? ==> |r.value.ram| == WORD
  {
    match Heap.Malloc(s.heap, p.fsize)
    case None => None
    case Some((heap1, buf)) =>
      match Copy(s.ram, s.m, active, buf, Wrap(addr + p.offset), p.fsize)
      case None => None
      case Some(ram1) => Placed(s.m, ram1, heap1, buf, c, p)
  }

  // The loop of ParseElf from header i on; the headers begin at `table`. Their number is read
  // at each turn.
  function ParseFrom(s: Loaded, active: nat, c: nat, addr: nat, table: nat, i: nat): (r: Option<Loaded>)
    requires |s.ram| == WORD && i <= 0x1_0000
    ensures r.Some? ==> |r.value.ram| == WORD
    decreases 0x1_0000 - i
  {
    match ReadBytes(s.m, s.ram, active, Wrap(addr + 44), 2)
    case None => None
    case Some(h) =>
      if i >= Word16(h) then Some(s)
      else
        match LoadNext(s, active, c, addr, table + 32 * i)
        case None => None
        case Some(s1) => ParseFrom(s1, active, c, addr, table, i + 1)
  }

  // ParseElf for a context that is not NULL: the memory afterwards and the entry, or 0.
  function Parse(s: Loaded, active: nat, c: nat, addr: u32): (r: Option<(Loaded, nat)>)
    requires |s.ram| == WORD
    ensures r.Some? ==> |r.value.0.ram| == WORD
  {
    if addr == 0 then Some((s, 0))
    else
      match ReadBytes(s.m, s.ram, active, Wrap(addr + 28), 4)
      case None => None
      case Some(offset) =>
        match ReadBytes(s.m, s.ram, active, addr, 4)
        case None => None
        case Some(magic) =>
          if Word32(magic, 0) != ELF_MAGIC then Some((s, 0))
          else
            match ParseFrom(s, active, c, addr, addr + Word32(offset, 0), 0)
            case None => None
            case Some(s1) =>
              match ReadBytes(s1.m, s1.ram, active, Wrap(addr + 24), 4)
              case None => None
              case Some(entry) => Some((s1, Word32(entry, 0)))
  }

  // The blocks of the heap end below 2^32 before each turn of the loop.
  ghost predicate ShortHeap(s: Loaded, active: nat, c: nat, addr: nat, table: nat, i: nat)
    requires |s.ram| == WORD && i <= 0x1_0000
    decreases 0x1_0000 - i
  {
    && Heap.EndOf(s.heap) < WORD
    && var h := ReadBytes(s.m, s.ram, active, Wrap(addr + 44), 2);
    h.Some? && i < Word16(h.value) && LoadNext(s, active, c, addr, table + 32 * i).Some? ==>
      ShortHeap(LoadNext(s, active, c, addr, table + 32 * i).value, active, c, addr, table, i + 1)
  }

  // So it is, if there is a loop.
  ghost predicate HeapStaysShort(s: Loaded, active: nat, c: nat, addr: u32)
    requires |s.ram| == WORD
  {
    var offset, magic := ReadBytes(s.m, s.ram, active, Wrap(addr + 28), 4), ReadBytes(s.m, s.ram, active, addr, 4);
    addr != 0 && offset.Some? && magic.Some? && Word32(magic.value, 0) == ELF_MAGIC ==>
      ShortHeap(s, active, c, addr, addr + Word32(offset.value, 0), 0)
  }

  // ----- what loading achieves

  // The bytes that are written from vaddr on.
  function Span(p: Program): nat {
    if p.fsize > p.msize then p.fsize else p.msize
  }

  predicate InPages(p: Program, page: nat) {
    Span(p) > 0 && p.vaddr / PAGE <= page <= (p.vaddr + Span(p) - 1) / PAGE
  }

  // A segment in user space that does not wrap around.
  ghost predicate Fits(m: Mem, k: nat, p: Program) {
    p.vaddr + Span(p) < WORD && forall page :: InPages(p, page) ==> UserPage(m, k, page)
  }

  // What byte i of the segment should be.
  function Expected(image: seq<byte>, addr: nat, p: Program, i: nat): byte
    requires |image| == WORD
  {
    if i < p.fsize then Byte(image, addr + p.offset + i) else 0
  }

  // Read through context c, the segment is the bytes of the file followed by zeros.
  ghost predicate Content(m: Mem, ram: seq<byte>, c: nat, image: seq<byte>, addr: nat, p: Program)
    requires |ram| == |image| == WORD
  {
    forall at: nat :: p.vaddr <= at < p.vaddr + Span(p) ==> ReadByte(m, ram, c, at) == Some(Expected(image, addr, p, at - p.vaddr))
  }

  // Loading a segment into c leaves what a context reads at a user address alone: any of
  // another context, and those of c outside the segment's pages.
  ghost predicate KeepsOthers(m: Mem, ram: seq<byte>, m': Mem, ram': seq<byte>, k: nat, live: set<nat>, c: nat, p: Program)
    requires |ram| == |ram'| == WORD
  {
    forall a, at: nat :: a in live && a != k && UserPage(m, k, at / PAGE) && (a != c || !InPages(p, at / PAGE)) ==> KeepsByte(m, ram, m', ram', a, at)
  }

  // The buffer for a file of this size lies in the heap.
  predicate BufferFits(heap: seq<Heap.Block>, size: nat) {
    match Heap.Malloc(heap, size)
    case None => true
    case Some((_, buf)) => Heap.START <= buf && buf + size <= Heap.END
  }

  // ----- one segment, step by step

  lemma HeapRangeIsOpen(m: Mem, k: nat, buf: nat, n: nat)
    requires Heap.START <= buf && buf + n <= Heap.END
    ensures OpenRange(m, k, buf, n)
    ensures forall at: nat :: buf <= at < buf + n ==> InHeap(at)
  {
  }

  lemma AddressInPages(p: Program, at: nat)
    requires p.vaddr <= at < p.vaddr + Span(p)
    ensures InPages(p, at / PAGE)
  {
  }

  lemma SegmentIsOpen(m: Mem, k: nat, p: Program)
    requires Fits(m, k, p)
    ensures forall at: nat :: p.vaddr <= at < p.vaddr + Span(p) ==> at < WORD && UserPage(m, k, at / PAGE)
    ensures p.vaddr + Span(p) < WORD && OpenRange(m, k, p.vaddr, p.msize) && OpenRange(m, k, p.vaddr, p.fsize)
  {
    hide UserPage;
    forall at: nat | p.vaddr <= at < p.vaddr + Span(p) ensures UserPage(m, k, at / PAGE) { AddressInPages(p, at); }
  }

  // User pages and the kernel heap do not meet.
  lemma ApartFromHeap(m: Mem, k: nat, live: set<nat>, p: Program, buf: nat)
    requires KernelIdentity(m, k, live) && Fits(m, k, p) && Heap.START <= buf && buf + p.fsize <= Heap.END
    ensures p.vaddr + p.fsize <= buf || buf + p.fsize <= p.vaddr
    ensures forall at: nat :: InHeap(at) ==> !(p.vaddr <= at < p.vaddr + Span(p))
  {
    hide UserPage, Walk;
    SegmentIsOpen(m, k, p);
    forall at: nat | InHeap(at) ensures !UserPage(m, k, at / PAGE) { HeapPage(at); }
    if p.fsize > 0 { assert InHeap(buf) && InHeap(buf + p.fsize - 1); }
    if p.vaddr <= buf { assert p.fsize > 0 ==> !(buf < p.vaddr + p.fsize); } else { assert p.vaddr < buf + p.fsize ==> InHeap(p.vaddr); }
  }

  // All contexts read the same in the kernel heap.
  lemma HeapReadsAlike(m: Mem, m': Mem, k: nat, live: set<nat>, ram: seq<byte>, a: nat, b: nat, at: nat)
    requires |ram| == WORD && KernelIdentity(m, k, live) && KernelIdentity(m', k, live) && a in live && b in live && InHeap(at)
    ensures ReadByte(m, ram, a, at) == ReadByte(m', ram, b, at) == Some(ram[at])
  {
    hide Phys, KernelIdentity;
    PhysOfHeap(m, k, live, a, at);
    PhysOfHeap(m', k, live, b, at);
  }

  // The copy writes the bytes of the file.
  lemma FillWrites(m: Mem, m1: Mem, k: nat, live: set<nat>, owner1: map<nat, Role>, reserved: set<nat>, ram1: seq<byte>, active: nat, c: nat, p: Program, buf: nat, file: seq<byte>)
    requires |ram1| == WORD && KernelIdentity(m, k, live) && active in live && Laid(m1, k, live, owner1, reserved) && c in live && c != k
    requires Fits(m1, k, p) && Heap.START <= buf && buf + p.fsize <= Heap.END && |file| == p.fsize
    requires forall at: nat :: buf <= at < buf + p.fsize ==> ReadByte(m, ram1, active, at) == Some(file[at - buf])
    requires Fill(ram1, m1, c, p, buf).Some?
    ensures var r2 := Write(ram1, m1, c, p.vaddr, ZeroBytes(p.msize));
            && r2.Some? && Wrote(m1, ram1, r2.value, k, live, c, p.vaddr, ZeroBytes(p.msize))
            && Wrote(m1, r2.value, Fill(ram1, m1, c, p, buf).value, k, live, c, p.vaddr, file)
  {
    hide Owned, NoUserSlots, KernelIdentity, Write, Copy, Phys, ReadByte, UserPage, Fits, ZeroBytes;
    SegmentIsOpen(m1, k, p);
    HeapRangeIsOpen(m1, k, buf, p.fsize);
    ApartFromHeap(m1, k, live, p, buf);
    var r2 := Write(ram1, m1, c, p.vaddr, ZeroBytes(p.msize)).value;
    WriteEffect(m1, k, live, owner1, reserved, ram1, c, p.vaddr, ZeroBytes(p.msize));
    forall at: nat | buf <= at < buf + p.fsize ensures ReadByte(m1, r2, c, at) == Some(file[at - buf]) {
      HeapReadsAlike(m, m1, k, live, ram1, active, c, at);
      assert Open(m1, k, at);
    }
    CopyIsWrite(m1, k, live, owner1, reserved, r2, c, p.vaddr, buf, file);
    WriteEffect(m1, k, live, owner1, reserved, r2, c, p.vaddr, file);
  }

  lemma WrittenTwice(m: Mem, ram: seq<byte>, r2: seq<byte>, r3: seq<byte>, k: nat, live: set<nat>, c: nat, image: seq<byte>, addr: nat, p: Program)
    requires |ram| == |r2| == |r3| == |image| == WORD && Fits(m, k, p) && c in live && c != k && KernelIdentity(m, k, live)
    requires Wrote(m, ram, r2, k, live, c, p.vaddr, ZeroBytes(p.msize))
    requires Wrote(m, r2, r3, k, live, c, p.vaddr, FileBytes(image, addr + p.offset, p.fsize))
    ensures Content(m, r3, c, image, addr, p)
    ensures forall a, at: nat :: a in live && a != k && UserPage(m, k, at / PAGE) && at < WORD && (a != c || !InPages(p, at / PAGE)) ==>
              ReadByte(m, r3, a, at) == ReadByte(m, ram, a, at)
  {
    hide ReadByte, UserPage, Byte, KernelIdentity, Fits;
    SegmentIsOpen(m, k, p);
    forall at: nat | p.vaddr <= at < p.vaddr + Span(p) ensures ReadByte(m, r3, c, at) == Some(Expected(image, addr, p, at - p.vaddr)) {
      assert Open(m, k, at);
      if at >= p.vaddr + p.fsize { assert !Touches(c, p.vaddr, p.fsize, c, at); }
    }
    forall a, at: nat | a in live && a != k && UserPage(m, k, at / PAGE) && at < WORD && (a != c || !InPages(p, at / PAGE))
      ensures ReadByte(m, r3, a, at) == ReadByte(m, ram, a, at)
    {
      if p.vaddr <= at < p.vaddr + Span(p) { AddressInPages(p, at); }
      UserIsNotHeap(m, k, live, at);
      assert Open(m, k, at);
    }
  }

  lemma PagesOfSegment(m: Mem, k: nat, p: Program)
    requires Fits(m, k, p)
    ensures CoversUserPages(m, k, p.vaddr, p.msize)
    ensures p.msize > 0 && p.vaddr % PAGE == 0 ==> forall page :: p.vaddr / PAGE <= page < p.vaddr / PAGE + PagesOf(p.msize) ==> InPages(p, page)
  {
  }

  // The buffer is written in the active context: nothing a user page holds changes.
  lemma BufferWritten(s: Loaded, k: nat, live: set<nat>, owner: map<nat, Role>, reserved: set<nat>, active: nat, buf: nat, file: seq<byte>)
    requires |s.ram| == WORD && Laid(s.m, k, live, owner, reserved) && active in live && active != k
    requires Heap.START <= buf && buf + |file| <= Heap.END && Write(s.ram, s.m, active, buf, file).Some?
    ensures var ram1 := Write(s.ram, s.m, active, buf, file).value;
            && (forall at: nat :: buf <= at < buf + |file| ==> ReadByte(s.m, ram1, active, at) == Some(file[at - buf]))
            && (forall a, at: nat :: a in live && a != k && UserPage(s.m, k, at / PAGE) && at < WORD ==>
                  ReadByte(s.m, ram1, a, at) == ReadByte(s.m, s.ram, a, at))
  {
    hide Owned, NoUserSlots, KernelIdentity, ReadByte, UserPage, Write;
    HeapRangeIsOpen(s.m, k, buf, |file|);
    WriteEffect(s.m, k, live, owner, reserved, s.ram, active, buf, file);
    forall a, at: nat | a in live && a != k && UserPage(s.m, k, at / PAGE) && at < WORD
      ensures Open(s.m, k, at) && !Touches(active, buf, |file|, a, at)
    {
      UserIsNotHeap(s.m, k, live, at);
    }
  }

  lemma LoadParts(s: Loaded, active: nat, c: nat, image: seq<byte>, addr: nat, p: Program)
    requires |s.ram| == |image| == WORD && Loadable(p, addr) && LoadOne(s, active, c, image, addr, p).Some?
    ensures Heap.Malloc(s.heap, p.fsize).Some?
    ensures var s', (heap1, buf) := LoadOne(s, active, c, image, addr, p).value, Heap.Malloc(s.heap, p.fsize).value;
            var r1 := Write(s.ram, s.m, active, buf, FileBytes(image, addr + p.offset, p.fsize));
            && r1.Some? && VmmAlloc(s.m, c, p.vaddr, p.msize) == Some(s'.m)
            && Fill(r1.value, s'.m, c, p, buf) == Some(s'.ram) && s'.heap == Heap.Free(heap1, buf)
  {
    hide Write, VmmAlloc, Fill, Heap.Malloc, FileBytes;
  }

  // What loading one segment achieved.
  ghost predicate LoadedInto(s: Loaded, s': Loaded, k: nat, live: set<nat>, owner': map<nat, Role>, reserved: set<nat>, c: nat, image: seq<byte>, addr: nat, p: Program)
    requires |s.ram| == |s'.ram| == |image| == WORD
  {
    && Laid(s'.m, k, live, owner', reserved) && SameDirectory(s.m, s'.m, k) && s'.m.frames.Ledger() == s.m.frames.Ledger()
    && Content(s'.m, s'.ram, c, image, addr, p) && KeepsOthers(s.m, s.ram, s'.m, s'.ram, k, live, c, p)
  }

  lemma FitsAfter(m: Mem, m': Mem, k: nat, p: Program)
    requires SameDirectory(m, m', k) && Fits(m, k, p)
    ensures Fits(m', k, p)
  {
    hide UserPage, SameDirectory, InPages;
    forall page ensures UserPage(m', k, page) == UserPage(m, k, page) { SameUserPage(m, m', k, page); }
  }

  // One segment: when it returns it is loaded, whatever frames were picked and whatever was
  // there before; nobody else's user bytes have changed, nor those of c elsewhere.
  lemma LoadOneStep(s: Loaded, k: nat, live: set<nat>, owner: map<nat, Role>, reserved: set<nat>, active: nat, c: nat, image: seq<byte>, addr: nat, p: Program)
    returns (owner': map<nat, Role>)
    requires |s.ram| == |image| == WORD && Loadable(p, addr) && Fits(s.m, k, p) && BufferFits(s.heap, p.fsize)
    requires Laid(s.m, k, live, owner, reserved) && c in live && c != k && active in live && active != k
    requires LoadOne(s, active, c, image, addr, p).Some?
    ensures LoadedInto(s, LoadOne(s, active, c, image, addr, p).value, k, live, owner', reserved, c, image, addr, p)
  {
    hide Owned, NoUserSlots, KernelIdentity, Fill, VmmAlloc, Content, MappedRange, SameDirectory, LoadOne, FileBytes, ZeroBytes, Write, Wrote,
      Heap.Malloc, Fits, UserPage, Walk, ReadByte, Frames.Ledger, PagesOf, InPages;
    LoadParts(s, active, c, image, addr, p);
    var s', buf, file := LoadOne(s, active, c, image, addr, p).value, Heap.Malloc(s.heap, p.fsize).value.1, FileBytes(image, addr + p.offset, p.fsize);
    var ram1 := Write(s.ram, s.m, active, buf, file).value;
    BufferWritten(s, k, live, owner, reserved, active, buf, file);
    PagesOfSegment(s.m, k, p);
    var fs;
    fs, owner' := AllocKeepsLaid(s.m, k, live, owner, reserved, c, p.vaddr, p.msize);
    FitsAfter(s.m, s'.m, k, p);
    FillWrites(s.m, s'.m, k, live, owner', reserved, ram1, active, c, p, buf, file);
    WrittenTwice(s'.m, ram1, Write(ram1, s'.m, c, p.vaddr, ZeroBytes(p.msize)).value, s'.ram, k, live, c, image, addr, p);
    forall a, at: nat | a in live && a != k && UserPage(s.m, k, at / PAGE) && (a != c || !InPages(p, at / PAGE))
      ensures KeepsByte(s.m, s.ram, s'.m, s'.ram, a, at)
    {
      UserAddress(s.m, k, at);
      SameUserPage(s.m, s'.m, k, at / PAGE);
      OutsideSegment(s.m, s'.m, k, live, c, p, fs, a, at / PAGE);
      SameWalkSameByte(s.m, s'.m, ram1, a, at);
    }
  }

  lemma UserAddress(m: Mem, k: nat, at: nat)
    requires UserPage(m, k, at / PAGE)
    ensures at < WORD
  {
  }

  lemma OutsideSegment(m: Mem, m': Mem, k: nat, live: set<nat>, c: nat, p: Program, fs: seq<nat>, a: nat, page: nat)
    requires MappedRange(m, m', k, live, c, p.vaddr / PAGE, fs) && a in live && UserPage(m, k, page) && (a != c || !InPages(p, page))
    requires |fs| == (if p.vaddr + p.msize < WORD then PagesOf(p.msize) else 0) && (fs != [] ==> p.vaddr % PAGE == 0)
    requires p.msize > 0 && p.vaddr % PAGE == 0 ==> forall q :: p.vaddr / PAGE <= q < p.vaddr / PAGE + PagesOf(p.msize) ==> InPages(p, q)
    ensures Walk(m', a, page) == Walk(m, a, page)
  {
    hide Walk, InPages, UserPage;
    UserPageInRange(m, k, page);
  }

  // ----- the whole image

  // All segments to load lie in user space, and their files fit into the heap when their turn
  // comes.
  ghost predicate AllFit(m: Mem, k: nat, image: seq<byte>, addr: nat, n: nat)
    requires |image| == WORD
  {
    forall i :: 0 <= i < n && Loadable(ProgramAt(image, addr, i), addr) ==> Fits(m, k, ProgramAt(image, addr, i))
  }

  ghost predicate BuffersFit(s: Loaded, active: nat, c: nat, image: seq<byte>, addr: nat, n: nat)
    requires |s.ram| == |image| == WORD
  {
    forall i :: 0 <= i < n && Loadable(ProgramAt(image, addr, i), addr) && LoadAll(s, active, c, image, addr, i).Some? ==>
      BufferFits(LoadAll(s, active, c, image, addr, i).value.heap, ProgramAt(image, addr, i).fsize)
  }

  // No two segments share a page.
  ghost predicate AllApart(image: seq<byte>, addr: nat, n: nat)
    requires |image| == WORD
  {
    forall i, j :: 0 <= i < j < n && Loadable(ProgramAt(image, addr, i), addr) && Loadable(ProgramAt(image, addr, j), addr)
      ==> PagesApart(ProgramAt(image, addr, i), ProgramAt(image, addr, j))
  }

  ghost predicate PagesApart(p: Program, q: Program) {
    forall page :: !(InPages(p, page) && InPages(q, page))
  }

  // A segment that was loaded before is not touched by the next.
  lemma ContentStays(s: Loaded, s': Loaded, k: nat, live: set<nat>, c: nat, image: seq<byte>, addr: nat, p: Program, q: Program)
    requires |s.ram| == |s'.ram| == |image| == WORD && c in live && c != k
    requires Content(s.m, s.ram, c, image, addr, p) && KeepsOthers(s.m, s.ram, s'.m, s'.ram, k, live, c, q)
    requires Fits(s.m, k, p) && PagesApart(p, q)
    ensures Content(s'.m, s'.ram, c, image, addr, p)
  {
    hide ReadByte, UserPage, InPages, Byte;
    forall at: nat | p.vaddr <= at < p.vaddr + Span(p) ensures ReadByte(s'.m, s'.ram, c, at) == Some(Expected(image, addr, p, at - p.vaddr)) {
      AddressInPages(p, at);
      assert KeepsByte(s.m, s.ram, s'.m, s'.ram, c, at);
    }
  }

  // ----- the effect of ParseElf's loop

  ghost predicate AllContent(s: Loaded, c: nat, image: seq<byte>, addr: nat, n: nat)
    requires |s.ram| == |image| == WORD
  {
    forall i :: 0 <= i < n && Loadable(ProgramAt(image, addr, i), addr) ==> Content(s.m, s.ram, c, image, addr, ProgramAt(image, addr, i))
  }

  ghost predicate KeepsOtherContexts(s: Loaded, s': Loaded, k: nat, live: set<nat>, c: nat)
    requires |s.ram| == |s'.ram| == WORD
  {
    forall a, at: nat :: a in live && a != k && a != c && UserPage(s.m, k, at / PAGE) ==> KeepsByte(s.m, s.ram, s'.m, s'.ram, a, at)
  }

  lemma FitsStays(m: Mem, m': Mem, k: nat, image: seq<byte>, addr: nat, n: nat)
    requires |image| == WORD && AllFit(m, k, image, addr, n) && SameDirectory(m, m', k)
    ensures AllFit(m', k, image, addr, n)
  {
    hide ProgramAt, Fits, SameDirectory;
    forall i | 0 <= i < n && Loadable(ProgramAt(image, addr, i), addr) ensures Fits(m', k, ProgramAt(image, addr, i)) {
      FitsAfter(m, m', k, ProgramAt(image, addr, i));
    }
  }

  lemma KeptTwice(s: Loaded, s1: Loaded, s': Loaded, k: nat, live: set<nat>, c: nat, p: Program)
    requires |s.ram| == |s1.ram| == |s'.ram| == WORD && SameDirectory(s.m, s1.m, k)
    requires KeepsOtherContexts(s, s1, k, live, c) && KeepsOthers(s1.m, s1.ram, s'.m, s'.ram, k, live, c, p)
    ensures KeepsOtherContexts(s, s', k, live, c)
  {
    hide ReadByte, UserPage, InPages, SameDirectory;
    forall a, at: nat | a in live && a != k && a != c && UserPage(s.m, k, at / PAGE)
      ensures KeepsByte(s.m, s.ram, s'.m, s'.ram, a, at)
    {
      SameUserPage(s.m, s1.m, k, at / PAGE);
      assert KeepsByte(s.m, s.ram, s1.m, s1.ram, a, at);
      assert KeepsByte(s1.m, s1.ram, s'.m, s'.ram, a, at);
    }
  }

  lemma OneMoreLoaded(s: Loaded, s': Loaded, k: nat, live: set<nat>, owner': map<nat, Role>, reserved: set<nat>, c: nat, image: seq<byte>, addr: nat, n: nat)
    requires |s.ram| == |s'.ram| == |image| == WORD && c in live && c != k
    requires AllFit(s.m, k, image, addr, n + 1) && AllApart(image, addr, n + 1) && AllContent(s, c, image, addr, n)
    requires Loadable(ProgramAt(image, addr, n), addr)
    requires LoadedInto(s, s', k, live, owner', reserved, c, image, addr, ProgramAt(image, addr, n))
    ensures AllContent(s', c, image, addr, n + 1)
  {
    hide ProgramAt, Content, UserPage, Walk, Laid, SameDirectory, KeepsOthers, Fits, PagesApart, InPages, Frames.Ledger;
    var q := ProgramAt(image, addr, n);
    forall i | 0 <= i < n + 1 && Loadable(ProgramAt(image, addr, i), addr)
      ensures Content(s'.m, s'.ram, c, image, addr, ProgramAt(image, addr, i))
    {
      if i < n { ContentStays(s, s', k, live, c, image, addr, ProgramAt(image, addr, i), q); }
    }
  }

  // ParseElf's loop: when it returns, no user address of another context reads differently,
  // and unless segments share pages every one reads as the bytes of the file followed by
  // zeros, whatever frames were picked.
  lemma {:induction false} LoadAllStep(s: Loaded, k: nat, live: set<nat>, owner: map<nat, Role>, reserved: set<nat>, active: nat, c: nat, image: seq<byte>, addr: nat, n: nat)
    returns (owner': map<nat, Role>)
    requires |s.ram| == |image| == WORD && AllFit(s.m, k, image, addr, n) && BuffersFit(s, active, c, image, addr, n)
    requires Laid(s.m, k, live, owner, reserved) && c in live && c != k && active in live && active != k
    requires LoadAll(s, active, c, image, addr, n).Some?
    ensures var s' := LoadAll(s, active, c, image, addr, n).value;
            && Laid(s'.m, k, live, owner', reserved) && SameDirectory(s.m, s'.m, k)
            && s'.m.frames.Ledger() == s.m.frames.Ledger()
            && KeepsOtherContexts(s, s', k, live, c)
            && (AllApart(image, addr, n) ==> AllContent(s', c, image, addr, n))
  {
    hide Laid, LoadOne, Content, KeepsOthers, KeepsOtherContexts, AllContent, ProgramAt, AllFit, BuffersFit, BufferFits, AllApart, LoadedInto,
      SameDirectory, Frames.Ledger;
    owner' := owner;
    if n == 0 {
      NothingLoaded(s, k, live, c, image, addr);
    } else {
      var s1, p := LoadAll(s, active, c, image, addr, n - 1).value, ProgramAt(image, addr, n - 1);
      var s' := LoadOne(s1, active, c, image, addr, p).value;
      FewerFit(s, k, active, c, image, addr, n);
      owner' := LoadAllStep(s, k, live, owner, reserved, active, c, image, addr, n - 1);
      if Loadable(p, addr) {
        FitsStays(s.m, s1.m, k, image, addr, n);
        FitsAt(s1.m, s, k, active, c, image, addr, n, n - 1);
        owner' := LoadOneStep(s1, k, live, owner', reserved, active, c, image, addr, p);
        LoadedOwns(s1, s', k, live, owner', reserved, c, image, addr, p);
        SameDirectoryTwice(s.m, s1.m, s'.m, k);
        KeptTwice(s, s1, s', k, live, c, p);
        if AllApart(image, addr, n) { OneMoreLoaded(s1, s', k, live, owner', reserved, c, image, addr, n - 1); }
      } else {
        SkippedOne(s1, active, c, image, addr, n - 1);
      }
    }
  }

  lemma {:induction false} LoadFails(s: Loaded, active: nat, c: nat, image: seq<byte>, addr: nat, n: nat, total: nat)
    requires |s.ram| == |image| == WORD && n <= total && LoadAll(s, active, c, image, addr, n) == None
    ensures LoadAll(s, active, c, image, addr, total) == None
    decreases total
  {
    hide LoadOne, ProgramAt;
    if n < total { LoadFails(s, active, c, image, addr, n, total - 1); }
  }

  lemma NothingLoaded(s: Loaded, k: nat, live: set<nat>, c: nat, image: seq<byte>, addr: nat)
    requires |s.ram| == |image| == WORD
    ensures AllContent(s, c, image, addr, 0) && KeepsOtherContexts(s, s, k, live, c) && SameDirectory(s.m, s.m, k)
  {
  }

  lemma FewerFit(s: Loaded, k: nat, active: nat, c: nat, image: seq<byte>, addr: nat, n: nat)
    requires |s.ram| == |image| == WORD && n > 0 && AllFit(s.m, k, image, addr, n) && BuffersFit(s, active, c, image, addr, n)
    ensures AllFit(s.m, k, image, addr, n - 1) && BuffersFit(s, active, c, image, addr, n - 1)
    ensures AllApart(image, addr, n) ==> AllApart(image, addr, n - 1)
  {
    hide ProgramAt, LoadAll, Fits, BufferFits, PagesApart;
  }

  lemma FitsAt(m: Mem, s: Loaded, k: nat, active: nat, c: nat, image: seq<byte>, addr: nat, n: nat, i: nat)
    requires |s.ram| == |image| == WORD && i < n && AllFit(m, k, image, addr, n) && BuffersFit(s, active, c, image, addr, n)
    requires Loadable(ProgramAt(image, addr, i), addr) && LoadAll(s, active, c, image, addr, i).Some?
    ensures Fits(m, k, ProgramAt(image, addr, i))
    ensures BufferFits(LoadAll(s, active, c, image, addr, i).value.heap, ProgramAt(image, addr, i).fsize)
  {
    hide ProgramAt, LoadAll, Fits, BufferFits;
  }

  lemma LoadedOwns(s: Loaded, s': Loaded, k: nat, live: set<nat>, owner': map<nat, Role>, reserved: set<nat>, c: nat, image: seq<byte>, addr: nat, p: Program)
    requires |s.ram| == |s'.ram| == |image| == WORD && LoadedInto(s, s', k, live, owner', reserved, c, image, addr, p)
    ensures Laid(s'.m, k, live, owner', reserved) && SameDirectory(s.m, s'.m, k) && s'.m.frames.Ledger() == s.m.frames.Ledger()
    ensures KeepsOthers(s.m, s.ram, s'.m, s'.ram, k, live, c, p)
  {
  }

  lemma SkippedOne(s: Loaded, active: nat, c: nat, image: seq<byte>, addr: nat, n: nat)
    requires |s.ram| == |image| == WORD && !Loadable(ProgramAt(image, addr, n), addr)
    ensures AllContent(s, c, image, addr, n) ==> AllContent(s, c, image, addr, n + 1)
    ensures LoadOne(s, active, c, image, addr, ProgramAt(image, addr, n)) == Some(s)
  {
    hide ProgramAt, Content;
  }

  // ----- the kernel heap

  // The payloads in use.
  ghost function Live(h: seq<Heap.Block>): set<nat> {
    set i: nat | 0 <= i < |h| && !h[i].free :: h[i].Payload()
  }

  // Allocating a buffer and freeing it again leaves the live blocks as they were.
  lemma BufferComesAndGoes(h: seq<Heap.Block>, size: u32)
    requires Heap.Tiled(h) && Heap.Malloc(h, size).Some? && Heap.Tiled(Heap.Malloc(h, size).value.0)
    ensures var (h1, buf) := Heap.Malloc(h, size).value;
            Live(Heap.Free(h1, buf)) == Live(h) && Heap.Tiled(Heap.Free(h1, buf))
  {
    var (h1, buf) := Heap.Malloc(h, size).value;
    var h2 := Heap.Free(h1, buf);
    BufferFreed(h, size);
    hide Heap.Malloc, Heap.Free, Heap.FirstFit, Heap.Tiled;
    forall a ensures a in Live(h2) <==> a in Live(h) {
      if a in Live(h) { var j :| 0 <= j < |h| && !h[j].free && h[j].Payload() == a; assert h2[j].Payload() == a && !h2[j].free; }
      if a in Live(h2) { var j :| 0 <= j < |h2| && !h2[j].free && h2[j].Payload() == a; assert j < |h|; }
    }
  }

  // Block by block: as before, except for a free one at the end if none was found.
  lemma BufferFreed(h: seq<Heap.Block>, size: u32)
    requires Heap.Tiled(h) && Heap.Malloc(h, size).Some? && Heap.Tiled(Heap.Malloc(h, size).value.0)
    ensures var (h1, buf) := Heap.Malloc(h, size).value; var h2 := Heap.Free(h1, buf);
            && Heap.Tiled(h2) && |h| <= |h2|
            && (forall j :: 0 <= j < |h| ==> h2[j].free == h[j].free && h2[j].Payload() == h[j].Payload())
            && (forall j :: |h| <= j < |h2| ==> h2[j].free)
  {
    var (h1, buf) := Heap.Malloc(h, size).value;
    var h2, i := Heap.Free(h1, buf), Heap.FirstFit(h, size);
    forall j | 0 <= j < |h1| && j != i ensures h1[j].Payload() != buf {
      Heap.BlocksAreDisjoint(h1, i, j);
    }
    assert forall j :: 0 <= j < |h2| ==> h2[j].addr == h1[j].addr && h2[j].size == h1[j].size;
  }

  // Segments small enough that their buffers stay clear of 2^32 (heap.c:42).
  predicate SmallFiles(image: seq<byte>, addr: nat, n: nat)
    requires |image| == WORD
  {
    forall i :: 0 <= i < n ==> ProgramAt(image, addr, i).fsize + Heap.HEADER + Heap.END <= WORD
  }

  lemma {:induction false} LoadKeepsHeap(s: Loaded, active: nat, c: nat, image: seq<byte>, addr: nat, n: nat)
    requires |s.ram| == |image| == WORD && SmallFiles(image, addr, n) && LoadAll(s, active, c, image, addr, n).Some?
    requires Heap.Tiled(s.heap) && Heap.EndOf(s.heap) < WORD
    ensures var s' := LoadAll(s, active, c, image, addr, n).value;
            Heap.Tiled(s'.heap) && Heap.EndOf(s'.heap) < WORD && Live(s'.heap) == Live(s.heap)
  {
    hide LoadOne, ProgramAt, Heap.Tiled, Live;
    if n > 0 {
      LoadKeepsHeap(s, active, c, image, addr, n - 1);
      LoadOneKeepsHeap(LoadAll(s, active, c, image, addr, n - 1).value, active, c, image, addr, ProgramAt(image, addr, n - 1));
    }
  }

  lemma LoadOneKeepsHeap(s: Loaded, active: nat, c: nat, image: seq<byte>, addr: nat, p: Program)
    requires |s.ram| == |image| == WORD && p.fsize + Heap.HEADER + Heap.END <= WORD && LoadOne(s, active, c, image, addr, p).Some?
    requires Heap.Tiled(s.heap) && Heap.EndOf(s.heap) < WORD
    ensures var s' := LoadOne(s, active, c, image, addr, p).value;
            Heap.Tiled(s'.heap) && Heap.EndOf(s'.heap) < WORD && Live(s'.heap) == Live(s.heap)
  {
    hide Write, Fill, VmmAlloc, Live, FileBytes;
    if Loadable(p, addr) {
      Heap.SmallRequestsNeverWrap(s.heap, p.fsize);
      BufferComesAndGoes(s.heap, p.fsize);
      var (h1, buf) := Heap.Malloc(s.heap, p.fsize).value;
      hide Heap.Tiled, Heap.Malloc;
      assert Heap.Free(h1, buf)[|h1| - 1].End() == h1[|h1| - 1].End();
    }
  }

  // The heap after the buffers of the first n segments came and went: it takes no more than
  // the heap and the sizes to know.
  function Staged(heap: seq<Heap.Block>, image: seq<byte>, addr: nat, n: nat): Option<seq<Heap.Block>>
    requires |image| == WORD
  {
    if n == 0 then Some(heap)
    else
      var p := ProgramAt(image, addr, n - 1);
      match Staged(heap, image, addr, n - 1)
      case None => None
      case Some(h) =>
        if !Loadable(p, addr) then Some(h)
        else
          match Heap.Malloc(h, p.fsize)
          case None => None
          case Some((h1, buf)) => Some(Heap.Free(h1, buf))
  }

  lemma {:induction false} StagedIs(s: Loaded, active: nat, c: nat, image: seq<byte>, addr: nat, n: nat)
    requires |s.ram| == |image| == WORD && LoadAll(s, active, c, image, addr, n).Some?
    ensures Staged(s.heap, image, addr, n) == Some(LoadAll(s, active, c, image, addr, n).value.heap)
  {
    hide LoadOne, ProgramAt, Heap.Malloc, Heap.Free;
    if n > 0 {
      StagedIs(s, active, c, image, addr, n - 1);
      var s1, p := LoadAll(s, active, c, image, addr, n - 1).value, ProgramAt(image, addr, n - 1);
      if Loadable(p, addr) { LoadParts(s1, active, c, image, addr, p); } else { Skipped(s1, active, c, image, addr, p); }
    }
  }

  // The blocks of the heap lie in the heap after every segment.
  ghost predicate StaysInHeap(heap: seq<Heap.Block>, image: seq<byte>, addr: nat, n: nat)
    requires |image| == WORD
  {
    forall i :: 0 <= i <= n && Staged(heap, image, addr, i).Some? ==> Heap.EndOf(Staged(heap, image, addr, i).value) <= Heap.END
  }

  // Then the buffers do.
  lemma {:induction false} BuffersStayInHeap(s: Loaded, active: nat, c: nat, image: seq<byte>, addr: nat, n: nat)
    requires |s.ram| == |image| == WORD && Heap.Holds(s.heap) && StaysInHeap(s.heap, image, addr, n)
    requires LoadAll(s, active, c, image, addr, n).Some?
    ensures BuffersFit(s, active, c, image, addr, n) && Heap.Holds(LoadAll(s, active, c, image, addr, n).value.heap)
    ensures forall a :: Heap.IsPayload(s.heap, a) ==> Heap.IsPayload(LoadAll(s, active, c, image, addr, n).value.heap, a)
  {
    hide LoadOne, ProgramAt, Heap.Holds, BufferFits, Heap.IsPayload;
    if n > 0 {
      BuffersStayInHeap(s, active, c, image, addr, n - 1);
      var s1 := LoadAll(s, active, c, image, addr, n - 1).value;
      StagedIs(s, active, c, image, addr, n);
      BufferStaysInHeap(s1, active, c, image, addr, ProgramAt(image, addr, n - 1));
    }
  }

  lemma BufferStaysInHeap(s: Loaded, active: nat, c: nat, image: seq<byte>, addr: nat, p: Program)
    requires |s.ram| == |image| == WORD && Heap.Holds(s.heap) && LoadOne(s, active, c, image, addr, p).Some?
    requires Heap.EndOf(LoadOne(s, active, c, image, addr, p).value.heap) <= Heap.END
    ensures var s' := LoadOne(s, active, c, image, addr, p).value;
            Heap.Holds(s'.heap) && (Loadable(p, addr) ==> BufferFits(s.heap, p.fsize)) && forall a :: Heap.IsPayload(s.heap, a) ==> Heap.IsPayload(s'.heap, a)
  {
    hide Write, Fill, VmmAlloc, FileBytes, Heap.IsPayload, Heap.Malloc, Heap.Holds, LoadOne, Heap.Free, Heap.EndOf;
    if Loadable(p, addr) {
      LoadParts(s, active, c, image, addr, p);
      var (h1, buf) := Heap.Malloc(s.heap, p.fsize).value;
      Heap.MallocHoldsExactly(s.heap, p.fsize);
      FreeKeepsEnd(h1, buf);
      Heap.FreeHolds(h1, buf);
    } else {
      Skipped(s, active, c, image, addr, p);
    }
  }

  lemma Skipped(s: Loaded, active: nat, c: nat, image: seq<byte>, addr: nat, p: Program)
    requires |s.ram| == |image| == WORD && !Loadable(p, addr)
    ensures LoadOne(s, active, c, image, addr, p) == Some(s)
  {
  }

  lemma FreeKeepsEnd(h: seq<Heap.Block>, addr: nat)
    ensures Heap.EndOf(Heap.Free(h, addr)) == Heap.EndOf(h)
  {
    if h != [] { assert Heap.Free(h, addr)[|h| - 1].End() == h[|h| - 1].End(); }
  }

  // ----- a buffer that runs past the heap

  // The page behind the heap is mapped, to the first frame that users get (vmm.c:134). With
  // one block left of which all but 48 bytes are in use, a file of one page gets a buffer 16
  // bytes before the end of the heap, and its bytes are written over the page of whoever has
  // that frame.
  lemma BufferRunsIntoUserFrame(s: Loaded, k: nat, live: set<nat>, owner: map<nat, Role>, reserved: set<nat>, active: nat, b: nat, q: nat, file: seq<byte>)
    requires |s.ram| == WORD && Laid(s.m, k, live, owner, reserved) && active in live && active != k && b in live && b != k
    requires UserPage(s.m, k, q) && Walk(s.m, b, q) == HEAP_END * PAGE + USER && |file| == PAGE
    requires s.heap == [Heap.Block(Heap.START, Heap.END - Heap.START - 48, false)]
    ensures Heap.Tiled(s.heap) && Heap.Malloc(s.heap, |file|).Some? && Heap.Malloc(s.heap, |file|).value.1 == Heap.END - 16
    ensures var r := Write(s.ram, s.m, active, Heap.END - 16, file);
            r.Some? && forall at: nat :: q * PAGE <= at < q * PAGE + PAGE - 16 ==> ReadByte(s.m, r.value, b, at) == Some(file[16 + at - q * PAGE])
  {
    hide Owned, NoUserSlots, UserPage, Walk, Heap.Malloc, Heap.Tiled, Phys, KernelIdentity;
    TightHeap();
    var va := Heap.END - 16;
    forall at: nat | va <= at < va + |file| ensures Phys(s.m, active, at) == Some(at) {
      KernelAddress(s.m, k, live, active, at);
    }
    IdentityWrite(s.ram, s.m, active, va, file);
    var r := s.ram[..va] + file + s.ram[va + |file|..];
    forall at: nat | q * PAGE <= at < q * PAGE + PAGE - 16 ensures ReadByte(s.m, r, b, at) == Some(file[16 + at - q * PAGE]) {
      FrameAddress(s.m, b, q, HEAP_END, at - q * PAGE);
    }
  }

  lemma TightHeap()
    ensures var h := [Heap.Block(Heap.START, Heap.END - Heap.START - 48, false)];
            Heap.Tiled(h) && Heap.Malloc(h, PAGE).Some? && Heap.Malloc(h, PAGE).value.1 == Heap.END - 16
  {
    var h := [Heap.Block(Heap.START, Heap.END - Heap.START - 48, false)];
    assert Heap.EndOf(h) == Heap.END - 32 && Heap.FirstFit(h, PAGE) == 1;
  }
}
