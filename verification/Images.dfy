/**
 An image that lies in the caller's memory (hal.x86/elf.c:15-48). It is read there, piece by
 piece, while the heap, the new address space and its memory change; none of that changes
 what is read, so that ParseElf loads the image that was there when it was called.
 */
module Images {
  import opened Machine
  import opened Frames
  import opened Paging
  import opened Ownership
  import opened Translation
  import opened Boot
  import opened AddressSpaceRuns
  import opened Access
  import opened Elf
  import Messages
  import Heap

  // All that context a can read; 0 where it cannot.
  function Seen(m: Mem, ram: seq<byte>, a: nat): (image: seq<byte>)
    requires |ram| == WORD
    ensures |image| == WORD && forall at: nat :: at < WORD ==> image[at] == SeenByte(m, ram, a, at)
  {
    seq<byte>(WORD, at requires 0 <= at < WORD => SeenByte(m, ram, a, at))
  }

  function SeenByte(m: Mem, ram: seq<byte>, a: nat, at: nat): byte
    requires |ram| == WORD
  {
    match ReadByte(m, ram, a, at)
    case None => 0
    case Some(b) => b
  }

  // Context a reads the image there, in user pages.
  ghost predicate Shown(m: Mem, ram: seq<byte>, k: nat, a: nat, image: seq<byte>, at: nat)
    requires |ram| == |image| == WORD
  {
    UserPage(m, k, Wrap(at) / PAGE) && ReadByte(m, ram, a, Wrap(at)) == Some(image[Wrap(at)])
  }

  ghost predicate ShownRange(m: Mem, ram: seq<byte>, k: nat, a: nat, image: seq<byte>, at: nat, n: nat)
    requires |ram| == |image| == WORD
  {
    forall x: nat :: at <= x < at + n ==> Shown(m, ram, k, a, image, x)
  }

  ghost predicate ShownFile(m: Mem, ram: seq<byte>, k: nat, a: nat, image: seq<byte>, addr: nat, p: Program)
    requires |ram| == |image| == WORD
  {
    Wrap(addr + p.offset) + p.fsize <= WORD && ShownRange(m, ram, k, a, image, Wrap(addr + p.offset), p.fsize)
  }

  // The header, the program headers and the files of the first n segments.
  ghost predicate ShownImage(m: Mem, ram: seq<byte>, k: nat, a: nat, image: seq<byte>, addr: nat, n: nat)
    requires |ram| == |image| == WORD
  {
    && ShownRange(m, ram, k, a, image, addr, 52)
    && forall i :: 0 <= i < n ==>
         && ShownRange(m, ram, k, a, image, HeaderAt(image, addr, i), 32)
         && (Loadable(ProgramAt(image, addr, i), addr) ==> ShownFile(m, ram, k, a, image, addr, ProgramAt(image, addr, i)))
  }

  // ----- reading what is shown

  lemma {:induction false} ReadShown(m: Mem, ram: seq<byte>, k: nat, a: nat, image: seq<byte>, at: nat, n: nat)
    requires |ram| == |image| == WORD && ShownRange(m, ram, k, a, image, at, n)
    ensures ReadBytes(m, ram, a, Wrap(at), n) == Some(FileBytes(image, at, n))
  {
    hide ReadByte, UserPage;
    if n > 0 {
      ReadShown(m, ram, k, a, image, at, n - 1);
      WrapTwice(at, n - 1);
      assert Shown(m, ram, k, a, image, at + n - 1);
      assert FileBytes(image, at, n) == FileBytes(image, at, n - 1) + [Byte(image, at + n - 1)];
    } else {
      assert FileBytes(image, at, 0) == [];
    }
  }

  lemma WrapTwice(x: nat, y: nat)
    ensures Wrap(Wrap(x) + y) == Wrap(x + y)
  {
  }

  lemma ShownPart(m: Mem, ram: seq<byte>, k: nat, a: nat, image: seq<byte>, at: nat, n: nat, from: nat, size: nat)
    requires |ram| == |image| == WORD && ShownRange(m, ram, k, a, image, at, n) && from + size <= n
    ensures ShownRange(m, ram, k, a, image, at + from, size)
  {
    hide Shown;
  }

  lemma WordOfFile(image: seq<byte>, at: nat, n: nat, j: nat)
    requires |image| == WORD && j + 4 <= n
    ensures Word32(FileBytes(image, at, n), j) == ReadU32(image, at + j)
  {
    var s := FileBytes(image, at, n);
    assert s[j] == Byte(image, at + j) && s[j + 1] == Byte(image, at + j + 1) && s[j + 2] == Byte(image, at + j + 2) && s[j + 3] == Byte(image, at + j + 3);
  }

  // A word of the header that is shown.
  lemma ReadWord(m: Mem, ram: seq<byte>, k: nat, a: nat, image: seq<byte>, addr: nat, n: nat, from: nat)
    requires |ram| == |image| == WORD && ShownRange(m, ram, k, a, image, addr, n) && from + 4 <= n
    ensures ReadBytes(m, ram, a, Wrap(addr + from), 4).Some?
    ensures Word32(ReadBytes(m, ram, a, Wrap(addr + from), 4).value, 0) == ReadU32(image, addr + from)
  {
    hide Shown, ReadU32;
    ShownPart(m, ram, k, a, image, addr, n, from, 4);
    ReadShown(m, ram, k, a, image, addr + from, 4);
    WordOfFile(image, addr + from, 4, 0);
  }

  // ----- what keeps it so

  lemma StaysShown(m: Mem, ram: seq<byte>, m': Mem, ram': seq<byte>, k: nat, a: nat, image: seq<byte>, at: nat, n: nat)
    requires |ram| == |ram'| == |image| == WORD && SameDirectory(m, m', k) && ShownRange(m, ram, k, a, image, at, n)
    requires forall va: nat :: UserPage(m, k, va / PAGE) ==> KeepsByte(m, ram, m', ram', a, va)
    ensures ShownRange(m', ram', k, a, image, at, n)
  {
    hide ReadByte, UserPage, SameDirectory;
    forall x: nat | at <= x < at + n ensures Shown(m', ram', k, a, image, x) {
      assert Shown(m, ram, k, a, image, x);
      SameUserPage(m, m', k, Wrap(x) / PAGE);
      assert KeepsByte(m, ram, m', ram', a, Wrap(x));
    }
  }

  lemma ImageStaysShown(m: Mem, ram: seq<byte>, m': Mem, ram': seq<byte>, k: nat, a: nat, image: seq<byte>, addr: nat, n: nat)
    requires |ram| == |ram'| == |image| == WORD && SameDirectory(m, m', k) && ShownImage(m, ram, k, a, image, addr, n)
    requires forall va: nat :: UserPage(m, k, va / PAGE) ==> KeepsByte(m, ram, m', ram', a, va)
    ensures ShownImage(m', ram', k, a, image, addr, n)
  {
    hide ReadByte, UserPage, SameDirectory, ShownRange, KeepsByte, ProgramAt, HeaderAt;
    StaysShown(m, ram, m', ram', k, a, image, addr, 52);
    forall i | 0 <= i < n
      ensures ShownRange(m', ram', k, a, image, HeaderAt(image, addr, i), 32)
      ensures Loadable(ProgramAt(image, addr, i), addr) ==> ShownFile(m', ram', k, a, image, addr, ProgramAt(image, addr, i))
    {
      StaysShown(m, ram, m', ram', k, a, image, HeaderAt(image, addr, i), 32);
      var p := ProgramAt(image, addr, i);
      if Loadable(p, addr) { StaysShown(m, ram, m', ram', k, a, image, Wrap(addr + p.offset), p.fsize); }
    }
  }

  // ----- one segment

  // Reading a file in user pages into a buffer on the heap is writing the bytes it had.
  lemma CopyShown(m: Mem, k: nat, live: set<nat>, owner: map<nat, Role>, reserved: set<nat>, ram: seq<byte>, a: nat, image: seq<byte>, buf: nat, src: nat, n: nat)
    requires |ram| == |image| == WORD && Laid(m, k, live, owner, reserved) && a in live && a != k
    requires src + n <= WORD && ShownRange(m, ram, k, a, image, src, n) && Heap.START <= buf && buf + n <= Heap.END
    ensures Copy(ram, m, a, buf, src, n) == Write(ram, m, a, buf, FileBytes(image, src, n))
  {
    hide Owned, NoUserSlots, KernelIdentity, UserPage, Phys;
    HeapRangeIsOpen(m, k, buf, n);
    forall at: nat | src <= at < src + n ensures Open(m, k, at) && !InHeap(at) && ReadByte(m, ram, a, at) == Some(FileBytes(image, src, n)[at - src]) {
      assert Shown(m, ram, k, a, image, at);
      UserIsNotHeap(m, k, live, at);
    }
    assert (n > 0 ==> InHeap(buf)) && (buf <= src < buf + n ==> InHeap(src));
    CopyIsWrite(m, k, live, owner, reserved, ram, a, buf, src, FileBytes(image, src, n));
  }

  lemma NextIsLoadOne(s: Loaded, k: nat, live: set<nat>, owner: map<nat, Role>, reserved: set<nat>, a: nat, c: nat, image: seq<byte>, addr: nat, at: nat)
    requires |s.ram| == |image| == WORD && Laid(s.m, k, live, owner, reserved) && a in live && a != k
    requires ShownRange(s.m, s.ram, k, a, image, at, 32)
    requires var p := ProgramIn(image, at); Loadable(p, addr) ==> ShownFile(s.m, s.ram, k, a, image, addr, p) && BufferFits(s.heap, p.fsize)
    ensures LoadNext(s, a, c, addr, at) == LoadOne(s, a, c, image, addr, ProgramIn(image, at))
  {
    hide Laid, Shown, Copy, Write, Placed, ReadU32, FileBytes, Heap.Malloc, ReadBytes, Word32;
    var p := ProgramIn(image, at);
    ShownPart(s.m, s.ram, k, a, image, at, 32, 0, 12);
    ReadShown(s.m, s.ram, k, a, image, at, 12);
    WordOfFile(image, at, 12, 0);
    WordOfFile(image, at, 12, 4);
    WordOfFile(image, at, 12, 8);
    ShownPart(s.m, s.ram, k, a, image, at, 32, 16, 8);
    ReadShown(s.m, s.ram, k, a, image, at + 16, 8);
    WordOfFile(image, at + 16, 8, 0);
    WordOfFile(image, at + 16, 8, 4);
    if Loadable(p, addr) && Heap.Malloc(s.heap, p.fsize).Some? {
      CopyShown(s.m, k, live, owner, reserved, s.ram, a, image, Heap.Malloc(s.heap, p.fsize).value.1, Wrap(addr + p.offset), p.fsize);
      SameFile(image, addr + p.offset, p.fsize);
    }
  }

  lemma SameFile(image: seq<byte>, src: nat, n: nat)
    requires |image| == WORD
    ensures FileBytes(image, Wrap(src), n) == FileBytes(image, src, n)
  {
    forall i: nat | i < n ensures FileBytes(image, Wrap(src), n)[i] == FileBytes(image, src, n)[i] { WrapTwice(src, i); }
  }

  // ----- the whole image

  // What is asked of memory and heap when ParseElf is called.
  ghost predicate Ready(s: Loaded, k: nat, live: set<nat>, owner: map<nat, Role>, reserved: set<nat>, a: nat, c: nat, image: seq<byte>, addr: nat)
    requires |s.ram| == |image| == WORD
  {
    var n := Count(image, addr);
    && Laid(s.m, k, live, owner, reserved) && c in live && c != k && a in live && a != k && a != c
    && ShownImage(s.m, s.ram, k, a, image, addr, n) && AllFit(s.m, k, image, addr, n)
    && Heap.Holds(s.heap) && StaysInHeap(s.heap, image, addr, n)
  }

  // After i segments the image is still there.
  lemma StillShown(s: Loaded, k: nat, live: set<nat>, owner: map<nat, Role>, reserved: set<nat>, a: nat, c: nat, image: seq<byte>, addr: nat, i: nat)
    returns (owner': map<nat, Role>)
    requires |s.ram| == |image| == WORD && Ready(s, k, live, owner, reserved, a, c, image, addr)
    requires i <= Count(image, addr) && LoadAll(s, a, c, image, addr, i).Some?
    ensures var s1 := LoadAll(s, a, c, image, addr, i).value;
            && Laid(s1.m, k, live, owner', reserved) && ShownImage(s1.m, s1.ram, k, a, image, addr, Count(image, addr)) && Heap.Holds(s1.heap)
            && (i < Count(image, addr) && Loadable(ProgramAt(image, addr, i), addr) && Heap.Malloc(s1.heap, ProgramAt(image, addr, i).fsize).Some? ==>
                  BufferFits(s1.heap, ProgramAt(image, addr, i).fsize))
  {
    hide Laid, LoadAll, ShownImage, ProgramAt, Count, AllApart, AllContent, Heap.Malloc, Heap.Holds, Heap.EndOf, Heap.IsPayload, SameDirectory, Frames.Ledger,
      KeepsByte, UserPage;
    var n := Count(image, addr);
    FewerStay(s.heap, image, addr, n, i);
    BuffersStayInHeap(s, a, c, image, addr, i);
    FewerAllFit(s.m, k, image, addr, n, i);
    owner' := LoadAllStep(s, k, live, owner, reserved, a, c, image, addr, i);
    var s1 := LoadAll(s, a, c, image, addr, i).value;
    forall va: nat | UserPage(s.m, k, va / PAGE) ensures KeepsByte(s.m, s.ram, s1.m, s1.ram, a, va) {}
    ImageStaysShown(s.m, s.ram, s1.m, s1.ram, k, a, image, addr, n);
    if i < n && Loadable(ProgramAt(image, addr, i), addr) && Heap.Malloc(s1.heap, ProgramAt(image, addr, i).fsize).Some? {
      NextBuffer(s, a, c, image, addr, n, i);
    }
  }

  lemma FewerStay(heap: seq<Heap.Block>, image: seq<byte>, addr: nat, n: nat, i: nat)
    requires |image| == WORD && StaysInHeap(heap, image, addr, n) && i <= n
    ensures StaysInHeap(heap, image, addr, i)
  {
    hide Staged;
  }

  lemma FewerAllFit(m: Mem, k: nat, image: seq<byte>, addr: nat, n: nat, i: nat)
    requires |image| == WORD && AllFit(m, k, image, addr, n) && i <= n
    ensures AllFit(m, k, image, addr, i)
  {
    hide Fits, ProgramAt;
  }

  // The buffer of the next segment ends in the heap, whether or not the segment is loaded.
  lemma NextBuffer(s: Loaded, a: nat, c: nat, image: seq<byte>, addr: nat, n: nat, i: nat)
    requires |s.ram| == |image| == WORD && StaysInHeap(s.heap, image, addr, n) && i < n && LoadAll(s, a, c, image, addr, i).Some?
    requires var s1, p := LoadAll(s, a, c, image, addr, i).value, ProgramAt(image, addr, i);
             Heap.Holds(s1.heap) && Loadable(p, addr) && Heap.Malloc(s1.heap, p.fsize).Some?
    ensures var s1, p := LoadAll(s, a, c, image, addr, i).value, ProgramAt(image, addr, i); BufferFits(s1.heap, p.fsize)
  {
    hide LoadAll, ProgramAt, Heap.Malloc, Heap.Free, Heap.Holds, Heap.EndOf, Heap.IsPayload, Heap.FirstFit;
    StagedIs(s, a, c, image, addr, i);
    var s1, p := LoadAll(s, a, c, image, addr, i).value, ProgramAt(image, addr, i);
    var (h1, buf) := Heap.Malloc(s1.heap, p.fsize).value;
    StagedMore(s.heap, image, addr, i);
    FreeKeepsEnd(h1, buf);
    Heap.MallocHoldsExactly(s1.heap, p.fsize);
  }

  lemma StagedMore(heap: seq<Heap.Block>, image: seq<byte>, addr: nat, i: nat)
    requires |image| == WORD && Staged(heap, image, addr, i).Some? && Loadable(ProgramAt(image, addr, i), addr)
    requires Heap.Malloc(Staged(heap, image, addr, i).value, ProgramAt(image, addr, i).fsize).Some?
    ensures var (h1, buf) := Heap.Malloc(Staged(heap, image, addr, i).value, ProgramAt(image, addr, i).fsize).value;
            Staged(heap, image, addr, i + 1) == Some(Heap.Free(h1, buf))
  {
    hide ProgramAt, Heap.Malloc, Heap.Free;
  }

  // From header i on the loop does to memory what is left of loading the image that was there
  // at the start.
  lemma {:induction false} ParseFromIs(s: Loaded, k: nat, live: set<nat>, owner: map<nat, Role>, reserved: set<nat>, a: nat, c: nat, image: seq<byte>, addr: nat, i: nat)
    requires |s.ram| == |image| == WORD && Ready(s, k, live, owner, reserved, a, c, image, addr)
    requires i <= Count(image, addr) && LoadAll(s, a, c, image, addr, i).Some?
    ensures ParseFrom(LoadAll(s, a, c, image, addr, i).value, a, c, addr, addr + ReadU32(image, addr + 28), i)
            == LoadAll(s, a, c, image, addr, Count(image, addr))
    decreases Count(image, addr) - i
  {
    hide Ready, LoadOne, LoadNext, ReadBytes, ReadU32, Laid, Heap.Holds, BufferFits, ShownRange, ShownFile, Heap.Malloc;
    var n, s1 := Count(image, addr), LoadAll(s, a, c, image, addr, i).value;
    var owner1 := StillShown(s, k, live, owner, reserved, a, c, image, addr, i);
    CountIsRead(s1, k, a, image, addr, n);
    ReadyHas(s, k, live, owner, reserved, a, c, image, addr);
    if i < n {
      NextIsOne(s1, k, live, owner1, reserved, a, c, image, addr, n, i);
      var table := addr + ReadU32(image, addr + 28);
      assert LoadNext(s1, a, c, addr, table + 32 * i) == LoadOne(s1, a, c, image, addr, ProgramAt(image, addr, i));
      assert LoadAll(s, a, c, image, addr, i + 1) == LoadOne(s1, a, c, image, addr, ProgramAt(image, addr, i));
      if LoadAll(s, a, c, image, addr, i + 1).Some? {
        ParseFromIs(s, k, live, owner, reserved, a, c, image, addr, i + 1);
      } else {
        LoadFails(s, a, c, image, addr, i + 1, n);
      }
    }
  }

  // And the heap stays within its bounds.
  lemma {:induction false} ReadyIsShort(s: Loaded, k: nat, live: set<nat>, owner: map<nat, Role>, reserved: set<nat>, a: nat, c: nat, image: seq<byte>, addr: nat, i: nat)
    requires |s.ram| == |image| == WORD && Ready(s, k, live, owner, reserved, a, c, image, addr)
    requires i <= Count(image, addr) && LoadAll(s, a, c, image, addr, i).Some?
    ensures ShortHeap(LoadAll(s, a, c, image, addr, i).value, a, c, addr, addr + ReadU32(image, addr + 28), i)
    decreases Count(image, addr) - i
  {
    hide Ready, LoadOne, LoadNext, ReadBytes, ReadU32, Laid, Heap.EndOf, Heap.Holds, BufferFits, ShownRange, ShownFile, Heap.Malloc;
    var n, s1 := Count(image, addr), LoadAll(s, a, c, image, addr, i).value;
    var owner1 := StillShown(s, k, live, owner, reserved, a, c, image, addr, i);
    CountIsRead(s1, k, a, image, addr, n);
    ReadyHas(s, k, live, owner, reserved, a, c, image, addr);
    HoldsIsShort(s1.heap);
    if i < n {
      NextIsOne(s1, k, live, owner1, reserved, a, c, image, addr, n, i);
      var table := addr + ReadU32(image, addr + 28);
      assert LoadNext(s1, a, c, addr, table + 32 * i) == LoadOne(s1, a, c, image, addr, ProgramAt(image, addr, i));
      assert LoadAll(s, a, c, image, addr, i + 1) == LoadOne(s1, a, c, image, addr, ProgramAt(image, addr, i));
      if LoadAll(s, a, c, image, addr, i + 1).Some? { ReadyIsShort(s, k, live, owner, reserved, a, c, image, addr, i + 1); }
    }
  }

  lemma HoldsIsShort(h: seq<Heap.Block>)
    requires Heap.Holds(h)
    ensures Heap.EndOf(h) < WORD
  {
  }

  lemma ReadyHas(s: Loaded, k: nat, live: set<nat>, owner: map<nat, Role>, reserved: set<nat>, a: nat, c: nat, image: seq<byte>, addr: nat)
    requires |s.ram| == |image| == WORD && Ready(s, k, live, owner, reserved, a, c, image, addr)
    ensures a in live && a != k && c in live && c != k && a != c
  {
  }

  lemma CountIsRead(s: Loaded, k: nat, a: nat, image: seq<byte>, addr: nat, n: nat)
    requires |s.ram| == |image| == WORD && ShownImage(s.m, s.ram, k, a, image, addr, n)
    ensures var h := ReadBytes(s.m, s.ram, a, Wrap(addr + 44), 2);
            h.Some? && Word16(h.value) == Count(image, addr) < 0x1_0000
  {
    hide Shown, ShownFile;
    ShownPart(s.m, s.ram, k, a, image, addr, 52, 44, 2);
    ReadShown(s.m, s.ram, k, a, image, addr + 44, 2);
    var f := FileBytes(image, addr + 44, 2);
    assert f[0] == Byte(image, addr + 44) && f[1] == Byte(image, addr + 44 + 1);
  }

  lemma NextIsOne(s: Loaded, k: nat, live: set<nat>, owner: map<nat, Role>, reserved: set<nat>, a: nat, c: nat, image: seq<byte>, addr: nat, n: nat, i: nat)
    requires |s.ram| == |image| == WORD && Laid(s.m, k, live, owner, reserved) && a in live && a != k && i < n
    requires ShownImage(s.m, s.ram, k, a, image, addr, n)
    requires Loadable(ProgramAt(image, addr, i), addr) && Heap.Malloc(s.heap, ProgramAt(image, addr, i).fsize).Some? ==>
               BufferFits(s.heap, ProgramAt(image, addr, i).fsize)
    ensures LoadNext(s, a, c, addr, HeaderAt(image, addr, i)) == LoadOne(s, a, c, image, addr, ProgramAt(image, addr, i))
  {
    hide Laid, ShownRange, ShownFile, ProgramIn, LoadNext, LoadOne, HeaderAt, Heap.Malloc;
    assert ShownRange(s.m, s.ram, k, a, image, HeaderAt(image, addr, i), 32);
    NextIsLoadOne(s, k, live, owner, reserved, a, c, image, addr, HeaderAt(image, addr, i));
  }

  // ParseElf of an image in the caller's user pages: what it loads, and the entry it returns,
  // are those of the image as it was when it was called.
  lemma ParseIs(s: Loaded, k: nat, live: set<nat>, owner: map<nat, Role>, reserved: set<nat>, a: nat, c: nat, image: seq<byte>, addr: u32)
    requires |s.ram| == |image| == WORD && Ready(s, k, live, owner, reserved, a, c, image, addr)
    requires addr != 0 && ReadU32(image, addr) == ELF_MAGIC
    ensures Parse(s, a, c, addr) ==
            match LoadAll(s, a, c, image, addr, Count(image, addr))
            case None => None
            case Some(s1) => Some((s1, Entry(image, addr)))
  {
    hide Ready, LoadAll, ParseFrom, ReadBytes, ReadU32, Laid, Heap.Holds, BufferFits, ShownRange, ShownFile, Heap.Malloc, Word32, Count;
    ReadyShows(s, k, live, owner, reserved, a, c, image, addr);
    ReadWord(s.m, s.ram, k, a, image, addr, 52, 28);
    ReadWord(s.m, s.ram, k, a, image, addr, 52, 0);
    assert Wrap(addr + 0) == addr;
    NoneLoaded(s, a, c, image, addr);
    ParseFromIs(s, k, live, owner, reserved, a, c, image, addr, 0);
    if LoadAll(s, a, c, image, addr, Count(image, addr)).Some? {
      var s1 := LoadAll(s, a, c, image, addr, Count(image, addr)).value;
      var _ := StillShown(s, k, live, owner, reserved, a, c, image, addr, Count(image, addr));
      ReadWord(s1.m, s1.ram, k, a, image, addr, 52, 24);
    }
  }

  lemma ReadyStaysShort(s: Loaded, k: nat, live: set<nat>, owner: map<nat, Role>, reserved: set<nat>, a: nat, c: nat, image: seq<byte>, addr: u32)
    requires |s.ram| == |image| == WORD && Ready(s, k, live, owner, reserved, a, c, image, addr)
    ensures HeapStaysShort(s, a, c, addr)
  {
    hide Ready, LoadAll, ReadBytes, ReadU32, ShownRange, Word32, Count, ShortHeap;
    ReadyShows(s, k, live, owner, reserved, a, c, image, addr);
    ReadWord(s.m, s.ram, k, a, image, addr, 52, 28);
    NoneLoaded(s, a, c, image, addr);
    ReadyIsShort(s, k, live, owner, reserved, a, c, image, addr, 0);
  }

  lemma ReadyShows(s: Loaded, k: nat, live: set<nat>, owner: map<nat, Role>, reserved: set<nat>, a: nat, c: nat, image: seq<byte>, addr: nat)
    requires |s.ram| == |image| == WORD && Ready(s, k, live, owner, reserved, a, c, image, addr)
    ensures ShownRange(s.m, s.ram, k, a, image, addr, 52)
  {
    hide ShownRange;
  }

  lemma NoneLoaded(s: Loaded, a: nat, c: nat, image: seq<byte>, addr: nat)
    requires |s.ram| == |image| == WORD
    ensures LoadAll(s, a, c, image, addr, 0) == Some(s)
  {
  }
}
