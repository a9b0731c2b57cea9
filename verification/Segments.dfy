/**
 An executable file field by field (hal.x86/include/elf.h:33-61), and what a program launched
 from one finds in its memory: exactly the pages that a segment to load reaches into, and in
 them the bytes of the file.
 */
module Segments {
  import opened Machine
  import opened Frames
  import opened Paging
  import opened Ownership
  import opened Translation
  import opened Boot
  import opened AddressSpaceRuns
  import opened Access
  import opened Elf
  import opened Images
  import LifeCycle
  import Kernel
  import Runs = KernelRuns
  import Heap

  // ----- the layout

  type u16 = w: nat | w < 0x1_0000
  type Ident = s: seq<byte> | |s| == 16 ghost witness ZeroBytes(16)

  datatype FileHeader = FileHeader(magic: u32, version: u32, ident: Ident, entry: u32, offset: u32, soffset: u32, flags: u32,
                                   headerSize: u16, pentrySize: u16, pentryCount: u16, sentrySize: u16, sentryCount: u16, stableIndex: u16)

  datatype FileProgram = FileProgram(kind: u32, offset: u32, vaddr: u32, paddr: u32, fsize: u32, msize: u32, flags: u32, alignment: u32)

  function Bytes16(w: u16): (s: seq<byte>)
    ensures |s| == 2
  {
    [w % 0x100, w / 0x100]
  }

  function HeaderBytes(h: FileHeader): (s: seq<byte>)
    ensures |s| == 52
  {
    Bytes32(h.magic) + Bytes32(h.version) + h.ident + Bytes32(h.entry) + Bytes32(h.offset) + Bytes32(h.soffset) + Bytes32(h.flags)
    + Bytes16(h.headerSize) + Bytes16(h.pentrySize) + Bytes16(h.pentryCount) + Bytes16(h.sentrySize) + Bytes16(h.sentryCount) + Bytes16(h.stableIndex)
  }

  function ProgramBytes(p: FileProgram): (s: seq<byte>)
    ensures |s| == 32
  {
    Bytes32(p.kind) + Bytes32(p.offset) + Bytes32(p.vaddr) + Bytes32(p.paddr)
    + Bytes32(p.fsize) + Bytes32(p.msize) + Bytes32(p.flags) + Bytes32(p.alignment)
  }

  // The bytes lie in the image from address `at` on.
  ghost predicate Lies(image: seq<byte>, at: nat, bytes: seq<byte>)
    requires |image| == WORD
  {
    forall i :: 0 <= i < |bytes| ==> Byte(image, at + i) == bytes[i]
  }

  lemma WordLies(image: seq<byte>, at: nat, bytes: seq<byte>, i: nat, w: u32)
    requires |image| == WORD && Lies(image, at, bytes) && i + 4 <= |bytes| && bytes[i..i + 4] == Bytes32(w)
    ensures ReadU32(image, at + i) == w
  {
    var s := bytes[i..i + 4];
    assert Byte(image, at + i) == s[0] && Byte(image, at + (i + 1)) == s[1] && Byte(image, at + (i + 2)) == s[2] && Byte(image, at + (i + 3)) == s[3];
    WordRoundTrip(w);
  }

  lemma HalfLies(image: seq<byte>, at: nat, bytes: seq<byte>, i: nat, w: u16)
    requires |image| == WORD && Lies(image, at, bytes) && i + 2 <= |bytes| && bytes[i..i + 2] == Bytes16(w)
    ensures ReadU16(image, at + i) == w
  {
    var s := bytes[i..i + 2];
    assert Byte(image, at + i) == s[0] && Byte(image, at + (i + 1)) == s[1];
  }

  // ParseElf finds each field where the compiler of the file put it.
  lemma HeaderReads(image: seq<byte>, addr: nat, h: FileHeader)
    requires |image| == WORD && Lies(image, addr, HeaderBytes(h))
    ensures ReadU32(image, addr) == h.magic && Entry(image, addr) == h.entry && Count(image, addr) == h.pentryCount
    ensures HeaderAt(image, addr, 0) == addr + h.offset
  {
    hide Bytes32, Bytes16, Lies, ReadU32, ReadU16;
    var s := HeaderBytes(h);
    assert s[0..4] == Bytes32(h.magic) && s[24..28] == Bytes32(h.entry) && s[28..32] == Bytes32(h.offset) && s[44..46] == Bytes16(h.pentryCount);
    WordLies(image, addr, s, 0, h.magic);
    WordLies(image, addr, s, 24, h.entry);
    WordLies(image, addr, s, 28, h.offset);
    HalfLies(image, addr, s, 44, h.pentryCount);
  }

  lemma ProgramReads(image: seq<byte>, at: nat, p: FileProgram)
    requires |image| == WORD && Lies(image, at, ProgramBytes(p))
    ensures ProgramIn(image, at) == Program(p.kind, p.offset, p.vaddr, p.fsize, p.msize)
  {
    hide Bytes32, Lies, ReadU32;
    var s := ProgramBytes(p);
    assert s[0..4] == Bytes32(p.kind) && s[4..8] == Bytes32(p.offset) && s[8..12] == Bytes32(p.vaddr);
    assert s[16..20] == Bytes32(p.fsize) && s[20..24] == Bytes32(p.msize);
    WordLies(image, at, s, 0, p.kind);
    WordLies(image, at, s, 4, p.offset);
    WordLies(image, at, s, 8, p.vaddr);
    WordLies(image, at, s, 16, p.fsize);
    WordLies(image, at, s, 20, p.msize);
  }

  // ----- the pages of a program

  // Header i is one to load, and a byte of its segment lies in the page.
  ghost predicate Reaches(image: seq<byte>, addr: nat, i: nat, page: nat)
    requires |image| == WORD
  {
    var p := ProgramAt(image, addr, i);
    && p.kind == 1 && p.vaddr != 0 && (addr + p.offset) % 0x1_0000_0000 != 0
    && exists at: nat :: p.vaddr <= at < p.vaddr + p.msize && at / PAGE == page
  }

  lemma ReachesExactly(image: seq<byte>, addr: nat, i: nat, page: nat)
    requires |image| == WORD && (ProgramAt(image, addr, i).msize > 0 ==> ProgramAt(image, addr, i).vaddr % PAGE == 0)
    ensures var p := ProgramAt(image, addr, i);
            Reaches(image, addr, i, page) <==> Loadable(p, addr) && p.vaddr / PAGE <= page < p.vaddr / PAGE + PagesOf(p.msize)
  {
    hide ProgramAt, PagesOf;
    var p := ProgramAt(image, addr, i);
    if p.msize > 0 { PagesOfExactly(p.vaddr / PAGE, p.msize, page); }
    assert p.vaddr / PAGE * PAGE + p.vaddr % PAGE == p.vaddr;
    NoPagesOfNothing();
  }

  lemma NoPagesOfNothing()
    ensures PagesOf(0) == 0
  {
  }

  // The address space of c has exactly the pages of the first n segments.
  ghost predicate MapsSegments(m: Mem, k: nat, c: nat, image: seq<byte>, addr: nat, n: nat)
    requires |image| == WORD
  {
    forall page :: UserPage(m, k, page) ==> (Walk(m, c, page) != 0 <==> exists i :: 0 <= i < n && Reaches(image, addr, i, page))
  }

  lemma {:induction false} LoadMapsExactly(s: Loaded, k: nat, live: set<nat>, owner: map<nat, Role>, reserved: set<nat>, active: nat, c: nat, image: seq<byte>, addr: nat, n: nat)
    requires |s.ram| == |image| == WORD && AllFit(s.m, k, image, addr, n) && BuffersFit(s, active, c, image, addr, n)
    requires Laid(s.m, k, live, owner, reserved) && c in live && c != k && active in live && active != k
    requires LoadAll(s, active, c, image, addr, n).Some? && forall page :: UserPage(s.m, k, page) ==> Walk(s.m, c, page) == 0
    ensures MapsSegments(LoadAll(s, active, c, image, addr, n).value.m, k, c, image, addr, n)
  {
    hide Laid, LoadOne, ProgramAt, AllFit, BuffersFit, AllContent, KeepsOtherContexts, AllApart, SameDirectory, Frames.Ledger, Walk, UserPage, Reaches,
      MapsSegments;
    if n == 0 {
      NothingMapped(s.m, k, c, image, addr);
    } else {
      var s1, p := LoadAll(s, active, c, image, addr, n - 1).value, ProgramAt(image, addr, n - 1);
      FewerFit(s, k, active, c, image, addr, n);
      LoadMapsExactly(s, k, live, owner, reserved, active, c, image, addr, n - 1);
      if Loadable(p, addr) {
        var owner1 := LoadAllStep(s, k, live, owner, reserved, active, c, image, addr, n - 1);
        LoadParts(s1, active, c, image, addr, p);
        FitsAt(s.m, s, k, active, c, image, addr, n, n - 1);
        FitsAfter(s.m, s1.m, k, p);
        OneSegmentMore(s1, LoadOne(s1, active, c, image, addr, p).value, k, live, owner1, reserved, c, image, addr, n - 1);
      } else {
        Skipped(s1, active, c, image, addr, p);
        SkippedMaps(s1.m, k, c, image, addr, n - 1);
      }
    }
  }

  lemma NothingMapped(m: Mem, k: nat, c: nat, image: seq<byte>, addr: nat)
    requires |image| == WORD && forall page :: UserPage(m, k, page) ==> Walk(m, c, page) == 0
    ensures MapsSegments(m, k, c, image, addr, 0)
  {
    hide Walk, UserPage;
  }

  lemma SkippedMaps(m: Mem, k: nat, c: nat, image: seq<byte>, addr: nat, n: nat)
    requires |image| == WORD && MapsSegments(m, k, c, image, addr, n) && !Loadable(ProgramAt(image, addr, n), addr)
    ensures MapsSegments(m, k, c, image, addr, n + 1)
  {
    hide Walk, UserPage, ProgramAt;
    forall page ensures !Reaches(image, addr, n, page) {}
    forall page | UserPage(m, k, page) ensures (exists i :: 0 <= i < n + 1 && Reaches(image, addr, i, page)) <==> exists i :: 0 <= i < n && Reaches(image, addr, i, page) {
      if i :| 0 <= i < n + 1 && Reaches(image, addr, i, page) { assert i < n; }
    }
  }

  lemma OneSegmentMore(s: Loaded, s': Loaded, k: nat, live: set<nat>, owner: map<nat, Role>, reserved: set<nat>, c: nat, image: seq<byte>, addr: nat, n: nat)
    requires |image| == WORD && Laid(s.m, k, live, owner, reserved) && c in live && c != k && MapsSegments(s.m, k, c, image, addr, n)
    requires var p := ProgramAt(image, addr, n); Loadable(p, addr) && Fits(s.m, k, p) && VmmAlloc(s.m, c, p.vaddr, p.msize) == Some(s'.m)
    ensures MapsSegments(s'.m, k, c, image, addr, n + 1)
  {
    hide Laid, VmmAlloc, ProgramAt, Walk, UserPage, Reaches, SameDirectory, Frames.Ledger, Fits, PagesOf;
    var p := ProgramAt(image, addr, n);
    FitsBelow(s.m, k, p);
    PagesOfSegment(s.m, k, p);
    var fs, _ := AllocKeepsLaid(s.m, k, live, owner, reserved, c, p.vaddr, p.msize);
    SomePages(p.msize);
    forall page | UserPage(s'.m, k, page)
      ensures Walk(s'.m, c, page) != 0 <==> exists i :: 0 <= i < n + 1 && Reaches(image, addr, i, page)
    {
      SameUserPage(s.m, s'.m, k, page);
      UserPageInRange(s.m, k, page);
      ReachesExactly(image, addr, n, page);
      NewWalk(s.m, s'.m, k, live, c, p.vaddr / PAGE, fs, page);
      if Walk(s.m, c, page) != 0 {
        var i :| 0 <= i < n && Reaches(image, addr, i, page);
        assert 0 <= i < n + 1;
      }
      if i :| 0 <= i < n + 1 && Reaches(image, addr, i, page) { assert i < n || i == n; }
    }
  }

  lemma SomePages(sz: nat)
    ensures PagesOf(sz) == 0 <==> sz == 0
  {
  }

  lemma FitsBelow(m: Mem, k: nat, p: Program)
    requires Fits(m, k, p)
    ensures p.vaddr + p.msize < WORD
  {
  }

  lemma NewWalk(m: Mem, m': Mem, k: nat, live: set<nat>, c: nat, first: nat, fs: seq<nat>, page: nat)
    requires MappedRange(m, m', k, live, c, first, fs) && c in live && page < FRAMES
    ensures Walk(m', c, page) != 0 <==> Walk(m, c, page) != 0 || first <= page < first + |fs|
  {
    hide Walk, UserPage;
    if first <= page < first + |fs| { EntryParts(fs[page - first]); }
  }

  // ----- a launched program

  // After launch_elf_program, for an image in the caller's memory: the new address space has
  // exactly the user pages that a segment to load reaches into.
  lemma LaunchedMapsExactly(s: Kernel.State, addr: u32, owner: map<nat, Role>, reserved: set<nat>)
    requires Runs.Inv(s, owner, reserved) && s.sched.current.Some? && Kernel.NewProgram(s, addr).Some?
    requires Runs.GoodImage(s, addr) && Runs.FindsImage(s, addr)
    ensures var (l, c, _) := Kernel.NewProgram(s, addr).value; MapsSegments(l.m, s.k, c, Runs.SeenBy(s), addr, Count(Runs.SeenBy(s), addr))
  {
    hide Laid, CreateUser, LoadAll, AllFit, BuffersFit, StaysInHeap, Count, Entry, Parse, Runs.OwnContexts, Runs.ByPid, Runs.NodesOk, Runs.GoodImage,
      Runs.FindsImage, Seen, Walk, UserPage, MapsSegments, HeapStaysShort, SameDirectory, Frames.Ledger, ShownImage, Staged, Runs.HouseFits, Heap.Holds;
    Runs.CurrentIsLive(s, owner, reserved);
    var (m1, c) := CreateUser(s.loaded.m, s.k).value;
    var image, a := Runs.SeenBy(s), Kernel.Current(s).context;
    var l1, n, live := s.loaded.(m := m1), Count(image, addr), s.breaks.Keys + {c} + {s.k};
    var owner1 := Runs.ProgramIs(s, addr, owner, reserved);
    assert Sys(m1, s.k, s.breaks[c := 0]).Live() == live;
    NewIsEmpty(Kernel.SysOf(s), owner, reserved);
    Runs.GoodImageHas(s, addr);
    FitsStays(s.loaded.m, m1, s.k, image, addr, n);
    Runs.HeapHolds(s);
    BuffersStayInHeap(l1, a, c, image, addr, n);
    LoadMapsExactly(l1, s.k, live, owner1, reserved, a, c, image, addr, n);
  }

  lemma NewIsEmpty(y: Sys, owner: map<nat, Role>, reserved: set<nat>)
    requires Inv(y, owner, reserved) && CreateUser(y.m, y.k).Some?
    ensures var (m1, c) := CreateUser(y.m, y.k).value; forall page :: UserPage(m1, y.k, page) ==> Walk(m1, c, page) == 0
  {
    hide Owned, CreateUser, NoUserSlots, KernelIdentity, Walk, UserPage, SameDirectory, LifeCycle.Accounted, Frames.Ledger;
    LifeCycle.BornAccounted(y.m, y.k, y.Live(), owner, reserved);
  }

  // What it reads there, in terms of the file that the caller has in its memory: for program
  // header number i of the file, if it is one to load, the bytes of the file from its offset on
  // and then zeros.
  lemma LaunchedReadsFile(s: Kernel.State, addr: u32, owner: map<nat, Role>, reserved: set<nat>, h: FileHeader, q: FileProgram, i: nat, j: nat)
    requires Runs.Inv(s, owner, reserved) && s.sched.current.Some? && Kernel.Launched(s, addr).Some? && Runs.GoodImage(s, addr)
    requires Kernel.NewProgram(s, addr).Some? && Kernel.NewProgram(s, addr).value.2 != 0
    requires var image := Runs.SeenBy(s); AllApart(image, addr, Count(image, addr)) && Lies(image, addr, HeaderBytes(h))
    requires i < h.pentryCount && Lies(Runs.SeenBy(s), addr + h.offset + 32 * i, ProgramBytes(q))
    requires q.kind == 1 && q.vaddr != 0 && (addr + q.offset) % 0x1_0000_0000 != 0 && j < q.msize && q.fsize <= q.msize
    ensures Kernel.NewProgram(s, addr).value.2 == h.entry
    ensures var s', c := Kernel.Launched(s, addr).value, Kernel.NewProgram(s, addr).value.1;
            var b := ReadByte(s'.loaded.m, s'.loaded.ram, c, q.vaddr + j);
            b.Some? && b == if j < q.fsize then ReadByte(s.loaded.m, s.loaded.ram, Kernel.Current(s).context, (addr + q.offset + j) % 0x1_0000_0000) else Some(0)
  {
    hide Runs.Inv, Runs.GoodImage, Runs.SeenBy, Kernel.Launched, Kernel.NewProgram, Lies, HeaderBytes, ProgramBytes, AllApart, ProgramIn, ReadByte, ReadU32,
      Runs.FindsImage, Count, Entry;
    Runs.InvShape(s, owner, reserved);
    var image := Runs.SeenBy(s);
    HeaderReads(image, addr, h);
    ProgramReads(image, addr + h.offset + 32 * i, q);
    assert ProgramAt(image, addr, i) == Program(q.kind, q.offset, q.vaddr, q.fsize, q.msize);
    Runs.LaunchedReadsCaller(s, addr, owner, reserved, i, j);
    EntryIs(s, addr, owner, reserved);
  }

  lemma EntryIs(s: Kernel.State, addr: u32, owner: map<nat, Role>, reserved: set<nat>)
    requires Runs.Inv(s, owner, reserved) && s.sched.current.Some? && Kernel.NewProgram(s, addr).Some? && Runs.GoodImage(s, addr)
    ensures var entry := Kernel.NewProgram(s, addr).value.2; entry != 0 ==> entry == Entry(Runs.SeenBy(s), addr)
  {
    hide Laid, CreateUser, LoadAll, Parse, Runs.GoodImage, Runs.FindsImage, Runs.SeenBy, Count, Entry, HeapStaysShort, Runs.OwnContexts, Runs.ByPid,
      Runs.NodesOk, Runs.HeapOk, SameDirectory, Frames.Ledger;
    var _ := Runs.ProgramIs(s, addr, owner, reserved);
  }
}
