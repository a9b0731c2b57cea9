/**
 Memory as bytes, read and written through the page tables of a context. A write by one
 context changes no user byte of another.
 */
module Access {
  import opened Machine
  import opened Frames
  import opened Paging
  import opened Ownership
  import opened Translation
  import opened Boot
  import opened AddressSpaceRuns
  import LifeCycle

  // `ram` are the bytes of memory by physical address, but for the frames of the page pool:
  // their words are in Mem.

  // Where address va of context c lies; None is a page fault.
  function Phys(m: Mem, c: nat, va: nat): (pa: Option<nat>)
    ensures pa.Some? ==> pa.value < WORD
  {
    var w := Walk(m, c, va / PAGE);
    if w % 2 == 1 && w / PAGE < FRAMES then Some(w / PAGE * PAGE + va % PAGE) else None
  }

  function ReadByte(m: Mem, ram: seq<byte>, c: nat, va: nat): Option<byte>
    requires |ram| == WORD
  {
    match Phys(m, c, va)
    case None => None
    case Some(pa) => Some(ram[pa])
  }

  function ReadBytes(m: Mem, ram: seq<byte>, c: nat, va: nat, n: nat): (r: Option<seq<byte>>)
    requires |ram| == WORD
    ensures r.Some? ==> |r.value| == n
  {
    if n == 0 then Some([])
    else
      match ReadBytes(m, ram, c, va, n - 1)
      case None => None
      case Some(s) =>
        match ReadByte(m, ram, c, Wrap(va + n - 1))
        case None => None
        case Some(b) => Some(s + [b])
  }

  // Writing bytes one after the other, as memset does.
  function Write(ram: seq<byte>, m: Mem, c: nat, va: nat, data: seq<byte>): (r: Option<seq<byte>>)
    requires |ram| == WORD
    ensures r.Some? ==> |r.value| == WORD
  {
    if data == [] then Some(ram)
    else
      var n := |data| - 1;
      match Write(ram, m, c, va, data[..n])
      case None => None
      case Some(ram1) =>
        match Phys(m, c, Wrap(va + n))
        case None => None
        case Some(pa) => Some(ram1[pa := data[n]])
  }

  // memcpy, byte by byte, both addresses in context c.
  function Copy(ram: seq<byte>, m: Mem, c: nat, dest: nat, src: nat, n: nat): (r: Option<seq<byte>>)
    requires |ram| == WORD
    ensures r.Some? ==> |r.value| == WORD
  {
    if n == 0 then Some(ram)
    else
      match Copy(ram, m, c, dest, src, n - 1)
      case None => None
      case Some(ram1) =>
        match ReadByte(m, ram1, c, Wrap(src + n - 1))
        case None => None
        case Some(b) =>
          match Phys(m, c, Wrap(dest + n - 1))
          case None => None
          case Some(pa) => Some(ram1[pa := b])
  }

  // ----- addresses

  // The kernel heap, which every context maps one to one.
  predicate InHeap(va: nat) {
    HEAP_START * PAGE <= va < HEAP_END * PAGE
  }

  // An address of user space or of the kernel heap.
  predicate Open(m: Mem, k: nat, va: nat) {
    va < WORD && (UserPage(m, k, va / PAGE) || InHeap(va))
  }

  ghost predicate OpenRange(m: Mem, k: nat, va: nat, n: nat) {
    va + n <= WORD && forall at: nat :: va <= at < va + n ==> Open(m, k, at)
  }

  lemma HeapPage(va: nat)
    requires InHeap(va)
    ensures KERNEL_START <= va / PAGE < HEAP_END && va / PAGE < FRAMES && va / PAGE * PAGE + va % PAGE == va
  {
  }

  lemma KernelWordParts(p: nat)
    requires KERNEL_START <= p < HEAP_END
    ensures KernelWord(p) % 2 == 1 && KernelWord(p) / PAGE == p && p < FRAMES
  {
  }

  lemma PhysOfHeap(m: Mem, k: nat, live: set<nat>, a: nat, va: nat)
    requires KernelIdentity(m, k, live) && a in live && InHeap(va)
    ensures Phys(m, a, va) == Some(va) && !UserPage(m, k, va / PAGE)
  {
    hide Walk, UserPage;
    HeapPage(va);
    KernelWordParts(va / PAGE);
  }

  lemma UserIsNotHeap(m: Mem, k: nat, live: set<nat>, va: nat)
    requires KernelIdentity(m, k, live) && UserPage(m, k, va / PAGE)
    ensures !InHeap(va)
  {
    hide UserPage, Walk;
    if InHeap(va) { HeapPage(va); }
  }

  lemma UserFrame(m: Mem, k: nat, live: set<nat>, owner: map<nat, Role>, reserved: set<nat>, a: nat, page: nat)
    requires Owned(m, k, live, owner, reserved) && a in live && a != k && UserPage(m, k, page) && Walk(m, a, page) != 0
    ensures page < FRAMES && Has(owner, Walk(m, a, page) / PAGE, Page(a, page / SLOTS, page % SLOTS))
    ensures HEAP_END <= Walk(m, a, page) / PAGE && Walk(m, a, page) / PAGE in m.frames.used
  {
    hide PdEntry, PtEntry, WellFormed;
    UserPageInRange(m, k, page);
    LifeCycle.LostFrameWasOwned(m, k, live, owner, reserved, a, page);
    WalkIsEntry(m, k, live, owner, reserved, a, page / SLOTS);
    assert ContextOk(m, k, owner, a) && TableOk(m, k, owner, a, page / SLOTS) && PageOk(m, owner, a, page / SLOTS, page % SLOTS);
  }

  lemma PhysParts(m: Mem, a: nat, va: nat)
    ensures Phys(m, a, va).Some? ==>
              var w, pa := Walk(m, a, va / PAGE), Phys(m, a, va).value; w != 0 && pa / PAGE == w / PAGE && pa % PAGE == va % PAGE
  {
  }

  lemma KernelAddress(m: Mem, k: nat, live: set<nat>, a: nat, at: nat)
    requires KernelIdentity(m, k, live) && a in live && KERNEL_START * PAGE <= at < (HEAP_END + 1) * PAGE
    ensures Phys(m, a, at) == Some(at)
  {
    hide Walk, UserPage;
    assert KERNEL_START <= at / PAGE <= HEAP_END && at / PAGE < FRAMES;
    EntryParts(at / PAGE);
  }

  lemma FrameAddress(m: Mem, b: nat, q: nat, f: nat, j: nat)
    requires Walk(m, b, q) == f * PAGE + USER && f < FRAMES && j < PAGE
    ensures Phys(m, b, q * PAGE + j) == Some(f * PAGE + j)
  {
    hide Walk;
    EntryParts(f);
    assert (q * PAGE + j) / PAGE == q && (q * PAGE + j) % PAGE == j;
  }

  lemma SplitAddress(va: nat, vb: nat)
    ensures va == vb <==> va / PAGE == vb / PAGE && va % PAGE == vb % PAGE
  {
  }

  lemma SplitPage(p: nat, q: nat)
    ensures p == q <==> p / SLOTS == q / SLOTS && p % SLOTS == q % SLOTS
  {
  }

  // Two contexts meet in one byte only in the kernel heap, and one context only at one address.
  lemma PlacesApart(m: Mem, k: nat, live: set<nat>, owner: map<nat, Role>, reserved: set<nat>, a: nat, va: nat, b: nat, vb: nat)
    requires Laid(m, k, live, owner, reserved) && a in live && a != k && b in live && b != k
    requires Open(m, k, va) && Open(m, k, vb) && Phys(m, a, va).Some? && Phys(m, a, va) == Phys(m, b, vb)
    ensures va == vb && (a == b || InHeap(va))
  {
    hide Owned, KernelIdentity, NoUserSlots, UserPage, Walk, Phys;
    PhysParts(m, a, va);
    PhysParts(m, b, vb);
    if InHeap(va) { PhysOfHeap(m, k, live, a, va); HeapPage(va); } else { UserFrame(m, k, live, owner, reserved, a, va / PAGE); }
    if InHeap(vb) { PhysOfHeap(m, k, live, b, vb); HeapPage(vb); } else { UserFrame(m, k, live, owner, reserved, b, vb / PAGE); }
    SplitPage(va / PAGE, vb / PAGE);
    SplitAddress(va, vb);
  }

  // ----- what a write does

  // Address at of context a is one of the n bytes from va on in context c.
  predicate Touches(c: nat, va: nat, n: nat, a: nat, at: nat) {
    va <= at < va + n && (a == c || InHeap(at))
  }

  // Context c reads the data there, and all else that anybody reads is as before.
  ghost predicate Wrote(m: Mem, ram: seq<byte>, r: seq<byte>, k: nat, live: set<nat>, c: nat, va: nat, data: seq<byte>)
    requires |ram| == |r| == WORD
  {
    && (forall at: nat :: va <= at < va + |data| ==> ReadByte(m, r, c, at) == Some(data[at - va]))
    && (forall a, at: nat :: a in live && a != k && Open(m, k, at) && !Touches(c, va, |data|, a, at) ==>
          ReadByte(m, r, a, at) == ReadByte(m, ram, a, at))
  }

  lemma {:induction false} WriteEffect(m: Mem, k: nat, live: set<nat>, owner: map<nat, Role>, reserved: set<nat>, ram: seq<byte>, c: nat, va: nat, data: seq<byte>)
    requires |ram| == WORD && Laid(m, k, live, owner, reserved) && c in live && c != k && OpenRange(m, k, va, |data|)
    requires Write(ram, m, c, va, data).Some?
    ensures Wrote(m, ram, Write(ram, m, c, va, data).value, k, live, c, va, data)
  {
    hide Laid, Phys, Open, Wrote;
    if data == [] {
      NothingWrote(m, ram, k, live, c, va);
    } else {
      var n := |data| - 1;
      WriteEffect(m, k, live, owner, reserved, ram, c, va, data[..n]);
      var r1 := Write(ram, m, c, va, data[..n]).value;
      WroteOneMore(m, k, live, owner, reserved, ram, r1, Write(ram, m, c, va, data).value, c, va, data);
    }
  }

  lemma NothingWrote(m: Mem, ram: seq<byte>, k: nat, live: set<nat>, c: nat, va: nat)
    requires |ram| == WORD
    ensures Wrote(m, ram, ram, k, live, c, va, [])
  {
  }

  // Storing b at the place of address va of c.
  lemma StoreEffect(m: Mem, k: nat, live: set<nat>, owner: map<nat, Role>, reserved: set<nat>, ram: seq<byte>, c: nat, va: nat, b: byte, a: nat, at: nat)
    requires |ram| == WORD && Laid(m, k, live, owner, reserved) && c in live && c != k && Open(m, k, va) && Phys(m, c, va).Some?
    requires a in live && a != k && Open(m, k, at)
    ensures var r := ram[Phys(m, c, va).value := b];
            && ReadByte(m, r, c, va) == Some(b)
            && (at != va || !(a == c || InHeap(at)) ==> ReadByte(m, r, a, at) == ReadByte(m, ram, a, at))
  {
    hide Laid, Phys, Open;
    if Phys(m, a, at) == Phys(m, c, va) { PlacesApart(m, k, live, owner, reserved, c, va, a, at); }
  }

  lemma WroteOneMore(m: Mem, k: nat, live: set<nat>, owner: map<nat, Role>, reserved: set<nat>, ram: seq<byte>, r1: seq<byte>, r: seq<byte>, c: nat, va: nat, data: seq<byte>)
    requires |ram| == |r1| == |r| == WORD && Laid(m, k, live, owner, reserved) && c in live && c != k && OpenRange(m, k, va, |data|)
    requires data != [] && Wrote(m, ram, r1, k, live, c, va, data[..|data| - 1])
    requires Phys(m, c, va + |data| - 1).Some? && r == r1[Phys(m, c, va + |data| - 1).value := data[|data| - 1]]
    ensures Wrote(m, ram, r, k, live, c, va, data)
  {
    hide Laid, Phys, Open, ReadByte;
    var n := |data| - 1;
    forall a, at: nat | a in live && a != k && Open(m, k, at)
      ensures at != va + n || !(a == c || InHeap(at)) ==> ReadByte(m, r, a, at) == ReadByte(m, r1, a, at)
      ensures ReadByte(m, r, c, va + n) == Some(data[n])
    {
      StoreEffect(m, k, live, owner, reserved, r1, c, va + n, data[n], a, at);
    }
    assert Open(m, k, va + n);
    StoreEffect(m, k, live, owner, reserved, r1, c, va + n, data[n], c, va + n);
  }

  // Where addresses are mapped one to one.
  lemma {:induction false} IdentityWrite(ram: seq<byte>, m: Mem, c: nat, va: nat, data: seq<byte>)
    requires |ram| == WORD && va + |data| <= WORD && forall at: nat :: va <= at < va + |data| ==> Phys(m, c, at) == Some(at)
    ensures Write(ram, m, c, va, data) == Some(ram[..va] + data + ram[va + |data|..])
  {
    hide Phys;
    if data != [] {
      var n := |data| - 1;
      IdentityWrite(ram, m, c, va, data[..n]);
      assert (ram[..va] + data[..n] + ram[va + n..])[va + n := data[n]] == ram[..va] + data + ram[va + |data|..];
    } else {
      assert ram == ram[..va] + [] + ram[va..];
    }
  }

  // ----- what a copy does

  lemma {:induction false} ReadBytesAre(m: Mem, ram: seq<byte>, c: nat, va: nat, n: nat)
    requires |ram| == WORD && va + n <= WORD
    ensures ReadBytes(m, ram, c, va, n).Some? <==> forall at: nat :: va <= at < va + n ==> ReadByte(m, ram, c, at).Some?
    ensures ReadBytes(m, ram, c, va, n).Some? ==>
              forall at: nat :: va <= at < va + n ==> ReadByte(m, ram, c, at) == Some(ReadBytes(m, ram, c, va, n).value[at - va])
  {
    hide ReadByte;
    if n > 0 { ReadBytesAre(m, ram, c, va, n - 1); }
  }

  // Copying what does not overlap is writing the bytes read before.
  lemma {:induction false} CopyIsWrite(m: Mem, k: nat, live: set<nat>, owner: map<nat, Role>, reserved: set<nat>, ram: seq<byte>, c: nat, dest: nat, src: nat, data: seq<byte>)
    requires |ram| == WORD && Laid(m, k, live, owner, reserved) && c in live && c != k
    requires OpenRange(m, k, dest, |data|) && OpenRange(m, k, src, |data|) && (dest + |data| <= src || src + |data| <= dest)
    requires forall at: nat :: src <= at < src + |data| ==> ReadByte(m, ram, c, at) == Some(data[at - src])
    ensures Copy(ram, m, c, dest, src, |data|) == Write(ram, m, c, dest, data)
  {
    hide Laid, Phys, Open, ReadByte;
    if data != [] {
      var n := |data| - 1;
      CopyIsWrite(m, k, live, owner, reserved, ram, c, dest, src, data[..n]);
      if Write(ram, m, c, dest, data[..n]).Some? {
        WriteEffect(m, k, live, owner, reserved, ram, c, dest, data[..n]);
        assert Open(m, k, src + n) && !Touches(c, dest, n, c, src + n);
      }
    }
  }

  // ----- what stays

  // A byte that could be read reads the same.
  ghost predicate KeepsByte(m: Mem, ram: seq<byte>, m': Mem, ram': seq<byte>, a: nat, va: nat)
    requires |ram| == |ram'| == WORD
  {
    ReadByte(m, ram, a, va).Some? ==> ReadByte(m', ram', a, va) == ReadByte(m, ram, a, va)
  }

  lemma SameWalkSameByte(m: Mem, m': Mem, ram: seq<byte>, a: nat, va: nat)
    requires |ram| == WORD && Walk(m', a, va / PAGE) == Walk(m, a, va / PAGE)
    ensures ReadByte(m', ram, a, va) == ReadByte(m, ram, a, va)
  {
  }
}
