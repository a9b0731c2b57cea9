/**
 destroy_context as it is written: vmm.c:46 takes the directory entry, flags included, as
 the address of the page table. With the flags 7 every table word is read 7 bytes too high,
 from the top byte of one word and the three lower bytes of the next. Module Paging models
 the intent, the masked pointer; this module says what the written pointer does.
 */
module AsWritten {
  import opened Machine
  import opened Frames
  import opened Paging
  import opened Ownership
  import opened Translation
  import opened Boot
  import opened Room
  import opened AddressSpaceRuns

  const BYTE: nat := 0x100
  const THREE_BYTES: nat := 0x100_0000

  // pagetable[j] read at 7 bytes past the table; `next` are the words of the frame after it.
  function Misread(words: seq<nat>, next: seq<nat>, j: nat): nat
    requires |words| == SLOTS && |next| == SLOTS && j < SLOTS
  {
    var all := words + next;
    all[j + 1] / THREE_BYTES + all[j + 2] % THREE_BYTES * BYTE
  }

  function TableFreesAsWritten(words: seq<nat>, next: seq<nat>, n: nat): seq<nat>
    requires |words| == SLOTS && |next| == SLOTS && n <= SLOTS
  {
    if n == 0 then [] else TableFreesAsWritten(words, next, n - 1) + EntryFrees(Misread(words, next, n - 1))
  }

  // What the last two reads, which reach behind the table, name.
  function TailFrees(words: seq<nat>, next: seq<nat>): seq<nat>
    requires |words| == SLOTS && |next| == SLOTS
  {
    EntryFrees(Misread(words, next, SLOTS - 2)) + EntryFrees(Misread(words, next, SLOTS - 1))
  }

  // The frame behind the last one of the pool is the first of the heap; `heap` are its words.
  function WordsAt(m: Mem, frame: nat, heap: seq<nat>): seq<nat> {
    if frame in m.pool then m.pool[frame] else heap
  }

  predicate Rows(m: Mem, heap: seq<nat>) {
    |heap| == SLOTS && forall f <- m.pool :: |m.pool[f]| == SLOTS
  }

  function SlotFreesAsWritten(m: Mem, c: nat, k: nat, i: nat, heap: seq<nat>): seq<nat>
    requires Rows(m, heap)
  {
    var e := PdEntry(m, c, i);
    if Differs(m, c, k, i)
    then TableFreesAsWritten(WordsAt(m, e / PAGE, heap), WordsAt(m, e / PAGE + 1, heap), SLOTS) + [(e - e % 0x100) / PAGE]
    else []
  }

  function DirFreesAsWritten(m: Mem, c: nat, k: nat, n: nat, heap: seq<nat>): seq<nat>
    requires Rows(m, heap)
  {
    if n == 0 then [] else DirFreesAsWritten(m, c, k, n - 1, heap) + SlotFreesAsWritten(m, c, k, n - 1, heap)
  }

  function ContextFreesAsWritten(m: Mem, c: nat, k: nat, heap: seq<nat>): seq<nat>
    requires Rows(m, heap)
  {
    DirFreesAsWritten(m, c, k, SLOTS, heap) + [DirOf(m, c)] + [c]
  }

  // ----- one page

  // A table that maps one page, to frame f.
  ghost predicate MapsOnly(words: seq<nat>, q: nat, f: nat) {
    |words| == SLOTS && q < SLOTS && words[q] == f * PAGE + USER && forall j :: 0 <= j < SLOTS && j != q ==> words[j] == 0
  }

  lemma MisreadOfOnePage(words: seq<nat>, next: seq<nat>, q: nat, f: nat, j: nat)
    requires MapsOnly(words, q, f) && f < FRAMES && |next| == SLOTS && j + 2 < SLOTS
    ensures var v := Misread(words, next, j);
            if j + 2 == q then v / PAGE == f % 0x1000 * 0x100
            else if j + 1 == q then v < BYTE
            else v == 0
  {
    var all := words + next;
    assert all[j + 1] == words[j + 1] && all[j + 2] == words[j + 2];
    var w := f * PAGE + USER;
    assert w == f / 0x1000 * THREE_BYTES + (f % 0x1000 * PAGE + USER);
    assert w % THREE_BYTES == f % 0x1000 * PAGE + USER && w / THREE_BYTES == f / 0x1000;
    assert (f % 0x1000 * PAGE + USER) * BYTE == f % 0x1000 * 0x100 * PAGE + USER * BYTE;
  }

  // Only frame 0 is its own misreading.
  lemma MisreadingIsAnother(f: nat)
    requires f == f % 0x1000 * 0x100
    ensures f == 0
  {
    var a, b := f / 0x1000, f % 0x1000;
    var d := b - 16 * a;
    assert b == 256 * d && 255 * d == 16 * a;
    var g := 16 * d - a;
    assert d == 16 * g && b == 4096 * g;
  }

  lemma {:induction false} OnePageIsNeverFreed(words: seq<nat>, next: seq<nat>, q: nat, f: nat, n: nat)
    requires MapsOnly(words, q, f) && HEAP_END <= f < FRAMES && |next| == SLOTS && f !in TailFrees(words, next) && n <= SLOTS
    ensures f !in TableFreesAsWritten(words, next, n)
  {
    if n > 0 {
      OnePageIsNeverFreed(words, next, q, f, n - 1);
      if n < SLOTS - 1 { MisreadOfOnePage(words, next, q, f, n - 1); }
      if f == f % 0x1000 * 0x100 { MisreadingIsAnother(f); }
    }
  }

  // The life-cycle law fails of the written code for every table that maps one page: the
  // page's frame stays marked used, unless the words behind the table happen to name it.
  lemma OnePageLeaks(m: Frames, words: seq<nat>, next: seq<nat>, q: nat, f: nat)
    requires MapsOnly(words, q, f) && HEAP_END <= f < FRAMES && |next| == SLOTS && f !in TailFrees(words, next)
    requires f in m.used
    ensures f in ReleaseAll(m, TableFreesAsWritten(words, next, SLOTS)).used
    ensures f !in ReleaseAll(m, EntryFrees(words[q])).used
  {
    OnePageIsNeverFreed(words, next, q, f, SLOTS);
    ReleaseAllRemoves(m, TableFreesAsWritten(words, next, SLOTS));
    ReleaseAllRemoves(m, EntryFrees(words[q]));
    assert words[q] / PAGE == f;
  }

  // That can happen: the first page of a slot is then released after all.
  lemma RightByChance(words: seq<nat>, next: seq<nat>, f: nat)
    requires MapsOnly(words, 0, f) && HEAP_END < f < FRAMES && f % 0x100 == 0
    requires |next| == SLOTS && next[0] == f / 0x100 * PAGE && next[1] == 0
    ensures TableFreesAsWritten(words, next, SLOTS) == [f] == EntryFrees(words[0])
  {
    NothingMisread(words, next, f, SLOTS - 2);
    var all := words + next;
    assert all[SLOTS - 1] == 0 && all[SLOTS] == next[0] && all[SLOTS + 1] == 0;
    assert next[0] < THREE_BYTES && next[0] * BYTE == f * PAGE;
    assert Misread(words, next, SLOTS - 2) == f * PAGE;
    assert next[0] / THREE_BYTES == 0;
    assert Misread(words, next, SLOTS - 1) == 0;
    assert TableFreesAsWritten(words, next, SLOTS - 1) == [] + [f];
  }

  lemma {:induction false} NothingMisread(words: seq<nat>, next: seq<nat>, f: nat, n: nat)
    requires MapsOnly(words, 0, f) && f < FRAMES && |next| == SLOTS && n <= SLOTS - 2
    ensures TableFreesAsWritten(words, next, n) == []
  {
    if n > 0 {
      NothingMisread(words, next, f, n - 1);
      MisreadOfOnePage(words, next, 0, f, n - 1);
    }
  }

  lemma {:induction false} ReleaseAllRemoves(m: Frames, frames: seq<nat>)
    ensures ReleaseAll(m, frames).used == m.used - Elements(frames)
  {
    if frames != [] {
      var init, last := frames[..|frames| - 1], frames[|frames| - 1];
      ReleaseAllRemoves(m, init);
      assert frames == init + [last];
      assert Elements(frames) == Elements(init) + {last};
    }
  }

  // ----- when the written code is right

  // What is misread behind the private tables of c names no frame of a user page of c.
  ghost predicate TailsElsewhere(m: Mem, c: nat, k: nat, heap: seq<nat>)
    requires Rows(m, heap)
  {
    forall i, p :: 0 <= i < SLOTS && Differs(m, c, k, i) && UserPage(m, k, p) && Walk(m, c, p) != 0 ==>
      var t := PdEntry(m, c, i) / PAGE; Walk(m, c, p) / PAGE !in TailFrees(WordsAt(m, t, heap), WordsAt(m, t + 1, heap))
  }

  // Words as vmm_alloc writes them.
  predicate TableWord(w: nat) {
    w != 0 ==> w % PAGE == USER && HEAP_END <= w / PAGE < FRAMES
  }

  function Shift(w: nat): nat {
    w / PAGE % 0x1000 * 0x100
  }

  // A misread word names the frame of one word, shifted.
  lemma MisreadIsShifted(words: seq<nat>, next: seq<nat>, j: nat)
    requires |words| == |next| == SLOTS && (forall y :: 0 <= y < SLOTS ==> TableWord(words[y])) && j + 2 < SLOTS
    ensures forall g <- EntryFrees(Misread(words, next, j)) :: words[j + 2] != 0 && g == Shift(words[j + 2])
  {
    var all := words + next;
    assert all[j + 1] == words[j + 1] && all[j + 2] == words[j + 2];
    MisreadParts(words[j + 1], words[j + 2]);
  }

  lemma MisreadParts(a: nat, b: nat)
    requires TableWord(a) && TableWord(b)
    ensures var v := a / THREE_BYTES + b % THREE_BYTES * BYTE;
            (b == 0 ==> v < BYTE) && (b != 0 ==> v / PAGE == Shift(b))
  {
    HighByte(a);
    if b != 0 {
      LowBytes(b);
      Recombined(a / THREE_BYTES, b / PAGE % 0x1000);
    }
  }

  lemma HighByte(a: nat)
    requires TableWord(a)
    ensures a / THREE_BYTES < BYTE
  {
  }

  lemma LowBytes(b: nat)
    requires TableWord(b) && b != 0
    ensures b % THREE_BYTES == b / PAGE % 0x1000 * PAGE + USER
  {
    var f := b / PAGE;
    assert b == f * PAGE + USER && f == f / 0x1000 * 0x1000 + f % 0x1000;
    assert b == f / 0x1000 * THREE_BYTES + (f % 0x1000 * PAGE + USER);
  }

  lemma Recombined(high: nat, low: nat)
    requires high < BYTE && low < 0x1000
    ensures (high + (low * PAGE + USER) * BYTE) / PAGE == low * 0x100
  {
    assert high + (low * PAGE + USER) * BYTE == low * 0x100 * PAGE + (high + USER * BYTE);
  }

  lemma {:induction false} TableReleasesShifted(words: seq<nat>, next: seq<nat>, n: nat, g: nat) returns (y: nat)
    requires |words| == |next| == SLOTS && (forall y :: 0 <= y < SLOTS ==> TableWord(words[y])) && n <= SLOTS
    requires g in TableFreesAsWritten(words, next, n) && g !in TailFrees(words, next)
    ensures y < SLOTS && words[y] != 0 && g == Shift(words[y])
  {
    if g in EntryFrees(Misread(words, next, n - 1)) {
      MisreadIsShifted(words, next, n - 1);
      y := n + 1;
    } else {
      y := TableReleasesShifted(words, next, n - 1, g);
    }
  }

  // The words of a private table.
  lemma PrivateWords(m: Mem, k: nat, live: set<nat>, owner: map<nat, Role>, reserved: set<nat>, c: nat, i: nat, heap: seq<nat>)
    requires Owned(m, k, live, owner, reserved) && c in live && c != k && i < SLOTS && Differs(m, c, k, i) && |heap| == SLOTS
    ensures var t := PdEntry(m, c, i) / PAGE; var words := WordsAt(m, t, heap);
            && Private(m, k, c, i) && t < HEAP_END && (PdEntry(m, c, i) - PdEntry(m, c, i) % 0x100) / PAGE == t
            && |words| == |WordsAt(m, t + 1, heap)| == SLOTS
            && forall y :: 0 <= y < SLOTS ==> words[y] == PtEntry(m, c, i, y) && TableWord(words[y])
  {
    hide PdEntry;
    assert ContextOk(m, k, owner, c) && TableOk(m, k, owner, c, i) && SharesKernel(m, k, c, i);
    FlagsDropped(PdEntry(m, c, i));
    forall y | 0 <= y < SLOTS ensures TableWord(PtEntry(m, c, i, y)) { assert PageOk(m, owner, c, i, y); }
  }

  // The frame of a user page of c is released only if it is the shift of another one.
  lemma {:induction false} DirReleasesShifted(m: Mem, k: nat, live: set<nat>, owner: map<nat, Role>, reserved: set<nat>, c: nat, n: nat, heap: seq<nat>, p: nat)
    returns (q: nat)
    requires Owned(m, k, live, owner, reserved) && c in live && c != k && Rows(m, heap) && TailsElsewhere(m, c, k, heap) && n <= SLOTS
    requires UserPage(m, k, p) && Walk(m, c, p) != 0 && Walk(m, c, p) / PAGE >= HEAP_END && Walk(m, c, p) / PAGE in DirFreesAsWritten(m, c, k, n, heap)
    ensures UserPage(m, k, q) && Walk(m, c, q) != 0 && Walk(m, c, p) / PAGE == Shift(Walk(m, c, q))
  {
    hide Owned, SlotFreesAsWritten, Walk, UserPage, Shift, TailsElsewhere;
    if Walk(m, c, p) / PAGE in SlotFreesAsWritten(m, c, k, n - 1, heap) {
      q := SlotReleasesShifted(m, k, live, owner, reserved, c, n - 1, heap, p);
    } else {
      q := DirReleasesShifted(m, k, live, owner, reserved, c, n - 1, heap, p);
    }
  }

  lemma SlotReleasesShifted(m: Mem, k: nat, live: set<nat>, owner: map<nat, Role>, reserved: set<nat>, c: nat, i: nat, heap: seq<nat>, p: nat)
    returns (q: nat)
    requires Owned(m, k, live, owner, reserved) && c in live && c != k && Rows(m, heap) && TailsElsewhere(m, c, k, heap) && i < SLOTS
    requires UserPage(m, k, p) && Walk(m, c, p) != 0 && Walk(m, c, p) / PAGE >= HEAP_END && Walk(m, c, p) / PAGE in SlotFreesAsWritten(m, c, k, i, heap)
    ensures UserPage(m, k, q) && Walk(m, c, q) != 0 && Walk(m, c, p) / PAGE == Shift(Walk(m, c, q))
  {
    hide Owned, PdEntry, PtEntry, Shift, WordsAt, TableFreesAsWritten, TailFrees;
    PrivateWords(m, k, live, owner, reserved, c, i, heap);
    var t, g := PdEntry(m, c, i) / PAGE, Walk(m, c, p) / PAGE;
    var y := TableReleasesShifted(WordsAt(m, t, heap), WordsAt(m, t + 1, heap), SLOTS, g);
    q := i * SLOTS + y;
    PageParts(i, y);
    WalkIsEntry(m, k, live, owner, reserved, c, i);
  }

  // No frame above page 0 is reached by shifting three times.
  lemma ThreeShifts(w1: nat, w2: nat, w3: nat)
    requires w1 / PAGE == Shift(w2) && w2 / PAGE == Shift(w3)
    ensures Shift(w1) == 0
  {
    var a := w3 / PAGE % 0x1000;
    assert w2 / PAGE == a * 0x100;
    assert a * 0x100 % 0x1000 == a % 0x10 * 0x100;
    assert w1 / PAGE == a % 0x10 * 0x1_0000;
    assert a % 0x10 * 0x1_0000 % 0x1000 == 0;
  }

  // A mapped page whose frame the written code releases is mapped to the shift of another.
  lemma ReleasedIsShifted(m: Mem, k: nat, live: set<nat>, owner: map<nat, Role>, reserved: set<nat>, c: nat, heap: seq<nat>, p: nat) returns (q: nat)
    requires Owned(m, k, live, owner, reserved) && c in live && c != k && Rows(m, heap) && TailsElsewhere(m, c, k, heap)
    requires Elements(ContextFreesAsWritten(m, c, k, heap)) == Elements(ContextFrees(m, c, k))
    requires UserPage(m, k, p) && Walk(m, c, p) != 0
    ensures UserPage(m, k, q) && Walk(m, c, q) != 0 && Walk(m, c, p) / PAGE == Shift(Walk(m, c, q))
    ensures HEAP_END <= Walk(m, c, p) / PAGE
  {
    hide Owned, Walk, UserPage, Shift, DirFreesAsWritten, TailsElsewhere, DirOf, DirFrees;
    var g := Walk(m, c, p) / PAGE;
    MappedIsReleased(m, k, live, owner, reserved, c, p);
    assert g in Elements(ContextFreesAsWritten(m, c, k, heap));
    assert g in DirFreesAsWritten(m, c, k, SLOTS, heap);
    q := DirReleasesShifted(m, k, live, owner, reserved, c, SLOTS, heap, p);
  }

  lemma MappedIsReleased(m: Mem, k: nat, live: set<nat>, owner: map<nat, Role>, reserved: set<nat>, c: nat, p: nat)
    requires Owned(m, k, live, owner, reserved) && c in live && c != k && UserPage(m, k, p) && Walk(m, c, p) != 0
    ensures var g := Walk(m, c, p) / PAGE;
            g in Elements(ContextFrees(m, c, k)) && HEAP_END <= g && c < HEAP_END && DirOf(m, c) < HEAP_END
  {
    hide ContextFrees, PdEntry, PtEntry, DirOf;
    ContextFreesExactlyItsFrames(m, k, live, owner, reserved, c);
    WalkIsEntry(m, k, live, owner, reserved, c, p / SLOTS);
    assert ContextOk(m, k, owner, c) && TableOk(m, k, owner, c, p / SLOTS);
    assert PageOk(m, owner, c, p / SLOTS, p % SLOTS);
  }

  // One user page of the context, wherever, and the written code releases the wrong frames.
  lemma WrongWithPages(m: Mem, k: nat, live: set<nat>, owner: map<nat, Role>, reserved: set<nat>, c: nat, heap: seq<nat>, p: nat)
    requires Owned(m, k, live, owner, reserved) && c in live && c != k && Rows(m, heap) && TailsElsewhere(m, c, k, heap)
    requires UserPage(m, k, p) && Walk(m, c, p) != 0
    ensures Elements(ContextFreesAsWritten(m, c, k, heap)) != Elements(ContextFrees(m, c, k))
  {
    hide Owned, Walk, UserPage, Shift, DirFreesAsWritten, DirFrees, TailsElsewhere, DirOf;
    if Elements(ContextFreesAsWritten(m, c, k, heap)) == Elements(ContextFrees(m, c, k)) {
      var p1 := ReleasedIsShifted(m, k, live, owner, reserved, c, heap, p);
      var p2 := ReleasedIsShifted(m, k, live, owner, reserved, c, heap, p1);
      var p3 := ReleasedIsShifted(m, k, live, owner, reserved, c, heap, p2);
      ThreeShifts(Walk(m, c, p1), Walk(m, c, p2), Walk(m, c, p3));
      assert false;
    }
  }

  // Without a table there is nothing to misread.
  lemma {:induction false} RightWithoutTables(m: Mem, k: nat, c: nat, n: nat, heap: seq<nat>)
    requires Rows(m, heap) && n <= SLOTS && forall i :: 0 <= i < n ==> !Differs(m, c, k, i)
    ensures DirFreesAsWritten(m, c, k, n, heap) == DirFrees(m, c, k, n)
  {
    hide Differs;
    if n > 0 { RightWithoutTables(m, k, c, n - 1, heap); }
  }

  // ----- tables without pages do not occur

  ghost predicate MapsInSlot(m: Mem, a: nat, i: nat) {
    exists p: nat :: p / SLOTS == i && Walk(m, a, p) != 0
  }

  // Every private table maps a page.
  ghost predicate TablesUsed(m: Mem, k: nat, live: set<nat>) {
    forall a, i :: a in live && a != k && 0 <= i < SLOTS && Private(m, k, a, i) ==> MapsInSlot(m, a, i)
  }

  lemma MapsInPrivateSlot(m: Mem, m': Mem, k: nat, a: nat, i: nat)
    requires MapsInSlot(m, a, i) && i < SLOTS && forall p: nat :: p < FRAMES && p / SLOTS == i && Walk(m, a, p) != 0 ==> Walk(m', a, p) != 0
    ensures MapsInSlot(m', a, i)
  {
    hide Walk;
    var p: nat :| p / SLOTS == i && Walk(m, a, p) != 0;
    assert p < FRAMES;
    assert Walk(m', a, p) != 0;
  }

  lemma CreateKeepsTablesUsed(m: Mem, k: nat, live: set<nat>, owner: map<nat, Role>, reserved: set<nat>)
    requires Laid(m, k, live, owner, reserved) && CreateUser(m, k).Some? && TablesUsed(m, k, live)
    ensures var (m', c) := CreateUser(m, k).value; TablesUsed(m', k, live + {c})
  {
    hide Owned, CreateUser, Walk, SamePrivateTables, MapsInSlot, KernelIdentity, NoUserSlots, PdEntry;
    CreateKeepsOwned(m, k, live, owner, reserved);
    CreateKeepsLaid(m, k, live, owner, reserved);
    var (m', c) := CreateUser(m, k).value;
    forall a, i | a in live + {c} && a != k && 0 <= i < SLOTS && Private(m', k, a, i) ensures MapsInSlot(m', a, i) {
      assert SameDirectory(m, m', k);
      if a != c {
        assert SameDirectory(m, m', a);
        MapsInPrivateSlot(m, m', k, a, i);
      }
    }
  }

  lemma AllocKeepsTablesUsed(m: Mem, k: nat, live: set<nat>, owner: map<nat, Role>, reserved: set<nat>, c: nat, vaddr: u32, sz: u32)
    requires Owned(m, k, live, owner, reserved) && c in live && c != k && VmmAlloc(m, c, vaddr, sz).Some? && TablesUsed(m, k, live)
    ensures TablesUsed(VmmAlloc(m, c, vaddr, sz).value, k, live)
  {
    hide Owned, Walk, MapsInSlot, AllocPages, PdEntry, NewSlots, FreeUser, FreePool, UserPage;
    if sz > 0 && vaddr + sz < WORD {
      var page, n, m' := vaddr / PAGE, PagesOf(sz), VmmAlloc(m, c, vaddr, sz).value;
      assert m' == AllocPages(m, c, page, n).value;
      AllocPagesCounts(m, k, live, owner, reserved, c, page, n);
      var fs, _ := AllocPagesStep(m, k, live, owner, reserved, c, page, n);
      forall a, i | a in live && a != k && 0 <= i < SLOTS && Private(m', k, a, i) ensures MapsInSlot(m', a, i) {
        StaysMapped(m, m', k, live, c, page, fs, a);
        if a == c && i in NewSlots(m, c, page, n) {
          NewSlotMaps(m, m', k, live, c, page, fs, i);
        } else {
          assert a != c ==> SameDirectory(m, m', a);
          assert Private(m, k, a, i);
          MapsInPrivateSlot(m, m', k, a, i);
        }
      }
    }
  }

  lemma StaysMapped(m: Mem, m': Mem, k: nat, live: set<nat>, c: nat, page: nat, fs: seq<nat>, a: nat)
    requires MappedRange(m, m', k, live, c, page, fs) && a in live
    ensures forall p: nat :: p < FRAMES && Walk(m, a, p) != 0 ==> Walk(m', a, p) != 0
  {
    hide Walk, UserPage;
    forall p: nat | p < FRAMES && Walk(m, a, p) != 0 ensures Walk(m', a, p) != 0 {
      if page <= p < page + |fs| { EntryParts(fs[p - page]); }
    }
  }

  lemma NewSlotMaps(m: Mem, m': Mem, k: nat, live: set<nat>, c: nat, page: nat, fs: seq<nat>, i: nat)
    requires MappedRange(m, m', k, live, c, page, fs) && c in live && i in NewSlots(m, c, page, |fs|)
    ensures MapsInSlot(m', c, i)
  {
    hide Walk, UserPage, PdEntry;
    var p := if page >= i * SLOTS then page else i * SLOTS;
    assert page <= p < page + |fs| && p / SLOTS == i;
    EntryParts(fs[p - page]);
    assert Walk(m', c, p) != 0;
  }

  lemma SamePoolTablesUsed(m: Mem, m': Mem, k: nat, live: set<nat>, live': set<nat>)
    requires TablesUsed(m, k, live) && m'.pool == m.pool && live' <= live
    ensures TablesUsed(m', k, live')
  {
    hide Walk, MapsInSlot;
    SamePool(m, m');
    forall a, i | a in live' && a != k && 0 <= i < SLOTS && Private(m', k, a, i) ensures MapsInSlot(m', a, i) {
      assert SameDirectory(m, m', a) && SameDirectory(m, m', k);
      MapsInPrivateSlot(m, m', k, a, i);
    }
  }

  lemma StepKeepsTablesUsed(s: Sys, op: Op, owner: map<nat, Role>, reserved: set<nat>)
    requires Inv(s, owner, reserved) && Step(s, op).Some? && TablesUsed(s.m, s.k, s.Live())
    ensures var s' := Step(s, op).value; TablesUsed(s'.m, s'.k, s'.Live())
  {
    hide Owned, TablesUsed, CreateUser, VmmAlloc, Paging.Destroy, KernelIdentity, NoUserSlots;
    var s' := Step(s, op).value;
    match op
    case Create =>
      CreateKeepsTablesUsed(s.m, s.k, s.Live(), owner, reserved);
      assert s'.Live() == s.Live() + {CreateUser(s.m, s.k).value.1};
    case Alloc(c, vaddr, sz) =>
      if c in s.breaks { AllocKeepsTablesUsed(s.m, s.k, s.Live(), owner, reserved, c, vaddr, sz); }
    case Sbrk(c, request) =>
      if c in s.breaks && request != 0 {
        AllocKeepsTablesUsed(s.m, s.k, s.Live(), owner, reserved, c, BreakAddress(s, c), request);
        assert s'.Live() == s.Live();
      }
    case Destroy(c) =>
      if c in s.breaks {
        SamePoolAfterDestroy(s.m, c, s.k);
        SamePoolTablesUsed(s.m, s'.m, s.k, s.Live(), s'.Live());
      }
  }

  lemma SamePoolAfterDestroy(m: Mem, c: nat, k: nat)
    ensures Paging.Destroy(m, c, k).Some? ==> Paging.Destroy(m, c, k).value.pool == m.pool
  {
  }

  lemma {:induction false} RunKeepsTablesUsed(s: Sys, ops: seq<Op>, owner: map<nat, Role>, reserved: set<nat>) returns (owner': map<nat, Role>)
    requires Inv(s, owner, reserved) && AllOnUserPages(s, ops) && Run(s, ops).Some? && TablesUsed(s.m, s.k, s.Live())
    ensures var s' := Run(s, ops).value; Inv(s', owner', reserved) && s'.k == s.k && TablesUsed(s'.m, s'.k, s'.Live())
  {
    hide Inv, AllOnUserPages, OnUserPages, Step, TablesUsed, OthersSame, Frames.Ledger, SameDirectory;
    owner' := owner;
    if ops != [] {
      FewerOnUserPages(s, ops);
      var init, op := ops[..|ops| - 1], ops[|ops| - 1];
      owner' := RunKeepsTablesUsed(s, init, owner, reserved);
      StepKeepsTablesUsed(Run(s, init).value, op, owner', reserved);
      owner' := StepKeepsInv(Run(s, init).value, op, owner', reserved);
    }
  }

  // ----- the exact condition

  // Where tables map pages, the written code releases what it should whenever the context has
  // no user page, and only then, unless what is misread behind a table names a page of it.
  lemma RightExactlyWithoutPages(m: Mem, k: nat, live: set<nat>, owner: map<nat, Role>, reserved: set<nat>, c: nat, heap: seq<nat>)
    requires Owned(m, k, live, owner, reserved) && c in live && c != k && TablesUsed(m, k, live) && |heap| == SLOTS
    ensures Rows(m, heap)
    ensures var right := Elements(ContextFreesAsWritten(m, c, k, heap)) == Elements(ContextFrees(m, c, k));
            var none := forall p :: UserPage(m, k, p) ==> Walk(m, c, p) == 0;
            && (none ==> right)
            && (TailsElsewhere(m, c, k, heap) ==> (right <==> none))
  {
    hide Owned, Walk, UserPage, TailsElsewhere, DirFreesAsWritten, DirFrees, DirOf, TablesUsed;
    PoolRows(m, k, live, owner, reserved);
    if forall p :: UserPage(m, k, p) ==> Walk(m, c, p) == 0 {
      forall i | 0 <= i < SLOTS ensures !Differs(m, c, k, i) { EmptyIsNotPrivate(m, k, live, owner, reserved, c, i); }
      RightWithoutTables(m, k, c, SLOTS, heap);
    } else if TailsElsewhere(m, c, k, heap) {
      var p :| UserPage(m, k, p) && Walk(m, c, p) != 0;
      WrongWithPages(m, k, live, owner, reserved, c, heap, p);
    }
  }

  lemma PoolRows(m: Mem, k: nat, live: set<nat>, owner: map<nat, Role>, reserved: set<nat>)
    requires Owned(m, k, live, owner, reserved)
    ensures forall f <- m.pool :: |m.pool[f]| == SLOTS
  {
    hide ContextOk, Plays;
  }

  lemma EmptyIsNotPrivate(m: Mem, k: nat, live: set<nat>, owner: map<nat, Role>, reserved: set<nat>, c: nat, i: nat)
    requires Owned(m, k, live, owner, reserved) && c in live && c != k && i < SLOTS && TablesUsed(m, k, live)
    requires forall p :: UserPage(m, k, p) ==> Walk(m, c, p) == 0
    ensures !Differs(m, c, k, i)
  {
    hide Owned, Walk, UserPage, Differs, TablesUsed;
    if Differs(m, c, k, i) { var p := PageOfTable(m, k, live, owner, reserved, c, i); }
  }

  lemma PageOfTable(m: Mem, k: nat, live: set<nat>, owner: map<nat, Role>, reserved: set<nat>, c: nat, i: nat) returns (p: nat)
    requires Owned(m, k, live, owner, reserved) && c in live && c != k && i < SLOTS && TablesUsed(m, k, live) && Differs(m, c, k, i)
    ensures UserPage(m, k, p) && Walk(m, c, p) != 0
  {
    hide Owned, Walk, PdEntry;
    SlotOwners(m, k, live, owner, reserved, c, i);
    assert MapsInSlot(m, c, i);
    p :| p / SLOTS == i && Walk(m, c, p) != 0;
  }

  // On every run from boot whose requests are on user pages.
  lemma RightOnEveryRun(m: Mem, ops: seq<Op>, c: nat, heap: seq<nat>)
    requires WellFormed(m) && InitVmm(m).Some? && |heap| == SLOTS
    requires var (m0, k) := InitVmm(m).value;
             AllOnUserPages(Sys(m0, k, map[]), ops) && Run(Sys(m0, k, map[]), ops).Some? && c in Run(Sys(m0, k, map[]), ops).value.breaks
    ensures var (m0, k) := InitVmm(m).value; var s := Run(Sys(m0, k, map[]), ops).value;
            && Rows(s.m, heap)
            && var right := Elements(ContextFreesAsWritten(s.m, c, k, heap)) == Elements(ContextFrees(s.m, c, k));
            var none := forall p :: UserPage(s.m, k, p) ==> Walk(s.m, c, p) == 0;
            && (none ==> right)
            && (TailsElsewhere(s.m, c, k, heap) ==> (right <==> none))
  {
    hide InitVmm, WellFormed, Run, AllOnUserPages, TablesUsed, Owned, NoUserSlots, KernelIdentity, TailsElsewhere, ContextFrees, ContextFreesAsWritten,
      Rows, Walk, UserPage;
    var owner := BootInv(m);
    var (m0, k) := InitVmm(m).value;
    var s0 := Sys(m0, k, map[]);
    NoTablesYet(m0, k);
    owner := RunKeepsTablesUsed(s0, ops, owner, m.frames.used);
    var s := Run(s0, ops).value;
    RightExactlyWithoutPages(s.m, k, s.Live(), owner, m.frames.used, c, heap);
  }

  lemma NoTablesYet(m: Mem, k: nat)
    ensures TablesUsed(m, k, Sys(m, k, map[]).Live())
  {
  }
}
