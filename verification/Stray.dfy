/**
 Stores that are not to the caller's own memory. The kernel's pages are mapped writable for
 user code (hal.x86/vmm.c:162), and the addresses of message buffers are not checked
 (hal.x86/message.c:127-128, hal.x86/message.c:199). Here is what such a store reaches, and
 exactly when.
 */
module Stray {
  import opened Machine
  import opened Frames
  import opened Paging
  import opened Ownership
  import opened Translation
  import opened Boot
  import opened Access
  import Spaces = AddressSpaceRuns
  import opened Kernel
  import opened KernelRuns
  import Messages

  // ----- what an address reaches

  // A byte of a page table, directory or context, or a byte that another context has.
  ghost predicate NotItsOwn(s: Spaces.Sys, c: nat, pa: nat) {
    InPool(pa / PAGE) || exists a, at: nat :: a != c && OtherByte(s, a, at, pa)
  }

  predicate OtherByte(s: Spaces.Sys, a: nat, at: nat, pa: nat) {
    a in s.breaks && UserPage(s.m, s.k, at / PAGE) && Phys(s.m, a, at) == Some(pa)
  }

  // Another context has the frame behind the heap, which everybody maps.
  ghost predicate OthersHaveLast(s: Spaces.Sys, c: nat) {
    exists a: nat, p: nat :: a != c && Spaces.MapsUserPage(s, a, p) && Walk(s.m, a, p) / PAGE == HEAP_END
  }

  // An address in the page pool, or in the page behind the heap while that is another's.
  ghost predicate Astray(s: Spaces.Sys, c: nat, va: nat) {
    InPool(va / PAGE) || (va / PAGE == HEAP_END && OthersHaveLast(s, c))
  }

  // These are the addresses at which c reaches what is not its own, and no others.
  lemma AstrayExactly(s: Spaces.Sys, owner: map<nat, Role>, reserved: set<nat>, c: nat, va: u32)
    requires Spaces.Inv(s, owner, reserved) && c in s.breaks && Phys(s.m, c, va).Some?
    ensures NotItsOwn(s, c, Phys(s.m, c, va).value) <==> Astray(s, c, va)
    ensures Astray(s, c, va) ==> Phys(s.m, c, va) == Some(va)
  {
    hide Owned, KernelIdentity, NoUserSlots, UserPage, Walk, Phys;
    var pa := Phys(s.m, c, va).value;
    PhysParts(s.m, c, va);
    if UserPage(s.m, s.k, va / PAGE) {
      UserFrame(s.m, s.k, s.Live(), owner, reserved, c, va / PAGE);
      NotKernelPage(s.m, s.k, s.Live(), va / PAGE);
      if a, at: nat :| a != c && OtherByte(s, a, at, pa) {
        PhysParts(s.m, a, at);
        UserFrame(s.m, s.k, s.Live(), owner, reserved, a, at / PAGE);
      }
    } else {
      KernelPlace(s.m, s.k, s.Live(), c, va);
      if a, at: nat :| a != c && OtherByte(s, a, at, pa) {
        PhysParts(s.m, a, at);
        UserFrame(s.m, s.k, s.Live(), owner, reserved, a, at / PAGE);
        assert Spaces.MapsUserPage(s, a, at / PAGE) && Walk(s.m, a, at / PAGE) / PAGE == HEAP_END;
      }
      if va / PAGE == HEAP_END && OthersHaveLast(s, c) {
        var a: nat, p: nat :| a != c && Spaces.MapsUserPage(s, a, p) && Walk(s.m, a, p) / PAGE == HEAP_END;
        UserByte(s, owner, reserved, a, p, va % PAGE);
        assert OtherByte(s, a, p * PAGE + va % PAGE, pa);
      }
    }
  }

  lemma NotKernelPage(m: Mem, k: nat, live: set<nat>, p: nat)
    requires KernelIdentity(m, k, live) && UserPage(m, k, p)
    ensures !InPool(p) && p != HEAP_END
  {
    hide UserPage, Walk;
  }

  // The kernel's pages are mapped one to one.
  lemma KernelPlace(m: Mem, k: nat, live: set<nat>, c: nat, va: u32)
    requires KernelIdentity(m, k, live) && c in live && !UserPage(m, k, va / PAGE) && Phys(m, c, va).Some?
    ensures Phys(m, c, va) == Some(va) && KERNEL_START <= va / PAGE <= HEAP_END
  {
    hide UserPage, Walk;
    assert Walk(m, c, va / PAGE) == KernelWord(va / PAGE);
    EntryParts(va / PAGE);
  }

  // Byte i of a user page.
  lemma UserByte(s: Spaces.Sys, owner: map<nat, Role>, reserved: set<nat>, a: nat, p: nat, i: nat)
    requires Spaces.Inv(s, owner, reserved) && Spaces.MapsUserPage(s, a, p) && i < PAGE
    ensures Phys(s.m, a, p * PAGE + i) == Some(Walk(s.m, a, p) / PAGE * PAGE + i)
    ensures (p * PAGE + i) / PAGE == p && p * PAGE + i < WORD
  {
    hide PdEntry, PtEntry, WellFormed, KernelIdentity, NoUserSlots;
    UserPageInRange(s.m, s.k, p);
    WalkIsEntry(s.m, s.k, s.Live(), owner, reserved, a, p / SLOTS);
    assert ContextOk(s.m, s.k, owner, a) && TableOk(s.m, s.k, owner, a, p / SLOTS) && PageOk(s.m, owner, a, p / SLOTS, p % SLOTS);
    FrameAddress(s.m, a, p, Walk(s.m, a, p) / PAGE, i);
  }

  // ----- what a write changes

  // The words of the tables, as memory holds them.
  function TablesIn(ram: seq<byte>): (pool: map<nat, seq<nat>>)
    requires |ram| == WORD
    ensures forall f :: f in pool <==> InPool(f)
    ensures forall f <- pool :: |pool[f]| == SLOTS
  {
    map f: nat | POOL_START <= f < POOL_END :: Table(ram, f)
  }

  function Table(ram: seq<byte>, f: nat): (words: seq<nat>)
    requires |ram| == WORD && InPool(f)
    ensures |words| == SLOTS
  {
    seq<nat>(SLOTS, j requires 0 <= j < SLOTS => Word32(ram, f * PAGE + 4 * j))
  }

  // All tables, and all that the other contexts read in their user pages, are as before.
  ghost predicate Untouched(s: Spaces.Sys, c: nat, ram: seq<byte>, r: seq<byte>)
    requires |ram| == |r| == WORD
  {
    && TablesIn(r) == TablesIn(ram)
    && forall a, at: nat :: a in s.breaks && a != c && UserPage(s.m, s.k, at / PAGE) ==> ReadByte(s.m, r, a, at) == ReadByte(s.m, ram, a, at)
  }

  lemma SameTables(ram: seq<byte>, r: seq<byte>)
    requires |ram| == |r| == WORD
    ensures TablesIn(r) == TablesIn(ram) <==> forall pa: nat :: pa < WORD && InPool(pa / PAGE) ==> r[pa] == ram[pa]
  {
    if TablesIn(r) == TablesIn(ram) {
      forall pa: nat | pa < WORD && InPool(pa / PAGE) ensures r[pa] == ram[pa] { SameTableByte(ram, r, pa); }
    }
    if forall pa: nat :: pa < WORD && InPool(pa / PAGE) ==> r[pa] == ram[pa] {
      forall f: nat | InPool(f) ensures Table(r, f) == Table(ram, f) { SameTable(ram, r, f); }
    }
  }

  lemma SameTableByte(ram: seq<byte>, r: seq<byte>, pa: nat)
    requires |ram| == |r| == WORD && pa < WORD && InPool(pa / PAGE) && TablesIn(r) == TablesIn(ram)
    ensures r[pa] == ram[pa]
  {
    var f, j, i := pa / PAGE, pa % PAGE / 4, pa / 4 * 4;
    assert i == f * PAGE + 4 * j && i <= pa < i + 4;
    assert TablesIn(r)[f] == Table(r, f) && TablesIn(ram)[f] == Table(ram, f);
    assert Table(r, f)[j] == Word32(r, i) && Table(ram, f)[j] == Word32(ram, i);
    BytesRoundTrip(r, i);
    BytesRoundTrip(ram, i);
    assert r[i..i + 4] == ram[i..i + 4];
    assert r[pa] == r[i..i + 4][pa - i] && ram[pa] == ram[i..i + 4][pa - i];
  }

  lemma SameTable(ram: seq<byte>, r: seq<byte>, f: nat)
    requires |ram| == |r| == WORD && InPool(f) && forall pa: nat :: pa < WORD && pa / PAGE == f ==> r[pa] == ram[pa]
    ensures Table(r, f) == Table(ram, f)
  {
    forall j | 0 <= j < SLOTS ensures Table(r, f)[j] == Table(ram, f)[j] {
      var i := f * PAGE + 4 * j;
      assert i / PAGE == f && (i + 1) / PAGE == f && (i + 2) / PAGE == f && (i + 3) / PAGE == f;
      assert r[i] == ram[i] && r[i + 1] == ram[i + 1] && r[i + 2] == ram[i + 2] && r[i + 3] == ram[i + 3];
    }
  }

  // Byte i of the data goes to address va + i, modulo 2^32.
  function Place(m: Mem, c: nat, va: nat, i: nat): Option<nat> {
    Phys(m, c, Wrap(va + i))
  }

  predicate Hits(m: Mem, c: nat, va: nat, i: nat, pa: nat) {
    Place(m, c, va, i) == Some(pa)
  }

  // Write changes the bytes its addresses lead to. Where one address alone leads to a byte it
  // holds the data.
  lemma {:induction false} WriteChanges(ram: seq<byte>, m: Mem, c: nat, va: nat, data: seq<byte>)
    requires |ram| == WORD && Write(ram, m, c, va, data).Some?
    ensures var r := Write(ram, m, c, va, data).value;
            && (forall i :: 0 <= i < |data| ==> Place(m, c, va, i).Some?)
            && (forall pa: nat :: pa < WORD && r[pa] != ram[pa] ==> exists i :: 0 <= i < |data| && Hits(m, c, va, i, pa))
            && (forall i, pa: nat :: 0 <= i < |data| && Hits(m, c, va, i, pa) && (forall j :: 0 <= j < |data| && Hits(m, c, va, j, pa) ==> j == i) ==>
                  r[pa] == data[i])
  {
    hide Phys, Wrap;
    if data != [] {
      var n := |data| - 1;
      WriteChanges(ram, m, c, va, data[..n]);
      assert Place(m, c, va, n).Some?;
      var r1, r := Write(ram, m, c, va, data[..n]).value, Write(ram, m, c, va, data).value;
      var last := Phys(m, c, Wrap(va + n)).value;
      assert Hits(m, c, va, n, last);
      forall pa: nat | pa < WORD && r[pa] != ram[pa] ensures exists i :: 0 <= i < |data| && Hits(m, c, va, i, pa) {
        if pa != last {
          var i :| 0 <= i < n && Hits(m, c, va, i, pa);
          assert 0 <= i < |data|;
        }
      }
    }
  }

  lemma WrapIsOneToOne(va: u32, i: nat, j: nat)
    requires i < WORD && j < WORD && Wrap(va + i) == Wrap(va + j)
    ensures i == j
  {
  }

  // A write leaves the tables and the others alone exactly if it writes nothing new to an
  // address that is astray.
  lemma WriteTouchesExactly(s: Spaces.Sys, owner: map<nat, Role>, reserved: set<nat>, c: nat, ram: seq<byte>, va: u32, data: seq<byte>)
    requires Spaces.Inv(s, owner, reserved) && c in s.breaks && |ram| == WORD && |data| < WORD && Write(ram, s.m, c, va, data).Some?
    ensures Untouched(s, c, ram, Write(ram, s.m, c, va, data).value)
            <==> forall i :: 0 <= i < |data| && Astray(s, c, Wrap(va + i)) ==> ram[Wrap(va + i)] == data[i]
  {
    hide Spaces.Inv, Astray, NotItsOwn, UserPage, Phys, Write, TablesIn;
    var r := Write(ram, s.m, c, va, data).value;
    WriteChanges(ram, s.m, c, va, data);
    SameTables(ram, r);
    forall i | 0 <= i < |data| && Astray(s, c, Wrap(va + i))
      ensures r[Wrap(va + i)] == data[i] && NotItsOwn(s, c, Wrap(va + i))
    {
      AstrayIsThere(s, owner, reserved, c, va, data, ram, r, i);
    }
    OwnChangesUntouched(s, owner, reserved, c, ram, va, data, r);
    if Untouched(s, c, ram, r) {
      forall i | 0 <= i < |data| && Astray(s, c, Wrap(va + i)) ensures ram[Wrap(va + i)] == data[i] {
        assert r[Wrap(va + i)] == data[i];
        SameWhereNotOwn(s, c, ram, r, Wrap(va + i));
      }
    }
  }

  lemma SameWhereNotOwn(s: Spaces.Sys, c: nat, ram: seq<byte>, r: seq<byte>, pa: u32)
    requires |ram| == |r| == WORD && Untouched(s, c, ram, r) && NotItsOwn(s, c, pa)
    ensures r[pa] == ram[pa]
  {
    hide UserPage, Phys, TablesIn;
    SameTables(ram, r);
    if !InPool(pa / PAGE) {
      var a, at: nat :| a != c && OtherByte(s, a, at, pa);
      assert ReadByte(s.m, r, a, at) == ReadByte(s.m, ram, a, at);
    }
  }

  lemma AstrayIsThere(s: Spaces.Sys, owner: map<nat, Role>, reserved: set<nat>, c: nat, va: u32, data: seq<byte>, ram: seq<byte>, r: seq<byte>, i: nat)
    requires Spaces.Inv(s, owner, reserved) && c in s.breaks && |ram| == |r| == WORD && i < |data| < WORD && Astray(s, c, Wrap(va + i))
    requires forall j :: 0 <= j < |data| ==> Place(s.m, c, va, j).Some?
    requires forall pa: nat :: Hits(s.m, c, va, i, pa) && (forall j :: 0 <= j < |data| && Hits(s.m, c, va, j, pa) ==> j == i) ==> r[pa] == data[i]
    ensures r[Wrap(va + i)] == data[i] && NotItsOwn(s, c, Wrap(va + i))
  {
    hide Spaces.Inv, Astray, NotItsOwn, Phys;
    var pa := Wrap(va + i);
    assert Place(s.m, c, va, i).Some?;
    AstrayExactly(s, owner, reserved, c, pa);
    assert Hits(s.m, c, va, i, pa);
    forall j | 0 <= j < |data| && Hits(s.m, c, va, j, pa) ensures j == i {
      AstrayExactly(s, owner, reserved, c, Wrap(va + j));
      WrapIsOneToOne(va, i, j);
    }
  }

  // A byte that is not c's own changes only where an address is astray.
  lemma OwnChangesUntouched(s: Spaces.Sys, owner: map<nat, Role>, reserved: set<nat>, c: nat, ram: seq<byte>, va: u32, data: seq<byte>, r: seq<byte>)
    requires Spaces.Inv(s, owner, reserved) && c in s.breaks && |ram| == |r| == WORD
    requires forall i :: 0 <= i < |data| ==> Place(s.m, c, va, i).Some?
    requires forall pa: nat :: pa < WORD && r[pa] != ram[pa] ==> exists i :: 0 <= i < |data| && Hits(s.m, c, va, i, pa)
    requires forall i :: 0 <= i < |data| && Astray(s, c, Wrap(va + i)) ==> r[Wrap(va + i)] == data[i]
    ensures (forall i :: 0 <= i < |data| && Astray(s, c, Wrap(va + i)) ==> ram[Wrap(va + i)] == data[i]) ==> Untouched(s, c, ram, r)
  {
    hide Spaces.Inv, Astray, NotItsOwn, UserPage, Phys, TablesIn, Wrap;
    if forall i :: 0 <= i < |data| && Astray(s, c, Wrap(va + i)) ==> ram[Wrap(va + i)] == data[i] {
      forall pa: nat | pa < WORD && NotItsOwn(s, c, pa) ensures r[pa] == ram[pa] {
        if i :| 0 <= i < |data| && Hits(s.m, c, va, i, pa) {
          AstrayExactly(s, owner, reserved, c, Wrap(va + i));
          assert pa == Wrap(va + i) && r[pa] == data[i];
        }
      }
      NothingNotOwnChanged(s, c, ram, r);
    }
  }

  lemma NothingNotOwnChanged(s: Spaces.Sys, c: nat, ram: seq<byte>, r: seq<byte>)
    requires |ram| == |r| == WORD && forall pa: nat :: pa < WORD && NotItsOwn(s, c, pa) ==> r[pa] == ram[pa]
    ensures Untouched(s, c, ram, r)
  {
    hide UserPage, Phys, TablesIn;
    SameTables(ram, r);
    forall a, at: nat | a in s.breaks && a != c && UserPage(s.m, s.k, at / PAGE) ensures ReadByte(s.m, r, a, at) == ReadByte(s.m, ram, a, at) {
      if Phys(s.m, a, at).Some? { assert OtherByte(s, a, at, Phys(s.m, a, at).value); }
    }
  }

  // ----- stores, sends and receives

  // A store in user mode, when the current process runs in c.
  lemma StoreTouchesExactly(s: State, va: u32, b: byte, owner: map<nat, Role>, reserved: set<nat>)
    requires Inv(s, owner, reserved) && s.sched.current.Some? && Phys(s.loaded.m, Current(s).context, va).Some?
    ensures var s', c := Step(s, Do(Store(va, b))).value, Current(s).context;
            Step(s, Do(Store(va, b))).Some?
            && (Untouched(SysOf(s), c, s.loaded.ram, s'.loaded.ram) <==> Astray(SysOf(s), c, va) ==> s.loaded.ram[va] == b)
  {
    hide Spaces.Inv, OwnContexts, ByPid, NodesOk, HeapOk, Astray, Untouched, Phys, Write;
    CurrentIsLive(s, owner, reserved);
    var c, ram, m := Current(s).context, s.loaded.ram, s.loaded.m;
    WriteOne(ram, m, c, va, b);
    var data := [b];
    WriteTouchesExactly(SysOf(s), owner, reserved, c, ram, va, data);
    assert data[0] == b && Wrap(va + 0) == va;
  }

  lemma WriteOne(ram: seq<byte>, m: Mem, c: nat, va: u32, b: byte)
    requires |ram| == WORD && Phys(m, c, va).Some?
    ensures Write(ram, m, c, va, [b]) == Some(ram[Phys(m, c, va).value := b])
  {
    hide Phys;
    assert [b][..0] == [] && Wrap(va + 0) == va;
  }

  // send_message writes the pids of both processes; receive_message the whole message.
  lemma SendTouchesExactly(s: State, buffer: u32, owner: map<nat, Role>, reserved: set<nat>)
    requires Inv(s, owner, reserved) && s.sched.current.Some? && Sent(s, buffer).Some? && Outgoing(s, buffer).value.Some?
    ensures var s', c, head := Sent(s, buffer).value, Current(s).context, Bytes32(Current(s).pid) + Bytes32(Outgoing(s, buffer).value.value.0);
            Untouched(SysOf(s), c, s.loaded.ram, s'.loaded.ram)
            <==> forall i :: 0 <= i < 8 && Astray(SysOf(s), c, Wrap(buffer + i)) ==> s.loaded.ram[Wrap(buffer + i)] == head[i]
  {
    hide Spaces.Inv, OwnContexts, ByPid, NodesOk, HeapOk, Astray, Untouched, Write, Sent, Outgoing, ReadBytes, Bytes32;
    CurrentIsLive(s, owner, reserved);
    SendParts(s, buffer);
    var head := Bytes32(Current(s).pid) + Bytes32(Outgoing(s, buffer).value.value.0);
    WriteTouchesExactly(SysOf(s), owner, reserved, Current(s).context, s.loaded.ram, buffer, head);
  }

  lemma ReceiveTouchesExactly(s: State, buffer: u32, who: u32, owner: map<nat, Role>, reserved: set<nat>)
    requires Inv(s, owner, reserved) && s.sched.current.Some? && Received(s, buffer, who).Some? && Incoming(s, buffer, who).Some?
    ensures var s', c := Received(s, buffer, who).value, Current(s).context;
            var bytes := Messages.Encode(s.mail[Current(s).pid].queue[Incoming(s, buffer, who).value]);
            Untouched(SysOf(s), c, s.loaded.ram, s'.loaded.ram)
            <==> forall i :: 0 <= i < Messages.LENGTH && Astray(SysOf(s), c, Wrap(buffer + i)) ==> s.loaded.ram[Wrap(buffer + i)] == bytes[i]
  {
    hide Spaces.Inv, OwnContexts, ByPid, NodesOk, HeapOk, Astray, Untouched, Write, Received, Incoming, Messages.Encode;
    CurrentIsLive(s, owner, reserved);
    ReceiveParts(s, buffer, who);
    var bytes := Messages.Encode(s.mail[Current(s).pid].queue[Incoming(s, buffer, who).value]);
    WriteTouchesExactly(SysOf(s), owner, reserved, Current(s).context, s.loaded.ram, buffer, bytes);
  }

  // What runs are asked to keep to is never astray.
  lemma OwnIsNotAstray(s: State, at: nat, owner: map<nat, Role>, reserved: set<nat>)
    requires Inv(s, owner, reserved) && s.sched.current.Some? && Own(s, at)
    ensures !Astray(SysOf(s), Current(s).context, at)
  {
    hide Owned, NoUserSlots, UserPage, Walk, OwnContexts, ByPid, NodesOk, HeapOk, OthersHaveLast;
    if UserPage(s.loaded.m, s.k, at / PAGE) { NotKernelPage(s.loaded.m, s.k, SysOf(s).Live(), at / PAGE); }
  }

  // ----- what goes wrong

  // One store of a word to its page table gives a process any page of any other: it reads it
  // from then on. `ram` holds the tables too here.
  lemma TableStoreStealsPage(s: Spaces.Sys, owner: map<nat, Role>, reserved: set<nat>, ram: seq<byte>, c: nat, page: nat, b: nat, q: nat, w: u32)
    returns (r: seq<byte>)
    requires Spaces.Inv(s, owner, reserved) && |ram| == WORD && s.m.pool == TablesIn(ram)
    requires Spaces.MapsUserPage(s, c, page) && Spaces.MapsUserPage(s, b, q) && Walk(s.m, b, q) == w
    ensures Write(ram, s.m, c, EntryAddress(s.m, c, page), Bytes32(w)) == Some(r)
    ensures |r| == WORD && StealsPage(WithTables(s.m, r), r, c, page, s.m, ram, b, q)
  {
    hide Spaces.Inv, TablesIn, Write, UserPage, Bytes32, PdEntry, Walk, ReadByte;
    var t, j := PdEntry(s.m, c, page / SLOTS) / PAGE, page % SLOTS;
    var va := t * PAGE + j * 4;
    WordIsMapped(s, owner, reserved, c, page);
    IdentityWrite(ram, s.m, c, va, Bytes32(w));
    r := ram[..va] + Bytes32(w) + ram[va + 4..];
    WordStored(ram, r, t, j, w);
    var m' := WithTables(s.m, r);
    WalkStored(s, owner, reserved, m', c, page, w);
    forall i | 0 <= i < PAGE ensures Steals(m', r, c, page, s.m, ram, b, q, i) {
      StolenByte(s, owner, reserved, m', ram, r, c, page, b, q, i);
    }
  }

  // Where the word for a page lies.
  function EntryAddress(m: Mem, c: nat, page: nat): nat {
    PdEntry(m, c, page / SLOTS) / PAGE * PAGE + page % SLOTS * 4
  }

  // The tables as memory holds them now.
  function WithTables(m: Mem, ram: seq<byte>): Mem
    requires |ram| == WORD
  {
    m.(pool := TablesIn(ram))
  }

  ghost predicate StealsPage(m': Mem, r: seq<byte>, c: nat, page: nat, m: Mem, ram: seq<byte>, b: nat, q: nat)
    requires |ram| == |r| == WORD
  {
    forall i :: 0 <= i < PAGE ==> Steals(m', r, c, page, m, ram, b, q, i)
  }

  // In m' and r, byte i of page `page` of c reads as byte i of page q of b does in m and ram.
  predicate Steals(m': Mem, r: seq<byte>, c: nat, page: nat, m: Mem, ram: seq<byte>, b: nat, q: nat, i: nat)
    requires |ram| == |r| == WORD
  {
    var x := ReadByte(m, ram, b, q * PAGE + i);
    x.Some? && ReadByte(m', r, c, page * PAGE + i) == x
  }

  // A word of a private table is at hand, one to one.
  lemma WordIsMapped(s: Spaces.Sys, owner: map<nat, Role>, reserved: set<nat>, c: nat, page: nat)
    requires Spaces.Inv(s, owner, reserved) && Spaces.MapsUserPage(s, c, page)
    ensures var t := PdEntry(s.m, c, page / SLOTS) / PAGE; var va := t * PAGE + page % SLOTS * 4;
            InPool(t) && va + 4 <= WORD && forall at: nat :: va <= at < va + 4 ==> Phys(s.m, c, at) == Some(at)
  {
    hide PtEntry, DirOf, WellFormed, Walk, KernelIdentity, NoUserSlots, Phys;
    UserPageInRange(s.m, s.k, page);
    var i := page / SLOTS;
    TableInPool(s, owner, reserved, c, page);
    var t := PdEntry(s.m, c, i) / PAGE;
    var va := t * PAGE + page % SLOTS * 4;
    forall at: nat | va <= at < va + 4 ensures Phys(s.m, c, at) == Some(at) { KernelAddress(s.m, s.k, s.Live(), c, at); }
  }

  lemma TableInPool(s: Spaces.Sys, owner: map<nat, Role>, reserved: set<nat>, c: nat, page: nat)
    requires Spaces.Inv(s, owner, reserved) && Spaces.MapsUserPage(s, c, page)
    ensures InPool(PdEntry(s.m, c, page / SLOTS) / PAGE) && Private(s.m, s.k, c, page / SLOTS)
  {
    hide PtEntry, DirOf, WellFormed;
    UserPageInRange(s.m, s.k, page);
    WalkIsEntry(s.m, s.k, s.Live(), owner, reserved, c, page / SLOTS);
    assert ContextOk(s.m, s.k, owner, c) && TableOk(s.m, s.k, owner, c, page / SLOTS);
  }

  lemma WordStored(ram: seq<byte>, r: seq<byte>, t: nat, j: nat, w: u32)
    requires |ram| == |r| == WORD && InPool(t) && j < SLOTS && var va := t * PAGE + j * 4; r == ram[..va] + Bytes32(w) + ram[va + 4..]
    ensures TablesIn(r) == TablesIn(ram)[t := SetWord(TablesIn(ram)[t], j, w)]
    ensures forall pa: nat :: pa < WORD && !InPool(pa / PAGE) ==> r[pa] == ram[pa]
  {
    hide Bytes32, Word32;
    var va := t * PAGE + j * 4;
    forall f: nat, x: nat | InPool(f) && x < SLOTS ensures Table(r, f)[x] == if f == t && x == j then w else Table(ram, f)[x] {
      var at := f * PAGE + 4 * x;
      if f == t && x == j {
        assert r[va..va + 4] == Bytes32(w);
        Messages.SameWord(r, va, Bytes32(w));
        WordRoundTrip(w);
      } else {
        WordsApart(f, x, t, j);
        assert r[at..at + 4] == ram[at..at + 4];
        Messages.SameWord(r, at, ram[at..at + 4]);
        Messages.SameWord(ram, at, ram[at..at + 4]);
      }
    }
    forall f: nat | InPool(f) ensures Table(r, f) == if f == t then SetWord(Table(ram, t), j, w) else Table(ram, f) {}
    forall pa: nat | pa < WORD && !InPool(pa / PAGE) ensures r[pa] == ram[pa] { assert va / PAGE == t && (va + 3) / PAGE == t; }
  }

  lemma WordsApart(f: nat, x: nat, t: nat, j: nat)
    requires x < SLOTS && j < SLOTS && (f != t || x != j)
    ensures f * PAGE + 4 * x + 4 <= t * PAGE + j * 4 || t * PAGE + j * 4 + 4 <= f * PAGE + 4 * x
  {
    if f < t { assert (f + 1) * PAGE <= t * PAGE; }
    if f > t { assert (t + 1) * PAGE <= f * PAGE; }
  }

  lemma WalkStored(s: Spaces.Sys, owner: map<nat, Role>, reserved: set<nat>, m': Mem, c: nat, page: nat, w: nat)
    requires Spaces.Inv(s, owner, reserved) && Spaces.MapsUserPage(s, c, page)
    requires var t, j := PdEntry(s.m, c, page / SLOTS) / PAGE, page % SLOTS;
             t in s.m.pool && |s.m.pool[t]| == SLOTS && m' == s.m.(pool := s.m.pool[t := SetWord(s.m.pool[t], j, w)])
    ensures Walk(m', c, page) == w
  {
    hide WellFormed, KernelIdentity, NoUserSlots;
    TableInPool(s, owner, reserved, c, page);
    var t, j := PdEntry(s.m, c, page / SLOTS) / PAGE, page % SLOTS;
    assert m' == Paging.Store(s.m, t, j, w);
    UserPageInRange(s.m, s.k, page);
    StoreIsMapped(s.m, s.k, s.Live(), owner, reserved, c, page, w);
  }

  lemma StolenByte(s: Spaces.Sys, owner: map<nat, Role>, reserved: set<nat>, m': Mem, ram: seq<byte>, r: seq<byte>, c: nat, page: nat, b: nat, q: nat, i: nat)
    requires Spaces.Inv(s, owner, reserved) && Spaces.MapsUserPage(s, b, q) && |ram| == |r| == WORD && i < PAGE
    requires Walk(m', c, page) == Walk(s.m, b, q) && forall pa: nat :: pa < WORD && !InPool(pa / PAGE) ==> r[pa] == ram[pa]
    ensures Steals(m', r, c, page, s.m, ram, b, q, i)
  {
    hide Spaces.Inv, UserPage, Walk;
    UserByte(s, owner, reserved, b, q, i);
    Spaces.UserFrameIsHigh(s, owner, reserved, b, q);
    var pa := Phys(s.m, b, q * PAGE + i).value;
    assert pa / PAGE == Walk(s.m, b, q) / PAGE && !InPool(pa / PAGE);
    assert (page * PAGE + i) / PAGE == page && (page * PAGE + i) % PAGE == i && (q * PAGE + i) / PAGE == q && (q * PAGE + i) % PAGE == i;
  }

  // What anybody stores, or receives, in the page behind the heap is read by whoever has its
  // frame.
  lemma LastPageIsRead(s: Spaces.Sys, owner: map<nat, Role>, reserved: set<nat>, ram: seq<byte>, c: nat, i: nat, data: seq<byte>, b: nat, q: nat)
    requires Spaces.Inv(s, owner, reserved) && |ram| == WORD && c in s.breaks && i + |data| <= PAGE
    requires Spaces.MapsUserPage(s, b, q) && Walk(s.m, b, q) / PAGE == HEAP_END
    ensures var r := Write(ram, s.m, c, HEAP_END * PAGE + i, data);
            r.Some? && forall x :: 0 <= x < |data| ==> ReadByte(s.m, r.value, b, q * PAGE + i + x) == Some(data[x])
  {
    hide Spaces.Inv, UserPage, Walk, Write, Phys;
    var va := HEAP_END * PAGE + i;
    LastPagePlace(s, owner, reserved, c);
    IdentityWrite(ram, s.m, c, va, data);
    forall x | 0 <= x < |data| ensures ReadByte(s.m, ram[..va] + data + ram[va + |data|..], b, q * PAGE + i + x) == Some(data[x]) {
      UserByte(s, owner, reserved, b, q, i + x);
      assert Phys(s.m, b, q * PAGE + (i + x)) == Some(va + x);
    }
  }

  lemma LastPagePlace(s: Spaces.Sys, owner: map<nat, Role>, reserved: set<nat>, c: nat)
    requires Spaces.Inv(s, owner, reserved) && c in s.breaks
    ensures (HEAP_END + 1) * PAGE <= WORD && forall at: nat :: HEAP_END * PAGE <= at < (HEAP_END + 1) * PAGE ==> Phys(s.m, c, at) == Some(at)
  {
    hide Owned, KernelIdentity, Phys;
    forall at: nat | HEAP_END * PAGE <= at < (HEAP_END + 1) * PAGE ensures Phys(s.m, c, at) == Some(at) {
      KernelAddress(s.m, s.k, s.Live(), c, at);
    }
  }
}
