/**
 ParseElf as the source has it (hal.x86/elf.c:8-63): a loop over the program headers that
 allocates, switches the address space and copies. It is proved to compute Elf.LoadAll.
 */
module Loader {
  import opened Machine
  import opened Paging
  import opened Access
  import opened Elf
  import opened Vmm
  import Heap

  class Loader {
    const vmm: Vmm
    const heap: Heap.KernelHeap
    const ram: array<byte>   // the bytes of the user frames, by physical address

    constructor (vmm: Vmm, heap: Heap.KernelHeap, ram: array<byte>)
      ensures this.vmm == vmm && this.heap == heap && this.ram == ram
    {
      this.vmm, this.heap, this.ram := vmm, heap, ram;
    }

    // Different objects, as their types already make them.
    ghost predicate Apart() {
      var memory: set<object> := {vmm, vmm.pmm, vmm.pmm.bitmap, vmm.words};
      var others: set<object> := {heap, ram};
      memory !! others && heap as object != ram as object
    }

    ghost predicate Valid()
      reads vmm, vmm.pmm, vmm.pmm.bitmap, vmm.words, heap
    {
      vmm.Sound() && heap.Valid() && ram.Length == WORD && Apart()
    }

    ghost function Value(): Loaded
      reads vmm, heap, ram
    {
      Loaded(vmm.mem, ram[..], heap.chain)
    }

    // The page walk of the active address space; `ok` is false on a page fault.
    method Translate(va: nat) returns (ok: bool, pa: nat)
      requires vmm.Valid() && vmm.Rooted(vmm.currentContext) && va < WORD
      ensures match Phys(vmm.mem, vmm.currentContext, va)
              case None => !ok
              case Some(x) => ok && pa == x
    {
      pa := 0;
      var page := va / PAGE;
      var pagedir := vmm.Read(vmm.currentContext, 0);
      var entry := vmm.Read(pagedir / PAGE, page / SLOTS);
      assert page / SLOTS < SLOTS && entry == PdEntry(vmm.mem, vmm.currentContext, page / SLOTS);
      ok := entry % 2 == 1;
      if !ok { return; }
      var word := vmm.Read(entry / PAGE, page % SLOTS);
      ok := word % 2 == 1 && word / PAGE < FRAMES;
      if ok { pa := word / PAGE * PAGE + va % PAGE; }
    }

    // A load and a store at address va of the active address space.
    method LoadByte(va: u32) returns (ok: bool, b: byte)
      requires vmm.Valid() && vmm.Rooted(vmm.currentContext) && ram.Length == WORD
      ensures match ReadByte(vmm.mem, ram[..], vmm.currentContext, va)
              case None => !ok
              case Some(x) => ok && b == x
    {
      hide Phys, vmm.Valid, RootedIn;
      b := 0;
      var pa;
      ok, pa := Translate(va);
      if ok { b := ram[pa]; }
    }

    method StoreByte(va: u32, b: byte) returns (ok: bool)
      requires vmm.Valid() && vmm.Rooted(vmm.currentContext) && ram.Length == WORD
      modifies ram
      ensures match Phys(vmm.mem, vmm.currentContext, va)
              case None => !ok && ram[..] == old(ram[..])
              case Some(pa) => ok && ram[..] == old(ram[..])[pa := b]
    {
      hide Phys, vmm.Valid, RootedIn;
      var pa;
      ok, pa := Translate(va);
      if ok { ram[pa] := b; }
    }

    // The bytes from src on.
    method Fetch(src: u32, n: nat) returns (ok: bool, data: seq<byte>)
      requires vmm.Valid() && vmm.Rooted(vmm.currentContext) && ram.Length == WORD
      ensures match ReadBytes(vmm.mem, ram[..], vmm.currentContext, src, n)
              case None => !ok
              case Some(s) => ok && data == s
    {
      hide Phys, ReadByte, vmm.Valid, RootedIn;
      ok, data := true, [];
      for i := 0 to n
        invariant ok && ReadBytes(vmm.mem, ram[..], vmm.currentContext, src, i) == Some(data)
      {
        var b;
        ok, b := LoadByte(Wrap(src + i));
        if !ok {
          ReadFails(vmm.mem, ram[..], vmm.currentContext, src, i + 1, n);
          return;
        }
        data := data + [b];
      }
    }

    // Storing given bytes.
    method Put(dest: u32, data: seq<byte>) returns (ok: bool)
      requires vmm.Valid() && vmm.Rooted(vmm.currentContext) && ram.Length == WORD
      modifies ram
      ensures match Write(old(ram[..]), vmm.mem, vmm.currentContext, dest, data)
              case None => !ok
              case Some(r) => ok && ram[..] == r
    {
      hide Phys;
      ghost var before := ram[..];
      ok := true;
      assert data[..0] == [];
      for i := 0 to |data|
        invariant ok && Write(before, vmm.mem, vmm.currentContext, dest, data[..i]) == Some(ram[..])
      {
        assert data[..i + 1][..i] == data[..i];
        ok := StoreByte(Wrap(dest + i), data[i]);
        if !ok {
          WriteFails(before, vmm.mem, vmm.currentContext, dest, data, i + 1);
          return;
        }
      }
      assert data[..|data|] == data;
    }

    // memset to zero.
    method Memset(dest: u32, n: nat) returns (ok: bool)
      requires vmm.Valid() && vmm.Rooted(vmm.currentContext) && ram.Length == WORD
      modifies ram
      ensures match Write(old(ram[..]), vmm.mem, vmm.currentContext, dest, ZeroBytes(n))
              case None => !ok
              case Some(r) => ok && ram[..] == r
    {
      hide Phys;
      ghost var before := ram[..];
      ok := true;
      for i := 0 to n
        invariant ok && Write(before, vmm.mem, vmm.currentContext, dest, ZeroBytes(i)) == Some(ram[..])
      {
        assert ZeroBytes(i + 1)[..i] == ZeroBytes(i);
        ok := StoreByte(Wrap(dest + i), 0);
        if !ok {
          assert ZeroBytes(n)[..i + 1] == ZeroBytes(i + 1);
          WriteFails(before, vmm.mem, vmm.currentContext, dest, ZeroBytes(n), i + 1);
          return;
        }
      }
    }

    // memcpy
    method Memcpy(dest: u32, src: u32, n: nat) returns (ok: bool)
      requires vmm.Valid() && vmm.Rooted(vmm.currentContext) && ram.Length == WORD
      modifies ram
      ensures match Copy(old(ram[..]), vmm.mem, vmm.currentContext, dest, src, n)
              case None => !ok
              case Some(r) => ok && ram[..] == r
    {
      hide Phys, ReadByte;
      ghost var before := ram[..];
      ok := true;
      for i := 0 to n
        invariant ok && Copy(before, vmm.mem, vmm.currentContext, dest, src, i) == Some(ram[..])
      {
        var b;
        ok, b := LoadByte(Wrap(src + i));
        if ok { ok := StoreByte(Wrap(dest + i), b); }
        if !ok {
          CopyFails(before, vmm.mem, vmm.currentContext, dest, src, i + 1, n);
          return;
        }
      }
    }

    // The two writes, with the new address space active.
    method FillSegment(context: nat, p: Program, buf: u32) returns (ok: bool)
      requires vmm.Valid() && vmm.Rooted(context) && ram.Length == WORD && Apart()
      modifies vmm`currentContext, ram
      ensures vmm.Valid()
      ensures match Fill(old(ram[..]), vmm.mem, context, p, buf)
              case None => !ok
              case Some(r) => ok && ram[..] == r && vmm.currentContext == old(vmm.currentContext)
    {
      hide vmm.Valid, Write, Copy, RootedIn, ZeroBytes;
      var oldContext := vmm.currentContext;
      vmm.Activate(context);
      ok := Memset(p.vaddr, p.msize);
      if !ok { return; }
      ok := Memcpy(p.vaddr, buf, p.fsize);
      if !ok { return; }
      vmm.Activate(oldContext);
    }

    // The kernel may read through the active tables.
    lemma RootedNow()
      requires Valid() && vmm.currentContext in vmm.live
      ensures vmm.Valid() && vmm.Rooted(vmm.currentContext)
    {
      hide Ownership.Owned;
      OwnedIsRooted(vmm.mem, vmm.kernelContext, vmm.live, vmm.owner, vmm.reserved, vmm.currentContext);
    }

    // The body of the loop of ParseElf for a segment to load: the file goes into a buffer on
    // the heap, then the pages are allocated and the segment is filled from it.
    method LoadSegment(context: nat, addr: u32, p: Program) returns (ok: bool)
      requires Valid() && context in vmm.live && context != vmm.kernelContext && vmm.currentContext in vmm.live
      requires Heap.EndOf(heap.chain) < WORD
      modifies vmm`mem, vmm`owner, vmm`currentContext, vmm.pmm`freeMemory, vmm.pmm.bitmap, vmm.words, heap, ram
      ensures match Elf.LoadSegment(old(Value()), old(vmm.currentContext), context, addr, p)
              case None => !ok
              case Some(s) => ok && Valid() && Value() == s && vmm.currentContext == old(vmm.currentContext)
    {
      hide vmm.Valid, Ownership.Owned, Paging.VmmAlloc, Fill, Copy, Heap.Malloc, Heap.Free, Heap.InMemory, RootedIn, Heap.EndOf;
      BufferFacts(heap.headers, heap.chain, p.fsize);
      var buf;
      ok, buf := heap.Kmalloc(p.fsize);
      if !ok { return; }
      RootedNow();
      ok := Memcpy(buf, Wrap(addr + p.offset), p.fsize);
      if !ok { return; }
      ok := vmm.VmmAlloc(context, p.vaddr, p.msize);
      if !ok { return; }
      OwnedIsRooted(vmm.mem, vmm.kernelContext, vmm.live, vmm.owner, vmm.reserved, context);
      ok := FillSegment(context, p, buf);
      if !ok { return; }
      ok := heap.Kfree(buf);
    }

    // One turn of the loop.
    method LoadHeader(context: nat, addr: u32, at: nat) returns (ok: bool)
      requires Valid() && context in vmm.live && context != vmm.kernelContext && vmm.currentContext in vmm.live
      requires Heap.EndOf(heap.chain) < WORD
      modifies vmm`mem, vmm`owner, vmm`currentContext, vmm.pmm`freeMemory, vmm.pmm.bitmap, vmm.words, heap, ram
      ensures match LoadNext(old(Value()), old(vmm.currentContext), context, addr, at)
              case None => !ok
              case Some(s) => ok && Valid() && Value() == s && vmm.currentContext == old(vmm.currentContext)
    {
      hide vmm.Valid, Ownership.Owned, Elf.LoadSegment, ReadBytes, Heap.InMemory, RootedIn, Heap.EndOf, Word32;
      RootedNow();
      var header, sizes;
      ok, header := Fetch(Wrap(at), 12);
      if !ok { return; }
      var offset, vaddr := Word32(header, 4), Word32(header, 8);
      if Word32(header, 0) != 1 || vaddr == 0 || Wrap(addr + offset) == 0 { return; }
      ok, sizes := Fetch(Wrap(at + 16), 8);
      if !ok { return; }
      ok := LoadSegment(context, addr, Program(1, offset, vaddr, Word32(sizes, 0), Word32(sizes, 4)));
    }

    // ParseElf; the entry address, or 0 when an argument is NULL or the magic is wrong.
    method ParseElf(addr: u32, context: nat) returns (ok: bool, entry: nat)
      requires Valid() && vmm.currentContext in vmm.live && (context == 0 || (context in vmm.live && context != vmm.kernelContext))
      requires context != 0 ==> HeapStaysShort(Value(), vmm.currentContext, context, addr)
      modifies vmm`mem, vmm`owner, vmm`currentContext, vmm.pmm`freeMemory, vmm.pmm.bitmap, vmm.words, heap, ram
      ensures if context == 0 then ok && entry == 0 && Valid() && Value() == old(Value()) && vmm.currentContext == old(vmm.currentContext)
              else
                match Parse(old(Value()), old(vmm.currentContext), context, addr)
                case None => !ok
                case Some((s, e)) => ok && entry == e && Valid() && Value() == s && vmm.currentContext == old(vmm.currentContext)
    {
      hide vmm.Valid, Ownership.Owned, LoadNext, ReadBytes, Heap.InMemory, Heap.EndOf, RootedIn, ParseFrom, ShortHeap, Word32;
      ok, entry := true, 0;
      if addr == 0 || context == 0 { return; }
      RootedNow();
      var offset, magic, word;
      ok, offset := Fetch(Wrap(addr + 28), 4);
      if !ok { return; }
      ok, magic := Fetch(addr, 4);
      if !ok || Word32(magic, 0) != ELF_MAGIC { return; }
      ok := LoadHeaders(context, addr, addr + Word32(offset, 0));
      if !ok { return; }
      RootedNow();
      ok, word := Fetch(Wrap(addr + 24), 4);
      if ok { entry := Word32(word, 0); }
    }

    // Its loop.
    method LoadHeaders(context: nat, addr: u32, table: nat) returns (ok: bool)
      requires Valid() && context in vmm.live && context != vmm.kernelContext && vmm.currentContext in vmm.live
      requires ShortHeap(Value(), vmm.currentContext, context, addr, table, 0)
      modifies vmm`mem, vmm`owner, vmm`currentContext, vmm.pmm`freeMemory, vmm.pmm.bitmap, vmm.words, heap, ram
      ensures match ParseFrom(old(Value()), old(vmm.currentContext), context, addr, table, 0)
              case None => !ok
              case Some(s) => ok && Valid() && Value() == s && vmm.currentContext == old(vmm.currentContext)
    {
      hide vmm.Valid, Ownership.Owned, LoadNext, ReadBytes, Heap.InMemory, Heap.EndOf, RootedIn, Word16;
      ghost var start, active := Value(), vmm.currentContext;
      var i, count := 0, 0;
      ok, count := Headers(addr);
      if !ok { return; }
      while i < count
        invariant ok && Valid() && vmm.currentContext == active && i <= 0x1_0000 && CountIs(Value(), active, addr, count)
        invariant ParseFrom(start, active, context, addr, table, 0) == ParseFrom(Value(), active, context, addr, table, i)
        invariant ShortHeap(Value(), active, context, addr, table, i)
        decreases 0x1_0000 - i
      {
        ok := LoadHeader(context, addr, table + 32 * i);
        if !ok { return; }
        i := i + 1;
        ok, count := Headers(addr);
        if !ok { return; }
      }
    }

    // header->pentry_count
    method Headers(addr: u32) returns (ok: bool, count: nat)
      requires Valid() && vmm.currentContext in vmm.live
      ensures if ok then CountIs(Value(), vmm.currentContext, addr, count) else ReadBytes(vmm.mem, ram[..], vmm.currentContext, Wrap(addr + 44), 2) == None
    {
      hide vmm.Valid, Ownership.Owned, ReadBytes, Heap.InMemory, RootedIn;
      RootedNow();
      var h;
      ok, h := Fetch(Wrap(addr + 44), 2);
      count := 0;
      if ok { count := Word16(h); }
    }
  }

  ghost predicate CountIs(s: Loaded, active: nat, addr: nat, count: nat)
    requires |s.ram| == WORD
  {
    var h := ReadBytes(s.m, s.ram, active, Wrap(addr + 44), 2);
    h.Some? && count == Word16(h.value) && count < 0x1_0000
  }

  lemma BufferFacts(headers: map<nat, Heap.Header>, h: seq<Heap.Block>, size: u32)
    requires Heap.InMemory(headers, h) && Heap.EndOf(h) < WORD
    ensures Heap.Malloc(h, size).Some? ==>
              var (h1, buf) := Heap.Malloc(h, size).value;
              0 < buf < WORD && exists i :: 0 <= i < |h1| && h1[i].Payload() == buf
  {
    hide Heap.HeaderOf;
    if Heap.Malloc(h, size).Some? {
      var (h1, buf) := Heap.Malloc(h, size).value;
      assert h1[Heap.FirstFit(h, size)].Payload() == buf;
    }
  }

  lemma {:induction false} ReadFails(m: Mem, ram: seq<byte>, c: nat, va: nat, i: nat, n: nat)
    requires |ram| == WORD && i <= n && ReadBytes(m, ram, c, va, i) == None
    ensures ReadBytes(m, ram, c, va, n) == None
    decreases n
  {
    hide ReadByte;
    if i < n { ReadFails(m, ram, c, va, i, n - 1); }
  }

  lemma {:induction false} CopyFails(ram: seq<byte>, m: Mem, c: nat, dest: nat, src: nat, i: nat, n: nat)
    requires |ram| == WORD && i <= n && Copy(ram, m, c, dest, src, i) == None
    ensures Copy(ram, m, c, dest, src, n) == None
    decreases n
  {
    hide ReadByte, Phys;
    if i < n { CopyFails(ram, m, c, dest, src, i, n - 1); }
  }

  // Once a byte cannot be written the whole write fails.
  lemma {:induction false} WriteFails(ram: seq<byte>, m: Mem, c: nat, va: nat, data: seq<byte>, i: nat)
    requires |ram| == WORD && i <= |data| && Write(ram, m, c, va, data[..i]) == None
    ensures Write(ram, m, c, va, data) == None
    decreases |data|
  {
    if i < |data| {
      var init := data[..|data| - 1];
      assert init[..i] == data[..i];
      WriteFails(ram, m, c, va, init, i);
    } else {
      assert data[..i] == data;
    }
  }
}
