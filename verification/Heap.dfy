/**
 The kernel heap (hal.x86/heap.c): a first-fit chain of blocks, each a 16-byte header
 followed by its payload. `seq<Block>` is the value the chain stands for.
 */
module Heap {
  import opened Machine

  const HEADER: nat := 16
  const MAGIC: nat := 0xCAFEBABE
  const START: nat := HEAP_START * PAGE
  const END: nat := HEAP_END * PAGE

  // A block by the address of its header.
  datatype Block = Block(addr: nat, size: nat, free: bool) {
    function Payload(): nat { addr + HEADER }
    function End(): nat { addr + HEADER + size }
  }

  // The blocks tile one interval from the start of the heap, each with its header inside.
  ghost predicate Tiled(h: seq<Block>) {
    && h != [] && h[0].addr == START
    && (forall i :: 0 <= i < |h| ==> h[i].addr < END && h[i].size < WORD)
    && (forall i :: 0 < i < |h| ==> h[i].addr == h[i - 1].End())
  }

  function EndOf(h: seq<Block>): nat {
    if h == [] then START else h[|h| - 1].End()
  }

  // The lowest free block that fits, or |h|.
  function FirstFit(h: seq<Block>, size: nat): (r: nat)
    ensures r <= |h|
    ensures r < |h| ==> h[r].free && h[r].size >= size
    ensures forall i :: 0 <= i < r ==> !(h[i].free && h[i].size >= size)
  {
    if h == [] then 0
    else
      var r := FirstFit(h[..|h| - 1], size);
      if r < |h| - 1 then r
      else if h[|h| - 1].free && h[|h| - 1].size >= size then |h| - 1
      else |h|
  }

  function SetFree(h: seq<Block>, i: nat, free: bool): seq<Block>
    requires i < |h|
  {
    h[i := h[i].(free := free)]
  }

  // kmalloc: the block that fits, or a new one past the last. None: a new block would start
  // beyond the heap and the kernel halts, or kcreateBlock returns NULL, which is followed
  // (heap.c:37, heap.c:78): a block of size 0 is wanted and none is free, or the address of
  // the new block wraps around to 0.
  function Malloc(h: seq<Block>, size: nat): Option<(seq<Block>, nat)> {
    var i := FirstFit(h, size);
    var addr := Wrap(EndOf(h));
    if i < |h| then Some((SetFree(h, i, false), h[i].Payload()))
    else if size == 0 || addr == 0 || addr >= END then None
    else Some((h + [Block(addr, size, false)], addr + HEADER))
  }

  // kfree of a payload address.
  function Free(h: seq<Block>, addr: nat): (r: seq<Block>)
    ensures |r| == |h|
    ensures forall i :: 0 <= i < |h| ==> r[i] == if h[i].Payload() == addr then h[i].(free := true) else h[i]
  {
    seq(|h|, i requires 0 <= i < |h| => if h[i].Payload() == addr then h[i].(free := true) else h[i])
  }

  // ----- the tiling

  // Creating a block keeps the tiling exactly if its address does not wrap around 2^32:
  // kcreateBlock checks only where a header starts (heap.c:42).
  lemma MallocKeepsTilingExactly(h: seq<Block>, size: nat)
    requires Tiled(h) && size < WORD && Malloc(h, size).Some?
    ensures Tiled(Malloc(h, size).value.0) <==> FirstFit(h, size) < |h| || EndOf(h) < WORD
  {
    var h' := Malloc(h, size).value.0;
    if FirstFit(h, size) == |h| {
      assert h'[|h|].addr == Wrap(EndOf(h)) && h'[|h| - 1] == h[|h| - 1];
      assert EndOf(h) == h[|h| - 1].End();
      if Tiled(h') { assert h'[|h|].addr == h'[|h| - 1].End(); }
    }
  }

  // Requests that stay clear of 2^32 never get there.
  lemma SmallRequestsNeverWrap(h: seq<Block>, size: nat)
    requires Tiled(h) && EndOf(h) < WORD && size + HEADER + END <= WORD && Malloc(h, size).Some?
    ensures Tiled(Malloc(h, size).value.0) && EndOf(Malloc(h, size).value.0) < WORD
  {
    MallocKeepsTilingExactly(h, size);
  }

  // A huge request breaks the heap: the block after it starts inside memory that is not its own.
  lemma HugeRequestBreaksTiling()
    ensures var h := [Block(START, 0, false), Block(START + HEADER, WORD - 2 * HEADER, false)];
            Tiled(h) && Malloc(h, 1).Some? && !Tiled(Malloc(h, 1).value.0)
  {
    var h := [Block(START, 0, false), Block(START + HEADER, WORD - 2 * HEADER, false)];
    assert h[1].End() == WORD + START;
    assert Tiled(h) && EndOf(h) == WORD + START && Wrap(EndOf(h)) == START;
    assert FirstFit(h, 1) == 2;
    MallocKeepsTilingExactly(h, 1);
  }

  lemma {:induction false} TiledIsOrdered(h: seq<Block>, i: nat, j: nat)
    requires Tiled(h) && i < j < |h|
    ensures h[i].End() <= h[j].addr
  {
    if i + 1 < j { TiledIsOrdered(h, i, j - 1); }
  }

  // Headers and payloads of different blocks do not overlap.
  lemma BlocksAreDisjoint(h: seq<Block>, i: nat, j: nat)
    requires Tiled(h) && i < |h| && j < |h| && i != j
    ensures h[i].End() <= h[j].addr || h[j].End() <= h[i].addr
    ensures h[i].addr != h[j].addr
  {
    if i < j { TiledIsOrdered(h, i, j); } else { TiledIsOrdered(h, j, i); }
  }

  // ----- the end of the heap

  // kcreateBlock checks only where a header starts, so that the payload of the last block may
  // run past the end of the heap; those of all others lie in it.
  lemma BlockInHeapExactly(h: seq<Block>, i: nat)
    requires Tiled(h) && i < |h|
    ensures h[i].End() <= END <==> i < |h| - 1 || EndOf(h) <= END
  {
    if i < |h| - 1 { TiledIsOrdered(h, i, i + 1); }
  }

  // A request gets memory inside the heap exactly if it fits a block that is not the last, or
  // ends in time in the last block or behind it.
  lemma PayloadInHeapExactly(h: seq<Block>, size: nat)
    requires Tiled(h) && EndOf(h) < WORD && Malloc(h, size).Some?
    ensures var buf, i := Malloc(h, size).value.1, FirstFit(h, size);
            && START <= buf
            && (buf + size <= END <==> i < |h| - 1 || (if i < |h| then h[|h| - 1].addr else EndOf(h)) + HEADER + size <= END)
  {
    var i := FirstFit(h, size);
    if i < |h| {
      if i > 0 { TiledIsOrdered(h, 0, i); }
      if i < |h| - 1 { TiledIsOrdered(h, i, i + 1); }
    } else {
      if |h| > 1 { TiledIsOrdered(h, 0, |h| - 1); }
    }
  }

  // Every block lies in the heap.
  ghost predicate Holds(h: seq<Block>) {
    Tiled(h) && EndOf(h) <= END
  }

  // A free block fits, or a new one ends in the heap.
  predicate HasRoom(h: seq<Block>, size: nat) {
    FirstFit(h, size) < |h| || EndOf(h) + HEADER + size <= END
  }

  // The payload of a block that is not empty.
  predicate IsPayload(h: seq<Block>, a: nat) {
    exists i :: 0 <= i < |h| && h[i].Payload() == a && h[i].size > 0
  }

  lemma PayloadIsInside(h: seq<Block>, a: nat)
    requires Holds(h) && IsPayload(h, a)
    ensures START < a < END && exists i :: 0 <= i < |h| && h[i].Payload() == a
  {
    var i :| 0 <= i < |h| && h[i].Payload() == a && h[i].size > 0;
    BlockInHeapExactly(h, i);
    if i > 0 { TiledIsOrdered(h, 0, i); }
  }

  // That stays so exactly if a free block fits or the new one ends in time; then what is
  // returned is a block in the heap, and no block moves.
  lemma MallocHoldsExactly(h: seq<Block>, size: nat)
    requires Holds(h) && size < WORD && Malloc(h, size).Some?
    ensures var (h1, buf) := Malloc(h, size).value;
            && (Holds(h1) <==> HasRoom(h, size))
            && (Holds(h1) <==> EndOf(h1) <= END)
            && (Holds(h1) ==> START <= buf && buf + size <= END && (size > 0 ==> IsPayload(h1, buf)) && forall a :: IsPayload(h, a) ==> IsPayload(h1, a))
  {
    hide Tiled, IsPayload, FirstFit;
    MallocKeepsTilingExactly(h, size);
    PayloadInHeapExactly(h, size);
    EndAfterMalloc(h, size);
    PayloadsAfterMalloc(h, size);
  }

  lemma EndAfterMalloc(h: seq<Block>, size: nat)
    requires EndOf(h) <= END && Malloc(h, size).Some?
    ensures EndOf(Malloc(h, size).value.0) == if FirstFit(h, size) < |h| then EndOf(h) else EndOf(h) + HEADER + size
  {
  }

  // The end of the chain never moves back.
  lemma EndMovesOn(h: seq<Block>, size: nat)
    requires EndOf(h) < WORD && Malloc(h, size).Some?
    ensures EndOf(h) <= EndOf(Malloc(h, size).value.0) <= EndOf(h) + HEADER + size
  {
  }

  lemma PayloadsAfterMalloc(h: seq<Block>, size: nat)
    requires Malloc(h, size).Some?
    ensures var (h1, buf) := Malloc(h, size).value; (size > 0 ==> IsPayload(h1, buf)) && forall a :: IsPayload(h, a) ==> IsPayload(h1, a)
  {
    var (h1, buf) := Malloc(h, size).value;
    assert h1[FirstFit(h, size)].Payload() == buf;
    assert forall j :: 0 <= j < |h| ==> h1[j].Payload() == h[j].Payload() && h1[j].size == h[j].size;
  }

  lemma FreeHolds(h: seq<Block>, addr: nat)
    requires Holds(h)
    ensures Holds(Free(h, addr)) && EndOf(Free(h, addr)) == EndOf(h)
    ensures forall a :: IsPayload(h, a) <==> IsPayload(Free(h, addr), a)
  {
    var r := Free(h, addr);
    assert forall j :: 0 <= j < |h| ==> r[j].addr == h[j].addr && r[j].size == h[j].size && r[j].Payload() == h[j].Payload();
  }

  // ----- allocate, free in any order, allocate again

  function MallocAll(h: seq<Block>, sizes: seq<nat>): Option<(seq<Block>, seq<nat>)> {
    if sizes == [] then Some((h, []))
    else
      match MallocAll(h, sizes[..|sizes| - 1])
      case None => None
      case Some((h1, addrs)) =>
        match Malloc(h1, sizes[|sizes| - 1])
        case None => None
        case Some((h2, addr)) => Some((h2, addrs + [addr]))
  }

  function FreeAll(h: seq<Block>, addrs: seq<nat>): seq<Block> {
    if addrs == [] then h else Free(FreeAll(h, addrs[..|addrs| - 1]), addrs[|addrs| - 1])
  }

  // The blocks of h as they are now: their addresses and sizes, however long h' got.
  ghost predicate Grown(h: seq<Block>, h': seq<Block>) {
    |h| <= |h'| && forall i :: 0 <= i < |h| ==> h'[i].addr == h[i].addr && h'[i].size == h[i].size
  }

  // What allocating the addresses did to h: exactly their blocks became or are in use.
  ghost predicate Taken(h: seq<Block>, h': seq<Block>, addrs: seq<nat>) {
    && Grown(h, h')
    && (forall i :: 0 <= i < |h| ==> h'[i].free == (h[i].free && h[i].Payload() !in addrs))
    && (forall i :: 0 <= i < |h| && h[i].Payload() in addrs ==> h[i].free)
    && (forall i :: |h| <= i < |h'| ==> !h'[i].free && h'[i].Payload() in addrs)
  }

  lemma TakenOneMore(h: seq<Block>, h1: seq<Block>, addrs: seq<nat>, size: nat)
    requires Taken(h, h1, addrs) && Malloc(h1, size).Some? && Tiled(Malloc(h1, size).value.0)
    ensures var (h2, addr) := Malloc(h1, size).value; Taken(h, h2, addrs + [addr])
  {
    var (h2, addr) := Malloc(h1, size).value;
    var i := FirstFit(h1, size);
    assert h2[i].Payload() == addr;
    forall j | 0 <= j < |h2| && j != i ensures h2[j].Payload() != addr {
      BlocksAreDisjoint(h2, i, j);
    }
    assert forall j :: 0 <= j < |h1| ==> h2[j].Payload() == h1[j].Payload();
  }

  lemma MallocKeepsPrefixTiled(h: seq<Block>, size: nat)
    requires h != [] && Malloc(h, size).Some? && Tiled(Malloc(h, size).value.0)
    ensures Tiled(h) && Grown(h, Malloc(h, size).value.0)
  {
    var h' := Malloc(h, size).value.0;
    assert forall i :: 0 <= i < |h| ==> h'[i].addr == h[i].addr && h'[i].size == h[i].size;
    forall i | 0 < i < |h| ensures h[i].addr == h[i - 1].End() {
      assert h'[i].addr == h'[i - 1].End();
    }
  }

  lemma {:induction false} MallocAllTakes(h: seq<Block>, sizes: seq<nat>)
    requires h != [] && MallocAll(h, sizes).Some? && Tiled(MallocAll(h, sizes).value.0)
    ensures var (h', addrs) := MallocAll(h, sizes).value; Taken(h, h', addrs) && |addrs| == |sizes|
  {
    if sizes != [] {
      var init := sizes[..|sizes| - 1];
      var (h1, addrs) := MallocAll(h, init).value;
      MallocAllGrows(h, init);
      MallocKeepsPrefixTiled(h1, sizes[|sizes| - 1]);
      MallocAllTakes(h, init);
      TakenOneMore(h, h1, addrs, sizes[|sizes| - 1]);
    }
  }

  lemma {:induction false} MallocAllGrows(h: seq<Block>, sizes: seq<nat>)
    requires MallocAll(h, sizes).Some?
    ensures Grown(h, MallocAll(h, sizes).value.0)
  {
    if sizes != [] { MallocAllGrows(h, sizes[..|sizes| - 1]); }
  }

  lemma {:induction false} FreeAllFrees(h: seq<Block>, addrs: seq<nat>)
    ensures |FreeAll(h, addrs)| == |h|
    ensures forall i :: 0 <= i < |h| ==> FreeAll(h, addrs)[i] == if h[i].Payload() in addrs then h[i].(free := true) else h[i]
  {
    if addrs != [] {
      FreeAllFrees(h, addrs[..|addrs| - 1]);
      assert addrs == addrs[..|addrs| - 1] + [addrs[|addrs| - 1]];
    }
  }

  // The state of the second round when the first was at h: the same, and then the blocks
  // that the first round had yet to create, all free.
  ghost predicate Replays(h: seq<Block>, last: seq<Block>, r: seq<Block>) {
    && Grown(h, last) && |r| == |last|
    && (forall i :: 0 <= i < |h| ==> r[i] == h[i])
    && (forall i :: |h| <= i < |r| ==> r[i] == last[i].(free := true))
  }

  lemma ReplayOneMore(h: seq<Block>, size: nat, last: seq<Block>, r: seq<Block>)
    requires Replays(h, last, r) && Malloc(h, size).Some? && Grown(Malloc(h, size).value.0, last)
    ensures Malloc(r, size).Some?
    ensures var (h', addr) := Malloc(h, size).value; var (r', addr') := Malloc(r, size).value;
            addr' == addr && Replays(h', last, r')
  {
    var i := FirstFit(h, size);
    var h' := Malloc(h, size).value.0;
    assert r[i].addr == h'[i].addr && r[i].size == h'[i].size && r[i].free;
    assert FirstFit(r, size) == i;
  }

  lemma {:induction false} ReplayAll(h: seq<Block>, sizes: seq<nat>, last: seq<Block>, r: seq<Block>)
    requires Replays(h, last, r) && MallocAll(h, sizes).Some? && Grown(MallocAll(h, sizes).value.0, last)
    ensures MallocAll(r, sizes).Some?
    ensures var (h', addrs) := MallocAll(h, sizes).value; var (r', addrs') := MallocAll(r, sizes).value;
            addrs' == addrs && Replays(h', last, r')
  {
    if sizes != [] {
      var init := sizes[..|sizes| - 1];
      ReplayAll(h, init, last, r);
      ReplayOneMore(MallocAll(h, init).value.0, sizes[|sizes| - 1], last, MallocAll(r, init).value.0);
    }
  }

  // Allocating a list of sizes, freeing everything in any order and allocating the list
  // again gives the same addresses in the same order and the same chain.
  lemma Replay(h: seq<Block>, sizes: seq<nat>, order: seq<nat>)
    requires h != [] && MallocAll(h, sizes).Some? && Tiled(MallocAll(h, sizes).value.0)
    requires forall a :: a in order <==> a in MallocAll(h, sizes).value.1
    ensures var (h1, addrs) := MallocAll(h, sizes).value;
            MallocAll(FreeAll(h1, order), sizes) == Some((h1, addrs))
  {
    var (h1, addrs) := MallocAll(h, sizes).value;
    MallocAllTakes(h, sizes);
    FreeAllFrees(h1, order);
    var h2 := FreeAll(h1, order);
    assert Replays(h, h1, h2);
    ReplayAll(h, sizes, h1, h2);
    assert MallocAll(h2, sizes).value.0 == h1;
  }

  // ----- the chain in memory

  // A header as it lies in memory. `free` is 0 or 1, a `next` of 0 is NULL.
  datatype Header = Header(magic: nat, free: nat, size: nat, next: nat)

  function HeaderOf(h: seq<Block>, i: nat): Header
    requires i < |h|
  {
    Header(MAGIC, if h[i].free then 1 else 0, h[i].size, if i + 1 < |h| then h[i + 1].addr else 0)
  }

  ghost predicate InMemory(headers: map<nat, Header>, h: seq<Block>) {
    Tiled(h) && forall i :: 0 <= i < |h| ==> h[i].addr in headers && headers[h[i].addr] == HeaderOf(h, i)
  }

  lemma AddressesApart(h: seq<Block>, i: nat)
    requires Tiled(h) && i < |h|
    ensures h[i].addr >= START && forall j :: 0 <= j < |h| && j != i ==> h[j].addr != h[i].addr
  {
    if i > 0 { TiledIsOrdered(h, 0, i); }
    forall j | 0 <= j < |h| && j != i ensures h[j].addr != h[i].addr {
      BlocksAreDisjoint(h, i, j);
    }
  }

  // Marking block i free or used.
  lemma Marked(headers: map<nat, Header>, h: seq<Block>, i: nat, free: bool)
    requires InMemory(headers, h) && i < |h|
    ensures var a := h[i].addr;
            InMemory(headers[a := headers[a].(free := if free then 1 else 0)], SetFree(h, i, free))
  {
    hide Tiled, SetFree, HeaderOf;
    AddressesApart(h, i);
    TiledMarked(h, i, free);
    var a, h' := h[i].addr, SetFree(h, i, free);
    forall j | 0 <= j < |h| ensures HeaderOf(h', j) == if j == i then headers[a].(free := if free then 1 else 0) else headers[h[j].addr] {
      HeaderMarked(h, i, free, j);
    }
  }

  lemma TiledMarked(h: seq<Block>, i: nat, free: bool)
    requires Tiled(h) && i < |h|
    ensures Tiled(SetFree(h, i, free)) && |SetFree(h, i, free)| == |h|
    ensures forall j :: 0 <= j < |h| ==> SetFree(h, i, free)[j].addr == h[j].addr
  {
    var h' := SetFree(h, i, free);
    assert forall j :: 0 <= j < |h| ==> h'[j].addr == h[j].addr && h'[j].size == h[j].size;
  }

  lemma HeaderMarked(h: seq<Block>, i: nat, free: bool, j: nat)
    requires i < |h| && j < |h|
    ensures |SetFree(h, i, free)| == |h|
    ensures HeaderOf(SetFree(h, i, free), j) == if j == i then HeaderOf(h, j).(free := if free then 1 else 0) else HeaderOf(h, j)
  {
  }

  // Linking a new block after the last.
  lemma Appended(headers: map<nat, Header>, h: seq<Block>, size: nat)
    requires InMemory(headers, h) && EndOf(h) < END && size < WORD
    ensures var last, a := h[|h| - 1].addr, EndOf(h);
            InMemory(headers[last := headers[last].(next := a)][a := Header(MAGIC, 1, size, 0)], h + [Block(a, size, true)])
  {
    hide Tiled, EndOf, HeaderOf;
    var h' := h + [Block(EndOf(h), size, true)];
    AppendedTiled(h, size);
    NotEmpty(h);
    AddressesApart(h', |h|);
    AddressesApart(h', |h| - 1);
    var last, a := h[|h| - 1].addr, EndOf(h);
    forall i | 0 <= i < |h'|
      ensures h'[i].addr == (if i < |h| then h[i].addr else a)
      ensures HeaderOf(h', i) == if i == |h| then Header(MAGIC, 1, size, 0) else if i == |h| - 1 then headers[last].(next := a) else headers[h[i].addr]
    {
      HeaderAppended(h, Block(a, size, true), i);
    }
  }

  lemma HeaderAppended(h: seq<Block>, b: Block, i: nat)
    requires i <= |h|
    ensures var h' := h + [b];
            HeaderOf(h', i) == if i == |h| then Header(MAGIC, if b.free then 1 else 0, b.size, 0)
                               else if i == |h| - 1 then HeaderOf(h, i).(next := b.addr) else HeaderOf(h, i)
  {
  }

  lemma NotEmpty(h: seq<Block>)
    requires Tiled(h)
    ensures h != []
  {
  }

  lemma AppendedTiled(h: seq<Block>, size: nat)
    requires Tiled(h) && EndOf(h) < END && size < WORD
    ensures Tiled(h + [Block(EndOf(h), size, true)])
  {
    var h' := h + [Block(EndOf(h), size, true)];
    assert forall i :: 0 <= i < |h| ==> h'[i] == h[i];
  }

  lemma LastHeader(headers: map<nat, Header>, h: seq<Block>)
    requires InMemory(headers, h)
    ensures h != [] && var last := h[|h| - 1];
            last.addr >= START && last.addr in headers && headers[last.addr].size == last.size && EndOf(h) == last.addr + HEADER + last.size
  {
    AddressesApart(h, |h| - 1);
  }

  class KernelHeap {
    var headers: map<nat, Header>   // the headers, by address
    ghost var chain: seq<Block>

    ghost predicate Valid()
      reads this
    {
      InMemory(headers, chain)
    }

    // kinit_heap
    constructor ()
      ensures Valid() && chain == [Block(START, 0, true)]
    {
      headers := map[START := Header(MAGIC, 1, 0, 0)];
      chain := [Block(START, 0, true)];
    }

    // kcreateBlock: `ok` is false when the assertion on the new header's address fails.
    method CreateBlock(parent: nat, size: u32) returns (ok: bool, node: nat)
      requires Valid() && chain != [] && parent == chain[|chain| - 1].addr
      modifies this
      ensures size == 0 ==> ok && node == 0 && Valid() && chain == old(chain)
      ensures size > 0 ==> ok == (Wrap(EndOf(old(chain))) < END)
      ensures size > 0 && ok ==> node == Wrap(EndOf(old(chain)))
      ensures size > 0 && ok ==> node in headers && chain == old(chain) + [Block(node, size, true)]
      ensures size > 0 && ok && EndOf(old(chain)) < WORD ==> Valid()
    {
      hide InMemory, Tiled;
      LastHeader(headers, chain);
      if EndOf(chain) < END { Appended(headers, chain, size); }
      ok := true;
      if parent == 0 || size == 0 { return true, 0; }
      node := Wrap(parent + HEADER + headers[parent].size);
      ok := node < END;
      headers := headers[parent := headers[parent].(next := node)];
      if !ok { return; }
      headers := headers[node := Header(MAGIC, 1, size, 0)];
      chain := chain + [Block(node, size, true)];
    }

    // kmalloc. Neither assertion in its loop can fail on a valid heap. After a request that
    // wraps around 2^32 nothing is promised.
    method Kmalloc(size: u32) returns (ok: bool, addr: nat)
      requires Valid()
      modifies this
      ensures match Malloc(old(chain), size)
              case None => !ok
              case Some((h, a)) => ok && addr == a && (FirstFit(old(chain), size) < |old(chain)| || EndOf(old(chain)) < WORD ==> Valid() && chain == h)
    {
      hide InMemory, Tiled, FirstFit, SetFree, EndOf, Wrap;
      LastHeader(headers, chain);
      HeaderAt(headers, chain, 0);
      var node, last := START, START;
      ghost var i, h := 0, chain;
      addr := 0;
      while node != 0
        invariant Valid() && chain == h == old(chain) && 0 <= i <= |h|
        invariant node == if i < |h| then h[i].addr else 0
        invariant i < |h| ==> h[i].addr != 0
        invariant last == h[if i == 0 then 0 else i - 1].addr
        invariant forall j :: 0 <= j < i ==> !(h[j].free && h[j].size >= size)
        decreases |h| - i
      {
        HeaderAt(headers, h, i);
        assert node < END;
        var header := headers[node];
        assert header.magic == MAGIC;
        if header.size >= size && header.free == 1 {
          Marked(headers, h, i, false);
          FirstFitIs(h, size, i);
          headers := headers[node := header.(free := 0)];
          chain := SetFree(h, i, false);
          return true, node + HEADER;
        }
        last, node, i := node, header.next, i + 1;
      }
      FirstFitIs(h, size, |h|);
      ok, node := CreateBlock(last, size);
      ok := ok && node != 0;
      if !ok { return; }
      if EndOf(h) < WORD {
        Marked(headers, chain, |h|, false);
        SetFreeLast(h, node, size);
      }
      headers := headers[node := headers[node].(free := 0)];
      chain := SetFree(chain, |chain| - 1, false);
      addr := node + HEADER;
    }

    // kfree of NULL, of an address beyond the heap (which halts) or of a block's payload.
    method Kfree(addr: nat) returns (ok: bool)
      requires Valid() && (addr == 0 || addr >= END || exists i :: 0 <= i < |chain| && chain[i].Payload() == addr)
      modifies this
      ensures Valid() && ok == (addr < END)
      ensures chain == if addr == 0 || addr >= END then old(chain) else Free(old(chain), addr)
    {
      hide InMemory, Tiled, SetFree, Free;
      ok := addr < END;
      if addr == 0 || !ok { return; }
      ghost var i :| 0 <= i < |chain| && chain[i].Payload() == addr;
      var node := addr - HEADER;
      HeaderAt(headers, chain, i);
      assert headers[node].magic == MAGIC;
      Marked(headers, chain, i, true);
      FreeIsOneBlock(headers, chain, i);
      headers := headers[node := headers[node].(free := 1)];
      chain := SetFree(chain, i, true);
    }
  }

  lemma HeaderAt(headers: map<nat, Header>, h: seq<Block>, i: nat)
    requires InMemory(headers, h) && i < |h|
    ensures h[0].addr == START && START <= h[i].addr < END && h[i].addr in headers && headers[h[i].addr] == HeaderOf(h, i)
    ensures i + 1 < |h| ==> h[i + 1].addr != 0
  {
    AddressesApart(h, i);
    if i + 1 < |h| { AddressesApart(h, i + 1); }
  }

  lemma FirstFitIs(h: seq<Block>, size: nat, i: nat)
    requires i <= |h| && (i < |h| ==> h[i].free && h[i].size >= size)
    requires forall j :: 0 <= j < i ==> !(h[j].free && h[j].size >= size)
    ensures FirstFit(h, size) == i
  {
  }

  lemma SetFreeLast(h: seq<Block>, addr: nat, size: nat)
    ensures SetFree(h + [Block(addr, size, true)], |h|, false) == h + [Block(addr, size, false)]
    ensures |SetFree(h + [Block(addr, size, true)], |h|, false)| == |h| + 1
  {
  }

  lemma FreeIsOneBlock(headers: map<nat, Header>, h: seq<Block>, i: nat)
    requires InMemory(headers, h) && i < |h|
    ensures Free(h, h[i].Payload()) == SetFree(h, i, true)
  {
    AddressesApart(h, i);
  }
}
