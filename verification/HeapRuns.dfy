/**
 Which blocks of the kernel heap are in use, over whole runs (hal.x86/heap.c,
 hal.x86/multitasking.c:22-124, hal.x86/multitasking.c:199-237, hal.x86/message.c:133-200): the
 stacks and records of the live processes and the messages in their boxes, each one block of
 its own that is large enough; what was in use before; and the messages that nobody took from
 a process that ended.
 */
module HeapRuns {
  import opened Machine
  import opened Frames
  import opened Paging
  import opened Ownership
  import opened Translation
  import opened Boot
  import opened Access
  import opened Elf
  import opened Images
  import Scheduling
  import opened Kernel
  import opened KernelRuns
  import opened Calls
  import Messages
  import Spaces = AddressSpaceRuns
  import Heap

  // ----- who has which block

  function BlockSet(b: Blocks): set<nat> {
    {b.stack, b.record} + if b.userStack.Some? then {b.userStack.value} else {}
  }

  // The blocks of all live processes and of all queued messages.
  function Held(nodes: map<nat, seq<nat>>, blocks: map<nat, Blocks>): set<nat> {
    (set pid, a | pid in nodes && a in nodes[pid] :: a) + (set pid, a | pid in blocks && a in BlockSet(blocks[pid]) :: a)
  }

  // No block is held twice.
  ghost predicate HeldOnce(nodes: map<nat, seq<nat>>, blocks: map<nat, Blocks>) {
    && (forall p <- nodes :: Distinct(nodes[p]))
    && (forall p <- nodes :: forall q <- nodes :: p != q ==> forall a <- nodes[p] :: a !in nodes[q])
    && (forall p <- nodes :: forall q <- blocks :: forall a <- nodes[p] :: a !in BlockSet(blocks[q]))
    && (forall p <- blocks :: forall q <- blocks :: p != q ==> BlockSet(blocks[p]) !! BlockSet(blocks[q]))
    && (forall p <- blocks :: ThreeBlocksOf(blocks[p]))
  }

  predicate ThreeBlocksOf(b: Blocks) {
    b.stack != b.record && (b.userStack.Some? ==> b.userStack.value != b.stack && b.userStack.value != b.record)
  }

  // The block at this address has room for n bytes.
  ghost predicate Sized(h: seq<Heap.Block>, a: nat, n: nat) {
    exists i :: 0 <= i < |h| && h[i].Payload() == a && h[i].size >= n
  }

  ghost predicate BlocksSized(h: seq<Heap.Block>, b: Blocks) {
    Sized(h, b.stack, STACK_SIZE) && Sized(h, b.record, PROCESS_SIZE) && (b.userStack.Some? ==> Sized(h, b.userStack.value, STACK_SIZE))
  }

  ghost predicate AllSized(h: seq<Heap.Block>, nodes: map<nat, seq<nat>>, blocks: map<nat, Blocks>) {
    && (forall p <- nodes :: forall a <- nodes[p] :: Sized(h, a, NODE_SIZE))
    && (forall p <- blocks :: BlocksSized(h, blocks[p]))
  }

  // The blocks in use are the held ones and the others.
  ghost predicate Ledger(h: seq<Heap.Block>, nodes: map<nat, seq<nat>>, blocks: map<nat, Blocks>, others: set<nat>) {
    Live(h) == Held(nodes, blocks) + others && Held(nodes, blocks) !! others && HeldOnce(nodes, blocks) && AllSized(h, nodes, blocks)
  }

  // ----- the heap

  lemma MallocLive(h: seq<Heap.Block>, size: nat)
    requires Heap.Tiled(h) && Heap.Malloc(h, size).Some? && Heap.Tiled(Heap.Malloc(h, size).value.0)
    ensures var (h1, a) := Heap.Malloc(h, size).value;
            Live(h1) == Live(h) + {a} && a !in Live(h) && Sized(h1, a, size) && Heap.Grown(h, h1)
  {
    var (h1, a) := Heap.Malloc(h, size).value;
    var i := Heap.FirstFit(h, size);
    assert h1[i].Payload() == a && !h1[i].free && h1[i].size >= size;
    forall j | 0 <= j < |h1| && j != i ensures h1[j].Payload() != a { Heap.BlocksAreDisjoint(h1, i, j); }
    assert forall j :: 0 <= j < |h| && j != i ==> h1[j] == h[j];
    hide Heap.Tiled, Heap.FirstFit, Heap.Malloc;
    forall x ensures x in Live(h1) <==> x in Live(h) || x == a {
      if x in Live(h) { var j :| 0 <= j < |h| && !h[j].free && h[j].Payload() == x; assert j != i ==> h1[j].Payload() == x && !h1[j].free; }
      if x in Live(h1) { var j :| 0 <= j < |h1| && !h1[j].free && h1[j].Payload() == x; assert j != i ==> j < |h| && h[j] == h1[j]; }
    }
    forall j | 0 <= j < |h| && !h[j].free ensures h[j].Payload() != a { assert h1[j].Payload() == h[j].Payload(); }
  }

  lemma FreeLive(h: seq<Heap.Block>, a: nat)
    ensures Live(Heap.Free(h, a)) == Live(h) - {a} && Heap.Grown(h, Heap.Free(h, a))
  {
    var r := Heap.Free(h, a);
    forall x ensures x in Live(r) <==> x in Live(h) && x != a {
      if x in Live(h) && x != a { var j :| 0 <= j < |h| && !h[j].free && h[j].Payload() == x; assert r[j] == h[j]; }
      if x in Live(r) { var j :| 0 <= j < |r| && !r[j].free && r[j].Payload() == x; assert h[j].Payload() == x; }
    }
  }

  lemma GrownSized(h: seq<Heap.Block>, h': seq<Heap.Block>, a: nat, n: nat)
    requires Heap.Grown(h, h') && Sized(h, a, n)
    ensures Sized(h', a, n)
  {
    var i :| 0 <= i < |h| && h[i].Payload() == a && h[i].size >= n;
    assert h'[i].Payload() == a && h'[i].size >= n;
  }

  lemma GrownAllSized(h: seq<Heap.Block>, h': seq<Heap.Block>, nodes: map<nat, seq<nat>>, blocks: map<nat, Blocks>)
    requires Heap.Grown(h, h') && AllSized(h, nodes, blocks)
    ensures AllSized(h', nodes, blocks)
  {
    hide Sized, Heap.Grown;
    forall p, a | p in nodes && a in nodes[p] ensures Sized(h', a, NODE_SIZE) { GrownSized(h, h', a, NODE_SIZE); }
    forall p | p in blocks ensures BlocksSized(h', blocks[p]) { GrownBlocksSized(h, h', blocks[p]); }
  }

  lemma GrownBlocksSized(h: seq<Heap.Block>, h': seq<Heap.Block>, b: Blocks)
    requires Heap.Grown(h, h') && BlocksSized(h, b)
    ensures BlocksSized(h', b)
  {
    hide Sized, Heap.Grown;
    GrownSized(h, h', b.stack, STACK_SIZE);
    GrownSized(h, h', b.record, PROCESS_SIZE);
    if b.userStack.Some? { GrownSized(h, h', b.userStack.value, STACK_SIZE); }
  }

  // Two blocks at different addresses do not overlap, so that two stacks never do.
  lemma RangesApart(h: seq<Heap.Block>, a: nat, n: nat, b: nat, k: nat)
    requires Heap.Tiled(h) && Sized(h, a, n) && Sized(h, b, k) && a != b
    ensures a + n <= b || b + k <= a
  {
    hide Heap.Tiled;
    var i :| 0 <= i < |h| && h[i].Payload() == a && h[i].size >= n;
    var j :| 0 <= j < |h| && h[j].Payload() == b && h[j].size >= k;
    Heap.BlocksAreDisjoint(h, i, j);
  }

  // The loader's buffers come and go.
  lemma {:induction false} LoadKeepsLive(s: Loaded, active: nat, c: nat, image: seq<byte>, addr: nat, n: nat)
    requires |s.ram| == |image| == WORD && Heap.Holds(s.heap) && StaysInHeap(s.heap, image, addr, n) && LoadAll(s, active, c, image, addr, n).Some?
    ensures var s' := LoadAll(s, active, c, image, addr, n).value; Live(s'.heap) == Live(s.heap) && Heap.Grown(s.heap, s'.heap) && Heap.Holds(s'.heap)
  {
    hide LoadOne, ProgramAt, Heap.Holds, Live, Heap.Malloc, Heap.Free, Heap.IsPayload, BufferFits, StaysInHeap;
    if n > 0 {
      StaysLess(s.heap, image, addr, n);
      LoadKeepsLive(s, active, c, image, addr, n - 1);
      var s1, p := LoadAll(s, active, c, image, addr, n - 1).value, ProgramAt(image, addr, n - 1);
      StagedIs(s, active, c, image, addr, n);
      EndsThere(s.heap, image, addr, n);
      BufferStaysInHeap(s1, active, c, image, addr, p);
      if Loadable(p, addr) {
        LoadParts(s1, active, c, image, addr, p);
        BufferLive(s1.heap, p.fsize);
      } else {
        Skipped(s1, active, c, image, addr, p);
      }
    }
  }

  lemma StaysLess(h: seq<Heap.Block>, image: seq<byte>, addr: nat, n: nat)
    requires |image| == WORD && n > 0 && StaysInHeap(h, image, addr, n)
    ensures StaysInHeap(h, image, addr, n - 1)
  {
    hide Staged;
  }

  lemma EndsThere(h: seq<Heap.Block>, image: seq<byte>, addr: nat, n: nat)
    requires |image| == WORD && StaysInHeap(h, image, addr, n) && Staged(h, image, addr, n).Some?
    ensures Heap.EndOf(Staged(h, image, addr, n).value) <= Heap.END
  {
    hide Staged;
  }

  lemma BufferLive(h: seq<Heap.Block>, size: u32)
    requires Heap.Holds(h) && Heap.Malloc(h, size).Some?
    requires var (h1, buf) := Heap.Malloc(h, size).value; Heap.Holds(Heap.Free(h1, buf))
    ensures var (h1, buf) := Heap.Malloc(h, size).value; Live(Heap.Free(h1, buf)) == Live(h) && Heap.Grown(h, Heap.Free(h1, buf))
  {
    var (h1, buf) := Heap.Malloc(h, size).value;
    hide Heap.Malloc, Live, Heap.FirstFit;
    FreeKeepsEnd(h1, buf);
    Heap.MallocHoldsExactly(h, size);
    MallocLive(h, size);
    FreeLive(h1, buf);
  }

  // ----- one step

  lemma SendLedger(h: seq<Heap.Block>, nodes: map<nat, seq<nat>>, blocks: map<nat, Blocks>, others: set<nat>, to: nat)
    requires Heap.Tiled(h) && Ledger(h, nodes, blocks, others) && to in nodes
    requires Heap.Malloc(h, NODE_SIZE).Some? && Heap.Tiled(Heap.Malloc(h, NODE_SIZE).value.0)
    ensures var (h1, node) := Heap.Malloc(h, NODE_SIZE).value; Ledger(h1, nodes[to := nodes[to] + [node]], blocks, others)
  {
    hide Heap.Malloc, Heap.Tiled, Live, Sized, BlockSet, Heap.Grown, ThreeBlocksOf;
    MallocLive(h, NODE_SIZE);
    var (h1, node) := Heap.Malloc(h, NODE_SIZE).value;
    var nodes' := nodes[to := nodes[to] + [node]];
    GrownAllSized(h, h1, nodes, blocks);
    NewIsNotHeld(h, nodes, blocks, others, node);
    assert Held(nodes', blocks) == Held(nodes, blocks) + {node} by { HeldWithNode(nodes, blocks, to, node); }
    DistinctWith(nodes[to], node);
  }

  lemma HeldWithNode(nodes: map<nat, seq<nat>>, blocks: map<nat, Blocks>, to: nat, node: nat)
    requires to in nodes
    ensures Held(nodes[to := nodes[to] + [node]], blocks) == Held(nodes, blocks) + {node}
  {
    hide BlockSet;
    var nodes' := nodes[to := nodes[to] + [node]];
    assert node in nodes'[to];
    forall p, a | p in nodes && a in nodes[p] ensures p in nodes' && a in nodes'[p] {}
  }

  lemma NewIsNotHeld(h: seq<Heap.Block>, nodes: map<nat, seq<nat>>, blocks: map<nat, Blocks>, others: set<nat>, a: nat)
    requires Ledger(h, nodes, blocks, others) && a !in Live(h)
    ensures (forall p <- nodes :: a !in nodes[p]) && (forall p <- blocks :: a !in BlockSet(blocks[p])) && a !in others
  {
    hide Live, BlockSet, AllSized, HeldOnce;
    assert a !in Held(nodes, blocks);
  }

  lemma DistinctWith(s: seq<nat>, a: nat)
    requires Distinct(s) && a !in s
    ensures Distinct(s + [a])
  {
  }

  lemma ReceiveLedger(h: seq<Heap.Block>, nodes: map<nat, seq<nat>>, blocks: map<nat, Blocks>, others: set<nat>, pid: nat, i: nat)
    requires Ledger(h, nodes, blocks, others) && pid in nodes && i < |nodes[pid]|
    ensures Ledger(Heap.Free(h, nodes[pid][i]), nodes[pid := Messages.Without(nodes[pid], i)], blocks, others)
  {
    hide Heap.Free, Live, Heap.Grown, Held, HeldOnce, AllSized, Messages.Without;
    var a := nodes[pid][i];
    FreeLive(h, a);
    GrownAllSized(h, Heap.Free(h, a), nodes, blocks);
    HeldWithoutNode(nodes, blocks, pid, i);
    FewerNodes(Heap.Free(h, a), nodes, blocks, pid, i);
  }

  lemma FewerNodes(h: seq<Heap.Block>, nodes: map<nat, seq<nat>>, blocks: map<nat, Blocks>, pid: nat, i: nat)
    requires HeldOnce(nodes, blocks) && AllSized(h, nodes, blocks) && pid in nodes && i < |nodes[pid]|
    ensures var nodes' := nodes[pid := Messages.Without(nodes[pid], i)]; HeldOnce(nodes', blocks) && AllSized(h, nodes', blocks)
  {
    hide Sized, BlockSet, ThreeBlocksOf, Distinct, Messages.Without;
    WithoutOne(nodes[pid], i);
  }

  lemma WithoutOne(s: seq<nat>, i: nat)
    requires Distinct(s) && i < |s|
    ensures var r := Messages.Without(s, i); Distinct(r) && forall a :: a in r <==> a in s && a != s[i]
  {
    var r := Messages.Without(s, i);
    forall a ensures a in r <==> a in s && a != s[i] {
      if a in s && a != s[i] { var j :| 0 <= j < |s| && s[j] == a; assert r[if j < i then j else j - 1] == a; }
      if a in r { var j :| 0 <= j < |r| && r[j] == a; assert s[if j < i then j else j + 1] == a; }
    }
    forall x, y | 0 <= x < y < |r| ensures r[x] != r[y] {
      assert r[x] == s[if x < i then x else x + 1] && r[y] == s[if y < i then y else y + 1];
    }
  }

  lemma HeldWithoutNode(nodes: map<nat, seq<nat>>, blocks: map<nat, Blocks>, pid: nat, i: nat)
    requires HeldOnce(nodes, blocks) && pid in nodes && i < |nodes[pid]|
    ensures Held(nodes[pid := Messages.Without(nodes[pid], i)], blocks) == Held(nodes, blocks) - {nodes[pid][i]}
    ensures nodes[pid][i] in Held(nodes, blocks)
  {
    hide BlockSet, Messages.Without, ThreeBlocksOf, Distinct;
    WithoutOne(nodes[pid], i);
    var a, nodes' := nodes[pid][i], nodes[pid := Messages.Without(nodes[pid], i)];
    assert a in nodes[pid];
    forall p, x | p in nodes && x in nodes[p] && x != a ensures p in nodes' && x in nodes'[p] {}
  }

  // What is left behind of a process that ends: the messages in its box.
  lemma ExitLedger(h: seq<Heap.Block>, nodes: map<nat, seq<nat>>, blocks: map<nat, Blocks>, others: set<nat>, pid: nat)
    requires Ledger(h, nodes, blocks, others) && pid in nodes && pid in blocks && blocks[pid].userStack.Some?
    ensures var b := blocks[pid]; var h' := FreeBlocks(h, b.stack, b.userStack.value, b.record);
            && Ledger(h', nodes - {pid}, blocks - {pid}, others + set a | a in nodes[pid])
            && Live(h') == Live(h) - BlockSet(b)
  {
    hide FreeBlocks, Live, Sized, Heap.Grown, Distinct, BlockSet, HeldOnce;
    var b := blocks[pid];
    var h' := FreeBlocks(h, b.stack, b.userStack.value, b.record);
    BlocksFreedLive(h, b);
    GrownAllSized(h, h', nodes, blocks);
    HeldWithoutPid(nodes, blocks, pid);
  }

  lemma BlocksFreedLive(h: seq<Heap.Block>, b: Blocks)
    requires b.userStack.Some?
    ensures var h' := FreeBlocks(h, b.stack, b.userStack.value, b.record); Live(h') == Live(h) - BlockSet(b) && Heap.Grown(h, h')
  {
    hide Heap.Free, Live;
    FreeLive(h, b.stack);
    FreeLive(Heap.Free(h, b.stack), b.userStack.value);
    FreeLive(Heap.Free(Heap.Free(h, b.stack), b.userStack.value), b.record);
  }

  lemma HeldWithoutPid(nodes: map<nat, seq<nat>>, blocks: map<nat, Blocks>, pid: nat)
    requires HeldOnce(nodes, blocks) && pid in nodes && pid in blocks
    ensures HeldOnce(nodes - {pid}, blocks - {pid})
    ensures Held(nodes - {pid}, blocks - {pid}) == Held(nodes, blocks) - (set a | a in nodes[pid]) - BlockSet(blocks[pid])
    ensures (set a | a in nodes[pid]) <= Held(nodes, blocks) && BlockSet(blocks[pid]) <= Held(nodes, blocks)
    ensures (set a | a in nodes[pid]) !! BlockSet(blocks[pid])
  {
    hide BlockSet, ThreeBlocksOf, Distinct;
    var nodes', blocks' := nodes - {pid}, blocks - {pid};
    forall x ensures x in Held(nodes', blocks') <==> x in Held(nodes, blocks) && x !in nodes[pid] && x !in BlockSet(blocks[pid]) {
      if x in Held(nodes, blocks) && x !in nodes[pid] && x !in BlockSet(blocks[pid]) {
        if p :| p in nodes && x in nodes[p] { assert p in nodes' && x in nodes'[p]; }
        else { var q :| q in blocks && x in BlockSet(blocks[q]); assert q in blocks' && x in BlockSet(blocks'[q]); }
      }
    }
  }

  // The blocks of a new process are three more.
  lemma HousedLedger(h: seq<Heap.Block>, user: bool, nodes: map<nat, seq<nat>>, blocks: map<nat, Blocks>, others: set<nat>, pid: nat)
    requires HeapOk(h, nodes, blocks) && Housed(h, user).Some? && Heap.EndOf(Housed(h, user).value.0) <= Heap.END
    requires Ledger(h, nodes, blocks, others) && pid !in nodes && pid !in blocks
    ensures var (h', b) := Housed(h, user).value;
            && Live(h') == Live(h) + BlockSet(b) && Live(h) !! BlockSet(b) && ThreeBlocksOf(b) && b.userStack.Some? == user
            && Ledger(h', nodes[pid := []], blocks[pid := b], others)
  {
    hide Heap.Malloc, Live, Sized, HeapOk, Ledger, Heap.Grown, WithRecord, Heap.EndOf, BlockSet;
    var (h', b) := Housed(h, user).value;
    HousedLive(h, user, nodes, blocks);
    LedgerWithPid(h, h', nodes, blocks, others, pid, b);
  }

  lemma LedgerWithPid(h: seq<Heap.Block>, h': seq<Heap.Block>, nodes: map<nat, seq<nat>>, blocks: map<nat, Blocks>, others: set<nat>, pid: nat, b: Blocks)
    requires Ledger(h, nodes, blocks, others) && pid !in nodes && pid !in blocks
    requires Live(h') == Live(h) + BlockSet(b) && Live(h) !! BlockSet(b) && ThreeBlocksOf(b) && Heap.Grown(h, h') && BlocksSized(h', b)
    ensures Ledger(h', nodes[pid := []], blocks[pid := b], others)
  {
    hide Live, Sized, BlockSet, Heap.Grown, ThreeBlocksOf, BlocksSized, Distinct;
    var nodes', blocks' := nodes[pid := []], blocks[pid := b];
    GrownAllSized(h, h', nodes, blocks);
    assert Distinct([]) by { NothingTwice(); }
    forall a <- BlockSet(b) ensures (forall p <- nodes :: a !in nodes[p]) && (forall p <- blocks :: a !in BlockSet(blocks[p])) && a !in others {
      NewIsNotHeld(h, nodes, blocks, others, a);
    }
    HeldWithPid(nodes, blocks, pid, b);
  }

  lemma NothingTwice()
    ensures Distinct([])
  {
  }

  lemma HeldWithPid(nodes: map<nat, seq<nat>>, blocks: map<nat, Blocks>, pid: nat, b: Blocks)
    requires pid !in nodes && pid !in blocks
    ensures Held(nodes[pid := []], blocks[pid := b]) == Held(nodes, blocks) + BlockSet(b)
  {
    hide BlockSet;
    var nodes', blocks' := nodes[pid := []], blocks[pid := b];
    forall x ensures x in Held(nodes', blocks') <==> x in Held(nodes, blocks) || x in BlockSet(b) {
      if x in BlockSet(b) { assert pid in blocks' && x in BlockSet(blocks'[pid]); }
      if x in Held(nodes, blocks) {
        if p :| p in nodes && x in nodes[p] { assert p in nodes' && x in nodes'[p]; }
        else { var q :| q in blocks && x in BlockSet(blocks[q]); assert q in blocks' && x in BlockSet(blocks'[q]); }
      }
    }
  }

  lemma HousedLive(h: seq<Heap.Block>, user: bool, nodes: map<nat, seq<nat>>, blocks: map<nat, Blocks>)
    requires HeapOk(h, nodes, blocks) && Housed(h, user).Some? && Heap.EndOf(Housed(h, user).value.0) <= Heap.END
    ensures var (h', b) := Housed(h, user).value;
            && Live(h') == Live(h) + BlockSet(b) && Live(h) !! BlockSet(b) && ThreeBlocksOf(b) && b.userStack.Some? == user
            && Heap.Grown(h, h') && BlocksSized(h', b)
  {
    hide Heap.Malloc, Live, Sized, HeapOk, WithRecord, Heap.IsPayload, Heap.EndOf;
    HeapEnds(h, nodes, blocks);
    var (h1, stack) := Heap.Malloc(h, STACK_SIZE).value;
    Heap.EndMovesOn(h, STACK_SIZE);
    if user {
      var (h2, userStack) := Heap.Malloc(h1, STACK_SIZE).value;
      Heap.EndMovesOn(h1, STACK_SIZE);
      RecordOk(h2, stack, Some(userStack));
      MallocKeepsOk(h, STACK_SIZE, nodes, blocks);
      MallocKeepsOk(h1, STACK_SIZE, nodes, blocks);
      MallocKeepsOk(h2, PROCESS_SIZE, nodes, blocks);
      OkIsTiled(h, nodes, blocks);
      OkIsTiled(h1, nodes, blocks);
      OkIsTiled(h2, nodes, blocks);
      var (h3, record) := Heap.Malloc(h2, PROCESS_SIZE).value;
      OkIsTiled(h3, nodes, blocks);
      MallocLive(h, STACK_SIZE);
      MallocLive(h1, STACK_SIZE);
      MallocLive(h2, PROCESS_SIZE);
      GrownSized(h1, h2, stack, STACK_SIZE);
      GrownSized(h2, h3, stack, STACK_SIZE);
      GrownSized(h2, h3, userStack, STACK_SIZE);
    } else {
      RecordOk(h1, stack, None);
      MallocKeepsOk(h, STACK_SIZE, nodes, blocks);
      MallocKeepsOk(h1, PROCESS_SIZE, nodes, blocks);
      OkIsTiled(h, nodes, blocks);
      OkIsTiled(h1, nodes, blocks);
      var (h2, record) := Heap.Malloc(h1, PROCESS_SIZE).value;
      OkIsTiled(h2, nodes, blocks);
      MallocLive(h, STACK_SIZE);
      MallocLive(h1, PROCESS_SIZE);
      GrownSized(h1, h2, stack, STACK_SIZE);
    }
  }

  lemma OkIsTiled(h: seq<Heap.Block>, nodes: map<nat, seq<nat>>, blocks: map<nat, Blocks>)
    requires HeapOk(h, nodes, blocks)
    ensures Heap.Tiled(h)
  {
    hide Heap.Tiled, Heap.IsPayload;
  }

  // ----- every step of the kernel

  ghost predicate Accounts(s: State, others: set<nat>) {
    Ledger(s.loaded.heap, s.nodes, s.blocks, others)
  }

  // The current process ends with this action.
  predicate Ends(s: State, e: Action)
    requires Shape(s)
  {
    e.Do? && s.sched.current.Some? && (e.call.Exit? || (e.call.Store? && Phys(s.loaded.m, Current(s).context, e.call.va) == None))
  }

  // The blocks that nobody frees any more: the messages that it did not receive.
  function LeftBehind(s: State, e: Action): set<nat>
    requires Shape(s)
  {
    if Ends(s, e) && Current(s).pid in s.nodes then set a | a in s.nodes[Current(s).pid] else {}
  }

  lemma SameLedger(s: State, s': State, others: set<nat>)
    requires Accounts(s, others) && s'.loaded.heap == s.loaded.heap && s'.nodes == s.nodes && s'.blocks == s.blocks
    ensures Accounts(s', others + {})
  {
    hide Ledger;
    assert others + {} == others;
  }

  lemma SendAccounts(s: State, buffer: u32, owner: map<nat, Role>, reserved: set<nat>, others: set<nat>)
    requires Inv(s, owner, reserved) && s.sched.current.Some? && Sent(s, buffer).Some? && Heap.HasRoom(s.loaded.heap, NODE_SIZE) && Accounts(s, others)
    ensures Accounts(Sent(s, buffer).value, others + {})
  {
    hide Spaces.Inv, OwnContexts, ByPid, NodesOk, Sent, Outgoing, Heap.Malloc, Ledger, Write, ReadBytes, Messages.Decode, Heap.Holds, Heap.IsPayload, Live;
    SendParts(s, buffer);
    if Outgoing(s, buffer).value.Some? {
      var to := Outgoing(s, buffer).value.value.0;
      Heap.MallocHoldsExactly(s.loaded.heap, NODE_SIZE);
      HoldsTiled(s.loaded.heap);
      HoldsTiled(Heap.Malloc(s.loaded.heap, NODE_SIZE).value.0);
      SendLedger(s.loaded.heap, s.nodes, s.blocks, others, to);
      assert others + {} == others;
    } else {
      SameLedger(s, s, others);
    }
  }

  lemma HoldsTiled(h: seq<Heap.Block>)
    requires Heap.Holds(h)
    ensures Heap.Tiled(h)
  {
  }

  lemma ReceiveAccounts(s: State, buffer: u32, who: u32, others: set<nat>)
    requires Shape(s) && s.sched.current.Some? && Received(s, buffer, who).Some? && Accounts(s, others)
    ensures Accounts(Received(s, buffer, who).value, others + {})
  {
    hide Received, Incoming, Ledger, Write, Messages.Encode, Messages.Find, Heap.Free;
    ReceiveParts(s, buffer, who);
    if Incoming(s, buffer, who).Some? {
      ReceiveLedger(s.loaded.heap, s.nodes, s.blocks, others, Current(s).pid, Incoming(s, buffer, who).value);
      assert others + {} == others;
    } else {
      SameLedger(s, s, others);
    }
  }

  // An exit gives back exactly the three blocks of the process.
  lemma ExitAccounts(s: State, owner: map<nat, Role>, reserved: set<nat>, others: set<nat>)
    requires Inv(s, owner, reserved) && s.sched.current.Some? && Killed(s).Some? && Accounts(s, others)
    ensures Current(s).pid in s.nodes && Current(s).pid in s.blocks
    ensures Accounts(Killed(s).value, others + set a | a in s.nodes[Current(s).pid])
    ensures Live(Killed(s).value.loaded.heap) == Live(s.loaded.heap) - BlockSet(s.blocks[Current(s).pid])
  {
    hide Spaces.Inv, OwnContexts, ByPid, NodesOk, HeapOk, Killed, Ledger, FreeBlocks, Scheduling.Step, Paging.Destroy, Live, BlockSet;
    CurrentIsLive(s, owner, reserved);
    ExitParts(s);
    ExitLedger(s.loaded.heap, s.nodes, s.blocks, others, Current(s).pid);
  }

  lemma NewPid(s: State, owner: map<nat, Role>, reserved: set<nat>)
    requires Inv(s, owner, reserved)
    ensures s.sched.numProc !in s.nodes && s.sched.numProc !in s.blocks
  {
    hide Spaces.Inv, OwnContexts, HeapOk;
  }

  // Loading takes and gives back.
  lemma ProgramLedger(s: State, addr: u32, owner: map<nat, Role>, reserved: set<nat>, others: set<nat>)
    requires Inv(s, owner, reserved) && s.sched.current.Some? && NewProgram(s, addr).Some? && GoodImage(s, addr) && Accounts(s, others)
    ensures var l := NewProgram(s, addr).value.0; Ledger(l.heap, s.nodes, s.blocks, others) && Live(l.heap) == Live(s.loaded.heap)
  {
    hide Spaces.Inv, OwnContexts, ByPid, NodesOk, HeapOk, CreateUser, Parse, LoadAll, FindsImage, GoodImage, SeenBy, Count, Entry, HeapStaysShort, Live, Held,
      HeldOnce, AllSized, Heap.Grown, StaysInHeap, ShownImage, AllFit, Staged, HouseFits, Heap.Holds;
    var (m1, c) := CreateUser(s.loaded.m, s.k).value;
    var _ := ProgramIs(s, addr, owner, reserved);
    if FindsImage(s, addr) {
      var image := SeenBy(s);
      GoodImageHas(s, addr);
      HeapHolds(s);
      LoadKeepsLive(s.loaded.(m := m1), Current(s).context, c, image, addr, Count(image, addr));
      GrownAllSized(s.loaded.heap, NewProgram(s, addr).value.0.heap, s.nodes, s.blocks);
    }
  }

  // A launch takes exactly three blocks that nobody had.
  lemma LaunchAccounts(s: State, addr: u32, owner: map<nat, Role>, reserved: set<nat>, others: set<nat>)
    requires Inv(s, owner, reserved) && s.sched.current.Some? && Launched(s, addr).Some? && GoodImage(s, addr) && Accounts(s, others)
    ensures NewProgram(s, addr).Some?
    ensures var s', pid := Launched(s, addr).value, s.sched.numProc;
            && Accounts(s', others + {})
            && if NewProgram(s, addr).value.2 == 0 then Live(s'.loaded.heap) == Live(s.loaded.heap)
               else pid in s'.blocks && Live(s'.loaded.heap) == Live(s.loaded.heap) + BlockSet(s'.blocks[pid])
                    && Live(s.loaded.heap) !! BlockSet(s'.blocks[pid]) && ThreeBlocksOf(s'.blocks[pid]) && s'.blocks[pid].userStack.Some?
  {
    hide Spaces.Inv, OwnContexts, ByPid, NodesOk, HeapOk, NewProgram, Launched, Housed, Hosted, GoodImage, Ledger, Live, BlockSet, ThreeBlocksOf,
      Scheduling.Created, HouseFits, SeenBy, Count, AllApart, AllContent, SameDirectory, Frames.Ledger, UserPage, KeepsByte, Heap.EndOf;
    LaunchParts(s, addr);
    var (l, c, entry) := NewProgram(s, addr).value;
    ProgramLedger(s, addr, owner, reserved, others);
    assert others + {} == others;
    if entry != 0 {
      var _ := ProgramStep(s, addr, owner, reserved);
      var (heap, b) := Housed(l.heap, true).value;
      NewPid(s, owner, reserved);
      HouseEnds(l.heap);
      HousedLedger(l.heap, true, s.nodes, s.blocks, others, s.sched.numProc);
      HostedParts(s.(loaded := l, breaks := s.breaks[c := 0]), heap, b, c, entry);
    }
  }

  lemma HouseEnds(h: seq<Heap.Block>)
    requires HouseFits(h) && Housed(h, true).Some?
    ensures Heap.EndOf(Housed(h, true).value.0) <= Heap.END
  {
  }

  lemma StepAccounts(s: State, e: Action, owner: map<nat, Role>, reserved: set<nat>, others: set<nat>)
    requires Inv(s, owner, reserved) && Proper(s, e) && Step(s, e).Some? && Accounts(s, others)
    ensures Accounts(Step(s, e).value, others + LeftBehind(s, e))
  {
    hide Inv, Ledger, Scheduling.Step, Launched, Killed, Sent, Received, GoodImage, Phys, Own, OwnBuffer, Spaces.Step, Spaces.OnUserPages;
    InvShape(s, owner, reserved);
    match e
    case Timer(cpu) => SameLedger(s, Step(s, e).value, others);
    case Do(call) =>
      match call
      case Exit => ExitAccounts(s, owner, reserved, others);
      case Send(buffer) => SendAccounts(s, buffer, owner, reserved, others);
      case Receive(buffer, who) => ReceiveAccounts(s, buffer, who, others);
      case Sbrk(request) => SameLedger(s, Step(s, e).value, others);
      case SetTimer(cpu, ms) => SameLedger(s, Step(s, e).value, others);
      case Launch(addr) => LaunchAccounts(s, addr, owner, reserved, others);
      case Store(va, b) =>
        if Phys(s.loaded.m, Current(s).context, va) == None {
          ExitAccounts(s, owner, reserved, others);
        } else {
          SameLedger(s, Step(s, e).value, others);
        }
  }

  // ----- every run

  function LeftOn(s: State, actions: seq<Action>): set<nat>
    requires Shape(s)
  {
    if actions == [] then {}
    else
      match Run(s, actions[..|actions| - 1])
      case None => {}
      case Some(s1) => LeftOn(s, actions[..|actions| - 1]) + LeftBehind(s1, actions[|actions| - 1])
  }

  lemma {:induction false} RunAccounts(s: State, actions: seq<Action>, owner: map<nat, Role>, reserved: set<nat>, others: set<nat>)
    requires Inv(s, owner, reserved) && ProperRun(s, actions) && Run(s, actions).Some? && Accounts(s, others)
    ensures Accounts(Run(s, actions).value, others + LeftOn(s, actions))
  {
    hide Inv, Ledger, Step, Proper, ProperRun, LeftBehind, SameDirectory, Frames.Ledger, Accounts;
    InvShape(s, owner, reserved);
    if actions == [] {
      assert others + {} == others;
    } else {
      FewerProper(s, actions);
      var init, e := actions[..|actions| - 1], actions[|actions| - 1];
      var s1 := Run(s, init).value;
      RunAccounts(s, init, owner, reserved, others);
      var owner1 := RunKeeps(s, init, owner, reserved);
      StepAccounts(s1, e, owner1, reserved, others + LeftOn(s, init));
      assert others + LeftOn(s, init) + LeftBehind(s1, e) == others + LeftOn(s, actions);
    }
  }

  lemma BootedAccounts(m: Mem, ram: Bytes, heap: seq<Heap.Block>, ticks: u32, entries: (u32, u32, u32))
    requires Heap.Holds(heap) && Booted(m, ram, heap, ticks, entries).Some? && EndsInHeap(Booted(m, ram, heap, ticks, entries))
    ensures Accounts(Booted(m, ram, heap, ticks, entries).value, Live(heap))
  {
    hide InitVmm, ThreeContexts, Housed, Heap.EndOf, HeapOk, Heap.Holds, Ledger, Live;
    var (h0, b0) := Housed(heap, false).value;
    var (h1, b1) := Housed(h0, false).value;
    var (h2, b2) := Housed(h1, false).value;
    NothingYet(heap);
    HousedMovesOn(heap, false);
    HousedMovesOn(h0, false);
    HousedMovesOn(h1, false);
    NothingHeld(heap);
    HousedLedger(heap, false, map[], map[], Live(heap), 0);
    BoxOk(heap, false, map[], map[], 0);
    HousedLedger(h0, false, map[0 := []], map[0 := b0], Live(heap), 1);
    BoxOk(h0, false, map[0 := []], map[0 := b0], 1);
    HousedLedger(h1, false, map[0 := []][1 := []], map[0 := b0][1 := b1], Live(heap), 2);
  }

  lemma BoxOk(h: seq<Heap.Block>, user: bool, nodes: map<nat, seq<nat>>, blocks: map<nat, Blocks>, pid: nat)
    requires HeapOk(h, nodes, blocks) && Housed(h, user).Some? && Heap.EndOf(Housed(h, user).value.0) <= Heap.END
    ensures var (h', b) := Housed(h, user).value; HeapOk(h', nodes[pid := []], blocks[pid := b])
  {
    hide HeapOk, Housed, Heap.EndOf;
    HousedOk(h, user, nodes, blocks, pid);
    NewBoxOk(Housed(h, user).value.0, nodes, blocks[pid := Housed(h, user).value.1], pid);
  }

  lemma NothingHeld(h: seq<Heap.Block>)
    ensures Ledger(h, map[], map[], Live(h))
  {
    hide Live;
    assert Held(map[], map[]) == {};
  }

  // On every run from boot the blocks in use are exactly those of the live processes and of
  // the messages in their boxes, each held once and large enough; those in use before; and the
  // messages left behind by processes that ended. Stacks of different processes, and the two
  // stacks of one, never overlap.
  lemma HeapOnEveryRun(m: Mem, ram: Bytes, heap: seq<Heap.Block>, ticks: u32, entries: (u32, u32, u32), actions: seq<Action>)
    requires WellFormed(m) && Heap.Holds(heap) && Booted(m, ram, heap, ticks, entries).Some? && EndsInHeap(Booted(m, ram, heap, ticks, entries))
    requires var s := Booted(m, ram, heap, ticks, entries).value; ProperRun(s, actions) && Run(s, actions).Some?
    ensures var s := Booted(m, ram, heap, ticks, entries).value; var s' := Run(s, actions).value;
            var held, others := Held(s'.nodes, s'.blocks), Live(heap) + LeftOn(s, actions);
            && Live(s'.loaded.heap) == held + others && held !! others
            && HeldOnce(s'.nodes, s'.blocks) && AllSized(s'.loaded.heap, s'.nodes, s'.blocks)
            && s'.nodes.Keys == s'.mail.Keys && (forall pid <- s'.mail :: |s'.nodes[pid]| == |s'.mail[pid].queue|)
            && (forall p, q :: p in s'.blocks && q in s'.blocks && s'.blocks[p].userStack.Some? && s'.blocks[q].userStack.Some? ==>
                  && (p != q ==> StacksApart(s'.blocks[p].userStack.value, s'.blocks[q].userStack.value))
                  && StacksApart(s'.blocks[p].userStack.value, s'.blocks[q].stack))
  {
    hide Inv, Booted, Run, ProperRun, Live, LeftOn, HeldOnce, AllSized, Heap.Holds, EndsInHeap, SameDirectory, Frames.Ledger, StacksApart, WellFormed;
    var s := Booted(m, ram, heap, ticks, entries).value;
    var owner := BootedInv(m, ram, heap, ticks, entries);
    BootedAccounts(m, ram, heap, ticks, entries);
    RunAccounts(s, actions, owner, m.frames.used, Live(heap));
    owner := RunKeeps(s, actions, owner, m.frames.used);
    var s' := Run(s, actions).value;
    InvOfHeap(s', owner, m.frames.used);
    forall p, q | p in s'.blocks && q in s'.blocks && s'.blocks[p].userStack.Some? && s'.blocks[q].userStack.Some?
      ensures (p != q ==> StacksApart(s'.blocks[p].userStack.value, s'.blocks[q].userStack.value))
      ensures StacksApart(s'.blocks[p].userStack.value, s'.blocks[q].stack)
    {
      TwoStacks(s'.loaded.heap, s'.nodes, s'.blocks, p, q);
    }
  }

  // Two stacks of a page each that do not overlap.
  predicate StacksApart(a: nat, b: nat) {
    a + 4096 <= b || b + 4096 <= a
  }

  lemma InvOfHeap(s: State, owner: map<nat, Role>, reserved: set<nat>)
    requires Inv(s, owner, reserved)
    ensures Heap.Tiled(s.loaded.heap) && s.nodes.Keys == s.mail.Keys && (forall pid <- s.mail :: |s.nodes[pid]| == |s.mail[pid].queue|)
  {
    hide Spaces.Inv, OwnContexts, ByPid, Heap.Tiled, Heap.IsPayload;
  }

  lemma TwoStacks(h: seq<Heap.Block>, nodes: map<nat, seq<nat>>, blocks: map<nat, Blocks>, p: nat, q: nat)
    requires Heap.Tiled(h) && HeldOnce(nodes, blocks) && AllSized(h, nodes, blocks)
    requires p in blocks && q in blocks && blocks[p].userStack.Some? && blocks[q].userStack.Some?
    ensures p != q ==> StacksApart(blocks[p].userStack.value, blocks[q].userStack.value)
    ensures StacksApart(blocks[p].userStack.value, blocks[q].stack)
  {
    hide Heap.Tiled, Sized, Distinct;
    var a, b, c := blocks[p].userStack.value, blocks[q].userStack.value, blocks[q].stack;
    assert BlocksSized(h, blocks[p]) && BlocksSized(h, blocks[q]) && ThreeBlocksOf(blocks[p]) && ThreeBlocksOf(blocks[q]);
    assert a in BlockSet(blocks[p]) && b in BlockSet(blocks[q]) && c in BlockSet(blocks[q]);
    if p != q { RangesApart(h, a, STACK_SIZE, b, STACK_SIZE); }
    RangesApart(h, a, STACK_SIZE, c, STACK_SIZE);
  }
}
