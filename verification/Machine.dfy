/**
 The fixed numbers of the machine and of the kernel's memory map
 (hal.x86/include/pmm.h, vmm.h and heap.h), counted in 4 KB pages.
 */
module Machine {
  const PAGE: nat := 0x1000
  const WORD: nat := 0x1_0000_0000  // 2^32, the number of values of a uint32_t
  const FRAMES: nat := 0x10_0000    // 2^20, the number of page frames below 4 GB
  const SLOTS: nat := 1024          // entries of a page directory or a page table

  type u32 = w: nat | w < 0x1_0000_0000  // a uint32_t
  type byte = b: nat | b < 256

  datatype Option<+T> = None | Some(value: T)

  // kernel_start and kernel_end are linker symbols, both page aligned
  // (kernel.ld:12, kernel.ld:48). All that is assumed of them is that the kernel's
  // own memory (image, page pool, heap and the page after it) lies below 1 GB,
  // where user space begins.
  datatype Image = Image(start: nat, end: nat)
  type KernelImage = i: Image | i.start < i.end && i.end + 512 + 5120 < 0x4_0000 witness Image(0, 1)
  const KERNEL: KernelImage

  const KERNEL_START: nat := KERNEL.start
  const POOL_START: nat := KERNEL.end
  const POOL_END: nat := POOL_START + 512        // 2 MB page pool
  const HEAP_START: nat := POOL_END
  const HEAP_END: nat := HEAP_START + 5120       // 20 MB kernel heap
  const USER_START: nat := 0x4_0000              // USERSPACE_PAGEPOOL, 1 GB

  predicate InPool(frame: nat) {
    POOL_START <= frame < POOL_END
  }

  function Wrap(x: int): (w: nat)
    ensures w < WORD && (0 <= x < WORD ==> w == x)
  {
    x % WORD
  }

  // Unsigned bytes of a region, as pages: the number of iterations of a loop that
  // starts at its first byte and steps by one page.
  function PagesOf(size: nat): nat {
    (size + PAGE - 1) / PAGE
  }

  // They are the pages of its bytes, if it starts at one.
  lemma PagesOfExactly(page: nat, size: nat, p: nat)
    ensures page <= p < page + PagesOf(size) <==> exists at: nat :: page * PAGE <= at < page * PAGE + size && at / PAGE == p
  {
    if page <= p < page + PagesOf(size) { assert page * PAGE <= p * PAGE < page * PAGE + size && p * PAGE / PAGE == p; }
  }

  function ZeroBytes(n: nat): (s: seq<byte>)
    ensures |s| == n && forall i :: 0 <= i < n ==> s[i] == 0
  {
    seq(n, _ => 0)
  }

  // A word as four bytes, the lowest first.
  function Bytes32(w: u32): (s: seq<byte>)
    ensures |s| == 4
  {
    [w % 0x100, w / 0x100 % 0x100, w / 0x1_0000 % 0x100, w / 0x100_0000]
  }

  function Word32(s: seq<byte>, i: nat): u32
    requires i + 4 <= |s|
  {
    var a: nat, b: nat, c: nat, d: nat := s[i], s[i + 1], s[i + 2], s[i + 3];
    a + 0x100 * b + 0x1_0000 * c + 0x100_0000 * d
  }

  lemma WordRoundTrip(w: u32)
    ensures Word32(Bytes32(w), 0) == w
  {
    DividedTwice(w);
    var a: nat, b: nat, c: nat, d: nat := w % 0x100, w / 0x100 % 0x100, w / 0x1_0000 % 0x100, w / 0x100_0000;
    assert w == a + 0x100 * (w / 0x100) && w / 0x100 == b + 0x100 * (w / 0x1_0000) && w / 0x1_0000 == c + 0x100 * d;
    assert Bytes32(w) == [a, b, c, d];
  }

  lemma DividedTwice(w: u32)
    ensures w / 0x1_0000 == w / 0x100 / 0x100 && w / 0x100_0000 == w / 0x1_0000 / 0x100
  {
  }

  lemma BytesRoundTrip(s: seq<byte>, i: nat)
    requires i + 4 <= |s|
    ensures Bytes32(Word32(s, i)) == s[i..i + 4]
  {
    var a: nat, b: nat, c: nat, d: nat := s[i], s[i + 1], s[i + 2], s[i + 3];
    var w := a + 0x100 * b + 0x1_0000 * c + 0x100_0000 * d;
    assert w / 0x100 == b + 0x100 * c + 0x1_0000 * d;
    assert w / 0x1_0000 == c + 0x100 * d && w / 0x100_0000 == d;
  }
}
