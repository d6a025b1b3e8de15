/** The block heap: a first-fit allocator whose entry table and data both live in
    physical memory. */
module Heap {
  import opened Bits
  import opened Memory
  import opened HeapTable

  const BLOCK_SIZE: int := 4096
  const EINVARG: int := 2

  /** `struct heap_desc` together with the `struct heap_entry_table` it points to.
      The data area starts at byte 4096 * page. */
  datatype HeapDesc = HeapDesc(table: Word, total: nat, page: nat) {
    /** The data fits in memory, past address zero, and the table lies apart from it. */
    predicate Valid() {
      && 0 < page && page + total < 0x10_0000 && total < 0x8_0000
      && table + total <= 0x1_0000_0000
      && (table + total <= 4096 * page || 4096 * (page + total) <= table)
    }

    /** `heap_block_to_address`. */
    function Addr(block: nat): Word
      requires Valid() && block < total
    {
      4096 * (page + block)
    }

    /** `heap_address_to_block`: a signed pointer difference divided by the block size. */
    function BlockIndex(addr: Word): int {
      TruncDiv(Signed(Wrap(addr - 4096 * page)), 4096)
    }
  }

  /** The kernel's heap: 100 MiB at 16 MiB, with its table at 0x7E00. */
  const KERNEL_HEAP: HeapDesc := HeapDesc(0x7E00, 25600, 0x1000)

  function TableOf(m: Mem, h: HeapDesc): (t: Table)
    requires h.Valid()
    ensures |t| == h.total
  {
    m[h.table..h.table + h.total]
  }

  ghost predicate HeapOk(m: Mem, h: HeapDesc) {
    h.Valid() && WellFormed(TableOf(m, h))
  }

  /** Live allocations: first block and number of blocks. */
  ghost function Live(m: Mem, h: HeapDesc): map<nat, nat>
    requires h.Valid()
  {
    Allocs(TableOf(m, h))
  }

  predicate InTable(h: HeapDesc, a: Word) {
    h.table <= a < h.table + h.total
  }

  /** `align_upper_block_boundary`, wrapping at 4 GiB. */
  function AlignUp(val: Word): Word {
    if val % 4096 == 0 then val else Wrap(val - val % 4096 + 4096)
  }

  /** The number of blocks `heap_malloc` asks for. */
  function Blocks(size: Word): (n: nat)
    ensures n < 0x10_0000
  {
    AlignUp(size) / 4096
  }

  /** It is the size rounded up, except that sizes past 0xFFFFF000 wrap to none. */
  lemma BlocksRoundsUp(size: Word)
    ensures Blocks(size) == if size <= 0xFFFF_F000 then (size + 4095) / 4096 else 0
    ensures size <= 0xFFFF_F000 ==> size <= 4096 * Blocks(size) < size + 4096
  {
  }

  // ------------------------------------------------------------------
  // What each operation does to memory.
  // ------------------------------------------------------------------

  function MarkedByte(m: Mem, h: HeapDesc, s: nat, n: nat, done: nat, a: Word): Byte
    requires done <= n
  {
    var k := Wrap(a - (h.table + s));
    if k < done then Entry(k, n) else m[a]
  }

  /** The first `done` of the entries s .. s+n-1 written as one allocation of `n`. */
  function MarkedMem(m: Mem, h: HeapDesc, s: nat, n: nat, done: nat): (r: Mem)
    requires done <= n
    ensures forall a: Word :: r[a] == MarkedByte(m, h, s, n, done, a)
  {
    seq(0x1_0000_0000, a requires 0 <= a < 0x1_0000_0000 => MarkedByte(m, h, s, n, done, a))
  }

  /** Entries cleared from index `i` (possibly negative) while HAS_NEXT was set. */
  function FreedMem(m: Mem, h: HeapDesc, i: int): Mem
    decreases h.total - i
  {
    if i >= h.total then m
    else
      var a := Wrap(h.table + i);
      if HasNext(m[a]) then FreedMem(m[a := FREE], h, i + 1) else m[a := FREE]
  }

  ghost function MallocBlocks(m: Mem, h: HeapDesc, n: nat): (Mem, Word)
    requires h.Valid()
  {
    var s := ScanResult(TableOf(m, h), n);
    if s < 0 then (m, 0) else (MarkedMem(m, h, s, n, n), h.Addr(s))
  }

  ghost function Kzalloc(m: Mem, h: HeapDesc, size: Word): (Mem, Word)
    requires h.Valid()
  {
    var (r, p) := MallocBlocks(m, h, Blocks(size));
    if p == 0 then (r, 0) else (Zeroed(r, p, size), p)
  }

  function Kfree(m: Mem, h: HeapDesc, ptr: Word): Mem {
    FreedMem(m, h, h.BlockIndex(ptr))
  }

  // ------------------------------------------------------------------
  // The operations themselves.
  // ------------------------------------------------------------------

  /** A heap descriptor for an aligned start, and whether the table was accepted. */
  method HeapCreate(ram: Ram, start: Word, end: Word, table: Word, total: Word)
    returns (rc: int, h: HeapDesc)
    requires ram.Valid()
    modifies ram.bytes
    ensures h == HeapDesc(table, total, start / 4096)
    ensures rc == 0 || rc == -2
    ensures rc == 0 <==> start % 4096 == 0 && end % 4096 == 0 && Wrap(end - start) / 4096 == total
    ensures ram.View() == if rc == 0 then Zeroed(old(ram.View()), table, total) else old(ram.View())
  {
    h := HeapDesc(table, total, start / BLOCK_SIZE);
    if !(start % BLOCK_SIZE == 0 && end % BLOCK_SIZE == 0) {
      return -EINVARG, h;
    }
    if Wrap(end - start) / BLOCK_SIZE != total {
      return -EINVARG, h;
    }
    ram.Zero(table, total);
    rc := 0;
  }

  /** `kernel_heap_init`: the kernel's heap is accepted and starts with no block taken. */
  method KernelHeapInit(ram: Ram) returns (rc: int)
    requires ram.Valid()
    modifies ram.bytes
    ensures rc == 0 && KERNEL_HEAP.Valid()
    ensures ram.View() == Zeroed(old(ram.View()), KERNEL_HEAP.table, KERNEL_HEAP.total)
  {
    var h;
    rc, h := HeapCreate(ram, 0x0100_0000, 0x0100_0000 + 104857600, 0x7E00, 104857600 / BLOCK_SIZE);
  }

  method GetStartBlockIndex(ram: Ram, h: HeapDesc, totalBlocks: nat) returns (r: int)
    requires ram.Valid() && h.Valid()
    ensures r == ScanResult(TableOf(ram.View(), h), totalBlocks)
  {
    hide Scanning, ScanResult, And, IsFree;
    ghost var t := TableOf(ram.View(), h);
    var bs, bc, i := -1, 0, 0;
    ScanStart(t, totalBlocks);
    while i < h.total
      invariant 0 <= bc <= i <= h.total && Scanning(t, totalBlocks, i, bc)
      invariant bs == if bc == 0 then -1 else i - bc
    {
      var e := ram.Load(h.table + i);
      assert e == t[i];
      EntryBits(e);
      ScanStep(t, totalBlocks, i, bc);
      if And(e, 0x0f) != FREE {
        bc, bs := 0, -1;
      } else {
        if bs == -1 {
          bs := i;
        }
        bc := bc + 1;
        if bc == totalBlocks {
          return bs;
        }
      }
      i := i + 1;
    }
    ScanTail(t, totalBlocks, bc);
    if bs == -1 {
      return -ENOMEM;
    }
    r := bs;
  }

  lemma MarkedStep(m: Mem, h: HeapDesc, s: nat, n: nat, done: nat)
    requires h.Valid() && s < h.total && done < n < 0x10_0000
    ensures MarkedMem(m, h, s, n, done)[Wrap(h.table + s + done) := Entry(done, n)] == MarkedMem(m, h, s, n, done + 1)
  {
    hide Wrap, MarkedMem, Entry;
    var r := MarkedMem(m, h, s, n, done)[Wrap(h.table + s + done) := Entry(done, n)];
    var r' := MarkedMem(m, h, s, n, done + 1);
    WrapOnce(h.table + s + done);
    forall a: Word
      ensures r[a] == r'[a]
    {
      WrapOnce(a - (h.table + s));
    }
  }

  lemma EntryFlags()
    ensures Or(TAKEN, IS_FIRST) == 0x41 && Or(0x41, HAS_NEXT) == 0xC1 && Or(TAKEN, HAS_NEXT) == 0x81
  {
    assert Pow2(6) == 0x40 && Pow2(7) == 0x80;
    AddBit(TAKEN, IS_FIRST, 6);
    AddBit(0x41, HAS_NEXT, 7);
    AddBit(TAKEN, HAS_NEXT, 7);
  }

  method MarkBlocksTaken(ram: Ram, h: HeapDesc, startBlock: nat, totalBlocks: nat)
    requires ram.Valid() && h.Valid() && startBlock < h.total && totalBlocks < 0x10_0000
    modifies ram.bytes
    ensures ram.View() == MarkedMem(old(ram.View()), h, startBlock, totalBlocks, totalBlocks)
  {
    ghost var m := ram.View();
    var endBlock := startBlock + totalBlocks - 1;
    var entry: Byte := Or(TAKEN, IS_FIRST);
    if totalBlocks > 1 {
      entry := Or(entry, HAS_NEXT);
    }
    EntryFlags();
    var i := startBlock;
    while i <= endBlock
      invariant startBlock <= i <= startBlock + totalBlocks
      invariant i <= endBlock ==> entry == Entry(i - startBlock, totalBlocks)
      invariant ram.View() == MarkedMem(m, h, startBlock, totalBlocks, i - startBlock)
    {
      ram.Store(Wrap(h.table + i), entry);
      MarkedStep(m, h, startBlock, totalBlocks, i - startBlock);
      entry := TAKEN;
      if i != endBlock - 1 {
        entry := Or(entry, HAS_NEXT);
      }
      i := i + 1;
    }
  }

  method MarkBlocksFree(ram: Ram, h: HeapDesc, startBlock: int)
    requires ram.Valid()
    modifies ram.bytes
    ensures ram.View() == FreedMem(old(ram.View()), h, startBlock)
  {
    var i := startBlock;
    while i < h.total
      invariant FreedMem(ram.View(), h, i) == FreedMem(old(ram.View()), h, startBlock)
      decreases h.total - i
    {
      var entry := ram.Load(Wrap(h.table + i));
      EntryBits(entry);
      ram.Store(Wrap(h.table + i), FREE);
      if And(entry, HAS_NEXT) == 0 {
        return;
      }
      i := i + 1;
    }
  }

  method HeapMallocBlocks(ram: Ram, h: HeapDesc, totalBlocks: nat) returns (addr: Word)
    requires ram.Valid() && h.Valid() && totalBlocks < 0x10_0000
    modifies ram.bytes
    ensures (ram.View(), addr) == MallocBlocks(old(ram.View()), h, totalBlocks)
  {
    var startBlock := GetStartBlockIndex(ram, h, totalBlocks);
    if startBlock < 0 {
      return 0;
    }
    addr := h.Addr(startBlock);
    MarkBlocksTaken(ram, h, startBlock, totalBlocks);
  }

  method HeapMalloc(ram: Ram, h: HeapDesc, size: Word) returns (addr: Word)
    requires ram.Valid() && h.Valid()
    modifies ram.bytes
    ensures (ram.View(), addr) == MallocBlocks(old(ram.View()), h, Blocks(size))
  {
    var alignedSize := AlignUp(size);
    addr := HeapMallocBlocks(ram, h, alignedSize / BLOCK_SIZE);
  }

  method HeapFree(ram: Ram, h: HeapDesc, ptr: Word)
    requires ram.Valid()
    modifies ram.bytes
    ensures ram.View() == Kfree(old(ram.View()), h, ptr)
  {
    MarkBlocksFree(ram, h, h.BlockIndex(ptr));
  }

  method HeapZalloc(ram: Ram, h: HeapDesc, size: Word) returns (ptr: Word)
    requires ram.Valid() && h.Valid()
    modifies ram.bytes
    ensures (ram.View(), ptr) == Kzalloc(old(ram.View()), h, size)
  {
    ptr := HeapMalloc(ram, h, size);
    if ptr == 0 {
      return 0;
    }
    ram.Zero(ptr, size);
  }
}
