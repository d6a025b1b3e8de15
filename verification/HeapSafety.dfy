/** What callers of the heap rely on, over single calls and over whole runs. */
module HeapSafety {
  import opened Bits
  import opened Memory
  import opened HeapTable
  import opened Heap

  /** The bytes of memory outside the entry table are untouched. */
  ghost predicate OnlyTable(m: Mem, r: Mem, h: HeapDesc) {
    forall a: Word | !InTable(h, a) :: r[a] == m[a]
  }

  /** `p` is the first byte of block `b`, which lies inside the heap. */
  predicate BlockAt(h: HeapDesc, p: Word, b: nat) {
    b < h.total && p == 4096 * (h.page + b)
  }

  lemma BlockAddress(h: HeapDesc, b: nat)
    requires h.Valid() && b < h.total
    ensures BlockAt(h, h.Addr(b), b) && h.Addr(b) > 0
    ensures h.BlockIndex(h.Addr(b)) == b
  {
  }

  // ------------------------------------------------------------------
  // Allocation.
  // ------------------------------------------------------------------

  /** A request the allocator serves correctly: it fits somewhere, or the table
      does not end in free blocks. */
  ghost predicate MallocSafe(t: Table, n: nat) {
    (n >= 1 && exists s: nat :: Window(t, s, n)) || t == [] || !IsFree(t[|t| - 1])
  }

  /** The promised outcome: NULL and nothing changed, or one new allocation of
      exactly `n` blocks. */
  ghost predicate MallocOutcome(m: Mem, h: HeapDesc, n: nat, r: Mem, p: Word)
    requires h.Valid()
  {
    && HeapOk(r, h) && OnlyTable(m, r, h)
    && if p == 0 then r == m else
         exists b: nat :: BlockAt(h, p, b) && b !in Live(m, h) && Live(r, h) == Live(m, h)[b := n]
  }

  lemma MarkedTable(m: Mem, h: HeapDesc, s: nat, n: nat)
    requires h.Valid() && s < h.total && n < 0x10_0000
    ensures TableOf(MarkedMem(m, h, s, n, n), h) == Marked(TableOf(m, h), s, n)
    ensures s + n <= h.total ==> OnlyTable(m, MarkedMem(m, h, s, n, n), h)
  {
    hide Wrap, MarkedMem;
    var r := MarkedMem(m, h, s, n, n);
    forall i | 0 <= i < h.total
      ensures TableOf(r, h)[i] == Marked(TableOf(m, h), s, n)[i]
    {
      var a: Word := h.table + i;
      WrapOnce(a - (h.table + s));
      assert TableOf(r, h)[i] == r[a] && TableOf(m, h)[i] == m[a];
    }
    if s + n <= h.total {
      forall a: Word | !InTable(h, a)
        ensures r[a] == m[a]
      {
        WrapOnce(a - (h.table + s));
      }
    }
  }

  /** First fit: the least window when there is one. */
  lemma MallocFits(m: Mem, h: HeapDesc, n: nat, s: nat)
    requires HeapOk(m, h) && 1 <= n < 0x10_0000 && Window(TableOf(m, h), s, n)
    ensures var (r, p) := MallocBlocks(m, h, n);
            var b := FirstWindow(TableOf(m, h), n, 0);
            && 0 <= b <= s && BlockAt(h, p, b) && p != 0 && Window(TableOf(m, h), b, n)
            && HeapOk(r, h) && OnlyTable(m, r, h)
            && b !in Live(m, h) && Live(r, h) == Live(m, h)[b := n]
            && TableOf(r, h) == Marked(TableOf(m, h), b, n)
  {
    var t := TableOf(m, h);
    var b := FirstWindow(t, n, 0);
    assert b != -1;
    MarkedTable(m, h, b, n);
    MarkedAllocs(t, b, n);
    BlockAddress(h, b);
  }

  /** No fit, and the table does not end in free blocks: NULL. */
  lemma MallocRefuses(m: Mem, h: HeapDesc, n: nat)
    requires HeapOk(m, h) && MallocSafe(TableOf(m, h), n)
    requires n == 0 || forall s: nat :: !Window(TableOf(m, h), s, n)
    ensures MallocBlocks(m, h, n) == (m, 0)
  {
    var t := TableOf(m, h);
    if n >= 1 {
      assert FirstWindow(t, n, 0) == -1;
    }
    assert TailStart(t) == |t|;
  }

  /** The allocator meets its promise exactly on the safe requests. */
  lemma MallocExact(m: Mem, h: HeapDesc, n: nat)
    requires HeapOk(m, h) && n < 0x10_0000
    ensures var (r, p) := MallocBlocks(m, h, n);
            MallocOutcome(m, h, n, r, p) <==> MallocSafe(TableOf(m, h), n)
  {
    var t := TableOf(m, h);
    var (r, p) := MallocBlocks(m, h, n);
    if s: nat :| n >= 1 && Window(t, s, n) {
      MallocFits(m, h, n, s);
    } else if t == [] || !IsFree(t[|t| - 1]) {
      MallocRefuses(m, h, n);
    } else {
      MallocOverruns(m, h, n);
    }
  }

  /** No fit but a free block at the end: the start of the trailing run is handed
      out, and the entries of the allocation run past the end of the table. */
  lemma MallocOverruns(m: Mem, h: HeapDesc, n: nat)
    requires HeapOk(m, h) && n < 0x10_0000 && !MallocSafe(TableOf(m, h), n)
    ensures var (r, p) := MallocBlocks(m, h, n);
            !MallocOutcome(m, h, n, r, p)
  {
    var t := TableOf(m, h);
    var (r, p) := MallocBlocks(m, h, n);
    var s := TailStart(t);
    if n >= 1 {
      assert FirstWindow(t, n, 0) == -1;
      assert !Window(t, s, n);
    }
    assert s < |t|;
    assert (r, p) == (MarkedMem(m, h, s, n, n), h.Addr(s));
    MarkedTable(m, h, s, n);
    BlockAddress(h, s);
    if n >= 1 {
      assert !EntryOk(TableOf(r, h), h.total - 1);
    } else {
      assert TableOf(r, h) == t;
      assert Live(r, h) == Live(m, h);
    }
  }

  /** For one: a table of two blocks whose last is free, and a request for two. */
  lemma OverrunExample()
    ensures WellFormed([0x41, FREE]) && !MallocSafe([0x41, FREE], 2) && ScanResult([0x41, FREE], 2) == 1
  {
    var t: Table := [0x41, FREE];
    assert !IsFree(t[0]) && IsFree(t[1]);
    forall s: nat
      ensures !Window(t, s, 2)
    {
      if s == 0 {
        assert !IsFree(t[s]);
      }
    }
    assert TailStart(t) == 1;
  }

  // ------------------------------------------------------------------
  // Release.
  // ------------------------------------------------------------------

  lemma TableStore(m: Mem, h: HeapDesc, i: nat, e: Byte)
    requires h.Valid() && i < h.total
    ensures TableOf(m[h.table + i := e], h) == TableOf(m, h)[i := e]
    ensures OnlyTable(m, m[h.table + i := e], h)
  {
  }

  /** Walking an allocation's HAS_NEXT chain clears the chain and nothing else. */
  lemma {:induction false} FreedChain(m: Mem, h: HeapDesc, s: nat, n: nat)
    requires h.Valid() && Chain(TableOf(m, h), s, n)
    ensures TableOf(FreedMem(m, h, s), h) == Cleared(TableOf(m, h), s, n)
    ensures OnlyTable(m, FreedMem(m, h, s), h)
    decreases n
  {
    hide FreedMem, Cleared, TableOf;
    TableStore(m, h, s, FREE);
    ClearedStep(TableOf(m, h), s, n);
    FreedUnfold(m, h, s);
    if n > 1 {
      FreedChain(m[h.table + s := FREE], h, s + 1, n - 1);
    }
  }

  lemma FreedUnfold(m: Mem, h: HeapDesc, s: nat)
    requires h.Valid() && s < h.total
    ensures var m1 := m[h.table + s := FREE];
            FreedMem(m, h, s) == if HasNext(TableOf(m, h)[s]) then FreedMem(m1, h, s + 1) else m1
  {
    assert Wrap(h.table + s) == h.table + s;
  }

  lemma ClearedStep(t: Table, s: nat, n: nat)
    requires Chain(t, s, n)
    ensures HasNext(t[s]) <==> n > 1
    ensures n == 1 ==> Cleared(t, s, n) == t[s := FREE]
    ensures n > 1 ==> Chain(t[s := FREE], s + 1, n - 1)
    ensures n > 1 ==> Cleared(t[s := FREE], s + 1, n - 1) == Cleared(t, s, n)
  {
  }

  /** Freeing a live allocation removes exactly that allocation. */
  lemma FreeLive(m: Mem, h: HeapDesc, b: nat)
    requires HeapOk(m, h) && b in Live(m, h)
    ensures var r := Kfree(m, h, h.Addr(b));
            && HeapOk(r, h) && OnlyTable(m, r, h)
            && Live(r, h) == Live(m, h) - {b}
            && TableOf(r, h) == Cleared(TableOf(m, h), b, Live(m, h)[b])
  {
    var t := TableOf(m, h);
    BlockAddress(h, b);
    RunChain(t, b);
    FreedChain(m, h, b, RunLen(t, b));
    ClearedAllocs(t, b);
  }

  // ------------------------------------------------------------------
  // Freeing NULL.
  // ------------------------------------------------------------------

  /** The table lies below the data, with one byte below it per page below the data. */
  predicate LowTable(h: HeapDesc) {
    h.Valid() && h.page <= 0x8_0000 && h.page <= h.table && h.table + h.total <= 4096 * h.page
  }

  /** NULL is taken for a block far before the table. */
  lemma NullIndex(h: HeapDesc)
    requires LowTable(h)
    ensures h.BlockIndex(0) + h.page == 0
  {
    var w := 0x1_0000_0000 - 4096 * h.page;
    assert Wrap(0 - 4096 * h.page) == w;
    assert Signed(w) + 4096 * h.page == 0;
  }

  /** Among the bytes below the table, from `lo` on, one has no HAS_NEXT bit. */
  ghost predicate StopsBelow(m: Mem, h: HeapDesc, lo: int) {
    exists a: Word | lo <= a < h.table :: !HasNext(m[a])
  }

  lemma {:induction false} FreedBelow(m: Mem, h: HeapDesc, i: int)
    requires LowTable(h) && 0 <= i + h.page && i < 0 && StopsBelow(m, h, h.table + i)
    ensures forall a: Word | !(h.table + i <= a < h.table) :: FreedMem(m, h, i)[a] == m[a]
    decreases -i
  {
    var x: Word := h.table + i;
    assert Wrap(h.table + i) == x;
    var m1 := m[x := FREE];
    if HasNext(m[x]) {
      var a: Word :| h.table + i <= a < h.table && !HasNext(m[a]);
      assert m1[a] == m[a];
      FreedBelow(m1, h, i + 1);
    }
  }

  lemma FreedUnder(m: Mem, h: HeapDesc, i: int)
    requires LowTable(h) && 0 <= i + h.page && i < 0
    ensures var x: Word := h.table + i;
            FreedMem(m, h, i) == if HasNext(m[x]) then FreedMem(m[x := FREE], h, i + 1) else m[x := FREE]
  {
    assert Wrap(h.table + i) == h.table + i;
  }

  lemma BelowRest(m: Mem, h: HeapDesc, x: Word)
    requires h.Valid() && x < h.table && !StopsBelow(m, h, x)
    ensures HasNext(m[x]) && !StopsBelow(m[x := FREE], h, x + 1) && TableOf(m[x := FREE], h) == TableOf(m, h)
  {
  }

  lemma {:induction false} FreedThrough(m: Mem, h: HeapDesc, i: int) returns (m1: Mem)
    requires LowTable(h) && 0 <= i + h.page && i <= 0 && !StopsBelow(m, h, h.table + i)
    ensures FreedMem(m, h, i) == FreedMem(m1, h, 0) && TableOf(m1, h) == TableOf(m, h)
    decreases -i
  {
    hide FreedMem, StopsBelow, TableOf;
    if i == 0 {
      m1 := m;
    } else {
      var x: Word := h.table + i;
      FreedUnder(m, h, i);
      BelowRest(m, h, x);
      m1 := FreedThrough(m[x := FREE], h, i + 1);
    }
  }

  /** kfree(NULL) leaves the table alone exactly when the walk stops below it, or
      when block 0 is free anyway. */
  lemma NullFreeExact(m: Mem, h: HeapDesc)
    requires HeapOk(m, h) && LowTable(h) && h.total > 0
    ensures TableOf(Kfree(m, h, 0), h) == TableOf(m, h) <==>
            StopsBelow(m, h, h.table - h.page) || IsFree(TableOf(m, h)[0])
  {
    NullIndex(h);
    var t, i := TableOf(m, h), h.BlockIndex(0);
    if StopsBelow(m, h, h.table - h.page) {
      FreedBelow(m, h, i);
    } else {
      var m1 := FreedThrough(m, h, i);
      assert EntryOk(t, 0);
      if IsFree(t[0]) {
        FreedUnfold(m1, h, 0);
        assert t[0 := FREE] == t;
        TableStore(m1, h, 0, FREE);
      } else {
        RunChain(t, 0);
        FreedChain(m1, h, 0, RunLen(t, 0));
        assert Cleared(t, 0, RunLen(t, 0))[0] == FREE != t[0];
      }
    }
  }

  /** malloc then free restores the table byte for byte. */
  lemma FreeUndoesMalloc(m: Mem, h: HeapDesc, n: nat)
    requires HeapOk(m, h) && n < 0x10_0000 && MallocSafe(TableOf(m, h), n)
    ensures var (r, p) := MallocBlocks(m, h, n);
            p != 0 ==> Kfree(r, h, p) == m
  {
    var t := TableOf(m, h);
    var (r, p) := MallocBlocks(m, h, n);
    if s: nat :| n >= 1 && Window(t, s, n) {
      MallocFits(m, h, n, s);
      var b := FirstWindow(t, n, 0);
      FreeLive(r, h, b);
      ClearMarked(t, b, n);
      assert TableOf(Kfree(r, h, p), h) == t;
      SameMem(m, Kfree(r, h, p), h);
    } else {
      MallocRefuses(m, h, n);
    }
  }

  lemma SameMem(m: Mem, r: Mem, h: HeapDesc)
    requires h.Valid() && TableOf(m, h) == TableOf(r, h) && OnlyTable(m, r, h)
    ensures m == r
  {
    forall a: Word
      ensures m[a] == r[a]
    {
      if InTable(h, a) {
        assert m[a] == TableOf(m, h)[a - h.table];
        assert r[a] == TableOf(r, h)[a - h.table];
      }
    }
  }

  /** Two heaps with the same live allocations and the same other bytes are equal. */
  lemma SameLive(m: Mem, r: Mem, h: HeapDesc)
    requires HeapOk(m, h) && HeapOk(r, h) && Live(m, h) == Live(r, h) && OnlyTable(m, r, h)
    ensures m == r
  {
    TableFromAllocs(TableOf(m, h), TableOf(r, h));
    SameMem(m, r, h);
  }

  lemma FreeTwo(m: Mem, h: HeapDesc, b: nat, c: nat)
    requires HeapOk(m, h) && b in Live(m, h) && c in Live(m, h) && b != c
    ensures var r := Kfree(Kfree(m, h, h.Addr(b)), h, h.Addr(c));
            HeapOk(r, h) && Live(r, h) == Live(m, h) - {b, c} && OnlyTable(m, r, h)
  {
    FreeLive(m, h, b);
    var r := Kfree(m, h, h.Addr(b));
    FreeLive(r, h, c);
    assert Live(m, h) - {b} - {c} == Live(m, h) - {b, c};
  }

  /** The frees of two live allocations commute. */
  lemma FreesCommute(m: Mem, h: HeapDesc, b: nat, c: nat)
    requires HeapOk(m, h) && b in Live(m, h) && c in Live(m, h) && b != c
    ensures Kfree(Kfree(m, h, h.Addr(b)), h, h.Addr(c)) == Kfree(Kfree(m, h, h.Addr(c)), h, h.Addr(b))
  {
    FreeTwo(m, h, b, c);
    FreeTwo(m, h, c, b);
    assert {b, c} == {c, b};
    SameLive(Kfree(Kfree(m, h, h.Addr(b)), h, h.Addr(c)), Kfree(Kfree(m, h, h.Addr(c)), h, h.Addr(b)), h);
  }

  /** A memory whose bytes in front of the kernel heap's table all have the HAS_NEXT bit,
      and whose first block is taken. */
  function RunawayByte(a: Word): Byte {
    if a == 0x7E00 then 0x41 else if 0x6E00 <= a < 0x7E00 then 0x80 else 0
  }

  function RunawayMemory(): (m: Mem)
    ensures forall a: Word :: m[a] == RunawayByte(a)
  {
    seq(0x1_0000_0000, a requires 0 <= a < 0x1_0000_0000 => RunawayByte(a))
  }

  /** For one: there kfree(NULL) frees block 0. */
  lemma NullFreeExample()
    ensures var m := RunawayMemory();
            HeapOk(m, KERNEL_HEAP) && TableOf(Kfree(m, KERNEL_HEAP, 0), KERNEL_HEAP) != TableOf(m, KERNEL_HEAP)
  {
    hide RunawayMemory, Kfree;
    var m := RunawayMemory();
    var t := TableOf(m, KERNEL_HEAP);
    assert forall i: nat | i < 25600 :: t[i] == if i == 0 then 0x41 else 0;
    assert forall i: nat | i < 25600 :: EntryOk(t, i);
    assert !StopsBelow(m, KERNEL_HEAP, 0x6E00);
    NullFreeExact(m, KERNEL_HEAP);
  }

  // ------------------------------------------------------------------
  // Whole runs.
  // ------------------------------------------------------------------

  datatype Op = Malloc(size: Word) | Free(ptr: Word)

  /** Memory, and the blocks handed out and not yet freed with the sizes asked for. */
  datatype State = State(m: Mem, owned: map<int, Word>)

  ghost function Step(h: HeapDesc, st: State, op: Op): State
    requires h.Valid()
  {
    match op
    case Malloc(size) =>
      var (r, p) := MallocBlocks(st.m, h, Blocks(size));
      State(r, if p == 0 then st.owned else st.owned[h.BlockIndex(p) := size])
    case Free(ptr) => State(Kfree(st.m, h, ptr), st.owned - {h.BlockIndex(ptr)})
  }

  /** What a caller can check before the call. */
  ghost predicate Allowed(h: HeapDesc, st: State, op: Op)
    requires h.Valid()
  {
    match op
    case Malloc(size) => MallocSafe(TableOf(st.m, h), Blocks(size))
    case Free(ptr) => exists b: nat :: b in st.owned && BlockAt(h, ptr, b)
  }

  ghost function Run(h: HeapDesc, st: State, ops: seq<Op>): State
    requires h.Valid()
  {
    if ops == [] then st else Step(h, Run(h, st, ops[..|ops| - 1]), ops[|ops| - 1])
  }

  ghost predicate AllAllowed(h: HeapDesc, st: State, ops: seq<Op>)
    requires h.Valid()
  {
    forall i | 0 <= i < |ops| :: Allowed(h, Run(h, st, ops[..i]), ops[i])
  }

  /** Every owned block starts one live allocation of exactly the requested size
      rounded up, and there are no other live allocations. */
  ghost predicate Owns(h: HeapDesc, st: State) {
    && HeapOk(st.m, h)
    && (forall b: nat :: b in st.owned <==> b in Live(st.m, h))
    && (forall b | b in st.owned :: 0 <= b < h.total && st.owned[b] > 0 && Live(st.m, h)[b] == Blocks(st.owned[b]))
    && (forall b | b in st.owned :: st.owned[b] <= 4096 * Blocks(st.owned[b]))
  }

  lemma CreatedOwnsNothing(m: Mem, h: HeapDesc)
    requires h.Valid()
    ensures Owns(h, State(Zeroed(m, h.table, h.total), map[]))
    ensures Window(TableOf(Zeroed(m, h.table, h.total), h), 0, h.total)
  {
    var r := Zeroed(m, h.table, h.total);
    forall i: nat | i < h.total
      ensures TableOf(r, h)[i] == FREE
    {
      assert Wrap(h.table + i - h.table) == i;
    }
    assert forall i: nat | i < h.total :: EntryOk(TableOf(r, h), i);
  }

  lemma MallocOwns(h: HeapDesc, st: State, size: Word)
    requires Owns(h, st) && Allowed(h, st, Malloc(size))
    ensures Owns(h, Step(h, st, Malloc(size)))
  {
    var t, n := TableOf(st.m, h), Blocks(size);
    BlocksRoundsUp(size);
    if s: nat :| n >= 1 && Window(t, s, n) {
      MallocFits(st.m, h, n, s);
      BlockAddress(h, FirstWindow(t, n, 0));
    } else {
      MallocRefuses(st.m, h, n);
    }
  }

  lemma FreeOwns(h: HeapDesc, st: State, ptr: Word)
    requires Owns(h, st) && Allowed(h, st, Free(ptr))
    ensures Owns(h, Step(h, st, Free(ptr)))
  {
    var b: nat :| b in st.owned && BlockAt(h, ptr, b);
    BlockAddress(h, b);
    FreeLive(st.m, h, b);
  }

  lemma {:induction false} RunOwns(h: HeapDesc, st: State, ops: seq<Op>)
    requires Owns(h, st) && AllAllowed(h, st, ops)
    ensures Owns(h, Run(h, st, ops))
  {
    if ops != [] {
      var init, op := ops[..|ops| - 1], ops[|ops| - 1];
      assert forall i | 0 <= i < |init| :: init[..i] == ops[..i];
      RunOwns(h, st, init);
      assert Allowed(h, Run(h, st, init), op);
      match op
      case Malloc(size) => MallocOwns(h, Run(h, st, init), size);
      case Free(ptr) => FreeOwns(h, Run(h, st, init), ptr);
    }
  }

  /** An owned block is a byte range inside the heap, at least as large as requested. */
  lemma OwnedInside(h: HeapDesc, st: State, b: nat)
    requires Owns(h, st) && b in st.owned
    ensures 4096 * h.page <= h.Addr(b) && h.Addr(b) + st.owned[b] <= 4096 * (h.page + h.total)
  {
    AllocEntries(TableOf(st.m, h), b);
    BlockAddress(h, b);
  }

  /** Two owned blocks are disjoint ranges. */
  lemma OwnedDisjoint(h: HeapDesc, st: State, b: nat, c: nat)
    requires Owns(h, st) && b in st.owned && c in st.owned && b < c
    ensures h.Addr(b) + st.owned[b] <= h.Addr(c)
  {
    AllocsDisjoint(TableOf(st.m, h), b, c);
    BlockAddress(h, b);
    BlockAddress(h, c);
  }

  /** Safety over whole runs: from a created heap, any run of safe requests and
      frees of owned blocks keeps the owned ranges apart and inside the heap, the
      taken blocks are exactly theirs, and freeing everything restores the table. */
  lemma RunSafe(m: Mem, h: HeapDesc, ops: seq<Op>)
    requires h.Valid() && AllAllowed(h, State(Zeroed(m, h.table, h.total), map[]), ops)
    ensures var st := Run(h, State(Zeroed(m, h.table, h.total), map[]), ops);
            && Owns(h, st)
            && TakenFrom(TableOf(st.m, h), 0) == LengthsFrom(TableOf(st.m, h), 0)
            && (forall b: nat | b in st.owned ::
                  4096 * h.page <= h.Addr(b) && h.Addr(b) + st.owned[b] <= 4096 * (h.page + h.total))
            && (forall b: nat, c: nat | b in st.owned && c in st.owned && b < c :: h.Addr(b) + st.owned[b] <= h.Addr(c))
            && (st.owned == map[] ==> TableOf(st.m, h) == TableOf(Zeroed(m, h.table, h.total), h))
  {
    var st0 := State(Zeroed(m, h.table, h.total), map[]);
    CreatedOwnsNothing(m, h);
    RunOwns(h, st0, ops);
    var st := Run(h, st0, ops);
    OwnedConserved(h, st);
    forall b: nat | b in st.owned
      ensures 4096 * h.page <= h.Addr(b) && h.Addr(b) + st.owned[b] <= 4096 * (h.page + h.total)
    {
      OwnedInside(h, st, b);
    }
    forall b: nat, c: nat | b in st.owned && c in st.owned && b < c
      ensures h.Addr(b) + st.owned[b] <= h.Addr(c)
    {
      OwnedDisjoint(h, st, b, c);
    }
    if st.owned == map[] {
      assert Live(st.m, h) == Live(st0.m, h);
      TableFromAllocs(TableOf(st.m, h), TableOf(st0.m, h));
    }
  }

  lemma OwnedConserved(h: HeapDesc, st: State)
    requires Owns(h, st)
    ensures TakenFrom(TableOf(st.m, h), 0) == LengthsFrom(TableOf(st.m, h), 0)
  {
    var t := TableOf(st.m, h);
    TakenIsSumOfLengths(t, 0);
    if |t| > 0 { assert EntryOk(t, 0); }
  }
}
