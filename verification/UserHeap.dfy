/** The malloc and free system calls: they keep the kernel heap, the task's page
    tables and the process's allocation slots in step. */
module UserHeap {
  import opened Bits
  import opened Memory
  import opened HeapTable
  import H = Heap
  import opened HeapSafety
  import opened HeapFrames
  import opened Paging
  import opened PageTables

  const MAX_ALLOCATIONS: int := 1024

  /** Flags of a page the process may write, and of one it may only read. */
  const WRITABLE: Flags := 7
  const READ_ONLY: Flags := 5

  datatype MemAllocation = MemAllocation(ptr: Word, size: Word)

  const EMPTY: MemAllocation := MemAllocation(0, 0)

  type Slots = s: seq<MemAllocation> | |s| == 1024 witness seq(1024, _ => EMPTY)

  /** Physical memory, the page of the task's directory, and the slots. */
  datatype UserState = UserState(m: Mem, d: Page, slots: Slots)

  /** The first slot at or after `i` holding `ptr`, or -1. */
  function Find(slots: Slots, ptr: Word, i: nat): (r: int)
    requires i <= 1024
    ensures r == -1 || (i <= r < 1024 && slots[r].ptr == ptr)
    ensures forall k | i <= k < (if r == -1 then 1024 else r) :: slots[k].ptr != ptr
    decreases 1024 - i
  {
    if i == 1024 then -1 else if slots[i].ptr == ptr then i else Find(slots, ptr, i + 1)
  }

  // ------------------------------------------------------------------
  // What the two calls do.
  // ------------------------------------------------------------------

  /** `process_malloc_syscall_handler`: the new state and the pointer returned. */
  ghost function UserMalloc(h: HeapDesc, st: UserState, size: Word): (UserState, Word)
    requires h.Valid()
  {
    var (m1, ptr) := H.Kzalloc(st.m, h, size);
    var slot := Find(st.slots, 0, 0);
    if ptr == 0 then (st.(m := H.Kfree(m1, h, 0)), 0)
    else if slot < 0 then (st.(m := H.Kfree(m1, h, ptr)), 0)
    else
      var (m2, rc) := CreateMapping(m1, st.d, ptr, ptr, AlignUp(Wrap(ptr + size)), WRITABLE);
      if rc < 0 then (st.(m := H.Kfree(m2, h, ptr)), 0)
      else (UserState(m2, st.d, st.slots[slot := MemAllocation(ptr, size)]), ptr)
  }

  /** `process_free_syscall_handler`. */
  function UserFree(h: HeapDesc, st: UserState, ptr: Word): UserState {
    var slot := Find(st.slots, ptr, 0);
    if slot < 0 then st
    else
      var alloc := st.slots[slot];
      var (m1, rc) := CreateMapping(st.m, st.d, alloc.ptr, alloc.ptr, AlignUp(Wrap(alloc.ptr + alloc.size)), READ_ONLY);
      if rc < 0 then st.(m := m1)
      else UserState(H.Kfree(m1, h, ptr), st.d, st.slots[slot := EMPTY])
  }

  // ------------------------------------------------------------------
  // The joint invariant.
  // ------------------------------------------------------------------

  /** Page `p` maps to itself with the given flags. */
  predicate SelfMapped(m: Mem, d: Page, p: Page, prot: Flags) {
    Pte(m, d, p) == 4096 * p + prot
  }

  /** An occupied slot is one live allocation of exactly its size in blocks, and
      its pages map to themselves, writable. */
  ghost predicate SlotOk(h: HeapDesc, m: Mem, d: Page, s: MemAllocation)
    requires h.Valid()
  {
    var f := s.ptr / 4096;
    && Aligned(s.ptr) && h.page <= f && s.size > 0
    && f - h.page in H.Live(m, h) && H.Live(m, h)[f - h.page] == H.Blocks(s.size)
    && f + H.Blocks(s.size) <= h.page + h.total
    && (forall p: Page | f <= p < f + H.Blocks(s.size) :: SelfMapped(m, d, p, WRITABLE))
  }

  /** A slot is empty, or in order and apart from the page tables. */
  ghost predicate SlotFine(h: HeapDesc, m: Mem, d: Page, s: MemAllocation)
    requires h.Valid()
  {
    if s.ptr == 0 then s == EMPTY else SlotOk(h, m, d, s) && !IsTablePage(m, d, s.ptr / 4096)
  }

  ghost predicate Distinct(slots: Slots) {
    forall i, j | 0 <= i < j < 1024 :: slots[i].ptr != 0 ==> slots[i].ptr != slots[j].ptr
  }

  ghost predicate Joint(h: HeapDesc, st: UserState) {
    && H.HeapOk(st.m, h) && TablesOk(st.m, st.d) && TablesLive(st.m, h, st.d)
    && (forall i | 0 <= i < 1024 :: SlotFine(h, st.m, st.d, st.slots[i]))
    && Distinct(st.slots)
  }

  ghost predicate IsTablePage(m: Mem, d: Page, f: Page) {
    f == d || exists i: nat | i < 1024 :: Frame(m, d, i) == f
  }

  function NoSlots(): Slots {
    seq(1024, _ => EMPTY)
  }

  /** With heap and tables in order and no slot taken, the invariant holds. */
  lemma JointOfTables(h: HeapDesc, m: Mem, d: Page)
    requires H.HeapOk(m, h) && TablesOk(m, d) && TablesLive(m, h, d)
    ensures Joint(h, UserState(m, d, NoSlots()))
  {
  }

  /** A new address space with no slot taken. */
  lemma JointInitially(m: Mem, h: HeapDesc, flags: Byte) returns (d: Page)
    requires H.HeapOk(m, h) && FreeCount(H.TableOf(m, h)) >= 1026
    ensures var (r, desc) := InitialTables(m, h, flags);
            Slot(r, desc / 4096, 0) == 4096 * d && Joint(h, UserState(r, d, NoSlots()))
  {
    hide FreeCount, InitialTables, Pte, Frame, Slot, H.Live, Kept;
    var f: Page;
    d, f := InitIdentity(m, h, flags);
    JointOfTables(h, InitialTables(m, h, flags).0, d);
  }

  // ------------------------------------------------------------------
  // Mapping keeps the heap.
  // ------------------------------------------------------------------

  /** Changing entries of tables that live in the heap leaves the heap alone. */
  lemma MapKeepsHeap(m: Mem, h: HeapDesc, d: Page, v: Page, f: Page, n: nat, prot: Flags)
    requires H.HeapOk(m, h) && TablesOk(m, d) && TablesLive(m, h, d)
    ensures var r := MapPages(m, d, v, f, n, prot);
            && TablesOk(r, d) && OnlyPtes(m, r, d) && TablesLive(r, h, d)
            && H.HeapOk(r, h) && H.TableOf(r, h) == H.TableOf(m, h) && H.Live(r, h) == H.Live(m, h)
            && (forall a: Word | !TableByte(m, d, a) :: r[a] == m[a])
  {
    hide MapPages, Frame, H.Live, H.TableOf;
    var r := MapPages(m, d, v, f, n, prot);
    MapPagesKeeps(m, d, v, f, n, prot);
    forall a: Word | H.InTable(h, a)
      ensures r[a] == m[a]
    {
      if i: nat :| i < 1024 && InPage(Frame(m, d, i), a) {
        LivePageStable(m, m, h, Frame(m, d, i));
        assert false;
      }
    }
    HeapUntouched(m, r, h);
  }

  /** The pages mapped are those of the allocation, whatever its size is rounded to. */
  lemma PagesOfSize(h: HeapDesc, f: Page, size: Word)
    requires h.Valid() && h.page <= f && H.Blocks(size) > 0 && f + H.Blocks(size) <= h.page + h.total
    ensures Wrap(4096 * f + size) == 4096 * f + size
    ensures AlignUp(4096 * f + size) == 4096 * (f + H.Blocks(size))
    ensures 0 < size <= 0xFFFF_F000
  {
    hide Wrap, H.Blocks, AlignUp;
    H.BlocksRoundsUp(size);
    var x: Word, n := 4096 * f + size, H.Blocks(size);
    WrapOnce(x);
    var y := AlignUp(x);
    var k := y / 4096;
    assert y == 4096 * k && 4096 * k < 4096 * (f + n) + 4096 && 4096 * (f + n) < 4096 * k + 4096;
  }

  /** Mapping pages f .. f+n-1 to themselves changes exactly their entries. */
  lemma SelfMapPte(m: Mem, d: Page, f: Page, n: nat, prot: Flags, q: Page)
    requires TablesOk(m, d) && f + n <= 0x10_0000
    ensures Pte(MapPages(m, d, f, f, n, prot), d, q) == if f <= q < f + n then 4096 * q + prot else Pte(m, d, q)
  {
    hide MapPages, Pte;
    MapPagesPte(m, d, f, f, n, prot, q);
  }

  /** Allocation leaves the tables alone and hands out none of their pages. */
  lemma TablesAfterZalloc(m: Mem, m1: Mem, h: HeapDesc, d: Page, size: Word, f: Page, n: nat)
    requires H.HeapOk(m, h) && TablesOk(m, d) && TablesLive(m, h, d)
    requires h.page <= f && Zalloced(m, h, size, m1, 4096 * f, f - h.page, n)
    ensures TablesOk(m1, d) && SameTables(m, m1, d) && TablesLive(m1, h, d)
    ensures forall p: Page | IsTablePage(m, d, p) :: !(f <= p < f + n)
  {
    hide Slot, H.Live, FreeCount;
    LivePageStable(m, m1, h, d);
    forall i: nat | i < 1024
      ensures AgreeOnPage(m, m1, Frame(m, d, i)) && !FreePage(m, h, Frame(m, d, i))
    {
      LivePageStable(m, m1, h, Frame(m, d, i));
    }
    TablesFrame(m, m1, d);
    forall p: Page | IsTablePage(m, d, p)
      ensures !(f <= p < f + n)
    {
      assert !FreePage(m, h, p);
    }
  }

  /** What a served request leaves: the heap with one more allocation, and the flat
      map with the new pages mapped to themselves. */
  lemma MappedAfterZalloc(m: Mem, m1: Mem, h: HeapDesc, d: Page, size: Word, f: Page, n: nat)
    requires H.HeapOk(m, h) && TablesOk(m, d) && TablesLive(m, h, d)
    requires h.page <= f && Zalloced(m, h, size, m1, 4096 * f, f - h.page, n)
    ensures var r := MapPages(m1, d, f, f, n, WRITABLE);
            && H.HeapOk(r, h) && TablesOk(r, d) && TablesLive(r, h, d) && SameDir(m, r, d)
            && H.TableOf(r, h) == Marked(H.TableOf(m, h), f - h.page, n)
            && H.Live(r, h) == H.Live(m, h)[f - h.page := n]
            && (forall q: Page :: Pte(r, d, q) == if f <= q < f + n then 4096 * q + WRITABLE else Pte(m, d, q))
  {
    hide MapPages, Pte, Frame, H.Live, H.TableOf, FreeCount, Kept;
    TablesAfterZalloc(m, m1, h, d, size, f, n);
    MapKeepsHeap(m1, h, d, f, f, n, WRITABLE);
    forall q: Page
      ensures Pte(MapPages(m1, d, f, f, n, WRITABLE), d, q) ==
              if f <= q < f + n then 4096 * q + WRITABLE else Pte(m, d, q)
    {
      SelfMapPte(m1, d, f, n, WRITABLE, q);
    }
  }

  // ------------------------------------------------------------------
  // malloc.
  // ------------------------------------------------------------------

  /** The mapping both calls make for an allocation of `size` bytes at page `f`. */
  lemma SelfMapping(h: HeapDesc, m: Mem, d: Page, f: Page, size: Word, prot: Flags)
    requires h.Valid() && h.page <= f && H.Blocks(size) > 0 && f + H.Blocks(size) <= h.page + h.total
    ensures CreateMapping(m, d, 4096 * f, 4096 * f, AlignUp(Wrap(4096 * f + size)), prot) ==
            (MapPages(m, d, f, f, H.Blocks(size), prot), 0)
  {
    hide MapPages, Wrap, AlignUp;
    PagesOfSize(h, f, size);
  }

  /** A fitting request gets the first window, zeroed. */
  lemma ServedFrom(h: HeapDesc, m: Mem, size: Word, s: nat) returns (f: Page)
    requires H.HeapOk(m, h) && H.Blocks(size) > 0 && Window(H.TableOf(m, h), s, H.Blocks(size))
    ensures var (m1, ptr) := H.Kzalloc(m, h, size);
            && ptr == 4096 * f > 0 && h.page <= f && f + H.Blocks(size) <= h.page + h.total
            && f == h.page + FirstWindow(H.TableOf(m, h), H.Blocks(size), 0)
            && Zalloced(m, h, size, m1, ptr, f - h.page, H.Blocks(size))
  {
    hide H.Kzalloc, FreeCount, Kept;
    H.BlocksRoundsUp(size);
    ZallocFits(m, h, size, s);
    f := h.page + FirstWindow(H.TableOf(m, h), H.Blocks(size), 0);
  }

  lemma HeapOfJoint(h: HeapDesc, st: UserState)
    requires Joint(h, st)
    ensures H.HeapOk(st.m, h) && TablesOk(st.m, st.d) && TablesLive(st.m, h, st.d)
  {
  }

  /** The state after a served request. */
  ghost function Served(h: HeapDesc, st: UserState, size: Word, m1: Mem, f: Page, slot: nat): UserState
    requires slot < 1024
  {
    UserState(MapPages(m1, st.d, f, f, H.Blocks(size), WRITABLE), st.d,
              st.slots[slot := MemAllocation(4096 * f, size)])
  }

  lemma MallocUnfolds(h: HeapDesc, st: UserState, size: Word, m1: Mem, f: Page, slot: nat)
    requires h.Valid() && f > 0 && slot == Find(st.slots, 0, 0) && H.Kzalloc(st.m, h, size) == (m1, 4096 * f)
    requires CreateMapping(m1, st.d, 4096 * f, 4096 * f, AlignUp(Wrap(4096 * f + size)), WRITABLE) ==
             (MapPages(m1, st.d, f, f, H.Blocks(size), WRITABLE), 0)
    ensures UserMalloc(h, st, size) == (Served(h, st, size, m1, f, slot), 4096 * f)
  {
    hide MapPages, H.Kzalloc, Find, H.Blocks, CreateMapping, AlignUp, Wrap;
  }

  lemma MallocServes(h: HeapDesc, st: UserState, size: Word, s: nat) returns (m1: Mem, f: Page, slot: nat)
    requires Joint(h, st) && H.Blocks(size) > 0 && Window(H.TableOf(st.m, h), s, H.Blocks(size))
    requires Find(st.slots, 0, 0) >= 0
    ensures slot == Find(st.slots, 0, 0) && h.page <= f && H.Kzalloc(st.m, h, size) == (m1, 4096 * f)
    ensures f == h.page + FirstWindow(H.TableOf(st.m, h), H.Blocks(size), 0)
    ensures Zalloced(st.m, h, size, m1, 4096 * f, f - h.page, H.Blocks(size))
    ensures UserMalloc(h, st, size) == (Served(h, st, size, m1, f, slot), 4096 * f)
  {
    HeapOfJoint(h, st);
    hide MapPages, H.Kzalloc, Joint, Find, Zalloced, H.Blocks, CreateMapping, AlignUp, Wrap, UserMalloc, Served;
    f := ServedFrom(h, st.m, size, s);
    m1 := H.Kzalloc(st.m, h, size).0;
    slot := Find(st.slots, 0, 0);
    SelfMapping(h, m1, st.d, f, size, WRITABLE);
    MallocUnfolds(h, st, size, m1, f, slot);
  }

  /** The new slot, the old slots and the tables fit together. */
  lemma ServedJoint(h: HeapDesc, st: UserState, size: Word, m1: Mem, f: Page, slot: nat)
    requires Joint(h, st) && slot < 1024 && st.slots[slot].ptr == 0 && h.page <= f
    requires H.Blocks(size) > 0 && Zalloced(st.m, h, size, m1, 4096 * f, f - h.page, H.Blocks(size))
    ensures Joint(h, Served(h, st, size, m1, f, slot))
  {
    hide MapPages, SlotFine, H.Live, H.TableOf, FreeCount, Kept, TablesLive, TablesOk, IsTablePage, Pte;
    var r, n := Served(h, st, size, m1, f, slot), H.Blocks(size);
    MappedAfterZalloc(st.m, m1, h, st.d, size, f, n);
    NewSlotFine(h, st, size, m1, f);
    forall i | 0 <= i < 1024 && i != slot
      ensures SlotFine(h, r.m, r.d, st.slots[i]) && st.slots[i].ptr != 4096 * f
    {
      SlotApart(h, st, i, f - h.page, n);
      OldSlotFine(h, st.m, r.m, st.d, st.slots[i], f, n);
    }
  }

  lemma NewSlotFine(h: HeapDesc, st: UserState, size: Word, m1: Mem, f: Page)
    requires Joint(h, st) && h.page <= f
    requires H.Blocks(size) > 0 && Zalloced(st.m, h, size, m1, 4096 * f, f - h.page, H.Blocks(size))
    ensures SlotFine(h, MapPages(m1, st.d, f, f, H.Blocks(size), WRITABLE), st.d, MemAllocation(4096 * f, size))
  {
    hide MapPages, Pte, Frame, H.Live, H.TableOf, FreeCount, Kept, TablesLive, TablesOk, Distinct;
    var n := H.Blocks(size);
    PagesOfSize(h, f, size);
    TablesAfterZalloc(st.m, m1, h, st.d, size, f, n);
    assert !IsTablePage(st.m, st.d, f);
    MappedAfterZalloc(st.m, m1, h, st.d, size, f, n);
  }

  /** A slot stays in order when entries change only on other pages. */
  lemma OldSlotFine(h: HeapDesc, m: Mem, r: Mem, d: Page, s: MemAllocation, f: Page, n: nat)
    requires h.Valid() && SlotFine(h, m, d, s) && SameDir(m, r, d)
    requires var g := s.ptr / 4096; s.ptr == 0 || g + H.Blocks(s.size) <= f || f + n <= g
    requires forall q: Page | !(f <= q < f + n) :: Pte(r, d, q) == Pte(m, d, q)
    requires s.ptr != 0 ==>
             s.ptr / 4096 - h.page in H.Live(r, h) && H.Live(r, h)[s.ptr / 4096 - h.page] == H.Blocks(s.size)
    ensures SlotFine(h, r, d, s)
  {
    hide Pte, H.Live, Frame;
    var g := s.ptr / 4096;
    forall p: Page | s.ptr != 0 && g <= p < g + H.Blocks(s.size)
      ensures SelfMapped(r, d, p, WRITABLE)
    {
      assert SelfMapped(m, d, p, WRITABLE);
    }
  }

  /** The blocks of an occupied slot are live, not free. */
  lemma SlotApart(h: HeapDesc, st: UserState, i: nat, b: nat, n: nat)
    requires Joint(h, st) && i < 1024 && n > 0 && Window(H.TableOf(st.m, h), b, n)
    ensures var s := st.slots[i];
            var f := s.ptr / 4096;
            s.ptr != 0 ==>
              && f - h.page in H.Live(st.m, h) && H.Live(st.m, h)[f - h.page] == H.Blocks(s.size)
              && (f + H.Blocks(s.size) <= h.page + b || h.page + b + n <= f)
  {
    hide TablesLive, TablesOk, IsTablePage, SelfMapped, Distinct;
    assert SlotFine(h, st.m, st.d, st.slots[i]);
    if st.slots[i].ptr != 0 {
      var t, s, k := H.TableOf(st.m, h), st.slots[i].ptr / 4096 - h.page, H.Blocks(st.slots[i].size);
      AllocEntries(t, s);
      var c := if s > b then s else b;
      assert s <= c < s + k ==> t[c] == Entry(c - s, k);
      assert b <= c < b + n ==> IsFree(t[c]);
    }
  }

  /** A fitting request with no free slot gives the block back: the heap's table is
      restored, and no entry and no slot changes. */
  lemma MallocWithoutSlot(h: HeapDesc, st: UserState, size: Word, s: nat)
    requires Joint(h, st) && H.Blocks(size) > 0 && Window(H.TableOf(st.m, h), s, H.Blocks(size))
    requires Find(st.slots, 0, 0) < 0
    ensures var (r, ptr) := UserMalloc(h, st, size);
            && ptr == 0 && r.d == st.d && r.slots == st.slots && Joint(h, r)
            && H.TableOf(r.m, h) == H.TableOf(st.m, h) && SameTables(st.m, r.m, st.d)
  {
    HeapOfJoint(h, st);
    hide Joint, UserMalloc, Find, H.Kzalloc, H.Kfree, H.Blocks, Pte, Frame, H.Live, FreeCount, Kept, TablesLive;
    var n := H.Blocks(size);
    var f := ServedFrom(h, st.m, size, s);
    var (m1, ptr) := H.Kzalloc(st.m, h, size);
    TablesAfterZalloc(st.m, m1, h, st.d, size, f, n);
    GivenBack(h, st.m, m1, size, f, n);
    var r := H.Kfree(m1, h, ptr);
    TableChangeKeepsTables(m1, r, h, st.d);
    MallocGivesUp(h, st, size, m1, ptr);
    JointByTables(h, st, st.(m := r));
  }

  lemma MallocGivesUp(h: HeapDesc, st: UserState, size: Word, m1: Mem, ptr: Word)
    requires h.Valid() && H.Kzalloc(st.m, h, size) == (m1, ptr) && (ptr == 0 || Find(st.slots, 0, 0) < 0)
    ensures UserMalloc(h, st, size) == (st.(m := H.Kfree(m1, h, ptr)), 0)
  {
    hide H.Kzalloc, H.Kfree, Find, CreateMapping, AlignUp, Wrap;
  }

  lemma GivenBack(h: HeapDesc, m: Mem, m1: Mem, size: Word, f: Page, n: nat)
    requires h.page <= f && n > 0 && Zalloced(m, h, size, m1, 4096 * f, f - h.page, n)
    ensures var r := H.Kfree(m1, h, 4096 * f);
            H.HeapOk(r, h) && H.TableOf(r, h) == H.TableOf(m, h) && OnlyTable(m1, r, h)
  {
    hide FreeCount, Kept, H.TableOf, WellFormed, H.Live, Marked, Cleared, H.FreedMem;
    FreeLive(m1, h, f - h.page);
    ClearMarked(H.TableOf(m, h), f - h.page, n);
  }

  /** Tables that live in the heap do not share bytes with the heap's own table. */
  lemma TableChangeKeepsTables(m: Mem, r: Mem, h: HeapDesc, d: Page)
    requires H.HeapOk(m, h) && TablesOk(m, d) && TablesLive(m, h, d) && OnlyTable(m, r, h)
    ensures TablesOk(r, d) && SameTables(m, r, d)
  {
    hide H.Live, Slot;
    LivePageStable(m, m, h, d);
    forall i: nat | i < 1024
      ensures AgreeOnPage(m, r, Frame(m, d, i))
    {
      LivePageStable(m, m, h, Frame(m, d, i));
    }
    TablesFrame(m, r, d);
  }

  /** The invariant reads memory only through the heap's table and the page tables. */
  lemma JointByTables(h: HeapDesc, st: UserState, r: UserState)
    requires Joint(h, st) && r.d == st.d && r.slots == st.slots
    requires H.TableOf(r.m, h) == H.TableOf(st.m, h) && TablesOk(r.m, st.d) && SameTables(st.m, r.m, st.d)
    ensures Joint(h, r)
  {
    hide Pte, Frame, Distinct, SlotOk, IsTablePage, Allocs;
    forall i | 0 <= i < 1024
      ensures SlotFine(h, r.m, r.d, r.slots[i])
    {
      SlotByTables(h, st.m, r.m, st.d, st.slots[i]);
    }
  }

  lemma SlotByTables(h: HeapDesc, m: Mem, r: Mem, d: Page, s: MemAllocation)
    requires h.Valid() && SlotFine(h, m, d, s) && H.TableOf(r, h) == H.TableOf(m, h) && SameTables(m, r, d)
    ensures SlotFine(h, r, d, s)
  {
    hide Pte, Frame, Allocs, H.TableOf, IsTablePage, SelfMapped;
    OldSlotFine(h, m, r, d, s, 0, 0);
  }

  /** A refused request frees NULL, which is harmless when that walk stops below
      the heap's table. */
  ghost predicate NullFreeHarmless(h: HeapDesc, m: Mem) {
    LowTable(h) && StopsBelow(m, h, h.table - h.page)
  }

  lemma NullFreeKeeps(h: HeapDesc, m: Mem, d: Page)
    requires H.HeapOk(m, h) && TablesOk(m, d) && TablesLive(m, h, d) && NullFreeHarmless(h, m)
    ensures var r := H.Kfree(m, h, 0);
            H.TableOf(r, h) == H.TableOf(m, h) && TablesOk(r, d) && SameTables(m, r, d)
  {
    hide H.Live, Slot;
    var r := H.Kfree(m, h, 0);
    NullIndex(h);
    FreedBelow(m, h, h.BlockIndex(0));
    hide H.FreedMem, StopsBelow;
    assert H.TableOf(r, h) == H.TableOf(m, h);
    LivePageStable(m, m, h, d);
    forall i: nat | i < 1024
      ensures AgreeOnPage(m, r, Frame(m, d, i))
    {
      LivePageStable(m, m, h, Frame(m, d, i));
    }
    TablesFrame(m, r, d);
  }

  lemma MallocRefused(h: HeapDesc, st: UserState, size: Word)
    requires Joint(h, st) && MallocSafe(H.TableOf(st.m, h), H.Blocks(size)) && NullFreeHarmless(h, st.m)
    requires H.Blocks(size) == 0 || forall s: nat :: !Window(H.TableOf(st.m, h), s, H.Blocks(size))
    ensures var (r, ptr) := UserMalloc(h, st, size);
            && ptr == 0 && r.d == st.d && r.slots == st.slots && Joint(h, r)
            && H.TableOf(r.m, h) == H.TableOf(st.m, h) && SameTables(st.m, r.m, st.d)
  {
    HeapOfJoint(h, st);
    MallocRefuses(st.m, h, H.Blocks(size));
    assert H.Kzalloc(st.m, h, size) == (st.m, 0) by { hide H.MallocBlocks; }
    hide Joint, UserMalloc, H.Kzalloc, H.Kfree, H.MallocBlocks, MallocSafe, NullFreeHarmless, TablesLive;
    NullFreeKeeps(h, st.m, st.d);
    MallocGivesUp(h, st, size, st.m, 0);
    JointByTables(h, st, st.(m := H.Kfree(st.m, h, 0)));
  }

  /** What such a request does to the heap's table is what kfree(NULL) does to it: nothing,
      exactly when the walk stops below the table or block 0 is free. */
  lemma RefusedExact(h: HeapDesc, st: UserState, size: Word)
    requires H.HeapOk(st.m, h) && LowTable(h) && h.total > 0 && MallocSafe(H.TableOf(st.m, h), H.Blocks(size))
    requires H.Blocks(size) == 0 || forall s: nat :: !Window(H.TableOf(st.m, h), s, H.Blocks(size))
    ensures var (r, ptr) := UserMalloc(h, st, size);
            && ptr == 0 && r.slots == st.slots && r.d == st.d
            && (H.TableOf(r.m, h) == H.TableOf(st.m, h) <==>
                StopsBelow(st.m, h, h.table - h.page) || IsFree(H.TableOf(st.m, h)[0]))
  {
    MallocRefuses(st.m, h, H.Blocks(size));
    assert H.Kzalloc(st.m, h, size) == (st.m, 0) by { hide H.MallocBlocks; }
    hide UserMalloc, H.Kzalloc, H.Kfree, H.MallocBlocks, MallocSafe, H.TableOf, StopsBelow, WellFormed;
    MallocGivesUp(h, st, size, st.m, 0);
    NullFreeExact(st.m, h);
  }

  // ------------------------------------------------------------------
  // free.
  // ------------------------------------------------------------------

  /** The state after a known pointer is freed. */
  ghost function Released(h: HeapDesc, st: UserState, slot: nat): UserState
    requires slot < 1024
  {
    var s := st.slots[slot];
    var f: Page := s.ptr / 4096;
    UserState(H.Kfree(MapPages(st.m, st.d, f, f, H.Blocks(s.size), READ_ONLY), h, s.ptr), st.d,
              st.slots[slot := EMPTY])
  }

  lemma FindsSlot(slots: Slots, slot: nat)
    requires Distinct(slots) && slot < 1024 && slots[slot].ptr != 0
    ensures Find(slots, slots[slot].ptr, 0) == slot
  {
  }

  lemma FindsOccupied(h: HeapDesc, st: UserState, slot: nat)
    requires Joint(h, st) && slot < 1024 && st.slots[slot].ptr != 0
    ensures var s := st.slots[slot];
            var f := s.ptr / 4096;
            && Find(st.slots, s.ptr, 0) == slot && s.ptr == 4096 * f && h.page <= f
            && f - h.page in H.Live(st.m, h) && H.Live(st.m, h)[f - h.page] == H.Blocks(s.size) > 0
            && f + H.Blocks(s.size) <= h.page + h.total && !IsTablePage(st.m, st.d, f)
  {
    hide SelfMapped, TablesOk, TablesLive, IsTablePage, Find, Distinct;
    FindsSlot(st.slots, slot);
    assert SlotFine(h, st.m, st.d, st.slots[slot]);
    BlocksPositive(st.m, h, st.slots[slot].ptr / 4096 - h.page);
  }

  lemma FreeReleases(h: HeapDesc, st: UserState, slot: nat)
    requires Joint(h, st) && slot < 1024 && st.slots[slot].ptr != 0
    ensures UserFree(h, st, st.slots[slot].ptr) == Released(h, st, slot)
  {
    hide SlotFine, TablesOk, TablesLive, MapPages, H.Kfree, H.Blocks, CreateMapping, AlignUp, Wrap, Find, H.Live,
         Distinct;
    FindsOccupied(h, st, slot);
    var s := st.slots[slot];
    SelfMapping(h, st.m, st.d, s.ptr / 4096, s.size, READ_ONLY);
  }

  lemma BlocksPositive(m: Mem, h: HeapDesc, b: nat)
    requires h.Valid() && b in H.Live(m, h)
    ensures H.Live(m, h)[b] > 0
  {
  }

  /** What releasing pages f .. f+n-1 does to the heap and the flat map. */
  lemma ReleasedMemory(h: HeapDesc, m: Mem, d: Page, f: Page, n: nat)
    requires H.HeapOk(m, h) && TablesOk(m, d) && TablesLive(m, h, d) && !IsTablePage(m, d, f)
    requires h.page <= f && f - h.page in H.Live(m, h) && H.Live(m, h)[f - h.page] == n > 0 && f + n <= h.page + h.total
    ensures var r := H.Kfree(MapPages(m, d, f, f, n, READ_ONLY), h, 4096 * f);
            && H.HeapOk(r, h) && TablesOk(r, d) && TablesLive(r, h, d) && SameDir(m, r, d)
            && H.Live(r, h) == H.Live(m, h) - {f - h.page}
            && H.TableOf(r, h) == Cleared(H.TableOf(m, h), f - h.page, n)
            && (forall q: Page :: Pte(r, d, q) == if f <= q < f + n then 4096 * q + READ_ONLY else Pte(m, d, q))
  {
    hide MapPages, Pte, Frame, H.Live, H.TableOf, H.FreedMem;
    var m1 := MapPages(m, d, f, f, n, READ_ONLY);
    MapKeepsHeap(m, h, d, f, f, n, READ_ONLY);
    FreeLive(m1, h, f - h.page);
    var r := H.Kfree(m1, h, h.Addr(f - h.page));
    TableChangeKeepsTables(m1, r, h, d);
    forall q: Page
      ensures Pte(r, d, q) == if f <= q < f + n then 4096 * q + READ_ONLY else Pte(m, d, q)
    {
      SelfMapPte(m, d, f, n, READ_ONLY, q);
    }
  }

  lemma SlotsDisjoint(h: HeapDesc, st: UserState, i: nat, j: nat)
    requires Joint(h, st) && i < 1024 && j < 1024 && i != j && st.slots[i].ptr != 0 && st.slots[j].ptr != 0
    ensures var f, g := st.slots[i].ptr / 4096, st.slots[j].ptr / 4096;
            f != g && (f + H.Blocks(st.slots[i].size) <= g || g + H.Blocks(st.slots[j].size) <= f)
  {
    hide Joint, Find, H.Blocks, TablesOk, TablesLive, IsTablePage;
    HeapOfJoint(h, st);
    FindsOccupied(h, st, i);
    FindsOccupied(h, st, j);
    var t, b, c := H.TableOf(st.m, h), st.slots[i].ptr / 4096 - h.page, st.slots[j].ptr / 4096 - h.page;
    if b < c { AllocsDisjoint(t, b, c); } else if c < b { AllocsDisjoint(t, c, b); }
  }

  lemma ReleasedJoint(h: HeapDesc, st: UserState, slot: nat)
    requires Joint(h, st) && slot < 1024 && st.slots[slot].ptr != 0
    ensures Joint(h, Released(h, st, slot))
  {
    hide MapPages, Pte, H.Live, H.TableOf, H.Kfree, SlotOk, TablesOk, TablesLive, IsTablePage, Find, H.Blocks,
         WellFormed;
    var r, s := Released(h, st, slot), st.slots[slot];
    var f, n := s.ptr / 4096, H.Blocks(s.size);
    FindsOccupied(h, st, slot);
    ReleasedMemory(h, st.m, st.d, f, n);
    forall i | 0 <= i < 1024 && i != slot
      ensures SlotFine(h, r.m, r.d, st.slots[i])
    {
      if st.slots[i].ptr != 0 {
        SlotsDisjoint(h, st, i, slot);
        FindsOccupied(h, st, i);
        OldSlotFine(h, st.m, r.m, st.d, st.slots[i], f, n);
      }
    }
  }

  // ------------------------------------------------------------------
  // Whole runs.
  // ------------------------------------------------------------------

  datatype Call = MallocCall(size: Word) | FreeCall(ptr: Word)

  ghost function Step(h: HeapDesc, st: UserState, call: Call): UserState
    requires h.Valid()
  {
    match call
    case MallocCall(size) => UserMalloc(h, st, size).0
    case FreeCall(ptr) => UserFree(h, st, ptr)
  }

  /** A malloc must be one the heap serves safely; a malloc that is refused, and a
      free of NULL while a slot is empty, must meet a harmless kfree(NULL).  Any
      other pointer may be freed, known or not. */
  ghost predicate Allowed(h: HeapDesc, st: UserState, call: Call)
    requires h.Valid()
  {
    match call
    case MallocCall(size) =>
      && MallocSafe(H.TableOf(st.m, h), H.Blocks(size))
      && ((H.Blocks(size) > 0 && exists s: nat :: Window(H.TableOf(st.m, h), s, H.Blocks(size)))
          || NullFreeHarmless(h, st.m))
    case FreeCall(ptr) => ptr != 0 || Find(st.slots, 0, 0) < 0 || NullFreeHarmless(h, st.m)
  }

  lemma MallocKeeps(h: HeapDesc, st: UserState, size: Word)
    requires Joint(h, st) && Allowed(h, st, MallocCall(size))
    ensures Joint(h, UserMalloc(h, st, size).0)
  {
    hide Joint, UserMalloc, Find, MallocSafe, NullFreeHarmless, Zalloced, Served, H.Blocks, Window;
    HeapOfJoint(h, st);
    if s: nat :| H.Blocks(size) > 0 && Window(H.TableOf(st.m, h), s, H.Blocks(size)) {
      if Find(st.slots, 0, 0) >= 0 {
        var m1, f, slot := MallocServes(h, st, size, s);
        ServedJoint(h, st, size, m1, f, slot);
      } else {
        MallocWithoutSlot(h, st, size, s);
      }
    } else {
      MallocRefused(h, st, size);
    }
  }

  lemma EmptySlot(h: HeapDesc, st: UserState, slot: nat)
    requires Joint(h, st) && slot < 1024 && st.slots[slot].ptr == 0
    ensures st.slots[slot] == EMPTY
  {
    hide SlotOk, TablesOk, TablesLive, IsTablePage, Distinct, WellFormed;
    assert SlotFine(h, st.m, st.d, st.slots[slot]);
  }

  lemma EmptyMapping(m: Mem, d: Page, f: Page, prot: Flags)
    ensures CreateMapping(m, d, 4096 * f, 4096 * f, AlignUp(Wrap(4096 * f)), prot) == (m, 0)
  {
    hide SetPte;
  }

  lemma FreeOfNull(h: HeapDesc, st: UserState)
    requires Joint(h, st) && Find(st.slots, 0, 0) >= 0
    ensures UserFree(h, st, 0) == st.(m := H.Kfree(st.m, h, 0))
  {
    hide H.Kfree, Joint, CreateMapping, AlignUp;
    var slot := Find(st.slots, 0, 0);
    EmptySlot(h, st, slot);
    EmptyMapping(st.m, st.d, 0, READ_ONLY);
    assert st.slots[slot := EMPTY] == st.slots;
  }

  /** So free(NULL), while a slot is empty, keeps the heap's table on the same condition. */
  lemma FreeNullExact(h: HeapDesc, st: UserState)
    requires Joint(h, st) && LowTable(h) && Find(st.slots, 0, 0) >= 0
    ensures var r := UserFree(h, st, 0);
            && r.slots == st.slots && r.d == st.d && h.total > 0
            && (H.TableOf(r.m, h) == H.TableOf(st.m, h) <==>
                StopsBelow(st.m, h, h.table - h.page) || IsFree(H.TableOf(st.m, h)[0]))
  {
    hide Joint, UserFree, H.Kfree, H.TableOf, StopsBelow, WellFormed, Find, TablesOk, H.Live, Frame, Kept;
    HeapOfJoint(h, st);
    LivePageStable(st.m, st.m, h, st.d);
    FreeOfNull(h, st);
    NullFreeExact(st.m, h);
  }

  lemma FreeKeeps(h: HeapDesc, st: UserState, ptr: Word)
    requires Joint(h, st) && Allowed(h, st, FreeCall(ptr))
    ensures Joint(h, UserFree(h, st, ptr))
  {
    HeapOfJoint(h, st);
    var slot := Find(st.slots, ptr, 0);
    hide Joint, H.Kfree, Released, NullFreeHarmless, TablesOk, TablesLive, CreateMapping, AlignUp, Wrap;
    if slot >= 0 {
      if ptr == 0 {
        FreeOfNull(h, st);
        NullFreeKeeps(h, st.m, st.d);
        JointByTables(h, st, st.(m := H.Kfree(st.m, h, 0)));
      } else {
        FreeReleases(h, st, slot);
        ReleasedJoint(h, st, slot);
      }
    }
  }

  ghost function Run(h: HeapDesc, st: UserState, calls: seq<Call>): UserState
    requires h.Valid()
  {
    if calls == [] then st else Step(h, Run(h, st, calls[..|calls| - 1]), calls[|calls| - 1])
  }

  /** Over every run of allowed calls, every occupied slot is one live allocation of
      exactly its size, slots and page tables are apart, and slot pages map to
      themselves, writable. */
  lemma {:induction false} RunKeepsJoint(h: HeapDesc, st: UserState, calls: seq<Call>)
    requires Joint(h, st)
    requires forall i | 0 <= i < |calls| :: Allowed(h, Run(h, st, calls[..i]), calls[i])
    ensures Joint(h, Run(h, st, calls))
  {
    hide Joint, UserMalloc, UserFree, Allowed;
    HeapOfJoint(h, st);
    if calls != [] {
      var init, call := calls[..|calls| - 1], calls[|calls| - 1];
      forall i | 0 <= i < |init|
        ensures Allowed(h, Run(h, st, init[..i]), init[i])
      {
        assert init[..i] == calls[..i];
      }
      RunKeepsJoint(h, st, init);
      assert Allowed(h, Run(h, st, calls[..|calls| - 1]), call);
      match call
      case MallocCall(size) => MallocKeeps(h, Run(h, st, init), size);
      case FreeCall(ptr) => FreeKeeps(h, Run(h, st, init), ptr);
    }
  }

  // ------------------------------------------------------------------
  // malloc then free.
  // ------------------------------------------------------------------

  /** The pages map to themselves, with the flags "present" and "user" alone. */
  ghost predicate ReadOnlySelfMapped(m: Mem, d: Page, f: Page, n: nat) {
    forall p: Page | f <= p < f + n :: SelfMapped(m, d, p, 5)
  }

  lemma ServedThenReleased(h: HeapDesc, st: UserState, size: Word, m1: Mem, f: Page, slot: nat)
    requires Joint(h, st) && slot < 1024 && st.slots[slot].ptr == 0 && h.page <= f
    requires H.Blocks(size) > 0 && Zalloced(st.m, h, size, m1, 4096 * f, f - h.page, H.Blocks(size))
    ensures var r := Released(h, Served(h, st, size, m1, f, slot), slot);
            && r.slots == st.slots && r.d == st.d && H.TableOf(r.m, h) == H.TableOf(st.m, h)
            && SameDir(st.m, r.m, st.d)
            && (forall q: Page :: Pte(r.m, st.d, q) ==
                  if f <= q < f + H.Blocks(size) then 4096 * q + READ_ONLY else Pte(st.m, st.d, q))
  {
    hide Joint, MapPages, Pte, H.Live, H.TableOf, H.Kfree, TablesOk, TablesLive, IsTablePage, FreeCount, Kept, Frame,
         Find, WellFormed, H.Blocks, Window, Marked, Cleared, SelfMapped;
    HeapOfJoint(h, st);
    var n := H.Blocks(size);
    var st1 := Served(h, st, size, m1, f, slot);
    MappedAfterZalloc(st.m, m1, h, st.d, size, f, n);
    ServedJoint(h, st, size, m1, f, slot);
    FindsOccupied(h, st1, slot);
    ReleasedMemory(h, st1.m, st.d, f, n);
    ClearMarked(H.TableOf(st.m, h), f - h.page, n);
    EmptySlot(h, st, slot);
    assert st.slots[slot := MemAllocation(4096 * f, size)][slot := EMPTY] == st.slots;
  }

  /** free undoes malloc: the heap's table and the slots are restored, and the page
      table entries exactly when the pages were mapped to themselves read-only. */
  lemma FreeUndoesMalloc(h: HeapDesc, st: UserState, size: Word, s: nat) returns (f: Page)
    requires Joint(h, st) && H.Blocks(size) > 0 && Window(H.TableOf(st.m, h), s, H.Blocks(size))
    requires Find(st.slots, 0, 0) >= 0
    ensures var (st1, ptr) := UserMalloc(h, st, size);
            var r := UserFree(h, st1, ptr);
            && f == h.page + FirstWindow(H.TableOf(st.m, h), H.Blocks(size), 0) && ptr == 4096 * f > 0
            && H.TableOf(r.m, h) == H.TableOf(st.m, h) && r.slots == st.slots && r.d == st.d
            && (SameTables(st.m, r.m, st.d) <==> ReadOnlySelfMapped(st.m, st.d, f, H.Blocks(size)))
  {
    hide Joint, UserMalloc, UserFree, Released, Served, Pte, H.Blocks, Zalloced, H.TableOf, Window, Frame;
    HeapOfJoint(h, st);
    var m1, slot;
    m1, f, slot := MallocServes(h, st, size, s);
    var st1 := Served(h, st, size, m1, f, slot);
    ServedJoint(h, st, size, m1, f, slot);
    ServedSlot(h, st, size, m1, f, slot);
    FreeReleases(h, st1, slot);
    ServedThenReleased(h, st, size, m1, f, slot);
    var r := Released(h, st1, slot);
    forall p: Page | SameTables(st.m, r.m, st.d) && f <= p < f + H.Blocks(size)
      ensures SelfMapped(st.m, st.d, p, 5)
    {
      assert Pte(r.m, st.d, p) == Pte(st.m, st.d, p);
    }
    forall p: Page | ReadOnlySelfMapped(st.m, st.d, f, H.Blocks(size))
      ensures Pte(r.m, st.d, p) == Pte(st.m, st.d, p)
    {
      assert f <= p < f + H.Blocks(size) ==> SelfMapped(st.m, st.d, p, 5);
    }
  }

  lemma SlotFlags(p: Page)
    ensures Writable(4096 * (p as int) + WRITABLE) && !Writable(4096 * (p as int) + READ_ONLY)
  {
    FlagsOfEntry(p, WRITABLE);
    FlagsOfEntry(p, READ_ONLY);
  }

  /** After free, the process can write no page of the block any more. */
  lemma FreeWithdraws(h: HeapDesc, st: UserState, slot: nat, p: Page)
    requires Joint(h, st) && slot < 1024 && st.slots[slot].ptr != 0
    requires st.slots[slot].ptr / 4096 <= p < st.slots[slot].ptr / 4096 + H.Blocks(st.slots[slot].size)
    ensures Writable(Pte(st.m, st.d, p))
    ensures var r := UserFree(h, st, st.slots[slot].ptr);
            r.slots == st.slots[slot := EMPTY] && !Writable(Pte(r.m, r.d, p))
  {
    hide Joint, UserFree, MapPages, Pte, H.Live, H.TableOf, H.Kfree, TablesOk, TablesLive, IsTablePage, Find, H.Blocks,
         WellFormed, Writable, Distinct, Frame;
    HeapOfJoint(h, st);
    FindsOccupied(h, st, slot);
    FreeReleases(h, st, slot);
    ReleasedMemory(h, st.m, st.d, st.slots[slot].ptr / 4096, H.Blocks(st.slots[slot].size));
    SlotFlags(p);
    SlotSelfMapped(h, st, slot, p);
  }

  lemma SlotSelfMapped(h: HeapDesc, st: UserState, slot: nat, p: Page)
    requires Joint(h, st) && slot < 1024 && st.slots[slot].ptr != 0
    requires st.slots[slot].ptr / 4096 <= p < st.slots[slot].ptr / 4096 + H.Blocks(st.slots[slot].size)
    ensures Pte(st.m, st.d, p) == 4096 * p + WRITABLE
  {
    hide TablesOk, TablesLive, IsTablePage, Distinct, Pte, H.Live, H.Blocks, WellFormed;
    assert SlotFine(h, st.m, st.d, st.slots[slot]);
    assert SelfMapped(st.m, st.d, p, WRITABLE);
  }

  lemma ServedSlot(h: HeapDesc, st: UserState, size: Word, m1: Mem, f: Page, slot: nat)
    requires slot < 1024 && h.page <= f && Zalloced(st.m, h, size, m1, 4096 * f, f - h.page, H.Blocks(size))
    ensures Served(h, st, size, m1, f, slot).slots[slot].ptr == 4096 * f > 0
  {
    hide MapPages;
  }

  // ------------------------------------------------------------------
  // Requests for no block: malloc(0), and sizes that wrap when they are rounded up.
  // ------------------------------------------------------------------

  lemma ZeroBlocks(h: HeapDesc, m: Mem)
    requires H.HeapOk(m, h) && !MallocSafe(H.TableOf(m, h), 0)
    ensures var b := TailStart(H.TableOf(m, h));
            b < h.total && IsFree(H.TableOf(m, h)[b]) && H.Kzalloc(m, h, 0) == (m, 4096 * (h.page + b))
  {
    var t := H.TableOf(m, h);
    var b := TailStart(t);
    assert H.Blocks(0) == 0;
    assert H.MarkedMem(m, h, b, 0, 0) == m;
    assert Zeroed(m, h.Addr(b), 0) == m;
  }

  lemma FreeOfFree(h: HeapDesc, m: Mem, b: nat)
    requires H.HeapOk(m, h) && b < h.total && IsFree(H.TableOf(m, h)[b])
    ensures H.Kfree(m, h, 4096 * (h.page + b)) == m
  {
    assert EntryOk(H.TableOf(m, h), b);
    BlockAddress(h, b);
    FreedUnfold(m, h, b);
    assert m[h.table + b] == H.TableOf(m, h)[b];
    assert m[h.table + b := FREE] == m;
  }

  /** A request for no bytes hands out a block that stays free, so it breaks the
      invariant exactly when the heap ends in free blocks and a slot is empty. */
  lemma ZeroSizeExact(h: HeapDesc, st: UserState)
    requires Joint(h, st) && NullFreeHarmless(h, st.m)
    ensures Joint(h, UserMalloc(h, st, 0).0) <==> !LastFree(h, st.m) || Find(st.slots, 0, 0) < 0
  {
    hide Joint, UserMalloc, Find, NullFreeHarmless, H.Kzalloc, H.Kfree, TailStart;
    HeapOfJoint(h, st);
    LastFreeUnsafe(h, st.m);
    if !LastFree(h, st.m) {
      MallocRefused(h, st, 0);
    } else {
      ZeroBlocks(h, st.m);
      var b := TailStart(H.TableOf(st.m, h));
      if Find(st.slots, 0, 0) < 0 {
        MallocGivesUp(h, st, 0, st.m, 4096 * (h.page + b));
        FreeOfFree(h, st.m, b);
      } else {
        ZeroSizeBreaks(h, st, b);
      }
    }
  }

  /** The heap's last block is free. */
  predicate LastFree(h: HeapDesc, m: Mem)
    requires h.Valid()
  {
    h.total > 0 && IsFree(H.TableOf(m, h)[h.total - 1])
  }

  lemma LastFreeUnsafe(h: HeapDesc, m: Mem)
    requires h.Valid()
    ensures MallocSafe(H.TableOf(m, h), 0) <==> !LastFree(h, m)
  {
    hide IsFree;
  }

  lemma ZeroSizeBreaks(h: HeapDesc, st: UserState, b: nat)
    requires h.Valid() && b < h.total && H.Kzalloc(st.m, h, 0) == (st.m, 4096 * (h.page + b))
    requires Find(st.slots, 0, 0) >= 0
    ensures !Joint(h, UserMalloc(h, st, 0).0)
  {
    hide H.Kzalloc, WellFormed, TablesOk, TablesLive, IsTablePage, Distinct, CreateMapping, AlignUp, Wrap, H.Live;
    var r, slot := UserMalloc(h, st, 0).0, Find(st.slots, 0, 0);
    EmptyMapping(st.m, st.d, h.page + b, WRITABLE);
    assert r.slots[slot] == MemAllocation(4096 * (h.page + b), 0);
    assert !SlotFine(h, r.m, r.d, r.slots[slot]);
  }

  /** A size past 0xFFFFF000 asks for no block but has all its bytes cleared: nearly all
      of memory, with the heap's own table. */
  lemma HugeSizeWipes(h: HeapDesc, m: Mem, size: Word)
    requires H.HeapOk(m, h) && LastFree(h, m) && TailStart(H.TableOf(m, h)) > 0 && size > 0xFFFF_F000
    ensures var p: Word := 4096 * (h.page + TailStart(H.TableOf(m, h)));
            && H.Kzalloc(m, h, size) == (Zeroed(m, p, size), p)
            && (forall a: Word | H.InTable(h, a) :: Zeroed(m, p, size)[a] == 0)
  {
    hide Zeroed, TailStart, WellFormed, FirstWindow;
    var b := TailStart(H.TableOf(m, h));
    LastFreeUnsafe(h, m);
    H.BlocksRoundsUp(size);
    NothingMarked(m, h, b);
    var p: Word := 4096 * (h.page + b);
    forall a: Word | H.InTable(h, a)
      ensures Zeroed(m, p, size)[a] == 0
    {
      assert Wrap(a - p) == if a < p then a - p + 0x1_0000_0000 else a - p;
    }
  }

  lemma NothingMarked(m: Mem, h: HeapDesc, b: nat)
    requires h.Valid() && b < h.total
    ensures H.MarkedMem(m, h, b, 0, 0) == m
  {
  }

  lemma TablesInTail(h: HeapDesc, st: UserState)
    requires Joint(h, st)
    ensures TailStart(H.TableOf(st.m, h)) > 0
  {
    hide TablesOk, Distinct, SlotFine, Frame;
    assert EntryOk(H.TableOf(st.m, h), st.d - h.page);
  }

  /** An empty table has no live page for the directory. */
  lemma WipedBreaks(h: HeapDesc, st: UserState)
    requires h.Valid() && forall a: Word | H.InTable(h, a) :: st.m[a] == 0
    ensures !Joint(h, st) && H.HeapOk(st.m, h)
  {
    hide TablesOk, Distinct, SlotFine, Frame;
    assert forall i: nat | i < h.total :: H.TableOf(st.m, h)[i] == st.m[h.table + i];
    assert forall i: nat | i < h.total :: EntryOk(H.TableOf(st.m, h), i);
    assert H.Live(st.m, h) == map[];
  }

  /** Rounded up, such a size ends where it starts, so no page is mapped. */
  lemma HugeSizeMapsNothing(m: Mem, d: Page, f: Page, size: Word)
    requires f > 0 && size > 0xFFFF_F000
    ensures CreateMapping(m, d, 4096 * f, 4096 * f, AlignUp(Wrap(4096 * f + size)), WRITABLE) == (m, 0)
  {
    hide CreateMapping, Wrap;
    var k := 0x1_0000_0000 - size;
    WrapOnce(4096 * f + size);
    DivModUnique(4096 * f - k, 4096, f - 1, 4096 - k);
    EmptyMapping(m, d, f, WRITABLE);
  }

  /** It breaks the invariant exactly when the heap ends in free blocks. */
  lemma HugeSizeExact(h: HeapDesc, st: UserState, size: Word)
    requires Joint(h, st) && NullFreeHarmless(h, st.m) && size > 0xFFFF_F000
    ensures Joint(h, UserMalloc(h, st, size).0) <==> !LastFree(h, st.m)
  {
    hide Joint, NullFreeHarmless, UserMalloc, LastFree, MallocSafe, WellFormed, H.Blocks;
    HeapOfJoint(h, st);
    LastFreeUnsafe(h, st.m);
    H.BlocksRoundsUp(size);
    if !LastFree(h, st.m) {
      MallocRefused(h, st, size);
    } else {
      HugeSizeBreaks(h, st, size);
    }
  }

  lemma HugeSizeBreaks(h: HeapDesc, st: UserState, size: Word)
    requires Joint(h, st) && size > 0xFFFF_F000 && LastFree(h, st.m)
    ensures !Joint(h, UserMalloc(h, st, size).0)
  {
    hide Joint, Find, H.Kzalloc, H.Kfree, TailStart, CreateMapping, AlignUp, Wrap, Zeroed, WellFormed, LastFree;
    HeapOfJoint(h, st);
    TablesInTail(h, st);
    HugeSizeWipes(h, st.m, size);
    var b := TailStart(H.TableOf(st.m, h));
    var m1 := H.Kzalloc(st.m, h, size).0;
    WipedBreaks(h, st.(m := m1));
    TailInHeap(h, st.m);
    assert H.TableOf(m1, h)[b] == m1[h.table + b];
    FreeOfFree(h, m1, b);
    HugeSizeMapsNothing(m1, st.d, h.page + b, size);
    WipedBreaks(h, UserMalloc(h, st, size).0);
  }

  lemma TailInHeap(h: HeapDesc, m: Mem)
    requires h.Valid() && LastFree(h, m)
    ensures TailStart(H.TableOf(m, h)) < h.total
  {
  }

  /** The sizes that ask for no block are 0 and those past 0xFFFFF000; on them malloc keeps
      the invariant exactly when the heap's last block is taken, or for 0 when no slot is
      left. */
  lemma NoBlocksExact(h: HeapDesc, st: UserState, size: Word)
    requires Joint(h, st) && NullFreeHarmless(h, st.m) && H.Blocks(size) == 0
    ensures Joint(h, UserMalloc(h, st, size).0) <==> !LastFree(h, st.m) || (size == 0 && Find(st.slots, 0, 0) < 0)
  {
    hide Joint, UserMalloc, Find, NullFreeHarmless, LastFree;
    HeapOfJoint(h, st);
    H.BlocksRoundsUp(size);
    if size == 0 {
      ZeroSizeExact(h, st);
    } else {
      HugeSizeExact(h, st, size);
    }
  }

  // ------------------------------------------------------------------
  // The calls themselves.
  // ------------------------------------------------------------------

  /** The part of `struct process` the two calls use. */
  class Process {
    const memAllocs: array<MemAllocation>
    /** Page of the task's directory. */
    const dir: Page

    ghost predicate Valid() {
      memAllocs.Length == 1024
    }

    ghost function State(ram: Ram): UserState
      requires Valid() && ram.Valid()
      reads ram.bytes, memAllocs
    {
      UserState(ram.View(), dir, memAllocs[..])
    }

    /** Both slot searches: the first slot holding `ptr`. */
    method FindSlot(ptr: Word) returns (slot: int)
      requires Valid()
      ensures slot == Find(memAllocs[..], ptr, 0)
    {
      for i := 0 to MAX_ALLOCATIONS
        invariant Find(memAllocs[..], ptr, i) == Find(memAllocs[..], ptr, 0)
      {
        if memAllocs[i].ptr == ptr {
          return i;
        }
      }
      slot := -1;
    }

    method MallocSyscall(ram: Ram, h: HeapDesc, size: Word) returns (ptr: Word)
      requires Valid() && ram.Valid() && h.Valid()
      modifies ram.bytes, memAllocs
      ensures (State(ram), ptr) == UserMalloc(h, old(State(ram)), size)
    {
      hide H.Kzalloc, H.Kfree, CreateMapping, AlignUp, Wrap;
      ptr := H.HeapZalloc(ram, h, size);
      if ptr == 0 {
        H.HeapFree(ram, h, ptr);
        return 0;
      }
      var slot := FindSlot(0);
      if slot < 0 {
        H.HeapFree(ram, h, ptr);
        return 0;
      }
      var rc := PagingCreateMapping(ram, dir, ptr, ptr, AlignUp(Wrap(ptr + size)), WRITABLE);
      if rc < 0 {
        H.HeapFree(ram, h, ptr);
        return 0;
      }
      memAllocs[slot] := MemAllocation(ptr, size);
    }

    method FreeSyscall(ram: Ram, h: HeapDesc, ptr: Word)
      requires Valid() && ram.Valid()
      modifies ram.bytes, memAllocs
      ensures State(ram) == UserFree(h, old(State(ram)), ptr)
    {
      hide H.Kfree, CreateMapping, AlignUp, Wrap, Find;
      var slot := FindSlot(ptr);
      if slot < 0 {
        return;
      }
      var alloc := memAllocs[slot];
      var rc := PagingCreateMapping(ram, dir, alloc.ptr, alloc.ptr, AlignUp(Wrap(alloc.ptr + alloc.size)), READ_ONLY);
      if rc < 0 {
        return;
      }
      H.HeapFree(ram, h, ptr);
      memAllocs[slot] := EMPTY;
    }
  }
}
