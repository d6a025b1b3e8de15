/** Building a directory and its 1024 tables out of heap blocks. */
module PageTables {
  import opened Bits
  import opened Memory
  import opened HeapTable
  import H = Heap
  import opened HeapSafety
  import opened HeapFrames
  import opened Paging

  type HeapDesc = H.HeapDesc

  /** Entries 0 .. n-1 of table `f`, mapping the pages from `base` on to themselves. */
  function Filled(m: Mem, f: Page, base: nat, flags: Flags, n: nat): Mem
    requires n <= 1024 && base + 1024 <= 0x10_0000
  {
    if n == 0 then m else SetSlot(Filled(m, f, base, flags, n - 1), f, n - 1, 4096 * (base + n - 1) + flags)
  }

  /** The flag bits of a directory entry: `flags | PAGING_READ_WRITE`. */
  function DirFlags(flags: Byte): (r: Flags) {
    assert Pow2(8) == 0x100;
    OrBound(flags, PAGING_READ_WRITE, 8);
    Or(flags, PAGING_READ_WRITE)
  }

  /** One turn of the loop of `init_page_tables`: a table for directory entry `n`. */
  ghost function InitTurn(m: Mem, h: HeapDesc, d: Page, flags: Byte, n: nat): Mem
    requires h.Valid() && n < 1024
  {
    var (m1, p) := H.Kzalloc(m, h, 4096);
    SetSlot(Filled(m1, p / 4096, 1024 * n, flags, 1024), d, n, 4096 * (p / 4096) + DirFlags(flags))
  }

  /** Memory after the first `n` turns. */
  ghost function InitTables(m: Mem, h: HeapDesc, d: Page, flags: Byte, n: nat): Mem
    requires h.Valid() && n <= 1024
  {
    if n == 0 then m else InitTurn(InitTables(m, h, d, flags, n - 1), h, d, flags, n - 1)
  }

  /** `init_page_tables`: memory and the descriptor, whose one word is the directory. */
  ghost function InitialTables(m: Mem, h: HeapDesc, flags: Byte): (Mem, Word)
    requires h.Valid()
  {
    var (m1, pgd) := H.Kzalloc(m, h, 4096);
    var m2 := InitTables(m1, h, pgd / 4096, flags, 1024);
    var (m3, desc) := H.Kzalloc(m2, h, 4);
    (SetSlot(m3, desc / 4096, 0, pgd), desc)
  }

  /** Page `f` is one whole live allocation. */
  ghost predicate LivePage(m: Mem, h: HeapDesc, f: Page)
    requires h.Valid()
  {
    h.page <= f && f - h.page in H.Live(m, h) && H.Live(m, h)[f - h.page] == 1
  }

  /** Page `f` is a free block of the heap. */
  ghost predicate FreePage(m: Mem, h: HeapDesc, f: Page)
    requires h.Valid()
  {
    h.page <= f < h.page + h.total && IsFree(H.TableOf(m, h)[f - h.page])
  }

  lemma LivePageStable(m: Mem, r: Mem, h: HeapDesc, f: Page)
    requires H.HeapOk(m, h) && LivePage(m, h, f)
    ensures !FreePage(m, h, f) && f < h.page + h.total
    ensures forall a: Word | InPage(f, a) :: Stable(m, h, a)
    ensures Kept(m, r, h) ==> AgreeOnPage(m, r, f)
  {
    var b := f - h.page;
    AllocEntries(H.TableOf(m, h), b);
    forall a: Word | InPage(f, a)
      ensures Stable(m, h, a)
    {
      LiveStable(m, h, b, b, a);
    }
  }

  lemma FreePageUnstable(m: Mem, h: HeapDesc, f: Page, a: Word)
    requires h.Valid() && FreePage(m, h, f) && InPage(f, a)
    ensures !Stable(m, h, a) && !H.InTable(h, a)
  {
    assert InBlock(h, f - h.page, a);
  }

  lemma {:induction false} FilledSlots(m: Mem, f: Page, base: nat, flags: Flags, n: nat)
    requires n <= 1024 && base + 1024 <= 0x10_0000
    ensures forall k: nat | k < n :: Slot(Filled(m, f, base, flags, n), f, k) == 4096 * (base + k) + flags
    ensures forall g: Page, k: nat | k < 1024 && g != f :: Slot(Filled(m, f, base, flags, n), g, k) == Slot(m, g, k)
    ensures forall a: Word | !InPage(f, a) :: Filled(m, f, base, flags, n)[a] == m[a]
  {
    hide Slot, SetSlot;
    if n > 0 {
      FilledSlots(m, f, base, flags, n - 1);
    }
  }

  // ------------------------------------------------------------------
  // The loop invariant.
  // ------------------------------------------------------------------

  /** The heap side: new tables are one-block allocations that were free at `m0`. */
  ghost predicate Carved(m0: Mem, m: Mem, h: HeapDesc, d: Page, n: nat)
    requires n <= 1024
  {
    && H.HeapOk(m0, h) && H.HeapOk(m, h) && Kept(m0, m, h)
    && LivePage(m, h, d) && FreePage(m0, h, d)
    && (forall i: nat | i < n :: LivePage(m, h, Frame(m, d, i)) && FreePage(m0, h, Frame(m, d, i)))
    && (forall b | b in H.Live(m0, h) :: b in H.Live(m, h) && H.Live(m, h)[b] == H.Live(m0, h)[b])
    && FreeCount(H.TableOf(m, h)) == FreeCount(H.TableOf(m0, h)) - 1 - n
  }

  /** The paging side: the first `n` tables are distinct and map pages to themselves. */
  ghost predicate IdentityUpTo(m: Mem, d: Page, flags: Flags, n: nat)
    requires n <= 1024
  {
    && (forall i: nat | i < n :: Frame(m, d, i) != d)
    && (forall i: nat, j: nat | i < j < n :: Frame(m, d, i) != Frame(m, d, j))
    && (forall i: nat, k: nat | i < n && k < 1024 ::
          Slot(m, Frame(m, d, i), k) == 4096 * (1024 * i + k) + flags)
  }

  /** What one turn of the loop does to memory: a fresh page `f` is carved out and
      filled, and entry `n` of the directory names it. */
  ghost predicate Turn(m: Mem, m1: Mem, r: Mem, h: HeapDesc, d: Page, flags: Flags, dirFlags: Flags, n: nat, f: Page)
    requires n < 1024
  {
    && h.page <= f && Zalloced(m, h, 4096, m1, 4096 * f, f - h.page, 1)
    && r == SetSlot(Filled(m1, f, 1024 * n, flags, 1024), d, n, 4096 * f + dirFlags)
  }

  /** Pages other than the directory and the new table are as kzalloc left them. */
  lemma TurnFrame(m: Mem, m1: Mem, r: Mem, h: HeapDesc, d: Page, flags: Flags, dirFlags: Flags, n: nat, f: Page)
    requires n < 1024 && Turn(m, m1, r, h, d, flags, dirFlags, n, f) && f != d
    ensures forall a: Word | !InPage(f, a) && !InPage(d, a) :: r[a] == m1[a]
    ensures forall g: Page, k: nat | k < 1024 && g != f && !(g == d && k == n) :: Slot(r, g, k) == Slot(m1, g, k)
    ensures Slot(r, d, n) == 4096 * f + dirFlags && Frame(r, d, n) == f
    ensures forall k: nat | k < 1024 :: Slot(r, f, k) == 4096 * (1024 * n + k) + flags
  {
    hide Slot, SetSlot, Filled;
    FilledSlots(m1, f, 1024 * n, flags, 1024);
  }

  lemma TurnHeap(m0: Mem, m: Mem, m1: Mem, r: Mem, h: HeapDesc, d: Page, flags: Flags, dirFlags: Flags, n: nat, f: Page)
    requires n < 1024 && Carved(m0, m, h, d, n) && Turn(m, m1, r, h, d, flags, dirFlags, n, f)
    ensures f != d && FreePage(m, h, f) && FreePage(m0, h, f)
    ensures H.TableOf(r, h) == H.TableOf(m1, h) && H.HeapOk(r, h) && H.Live(r, h) == H.Live(m1, h)
    ensures Kept(m0, r, h)
  {
    hide Slot, SetSlot, Filled, Frame;
    LivePageStable(m, m1, h, d);
    assert FreePage(m, h, f);
    TurnFrame(m, m1, r, h, d, flags, dirFlags, n, f);
    FreeBefore(m0, m, h, f);
    forall a: Word | H.InTable(h, a)
      ensures r[a] == m1[a]
    {
    }
    HeapUntouched(m1, r, h);
    forall a: Word | Stable(m0, h, a)
      ensures r[a] == m0[a] && Stable(r, h, a)
    {
      if InPage(d, a) { FreePageUnstable(m0, h, d, a); }
      if InPage(f, a) { FreePageUnstable(m0, h, f, a); }
    }
  }

  /** Allocation only takes blocks, so a free page was free before. */
  lemma FreeBefore(m0: Mem, m: Mem, h: HeapDesc, f: Page)
    requires h.Valid() && Kept(m0, m, h) && FreePage(m, h, f)
    ensures FreePage(m0, h, f)
  {
    var a: Word := 4096 * f;
    FreePageUnstable(m, h, f, a);
    assert !Stable(m0, h, a);
    var b: nat :| b < h.total && InBlock(h, b, a) && IsFree(H.TableOf(m0, h)[b]);
    assert b == f - h.page;
  }

  lemma TurnKeepsFrames(m0: Mem, m: Mem, m1: Mem, r: Mem, h: HeapDesc, d: Page, flags: Flags, dirFlags: Flags, n: nat,
          f: Page)
    requires n < 1024 && Carved(m0, m, h, d, n) && Turn(m, m1, r, h, d, flags, dirFlags, n, f)
    ensures forall i: nat | i < n :: Frame(r, d, i) == Frame(m, d, i)
    ensures forall i: nat | i < n :: Slot(r, d, i) == Slot(m, d, i)
    ensures Frame(r, d, n) == f && Slot(r, d, n) == 4096 * f + dirFlags
  {
    hide Slot, SetSlot, Filled, FreeCount;
    TurnHeap(m0, m, m1, r, h, d, flags, dirFlags, n, f);
    TurnFrame(m, m1, r, h, d, flags, dirFlags, n, f);
    LivePageStable(m, m1, h, d);
    forall i: nat | i < n
      ensures Slot(r, d, i) == Slot(m, d, i)
    {
      SlotAgree(m, m1, d, i);
    }
  }

  lemma TurnCarves(m0: Mem, m: Mem, m1: Mem, r: Mem, h: HeapDesc, d: Page, flags: Flags, dirFlags: Flags, n: nat,
          f: Page)
    requires n < 1024 && Carved(m0, m, h, d, n) && Turn(m, m1, r, h, d, flags, dirFlags, n, f)
    ensures Carved(m0, r, h, d, n + 1)
  {
    hide Frame, SetSlot, Filled, FreeCount, Kept, FreePage, H.Live;
    TurnHeap(m0, m, m1, r, h, d, flags, dirFlags, n, f);
    TurnKeepsFrames(m0, m, m1, r, h, d, flags, dirFlags, n, f);
  }

  lemma TurnMaps(m0: Mem, m: Mem, m1: Mem, r: Mem, h: HeapDesc, d: Page, flags: Flags, dirFlags: Flags, n: nat, f: Page)
    requires n < 1024 && Carved(m0, m, h, d, n) && Turn(m, m1, r, h, d, flags, dirFlags, n, f)
    requires IdentityUpTo(m, d, flags, n)
    ensures IdentityUpTo(r, d, flags, n + 1)
  {
    hide Slot, SetSlot, Filled, Frame, Carved, Turn;
    TurnHeap(m0, m, m1, r, h, d, flags, dirFlags, n, f);
    TurnFrame(m, m1, r, h, d, flags, dirFlags, n, f);
    TurnKeepsFrames(m0, m, m1, r, h, d, flags, dirFlags, n, f);
    forall i: nat | i < n
      ensures Frame(m, d, i) != f
      ensures forall k: nat | k < 1024 :: Slot(r, Frame(m, d, i), k) == Slot(m, Frame(m, d, i), k)
    {
      TurnKeepsTable(m0, m, m1, r, h, d, flags, dirFlags, n, f, i);
    }
  }

  /** A turn leaves the tables made before it alone. */
  lemma TurnKeepsTable(m0: Mem, m: Mem, m1: Mem, r: Mem, h: HeapDesc, d: Page, flags: Flags, dirFlags: Flags, n: nat,
          f: Page, i: nat)
    requires i < n < 1024 && Carved(m0, m, h, d, n) && Turn(m, m1, r, h, d, flags, dirFlags, n, f)
    requires IdentityUpTo(m, d, flags, n) && f != d && FreePage(m, h, f)
    ensures Frame(m, d, i) != f
    ensures forall k: nat | k < 1024 :: Slot(r, Frame(m, d, i), k) == Slot(m, Frame(m, d, i), k)
  {
    hide Slot, SetSlot, Filled, Frame, FreeCount, H.Live, Window, WellFormed;
    var g := Frame(m, d, i);
    TurnFrame(m, m1, r, h, d, flags, dirFlags, n, f);
    LivePageStable(m, m1, h, g);
    forall k: nat | k < 1024
      ensures Slot(r, g, k) == Slot(m, g, k)
    {
      SlotAgree(m, m1, g, k);
    }
  }

  lemma InitTurnIsTurn(m: Mem, h: HeapDesc, d: Page, flags: Byte, n: nat) returns (m1: Mem, f: Page)
    requires n < 1024 && H.HeapOk(m, h) && FreeCount(H.TableOf(m, h)) > 0
    ensures Turn(m, m1, InitTurn(m, h, d, flags, n), h, d, flags, DirFlags(flags), n, f)
    ensures m1 == H.Kzalloc(m, h, 4096).0
  {
    hide Filled, SetSlot, H.Kzalloc, FreeCount, Kept, DirFlags;
    var b := ZallocOne(m, h, 4096);
    m1 := H.Kzalloc(m, h, 4096).0;
    f := h.page + b;
    assert H.Kzalloc(m, h, 4096).1 / 4096 == f;
  }

  lemma BuildTurn(m0: Mem, m: Mem, h: HeapDesc, d: Page, flags: Byte, n: nat)
    requires n < 1024 && Carved(m0, m, h, d, n) && IdentityUpTo(m, d, flags, n)
    requires FreeCount(H.TableOf(m0, h)) > n + 1
    ensures Carved(m0, InitTurn(m, h, d, flags, n), h, d, n + 1)
    ensures IdentityUpTo(InitTurn(m, h, d, flags, n), d, flags, n + 1)
  {
    hide InitTurn, Turn, IdentityUpTo, FreeCount, Kept, DirFlags;
    var m1, f := InitTurnIsTurn(m, h, d, flags, n);
    TurnCarves(m0, m, m1, InitTurn(m, h, d, flags, n), h, d, flags, DirFlags(flags), n, f);
    TurnMaps(m0, m, m1, InitTurn(m, h, d, flags, n), h, d, flags, DirFlags(flags), n, f);
  }

  lemma {:induction false} TablesBuilt(m0: Mem, m: Mem, h: HeapDesc, d: Page, flags: Byte, n: nat)
    requires n <= 1024 && Carved(m0, m, h, d, 0) && FreeCount(H.TableOf(m0, h)) > n
    ensures Carved(m0, InitTables(m, h, d, flags, n), h, d, n)
    ensures IdentityUpTo(InitTables(m, h, d, flags, n), d, flags, n)
  {
    hide InitTurn, FreeCount, Kept;
    if n > 0 {
      TablesBuilt(m0, m, h, d, flags, n - 1);
      hide Carved, IdentityUpTo;
      BuildTurn(m0, InitTables(m, h, d, flags, n - 1), h, d, flags, n - 1);
    }
  }

  // ------------------------------------------------------------------
  // The result: one-to-one tables.
  // ------------------------------------------------------------------

  /** Every page maps to itself with the given flags. */
  ghost predicate Identity(m: Mem, d: Page, flags: Flags) {
    TablesOk(m, d) && forall p: Page :: Pte(m, d, p) == 4096 * p + flags
  }

  /** The directory and the tables are one-block allocations of the heap. */
  ghost predicate TablesLive(m: Mem, h: HeapDesc, d: Page)
    requires h.Valid()
  {
    LivePage(m, h, d) && forall i: nat | i < 1024 :: LivePage(m, h, Frame(m, d, i))
  }

  /** The directory and the tables of `r` were free pages in `m`. */
  ghost predicate TablesFresh(m: Mem, r: Mem, h: HeapDesc, d: Page)
    requires h.Valid()
  {
    FreePage(m, h, d) && forall i: nat | i < 1024 :: FreePage(m, h, Frame(r, d, i))
  }

  ghost predicate LiveGrows(m: Mem, r: Mem, h: HeapDesc)
    requires h.Valid()
  {
    forall b | b in H.Live(m, h) :: b in H.Live(r, h) && H.Live(r, h)[b] == H.Live(m, h)[b]
  }

  lemma IdentityTranslates(m: Mem, d: Page, flags: Flags, virt: Word)
    requires Identity(m, d, flags)
    ensures Translate(m, d, virt) == virt
  {
    hide Pte;
  }

  lemma IdentityAtEnd(m: Mem, d: Page, flags: Flags)
    requires IdentityUpTo(m, d, flags, 1024)
    ensures Identity(m, d, flags)
  {
    hide Slot;
    forall p: Page
      ensures Pte(m, d, p) == 4096 * p + flags
    {
      assert p == 1024 * (p / 1024) + p % 1024;
    }
  }

  lemma DirCarved(m: Mem, h: HeapDesc) returns (d: Page)
    requires H.HeapOk(m, h) && FreeCount(H.TableOf(m, h)) > 0
    ensures var (r, p) := H.Kzalloc(m, h, 4096);
            p == 4096 * d && Carved(m, r, h, d, 0)
  {
    hide H.Kzalloc, FreeCount, Kept, H.Live;
    var b := ZallocOne(m, h, 4096);
    d := h.page + b;
  }

  /** Tables are untouched by a further one-block allocation and writes to it. */
  lemma TablesSurvive(m: Mem, m1: Mem, r: Mem, h: HeapDesc, d: Page, flags: Flags, size: Word, f: Page, v: Word)
    requires h.page <= f && Zalloced(m, h, size, m1, 4096 * f, f - h.page, 1)
    requires r == SetSlot(m1, f, 0, v) && TablesLive(m, h, d) && Identity(m, d, flags)
    ensures Identity(r, d, flags) && TablesLive(r, h, d) && SameDir(m, r, d)
    ensures LivePage(r, h, f) && f != d && forall i: nat | i < 1024 :: Frame(r, d, i) != f
    ensures H.HeapOk(r, h) && Kept(m, r, h) && LiveGrows(m, r, h)
    ensures FreeCount(H.TableOf(r, h)) == FreeCount(H.TableOf(m, h)) - 1
  {
    hide FreeCount, SetSlot, Slot, Zalloced, FreePage, Kept, WellFormed, Pte, H.Live;
    DescWritten(m, m1, r, h, size, f, v);
    LivePageStable(m, r, h, d);
    forall i: nat | i < 1024
      ensures AgreeOnPage(m, r, Frame(m, d, i)) && Frame(m, d, i) != f
    {
      LivePageStable(m, r, h, Frame(m, d, i));
    }
    TablesFrame(m, r, d);
  }

  /** A block taken and written: the rest of the heap is as it was. */
  lemma DescWritten(m: Mem, m1: Mem, r: Mem, h: HeapDesc, size: Word, f: Page, v: Word)
    requires h.page <= f && Zalloced(m, h, size, m1, 4096 * f, f - h.page, 1) && r == SetSlot(m1, f, 0, v)
    ensures H.HeapOk(m, h) && FreePage(m, h, f) && H.HeapOk(r, h) && Kept(m, r, h) && LiveGrows(m, r, h)
    ensures LivePage(r, h, f)
    ensures FreeCount(H.TableOf(r, h)) == FreeCount(H.TableOf(m, h)) - 1
  {
    hide FreeCount, SetSlot, Slot, H.Live, WellFormed;
    assert FreePage(m, h, f);
    forall a: Word | InPage(f, a)
      ensures !Stable(m, h, a) && !H.InTable(h, a)
    {
      FreePageUnstable(m, h, f, a);
    }
    HeapUntouched(m1, r, h);
  }

  /** `init_page_tables` yields the identity whenever 1026 blocks are free. */
  lemma InitIdentity(m: Mem, h: HeapDesc, flags: Byte) returns (d: Page, f: Page)
    requires H.HeapOk(m, h) && FreeCount(H.TableOf(m, h)) >= 1026
    ensures var (r, desc) := InitialTables(m, h, flags);
            && desc == 4096 * f > 0 && Slot(r, f, 0) == 4096 * d && f != d
            && Identity(r, d, flags) && (forall virt: Word :: Translate(r, d, virt) == virt)
            && H.HeapOk(r, h) && TablesLive(r, h, d) && LivePage(r, h, f)
            && Kept(m, r, h) && LiveGrows(m, r, h) && TablesFresh(m, r, h, d)
            && FreeCount(H.TableOf(r, h)) == FreeCount(H.TableOf(m, h)) - 1026
  {
    hide H.Kzalloc, FreeCount, H.Live, Kept, SetSlot, Slot, InitTables;
    d := DirCarved(m, h);
    var m1 := H.Kzalloc(m, h, 4096).0;
    TablesBuilt(m, m1, h, d, flags, 1024);
    var m2 := InitTables(m1, h, d, flags, 1024);
    IdentityAtEnd(m2, d, flags);
    var b := ZallocOne(m2, h, 4);
    f := h.page + b;
    var m3 := H.Kzalloc(m2, h, 4).0;
    var r := SetSlot(m3, f, 0, 4096 * d);
    assert InitialTables(m, h, flags) == (r, 4096 * f);
    TablesSurvive(m2, m3, r, h, d, flags, 4, f, 4096 * d);
    KeptTransitive(m, m2, r, h);
    forall virt: Word
      ensures Translate(r, d, virt) == virt
    {
      IdentityTranslates(r, d, flags, virt);
    }
  }

  /** For tables that user code may read, the directory leaves every decision to them. */
  lemma OpenEntry(flags: Byte, f: Page)
    requires flags == 5 || flags == 7
    ensures var e: Word := 4096 * f + DirFlags(flags);
            Present(e) && User(e) && Writable(e)
  {
    assert Or(flags, 2) == 7;
    FlagsOfEntry(f, 7);
  }

  lemma {:induction false} OpenBuilt(m0: Mem, m: Mem, h: HeapDesc, d: Page, flags: Byte, n: nat)
    requires n <= 1024 && Carved(m0, m, h, d, 0) && FreeCount(H.TableOf(m0, h)) > n && (flags == 5 || flags == 7)
    ensures h.Valid()
    ensures forall i: nat | i < n ::
              var e := Slot(InitTables(m, h, d, flags, n), d, i);
              Present(e) && User(e) && Writable(e)
  {
    hide InitTurn, FreeCount, Kept, H.Kzalloc, Turn, FreePage, LivePage, H.Live, WellFormed, Slot, DirFlags, Present,
         User, Writable;
    if n > 0 {
      OpenBuilt(m0, m, h, d, flags, n - 1);
      TablesBuilt(m0, m, h, d, flags, n - 1);
      var m1 := InitTables(m, h, d, flags, n - 1);
      var m2, f := InitTurnIsTurn(m1, h, d, flags, n - 1);
      TurnKeepsFrames(m0, m1, m2, InitTurn(m1, h, d, flags, n - 1), h, d, flags, DirFlags(flags), n - 1, f);
      OpenEntry(flags, f);
    }
  }

  lemma InitOpen(m: Mem, h: HeapDesc, flags: Byte)
    requires H.HeapOk(m, h) && FreeCount(H.TableOf(m, h)) >= 1026 && (flags == 5 || flags == 7)
    ensures var (r, desc) := InitialTables(m, h, flags);
            OpenDir(r, Slot(r, desc / 4096, 0) / 4096)
  {
    hide H.Kzalloc, FreeCount, H.Live, Kept, SetSlot, Slot, InitTables, Present, User, Writable, AgreeOnPage;
    var d := DirCarved(m, h);
    var m1 := H.Kzalloc(m, h, 4096).0;
    TablesBuilt(m, m1, h, d, flags, 1024);
    OpenBuilt(m, m1, h, d, flags, 1024);
    var m2 := InitTables(m1, h, d, flags, 1024);
    var b := ZallocOne(m2, h, 4);
    var f: Page := h.page + b;
    var m3 := H.Kzalloc(m2, h, 4).0;
    var r := SetSlot(m3, f, 0, 4096 * (d as int));
    assert InitialTables(m, h, flags) == (r, 4096 * f);
    DescWritten(m2, m3, r, h, 4, f, 4096 * (d as int));
    LivePageStable(m2, r, h, d);
    OpenStays(m2, r, d);
  }

  // ------------------------------------------------------------------
  // How far up the heap the tables reach.
  // ------------------------------------------------------------------

  lemma OneBlock(size: Word)
    requires 0 < size <= 4096
    ensures H.Blocks(size) == 1
  {
    H.BlocksRoundsUp(size);
  }

  lemma {:induction false} TablesReach(m0: Mem, m: Mem, h: HeapDesc, d: Page, flags: Byte, n: nat, k: nat)
    requires n <= 1024 && Carved(m0, m, h, d, 0) && FreeCount(H.TableOf(m0, h)) > n
    requires FreeFrom(H.TableOf(m, h), k) && k + n <= h.total
    ensures h.Valid() && FreeFrom(H.TableOf(InitTables(m, h, d, flags, n), h), k + n)
  {
    hide InitTurn, FreeCount, Kept, H.Kzalloc, Turn, FreeFrom, FreePage, LivePage, H.Live, WellFormed;
    if n > 0 {
      TablesReach(m0, m, h, d, flags, n - 1, k);
      TablesBuilt(m0, m, h, d, flags, n - 1);
      var m1 := InitTables(m, h, d, flags, n - 1);
      var m2, f := InitTurnIsTurn(m1, h, d, flags, n - 1);
      TurnHeap(m0, m1, m2, InitTurn(m1, h, d, flags, n - 1), h, d, flags, DirFlags(flags), n - 1, f);
      OneBlock(4096);
      FreeFromZalloc(m1, h, 4096, k + (n - 1));
    }
  }

  lemma InitReach(m: Mem, h: HeapDesc, flags: Byte, k: nat)
    requires H.HeapOk(m, h) && FreeCount(H.TableOf(m, h)) >= 1026
    requires FreeFrom(H.TableOf(m, h), k) && k + 1026 <= h.total
    ensures FreeFrom(H.TableOf(InitialTables(m, h, flags).0, h), k + 1026)
  {
    hide H.Kzalloc, FreeCount, H.Live, Kept, SetSlot, Slot, InitTables, FreeFrom, WellFormed;
    var d := DirCarved(m, h);
    OneBlock(4096);
    OneBlock(4);
    FreeFromZalloc(m, h, 4096, k);
    var m1 := H.Kzalloc(m, h, 4096).0;
    TablesBuilt(m, m1, h, d, flags, 1024);
    TablesReach(m, m1, h, d, flags, 1024, k + 1);
    var m2 := InitTables(m1, h, d, flags, 1024);
    FreeFromZalloc(m2, h, 4, k + 1025);
    var b := ZallocOne(m2, h, 4);
    var pgd: Word := H.Kzalloc(m, h, 4096).1;
    DescOutside(m2, h, h.page + b, pgd);
  }

  lemma DescOutside(m: Mem, h: HeapDesc, f: Page, v: Word)
    requires h.Valid() && h.page <= f && Zalloced(m, h, 4, H.Kzalloc(m, h, 4).0, 4096 * f, f - h.page, 1)
    ensures var m1 := H.Kzalloc(m, h, 4).0;
            H.TableOf(SetSlot(m1, f, 0, v), h) == H.TableOf(m1, h)
  {
    hide SetSlot, H.Kzalloc, FreeCount, Kept, H.Live, WellFormed;
    forall a: Word | InPage(f, a)
      ensures !H.InTable(h, a)
    {
      FreePageUnstable(m, h, f, a);
    }
  }

  // ------------------------------------------------------------------
  // The operation itself.
  // ------------------------------------------------------------------

  lemma ZallocAligned(m: Mem, h: HeapDesc, size: Word)
    requires h.Valid()
    ensures Aligned(H.Kzalloc(m, h, size).1)
  {
    hide ScanResult, H.MarkedMem, Zeroed;
  }

  lemma EntryAddress(i: nat, b: nat)
    requires i < 1024 && b < 1024
    ensures Wrap(4096 * (1024 * i) + b * PAGE_SIZE) == 4096 * (1024 * i + b)
    ensures 4096 * (1024 * i + b) % 4096 == 0
  {
  }

  method FillTable(ram: Ram, pte: Word, offset: Word, flags: Byte, ghost f: Page, ghost i: nat)
    requires ram.Valid() && i < 1024 && pte == 4096 * f && offset == 4096 * (1024 * i)
    modifies ram.bytes
    ensures ram.View() == Filled(old(ram.View()), f, 1024 * i, flags, 1024)
  {
    hide SetSlot, Wrap;
    ghost var m := ram.View();
    var b: int := 0;
    while b < TABLE_ENTRIES
      invariant 0 <= b <= 1024 && ram.View() == Filled(m, f, 1024 * i, flags, b)
    {
      var addr := Wrap(offset + b * PAGE_SIZE);
      EntryAddress(i, b);
      var entry := OrFlags(addr, flags);
      StoreEntry(ram, pte, b, entry, f);
      b := b + 1;
    }
  }

  /** `table | flags | PAGING_READ_WRITE`. */
  method DirEntry(table: Word, flags: Byte) returns (entry: Word)
    requires Aligned(table)
    ensures entry == 4096 * (table / 4096) + DirFlags(flags)
  {
    OrAssociates(table, flags);
    entry := Or(Or(table, flags), PAGING_READ_WRITE);
  }

  lemma OrAssociates(table: Word, flags: Byte)
    requires Aligned(table)
    ensures Or(Or(table, flags), PAGING_READ_WRITE) == table + DirFlags(flags)
  {
    Powers();
    PageFlags(table, flags);
    assert And(table + flags, 2) == And(flags, 2) by { LowAnd(table, flags); }
  }

  lemma LowAnd(table: Word, flags: Byte)
    requires Aligned(table)
    ensures And(table + flags, 2) == And(flags, 2)
  {
    hide And, Shr;
    assert Pow2(1) == 2;
    AndBit(table + flags, 1);
    AndBit(flags, 1);
    ShrDivides(table + flags, 1);
    ShrDivides(flags, 1);
    var t, half := table / 4096, flags / 2;
    DivModUnique(table + flags, 2, 2048 * t + half, flags % 2);
    DivModUnique(2048 * t + half, 2, 1024 * t + half / 2, half % 2);
  }

  /** One turn of the loop: allocate a table, fill it, and name it in the directory. */
  method InitEntry(ram: Ram, h: HeapDesc, pgd: Word, offset: Word, flags: Byte, i: nat, ghost d: Page)
    requires ram.Valid() && h.Valid() && i < 1024 && pgd == 4096 * d && offset == 4096 * (1024 * i)
    modifies ram.bytes
    ensures ram.View() == InitTurn(old(ram.View()), h, d, flags, i)
  {
    hide H.Kzalloc, SetSlot, Filled, DirFlags;
    ZallocAligned(ram.View(), h, 4096);
    var pte := H.HeapZalloc(ram, h, 4096);
    FillTable(ram, pte, offset, flags, pte / 4096, i);
    var entry := DirEntry(pte, flags);
    StoreEntry(ram, pgd, i, entry, d);
  }

  method InitPageTables(ram: Ram, h: HeapDesc, flags: Byte) returns (desc: Word)
    requires ram.Valid() && h.Valid()
    modifies ram.bytes
    ensures (ram.View(), desc) == InitialTables(old(ram.View()), h, flags)
  {
    hide H.Kzalloc, SetSlot, InitTurn;
    ZallocAligned(ram.View(), h, 4096);
    var pgd := H.HeapZalloc(ram, h, 4096);
    ghost var m, d: Page := ram.View(), pgd / 4096;
    var offset: Word := 0;
    var i: int := 0;
    while i < 1024
      invariant 0 <= i <= 1024 && offset == Wrap(4096 * (1024 * i))
      invariant ram.View() == InitTables(m, h, d, flags, i)
    {
      InitEntry(ram, h, pgd, offset, flags, i, d);
      offset := Wrap(offset + TABLE_ENTRIES * PAGE_SIZE);
      i := i + 1;
    }
    ZallocAligned(ram.View(), h, 4);
    desc := H.HeapZalloc(ram, h, 4);
    StoreEntry(ram, desc, 0, pgd, desc / 4096);
  }
}
