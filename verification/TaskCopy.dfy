/** Borrowing a page of a task: the kernel maps one of its own pages into the task's
    tables, works in the task's address space, and puts the old entry back. */
module TaskCopy {
  import opened Bits
  import opened Memory
  import opened HeapTable
  import H = Heap
  import opened HeapSafety
  import opened HeapFrames
  import opened Paging
  import opened PageTables
  import opened Arguments
  import UH = UserHeap
  import PL = ProcessLoad

  const EIO: int := 1

  /** Page `p` mapped to itself, writable: the borrowed entry. */
  function Borrow(m: Mem, d: Page, p: Page): Mem {
    MapPages(m, d, p, p, 1, 7)
  }

  /** The old entry put back. */
  function GiveBack(m: Mem, d: Page, p: Page, was: Word): Mem {
    SetPte(m, d, p, was)
  }

  lemma BorrowIsSetPte(m: Mem, d: Page, p: Page)
    ensures Borrow(m, d, p) == SetPte(m, d, p, 4096 * p + 7)
  {
    hide SetPte;
    assert PagePlus(p, 0) == p;
    assert MapPages(m, d, p, p, 0, 7) == m;
  }

  /** While borrowed, only that page's entry differs; nothing but tables has changed. */
  lemma WhileBorrowed(m: Mem, d: Page, p: Page)
    requires TablesOk(m, d)
    ensures var r := Borrow(m, d, p);
            && TablesOk(r, d) && OnlyPtes(m, r, d)
            && (forall q: Page :: Pte(r, d, q) == if q == p then 4096 * p + 7 else Pte(m, d, q))
  {
    hide Borrow, SetPte, Pte, Frame;
    BorrowIsSetPte(m, d, p);
    SetPteKeepsDir(m, d, p, 4096 * p + 7);
    forall q: Page
      ensures Pte(Borrow(m, d, p), d, q) == if q == p then 4096 * p + 7 else Pte(m, d, q)
    {
      SetPteIsUpdate(m, d, p, 4096 * p + 7, q);
    }
  }

  /** Work done outside the directory and the tables leaves the flat map as it was
      once the entry is given back. */
  lemma GivenBack(m: Mem, r: Mem, d: Page, p: Page)
    requires TablesOk(m, d) && TablesOk(r, d) && SameDir(m, r, d)
    requires forall q: Page | q != p :: Pte(r, d, q) == Pte(m, d, q)
    ensures var s := GiveBack(r, d, p, Pte(m, d, p));
            TablesOk(s, d) && SameTables(m, s, d) && OnlyPtes(r, s, d)
  {
    hide SetPte, Pte, Frame;
    var s := GiveBack(r, d, p, Pte(m, d, p));
    SetPteKeepsDir(r, d, p, Pte(m, d, p));
    forall q: Page
      ensures Pte(s, d, q) == Pte(m, d, q)
    {
      SetPteIsUpdate(r, d, p, Pte(m, d, p), q);
    }
  }

  // ------------------------------------------------------------------
  // copy_string_from_user_task.
  // ------------------------------------------------------------------

  /** The address `k` bytes after `virt`, wrapping at 4 GiB. */
  function Past(virt: Word, k: nat): Word {
    Wrap(virt + k)
  }

  /** The first characters the task has at `virt`: up to `max`, or up to its NUL. */
  ghost predicate TaskPrefix(m: Mem, d: Page, virt: Word, max: nat, s: CString) {
    && |s| <= max
    && (forall k | 0 <= k < |s| :: s[k] == PL.TaskByte(m, d, Past(virt, k)))
    && (|s| < max ==> PL.TaskByte(m, d, Past(virt, |s|)) == 0)
  }

  /** The byte at `v` is not reached through virtual page `p`, and does not lie in
      physical page `p` or in the page tables. */
  ghost predicate ByteApart(m: Mem, d: Page, v: Word, p: Page) {
    v / 4096 != p && !InPage(p, Translate(m, d, v)) && !TableByte(m, d, Translate(m, d, v))
  }

  ghost predicate SourceApart(m: Mem, d: Page, virt: Word, max: nat, p: Page) {
    forall k: nat | k < max :: ByteApart(m, d, Past(virt, k), p)
  }

  /** What the copy leaves: the string in the borrowed page, the entry given back, and
      the string in the kernel's buffer. */
  function CopiedString(m: Mem, d: Page, p: Page, was: Word, dst: Word, s: CString): Mem {
    Written(GiveBack(Written(Borrow(m, d, p), 4096 * p, s), d, p, was), dst, s)
  }

  /** Writing a page that is neither the directory nor a table. */
  lemma WriteKeepsTables(m: Mem, r: Mem, d: Page, p: Page)
    requires TablesOk(m, d) && !UH.IsTablePage(m, d, p)
    requires forall a: Word | !InPage(p, a) :: r[a] == m[a]
    ensures TablesOk(r, d) && SameTables(m, r, d)
  {
    hide Frame;
    forall i: nat | i < 1024
      ensures AgreeOnPage(m, r, Frame(m, d, i))
    {
    }
    TablesFrame(m, r, d);
  }

  /** A byte apart stays readable while entry `p`, page `p` and tables change. */
  lemma ByteStays(m: Mem, r: Mem, d: Page, v: Word, p: Page)
    requires ByteApart(m, d, v, p) && SameDir(m, r, d) && forall q: Page | q != p :: Pte(r, d, q) == Pte(m, d, q)
    requires forall a: Word | !InPage(p, a) && !TableByte(m, d, a) :: r[a] == m[a]
    ensures ByteApart(r, d, v, p) && PL.TaskByte(r, d, v) == PL.TaskByte(m, d, v)
  {
    hide Pte, Frame;
    assert Translate(r, d, v) == Translate(m, d, v);
  }

  /** A load and a store in the task's address space. */
  method TaskLoad(ram: Ram, dir: Page, virt: Word) returns (b: Byte)
    requires ram.Valid()
    ensures b == PL.TaskByte(ram.View(), dir, virt)
  {
    hide Translate;
    var phys := PagingGetPhysicalAddress(ram, dir, virt);
    b := ram.Load(phys);
  }

  method TaskStore(ram: Ram, dir: Page, virt: Word, b: Byte)
    requires ram.Valid()
    modifies ram.bytes
    ensures ram.View() == old(ram.View())[Translate(old(ram.View()), dir, virt) := b]
  {
    hide Translate;
    var phys := PagingGetPhysicalAddress(ram, dir, virt);
    ram.Store(phys, b);
  }

  /** Byte `o` of the borrowed page through the tables. */
  lemma BorrowedByte(m: Mem, d: Page, p: Page, o: nat)
    requires Pte(m, d, p) == 4096 * p + 7 && o < 4096
    ensures Translate(m, d, 4096 * p + o) == 4096 * p + o
  {
    hide Pte;
  }

  lemma CopyStep(m: Mem, r: Mem, p: Page, s: CString, c: Byte)
    requires |s| < 4096 && c != 0 && WrittenUpTo(m, r, 4096 * p, s, |s|)
    ensures WrittenUpTo(m, r[4096 * p + |s| := c], 4096 * p, s + [c], |s| + 1)
  {
  }

  /** What is written into page `p` changes neither the tables nor a byte apart. */
  lemma CopyKeeps(m: Mem, r: Mem, d: Page, p: Page, s: CString, n: nat)
    requires n <= 4096 && WrittenUpTo(m, r, 4096 * p, s, n) && TablesOk(m, d) && !UH.IsTablePage(m, d, p)
    ensures TablesOk(r, d) && SameTables(m, r, d)
    ensures forall v: Word | ByteApart(m, d, v, p) :: PL.TaskByte(r, d, v) == PL.TaskByte(m, d, v)
  {
    hide Pte, Frame, CharAt, TablesOk, UH.IsTablePage, TableByte;
    assert forall a: Word | !InPage(p, a) :: r[a] == m[a];
    WriteKeepsTables(m, r, d, p);
  }

  /** `strncpy` into the borrowed page, run in the task's address space: wherever it reads
      from, a string of at most `max` characters is written and nothing else. */
  method StrncpyInTask(ram: Ram, dir: Page, dst: Word, src: Word, max: nat, ghost p: Page) returns (ghost s: CString)
    requires ram.Valid() && dst == 4096 * p && max < 4096
    requires TablesOk(ram.View(), dir) && Pte(ram.View(), dir, p) == 4096 * p + 7 && !UH.IsTablePage(ram.View(), dir, p)
    modifies ram.bytes
    ensures |s| <= max && ram.View() == Written(old(ram.View()), dst, s)
    ensures old(SourceApart(ram.View(), dir, src, max, p)) ==> TaskPrefix(old(ram.View()), dir, src, max, s)
  {
    hide Pte, Frame, Translate, PL.TaskByte, TablesOk, ByteApart, UH.IsTablePage, Past, CharAt;
    ghost var m, apart := ram.View(), SourceApart(ram.View(), dir, src, max, p);
    s := [];
    var i: nat := 0;
    while i < max
      invariant i == |s| <= max && WrittenUpTo(m, ram.View(), dst, s, i)
      invariant apart ==> forall k | 0 <= k < i :: s[k] == PL.TaskByte(m, dir, Past(src, k))
    {
      CopyKeeps(m, ram.View(), dir, p, s, i);
      var c := TaskLoad(ram, dir, Past(src, i));
      if c == 0 {
        break;
      }
      BorrowedByte(ram.View(), dir, p, i);
      CopyStep(m, ram.View(), p, s, c);
      TaskStore(ram, dir, dst + i, c);
      s := s + [c];
      i := i + 1;
    }
    CopyKeeps(m, ram.View(), dir, p, s, i);
    BorrowedByte(ram.View(), dir, p, i);
    ghost var r := ram.View();
    TaskStore(ram, dir, dst + i, 0);
    Terminated(m, r, dst, s);
  }

  lemma Terminated(m: Mem, r: Mem, dst: Word, s: CString)
    requires dst + |s| < 0x1_0000_0000 && WrittenUpTo(m, r, dst, s, |s|)
    ensures r[dst + |s| := 0] == Written(m, dst, s)
  {
  }

  /** The characters are read from memory in use that is not part of the page tables,
      and not through the number of a free heap page. */
  ghost predicate SourceHeld(m: Mem, h: HeapDesc, d: Page, virt: Word, max: nat)
    requires h.Valid()
  {
    forall k: nat | k < max :: ByteHeld(m, h, d, Past(virt, k))
  }

  ghost predicate ByteHeld(m: Mem, h: HeapDesc, d: Page, v: Word)
    requires h.Valid()
  {
    !FreePage(m, h, v / 4096) && Stable(m, h, Translate(m, d, v)) && !TableByte(m, d, Translate(m, d, v))
  }

  /** The kernel's buffer is in use and apart from the task's directory and tables. */
  ghost predicate BufferHeld(m: Mem, h: HeapDesc, d: Page, dst: Word, max: nat)
    requires h.Valid()
  {
    && dst + max < 0x1_0000_0000
    && forall a: Word | dst <= a <= dst + max :: Stable(m, h, a) && !InPage(d, a) && !TableByte(m, d, a)
  }

  /** After the allocation the borrowed page `p` is apart from the tables. */
  lemma ReadyToBorrow(m: Mem, m1: Mem, h: HeapDesc, d: Page, size: Word, p: Page)
    requires H.HeapOk(m, h) && TablesOk(m, d) && TablesLive(m, h, d)
    requires h.page <= p && Zalloced(m, h, size, m1, 4096 * p, p - h.page, 1)
    ensures TablesOk(m1, d) && SameTables(m, m1, d) && !UH.IsTablePage(m1, d, p) && FreePage(m, h, p) && Kept(m, m1, h)
  {
    hide Pte, Frame, FreeCount, H.Live, TablesLive, Stable, Kept;
    UH.TablesAfterZalloc(m, m1, h, d, size, p, 1);
    assert !UH.IsTablePage(m, d, p);
  }

  /** A byte in use is then apart from the borrowed page, and reads as before. */
  lemma ByteReady(m: Mem, m1: Mem, h: HeapDesc, d: Page, p: Page, v: Word)
    requires h.Valid() && ByteHeld(m, h, d, v) && SameTables(m, m1, d) && FreePage(m, h, p) && Kept(m, m1, h)
    ensures ByteApart(m1, d, v, p) && PL.TaskByte(m1, d, v) == PL.TaskByte(m, d, v)
  {
    hide Pte, Frame, Stable, FreePage;
    var a := Translate(m, d, v);
    assert Translate(m1, d, v) == a;
    assert FreePage(m, h, p) != FreePage(m, h, v / 4096);
    if InPage(p, a) {
      FreePageUnstable(m, h, p, a);
    }
  }

  /** With the page borrowed, the source is apart, and its prefix is the one from before. */
  lemma SourceReady(m: Mem, m1: Mem, h: HeapDesc, d: Page, p: Page, virt: Word, max: nat)
    requires h.Valid() && TablesOk(m1, d) && SameTables(m, m1, d) && FreePage(m, h, p) && Kept(m, m1, h)
    requires SourceHeld(m, h, d, virt, max)
    ensures var r := Borrow(m1, d, p);
            && SourceApart(r, d, virt, max, p)
            && (forall s: CString | TaskPrefix(r, d, virt, max, s) :: TaskPrefix(m, d, virt, max, s))
  {
    hide Borrow, Pte, Frame, TablesOk, Kept, FreePage, ByteHeld, ByteApart, PL.TaskByte, Past, TableByte;
    var r := Borrow(m1, d, p);
    WhileBorrowed(m1, d, p);
    forall k: nat | k < max
      ensures ByteApart(r, d, Past(virt, k), p)
      ensures PL.TaskByte(r, d, Past(virt, k)) == PL.TaskByte(m, d, Past(virt, k))
    {
      ByteReady(m, m1, h, d, p, Past(virt, k));
      ByteStays(m1, r, d, Past(virt, k), p);
    }
  }

  /** What borrowing sets up. */
  lemma BorrowedReady(m: Mem, d: Page, p: Page)
    requires TablesOk(m, d) && !UH.IsTablePage(m, d, p)
    ensures var r := Borrow(m, d, p);
            TablesOk(r, d) && Pte(r, d, p) == 4096 * p + 7 && !UH.IsTablePage(r, d, p)
  {
    hide Borrow, Pte, Frame, TablesOk;
    WhileBorrowed(m, d, p);
  }

  /** Afterwards the tables are as before, and the kernel has the string. */
  lemma AfterCopy(m: Mem, m1: Mem, h: HeapDesc, d: Page, size: Word, p: Page, dst: Word, max: nat, s: CString)
    requires H.HeapOk(m, h) && TablesOk(m, d) && TablesLive(m, h, d)
    requires h.page <= p && Zalloced(m, h, size, m1, 4096 * p, p - h.page, 1)
    requires BufferHeld(m, h, d, dst, max) && |s| <= max < 4096
    ensures var r := CopiedString(m1, d, p, Pte(m1, d, p), dst, s);
            TablesOk(r, d) && SameTables(m, r, d) && StringAt(r, dst, s)
  {
    hide Pte, Frame, FreeCount, H.Live, TablesLive, Stable, Borrow, GiveBack, Kept;
    UH.TablesAfterZalloc(m, m1, h, d, size, p, 1);
    assert !UH.IsTablePage(m, d, p);
    var m2 := Borrow(m1, d, p);
    WhileBorrowed(m1, d, p);
    var m3 := Written(m2, 4096 * p, s);
    WriteKeepsTables(m2, m3, d, p);
    GivenBack(m1, m3, d, p);
    var m4 := GiveBack(m3, d, p, Pte(m1, d, p));
    BufferKeepsTables(m, m4, h, d, dst, max, s);
  }

  lemma BufferKeepsTables(m: Mem, r: Mem, h: HeapDesc, d: Page, dst: Word, max: nat, s: CString)
    requires h.Valid() && BufferHeld(m, h, d, dst, max) && |s| <= max && TablesOk(r, d) && SameTables(m, r, d)
    ensures var t := Written(r, dst, s);
            TablesOk(t, d) && SameTables(m, t, d) && StringAt(t, dst, s)
  {
    hide Pte, Frame, Stable;
    var t := Written(r, dst, s);
    forall i: nat | i < 1024
      ensures AgreeOnPage(r, t, Frame(r, d, i))
    {
      forall a: Word | InPage(Frame(r, d, i), a)
        ensures t[a] == r[a]
      {
        assert TableByte(m, d, a);
      }
    }
    assert forall a: Word | InPage(d, a) :: t[a] == r[a];
    TablesFrame(r, t, d);
  }

  lemma NoRoom(m: Mem, h: HeapDesc, size: Word)
    requires H.HeapOk(m, h) && FreeCount(H.TableOf(m, h)) <= 0
    ensures H.Kzalloc(m, h, size) == (m, 0)
  {
    hide H.Kzalloc;
    TakenBound(H.TableOf(m, h), 0);
    ZallocNone(m, h, size);
  }

  lemma TmpHolds(m: Mem, d: Page, p: Page, was: Word, s: CString)
    requires TablesOk(m, d) && !UH.IsTablePage(m, d, p) && |s| < 4096
    ensures var r := Written(m, 4096 * p, s);
            StringAt(GiveBack(r, d, p, was), 4096 * p, s)
  {
    hide Frame, SetPte;
    var r := Written(m, 4096 * p, s);
    var t := GiveBack(r, d, p, was);
    WriteKeepsTables(m, r, d, p);
    SetPteKeepsDir(r, d, p, was);
    forall k | 0 <= k <= |s|
      ensures CharAt(s, k) == t[4096 * p + k]
    {
      var a: Word := 4096 * p + k;
      assert !TableByte(r, d, a);
    }
  }

  lemma BufferApart(m: Mem, h: HeapDesc, d: Page, dst: Word, max: nat, p: Page)
    requires h.Valid() && BufferHeld(m, h, d, dst, max) && FreePage(m, h, p) && max < 4096
    ensures dst + max < 4096 * p || 4096 * p + 4096 <= dst
  {
    hide Stable, FreePage;
    var a: Word := if dst >= 4096 * p then dst else 4096 * p;
    if dst <= a <= dst + max && InPage(p, a) {
      FreePageUnstable(m, h, p, a);
      assert false;
    }
  }

  lemma FreshPage(m: Mem, h: HeapDesc, size: Word) returns (p: Page)
    requires H.HeapOk(m, h) && 0 < size <= 4096 && FreeCount(H.TableOf(m, h)) > 0
    ensures var (r, q) := H.Kzalloc(m, h, size);
            && q == 4096 * p > 0 && h.page <= p && FreePage(m, h, p)
            && Zalloced(m, h, size, r, q, p - h.page, 1)
  {
    hide H.Kzalloc, FreeCount, Kept, H.Live;
    var b := ZallocOne(m, h, size);
    p := h.page + b;
  }

  /** `copy_string_from_user_task`: whatever address the task passes, its tables end as
      they were and the kernel's buffer holds a string; it is the task's own when that lies
      in memory in use. */
  method CopyStringFromUserTask(ram: Ram, h: HeapDesc, dir: Page, virt: Word, dst: Word, max: nat)
    returns (rc: int, ghost s: CString)
    requires ram.Valid() && H.HeapOk(ram.View(), h) && TablesOk(ram.View(), dir) && TablesLive(ram.View(), h, dir)
    requires 0 < max && BufferHeld(ram.View(), h, dir, dst, max)
    modifies ram.bytes
    ensures rc == if max >= 4096 then -2
                  else if FreeCount(H.TableOf(old(ram.View()), h)) <= 0 then -3 else 0
    ensures rc < 0 ==> ram.View() == old(ram.View())
    ensures rc == 0 ==> TablesOk(ram.View(), dir) && SameTables(old(ram.View()), ram.View(), dir)
    ensures rc == 0 ==> |s| <= max && StringAt(ram.View(), dst, s)
    ensures rc == 0 && old(SourceHeld(ram.View(), h, dir, virt, max)) ==> TaskPrefix(old(ram.View()), dir, virt, max, s)
  {
    hide Pte, Frame, FreeCount, TablesLive, TablesOk, H.Kzalloc, GiveBack, SourceHeld, SourceApart, Zalloced, MapPages,
         TaskPrefix, BufferHeld, SameTables, FreePage, WellFormed, Written, SetPte, UH.IsTablePage, CharAt, Kept;
    s := [];
    if max >= 4096 {
      return -EINVARG, [];
    }
    ghost var m := ram.View();
    ghost var p: Page := 0;
    if FreeCount(H.TableOf(m, h)) > 0 {
      p := FreshPage(m, h, max);
    } else {
      NoRoom(m, h, max);
    }
    var tmp := H.HeapZalloc(ram, h, max);
    if tmp == 0 {
      return -ENOMEM, [];
    }
    ghost var m1 := ram.View();
    ReadyToBorrow(m, m1, h, dir, max, p);
    BorrowedReady(m1, dir, p);
    if SourceHeld(m, h, dir, virt, max) {
      SourceReady(m, m1, h, dir, p, virt, max);
    }
    var was := PagingGetPte(ram, dir, tmp);
    var code := PagingMapRange(ram, dir, tmp, tmp, 1, 7);
    s := StrncpyInTask(ram, dir, tmp, virt, max, p);
    AfterCopy(m, m1, h, dir, max, p, dst, max, s);
    BufferApart(m, h, dir, dst, max, p);
    TmpHolds(Borrow(m1, dir, p), dir, p, was, s);
    GiveBackUnfolds(ram.View(), dir, p, was);
    code := PagingSet(ram, dir, tmp, was);
    Strncpy(ram, dst, tmp, max, s);
    rc := 0;
  }

  lemma GiveBackUnfolds(m: Mem, d: Page, p: Page, was: Word)
    ensures SetPte(m, d, p, was) == GiveBack(m, d, p, was)
  {
  }

  // ------------------------------------------------------------------
  // copy_argv_pointers_from_user_task.
  // ------------------------------------------------------------------

  /** The kernel's pointer array, as the task's tables reach it, is apart from them. */
  ghost predicate ArrayApart(m: Mem, d: Page, k: Word, argc: int) {
    && k % 4 == 0 && k + 4 * argc <= 0x1_0000_0000
    && (forall v: Word | k <= v < k + 4 * argc :: !UH.IsTablePage(m, d, Translate(m, d, v) / 4096))
    && (Aligned(k) ==> !UH.IsTablePage(m, d, k / 4096))
  }

  lemma ArrayStays(m: Mem, r: Mem, d: Page, k: Word, argc: int)
    requires ArrayApart(m, d, k, argc) && SameTables(m, r, d)
    ensures ArrayApart(r, d, k, argc)
  {
    hide Pte, Frame;
    forall v: Word | k <= v < k + 4 * argc
      ensures !UH.IsTablePage(r, d, Translate(r, d, v) / 4096)
    {
      assert !UH.IsTablePage(m, d, Translate(m, d, v) / 4096);
    }
  }

  /** While page k / 4096 is borrowed the array is reached there. */
  lemma ArrayBorrowed(m: Mem, d: Page, k: Word, argc: int)
    requires TablesOk(m, d) && ArrayApart(m, d, k, argc) && Aligned(k)
    ensures ArrayApart(Borrow(m, d, k / 4096), d, k, argc)
  {
    hide Pte, Frame, Borrow;
    var r, p := Borrow(m, d, k / 4096), k / 4096;
    WhileBorrowed(m, d, p);
    forall v: Word | k <= v < k + 4 * argc
      ensures !UH.IsTablePage(r, d, Translate(r, d, v) / 4096)
    {
      assert v / 4096 == p ==> Translate(r, d, v) / 4096 == p;
      assert v / 4096 != p ==> Translate(r, d, v) == Translate(m, d, v);
      assert !UH.IsTablePage(m, d, Translate(m, d, v) / 4096);
    }
  }

  /** Pointer `i` of the array the task has at `u`: four bytes at any address. */
  ghost function Pointer(m: Mem, d: Page, u: Word, i: nat): Word {
    (PL.TaskByte(m, d, Past(u, 4 * i)) as int) + 0x100 * (PL.TaskByte(m, d, Past(u, 4 * i + 1)) as int)
    + 0x1_0000 * (PL.TaskByte(m, d, Past(u, 4 * i + 2)) as int)
    + 0x100_0000 * (PL.TaskByte(m, d, Past(u, 4 * i + 3)) as int)
  }

  method LoadPointer(ram: Ram, dir: Page, u: Word, i: nat) returns (w: Word)
    requires ram.Valid()
    ensures w == Pointer(ram.View(), dir, u, i)
  {
    hide PL.TaskByte, Past;
    var b0 := TaskLoad(ram, dir, Past(u, 4 * i));
    var b1 := TaskLoad(ram, dir, Past(u, 4 * i + 1));
    var b2 := TaskLoad(ram, dir, Past(u, 4 * i + 2));
    var b3 := TaskLoad(ram, dir, Past(u, 4 * i + 3));
    w := (b0 as int) + 0x100 * (b1 as int) + 0x1_0000 * (b2 as int) + 0x100_0000 * (b3 as int);
  }

  /** The byte the task has at `v` does not lie in the kernel's array. */
  ghost predicate Outside(m: Mem, d: Page, v: Word, k: Word, argc: int) {
    !(k <= Translate(m, d, v) < k + 4 * argc)
  }

  /** The task's tables lead word `i` of the kernel's array to itself. */
  ghost predicate SelfWord(m: Mem, d: Page, k: Word, i: nat) {
    Translate(m, d, Past(k, 4 * i)) == k + 4 * i
  }

  /** Each word of the kernel's array is reached, and the task's array is apart from it. */
  ghost predicate Reached(m: Mem, d: Page, u: Word, k: Word, argc: int) {
    && (forall i: nat | i < argc :: SelfWord(m, d, k, i))
    && (forall x: nat | x < 4 * argc :: Outside(m, d, Past(u, x), k, argc))
  }

  /** The first `n` pointers are in the kernel's array, and nothing else has changed. */
  ghost predicate Gathered(m: Mem, r: Mem, d: Page, u: Word, k: Word, n: nat)
    requires k + 4 * n <= 0x1_0000_0000
  {
    && (forall j: nat | j < n :: WordAt(r, k / 4 + j) == Pointer(m, d, u, j))
    && forall a: Word | !(k <= a < k + 4 * n) :: r[a] == m[a]
  }

  lemma ByteKept(m: Mem, r: Mem, d: Page, v: Word, k: Word, argc: int, n: nat)
    requires Outside(m, d, v, k, argc) && SameTables(m, r, d) && n <= argc
    requires forall a: Word | !(k <= a < k + 4 * n) :: r[a] == m[a]
    ensures PL.TaskByte(r, d, v) == PL.TaskByte(m, d, v)
  {
    hide Pte;
    assert Translate(r, d, v) == Translate(m, d, v);
  }

  lemma PointerKept(m: Mem, r: Mem, d: Page, u: Word, k: Word, argc: int, n: nat, i: nat)
    requires Reached(m, d, u, k, argc) && SameTables(m, r, d) && n <= argc && i < argc
    requires forall a: Word | !(k <= a < k + 4 * n) :: r[a] == m[a]
    ensures Pointer(r, d, u, i) == Pointer(m, d, u, i)
  {
    hide PL.TaskByte, Past, SameTables, Outside;
    ByteKept(m, r, d, Past(u, 4 * i), k, argc, n);
    ByteKept(m, r, d, Past(u, 4 * i + 1), k, argc, n);
    ByteKept(m, r, d, Past(u, 4 * i + 2), k, argc, n);
    ByteKept(m, r, d, Past(u, 4 * i + 3), k, argc, n);
  }

  lemma GatherOne(m: Mem, r: Mem, d: Page, u: Word, k: Word, n: nat, v: Word)
    requires k % 4 == 0 && k + 4 * n + 4 <= 0x1_0000_0000 && Gathered(m, r, d, u, k, n) && v == Pointer(m, d, u, n)
    ensures Gathered(m, SetWord(r, k / 4 + n, v), d, u, k, n + 1)
  {
    hide Pointer, WordAt, SetWord;
  }

  lemma GatherStep(m: Mem, r: Mem, d: Page, u: Word, k: Word, argc: int, i: nat)
    requires k % 4 == 0 && i < argc && k + 4 * argc <= 0x1_0000_0000 && Reached(m, d, u, k, argc)
    requires SameTables(m, r, d) && Gathered(m, r, d, u, k, i)
    ensures Translate(r, d, k + 4 * i) == k + 4 * i
    ensures Gathered(m, SetWord(r, (k + 4 * i) / 4, Pointer(r, d, u, i)), d, u, k, i + 1)
  {
    hide Pte, Pointer, SetWord, WordAt, Outside;
    assert SelfWord(m, d, k, i);
    assert Past(k, 4 * i) == k + 4 * i;
    PointerKept(m, r, d, u, k, argc, i, i);
    GatherOne(m, r, d, u, k, i, Pointer(m, d, u, i));
    assert (k + 4 * i) / 4 == k / 4 + i;
  }

  /** `kernel_argv[i] = argv_usr_addr[i]` for all i, in the task's address space. */
  method CopyPointers(ram: Ram, dir: Page, argvUsr: Word, kernelArgv: Word, argc: int)
    requires ram.Valid() && TablesOk(ram.View(), dir) && ArrayApart(ram.View(), dir, kernelArgv, argc)
    modifies ram.bytes
    ensures TablesOk(ram.View(), dir) && SameTables(old(ram.View()), ram.View(), dir)
    ensures argc >= 0 && old(Reached(ram.View(), dir, argvUsr, kernelArgv, argc)) ==>
              Gathered(old(ram.View()), ram.View(), dir, argvUsr, kernelArgv, argc)
  {
    hide Pte, Frame, TablesOk, SameTables, ArrayApart, SetWord, WordAt, Translate, Gathered, Reached, Pointer;
    ghost var m := ram.View();
    ghost var reached := argc >= 0 && Reached(m, dir, argvUsr, kernelArgv, argc);
    SameTablesReflexive(m, dir);
    ArrayAligned(m, dir, kernelArgv, argc);
    NoneGathered(m, dir, argvUsr, kernelArgv);
    var i: nat := 0;
    while i < argc
      invariant (i <= argc || i == 0) && TablesOk(ram.View(), dir) && SameTables(m, ram.View(), dir)
      invariant reached ==> i <= argc && Gathered(m, ram.View(), dir, argvUsr, kernelArgv, i)
    {
      if reached {
        GatherStep(m, ram.View(), dir, argvUsr, kernelArgv, argc, i);
      }
      var ptr := LoadPointer(ram, dir, argvUsr, i);
      var dst := PagingGetPhysicalAddress(ram, dir, kernelArgv + 4 * i);
      ArrayStays(m, ram.View(), dir, kernelArgv, argc);
      StoreApart(ram.View(), dir, kernelArgv, argc, kernelArgv + 4 * i, ptr);
      SameTablesTransitive(m, ram.View(), SetWord(ram.View(), dst / 4, ptr), dir);
      ram.StoreWord(dst, ptr);
      i := i + 1;
    }
  }

  lemma NoneGathered(m: Mem, d: Page, u: Word, k: Word)
    ensures Gathered(m, m, d, u, k, 0)
  {
  }

  lemma ArrayAligned(m: Mem, d: Page, k: Word, argc: int)
    requires ArrayApart(m, d, k, argc)
    ensures k % 4 == 0 && k + 4 * argc <= 0x1_0000_0000
  {
  }

  lemma SameTablesReflexive(m: Mem, d: Page)
    ensures SameTables(m, m, d)
  {
  }

  lemma SameTablesTransitive(m: Mem, r: Mem, s: Mem, d: Page)
    requires SameTables(m, r, d) && SameTables(r, s, d)
    ensures SameTables(m, s, d)
  {
    hide Pte, Frame;
  }

  lemma StoreApart(m: Mem, d: Page, k: Word, argc: int, virt: Word, v: Word)
    requires TablesOk(m, d) && ArrayApart(m, d, k, argc) && k <= virt < k + 4 * argc && virt % 4 == 0
    ensures Translate(m, d, virt) % 4 == 0
    ensures var r := SetWord(m, Translate(m, d, virt) / 4, v);
            TablesOk(r, d) && SameTables(m, r, d)
  {
    hide SetWord, WordAt, TablesOk, SameTables, Translate, UH.IsTablePage;
    TranslateAligned(m, d, virt);
    StoreKeepsTables(m, d, Translate(m, d, virt), v);
  }

  lemma TranslateAligned(m: Mem, d: Page, virt: Word)
    requires virt % 4 == 0
    ensures Translate(m, d, virt) % 4 == 0
  {
    hide Pte;
    var f, o := Pte(m, d, virt / 4096) / 4096, virt % 4096;
    assert Translate(m, d, virt) == 4096 * f + o;
    OffsetAligned(virt);
    DivModUnique(4096 * f + o, 4, 1024 * f + o / 4, 0);
  }

  lemma OffsetAligned(virt: Word)
    requires virt % 4 == 0
    ensures virt % 4096 == 4 * (virt % 4096 / 4)
  {
    var q, r := virt / 4096, virt % 4096;
    DivModUnique(virt, 4, 1024 * q + r / 4, r % 4);
  }

  lemma SplitWord(a: Word) returns (p: Page, k: nat)
    requires a % 4 == 0
    ensures k < 1024 && p == a / 4096 && a / 4 == 1024 * p + k
  {
    p, k := a / 4096, a % 4096 / 4;
  }

  lemma StoreKeepsTables(m: Mem, d: Page, a: Word, v: Word)
    requires a % 4 == 0 && TablesOk(m, d) && !UH.IsTablePage(m, d, a / 4096)
    ensures TablesOk(SetWord(m, a / 4, v), d) && SameTables(m, SetWord(m, a / 4, v), d)
  {
    hide SetWord, WordAt, TablesOk, SameTables, UH.IsTablePage;
    var p, k := SplitWord(a);
    assert SetWord(m, a / 4, v) == SetSlot(m, p, k, v);
    WriteKeepsTables(m, SetSlot(m, p, k, v), d, p);
  }

  /** The pointers can arrive: an array that starts a page will be reached there and needs
      the task's array apart from that page and from the tables; any other array is
      reached only if the task's own tables lead to it. */
  ghost predicate CanGather(m: Mem, d: Page, u: Word, k: Word, argc: int) {
    if Aligned(k) then forall x: nat | x < 4 * argc :: ByteApart(m, d, Past(u, x), k / 4096)
    else Reached(m, d, u, k, argc)
  }

  lemma BorrowedReached(m: Mem, d: Page, u: Word, k: Word, argc: int)
    requires TablesOk(m, d) && Aligned(k) && argc <= 1024 && CanGather(m, d, u, k, argc)
    ensures var r := Borrow(m, d, k / 4096);
            && Reached(r, d, u, k, argc)
            && (forall i: nat | i < argc :: Pointer(r, d, u, i) == Pointer(m, d, u, i))
  {
    hide Borrow, Pte, Frame, TablesOk, PL.TaskByte, TableByte, Past;
    var r, p := Borrow(m, d, k / 4096), k / 4096;
    WhileBorrowed(m, d, p);
    forall i: nat | i < argc
      ensures SelfWord(r, d, k, i)
    {
      PastWord(k, i);
      BorrowedByte(r, d, p, 4 * i);
    }
    forall x: nat | x < 4 * argc
      ensures Outside(r, d, Past(u, x), k, argc) && PL.TaskByte(r, d, Past(u, x)) == PL.TaskByte(m, d, Past(u, x))
    {
      ByteStays(m, r, d, Past(u, x), p);
    }
  }

  lemma PastWord(k: Word, i: nat)
    requires Aligned(k) && i < 1024
    ensures Past(k, 4 * i) == k + 4 * i == 4096 * (k / 4096) + 4 * i
  {
  }

  /** Giving the page back leaves the pointers in it. */
  lemma GatheredStay(m: Mem, r: Mem, s: Mem, d: Page, u: Word, k: Word, argc: nat)
    requires argc <= 1024 && Aligned(k) && OnlyPtes(r, s, d) && !UH.IsTablePage(r, d, k / 4096)
    requires forall j: nat | j < argc :: WordAt(r, k / 4 + j) == Pointer(m, d, u, j)
    ensures forall j: nat | j < argc :: WordAt(s, k / 4 + j) == Pointer(m, d, u, j)
  {
    hide OnlyPtes, UH.IsTablePage, WordAt, Pointer;
    var p: Page := k / 4096;
    OutsideTables(r, s, d, p);
    forall j: nat | j < argc
      ensures WordAt(s, k / 4 + j) == Pointer(m, d, u, j)
    {
      assert k / 4 == 1024 * p;
      SlotAgree(r, s, p, j);
    }
  }

  lemma OutsideTables(m: Mem, r: Mem, d: Page, f: Page)
    requires OnlyPtes(m, r, d) && !UH.IsTablePage(m, d, f)
    ensures AgreeOnPage(m, r, f)
  {
    hide Frame;
    forall a: Word | InPage(f, a)
      ensures !TableByte(m, d, a)
    {
    }
  }

  lemma AlignedApart(m: Mem, d: Page, k: Word, argc: int)
    requires ArrayApart(m, d, k, argc) && Aligned(k)
    ensures !UH.IsTablePage(m, d, k / 4096)
  {
  }

  /** `copy_argv_pointers_from_user_task`: an array that starts a page borrows that
      page and gives it back; any other array borrows nothing and reports -EIO.  Either way
      the task's tables end as they were, and the pointers arrive if they can. */
  method CopyArgvPointers(ram: Ram, dir: Page, argvUsr: Word, kernelArgv: Word, argc: int) returns (rc: int)
    requires ram.Valid() && TablesOk(ram.View(), dir) && ArrayApart(ram.View(), dir, kernelArgv, argc)
    modifies ram.bytes
    ensures rc == if argc * 32 >= 4096 then -2 else if Aligned(kernelArgv) then 0 else -1
    ensures SameTables(old(ram.View()), ram.View(), dir)
    ensures rc == -EINVARG ==> ram.View() == old(ram.View())
    ensures rc != -EINVARG && old(CanGather(ram.View(), dir, argvUsr, kernelArgv, argc)) ==>
              forall i: nat | i < argc ::
                WordAt(ram.View(), kernelArgv / 4 + i) == Pointer(old(ram.View()), dir, argvUsr, i)
  {
    hide Pte, Frame, TablesOk, SetPte, Translate, MapPages, Reached, Pointer, UH.IsTablePage, CanGather, WordAt;
    if argc * MAX_ARG_LEN >= PAGE_SIZE {
      SameTablesReflexive(ram.View(), dir);
      return -EINVARG;
    }
    ghost var m, p: Page := ram.View(), kernelArgv / 4096;
    ghost var can := CanGather(m, dir, argvUsr, kernelArgv, argc);
    var was := PagingGetPte(ram, dir, kernelArgv);
    var code := PagingMapRange(ram, dir, kernelArgv, kernelArgv, 1, 7);
    if code == 0 {
      WhileBorrowed(m, dir, p);
      ArrayBorrowed(m, dir, kernelArgv, argc);
      if can {
        BorrowedReached(m, dir, argvUsr, kernelArgv, argc);
      }
    } else if can {
      NotBorrowed(m, dir, argvUsr, kernelArgv, argc);
    }
    ghost var m1 := ram.View();
    CopyPointers(ram, dir, argvUsr, kernelArgv, argc);
    if code == 0 {
      GivenBack(m, ram.View(), dir, p);
      if can && argc >= 0 {
        ArrayStays(m1, ram.View(), dir, kernelArgv, argc);
        AlignedApart(ram.View(), dir, kernelArgv, argc);
        GatheredStay(m, ram.View(), GiveBack(ram.View(), dir, p, was), dir, argvUsr, kernelArgv, argc);
      }
    }
    code := PagingSet(ram, dir, kernelArgv, was);
    if code < 0 {
      return -EIO;
    }
    rc := 0;
  }

  lemma NotBorrowed(m: Mem, d: Page, u: Word, k: Word, argc: int)
    requires !Aligned(k) && CanGather(m, d, u, k, argc)
    ensures Reached(m, d, u, k, argc)
  {
  }
}
