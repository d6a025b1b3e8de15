/** Loading a process: stack, argument block, task page tables and executable, as
    one sequence of heap allocations and mappings. */
module ProcessLoad {
  import opened Bits
  import opened Memory
  import opened HeapTable
  import H = Heap
  import opened HeapSafety
  import opened HeapFrames
  import opened Paging
  import opened PageTables
  import opened Loader
  import opened Arguments

  const TASK_SIZE: Word := 64
  const STACK_BASE: Word := 0x3F_B000

  /** The executable, already in memory: an ELF file, or a flat binary. */
  datatype Exec = Elf(buf: Word) | Binary(ptr: Word, size: Word)

  function MapExec(m: Mem, d: Page, exec: Exec): (Mem, int) {
    match exec
    case Elf(buf) => MapElf(m, d, buf)
    case Binary(ptr, size) => MapBinary(m, d, ptr, size)
  }

  /** `process_map_task_memory`: stack, argument block, executable. */
  function MapTaskMemory(m: Mem, d: Page, stack: Word, block: Word, exec: Exec): (Mem, int) {
    var (m1, rc1) := CreateMapping(m, d, STACK_BASE, stack, Paging.AlignUp(Wrap(stack + STACK_SIZE)), 7);
    if rc1 < 0 then (m1, rc1) else
      var (m2, rc2) := CreateMapping(m1, d, ARG_VIRT_ADDR, block, Paging.AlignUp(Wrap(block + ARG_BLOCK_SIZE)), 7);
      if rc2 < 0 then (m2, rc2) else MapExec(m2, d, exec)
  }

  /** `process_load_for_slot` from the stack allocation on: memory, return code and
      the page of the task's directory. */
  ghost function LoadImage(m: Mem, h: HeapDesc, exec: Exec, strs: seq<CString>): (Mem, int, Page)
    requires h.Valid() && |strs| <= MOST_ARGS
  {
    var (m1, stack) := H.Kzalloc(m, h, 0x4000);
    if stack == 0 then (m1, -ENOMEM, 0) else
      var (m2, block) := H.Kzalloc(StackArgs(m1, PagePlus(stack / 4096, 3), |strs|), h, 180);
      if block == 0 then (m2, -ENOMEM, 0) else
        var (m3, task) := H.Kzalloc(LoadArgs(m2, block / 4096, strs, |strs|), h, TASK_SIZE);
        var (m4, desc) := InitialTables(m3, h, 5);
        var d := Slot(m4, desc / 4096, 0) / 4096;
        var (r, rc) := MapTaskMemory(m4, d, stack, block, exec);
        (r, rc, d)
  }

  // ------------------------------------------------------------------
  // Mappings seen by the task.
  // ------------------------------------------------------------------

  /** The executable maps none of the stack's four pages nor the argument page. */
  predicate AvoidsArgs(m: Mem, exec: Exec) {
    match exec
    case Elf(buf) =>
      && FirstBad(buf, Segs(m, buf), 0) == |Segs(m, buf)|
      && forall i | 0 <= i < |Segs(m, buf)| :: Avoids(buf, Segs(m, buf)[i])
    case Binary(ptr, size) => Aligned(ptr) && ptr + size <= 0xFFFF_F000 && size <= 0x1C0_0000
  }

  predicate Avoids(buf: Word, seg: Phdr) {
    && !Covers(buf, seg, 0x3FB) && !Covers(buf, seg, 0x3FC) && !Covers(buf, seg, 0x3FD)
    && !Covers(buf, seg, 0x3FE) && !Covers(buf, seg, 0x2000)
  }

  /** The ELF headers do not lie in the page tables. */
  ghost predicate ExecApart(m: Mem, d: Page, exec: Exec) {
    exec.Elf? ==> HeadersApart(m, d, exec.buf)
  }

  lemma ElfKeepsPage(m: Mem, d: Page, buf: Word, q: Page)
    requires TablesOk(m, d) && HeadersApart(m, d, buf) && FirstBad(buf, Segs(m, buf), 0) == |Segs(m, buf)|
    requires forall i | 0 <= i < |Segs(m, buf)| :: !Covers(buf, Segs(m, buf)[i], q)
    ensures Pte(MapElf(m, d, buf).0, d, q) == Pte(m, d, q)
  {
    hide MapElf, MapFirst, Pte, Covers, Segs, FirstBad, TablesOk, HeadersApart;
    var segs := Segs(m, buf);
    MapElfIsMapFirst(m, d, buf);
    MapFirstPte(m, d, buf, segs, |segs|, q);
    Untouched(buf, segs, |segs|, Pte(m, d, q), q);
  }

  lemma ElfSucceeds(m: Mem, d: Page, buf: Word)
    requires TablesOk(m, d) && HeadersApart(m, d, buf) && FirstBad(buf, Segs(m, buf), 0) == |Segs(m, buf)|
    ensures var (r, rc) := MapElf(m, d, buf);
            rc == 0 && TablesOk(r, d) && OnlyPtes(m, r, d)
  {
    hide MapElf, MapFirst, Segs, FirstBad, TablesOk, HeadersApart, OnlyPtes;
    MapElfIsMapFirst(m, d, buf);
    MapFirstKeeps(m, d, buf, Segs(m, buf), |Segs(m, buf)|);
  }

  lemma BinaryPages(ptr: Word, size: Word)
    requires Aligned(ptr) && ptr + size <= 0xFFFF_F000 && size <= 0x1C0_0000
    ensures ptr <= Paging.AlignUp(Wrap(ptr + size)) <= ptr + 0x1C0_0000
  {
  }

  lemma BinaryMaps(m: Mem, d: Page, ptr: Word, size: Word, q: Page)
    requires TablesOk(m, d) && Aligned(ptr) && ptr + size <= 0xFFFF_F000 && size <= 0x1C0_0000
    ensures var (r, rc) := MapBinary(m, d, ptr, size);
            && rc == 0 && TablesOk(r, d) && OnlyPtes(m, r, d)
            && (q < 0x400 || q >= 0x2000 ==> Pte(r, d, q) == Pte(m, d, q))
  {
    hide MapPages, Pte, TablesOk, OnlyPtes, Wrap, AlignUp;
    BinaryPages(ptr, size);
    var n := (Paging.AlignUp(Wrap(ptr + size)) - ptr) / 4096;
    MapPagesKeeps(m, d, 0x400, ptr / 4096, n, 7);
    MapPagesPte(m, d, 0x400, ptr / 4096, n, 7, q);
  }

  /** Whatever the executable is, its mapping succeeds and keeps such a page's entry. */
  lemma ExecKeepsPage(m: Mem, d: Page, exec: Exec, q: Page)
    requires TablesOk(m, d) && ExecApart(m, d, exec) && AvoidsArgs(m, exec)
    requires 0x3FB <= q <= 0x3FE || q == 0x2000
    ensures var (r, rc) := MapExec(m, d, exec);
            rc == 0 && OnlyPtes(m, r, d) && TablesOk(r, d) && Pte(r, d, q) == Pte(m, d, q)
  {
    hide MapElf, MapBinary, Pte, Covers, Segs, FirstBad, TablesOk, HeadersApart, OnlyPtes;
    match exec
    case Elf(buf) =>
      ElfSucceeds(m, d, buf);
      ElfKeepsPage(m, d, buf, q);
    case Binary(ptr, size) =>
      BinaryMaps(m, d, ptr, size, q);
  }

  /** Changing table entries does not change ELF headers that lie apart. */
  lemma SegsStay(m: Mem, r: Mem, d: Page, buf: Word)
    requires HeadersApart(m, d, buf) && OnlyPtes(m, r, d)
    ensures Segs(r, buf) == Segs(m, buf) && HeadersApart(r, d, buf)
  {
    hide Frame, Read32, PhdrAt, Phnum;
    var table, n := PhdrTable(m, buf), Phnum(m, buf);
    forall a: Word | HeaderByte(buf, table, n, a)
      ensures r[a] == m[a]
    {
      assert !TableByte(m, d, a);
    }
    PhnumBound(m, buf);
    HeadersAgree(m, r, buf, table, n);
    PhdrTableAgrees(m, r, buf);
    forall a: Word | TableByte(r, d, a)
      ensures TableByte(m, d, a)
    {
    }
  }

  lemma PhnumBound(m: Mem, buf: Word)
    ensures Phnum(m, buf) < 0x1_0000
  {
  }

  lemma PhdrTableAgrees(m: Mem, r: Mem, buf: Word)
    requires forall b: Word | Wrap(b - buf) < 52 :: r[b] == m[b]
    ensures PhdrTable(r, buf) == PhdrTable(m, buf)
  {
    hide Read32;
    var a := Wrap(buf + 28);
    forall b: Word | Wrap(b - a) < 4
      ensures r[b] == m[b]
    {
      Offset(b, buf, 28);
    }
    Read32Agree(m, r, a);
  }

  lemma ExecStays(m: Mem, r: Mem, d: Page, exec: Exec)
    requires ExecApart(m, d, exec) && AvoidsArgs(m, exec) && OnlyPtes(m, r, d)
    ensures ExecApart(r, d, exec) && AvoidsArgs(r, exec)
  {
    hide Segs, FirstBad, Avoids, HeadersApart, OnlyPtes;
    if exec.Elf? {
      SegsStay(m, r, d, exec.buf);
    }
  }

  /** A mapping of `n` pages between page numbers that do not wrap. */
  lemma PlainMapping(m: Mem, d: Page, v: Page, f: Page, size: Word, n: nat, q: Page)
    requires TablesOk(m, d) && v + n <= 0x10_0000 && f + n < 0x10_0000 && 4096 * n < size + 4096 && size <= 4096 * n
    ensures var (r, rc) := CreateMapping(m, d, 4096 * v, 4096 * f, Paging.AlignUp(Wrap(4096 * f + size)), 7);
            && rc == 0 && TablesOk(r, d) && OnlyPtes(m, r, d)
            && Pte(r, d, q) == if v <= q < v + n then 4096 * (f + (q - v)) + 7 else Pte(m, d, q)
  {
    hide MapPages, Pte, TablesOk, OnlyPtes;
    assert Paging.AlignUp(Wrap(4096 * f + size)) == 4096 * (f + n);
    MapPagesKeeps(m, d, v, f, n, 7);
    MapPagesPte(m, d, v, f, n, 7, q);
  }

  lemma OnlyPtesTwice(m: Mem, r: Mem, s: Mem, d: Page)
    requires OnlyPtes(m, r, d) && OnlyPtes(r, s, d)
    ensures OnlyPtes(m, s, d)
  {
    hide Frame;
    forall a: Word | !TableByte(m, d, a)
      ensures s[a] == m[a]
    {
      assert !TableByte(r, d, a);
    }
  }

  /** Stack and argument block mapped, and the executable left to do. */
  lemma BeforeExec(m: Mem, d: Page, sp: Page, bp: Page, exec: Exec) returns (t: Mem)
    requires TablesOk(m, d) && sp + 4 < 0x10_0000 && bp + 1 < 0x10_0000
    ensures MapTaskMemory(m, d, 4096 * sp, 4096 * bp, exec) == MapExec(t, d, exec)
    ensures TablesOk(t, d) && OnlyPtes(m, t, d)
    ensures forall q: Page :: Pte(t, d, q) ==
              if 0x3FB <= q <= 0x3FE then 4096 * (sp + (q - 0x3FB)) + 7
              else if q == 0x2000 then 4096 * bp + 7 else Pte(m, d, q)
  {
    hide CreateMapping, MapExec, Pte, TablesOk, OnlyPtes, Wrap, AlignUp;
    var (m1, rc1) := CreateMapping(m, d, STACK_BASE, 4096 * sp, Paging.AlignUp(Wrap(4096 * sp + STACK_SIZE)), 7);
    PlainMapping(m, d, 0x3FB, sp, 0x4000, 4, 0x3FE);
    var (m2, rc2) :=
      CreateMapping(m1, d, ARG_VIRT_ADDR, 4096 * bp, Paging.AlignUp(Wrap(4096 * bp + ARG_BLOCK_SIZE)), 7);
    PlainMapping(m1, d, 0x2000, bp, 180, 1, 0x3FE);
    OnlyPtesTwice(m, m1, m2, d);
    t := m2;
    forall q: Page
      ensures Pte(t, d, q) == if 0x3FB <= q <= 0x3FE then 4096 * (sp + (q - 0x3FB)) + 7
                              else if q == 0x2000 then 4096 * bp + 7 else Pte(m, d, q)
    {
      PlainMapping(m, d, 0x3FB, sp, 0x4000, 4, q);
      PlainMapping(m1, d, 0x2000, bp, 180, 1, q);
    }
  }

  /** Virtual pages 0x3FB .. 0x3FE lead to the stack's four pages, page 0x2000 to the
      argument block. */
  predicate StackAndArgs(m: Mem, d: Page, sp: Page, bp: Page) {
    && sp + 4 < 0x10_0000 && Pte(m, d, 0x2000) == 4096 * bp + 7
    && Pte(m, d, 0x3FB) == 4096 * sp + 7 && Pte(m, d, 0x3FC) == 4096 * (sp + 1) + 7
    && Pte(m, d, 0x3FD) == 4096 * (sp + 2) + 7 && Pte(m, d, 0x3FE) == 4096 * (sp + 3) + 7
  }

  /** After `process_map_task_memory` they do, whatever the executable maps elsewhere. */
  lemma TaskMemoryMapped(m: Mem, d: Page, sp: Page, bp: Page, exec: Exec)
    requires TablesOk(m, d) && sp + 4 < 0x10_0000 && bp + 1 < 0x10_0000
    requires ExecApart(m, d, exec) && AvoidsArgs(m, exec)
    ensures var (r, rc) := MapTaskMemory(m, d, 4096 * sp, 4096 * bp, exec);
            rc == 0 && TablesOk(r, d) && OnlyPtes(m, r, d) && StackAndArgs(r, d, sp, bp)
  {
    hide MapTaskMemory, MapExec, Pte, TablesOk, OnlyPtes, ExecApart, AvoidsArgs;
    var t := BeforeExec(m, d, sp, bp, exec);
    ExecStays(m, t, d, exec);
    ExecKeepsPage(t, d, exec, 0x3FB);
    ExecKeepsPage(t, d, exec, 0x3FC);
    ExecKeepsPage(t, d, exec, 0x3FD);
    ExecKeepsPage(t, d, exec, 0x3FE);
    ExecKeepsPage(t, d, exec, 0x2000);
    OnlyPtesTwice(m, t, MapExec(t, d, exec).0, d);
  }

  // ------------------------------------------------------------------
  // What the task reads through its page tables.
  // ------------------------------------------------------------------

  ghost function TaskByte(m: Mem, d: Page, virt: Word): Byte {
    m[Translate(m, d, virt)]
  }

  /** The word in which the byte at `virt` lies. */
  ghost function TaskWord(m: Mem, d: Page, virt: Word): Word {
    WordAt(m, Translate(m, d, virt) / 4)
  }

  ghost predicate TaskString(m: Mem, d: Page, virt: Word, s: CString) {
    virt + |s| < 0x1_0000_0000 && forall k | 0 <= k <= |s| :: CharAt(s, k) == TaskByte(m, d, virt + k)
  }

  /** The initial stack pointer, from `task_init`. */
  const INITIAL_ESP: Word := STACK_VIRT_ADDR - 8

  /** argv at [esp], argc at [esp + 4], and every argv[i] leads to its string. */
  ghost predicate SeesArguments(m: Mem, d: Page, strs: seq<CString>) {
    && |strs| <= MOST_ARGS
    && TaskWord(m, d, INITIAL_ESP) == ARG_VIRT_ADDR
    && TaskWord(m, d, INITIAL_ESP + 4) == |strs|
    && (forall i: nat | i < |strs| :: SeesArgument(m, d, i, strs[i]))
  }

  ghost predicate SeesArgument(m: Mem, d: Page, i: nat, s: CString)
    requires i < MOST_ARGS
  {
    TaskString(m, d, TaskWord(m, d, ARG_VIRT_ADDR + 4 * i), s)
  }

  /** A page of the task that leads to page `f`. */
  lemma ThroughPage(m: Mem, d: Page, virt: Word, p: Page, f: Page, o: nat)
    requires Pte(m, d, p) == 4096 * f + 7 && o < 4096 && virt == 4096 * p + o
    ensures Translate(m, d, virt) == 4096 * f + o
    ensures TaskByte(m, d, virt) == m[4096 * f + o]
  {
    hide Pte;
  }

  lemma WordThroughPage(m: Mem, d: Page, virt: Word, p: Page, f: Page, k: nat)
    requires Pte(m, d, p) == 4096 * f + 7 && k < 1024 && virt == 4096 * p + 4 * k
    ensures virt % 4 == 0 && TaskWord(m, d, virt) == Slot(m, f, k)
  {
    hide Pte, WordAt, Translate;
    ThroughPage(m, d, virt, p, f, 4 * k);
    assert (4096 * f + 4 * k) / 4 == 1024 * f + k;
  }

  lemma ArgumentSeen(m: Mem, d: Page, bp: Page, i: nat, s: CString)
    requires i < MOST_ARGS && |s| <= 32 && ArgPointer(m, bp, i) && Pte(m, d, 0x2000) == 4096 * bp + 7
    ensures SeesArgument(m, d, i, s) <==> StringAt(m, ArgCell(bp, i), s)
  {
    hide Pte, TaskByte, TaskWord, Slot;
    WordThroughPage(m, d, ARG_VIRT_ADDR + 4 * i, 0x2000, bp, i);
    var virt: Word := ARG_VIRT_ADDR + StringOffset(i);
    forall k | 0 <= k <= |s|
      ensures CharAt(s, k) == TaskByte(m, d, virt + k) <==> CharAt(s, k) == m[ArgCell(bp, i) + k]
    {
      CellByte(m, d, bp, i, k);
    }
  }

  lemma CellByte(m: Mem, d: Page, bp: Page, i: nat, k: nat)
    requires i < MOST_ARGS && k <= 32 && Pte(m, d, 0x2000) == 4096 * bp + 7
    ensures TaskByte(m, d, ARG_VIRT_ADDR + StringOffset(i) + k) == m[ArgCell(bp, i) + k]
  {
    hide Pte;
    ThroughPage(m, d, ARG_VIRT_ADDR + StringOffset(i) + k, 0x2000, bp, StringOffset(i) + k);
  }

  /** Every argument lasts. */
  predicate ArgsLast(strs: seq<CString>)
    requires |strs| <= MOST_ARGS
  {
    forall i: nat | i < |strs| :: ArgLasts(strs, i)
  }

  /** Where there are more than five arguments, the task reads a pointer in place of argument
      0, and in place of another one for every eight more. */
  ghost predicate SeesPointers(m: Mem, d: Page, strs: seq<CString>)
    requires |strs| <= MOST_ARGS
  {
    forall i: nat | i < |strs| && Overlaid(|strs|, i) :: SeesArgument(m, d, i, PointerText(i))
  }

  /** The argument block and the last words of the stack are in place. */
  ghost predicate ArgsInPlace(m: Mem, top: Page, bp: Page, strs: seq<CString>) {
    && |strs| <= MOST_ARGS && (forall i: nat | i < |strs| :: |strs[i]| <= 32)
    && Slot(m, top, 1022) == ARG_VIRT_ADDR && Slot(m, top, 1023) == |strs|
    && forall i: nat | i < |strs| :: ArgLoaded(m, bp, strs, i)
  }

  /** The entries through which the task reaches its arguments. */
  predicate ArgEntries(m: Mem, d: Page, sp: Page, bp: Page) {
    sp + 3 < 0x10_0000 && Pte(m, d, 0x3FE) == 4096 * (sp + 3) + 7 && Pte(m, d, 0x2000) == 4096 * bp + 7
  }

  /** With them in place and in view, the task sees its arguments exactly if they last. */
  lemma ArgumentsSeen(m: Mem, d: Page, sp: Page, bp: Page, strs: seq<CString>)
    requires ArgEntries(m, d, sp, bp) && ArgsInPlace(m, sp + 3, bp, strs)
    ensures SeesPointers(m, d, strs) && (SeesArguments(m, d, strs) <==> ArgsLast(strs))
  {
    hide Pte, TaskWord, Slot, SeesArgument, StringAt, ArgLasts, ArgPointer, Overlaid;
    WordThroughPage(m, d, INITIAL_ESP, 0x3FE, sp + 3, 1022);
    WordThroughPage(m, d, INITIAL_ESP + 4, 0x3FE, sp + 3, 1023);
    forall i: nat | i < |strs|
      ensures SeesArgument(m, d, i, strs[i]) <==> ArgLasts(strs, i)
      ensures Overlaid(|strs|, i) ==> SeesArgument(m, d, i, PointerText(i))
    {
      assert ArgLoaded(m, bp, strs, i);
      ArgumentSeen(m, d, bp, i, strs[i]);
      ArgumentSeen(m, d, bp, i, PointerText(i));
    }
  }

  /** They stay in place while their two pages keep their bytes. */
  lemma InPlaceAgrees(m: Mem, r: Mem, top: Page, bp: Page, strs: seq<CString>)
    requires ArgsInPlace(m, top, bp, strs) && AgreeOnPage(m, r, top) && AgreeOnPage(m, r, bp)
    ensures ArgsInPlace(r, top, bp, strs)
  {
    hide Slot, ArgLasts, AgreeOnPage, ArgPointer, StringAt;
    SlotAgree(m, r, top, 1022);
    SlotAgree(m, r, top, 1023);
    forall i: nat | i < |strs|
      ensures ArgLoaded(r, bp, strs, i)
    {
      assert ArgLoaded(m, bp, strs, i);
      LoadedAgrees(m, r, bp, i, strs[i]);
      LoadedAgrees(m, r, bp, i, PointerText(i));
    }
  }

  lemma LoadedAgrees(m: Mem, r: Mem, b: Page, i: nat, s: CString)
    requires i < MOST_ARGS && |s| <= 32 && AgreeOnPage(m, r, b)
    ensures ArgPointer(r, b, i) == ArgPointer(m, b, i)
    ensures StringAt(r, ArgCell(b, i), s) == StringAt(m, ArgCell(b, i), s)
  {
    hide Slot;
    SlotAgree(m, r, b, i);
    var at := ArgCell(b, i);
    forall k | 0 <= k <= |s|
      ensures CharAt(s, k) == m[at + k] <==> CharAt(s, k) == r[at + k]
    {
    }
  }

  // ------------------------------------------------------------------
  // The allocations before it.
  // ------------------------------------------------------------------

  /** Every byte of page `f` is in use. */
  ghost predicate PageHeld(m: Mem, h: HeapDesc, f: Page)
    requires h.Valid()
  {
    forall a: Word | InPage(f, a) :: Stable(m, h, a)
  }

  lemma HeldStays(m: Mem, r: Mem, h: HeapDesc, f: Page)
    requires h.Valid() && PageHeld(m, h, f) && Kept(m, r, h)
    ensures PageHeld(r, h, f) && AgreeOnPage(m, r, f)
  {
    hide Stable;
  }

  lemma HeldTaken(m: Mem, h: HeapDesc, f: Page)
    requires h.Valid() && PageHeld(m, h, f)
    ensures !FreePage(m, h, f)
  {
    hide Stable, FreePage;
    var a: Word := 4096 * f;
    if FreePage(m, h, f) {
      FreePageUnstable(m, h, f, a);
    }
  }

  lemma TakenHeld(m: Mem, h: HeapDesc, f: Page)
    requires h.Valid() && h.page <= f < h.page + h.total && !FreePage(m, h, f)
    ensures PageHeld(m, h, f)
  {
    forall a: Word | InPage(f, a)
      ensures Stable(m, h, a)
    {
      forall b: nat | b < h.total && InBlock(h, b, a)
        ensures !IsFree(H.TableOf(m, h)[b])
      {
        assert b == f - h.page;
      }
    }
  }

  /** A page that is free now was free before. */
  lemma FreeBefore(m: Mem, r: Mem, h: HeapDesc, f: Page)
    requires h.Valid() && Kept(m, r, h) && FreePage(r, h, f)
    ensures FreePage(m, h, f)
  {
    hide Kept, PageHeld, H.TableOf;
    if !FreePage(m, h, f) {
      TakenHeld(m, h, f);
      HeldStays(m, r, h, f);
      HeldTaken(r, h, f);
      assert false;
    }
  }

  /** Writing a page that an allocation just carved out. */
  lemma WriteFresh(m: Mem, m1: Mem, r: Mem, h: HeapDesc, size: Word, p: Word, b: nat, n: nat, f: Page)
    requires Zalloced(m, h, size, m1, p, b, n) && h.page + b <= f < h.page + b + n
    requires forall a: Word | !InPage(f, a) :: r[a] == m1[a]
    ensures Kept(m, r, h) && H.HeapOk(r, h) && H.TableOf(r, h) == H.TableOf(m1, h) && PageHeld(r, h, f)
    ensures LiveGrows(m, r, h) && FreePage(m, h, f)
  {
    hide FreeCount, H.Live;
    assert FreePage(m, h, f);
    forall a: Word | InPage(f, a)
      ensures !Stable(m, h, a) && !H.InTable(h, a)
    {
      FreePageUnstable(m, h, f, a);
    }
    HeapUntouched(m1, r, h);
    FreshHeld(m, m1, h, size, p, b, n, f);
  }

  lemma FreshHeld(m: Mem, m1: Mem, h: HeapDesc, size: Word, p: Word, b: nat, n: nat, f: Page)
    requires Zalloced(m, h, size, m1, p, b, n) && h.page + b <= f < h.page + b + n
    ensures PageHeld(m1, h, f)
  {
    hide FreeCount, Kept, H.TableOf;
    forall a: Word | InPage(f, a)
      ensures Stable(m1, h, a)
    {
      LiveStable(m1, h, b, f - h.page, a);
    }
  }

  lemma StackReady(m: Mem, h: HeapDesc, s: nat, argc: Word) returns (sp: Page)
    requires H.HeapOk(m, h) && Window(H.TableOf(m, h), s, 4)
    ensures var (m1, stack) := H.Kzalloc(m, h, 0x4000);
            && stack == 4096 * sp > 0 && h.page <= sp && sp + 4 <= h.page + h.total && sp + 4 < 0x10_0000
            && var r := StackArgs(m1, sp + 3, argc);
               && H.HeapOk(r, h) && H.TableOf(r, h) == H.TableOf(m1, h) && Kept(m, r, h) && PageHeld(r, h, sp + 3)
               && Slot(r, sp + 3, 1022) == ARG_VIRT_ADDR && Slot(r, sp + 3, 1023) == argc
               && FreeCount(H.TableOf(r, h)) == FreeCount(H.TableOf(m, h)) - 4 && LiveGrows(m, r, h)
               && FreePage(m, h, sp + 3)
  {
    hide H.Kzalloc, FreeCount, Kept, PageHeld, Slot, SetSlot, LiveGrows, FreePage;
    assert H.Blocks(0x4000) == 4;
    ZallocFits(m, h, 0x4000, s);
    var b := FirstWindow(H.TableOf(m, h), 4, 0);
    sp := h.page + b;
    var (m1, stack) := H.Kzalloc(m, h, 0x4000);
    WriteFresh(m, m1, StackArgs(m1, sp + 3, argc), h, 0x4000, stack, b, 4, sp + 3);
  }

  lemma BlockReady(m: Mem, h: HeapDesc, strs: seq<CString>) returns (bp: Page)
    requires H.HeapOk(m, h) && FreeCount(H.TableOf(m, h)) > 0
    requires |strs| <= MOST_ARGS && forall i | 0 <= i < |strs| :: |strs[i]| <= 32
    ensures var (m1, block) := H.Kzalloc(m, h, 180);
            && block == 4096 * bp > 0 && h.page <= bp < h.page + h.total && bp + 1 < 0x10_0000
            && var r := LoadArgs(m1, bp, strs, |strs|);
               && H.HeapOk(r, h) && H.TableOf(r, h) == H.TableOf(m1, h) && Kept(m, r, h) && PageHeld(r, h, bp)
               && (forall i: nat | i < |strs| :: ArgLoaded(r, bp, strs, i))
               && FreeCount(H.TableOf(r, h)) == FreeCount(H.TableOf(m, h)) - 1 && LiveGrows(m, r, h)
               && FreePage(m, h, bp)
  {
    hide H.Kzalloc, FreeCount, Kept, PageHeld, ArgLoaded, LoadArgs, LiveGrows, FreePage;
    var b := ZallocOne(m, h, 180);
    bp := h.page + b;
    var (m1, block) := H.Kzalloc(m, h, 180);
    ArgsLoaded(m1, bp, strs);
    WriteFresh(m, m1, LoadArgs(m1, bp, strs, |strs|), h, 180, block, b, 1, bp);
  }

  /** The new tables share no byte with a page that was in use. */
  lemma HeldApart(m: Mem, r: Mem, h: HeapDesc, d: Page, a: Word)
    requires h.Valid() && TablesFresh(m, r, h, d) && Stable(m, h, a)
    ensures !TableByte(r, d, a)
  {
    hide Frame, Stable, FreePage;
    if i: nat :| i < 1024 && InPage(Frame(r, d, i), a) {
      FreePageUnstable(m, h, Frame(r, d, i), a);
      assert false;
    }
  }

  // ------------------------------------------------------------------
  // End to end.
  // ------------------------------------------------------------------

  /** The ELF headers lie in memory that is in use. */
  ghost predicate ExecHeld(m: Mem, h: HeapDesc, exec: Exec)
    requires h.Valid()
  {
    exec.Elf? ==>
      forall a: Word | HeaderByte(exec.buf, PhdrTable(m, exec.buf), Phnum(m, exec.buf), a) :: Stable(m, h, a)
  }

  /** Allocation and new tables leave such headers as they were, and apart. */
  lemma ExecSurvives(m: Mem, m1: Mem, r: Mem, h: HeapDesc, d: Page, exec: Exec)
    requires h.Valid() && ExecHeld(m, h, exec) && AvoidsArgs(m, exec)
    requires Kept(m, m1, h) && Kept(m1, r, h) && TablesFresh(m1, r, h, d)
    ensures ExecApart(r, d, exec) && AvoidsArgs(r, exec)
    ensures exec.Elf? ==> Segs(r, exec.buf) == Segs(m, exec.buf)
  {
    hide Avoids, FirstBad, PhdrAt, Read32, Stable, Frame, TablesFresh, Phnum, HeaderByte;
    if exec.Elf? {
      var buf := exec.buf;
      var table, n := PhdrTable(m, buf), Phnum(m, buf);
      HeaderStays(m, r, buf, table, n);
      forall a: Word | TableByte(r, d, a)
        ensures !HeaderByte(buf, table, n, a)
      {
        if HeaderByte(buf, table, n, a) {
          HeldApart(m1, r, h, d, a);
          assert false;
        }
      }
    }
  }

  lemma HeaderStays(m: Mem, r: Mem, buf: Word, table: Word, n: nat)
    requires table == PhdrTable(m, buf) && n == Phnum(m, buf)
    requires forall a: Word | HeaderByte(buf, table, n, a) :: r[a] == m[a]
    ensures PhdrTable(r, buf) == table && Phnum(r, buf) == n && Segs(r, buf) == Segs(m, buf)
  {
    hide PhdrAt, Read32, Phnum;
    PhnumBound(m, buf);
    HeadersAgree(m, r, buf, table, n);
    PhdrTableAgrees(m, r, buf);
  }

  /** Changing entries of tables that live in the heap leaves the heap alone. */
  lemma EntriesKeepHeap(m: Mem, r: Mem, h: HeapDesc, d: Page)
    requires H.HeapOk(m, h) && TablesLive(m, h, d) && OnlyPtes(m, r, d)
    ensures H.HeapOk(r, h) && H.TableOf(r, h) == H.TableOf(m, h) && TablesLive(r, h, d) && LiveGrows(m, r, h)
    ensures forall a: Word :: Stable(r, h, a) <==> Stable(m, h, a)
  {
    hide Frame, H.Live, H.TableOf, Stable;
    forall a: Word | H.InTable(h, a)
      ensures r[a] == m[a]
    {
      if i: nat :| i < 1024 && InPage(Frame(m, d, i), a) {
        TablePageApart(m, h, Frame(m, d, i), a);
        assert false;
      }
    }
    HeapUntouched(m, r, h);
  }

  lemma TablePageApart(m: Mem, h: HeapDesc, f: Page, a: Word)
    requires H.HeapOk(m, h) && LivePage(m, h, f) && InPage(f, a)
    ensures !H.InTable(h, a)
  {
    LivePageStable(m, m, h, f);
  }

  /** New tables and the mappings made in them keep every byte that was in use. */
  lemma MappingKeeps(m: Mem, m1: Mem, r: Mem, h: HeapDesc, d: Page)
    requires h.Valid() && Kept(m, m1, h) && TablesFresh(m, m1, h, d) && OnlyPtes(m1, r, d)
    requires forall a: Word :: Stable(r, h, a) <==> Stable(m1, h, a)
    ensures Kept(m, r, h)
  {
    hide TablesFresh, Frame, Stable;
    forall a: Word | Stable(m, h, a)
      ensures r[a] == m[a] && Stable(r, h, a)
    {
      HeldApart(m, m1, h, d, a);
    }
  }

  /** The stack's four pages and the argument page are pages of the heap. */
  predicate InHeap(h: HeapDesc, sp: Page, bp: Page) {
    h.page <= sp && sp + 4 <= h.page + h.total && h.page <= bp < h.page + h.total
  }

  /** Everything the kernel relies on once a process is loaded: heap and tables are in
      order, what was in use is as it was, and stack and arguments are in place and in view. */
  ghost predicate Loaded(m: Mem, r: Mem, h: HeapDesc, d: Page, sp: Page, bp: Page, strs: seq<CString>) {
    && H.HeapOk(r, h) && TablesOk(r, d) && TablesLive(r, h, d) && Kept(m, r, h)
    && StackAndArgs(r, d, sp, bp) && ArgsInPlace(r, sp + 3, bp, strs) && InHeap(h, sp, bp)
    && PageHeld(r, h, sp + 3) && PageHeld(r, h, bp) && Untabled(r, d, sp + 3) && Untabled(r, d, bp)
    && LiveGrows(m, r, h) && TablesNew(m, r, h, d) && FreePage(m, h, sp + 3) && FreePage(m, h, bp)
  }

  /** No page of the directory and the tables was in use before. */
  ghost predicate TablesNew(m: Mem, r: Mem, h: HeapDesc, d: Page)
    requires h.Valid()
  {
    forall f: Page | PageHeld(m, h, f) :: Untabled(r, d, f)
  }

  /** Page `f` is neither the directory nor a table. */
  ghost predicate Untabled(m: Mem, d: Page, f: Page) {
    f != d && forall i: nat | i < 1024 :: Frame(m, d, i) != f
  }

  /** A page in use is none of the new tables. */
  lemma HeldUntabled(m: Mem, m1: Mem, r: Mem, h: HeapDesc, d: Page, f: Page)
    requires h.Valid() && PageHeld(m, h, f) && TablesFresh(m, m1, h, d) && OnlyPtes(m1, r, d)
    ensures Untabled(r, d, f)
  {
    hide Stable, Frame;
    var a: Word := 4096 * f;
    if FreePage(m, h, f) {
      FreePageUnstable(m, h, f, a);
      assert false;
    }
  }

  /** The memory in which the new tables are filled in: stack, block and task are there. */
  ghost predicate Prepared(m: Mem, r: Mem, h: HeapDesc, sp: Page, bp: Page, strs: seq<CString>) {
    && H.HeapOk(r, h) && Kept(m, r, h) && sp + 4 < 0x10_0000 && bp + 1 < 0x10_0000 && InHeap(h, sp, bp)
    && ArgsInPlace(r, sp + 3, bp, strs) && PageHeld(r, h, sp + 3) && PageHeld(r, h, bp)
    && FreeCount(H.TableOf(r, h)) >= 1026 && LiveGrows(m, r, h) && FreePage(m, h, sp + 3) && FreePage(m, h, bp)
  }

  lemma GrowsTransitive(m: Mem, r: Mem, s: Mem, h: HeapDesc)
    requires h.Valid() && LiveGrows(m, r, h) && LiveGrows(r, s, h)
    ensures LiveGrows(m, s, h)
  {
    hide H.Live;
  }

  lemma ZallocGrows(m: Mem, r: Mem, h: HeapDesc, size: Word, p: Word, b: nat, n: nat)
    requires Zalloced(m, h, size, r, p, b, n)
    ensures LiveGrows(m, r, h)
  {
    hide H.Live, FreeCount, Kept;
  }

  lemma ArgsPrepared(m: Mem, h: HeapDesc, strs: seq<CString>, s: nat) returns (r: Mem, sp: Page, bp: Page)
    requires H.HeapOk(m, h) && Window(H.TableOf(m, h), s, 4) && FreeCount(H.TableOf(m, h)) >= 1032
    requires |strs| <= MOST_ARGS && forall i | 0 <= i < |strs| :: |strs[i]| <= 32
    ensures var (m1, stack) := H.Kzalloc(m, h, 0x4000);
            var (m2, block) := H.Kzalloc(StackArgs(m1, PagePlus(stack / 4096, 3), |strs|), h, 180);
            && stack == 4096 * sp > 0 && block == 4096 * bp > 0 && r == LoadArgs(m2, block / 4096, strs, |strs|)
            && Prepared(m, r, h, sp, bp, strs) && FreeCount(H.TableOf(r, h)) >= 1027
  {
    hide H.Kzalloc, StackArgs, LoadArgs, FreeCount, Kept, PageHeld, Slot, ArgLoaded, Window, AgreeOnPage, LiveGrows,
         FreePage;
    sp := StackReady(m, h, s, |strs|);
    assert PagePlus(sp, 3) == sp + 3;
    var m2 := StackArgs(H.Kzalloc(m, h, 0x4000).0, sp + 3, |strs|);
    bp := BlockReady(m2, h, strs);
    r := LoadArgs(H.Kzalloc(m2, h, 180).0, bp, strs, |strs|);
    FreeBefore(m, m2, h, bp);
    KeptTransitive(m, m2, r, h);
    GrowsTransitive(m, m2, r, h);
    HeldStays(m2, r, h, sp + 3);
    SlotAgree(m2, r, sp + 3, 1022);
    SlotAgree(m2, r, sp + 3, 1023);
  }

  lemma PreparedForTask(m: Mem, h: HeapDesc, strs: seq<CString>, s: nat) returns (r: Mem, sp: Page, bp: Page)
    requires H.HeapOk(m, h) && Window(H.TableOf(m, h), s, 4) && FreeCount(H.TableOf(m, h)) >= 1032
    requires |strs| <= MOST_ARGS && forall i | 0 <= i < |strs| :: |strs[i]| <= 32
    ensures var (m1, stack) := H.Kzalloc(m, h, 0x4000);
            var (m2, block) := H.Kzalloc(StackArgs(m1, PagePlus(stack / 4096, 3), |strs|), h, 180);
            && stack == 4096 * sp > 0 && block == 4096 * bp > 0
            && r == H.Kzalloc(LoadArgs(m2, block / 4096, strs, |strs|), h, TASK_SIZE).0
            && Prepared(m, r, h, sp, bp, strs)
  {
    hide H.Kzalloc, StackArgs, LoadArgs, FreeCount, Kept, PageHeld, ArgsInPlace, Window, AgreeOnPage, LiveGrows,
         FreePage;
    var m4: Mem;
    m4, sp, bp := ArgsPrepared(m, h, strs, s);
    var b := ZallocOne(m4, h, TASK_SIZE);
    r := H.Kzalloc(m4, h, TASK_SIZE).0;
    KeptTransitive(m, m4, r, h);
    ZallocGrows(m4, r, h, TASK_SIZE, H.Kzalloc(m4, h, TASK_SIZE).1, b, 1);
    GrowsTransitive(m, m4, r, h);
    HeldStays(m4, r, h, sp + 3);
    HeldStays(m4, r, h, bp);
    InPlaceAgrees(m4, r, sp + 3, bp, strs);
  }

  /** Every page maps to itself, with the flags "present" and "user". */
  ghost predicate NewTables(m: Mem, d: Page) {
    OpenDir(m, d) && forall q: Page :: Pte(m, d, q) == 4096 * q + 5
  }

  lemma NewTablesMade(m: Mem, h: HeapDesc, d: Page)
    requires H.HeapOk(m, h) && FreeCount(H.TableOf(m, h)) >= 1026
    requires var (r, desc) := InitialTables(m, h, 5);
             Identity(r, d, 5) && Slot(r, desc / 4096, 0) / 4096 == d
    ensures NewTables(InitialTables(m, h, 5).0, d)
  {
    hide InitialTables, FreeCount, Pte, OpenDir, TablesOk, WellFormed;
    InitOpen(m, h, 5);
  }

  /** The image is what mapping stack, block and executable in the new tables of `m6` gave. */
  ghost predicate MappedFrom(m: Mem, m6: Mem, r: Mem, d: Page, sp: Page, bp: Page, exec: Exec) {
    && sp + 4 < 0x10_0000 && bp + 1 < 0x10_0000 && (r, 0) == MapTaskMemory(m6, d, 4096 * sp, 4096 * bp, exec)
    && TablesOk(m6, d) && ExecApart(m6, d, exec) && AvoidsArgs(m6, exec)
    && NewTables(m6, d) && (exec.Elf? ==> Segs(m6, exec.buf) == Segs(m, exec.buf))
  }

  /** From there the tables are made and mapped. */
  lemma TaskLoaded(m: Mem, m5: Mem, h: HeapDesc, sp: Page, bp: Page, exec: Exec, strs: seq<CString>) returns (d: Page)
    requires Prepared(m, m5, h, sp, bp, strs) && ExecHeld(m, h, exec) && AvoidsArgs(m, exec)
    ensures var (m6, desc) := InitialTables(m5, h, 5);
            var (r, rc) := MapTaskMemory(m6, d, 4096 * sp, 4096 * bp, exec);
            && d == Slot(m6, desc / 4096, 0) / 4096 && rc == 0 && Loaded(m, r, h, d, sp, bp, strs)
            && MappedFrom(m, m6, r, d, sp, bp, exec)
  {
    hide InitialTables, MapTaskMemory, FreeCount, Kept, PageHeld, Slot, ArgsInPlace, ExecHeld, AvoidsArgs, ExecApart,
         TablesFresh, TablesLive, LiveGrows, LivePage, Translate, Segs, OnlyPtes, StackAndArgs, AgreeOnPage,
         Untabled, FreePage, NewTables;
    var f: Page;
    d, f := InitIdentity(m5, h, 5);
    var m6 := InitialTables(m5, h, 5).0;
    NewTablesMade(m5, h, d);
    ExecSurvives(m, m5, m6, h, d, exec);
    assert TablesOk(m6, d) by { IdentityOk(m6, d, 5); }
    TaskMemoryMapped(m6, d, sp, bp, exec);
    var r := MapTaskMemory(m6, d, 4096 * sp, 4096 * bp, exec).0;
    EntriesKeepHeap(m6, r, h, d);
    MappingKeeps(m5, m6, r, h, d);
    KeptTransitive(m, m5, r, h);
    HeldStays(m5, r, h, sp + 3);
    HeldStays(m5, r, h, bp);
    HeldUntabled(m5, m6, r, h, d, sp + 3);
    HeldUntabled(m5, m6, r, h, d, bp);
    InPlaceAgrees(m5, r, sp + 3, bp, strs);
    GrowsTransitive(m5, m6, r, h);
    GrowsTransitive(m, m5, r, h);
    forall f: Page | PageHeld(m, h, f)
      ensures Untabled(r, d, f)
    {
      HeldStays(m, m5, h, f);
      HeldUntabled(m5, m6, r, h, d, f);
    }
  }

  /** Loading succeeds with four adjacent free blocks for the stack and 1032 in all. */
  lemma ImageLoaded(m: Mem, h: HeapDesc, exec: Exec, strs: seq<CString>, s: nat) returns (m6: Mem, sp: Page, bp: Page)
    requires H.HeapOk(m, h) && Window(H.TableOf(m, h), s, 4) && FreeCount(H.TableOf(m, h)) >= 1032
    requires |strs| <= MOST_ARGS && forall i | 0 <= i < |strs| :: |strs[i]| <= 32
    requires ExecHeld(m, h, exec) && AvoidsArgs(m, exec)
    ensures var (r, rc, d) := LoadImage(m, h, exec, strs);
            rc == 0 && Loaded(m, r, h, d, sp, bp, strs) && MappedFrom(m, m6, r, d, sp, bp, exec)
  {
    hide H.Kzalloc, InitialTables, MapTaskMemory, StackArgs, LoadArgs, FreeCount, Kept, PageHeld, Slot, ArgsInPlace,
         ExecHeld, AvoidsArgs, Loaded, Window, MappedFrom;
    var m5: Mem;
    m5, sp, bp := PreparedForTask(m, h, strs, s);
    var d := TaskLoaded(m, m5, h, sp, bp, exec, strs);
    m6 := InitialTables(m5, h, 5).0;
  }

  /** Argument passing end to end: for up to 127 arguments of up to 32 characters loading
      succeeds, and the task sees its arguments exactly if each lasts. */
  lemma ArgumentsArrive(m: Mem, h: HeapDesc, exec: Exec, strs: seq<CString>, s: nat)
    requires H.HeapOk(m, h) && Window(H.TableOf(m, h), s, 4) && FreeCount(H.TableOf(m, h)) >= 1032
    requires |strs| <= MOST_ARGS && forall i | 0 <= i < |strs| :: |strs[i]| <= 32
    requires ExecHeld(m, h, exec) && AvoidsArgs(m, exec)
    ensures var (r, rc, d) := LoadImage(m, h, exec, strs);
            rc == 0 && SeesPointers(r, d, strs) && (SeesArguments(r, d, strs) <==> ArgsLast(strs))
  {
    hide LoadImage, MapTaskMemory, SeesArguments, FreeCount, Window, ExecHeld, AvoidsArgs, ExecApart, Segs, TablesOk,
         TablesLive, Kept, Pte, ArgsInPlace, PageHeld, ArgsLast;
    var m6, sp, bp := ImageLoaded(m, h, exec, strs, s);
    var (r, rc, d) := LoadImage(m, h, exec, strs);
    ArgumentsSeen(r, d, sp, bp, strs);
  }

  // ------------------------------------------------------------------
  // The executable as the task sees it.
  // ------------------------------------------------------------------

  /** Bytes lo .. lo+n-1 of the file are in use. */
  ghost predicate FileHeld(m: Mem, h: HeapDesc, lo: int, n: nat)
    requires h.Valid()
  {
    forall a: Word | lo <= a < lo + n :: Stable(m, h, a)
  }

  /** The directory of the new tables is as open after the mappings as before. */
  lemma LoadedOpen(m: Mem, m6: Mem, r: Mem, d: Page, sp: Page, bp: Page, exec: Exec)
    requires MappedFrom(m, m6, r, d, sp, bp, exec)
    ensures OpenDir(r, d)
  {
    hide MapTaskMemory, ExecApart, AvoidsArgs, Segs, TablesOk, OpenDir, OnlyPtes, Pte, AgreeOnPage;
    TaskMemoryMapped(m6, d, sp, bp, exec);
    OnlyPtesDir(m6, r, d);
    OpenStays(m6, r, d);
  }

  /** User code may read every byte of the segment, and write it exactly if its header says so. */
  ghost predicate SegmentAccess(m: Mem, d: Page, seg: Phdr) {
    forall v: Word | seg.vaddr <= v < seg.vaddr + seg.memsz ::
      UserReadable(m, d, v) && (UserWritable(m, d, v) <==> SegWritable(seg))
  }

  lemma GrantedAccess(m: Mem, d: Page, v: Word, w: bool)
    requires OpenDir(m, d) && Grants(Pte(m, d, v / 4096), w)
    ensures UserReadable(m, d, v) && (UserWritable(m, d, v) <==> w)
  {
    hide Pte, Slot;
  }

  lemma ProtectedAccess(m: Mem, d: Page, seg: Phdr)
    requires OpenDir(m, d) && SegmentProtected(m, d, seg)
    ensures SegmentAccess(m, d, seg)
  {
    hide OpenDir, Grants, UserReadable, UserWritable, Pte, SegWritable;
    forall v: Word | seg.vaddr <= v < seg.vaddr + seg.memsz
      ensures UserReadable(m, d, v) && (UserWritable(m, d, v) <==> SegWritable(seg))
    {
      GrantedAccess(m, d, v, SegWritable(seg));
    }
  }

  /** After loading, a non-empty segment that no later one covers is seen by the task
      exactly when its address and its file position agree modulo the page size; it is then
      the task's to read, and to write exactly when its header says so, and holds the bytes
      the file had. */
  lemma SegmentArrives(m: Mem, h: HeapDesc, buf: Word, strs: seq<CString>, s: nat, i: nat)
    requires H.HeapOk(m, h) && Window(H.TableOf(m, h), s, 4) && FreeCount(H.TableOf(m, h)) >= 1032
    requires |strs| <= MOST_ARGS && forall i | 0 <= i < |strs| :: |strs[i]| <= 32
    requires ExecHeld(m, h, Elf(buf)) && AvoidsArgs(m, Elf(buf))
    requires i < |Segs(m, buf)| && NoWrap(buf, Segs(m, buf)[i]) && LastOnItsPages(buf, Segs(m, buf), i)
    requires Segs(m, buf)[i].memsz > 0
    ensures var seg := Segs(m, buf)[i];
            var (r, _, d) := LoadImage(m, h, Elf(buf), strs);
            && (SeesSegment(r, d, buf, seg) <==> seg.vaddr % 4096 == (buf + seg.offset) % 4096)
            && (SeesSegment(r, d, buf, seg) ==> SegmentAccess(r, d, seg))
            && (SeesSegment(r, d, buf, seg) && FileHeld(m, h, buf + seg.offset, seg.memsz) ==>
                  forall v: Word | seg.vaddr <= v < seg.vaddr + seg.memsz ::
                    TaskByte(r, d, v) == m[Wrap(buf + seg.offset + (v - seg.vaddr))])
  {
    hide LoadImage, MapTaskMemory, MapElf, FreeCount, Window, ExecHeld, Segs, TablesOk, TablesLive, StackAndArgs,
         Stable, ArgsInPlace, PageHeld, SegmentProtected, LastOnItsPages, FirstBad, Avoids, HeadersApart, Translate,
         Pte, OnlyPtes, OpenDir, SegmentAccess, NewTables;
    var m6, sp, bp := ImageLoaded(m, h, Elf(buf), strs, s);
    var (r, rc, d) := LoadImage(m, h, Elf(buf), strs);
    var t := BeforeExec(m6, d, sp, bp, Elf(buf));
    SegsStay(m6, t, d, buf);
    SegmentLoaded(t, d, buf, i);
    var seg := Segs(m, buf)[i];
    assert OpenDir(r, d) by { LoadedOpen(m, m6, r, d, sp, bp, Elf(buf)); }
    if SegmentProtected(r, d, seg) {
      ProtectedAccess(r, d, seg);
    }
    if SeesSegment(r, d, buf, seg) && FileHeld(m, h, buf + seg.offset, seg.memsz) {
      HeldSegment(m, r, h, d, buf, seg);
    }
  }

  lemma HeldSegment(m: Mem, r: Mem, h: HeapDesc, d: Page, buf: Word, seg: Phdr)
    requires h.Valid() && Kept(m, r, h) && NoWrap(buf, seg) && SeesSegment(r, d, buf, seg)
    requires FileHeld(m, h, buf + seg.offset, seg.memsz)
    ensures forall v: Word | seg.vaddr <= v < seg.vaddr + seg.memsz ::
              TaskByte(r, d, v) == m[Wrap(buf + seg.offset + (v - seg.vaddr))]
  {
    hide Stable, Translate;
    forall v: Word | seg.vaddr <= v < seg.vaddr + seg.memsz
      ensures TaskByte(r, d, v) == m[Wrap(buf + seg.offset + (v - seg.vaddr))]
    {
      var a := Translate(r, d, v);
      assert a == buf + seg.offset + (v - seg.vaddr);
      assert Stable(m, h, a);
    }
  }

  /** After loading, a flat binary of up to 28 MiB is seen at the load address, and is the
      task's to write. */
  lemma BinaryArrives(m: Mem, h: HeapDesc, ptr: Word, size: Word, strs: seq<CString>, s: nat, k: nat)
    requires H.HeapOk(m, h) && Window(H.TableOf(m, h), s, 4) && FreeCount(H.TableOf(m, h)) >= 1032
    requires |strs| <= MOST_ARGS && forall i | 0 <= i < |strs| :: |strs[i]| <= 32
    requires Aligned(ptr) && ptr + size <= 0xFFFF_F000 && size <= 0x1C0_0000 && k < size
    ensures var (r, _, d) := LoadImage(m, h, Binary(ptr, size), strs);
            && Translate(r, d, 0x40_0000 + k) == ptr + k && UserWritable(r, d, 0x40_0000 + k)
            && (Stable(m, h, ptr + k) ==> TaskByte(r, d, 0x40_0000 + k) == m[ptr + k])
  {
    hide LoadImage, MapTaskMemory, FreeCount, Window, TablesOk, TablesLive, StackAndArgs, Stable, MapBinary, Pte,
         ArgsInPlace, PageHeld, OnlyPtes, OpenDir, Grants, UserReadable, UserWritable, NewTables;
    var m6, sp, bp := ImageLoaded(m, h, Binary(ptr, size), strs, s);
    var (r, rc, d) := LoadImage(m, h, Binary(ptr, size), strs);
    var t := BeforeExec(m6, d, sp, bp, Binary(ptr, size));
    BinaryByte(t, d, ptr, size, k);
    assert OpenDir(r, d) by { LoadedOpen(m, m6, r, d, sp, bp, Binary(ptr, size)); }
    GrantedAccess(r, d, 0x40_0000 + k, true);
  }

  lemma BinaryPageCount(ptr: Word, size: Word) returns (n: nat)
    requires Aligned(ptr) && ptr + size <= 0xFFFF_F000 && size <= 0x1C0_0000
    ensures n == (Paging.AlignUp(Wrap(ptr + size)) - ptr) / 4096 && size <= 4096 * n < size + 4096
    ensures ptr <= Paging.AlignUp(Wrap(ptr + size)) && ptr == 4096 * (ptr / 4096) && ptr / 4096 + n < 0x10_0000
  {
    hide Wrap, AlignUp;
    WrapOnce(ptr + size);
    var end := Paging.AlignUp(ptr + size);
    n := (end - ptr) / 4096;
    DivModUnique(end - ptr, 4096, end / 4096 - ptr / 4096, 0);
  }

  /** Page `q` holds a byte of a binary of `size` bytes at the load address. */
  predicate BinaryPage(size: Word, q: Page) {
    0x400 <= q && 4096 * (q - 0x400) < size
  }

  /** A flat binary takes exactly the pages its bytes lie in. */
  lemma BinaryEntry(m: Mem, d: Page, ptr: Word, size: Word, q: Page)
    requires TablesOk(m, d) && Aligned(ptr) && ptr + size <= 0xFFFF_F000 && size <= 0x1C0_0000
    ensures var e := Pte(MapBinary(m, d, ptr, size).0, d, q);
            if BinaryPage(size, q) then e / 4096 == ptr / 4096 + (q - 0x400) && Grants(e, true)
            else e == Pte(m, d, q)
  {
    hide MapPages, Pte, TablesOk, Wrap, AlignUp;
    var n := BinaryPageCount(ptr, size);
    var f := ptr / 4096;
    MapPagesPte(m, d, 0x400, f, n, 7, q);
    if BinaryPage(size, q) {
      ModOnce(f + (q - 0x400), 0x10_0000);
      WritableEntry(f + (q - 0x400));
    }
  }

  lemma WritableEntry(f: Page)
    ensures (4096 * (f as int) + 7) / 4096 == f && Grants(4096 * (f as int) + 7, true)
  {
    FlagsOfEntry(f, 7);
  }

  lemma BinaryByte(m: Mem, d: Page, ptr: Word, size: Word, k: nat)
    requires TablesOk(m, d) && Aligned(ptr) && ptr + size <= 0xFFFF_F000 && size <= 0x1C0_0000 && k < size
    ensures Translate(MapBinary(m, d, ptr, size).0, d, 0x40_0000 + k) == ptr + k
    ensures Grants(Pte(MapBinary(m, d, ptr, size).0, d, (0x40_0000 + k) / 4096), true)
  {
    hide MapBinary, Pte, TablesOk, Grants;
    var q := k / 4096;
    DivModUnique(0x40_0000 + k, 4096, 0x400 + q, k % 4096);
    BinaryEntry(m, d, ptr, size, 0x400 + q);
  }

  /** The pages of the stack and of the argument block, as the task sees them. */
  predicate StackOrArgs(q: Page) {
    0x3FB <= q <= 0x3FE || q == 0x2000
  }

  /** The executable maps page `q`. */
  ghost predicate ExecPage(m: Mem, exec: Exec, q: Page) {
    match exec
    case Elf(buf) => exists i: nat | i < |Segs(m, buf)| :: Covers(buf, Segs(m, buf)[i], q)
    case Binary(_, size) => BinaryPage(size, q)
  }

  lemma ElsewhereKept(m: Mem, d: Page, exec: Exec, q: Page)
    requires TablesOk(m, d) && ExecApart(m, d, exec) && AvoidsArgs(m, exec) && !ExecPage(m, exec, q)
    ensures Pte(MapExec(m, d, exec).0, d, q) == Pte(m, d, q)
  {
    hide MapElf, MapBinary, Pte, Covers, Segs, FirstBad, TablesOk, HeadersApart;
    match exec
    case Elf(buf) => ElfKeepsPage(m, d, buf, q);
    case Binary(ptr, size) => BinaryEntry(m, d, ptr, size, q);
  }

  /** Every entry of a new task but those of its stack, arguments and executable maps its
      page to itself, to be read only. */
  lemma EntryElsewhere(m: Mem, h: HeapDesc, exec: Exec, strs: seq<CString>, s: nat, q: Page)
    requires H.HeapOk(m, h) && Window(H.TableOf(m, h), s, 4) && FreeCount(H.TableOf(m, h)) >= 1032
    requires |strs| <= MOST_ARGS && forall i | 0 <= i < |strs| :: |strs[i]| <= 32
    requires ExecHeld(m, h, exec) && AvoidsArgs(m, exec) && !StackOrArgs(q) && !ExecPage(m, exec, q)
    ensures var (r, _, d) := LoadImage(m, h, exec, strs);
            Pte(r, d, q) == 4096 * q + 5
  {
    hide LoadImage, MapTaskMemory, FreeCount, Window, ExecHeld, AvoidsArgs, ExecApart, Segs, TablesOk, TablesLive,
         Kept, Pte, ArgsInPlace, PageHeld, Covers, OnlyPtes, StackAndArgs, OpenDir, MapExec;
    var m6, sp, bp := ImageLoaded(m, h, exec, strs, s);
    var (r, rc, d) := LoadImage(m, h, exec, strs);
    var t := BeforeExec(m6, d, sp, bp, exec);
    ExecStays(m6, t, d, exec);
    if exec.Elf? {
      SegsAlong(m6, t, d, exec.buf);
    }
    ElsewhereKept(t, d, exec, q);
  }

  lemma SegsAlong(m: Mem, r: Mem, d: Page, buf: Word)
    requires ExecApart(m, d, Elf(buf)) && OnlyPtes(m, r, d)
    ensures Segs(r, buf) == Segs(m, buf)
  {
    hide Segs, HeadersApart, OnlyPtes;
    SegsStay(m, r, d, buf);
  }

  /** After loading, every byte of the stack and of the argument page is the task's to write,
      and whatever it may write lies there or in the executable. */
  lemma TaskMemoryAccess(m: Mem, h: HeapDesc, exec: Exec, strs: seq<CString>, s: nat, v: Word)
    requires H.HeapOk(m, h) && Window(H.TableOf(m, h), s, 4) && FreeCount(H.TableOf(m, h)) >= 1032
    requires |strs| <= MOST_ARGS && forall i | 0 <= i < |strs| :: |strs[i]| <= 32
    requires ExecHeld(m, h, exec) && AvoidsArgs(m, exec)
    ensures var (r, _, d) := LoadImage(m, h, exec, strs);
            && OpenDir(r, d)
            && (StackOrArgs(v / 4096) ==> UserWritable(r, d, v))
            && (!StackOrArgs(v / 4096) && !ExecPage(m, exec, v / 4096) ==>
                  UserReadable(r, d, v) && !UserWritable(r, d, v))
  {
    hide LoadImage, MapTaskMemory, FreeCount, Window, ExecHeld, AvoidsArgs, ExecApart, Segs, TablesOk, TablesLive,
         Kept, Pte, ArgsInPlace, PageHeld, OnlyPtes, OpenDir, Grants, UserReadable, UserWritable, NewTables, ExecPage;
    var m6, sp, bp := ImageLoaded(m, h, exec, strs, s);
    var (r, rc, d) := LoadImage(m, h, exec, strs);
    assert OpenDir(r, d) by { LoadedOpen(m, m6, r, d, sp, bp, exec); }
    var q := v / 4096;
    if StackOrArgs(q) {
      WritableEntry(if q == 0x2000 then bp else sp + (q - 0x3FB));
      GrantedAccess(r, d, v, true);
    } else if !ExecPage(m, exec, q) {
      EntryElsewhere(m, h, exec, strs, s, q);
      ReadOnlyEntry(q);
      GrantedAccess(r, d, v, false);
    }
  }

  lemma ReadOnlyEntry(f: Page)
    ensures (4096 * (f as int) + 5) / 4096 == f && Grants(4096 * (f as int) + 5, false)
  {
    FlagsOfEntry(f, 5);
  }

  // ------------------------------------------------------------------
  // Loading without enough memory.
  // ------------------------------------------------------------------

  /** With no four adjacent free blocks and the last block taken, loading answers -ENOMEM (-3)
      and leaves memory as it was. */
  lemma NoStack(m: Mem, h: HeapDesc, exec: Exec, strs: seq<CString>)
    requires H.HeapOk(m, h) && |strs| <= MOST_ARGS && (h.total == 0 || !IsFree(H.TableOf(m, h)[h.total - 1]))
    requires forall s: nat :: !Window(H.TableOf(m, h), s, 4)
    ensures LoadImage(m, h, exec, strs) == (m, -3, 0)
  {
    hide H.MallocBlocks, InitialTables, MapTaskMemory, StackArgs, LoadArgs, WellFormed, H.TableOf;
    assert H.Blocks(0x4000) == 4;
    MallocRefuses(m, h, 4);
  }

  /** With four free blocks in all, adjacent, the stack takes them; the argument block then
      finds none, loading answers -ENOMEM, and everything in use before is as it was. */
  lemma NoBlock(m: Mem, h: HeapDesc, exec: Exec, strs: seq<CString>, s: nat)
    requires H.HeapOk(m, h) && |strs| <= MOST_ARGS
    requires Window(H.TableOf(m, h), s, 4) && FreeCount(H.TableOf(m, h)) == 4
    ensures var (r, rc, _) := LoadImage(m, h, exec, strs);
            rc == -3 && H.HeapOk(r, h) && FreeCount(H.TableOf(r, h)) == 0 && Kept(m, r, h) && LiveGrows(m, r, h)
  {
    hide H.Kzalloc, InitialTables, MapTaskMemory, StackArgs, LoadArgs, FreeCount, Kept, PageHeld, Slot, WellFormed,
         LiveGrows, Window, H.TableOf;
    var sp := StackReady(m, h, s, |strs|);
    assert PagePlus(sp, 3) == sp + 3;
    ZallocNone(StackArgs(H.Kzalloc(m, h, 0x4000).0, sp + 3, |strs|), h, 180);
  }

  /** The kernel builds its own tables before it loads a process. They take 1026 blocks from
      the bottom of the heap. */
  lemma KernelBoot(m: Mem, k: nat) returns (d: Page)
    requires H.HeapOk(m, H.KERNEL_HEAP) && FreeFrom(H.TableOf(m, H.KERNEL_HEAP), k) && k + 1026 <= H.KERNEL_HEAP.total
    ensures var r := InitialTables(m, H.KERNEL_HEAP, 7).0;
            && H.HeapOk(r, H.KERNEL_HEAP) && FreeFrom(H.TableOf(r, H.KERNEL_HEAP), k + 1026)
            && Identity(r, d, 7) && Kept(m, r, H.KERNEL_HEAP)
  {
    hide InitialTables, FreeCount, WellFormed, FreeFrom, Kept, TablesLive, LiveGrows, TablesFresh, Slot;
    FreeFromCount(H.TableOf(m, H.KERNEL_HEAP), k);
    var f;
    d, f := InitIdentity(m, H.KERNEL_HEAP, 7);
    InitReach(m, H.KERNEL_HEAP, 7, k);
  }

  /** So it is for a process loaded while the blocks of the kernel's heap from `k` on are
      free, `k` being what the kernel and the process structure have taken by then. */
  lemma FirstProcess(m: Mem, k: nat, exec: Exec, strs: seq<CString>)
    requires H.HeapOk(m, H.KERNEL_HEAP) && FreeFrom(H.TableOf(m, H.KERNEL_HEAP), k) && k + 1032 <= H.KERNEL_HEAP.total
    requires |strs| <= MOST_ARGS && forall i | 0 <= i < |strs| :: |strs[i]| <= 32
    requires ExecHeld(m, H.KERNEL_HEAP, exec) && AvoidsArgs(m, exec)
    ensures var (r, rc, d) := LoadImage(m, H.KERNEL_HEAP, exec, strs);
            rc == 0 && SeesPointers(r, d, strs) && (SeesArguments(r, d, strs) <==> ArgsLast(strs))
  {
    hide LoadImage, SeesArguments, FreeCount, WellFormed, ArgsLast, ExecHeld, AvoidsArgs, SeesPointers;
    FreeFromCount(H.TableOf(m, H.KERNEL_HEAP), k);
    assert Window(H.TableOf(m, H.KERNEL_HEAP), k, 4);
    ArgumentsArrive(m, H.KERNEL_HEAP, exec, strs, k);
  }

  lemma IdentityOk(m: Mem, d: Page, flags: Flags)
    requires Identity(m, d, flags)
    ensures TablesOk(m, d)
  {
  }

  // ------------------------------------------------------------------
  // The operations themselves.
  // ------------------------------------------------------------------

  method MapMemory(ram: Ram, dir: Page, stack: Word, block: Word, exec: Exec) returns (rc: int)
    requires ram.Valid()
    modifies ram.bytes
    ensures (ram.View(), rc) == MapTaskMemory(old(ram.View()), dir, stack, block, exec)
  {
    hide CreateMapping, MapElf, MapBinary, AlignUp, Wrap;
    rc := PagingCreateMapping(ram, dir, STACK_BASE, stack, Paging.AlignUp(Wrap(stack + STACK_SIZE)), 7);
    if rc < 0 {
      return;
    }
    rc := PagingCreateMapping(ram, dir, ARG_VIRT_ADDR, block, Paging.AlignUp(Wrap(block + ARG_BLOCK_SIZE)), 7);
    if rc < 0 {
      return;
    }
    match exec
    case Elf(buf) => rc := MapTaskElf(ram, dir, buf);
    case Binary(ptr, size) => rc := MapTaskBinary(ram, dir, ptr, size);
  }

  /** The kernel's copy of argument `i`, pointer and string, lies in memory in use. */
  ghost predicate ArgHeld(m: Mem, h: HeapDesc, argv: Word, i: nat, s: CString)
    requires h.Valid() && argv % 4 == 0 && argv + 4 * i < 0x1_0000_0000
  {
    var p := WordAt(m, argv / 4 + i);
    && StringAt(m, p, s) && |s| <= 32
    && (forall a: Word | argv + 4 * i <= a < argv + 4 * i + 4 :: Stable(m, h, a))
    && (forall a: Word | p <= a <= p + |s| :: Stable(m, h, a))
  }

  ghost predicate ArgsHeld(m: Mem, h: HeapDesc, argv: Word, strs: seq<CString>)
    requires h.Valid()
  {
    && argv % 4 == 0 && argv + 4 * |strs| <= 0x1_0000_0000 && |strs| <= MOST_ARGS
    && forall i: nat | i < |strs| :: ArgHeld(m, h, argv, i, strs[i])
  }

  /** Arguments in use are not in a page that was free. */
  lemma ArgHeldApart(m: Mem, r: Mem, h: HeapDesc, argv: Word, i: nat, s: CString, f: Page)
    requires h.Valid() && argv % 4 == 0 && argv + 4 * i < 0x1_0000_0000 && ArgHeld(m, h, argv, i, s)
    requires Kept(m, r, h) && forall a: Word | InPage(f, a) :: !Stable(m, h, a)
    ensures ArgApart(r, f, argv, i, s)
  {
    hide Stable;
    WordAgree(m, r, argv / 4 + i);
    var p := WordAt(m, argv / 4 + i);
    assert !(argv + 4 * i + 3 >= 4096 * f && 4096 * f + 4096 > argv + 4 * i) by {
      var a: Word := if argv + 4 * i >= 4096 * f then argv + 4 * i else 4096 * f;
      assert InPage(f, a) ==> !Stable(m, h, a);
    }
    assert !(p + |s| >= 4096 * f && 4096 * f + 4096 > p) by {
      var a: Word := if p >= 4096 * f then p else 4096 * f;
      assert InPage(f, a) ==> !Stable(m, h, a);
    }
  }

  lemma ArgsHeldApart(m: Mem, m1: Mem, r: Mem, h: HeapDesc, argv: Word, strs: seq<CString>, p: Word, b: nat, f: Page)
    requires h.Valid() && ArgsHeld(m, h, argv, strs) && Kept(m, m1, h)
    requires Zalloced(m1, h, 180, r, p, b, 1) && p == 4096 * f
    ensures ArgsApart(r, f, argv, strs)
  {
    hide Stable, ArgHeld, ArgApart, FreeCount, H.Live;
    KeptTransitive(m, m1, r, h);
    assert FreePage(m1, h, f);
    forall a: Word | InPage(f, a)
      ensures !Stable(m, h, a)
    {
      FreePageUnstable(m1, h, f, a);
    }
    forall i: nat | i < |strs|
      ensures ArgApart(r, f, argv, i, strs[i])
    {
      ArgHeldApart(m, r, h, argv, i, strs[i], f);
    }
  }

  lemma ArgsShort(m: Mem, h: HeapDesc, argv: Word, strs: seq<CString>)
    requires h.Valid() && ArgsHeld(m, h, argv, strs)
    ensures |strs| <= MOST_ARGS && forall i | 0 <= i < |strs| :: |strs[i]| <= 32
  {
    hide Stable, StringAt;
    forall i | 0 <= i < |strs|
      ensures |strs[i]| <= 32
    {
      assert ArgHeld(m, h, argv, i, strs[i]);
    }
  }

  /** The task structure and its page tables. */
  method MakeTask(ram: Ram, h: HeapDesc) returns (dir: Page)
    requires ram.Valid() && H.HeapOk(ram.View(), h) && FreeCount(H.TableOf(ram.View(), h)) >= 1027
    modifies ram.bytes
    ensures var (m1, task) := H.Kzalloc(old(ram.View()), h, TASK_SIZE);
            var (r, desc) := InitialTables(m1, h, 5);
            ram.View() == r && dir == Slot(r, desc / 4096, 0) / 4096
  {
    hide H.Kzalloc, InitialTables, FreeCount, Slot, WordAt, WellFormed;
    ghost var f := TaskRoom(ram.View(), h);
    var task := H.HeapZalloc(ram, h, TASK_SIZE);
    var desc := InitPageTables(ram, h, 5);
    DescWord(ram.View(), desc, f);
    var pgd := ram.LoadWord(desc);
    dir := pgd / 4096;
  }

  lemma TaskRoom(m: Mem, h: HeapDesc) returns (f: Page)
    requires H.HeapOk(m, h) && FreeCount(H.TableOf(m, h)) >= 1027
    ensures InitialTables(H.Kzalloc(m, h, TASK_SIZE).0, h, 5).1 == 4096 * f
  {
    hide H.Kzalloc, InitialTables, FreeCount, Kept, Slot, TablesFresh, TablesLive, Identity, LiveGrows, LivePage,
         Translate;
    var b := ZallocOne(m, h, TASK_SIZE);
    var d;
    d, f := InitIdentity(H.Kzalloc(m, h, TASK_SIZE).0, h, 5);
  }

  /** Once stack and argument block have been found, so must the task and its tables:
      the check for a task that could not be made never fires in C. */
  ghost predicate TaskFits(m: Mem, h: HeapDesc)
    requires h.Valid()
  {
    var free := FreeCount(H.TableOf(m, h));
    free < 5 || free >= 1032 || forall s: nat :: !Window(H.TableOf(m, h), s, 4)
  }

  /** The stack with argc and argv on it, and the argument block. */
  method PrepareArgs(ram: Ram, h: HeapDesc, argc: nat, argv: Word, ghost strs: seq<CString>)
    returns (stack: Word, block: Word)
    requires ram.Valid() && H.HeapOk(ram.View(), h) && argc == |strs| && ArgsHeld(ram.View(), h, argv, strs)
    requires MallocSafe(H.TableOf(ram.View(), h), 4) && TaskFits(ram.View(), h)
    modifies ram.bytes
    ensures var (m1, p) := H.Kzalloc(old(ram.View()), h, 0x4000);
            && stack == p
            && if p == 0 then ram.View() == m1 else
                 var (m2, q) := H.Kzalloc(StackArgs(m1, PagePlus(p / 4096, 3), |strs|), h, 180);
                 && block == q
                 && if q == 0 then ram.View() == m2 else
                      && ram.View() == LoadArgs(m2, q / 4096, strs, |strs|)
                      && H.HeapOk(ram.View(), h) && FreeCount(H.TableOf(ram.View(), h)) >= 1027
  {
    hide H.Kzalloc, StackArgs, LoadArgs, FreeCount, Kept, PageHeld, ArgLoaded, ArgsHeld, ArgsApart, TaskFits,
         WellFormed, MallocSafe, Slot, Zalloced, H.TableOf;
    ghost var m := ram.View();
    ArgsShort(m, h, argv, strs);
    stack := H.HeapZalloc(ram, h, 0x4000);
    if stack == 0 {
      return 0, 0;
    }
    ghost var sp := StackGiven(m, h, argc);
    assert PagePlus(sp, 3) == sp + 3;
    PutArgvArgcInStack(ram, stack, argc, sp + 3);
    ghost var m2 := ram.View();
    ghost var bp: Page := 0;
    if FreeCount(H.TableOf(m2, h)) > 0 {
      bp := BlockReady(m2, h, strs);
    } else {
      ZallocNone(m2, h, 180);
    }
    block := H.HeapZalloc(ram, h, 180);
    if block == 0 {
      return stack, 0;
    }
    ghost var b := ZallocOne(m2, h, 180);
    ArgsHeldApart(m, m2, ram.View(), h, argv, strs, block, b, bp);
    LoadArgBlock(ram, block, argc, argv, bp, strs);
  }

  /** `process_load_for_slot` with the executable already loaded. */
  method LoadForSlot(ram: Ram, h: HeapDesc, exec: Exec, argc: nat, argv: Word, ghost strs: seq<CString>)
    returns (rc: int, dir: Page)
    requires ram.Valid() && H.HeapOk(ram.View(), h) && argc == |strs| && ArgsHeld(ram.View(), h, argv, strs)
    requires MallocSafe(H.TableOf(ram.View(), h), 4) && TaskFits(ram.View(), h)
    modifies ram.bytes
    ensures (ram.View(), rc, dir) == LoadImage(old(ram.View()), h, exec, strs)
  {
    hide H.Kzalloc, InitialTables, MapTaskMemory, StackArgs, LoadArgs, FreeCount, Slot, ArgHeld;
    var stack, block := PrepareArgs(ram, h, argc, argv, strs);
    if stack == 0 || block == 0 {
      return -ENOMEM, 0;
    }
    dir := MakeTask(ram, h);
    rc := MapMemory(ram, dir, stack, block, exec);
  }

  lemma DescWord(m: Mem, desc: Word, f: Page)
    requires desc == 4096 * f
    ensures desc % 4 == 0 && desc / 4096 == f && WordAt(m, desc / 4) == Slot(m, f, 0)
  {
    DivModUnique(desc, 4, 1024 * f, 0);
    DivModUnique(desc, 4096, f, 0);
  }

  lemma StackGiven(m: Mem, h: HeapDesc, argc: Word) returns (sp: Page)
    requires H.HeapOk(m, h) && MallocSafe(H.TableOf(m, h), 4) && H.Kzalloc(m, h, 0x4000).1 != 0
    ensures var (m1, stack) := H.Kzalloc(m, h, 0x4000);
            && stack == 4096 * sp > 0 && sp + 4 < 0x10_0000
            && var r := StackArgs(m1, sp + 3, argc);
               && H.HeapOk(r, h) && Kept(m, r, h)
               && FreeCount(H.TableOf(r, h)) == FreeCount(H.TableOf(m, h)) - 4 >= 0
               && (TaskFits(m, h) ==> FreeCount(H.TableOf(r, h)) == 0 || FreeCount(H.TableOf(r, h)) >= 1028)
  {
    hide StackArgs, Kept, PageHeld, H.MallocBlocks, TakenFrom;
    if s: nat :| Window(H.TableOf(m, h), s, 4) {
      sp := StackReady(m, h, s, argc);
      var r := StackArgs(H.Kzalloc(m, h, 0x4000).0, sp + 3, argc);
      TakenBound(H.TableOf(r, h), 0);
    } else {
      assert H.Blocks(0x4000) == 4;
      MallocRefuses(m, h, 4);
      assert false;
    }
  }
}
