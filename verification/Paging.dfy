/** Two-level page tables: a directory of 1024 entries, each naming a table of 1024
    page table entries, all of them words of physical memory.  Directories and
    tables are page-aligned, so they are named by page number. */
module Paging {
  import opened Bits
  import opened Memory

  const PAGE_SIZE: int := 4096
  const TABLE_ENTRIES: int := 1024
  const PAGING_READ_WRITE: Flags := 2
  const EINVARG: int := 2

  /** A page number; page `p` is the bytes 4096 * p .. 4096 * p + 4095. */
  type Page = p: int | 0 <= p < 0x10_0000

  /** The flag bits of a page table entry. */
  type Flags = f: int | 0 <= f < 0x1000

  predicate InPage(f: Page, a: Word) {
    4096 * f <= a < 4096 * f + 4096
  }

  ghost predicate AgreeOnPage(m: Mem, r: Mem, f: Page) {
    Agree(m, r, 4096 * f, 4096 * f + 4096)
  }

  /** Word `k` of page `f`. */
  function Slot(m: Mem, f: Page, k: nat): Word
    requires k < 1024
  {
    WordAt(m, 1024 * f + k)
  }

  function SetSlot(m: Mem, f: Page, k: nat, v: Word): (r: Mem)
    requires k < 1024
    ensures Slot(r, f, k) == v
    ensures forall g: Page, j: nat | j < 1024 && !(g == f && j == k) :: Slot(r, g, j) == Slot(m, g, j)
    ensures forall a: Word | !InPage(f, a) :: r[a] == m[a]
  {
    SetWord(m, 1024 * f + k, v)
  }

  lemma SlotAgree(m: Mem, r: Mem, f: Page, k: nat)
    requires k < 1024 && AgreeOnPage(m, r, f)
    ensures Slot(r, f, k) == Slot(m, f, k)
  {
  }

  /** Page number of the table named by entry `i` of the directory in page `d`. */
  function Frame(m: Mem, d: Page, i: nat): Page
    requires i < 1024
  {
    Slot(m, d, i) / 4096
  }

  /** The flat view of the tables: page number to page table entry. */
  function Pte(m: Mem, d: Page, p: Page): Word {
    Slot(m, Frame(m, d, p / 1024), p % 1024)
  }

  /** The physical address the tables give a virtual address. */
  function Translate(m: Mem, d: Page, virt: Word): Word {
    InFrame(Pte(m, d, virt / 4096), virt % 4096)
  }

  /** The byte at `offset` of the page an entry names. */
  function InFrame(pte: Word, offset: int): Word
    requires 0 <= offset < 4096
  {
    4096 * (pte / 4096) + offset
  }

  predicate Writable(pte: Word) {
    pte / 2 % 2 == 1
  }

  lemma WritableBit(pte: Word)
    ensures And(pte, PAGING_READ_WRITE) != 0 <==> Writable(pte)
  {
    assert Pow2(1) == 2;
    AndBit(pte, 1);
    ShrDivides(pte, 1);
  }

  predicate Present(pte: Word) {
    pte % 2 == 1
  }

  predicate User(pte: Word) {
    pte / 4 % 2 == 1
  }

  /** The bits of an entry are those of its flags. */
  lemma FlagsOfEntry(f: Page, flags: Flags)
    ensures var e: Word := 4096 * (f as int) + flags;
            && e / 4096 == f && (Present(e) <==> Present(flags)) && (User(e) <==> User(flags))
            && (Writable(e) <==> Writable(flags))
  {
    var e := 4096 * (f as int) + flags;
    DivModUnique(e, 4096, f, flags);
    DivModUnique(e, 2, 2048 * f + flags / 2, flags % 2);
    DivModUnique(e, 4, 1024 * f + flags / 4, flags % 4);
    ModAdd(flags / 2, 2048 * f, 2);
    ModAdd(flags / 4, 1024 * f, 2);
    DivModUnique(2048 * f, 2, 1024 * f, 0);
    DivModUnique(1024 * f, 2, 512 * f, 0);
  }

  lemma AccessBits(pte: Word)
    ensures And(pte, 1) != 0 <==> Present(pte)
    ensures And(pte, 4) != 0 <==> User(pte)
  {
    assert Pow2(0) == 1 && Pow2(2) == 4;
    AndBit(pte, 0);
    AndBit(pte, 2);
    ShrDivides(pte, 0);
    ShrDivides(pte, 2);
  }

  /** The directory entry through which an address goes. */
  function DirWord(m: Mem, d: Page, virt: Word): Word {
    Slot(m, d, virt / 4096 / 1024)
  }

  /** What the processor lets a task do at an address: both entries on the way have to be
      present and open to user code, and to write both have to be writable. */
  predicate UserReadable(m: Mem, d: Page, virt: Word) {
    && Present(DirWord(m, d, virt)) && User(DirWord(m, d, virt))
    && Present(Pte(m, d, virt / 4096)) && User(Pte(m, d, virt / 4096))
  }

  predicate UserWritable(m: Mem, d: Page, virt: Word) {
    UserReadable(m, d, virt) && Writable(DirWord(m, d, virt)) && Writable(Pte(m, d, virt / 4096))
  }

  /** Every entry of the directory leaves the decision to the table behind it. */
  ghost predicate OpenDir(m: Mem, d: Page) {
    forall i: nat | i < 1024 :: Present(Slot(m, d, i)) && User(Slot(m, d, i)) && Writable(Slot(m, d, i))
  }

  lemma OpenStays(m: Mem, r: Mem, d: Page)
    requires OpenDir(m, d) && AgreeOnPage(m, r, d)
    ensures OpenDir(r, d)
  {
    hide Slot;
    forall i: nat | i < 1024
      ensures Slot(r, d, i) == Slot(m, d, i)
    {
      SlotAgree(m, r, d, i);
    }
  }

  /** The directory and the 1024 tables are pairwise distinct pages. */
  ghost predicate TablesOk(m: Mem, d: Page) {
    && (forall i: nat | i < 1024 :: Frame(m, d, i) != d)
    && (forall i: nat, j: nat | i < j < 1024 :: Frame(m, d, i) != Frame(m, d, j))
  }

  /** Byte `a` belongs to one of the 1024 tables. */
  ghost predicate TableByte(m: Mem, d: Page, a: Word) {
    exists i: nat | i < 1024 :: InPage(Frame(m, d, i), a)
  }

  ghost predicate SameDir(m: Mem, r: Mem, d: Page) {
    forall i: nat | i < 1024 :: Frame(r, d, i) == Frame(m, d, i)
  }

  /** Nothing but table bytes differs, and the directory is the same. */
  ghost predicate OnlyPtes(m: Mem, r: Mem, d: Page) {
    SameDir(m, r, d) && forall a: Word | !TableByte(m, d, a) :: r[a] == m[a]
  }

  /** So the directory's own page keeps its bytes. */
  lemma OnlyPtesDir(m: Mem, r: Mem, d: Page)
    requires TablesOk(m, d) && OnlyPtes(m, r, d)
    ensures AgreeOnPage(m, r, d)
  {
    hide Frame;
    forall a: Word | InPage(d, a)
      ensures r[a] == m[a]
    {
      assert !TableByte(m, d, a);
    }
  }

  // ------------------------------------------------------------------
  // Setting one entry is an update of the flat map.
  // ------------------------------------------------------------------

  function SetPte(m: Mem, d: Page, p: Page, v: Word): Mem {
    SetSlot(m, Frame(m, d, p / 1024), p % 1024, v)
  }

  lemma SetPteKeepsDir(m: Mem, d: Page, p: Page, v: Word)
    requires TablesOk(m, d)
    ensures OnlyPtes(m, SetPte(m, d, p, v), d)
    ensures TablesOk(SetPte(m, d, p, v), d)
  {
    hide SetSlot, Slot;
    var r, f := SetPte(m, d, p, v), Frame(m, d, p / 1024);
    forall a: Word | !TableByte(m, d, a)
      ensures r[a] == m[a]
    {
      assert !InPage(f, a);
    }
  }

  lemma SetPteIsUpdate(m: Mem, d: Page, p: Page, v: Word, q: Page)
    requires TablesOk(m, d)
    ensures Pte(SetPte(m, d, p, v), d, q) == if q == p then v else Pte(m, d, q)
  {
    hide SetSlot, Slot;
    SetPteKeepsDir(m, d, p, v);
    if p / 1024 != q / 1024 {
      assert Frame(m, d, p / 1024) != Frame(m, d, q / 1024);
    }
  }

  /** A further entry set keeps the frame of the ones before. */
  lemma SetPteExtends(m: Mem, r: Mem, d: Page, p: Page, v: Word)
    requires TablesOk(r, d) && OnlyPtes(m, r, d)
    ensures TablesOk(SetPte(r, d, p, v), d) && OnlyPtes(m, SetPte(r, d, p, v), d)
  {
    var s := SetPte(r, d, p, v);
    SetPteKeepsDir(r, d, p, v);
    forall a: Word | !TableByte(m, d, a)
      ensures s[a] == m[a]
    {
      assert !TableByte(r, d, a);
    }
  }

  /** The directory and the tables read the same in both memories. */
  ghost predicate SameTables(m: Mem, r: Mem, d: Page) {
    SameDir(m, r, d) && forall p: Page :: Pte(r, d, p) == Pte(m, d, p)
  }

  /** They do when the memories agree on those pages. */
  lemma TablesFrame(m: Mem, r: Mem, d: Page)
    requires TablesOk(m, d) && AgreeOnPage(m, r, d)
    requires forall i: nat | i < 1024 :: AgreeOnPage(m, r, Frame(m, d, i))
    ensures TablesOk(r, d) && SameTables(m, r, d)
  {
    hide Slot;
    forall i: nat | i < 1024
      ensures Frame(r, d, i) == Frame(m, d, i)
    {
      SlotAgree(m, r, d, i);
    }
    forall p: Page
      ensures Pte(r, d, p) == Pte(m, d, p)
    {
      SlotAgree(m, r, Frame(m, d, p / 1024), p % 1024);
    }
  }

  // ------------------------------------------------------------------
  // Mapping a range.
  // ------------------------------------------------------------------

  /** The page `k` pages after page `p`, wrapping at the end of the address space. */
  function PagePlus(p: Page, k: nat): Page {
    (p + k) % 0x10_0000
  }

  /** How many pages page `q` lies after page `p`. */
  function PageOffset(p: Page, q: Page): nat {
    if q >= p then q - p else q - p + 0x10_0000
  }

  /** `n` pages from page `v` on, mapped to the pages from `f` on. */
  function MapPages(m: Mem, d: Page, v: Page, f: Page, n: nat, prot: Flags): Mem {
    if n == 0 then m else
      SetPte(MapPages(m, d, v, f, n - 1, prot), d, PagePlus(v, n - 1), 4096 * PagePlus(f, n - 1) + prot)
  }

  lemma {:induction false} MapPagesKeeps(m: Mem, d: Page, v: Page, f: Page, n: nat, prot: Flags)
    requires TablesOk(m, d)
    ensures TablesOk(MapPages(m, d, v, f, n, prot), d)
    ensures OnlyPtes(m, MapPages(m, d, v, f, n, prot), d)
  {
    hide SetPte;
    if n > 0 {
      MapPagesKeeps(m, d, v, f, n - 1, prot);
      SetPteExtends(m, MapPages(m, d, v, f, n - 1, prot), d, PagePlus(v, n - 1), 4096 * PagePlus(f, n - 1) + prot);
    }
  }

  lemma PageWritten(v: Page, f: Page, k: nat, q: Page)
    ensures PagePlus(v, k) == q <==> PageOffset(v, q) == k % 0x10_0000
    ensures PagePlus(f, k) == PagePlus(f, k % 0x10_0000)
  {
    var j := k % 0x10_0000;
    ModAdd(v, k, 0x10_0000);
    ModAdd(f, k, 0x10_0000);
    ModOnce(v + j, 0x10_0000);
    ModOnce(q - v, 0x10_0000);
  }

  /** Mapping a range changes exactly the requested pages of the flat map. */
  lemma {:induction false} MapPagesPte(m: Mem, d: Page, v: Page, f: Page, n: nat, prot: Flags, q: Page)
    requires TablesOk(m, d)
    ensures Pte(MapPages(m, d, v, f, n, prot), d, q) ==
            if PageOffset(v, q) < n then 4096 * PagePlus(f, PageOffset(v, q)) + prot else Pte(m, d, q)
  {
    hide SetPte, Pte, PagePlus;
    if n > 0 {
      MapPagesPte(m, d, v, f, n - 1, prot, q);
      MapPagesKeeps(m, d, v, f, n - 1, prot);
      PageWritten(v, f, n - 1, q);
      SetPteIsUpdate(MapPages(m, d, v, f, n - 1, prot), d, PagePlus(v, n - 1), 4096 * PagePlus(f, n - 1) + prot, q);
    }
  }

  predicate Aligned(a: Word) {
    a % 4096 == 0
  }

  /** `paging_create_mapping`: new memory and return code. */
  function CreateMapping(m: Mem, d: Page, virt: Word, phys: Word, end: Word, prot: Flags): (r: (Mem, int))
    ensures r.1 == 0 || r == (m, -EINVARG)
  {
    if !Aligned(virt) || !Aligned(phys) || !Aligned(end) || end < phys then (m, -EINVARG)
    else (MapPages(m, d, virt / 4096, phys / 4096, (end - phys) / 4096, prot), 0)
  }

  /** Which byte of a range of pages an address is. */
  lemma RangeOffset(virt: Word, x: Word)
    requires virt % 4096 == 0
    ensures Wrap(x - virt) == 4096 * PageOffset(virt / 4096, x / 4096) + x % 4096
  {
    WrapOnce(x - virt);
  }

  /** A mapping is refused exactly for bounds that are not page-aligned or in the wrong order,
      with -EINVARG and no change. Otherwise address virt + k leads to phys + k with the given
      flags, for every k up to the end, and every other address keeps its entry. */
  lemma MappingExact(m: Mem, d: Page, virt: Word, phys: Word, end: Word, prot: Flags, x: Word)
    requires TablesOk(m, d)
    ensures var (r, rc) := CreateMapping(m, d, virt, phys, end, prot);
            var k := Wrap(x - virt);
            && rc == (if virt % 4096 == 0 && phys % 4096 == 0 && end % 4096 == 0 && phys <= end then 0 else -2)
            && (rc != 0 ==> r == m)
            && (rc == 0 && k < end - phys ==>
                  Translate(r, d, x) == phys + k && Pte(r, d, x / 4096) % 4096 == prot)
            && (rc == 0 && k >= end - phys ==> Pte(r, d, x / 4096) == Pte(m, d, x / 4096))
  {
    hide MapPages, Pte, TablesOk, Wrap;
    if virt % 4096 == 0 && phys % 4096 == 0 && end % 4096 == 0 && phys <= end {
      var v, f, n, q := virt / 4096, phys / 4096, (end - phys) / 4096, x / 4096;
      RangeOffset(virt, x);
      MapPagesPte(m, d, v, f, n, prot, q);
      DivModUnique(end - phys, 4096, end / 4096 - f, 0);
      if PageOffset(v, q) < n {
        var g := f + PageOffset(v, q);
        ModOnce(g, 0x10_0000);
        DivModUnique(4096 * g + prot, 4096, g, prot);
      }
    }
  }

  /** `paging_align_address`, wrapping at 4 GiB. */
  function AlignUp(a: Word): (r: Word)
    ensures Aligned(r)
    ensures if a <= 0xFFFF_F000 then a <= r < a + 4096 else r == 0
  {
    if Aligned(a) then a else Wrap(a + 4096 - a % 4096)
  }

  /** `paging_align_to_lower_page`. */
  function AlignDown(a: Word): (r: Word)
    ensures Aligned(r) && r <= a < r + 4096
  {
    if Aligned(a) then a else a - a % 4096
  }

  // ------------------------------------------------------------------
  // The operations themselves.
  // ------------------------------------------------------------------

  /** `entry & 0xfffff000`. */
  method MaskPage(entry: Word) returns (addr: Word)
    ensures addr == 4096 * (entry / 4096)
  {
    PageMask(entry);
    addr := And(entry, 0xffff_f000);
  }

  /** `addr | flags` for an aligned address. */
  method OrFlags(addr: Word, flags: Flags) returns (entry: Word)
    requires Aligned(addr)
    ensures entry == addr + flags
  {
    PageFlags(addr, flags);
    entry := Or(addr, flags);
  }

  lemma SlotAddress(f: Page, k: nat, a: Word)
    requires k < 1024 && a == 4096 * f + 4 * k
    ensures a % 4 == 0 && a / 4 == 1024 * f + k
  {
    DivModUnique(a, 4, 1024 * f + k, 0);
  }

  /** `table[k] = v` on a page-aligned table. */
  method StoreEntry(ram: Ram, table: Word, k: nat, v: Word, ghost f: Page)
    requires ram.Valid() && table == 4096 * f && k < 1024
    modifies ram.bytes
    ensures ram.View() == SetSlot(old(ram.View()), f, k, v)
  {
    hide SetWord;
    SlotAddress(f, k, table + 4 * k);
    ram.StoreWord(table + 4 * k, v);
  }

  method GetIndexes(virt: Word) returns (rc: int, dirIndex: nat, tableIndex: nat)
    ensures rc == if virt % 4096 == 0 then 0 else -2
    ensures rc == 0 ==> dirIndex == virt / 4096 / 1024 && tableIndex == virt / 4096 % 1024
  {
    if !Aligned(virt) {
      return -EINVARG, 0, 0;
    }
    dirIndex := virt / (TABLE_ENTRIES * PAGE_SIZE);
    tableIndex := virt % (TABLE_ENTRIES * PAGE_SIZE) / PAGE_SIZE;
    rc := 0;
  }

  method PagingSet(ram: Ram, dir: Page, virt: Word, val: Word) returns (rc: int)
    requires ram.Valid()
    modifies ram.bytes
    ensures rc == if Aligned(virt) then 0 else -EINVARG
    ensures ram.View() == if rc == 0 then SetPte(old(ram.View()), dir, virt / 4096, val) else old(ram.View())
  {
    hide SetWord, WordAt;
    var code, dirIndex, tableIndex := GetIndexes(virt);
    if code < 0 {
      return code;
    }
    var pgd := 4096 * dir;
    var entry := ram.LoadWord(pgd + 4 * dirIndex);
    var table := MaskPage(entry);
    StoreEntry(ram, table, tableIndex, val, table / 4096);
    rc := 0;
  }

  method PagingGetPte(ram: Ram, dir: Page, virt: Word) returns (pte: Word)
    requires ram.Valid()
    ensures pte == if Aligned(virt) then Pte(ram.View(), dir, virt / 4096) else Wrap(-EINVARG)
  {
    hide SetWord, WordAt;
    var code, dirIndex, tableIndex := GetIndexes(virt);
    if code < 0 {
      return Wrap(code);
    }
    var pgd := 4096 * dir;
    var entry := ram.LoadWord(pgd + 4 * dirIndex);
    var table := MaskPage(entry);
    pte := ram.LoadWord(table + 4 * tableIndex);
  }

  lemma NextPage(p: Page, k: nat)
    ensures Wrap(4096 * PagePlus(p, k) + 4096) == 4096 * PagePlus(p, k + 1)
  {
    var q: int := PagePlus(p, k);
    DivAdd(p + k, 1, 0x10_0000);
    ModOnce(q + 1, 0x10_0000);
    WrapOnce(4096 * q + 4096);
  }

  lemma ZeroPages(p: Page)
    ensures PagePlus(p, 0) == p
  {
  }

  method PagingMapRange(ram: Ram, dir: Page, virt: Word, phys: Word, numPages: int, prot: Flags) returns (rc: int)
    requires ram.Valid()
    modifies ram.bytes
    ensures rc == if Aligned(virt) && Aligned(phys) then 0 else -EINVARG
    ensures ram.View() == if rc == 0 && numPages > 0
                          then MapPages(old(ram.View()), dir, virt / 4096, phys / 4096, numPages, prot)
                          else old(ram.View())
  {
    hide SetPte, PagePlus, Wrap;
    if !Aligned(virt) || !Aligned(phys) {
      return -EINVARG;
    }
    ghost var m, vp: Page, pp: Page := ram.View(), virt / 4096, phys / 4096;
    var v, p, i := virt, phys, 0;
    ZeroPages(vp);
    ZeroPages(pp);
    rc := 0;
    while i < numPages
      invariant 0 <= i && (i <= numPages || i == 0)
      invariant v == 4096 * PagePlus(vp, i) && p == 4096 * PagePlus(pp, i)
      invariant rc == 0 && ram.View() == MapPages(m, dir, vp, pp, i, prot)
    {
      var entry := OrFlags(p, prot);
      rc := PagingSet(ram, dir, v, entry);
      if rc < 0 {
        break;
      }
      NextPage(vp, i);
      NextPage(pp, i);
      v := Wrap(v + PAGE_SIZE);
      p := Wrap(p + PAGE_SIZE);
      i := i + 1;
    }
  }

  method PagingCreateMapping(ram: Ram, dir: Page, virt: Word, phys: Word, end: Word, prot: Flags) returns (rc: int)
    requires ram.Valid()
    modifies ram.bytes
    ensures (ram.View(), rc) == CreateMapping(old(ram.View()), dir, virt, phys, end, prot)
  {
    hide SetPte;
    if !Aligned(virt) || !Aligned(phys) || !Aligned(end) {
      return -EINVARG;
    }
    if end < phys {
      return -EINVARG;
    }
    var totalBytes := end - phys;
    var totalPages := totalBytes / PAGE_SIZE;
    rc := PagingMapRange(ram, dir, virt, phys, totalPages, prot);
  }

  method PagingGetPhysicalAddress(ram: Ram, dir: Page, virt: Word) returns (phys: Word)
    requires ram.Valid()
    ensures phys == Translate(ram.View(), dir, virt)
  {
    hide Pte;
    var aligned := AlignDown(virt);
    var difference := virt - aligned;
    var pte := PagingGetPte(ram, dir, aligned);
    var page := MaskPage(pte);
    phys := Wrap(page + difference);
  }
}
