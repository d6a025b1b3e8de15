/** Mapping an executable into a task: every program header of an ELF file held in
    memory, or a flat binary. */
module Loader {
  import opened Bits
  import opened Memory
  import opened Paging

  const TASK_LOAD_VIRTUAL_ADDRESS: Word := 0x40_0000

  /** The fields of `struct elf32_phdr` the loader uses. */
  datatype Phdr = Phdr(offset: Word, vaddr: Word, memsz: Word, flags: Word)

  /** Little-endian reads at any address, as from a packed struct. */
  function Read16(m: Mem, a: Word): (v: nat)
    ensures v < 0x1_0000
  {
    (m[a] as int) + 0x100 * (m[Wrap(a + 1)] as int)
  }

  function Read32(m: Mem, a: Word): Word {
    Read16(m, a) + 0x1_0000 * Read16(m, Wrap(a + 2))
  }

  /** `e_phnum` and the program header table of the ELF header at `buf`. */
  function Phnum(m: Mem, buf: Word): nat {
    Read16(m, Wrap(buf + 44))
  }

  function PhdrTable(m: Mem, buf: Word): Word {
    if Read32(m, Wrap(buf + 28)) == 0 then 0 else Wrap(buf + Read32(m, Wrap(buf + 28)))
  }

  function PhdrAt(m: Mem, table: Word, i: nat): Phdr {
    Phdr(Read32(m, Wrap(table + (32 * i + 4))), Read32(m, Wrap(table + (32 * i + 8))),
         Read32(m, Wrap(table + (32 * i + 20))), Read32(m, Wrap(table + (32 * i + 24))))
  }

  /** `elf_file_get_segment_phys_addr`. */
  function SegPhys(buf: Word, seg: Phdr): Word {
    Wrap(buf + seg.offset)
  }

  predicate SegWritable(seg: Phdr) {
    seg.flags / 2 % 2 == 1
  }

  function SegFlags(seg: Phdr): Flags {
    if SegWritable(seg) then 7 else 5
  }

  function SegEnd(buf: Word, seg: Phdr): Word {
    AlignUp(Wrap(SegPhys(buf, seg) + seg.memsz))
  }

  /** The file range of the segment does not wrap past the end of memory. */
  predicate SegOk(buf: Word, seg: Phdr) {
    AlignDown(SegPhys(buf, seg)) <= SegEnd(buf, seg)
  }

  function SegPages(buf: Word, seg: Phdr): nat
    requires SegOk(buf, seg)
  {
    (SegEnd(buf, seg) - AlignDown(SegPhys(buf, seg))) / 4096
  }

  function MapSegment(m: Mem, d: Page, buf: Word, seg: Phdr): (Mem, int) {
    CreateMapping(m, d, AlignDown(seg.vaddr), AlignDown(SegPhys(buf, seg)), SegEnd(buf, seg), SegFlags(seg))
  }

  /** The loop of `process_map_task_elf` from header `i` on. */
  function MapElfFrom(m: Mem, d: Page, buf: Word, table: Word, i: nat): (Mem, int)
    decreases 0x1_0000 - i
  {
    if i >= Phnum(m, buf) then (m, 0)
    else
      var (m1, rc) := MapSegment(m, d, buf, PhdrAt(m, table, i));
      if rc < 0 then (m1, rc) else MapElfFrom(m1, d, buf, table, i + 1)
  }

  function MapElf(m: Mem, d: Page, buf: Word): (Mem, int) {
    MapElfFrom(m, d, buf, PhdrTable(m, buf), 0)
  }

  /** `process_map_task_binary`. */
  function MapBinary(m: Mem, d: Page, binary: Word, size: Word): (Mem, int) {
    CreateMapping(m, d, TASK_LOAD_VIRTUAL_ADDRESS, binary, AlignUp(Wrap(binary + size)), 7)
  }

  // ------------------------------------------------------------------
  // The loop maps the headers it found at the start.
  // ------------------------------------------------------------------

  /** The program headers held in memory. */
  function Segs(m: Mem, buf: Word): seq<Phdr> {
    seq(Phnum(m, buf), i requires 0 <= i < Phnum(m, buf) => PhdrAt(m, PhdrTable(m, buf), i))
  }

  /** Byte `a` is part of the ELF header or of one of the `n` headers at `table`. */
  predicate HeaderByte(buf: Word, table: Word, n: nat, a: Word) {
    Wrap(a - buf) < 52 || Wrap(a - table) < 32 * n
  }

  /** The headers do not lie in the page tables being changed. */
  ghost predicate HeadersApart(m: Mem, d: Page, buf: Word) {
    forall a: Word | TableByte(m, d, a) :: !HeaderByte(buf, PhdrTable(m, buf), Phnum(m, buf), a)
  }

  ghost predicate SameHeaders(m: Mem, r: Mem, buf: Word, table: Word, n: nat) {
    Phnum(r, buf) == Phnum(m, buf) && forall i: nat | i < n :: PhdrAt(r, table, i) == PhdrAt(m, table, i)
  }

  lemma Offset(b: Word, base: Word, k: nat)
    requires k < 0x8000_0000 && Wrap(b - Wrap(base + k)) < 4
    ensures Wrap(b - base) == k + Wrap(b - Wrap(base + k))
  {
  }

  lemma Read32Agree(m: Mem, r: Mem, a: Word)
    requires forall b: Word | Wrap(b - a) < 4 :: r[b] == m[b]
    ensures Read32(r, a) == Read32(m, a)
  {
    hide Wrap;
    var a1, a2, a3 := Wrap(a + 1), Wrap(a + 2), Wrap(a + 3);
    WrapOnce(a + 1);
    WrapOnce(a + 2);
    WrapOnce(a + 3);
    WrapOnce(a - a);
    WrapOnce(a1 - a);
    WrapOnce(a2 - a);
    WrapOnce(a3 - a);
    WrapOnce(a2 + 1);
    assert r[a] == m[a] && r[a1] == m[a1] && r[a2] == m[a2] && r[a3] == m[a3];
  }

  lemma FieldAgrees(m: Mem, r: Mem, table: Word, n: nat, k: nat)
    requires n < 0x1_0000 && k + 4 <= 32 * n
    requires forall b: Word | Wrap(b - table) < 32 * n :: r[b] == m[b]
    ensures Read32(r, Wrap(table + k)) == Read32(m, Wrap(table + k))
  {
    hide Read32;
    var a := Wrap(table + k);
    forall b: Word | Wrap(b - a) < 4
      ensures r[b] == m[b]
    {
      Offset(b, table, k);
    }
    Read32Agree(m, r, a);
  }

  lemma PhnumAgrees(m: Mem, r: Mem, buf: Word)
    requires forall b: Word | Wrap(b - buf) < 52 :: r[b] == m[b]
    ensures Phnum(r, buf) == Phnum(m, buf)
  {
    var a := Wrap(buf + 44);
    var b := Wrap(a + 1);
    assert Wrap(a - buf) == 44 && Wrap(b - buf) == 45;
  }

  lemma HeadersAgree(m: Mem, r: Mem, buf: Word, table: Word, n: nat)
    requires n < 0x1_0000
    requires forall a: Word | HeaderByte(buf, table, n, a) :: r[a] == m[a]
    ensures SameHeaders(m, r, buf, table, n)
  {
    hide Read32, Wrap, Phnum;
    assert forall a: Word | Wrap(a - table) < 32 * n :: HeaderByte(buf, table, n, a);
    assert forall a: Word | Wrap(a - buf) < 52 :: HeaderByte(buf, table, n, a);
    forall i: nat | i < n
      ensures PhdrAt(r, table, i) == PhdrAt(m, table, i)
    {
      FieldAgrees(m, r, table, n, 32 * i + 4);
      FieldAgrees(m, r, table, n, 32 * i + 8);
      FieldAgrees(m, r, table, n, 32 * i + 20);
      FieldAgrees(m, r, table, n, 32 * i + 24);
    }
    PhnumAgrees(m, r, buf);
  }

  /** Memory after the first `n` segments of a list are mapped. */
  function MapFirst(m: Mem, d: Page, buf: Word, segs: seq<Phdr>, n: nat): Mem
    requires n <= |segs|
  {
    if n == 0 then m else MapSegment(MapFirst(m, d, buf, segs, n - 1), d, buf, segs[n - 1]).0
  }

  /** The first segment from `i` on whose range wraps, or the end of the list. */
  function FirstBad(buf: Word, segs: seq<Phdr>, i: nat): (j: nat)
    requires i <= |segs|
    ensures i <= j <= |segs|
    ensures forall k | i <= k < j :: SegOk(buf, segs[k])
    ensures j < |segs| ==> !SegOk(buf, segs[j])
    decreases |segs| - i
  {
    if i == |segs| || !SegOk(buf, segs[i]) then i else FirstBad(buf, segs, i + 1)
  }

  lemma MapSegmentCases(m: Mem, d: Page, buf: Word, seg: Phdr)
    ensures !SegOk(buf, seg) ==> MapSegment(m, d, buf, seg) == (m, -EINVARG)
    ensures SegOk(buf, seg) ==>
              MapSegment(m, d, buf, seg) ==
              (MapPages(m, d, seg.vaddr / 4096, SegPhys(buf, seg) / 4096, SegPages(buf, seg), SegFlags(seg)), 0)
  {
    hide MapPages, AlignUp, Wrap;
  }

  lemma {:induction false} MapFirstKeeps(m: Mem, d: Page, buf: Word, segs: seq<Phdr>, n: nat)
    requires TablesOk(m, d) && n <= |segs|
    ensures TablesOk(MapFirst(m, d, buf, segs, n), d) && OnlyPtes(m, MapFirst(m, d, buf, segs, n), d)
  {
    hide MapSegment, MapPages, SegPages, SegOk, SegFlags, Frame;
    if n > 0 {
      MapFirstKeeps(m, d, buf, segs, n - 1);
      SegmentExtends(m, MapFirst(m, d, buf, segs, n - 1), d, buf, segs[n - 1]);
    }
  }

  lemma SegmentExtends(m: Mem, r: Mem, d: Page, buf: Word, seg: Phdr)
    requires TablesOk(r, d) && OnlyPtes(m, r, d)
    ensures TablesOk(MapSegment(r, d, buf, seg).0, d) && OnlyPtes(m, MapSegment(r, d, buf, seg).0, d)
  {
    hide MapSegment, MapPages, SegPages, SegOk, SegFlags, Frame, TablesOk;
    MapSegmentCases(r, d, buf, seg);
    if SegOk(buf, seg) {
      MapPagesKeeps(r, d, seg.vaddr / 4096, SegPhys(buf, seg) / 4096, SegPages(buf, seg), SegFlags(seg));
    }
    var s := MapSegment(r, d, buf, seg).0;
    forall a: Word | !TableByte(m, d, a)
      ensures s[a] == m[a]
    {
      assert !TableByte(r, d, a);
    }
  }

  /** With headers apart from the tables, the loop maps exactly the segments found at
      the start, up to the first whose range wraps; it succeeds when none does. */
  lemma {:induction false} MapElfFromIsMapFirst(m0: Mem, d: Page, buf: Word, i: nat)
    requires TablesOk(m0, d) && HeadersApart(m0, d, buf) && i <= FirstBad(buf, Segs(m0, buf), 0)
    ensures var segs := Segs(m0, buf);
            var j := FirstBad(buf, segs, 0);
            MapElfFrom(MapFirst(m0, d, buf, segs, i), d, buf, PhdrTable(m0, buf), i) ==
            (MapFirst(m0, d, buf, segs, j), if j == |segs| then 0 else -EINVARG)
    decreases |Segs(m0, buf)| - i
  {
    hide MapSegment, SegOk, PhdrAt, Phnum, TablesOk, HeadersApart, PhdrTable, SegPages, SegFlags, MapPages;
    var segs, table := Segs(m0, buf), PhdrTable(m0, buf);
    var m := MapFirst(m0, d, buf, segs, i);
    HeadersStay(m0, d, buf, segs, i);
    if i < |segs| {
      assert PhdrAt(m, table, i) == segs[i];
      MapSegmentCases(m, d, buf, segs[i]);
      if SegOk(buf, segs[i]) {
        MapElfFromIsMapFirst(m0, d, buf, i + 1);
      }
    }
  }

  lemma HeadersStay(m0: Mem, d: Page, buf: Word, segs: seq<Phdr>, i: nat)
    requires TablesOk(m0, d) && HeadersApart(m0, d, buf) && i <= |segs|
    ensures SameHeaders(m0, MapFirst(m0, d, buf, segs, i), buf, PhdrTable(m0, buf), Phnum(m0, buf))
  {
    hide MapFirst, HeaderByte, PhdrTable, TablesOk;
    var r := MapFirst(m0, d, buf, segs, i);
    MapFirstKeeps(m0, d, buf, segs, i);
    forall a: Word | HeaderByte(buf, PhdrTable(m0, buf), Phnum(m0, buf), a)
      ensures r[a] == m0[a]
    {
      assert !TableByte(m0, d, a);
    }
    HeadersAgree(m0, r, buf, PhdrTable(m0, buf), Phnum(m0, buf));
  }

  lemma MapElfIsMapFirst(m: Mem, d: Page, buf: Word)
    requires TablesOk(m, d) && HeadersApart(m, d, buf)
    ensures var segs := Segs(m, buf);
            var j := FirstBad(buf, segs, 0);
            MapElf(m, d, buf) == (MapFirst(m, d, buf, segs, j), if j == |segs| then 0 else -EINVARG)
  {
    hide MapElfFrom, Segs, FirstBad;
    MapElfFromIsMapFirst(m, d, buf, 0);
  }

  // ------------------------------------------------------------------
  // What a task sees.
  // ------------------------------------------------------------------

  /** Segment `seg` maps page `q`. */
  predicate Covers(buf: Word, seg: Phdr, q: Page) {
    SegOk(buf, seg) && PageOffset(seg.vaddr / 4096, q) < SegPages(buf, seg)
  }

  /** The entry `seg` gives page `q`. */
  function SegPte(buf: Word, seg: Phdr, q: Page): Word {
    4096 * PagePlus(SegPhys(buf, seg) / 4096, PageOffset(seg.vaddr / 4096, q)) + SegFlags(seg)
  }

  /** Page `q` under the first `n` segments: the last one that maps it decides. */
  function ElfPte(buf: Word, segs: seq<Phdr>, n: nat, was: Word, q: Page): Word
    requires n <= |segs|
  {
    if n == 0 then was
    else if Covers(buf, segs[n - 1], q) then SegPte(buf, segs[n - 1], q)
    else ElfPte(buf, segs, n - 1, was, q)
  }

  lemma {:induction false} MapFirstPte(m: Mem, d: Page, buf: Word, segs: seq<Phdr>, n: nat, q: Page)
    requires TablesOk(m, d) && n <= |segs|
    ensures Pte(MapFirst(m, d, buf, segs, n), d, q) == ElfPte(buf, segs, n, Pte(m, d, q), q)
  {
    hide MapSegment, MapPages, SegOk, SegPages, SegFlags, Pte, PagePlus, PageOffset;
    if n > 0 {
      MapFirstPte(m, d, buf, segs, n - 1, q);
      MapFirstKeeps(m, d, buf, segs, n - 1);
      var r, seg := MapFirst(m, d, buf, segs, n - 1), segs[n - 1];
      MapSegmentCases(r, d, buf, seg);
      if SegOk(buf, seg) {
        MapPagesPte(r, d, seg.vaddr / 4096, SegPhys(buf, seg) / 4096, SegPages(buf, seg), SegFlags(seg), q);
      }
    }
  }

  /** No segment after `i` touches a page of segment `i`. */
  ghost predicate LastOnItsPages(buf: Word, segs: seq<Phdr>, i: nat)
    requires i < |segs|
  {
    forall j: nat, q: Page | i < j < |segs| && Covers(buf, segs[i], q) :: !Covers(buf, segs[j], q)
  }

  lemma {:induction false} LastDecides(buf: Word, segs: seq<Phdr>, i: nat, n: nat, was: Word, q: Page)
    requires i < n <= |segs| && LastOnItsPages(buf, segs, i) && Covers(buf, segs[i], q)
    ensures ElfPte(buf, segs, n, was, q) == SegPte(buf, segs[i], q)
  {
    hide Covers, SegPte;
    if n > i + 1 {
      LastDecides(buf, segs, i, n - 1, was, q);
    }
  }

  /** Neither the file range nor the virtual range of the segment wraps. */
  predicate NoWrap(buf: Word, seg: Phdr) {
    && buf + seg.offset + seg.memsz <= 0xFFFF_F000
    && seg.vaddr + seg.memsz <= 0x1_0000_0000
  }

  lemma SegArithmetic(buf: Word, seg: Phdr)
    requires NoWrap(buf, seg)
    ensures SegOk(buf, seg) && SegPhys(buf, seg) == buf + seg.offset
    ensures seg.memsz > 0 ==> SegPages(buf, seg) > 0
    ensures buf + seg.offset + seg.memsz <= 4096 * (SegPhys(buf, seg) / 4096 + SegPages(buf, seg))
  {
    hide Wrap, AlignUp;
    var start, end := buf + seg.offset, buf + seg.offset + seg.memsz;
    WrapOnce(start);
    WrapOnce(end);
    var lo, hi := AlignDown(start), AlignUp(end);
    DivModUnique(lo, 4096, start / 4096, 0);
    DivModUnique(hi - lo, 4096, hi / 4096 - lo / 4096, 0);
  }

  /** A byte of a congruent segment: its page, and where that page leads. */
  lemma SegByte(buf: Word, seg: Phdr, k: nat)
    requires NoWrap(buf, seg) && k < seg.memsz && seg.vaddr % 4096 == (buf + seg.offset) % 4096
    ensures seg.vaddr + k < 0x1_0000_0000
    ensures Covers(buf, seg, (seg.vaddr + k) / 4096)
    ensures SegPte(buf, seg, (seg.vaddr + k) / 4096) == 4096 * ((buf + seg.offset + k) / 4096) + SegFlags(seg)
    ensures (seg.vaddr + k) % 4096 == (buf + seg.offset + k) % 4096
  {
    hide SegOk, SegPages, SegPhys;
    SegArithmetic(buf, seg);
    var start := buf + seg.offset;
    DivAdd(start, k, 4096);
    DivAdd(seg.vaddr, k, 4096);
    var j := (start % 4096 + k) / 4096;
    ModOnce(start / 4096 + j, 0x10_0000);
  }

  /** The entry lets user code read, and write exactly if `w` says so. */
  predicate Grants(pte: Word, w: bool) {
    Present(pte) && User(pte) && (Writable(pte) <==> w)
  }

  /** Bytes vaddr .. vaddr+memsz-1 of the task are the file's bytes from `offset` on. */
  ghost predicate SeesSegment(m: Mem, d: Page, buf: Word, seg: Phdr) {
    forall v: Word | seg.vaddr <= v < seg.vaddr + seg.memsz ::
      Translate(m, d, v) == buf + seg.offset + (v - seg.vaddr)
  }

  ghost predicate SegmentProtected(m: Mem, d: Page, seg: Phdr) {
    forall v: Word | seg.vaddr <= v < seg.vaddr + seg.memsz :: Grants(Pte(m, d, v / 4096), SegWritable(seg))
  }

  lemma FlagsGrant(f: Page, seg: Phdr)
    ensures Grants(4096 * f + SegFlags(seg), SegWritable(seg))
    ensures (4096 * f + SegFlags(seg)) / 4096 == f
  {
    FlagsOfEntry(f, SegFlags(seg));
  }

  /** A segment whose virtual address and file position agree modulo the page size. */
  lemma CongruentSegment(m: Mem, d: Page, buf: Word, seg: Phdr)
    requires NoWrap(buf, seg) && seg.vaddr % 4096 == (buf + seg.offset) % 4096
    requires forall q: Page | Covers(buf, seg, q) :: Pte(m, d, q) == SegPte(buf, seg, q)
    ensures SeesSegment(m, d, buf, seg) && SegmentProtected(m, d, seg)
  {
    hide Pte, Covers, SegPte, SegFlags;
    forall v: Word | seg.vaddr <= v < seg.vaddr + seg.memsz
      ensures Translate(m, d, v) == buf + seg.offset + (v - seg.vaddr)
      ensures Grants(Pte(m, d, v / 4096), SegWritable(seg))
    {
      var k := v - seg.vaddr;
      SegByte(buf, seg, k);
      FlagsGrant((buf + seg.offset + k) / 4096, seg);
    }
  }

  lemma FirstPage(buf: Word, seg: Phdr)
    requires NoWrap(buf, seg) && seg.memsz > 0
    ensures Covers(buf, seg, seg.vaddr / 4096)
    ensures SegPte(buf, seg, seg.vaddr / 4096) == 4096 * ((buf + seg.offset) / 4096) + SegFlags(seg)
  {
    SegArithmetic(buf, seg);
  }

  lemma SeesOnlyCongruent(m: Mem, d: Page, buf: Word, seg: Phdr)
    requires NoWrap(buf, seg) && seg.memsz > 0 && SeesSegment(m, d, buf, seg)
    requires forall q: Page | Covers(buf, seg, q) :: Pte(m, d, q) == SegPte(buf, seg, q)
    ensures seg.vaddr % 4096 == (buf + seg.offset) % 4096
  {
    hide Pte, Covers, SegPte;
    FirstPage(buf, seg);
    assert Translate(m, d, seg.vaddr) == buf + seg.offset;
  }

  /** Loader correctness: after mapping, a non-empty segment whose pages no later
      segment takes is seen by the task exactly when its virtual address and its file
      position agree modulo the page size, and is then writable exactly when its
      header says so. */
  lemma SegmentLoaded(m: Mem, d: Page, buf: Word, i: nat)
    requires TablesOk(m, d) && HeadersApart(m, d, buf)
    requires i < |Segs(m, buf)| && FirstBad(buf, Segs(m, buf), 0) == |Segs(m, buf)|
    requires NoWrap(buf, Segs(m, buf)[i]) && LastOnItsPages(buf, Segs(m, buf), i)
    requires Segs(m, buf)[i].memsz > 0
    ensures var (r, rc) := MapElf(m, d, buf);
            var seg := Segs(m, buf)[i];
            && rc == 0 && TablesOk(r, d)
            && (SeesSegment(r, d, buf, seg) <==> seg.vaddr % 4096 == (buf + seg.offset) % 4096)
            && (SeesSegment(r, d, buf, seg) ==> SegmentProtected(r, d, seg))
  {
    hide MapElf, MapFirst, Segs, Covers, SegPte, Pte, FirstBad, NoWrap, SeesSegment, SegmentProtected, LastOnItsPages,
         TablesOk, HeadersApart;
    var segs := Segs(m, buf);
    MapElfIsMapFirst(m, d, buf);
    MapFirstKeeps(m, d, buf, segs, |segs|);
    var r, seg := MapFirst(m, d, buf, segs, |segs|), segs[i];
    forall q: Page | Covers(buf, seg, q)
      ensures Pte(r, d, q) == SegPte(buf, seg, q)
    {
      MapFirstPte(m, d, buf, segs, |segs|, q);
      LastDecides(buf, segs, i, |segs|, Pte(m, d, q), q);
    }
    if seg.vaddr % 4096 == (buf + seg.offset) % 4096 {
      CongruentSegment(r, d, buf, seg);
    } else if SeesSegment(r, d, buf, seg) {
      SeesOnlyCongruent(r, d, buf, seg);
    }
  }

  /** For one: a segment at 0x400000 that starts 0x34 bytes into its page of the file. */
  lemma UnalignedSegmentExample(m: Mem, d: Page)
    requires TablesOk(m, d)
    ensures var seg := Phdr(0x34, 0x40_0000, 1, 4);
            var (r, rc) := MapSegment(m, d, 0x0100_0000, seg);
            rc == 0 && !SeesSegment(r, d, 0x0100_0000, seg)
  {
    hide MapPages, Pte, TablesOk;
    var buf: Word, seg := 0x0100_0000, Phdr(0x34, 0x40_0000, 1, 4);
    assert SegPhys(buf, seg) == 0x0100_0034 && SegEnd(buf, seg) == 0x0100_1000;
    MapSegmentCases(m, d, buf, seg);
    MapPagesPte(m, d, 0x400, 0x1000, 1, 5, 0x400);
    var r := MapSegment(m, d, buf, seg).0;
    assert Translate(r, d, 0x40_0000) == 0x0100_0000;
  }

  /** Pages that no segment maps keep their entries. */
  lemma {:induction false} Untouched(buf: Word, segs: seq<Phdr>, n: nat, was: Word, q: Page)
    requires n <= |segs| && forall j | 0 <= j < |segs| :: !Covers(buf, segs[j], q)
    ensures ElfPte(buf, segs, n, was, q) == was
  {
    hide Covers;
    if n > 0 {
      Untouched(buf, segs, n - 1, was, q);
    }
  }

  // ------------------------------------------------------------------
  // The operations themselves.
  // ------------------------------------------------------------------

  method Load16(ram: Ram, a: Word) returns (v: nat)
    requires ram.Valid()
    ensures v == Read16(ram.View(), a)
  {
    var lo := ram.Load(a);
    var hi := ram.Load(Wrap(a + 1));
    v := (lo as int) + 0x100 * (hi as int);
  }

  method Load32(ram: Ram, a: Word) returns (v: Word)
    requires ram.Valid()
    ensures v == Read32(ram.View(), a)
  {
    var lo := Load16(ram, a);
    var hi := Load16(ram, Wrap(a + 2));
    v := lo + 0x1_0000 * hi;
  }

  method LoadPhdr(ram: Ram, table: Word, i: nat) returns (seg: Phdr)
    requires ram.Valid()
    ensures seg == PhdrAt(ram.View(), table, i)
  {
    hide Read32;
    var offset := Load32(ram, Wrap(table + (32 * i + 4)));
    var vaddr := Load32(ram, Wrap(table + (32 * i + 8)));
    var memsz := Load32(ram, Wrap(table + (32 * i + 20)));
    var flags := Load32(ram, Wrap(table + (32 * i + 24)));
    seg := Phdr(offset, vaddr, memsz, flags);
  }

  const PF_W: Word := 2

  /** The protection of a segment's pages. */
  method SegmentProt(seg: Phdr) returns (prot: Flags)
    ensures prot == SegFlags(seg)
  {
    WritableBit(seg.flags);
    prot := 5;
    if And(seg.flags, PF_W) != 0 {
      prot := 7;
    }
  }

  method MapTaskElf(ram: Ram, dir: Page, buf: Word) returns (rc: int)
    requires ram.Valid()
    modifies ram.bytes
    ensures (ram.View(), rc) == MapElf(old(ram.View()), dir, buf)
  {
    hide Read32, PhdrAt, CreateMapping, Wrap, SegFlags, SegEnd, AlignDown;
    rc := 0;
    var phoff := Load32(ram, Wrap(buf + 28));
    var table := if phoff == 0 then 0 else Wrap(buf + phoff);
    ghost var m := ram.View();
    var i: nat := 0;
    while true
      invariant rc == 0 && i <= 0x1_0000
      invariant MapElfFrom(ram.View(), dir, buf, table, i) == MapElf(m, dir, buf)
      decreases 0x1_0000 - i
    {
      var phnum := Load16(ram, Wrap(buf + 44));
      if i >= phnum {
        break;
      }
      var seg := LoadPhdr(ram, table, i);
      var prot := SegmentProt(seg);
      rc := PagingCreateMapping(ram, dir, AlignDown(seg.vaddr), AlignDown(SegPhys(buf, seg)), SegEnd(buf, seg), prot);
      if rc < 0 {
        break;
      }
      i := i + 1;
    }
  }

  method MapTaskBinary(ram: Ram, dir: Page, binary: Word, size: Word) returns (rc: int)
    requires ram.Valid()
    modifies ram.bytes
    ensures (ram.View(), rc) == MapBinary(old(ram.View()), dir, binary, size)
  {
    hide CreateMapping;
    rc := PagingCreateMapping(ram, dir, TASK_LOAD_VIRTUAL_ADDRESS, binary, AlignUp(Wrap(binary + size)), 7);
  }
}
