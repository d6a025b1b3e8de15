/** ELF headers as the format lays them out, field by field, and what the loader finds in a
    memory that holds them. */
module ElfFormat {
  import opened Bits
  import opened Memory
  import opened Loader

  type Half = h: int | 0 <= h < 0x1_0000

  /** The ELF header and a program header, with all their fields in order. */
  datatype FileHeader = FileHeader(
    ident: seq<Byte>, kind: Half, machine: Half, version: Word, entry: Word, phoff: Word, shoff: Word, flags: Word,
    ehsize: Half, phentsize: Half, phnum: Half, shentsize: Half, shnum: Half, shstrndx: Half)

  datatype SegmentHeader = SegmentHeader(
    kind: Word, offset: Word, vaddr: Word, paddr: Word, filesz: Word, memsz: Word, flags: Word, align: Word)

  function HalfBytes(v: Half): seq<Byte> {
    [v % 0x100, v / 0x100]
  }

  function WordBytes(v: Word): seq<Byte> {
    [v % 0x100, v / 0x100 % 0x100, v / 0x1_0000 % 0x100, v / 0x100_0000]
  }

  function FileHeaderBytes(e: FileHeader): seq<Byte> {
    e.ident + HalfBytes(e.kind) + HalfBytes(e.machine) + WordBytes(e.version) + WordBytes(e.entry) +
    WordBytes(e.phoff) + WordBytes(e.shoff) + WordBytes(e.flags) + HalfBytes(e.ehsize) + HalfBytes(e.phentsize) +
    HalfBytes(e.phnum) + HalfBytes(e.shentsize) + HalfBytes(e.shnum) + HalfBytes(e.shstrndx)
  }

  function SegmentHeaderBytes(p: SegmentHeader): seq<Byte> {
    WordBytes(p.kind) + WordBytes(p.offset) + WordBytes(p.vaddr) + WordBytes(p.paddr) +
    WordBytes(p.filesz) + WordBytes(p.memsz) + WordBytes(p.flags) + WordBytes(p.align)
  }

  /** A program header table: the headers one after the other. */
  function TableBytes(ps: seq<SegmentHeader>): seq<Byte> {
    if ps == [] then [] else TableBytes(ps[..|ps| - 1]) + SegmentHeaderBytes(ps[|ps| - 1])
  }

  /** Memory holds the bytes `bs` from address `a` on, wrapping at 4 GiB. */
  ghost predicate HoldsAt(m: Mem, a: Word, bs: seq<Byte>) {
    forall k: nat | k < |bs| :: m[Wrap(a + k)] == bs[k]
  }

  lemma HoldsPart(m: Mem, a: Word, bs: seq<Byte>, from: nat, part: seq<Byte>)
    requires HoldsAt(m, a, bs) && from + |part| <= |bs| && bs[from..from + |part|] == part
    ensures HoldsAt(m, Wrap(a + from), part)
  {
    hide Wrap;
    forall k: nat | k < |part|
      ensures m[Wrap(Wrap(a + from) + k)] == part[k]
    {
      WrapTwice(a + from, k);
      assert bs[from + k] == bs[from..from + |part|][k];
    }
  }

  lemma WrapTwice(x: int, k: int)
    ensures Wrap(Wrap(x) + k) == Wrap(x + k)
  {
    ModAdd(k, x, 0x1_0000_0000);
  }

  lemma HalfRead(m: Mem, a: Word, v: Half)
    requires HoldsAt(m, a, HalfBytes(v))
    ensures Read16(m, a) == v
  {
    assert m[Wrap(a + 0)] == HalfBytes(v)[0] && m[Wrap(a + 1)] == HalfBytes(v)[1];
  }

  lemma WordRead(m: Mem, a: Word, v: Word)
    requires HoldsAt(m, a, WordBytes(v))
    ensures Read32(m, a) == v
  {
    hide Wrap;
    var bs := WordBytes(v);
    assert m[Wrap(a + 0)] == bs[0] && m[Wrap(a + 1)] == bs[1] && m[Wrap(a + 2)] == bs[2] && m[Wrap(a + 3)] == bs[3];
    WrapOnce(a);
    WrapTwice(a + 2, 1);
    FourBytes(v);
  }

  /** Where the two fields the loader reads of the ELF header stand in it. */
  lemma FileHeaderFields(e: FileHeader)
    requires |e.ident| == 16
    ensures var bs := FileHeaderBytes(e);
            |bs| == 52 && bs[28..32] == WordBytes(e.phoff) && bs[44..46] == HalfBytes(e.phnum)
  {
    hide HalfBytes, WordBytes;
    FieldSizes();
  }

  lemma FieldSizes()
    ensures forall v: Half :: |HalfBytes(v)| == 2
    ensures forall v: Word :: |WordBytes(v)| == 4
  {
  }

  lemma SegmentHeaderFields(p: SegmentHeader)
    ensures var bs := SegmentHeaderBytes(p);
            && |bs| == 32 && bs[4..8] == WordBytes(p.offset) && bs[8..12] == WordBytes(p.vaddr)
            && bs[20..24] == WordBytes(p.memsz) && bs[24..28] == WordBytes(p.flags)
  {
    hide WordBytes;
    FieldSizes();
  }

  lemma {:induction false} TableEntry(ps: seq<SegmentHeader>, i: nat)
    requires i < |ps|
    ensures |TableBytes(ps)| == 32 * |ps| && TableBytes(ps)[32 * i..32 * i + 32] == SegmentHeaderBytes(ps[i])
    decreases |ps|
  {
    hide SegmentHeaderBytes;
    var n := |ps| - 1;
    SegmentHeaderFields(ps[n]);
    if n > 0 {
      TableEntry(ps[..n], if i < n then i else 0);
    }
  }

  /** What the loader keeps of a program header. */
  function LoaderFields(p: SegmentHeader): Phdr {
    Phdr(p.offset, p.vaddr, p.memsz, p.flags)
  }

  lemma SegmentHeaderRead(m: Mem, table: Word, ps: seq<SegmentHeader>, i: nat)
    requires i < |ps| && HoldsAt(m, table, TableBytes(ps))
    ensures PhdrAt(m, table, i) == LoaderFields(ps[i])
  {
    hide HoldsAt, TableBytes, SegmentHeaderBytes, WordBytes, Read32, Wrap;
    FieldSizes();
    TableEntry(ps, i);
    var a, bs := Wrap(table + 32 * i), SegmentHeaderBytes(ps[i]);
    SegmentHeaderFields(ps[i]);
    HoldsPart(m, table, TableBytes(ps), 32 * i, bs);
    FieldRead(m, table, 32 * i, bs, 4, ps[i].offset);
    FieldRead(m, table, 32 * i, bs, 8, ps[i].vaddr);
    FieldRead(m, table, 32 * i, bs, 20, ps[i].memsz);
    FieldRead(m, table, 32 * i, bs, 24, ps[i].flags);
  }

  lemma FieldRead(m: Mem, table: Word, at: nat, bs: seq<Byte>, from: nat, v: Word)
    requires HoldsAt(m, Wrap(table + at), bs) && from + 4 <= |bs| && bs[from..from + 4] == WordBytes(v)
    ensures Read32(m, Wrap(table + (at + from))) == v
  {
    hide HoldsAt, WordBytes, Read32, Wrap;
    FieldSizes();
    HoldsPart(m, Wrap(table + at), bs, from, WordBytes(v));
    WrapTwice(table + at, from);
    assert table + at + from == table + (at + from);
    WordRead(m, Wrap(table + (at + from)), v);
  }

  /** A file whose headers are written out in the format's field order (the table at address 0
      if the header names none, as the code reads it): the loader finds exactly the program
      headers written, with their offset, address, memory size and flags. */
  lemma HeadersRead(m: Mem, buf: Word, e: FileHeader, ps: seq<SegmentHeader>)
    requires |e.ident| == 16 && HoldsAt(m, buf, FileHeaderBytes(e)) && e.phnum == |ps|
    requires HoldsAt(m, if e.phoff == 0 then 0 else Wrap(buf + e.phoff), TableBytes(ps))
    ensures |Segs(m, buf)| == |ps|
    ensures forall i: nat | i < |ps| :: Segs(m, buf)[i] == LoaderFields(ps[i])
  {
    hide HoldsAt, TableBytes, FileHeaderBytes, WordBytes, HalfBytes, Read16, Read32, Wrap, PhdrAt, LoaderFields;
    FieldSizes();
    FileHeaderFields(e);
    HoldsPart(m, buf, FileHeaderBytes(e), 28, WordBytes(e.phoff));
    HoldsPart(m, buf, FileHeaderBytes(e), 44, HalfBytes(e.phnum));
    WordRead(m, Wrap(buf + 28), e.phoff);
    HalfRead(m, Wrap(buf + 44), e.phnum);
    forall i: nat | i < |ps|
      ensures Segs(m, buf)[i] == LoaderFields(ps[i])
    {
      SegmentHeaderRead(m, PhdrTable(m, buf), ps, i);
    }
  }
}
