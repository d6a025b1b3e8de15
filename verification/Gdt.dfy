/** Segment descriptors: the eight bytes the processor reads, and what it reads in them. */
module Gdt {
  import opened Bits

  datatype Segment = Segment(base: Word, limit: Word, kind: Byte)

  /** A limit of more than 20 bits has to end on the last byte of a page. */
  predicate Encodable(d: Segment) {
    d.limit <= 0xF_FFFF || d.limit % 4096 == 4095
  }

  /** The limit field: in bytes while 20 bits suffice, else in pages. */
  function LimitField(limit: Word): nat {
    if limit > 0xF_FFFF then limit / 4096 else limit
  }

  /** The eight bytes of a descriptor. */
  function Encoded(d: Segment): seq<Byte> {
    var limit := LimitField(d.limit);
    [limit % 0x100, limit / 0x100 % 0x100,
     d.base % 0x100, d.base / 0x100 % 0x100, d.base / 0x1_0000 % 0x100,
     d.kind,
     (if d.limit > 0xF_FFFF then 0xC0 else 0x40) + limit / 0x1_0000 % 0x10,
     d.base / 0x100_0000 % 0x100]
  }

  function Join(b0: int, b1: int, b2: int, b3: int): int {
    b0 + 0x100 * b1 + 0x1_0000 * b2 + 0x100_0000 * b3
  }

  /** A segment and the rest of its flags: the default operand size (0 for 16-bit code, 1 for
      32-bit), 64-bit code, and a bit left to the system. */
  datatype Descriptor = Descriptor(segment: Segment, size: nat, long: nat, available: nat)

  /** What the processor makes of eight bytes: bit 7 of byte 6 says that the limit counts
      pages, of which the last is included whole, and bits 6, 5 and 4 are the other flags. */
  function Decoded(b: seq<Byte>): Descriptor
    requires |b| == 8
  {
    var field: nat := Join(b[0], b[1], b[6] % 0x10, 0);
    var limit := if b[6] / 0x80 % 2 == 1 then 4096 * field + 4095 else field;
    Descriptor(Segment(Join(b[2], b[3], b[4], b[7]), limit, b[5]), b[6] / 0x40 % 2, b[6] / 0x20 % 2, b[6] / 0x10 % 2)
  }

  lemma BytesBack(w: Word)
    ensures w == Join(w % 0x100, w / 0x100 % 0x100, w / 0x1_0000 % 0x100, w / 0x100_0000 % 0x100)
    ensures w < 0x10_0000 ==> w == Join(w % 0x100, w / 0x100 % 0x100, w / 0x1_0000 % 0x10, 0)
  {
    FourBytes(w);
    ModOnce(w / 0x100_0000, 0x100);
    if w < 0x10_0000 {
      ModOnce(w / 0x1_0000, 0x10);
      ModOnce(w / 0x1_0000, 0x100);
    }
  }

  /** The processor reads back the base, limit and kind that were encoded, exactly when
      the descriptor is one that is not refused; and it is always one of 32-bit code or data. */
  lemma RoundTrip(d: Segment)
    ensures Decoded(Encoded(d)).segment == d <==> Encodable(d)
    ensures var c := Decoded(Encoded(d));
            c.size == 1 && c.long == 0 && c.available == 0
  {
    hide Join;
    var field, flags := LimitField(d.limit), if d.limit > 0xF_FFFF then 0xC0 else 0x40;
    BytesBack(d.base);
    BytesBack(field);
    FlagBits(flags, field / 0x1_0000 % 0x10);
    DivModUnique(d.limit, 4096, d.limit / 4096, d.limit % 4096);
  }

  lemma FlagBits(flags: Byte, n: nat)
    requires (flags == 0x40 || flags == 0xC0) && n < 0x10
    ensures (flags + n) % 0x10 == n && (flags + n) / 0x10 % 2 == 0 && (flags + n) / 0x20 % 2 == 0
    ensures (flags + n) / 0x40 % 2 == 1 && ((flags + n) / 0x80 % 2 == 1 <==> flags == 0xC0)
  {
    DivModUnique(flags + n, 0x10, flags / 0x10, n);
    DivModUnique(flags + n, 0x20, flags / 0x20, n);
    DivModUnique(flags + n, 0x40, flags / 0x40, n);
    DivModUnique(flags + n, 0x80, flags / 0x80, flags % 0x80 + n);
  }

  /** Different descriptors have different bytes. */
  lemma Injective(c: Segment, d: Segment)
    requires Encodable(c) && Encodable(d) && Encoded(c) == Encoded(d)
    ensures c == d
  {
    RoundTrip(c);
    RoundTrip(d);
  }

  // ------------------------------------------------------------------
  // The operations.
  // ------------------------------------------------------------------

  /** `val & 0xFF` and the like. */
  method Low(x: nat, k: nat, ghost p: nat) returns (r: nat)
    requires p == Pow2(k)
    ensures r == x % p
  {
    AndLowMask(x, k);
    r := And(x, Pow2(k) - 1);
  }

  method ByteOf(x: Word, k: nat, ghost p: nat) returns (r: Byte)
    requires p == Pow2(k)
    ensures r == x / p % 0x100
  {
    hide Pow2, Shr, And;
    ShrDivides(x, k);
    Powers();
    r := Low(Shr(x, k), 8, 0x100);
  }

  /** `areFirst12BitsOne`. */
  method FirstTwelveOne(x: Word) returns (r: bool)
    ensures r == (x % 4096 == 4095)
  {
    Powers();
    var low := Low(x, 12, 4096);
    r := low == 0xFFF;
  }

  /** Entry `i` of a table holds the bytes `b`. */
  ghost predicate EntryIs(table: seq<Byte>, i: nat, b: seq<Byte>) {
    8 * i + 8 <= |table| && table[8 * i..8 * i + 8] == b
  }

  /** `encodeSegmentDescriptor` into entry `i`: false stands for the panic, which leaves
      the entry as it was. */
  method EncodeSegment(raw: array<Byte>, i: nat, source: Segment) returns (ok: bool)
    requires 8 * i + 8 <= raw.Length
    modifies raw
    ensures ok == Encodable(source)
    ensures ok ==> EntryIs(raw[..], i, Encoded(source))
    ensures forall k | 0 <= k < raw.Length && !(ok && 8 * i <= k < 8 * i + 8) :: raw[k] == old(raw[k])
  {
    var full := FirstTwelveOne(source.limit);
    if source.limit > 0xF_FFFF && !full {
      return false;
    }
    var limit, units := LimitUnits(source.limit);
    var l0, l1, l2 := LimitBytes(limit, units);
    var b0, b1, b2, b3 := BaseBytes(source.base);
    raw[8 * i], raw[8 * i + 1], raw[8 * i + 6] := l0, l1, l2;
    raw[8 * i + 2], raw[8 * i + 3], raw[8 * i + 4], raw[8 * i + 7] := b0, b1, b2, b3;
    raw[8 * i + 5] := source.kind;
    ok := true;
  }

  /** The limit in bytes or, beyond 20 bits, in pages; and the flags that say so. */
  method LimitUnits(limit: Word) returns (field: Word, flags: Byte)
    ensures field == LimitField(limit) < 0x10_0000
    ensures flags == if limit > 0xF_FFFF then 0xC0 else 0x40
  {
    field, flags := limit, 0x40;
    if limit > 0xF_FFFF {
      Shift12(limit);
      field, flags := Shr(limit, 12), 0xC0;
    }
  }

  method LimitBytes(limit: Word, flags: Byte) returns (l0: Byte, l1: Byte, l2: Byte)
    requires flags == 0x40 || flags == 0xC0
    ensures l0 == limit % 0x100 && l1 == limit / 0x100 % 0x100 && l2 == flags + limit / 0x1_0000 % 0x10
  {
    hide Pow2, And, Or, Shr;
    SmallPowers();
    l0 := Low(limit, 8, 0x100);
    l1 := ByteOf(limit, 8, 0x100);
    ShrDivides(limit, 16);
    var high := Low(Shr(limit, 16), 4, 0x10);
    OrDisjoint(flags, high, 4);
    l2 := Or(flags, high);
  }

  method BaseBytes(base: Word) returns (b0: Byte, b1: Byte, b2: Byte, b3: Byte)
    ensures b0 == base % 0x100 && b1 == base / 0x100 % 0x100
    ensures b2 == base / 0x1_0000 % 0x100 && b3 == base / 0x100_0000 % 0x100
  {
    hide Pow2, And, Shr;
    SmallPowers();
    b0 := Low(base, 8, 0x100);
    b1 := ByteOf(base, 8, 0x100);
    b2 := ByteOf(base, 16, 0x1_0000);
    b3 := ByteOf(base, 24, 0x100_0000);
  }

  /** `segment_descriptor_to_raw`: every entry in turn, up to the first that is refused. */
  method SegmentsToRaw(raw: array<Byte>, desc: seq<Segment>) returns (ok: bool)
    requires 8 * |desc| <= raw.Length
    modifies raw
    ensures ok <==> forall d | d in desc :: Encodable(d)
    ensures ok ==> forall i: nat | i < |desc| ::
                     EntryIs(raw[..], i, Encoded(desc[i])) &&
                     Decoded(Encoded(desc[i])) == Descriptor(desc[i], 1, 0, 0)
    ensures forall k | 8 * |desc| <= k < raw.Length :: raw[k] == old(raw[k])
  {
    hide Encoded, Encodable;
    var n := 0;
    while n < |desc|
      invariant n <= |desc| && forall i: nat | i < n :: Encodable(desc[i])
      invariant forall i: nat | i < n :: EntryIs(raw[..], i, Encoded(desc[i]))
      invariant forall k | 8 * |desc| <= k < raw.Length :: raw[k] == old(raw[k])
    {
      ghost var was := raw[..];
      ok := EncodeSegment(raw, n, desc[n]);
      if !ok {
        return;
      }
      forall i: nat | i < n
        ensures EntryIs(raw[..], i, Encoded(desc[i]))
      {
        assert EntryIs(was, i, Encoded(desc[i]));
        assert raw[8 * i..8 * i + 8] == was[8 * i..8 * i + 8];
      }
      n := n + 1;
    }
    forall i: nat | i < |desc|
      ensures Decoded(Encoded(desc[i])) == Descriptor(desc[i], 1, 0, 0)
    {
      RoundTrip(desc[i]);
    }
    ok := true;
  }

  lemma SmallPowers()
    ensures Pow2(0) == 1 && Pow2(4) == 0x10 && Pow2(8) == 0x100 && Pow2(16) == 0x1_0000 && Pow2(24) == 0x100_0000
  {
    assert Pow2(8) == 0x100;
    assert Pow2(16) == 0x1_0000;
  }
}
