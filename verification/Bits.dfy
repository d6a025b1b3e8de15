/** Bytes and 32-bit words of the machine, and C's bitwise operators on them.
    Integers are unbounded, so 32-bit wrap-around is written out with `Wrap`. */
module Bits {

  type Byte = b: int | 0 <= b < 0x100
  type Word = w: int | 0 <= w < 0x1_0000_0000

  /** The value C's unsigned 32-bit arithmetic leaves of `x`. */
  function Wrap(x: int): Word {
    x % 0x1_0000_0000
  }

  /** A 32-bit pattern read as a signed `int`. */
  function Signed(w: Word): int {
    if w < 0x8000_0000 then w else w - 0x1_0000_0000
  }

  /** C's `/` on signed operands: truncation toward zero. */
  function TruncDiv(x: int, d: int): int
    requires d > 0
  {
    if x >= 0 then x / d else -((-x) / d)
  }

  function Pow2(k: nat): (p: nat)
    ensures p > 0
  {
    if k == 0 then 1 else 2 * Pow2(k - 1)
  }

  function And(x: nat, y: nat): (r: nat)
    ensures r <= x && r <= y
  {
    if x == 0 || y == 0 then 0
    else 2 * And(x / 2, y / 2) + (if x % 2 == 1 && y % 2 == 1 then 1 else 0)
  }

  /** `x | y`, as the sum less the bits counted twice. */
  function Or(x: nat, y: nat): (r: nat)
    ensures x <= r <= x + y && y <= r
  {
    x + y - And(x, y)
  }

  lemma OrIsBitwise(x: nat, y: nat)
    ensures Or(x, y) / 2 == Or(x / 2, y / 2)
    ensures Or(x, y) % 2 == 1 <==> x % 2 == 1 || y % 2 == 1
  {
  }

  lemma HalfMod(x: nat, p: nat)
    requires p > 0
    ensures x % (2 * p) == 2 * ((x / 2) % p) + x % 2
  {
    var q, r := (x / 2) / p, (x / 2) % p;
    assert x == 2 * (q * p + r) + x % 2;
    assert x == q * (2 * p) + (2 * r + x % 2);
    DivModUnique(x, 2 * p, q, 2 * r + x % 2);
  }

  lemma DivModUnique(x: int, d: int, q: int, r: int)
    requires d > 0 && 0 <= r < d && x == q * d + r
    ensures x / d == q && x % d == r
  {
    var q', r' := x / d, x % d;
    assert (q - q') * d == r' - r;
    if q > q' {
      assert (q - q') * d >= d by { MulAtLeast(q - q', d); }
    } else if q < q' {
      assert (q' - q) * d >= d by { MulAtLeast(q' - q, d); }
    }
  }

  lemma MulAtLeast(a: int, d: int)
    requires a >= 1 && d > 0
    ensures a * d >= d
  {
  }

  /** Masking with the low `k` bits is the remainder modulo 2^k. */
  lemma {:induction false} AndLowMask(x: nat, k: nat)
    ensures And(x, Pow2(k) - 1) == x % Pow2(k)
  {
    if k > 0 {
      AndLowMask(x / 2, k - 1);
      HalfMod(x, Pow2(k - 1));
      assert (Pow2(k) - 1) / 2 == Pow2(k - 1) - 1;
    }
  }

  /** C's `c << k` (before any truncation) and `x >> k`. */
  function Shl(c: nat, k: nat): nat {
    if k == 0 then c else 2 * Shl(c, k - 1)
  }

  function Shr(x: nat, k: nat): nat {
    if k == 0 then x else Shr(x / 2, k - 1)
  }

  /** A mask whose low `k` bits are zero ignores the low `k` bits of its operand. */
  lemma {:induction false} AndShift(x: nat, c: nat, k: nat)
    ensures And(x, Shl(c, k)) == Shl(And(Shr(x, k), c), k)
  {
    if k > 0 {
      AndShift(x / 2, c, k - 1);
    }
  }

  lemma {:induction false} ShrDivides(x: nat, k: nat)
    ensures Shr(x, k) == x / Pow2(k)
  {
    if k > 0 {
      ShrDivides(x / 2, k - 1);
      HalfDiv(x, Pow2(k - 1));
    }
  }

  lemma {:induction false} ShlMultiplies(c: nat, k: nat)
    ensures Shl(c, k) == Pow2(k) * c
  {
    if k > 0 {
      ShlMultiplies(c, k - 1);
    }
  }

  lemma HalfDiv(x: nat, p: nat)
    requires p > 0
    ensures (x / 2) / p == x / (2 * p)
  {
    var q, r := (x / 2) / p, (x / 2) % p;
    assert x == q * (2 * p) + (2 * r + x % 2);
    DivModUnique(x, 2 * p, q, 2 * r + x % 2);
  }

  /** Or-ing flags below 2^k into a multiple of 2^k adds them. */
  lemma {:induction false} OrDisjoint(x: nat, y: nat, k: nat)
    requires x % Pow2(k) == 0 && y < Pow2(k)
    ensures Or(x, y) == x + y
  {
    if k > 0 {
      HalfMod(x, Pow2(k - 1));
      OrDisjoint(x / 2, y / 2, k - 1);
      OrIsBitwise(x, y);
    }
  }

  /** Two words below 2^k stay below 2^k under `|`. */
  lemma {:induction false} OrBound(x: nat, y: nat, k: nat)
    requires x < Pow2(k) && y < Pow2(k)
    ensures Or(x, y) < Pow2(k)
  {
    if k > 0 {
      OrBound(x / 2, y / 2, k - 1);
      OrIsBitwise(x, y);
    }
  }

  lemma Powers()
    ensures Pow2(8) == 0x100 && Pow2(12) == 4096 && Pow2(20) == 0x10_0000
    ensures Pow2(32) == 0x1_0000_0000
  {
    assert Pow2(8) == 0x100;
    assert Pow2(20) == 0x10_0000;
  }

  lemma {:induction false} FitsMask(y: nat, mask: nat, k: nat)
    requires mask == Pow2(k) - 1 && y <= mask
    ensures And(y, mask) == y
  {
    if k > 0 {
      FitsMask(y / 2, mask / 2, k - 1);
    }
  }

  lemma Shift12(x: nat)
    ensures Shr(x, 12) == x / 4096 && Shl(x, 12) == 4096 * x
  {
    Powers();
    ShrDivides(x, 12);
    ShlMultiplies(x, 12);
  }

  /** The mask 0xfffff000 clears the low twelve bits. */
  lemma PageMask(w: Word)
    ensures And(w, 0xffff_f000) == w - w % 4096
  {
    Shift12(0xf_ffff);
    AndShift(w, 0xf_ffff, 12);
    Shift12(w);
    Powers();
    FitsMask(w / 4096, 0xf_ffff, 20);
    Shift12(w / 4096);
  }

  /** Flag bits or-ed into a page-aligned address. */
  lemma PageFlags(w: Word, flags: nat)
    requires w % 4096 == 0 && flags < 4096
    ensures Or(w, flags) == w + flags < 0x1_0000_0000
  {
    Powers();
    OrDisjoint(w, flags, 12);
  }

  /** Bit `k` is set exactly when the shifted value is odd. */
  lemma {:induction false} AndBit(x: nat, k: nat)
    ensures And(x, Pow2(k)) == if Shr(x, k) % 2 == 1 then Pow2(k) else 0
  {
    if k == 0 {
      AndLowMask(x, 1);
    } else {
      AndBit(x / 2, k - 1);
    }
  }

  /** Or-ing in a bit above all bits of `e` adds it. */
  lemma AddBit(e: nat, f: nat, k: nat)
    requires f == Pow2(k) && e < f
    ensures Or(e, f) == e + f
  {
    AndBit(e, k);
    ShrDivides(e, k);
    DivModUnique(e, f, 0, e);
  }

  /** Remainders of numbers within two periods of zero. */
  lemma ModOnce(x: int, d: int)
    requires d > 0 && -d <= x < 2 * d
    ensures x % d == if x < 0 then x + d else if x < d then x else x - d
  {
    if x < 0 {
      DivModUnique(x, d, -1, x + d);
    } else if x < d {
      DivModUnique(x, d, 0, x);
    } else {
      DivModUnique(x, d, 1, x - d);
    }
  }

  lemma WrapOnce(x: int)
    requires -0x1_0000_0000 <= x < 0x2_0000_0000
    ensures Wrap(x) == if x < 0 then x + 0x1_0000_0000 else if x < 0x1_0000_0000 then x else x - 0x1_0000_0000
  {
    ModOnce(x, 0x1_0000_0000);
  }

  /** A remainder of a sum, from the remainder of one term. */
  lemma ModAdd(x: int, y: int, d: int)
    requires d > 0
    ensures (x + y) % d == (x + y % d) % d
  {
    var z := x + y % d;
    DivModUnique(x + y, d, y / d + z / d, z % d);
  }

  /** Quotient and remainder of a sum, from those of one term. */
  lemma DivAdd(x: int, k: int, d: int)
    requires d > 0
    ensures (x + k) / d == x / d + (x % d + k) / d && (x + k) % d == (x % d + k) % d
  {
    var z := x % d + k;
    DivModUnique(x + k, d, x / d + z / d, z % d);
  }

  /** The four bytes of a word. */
  lemma FourBytes(v: Word)
    ensures v / 0x1_0000 == v / 0x100 / 0x100 && v / 0x100_0000 == v / 0x100 / 0x100 / 0x100
    ensures v == v % 0x100 + 0x100 * (v / 0x100 % 0x100) + 0x1_0000 * (v / 0x1_0000 % 0x100)
                 + 0x100_0000 * (v / 0x100_0000)
  {
    var a := v / 0x100;
    var b := a / 0x100;
    var c := b / 0x100;
    DivModUnique(v, 0x1_0000, b, 0x100 * (a % 0x100) + v % 0x100);
    DivModUnique(v, 0x100_0000, c, 0x1_0000 * (b % 0x100) + 0x100 * (a % 0x100) + v % 0x100);
  }
}
