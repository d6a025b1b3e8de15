/** The machine's 4 GiB of byte-addressed physical memory.  The kernel runs with a
    one-to-one mapping, so a kernel pointer is an index into it. */
module Memory {
  import opened Bits

  type Mem = m: seq<Byte> | |m| == 0x1_0000_0000 witness seq(0x1_0000_0000, _ => 0)

  /** The little-endian 32-bit word number `w`, at byte address 4 * w. */
  function WordAt(m: Mem, w: nat): Word
    requires w < 0x4000_0000
  {
    (m[4 * w] as int) + 0x100 * (m[4 * w + 1] as int) + 0x1_0000 * (m[4 * w + 2] as int)
    + 0x100_0000 * (m[4 * w + 3] as int)
  }

  function SetWord(m: Mem, w: nat, v: Word): (r: Mem)
    requires w < 0x4000_0000
    ensures WordAt(r, w) == v
    ensures forall u: nat | u < 0x4000_0000 && u != w :: WordAt(r, u) == WordAt(m, u)
    ensures forall i: Word | !(4 * w <= i < 4 * w + 4) :: r[i] == m[i]
  {
    LittleEndian(v);
    PutBytes(m, 4 * w, v % 0x100, v / 0x100 % 0x100, v / 0x1_0000 % 0x100, v / 0x100_0000)
  }

  function PutBytes(m: Mem, a: Word, b0: Byte, b1: Byte, b2: Byte, b3: Byte): (r: Mem)
    requires a + 4 <= 0x1_0000_0000
    ensures r[a] == b0 && r[a + 1] == b1 && r[a + 2] == b2 && r[a + 3] == b3
    ensures forall i: Word | !(a <= i < a + 4) :: r[i] == m[i]
  {
    m[a := b0][a + 1 := b1][a + 2 := b2][a + 3 := b3]
  }

  lemma LittleEndian(v: Word)
    ensures v == v % 0x100 + 0x100 * (v / 0x100 % 0x100) + 0x1_0000 * (v / 0x1_0000 % 0x100)
                 + 0x100_0000 * (v / 0x100_0000)
  {
    FourBytes(v);
  }

  /** `memset(a, 0, n)`: the n bytes from `a` on, wrapping at 4 GiB. */
  function Zeroed(m: Mem, a: Word, n: Word): (r: Mem)
    ensures forall i: Word :: r[i] == if Wrap(i - a) < n then 0 else m[i]
  {
    seq(0x1_0000_0000, i requires 0 <= i < 0x1_0000_0000 => if Wrap(i - a) < n then 0 else m[i])
  }

  lemma ZeroedStep(m: Mem, a: Word, i: Word)
    requires i + 1 < 0x1_0000_0000
    ensures Zeroed(m, a, i)[Wrap(a + i) := 0] == Zeroed(m, a, i + 1)
  {
    var r, s := Zeroed(m, a, i)[Wrap(a + i) := 0], Zeroed(m, a, i + 1);
    forall k: Word
      ensures r[k] == s[k]
    {
      assert Wrap(k - a) == i <==> k == Wrap(a + i);
    }
  }

  /** Two memories agree on the bytes lo .. hi-1. */
  ghost predicate Agree(m: Mem, r: Mem, lo: int, hi: int) {
    forall a: Word | lo <= a < hi :: r[a] == m[a]
  }

  lemma WordAgree(m: Mem, r: Mem, w: nat)
    requires w < 0x4000_0000 && Agree(m, r, 4 * w, 4 * w + 4)
    ensures WordAt(r, w) == WordAt(m, w)
  {
  }

  lemma ZeroedPlain(m: Mem, a: Word, n: Word)
    requires a + n <= 0x1_0000_0000
    ensures forall i: Word :: Zeroed(m, a, n)[i] == if a <= i < a + n then 0 else m[i]
  {
    forall i: Word
      ensures Zeroed(m, a, n)[i] == if a <= i < a + n then 0 else m[i]
    {
      assert Wrap(i - a) == if i >= a then i - a else i - a + 0x1_0000_0000;
    }
  }

  class Ram {
    const bytes: array<Byte>

    ghost predicate Valid() {
      bytes.Length == 0x1_0000_0000
    }

    ghost function View(): Mem
      requires Valid()
      reads bytes
    {
      bytes[..]
    }

    method Load(a: Word) returns (b: Byte)
      requires Valid()
      ensures b == View()[a]
    {
      b := bytes[a];
    }

    method Store(a: Word, b: Byte)
      requires Valid()
      modifies bytes
      ensures View() == old(View())[a := b]
    {
      bytes[a] := b;
    }

    method LoadWord(a: Word) returns (w: Word)
      requires Valid() && a % 4 == 0
      ensures w == WordAt(View(), a / 4)
    {
      w := (bytes[a] as int) + 0x100 * (bytes[a + 1] as int) + 0x1_0000 * (bytes[a + 2] as int)
           + 0x100_0000 * (bytes[a + 3] as int);
    }

    method StoreWord(a: Word, v: Word)
      requires Valid() && a % 4 == 0
      modifies bytes
      ensures View() == SetWord(old(View()), a / 4, v)
    {
      Store(a, v % 0x100);
      Store(a + 1, v / 0x100 % 0x100);
      Store(a + 2, v / 0x1_0000 % 0x100);
      Store(a + 3, v / 0x100_0000);
    }

    /** `memset` with a zero byte. */
    method Zero(a: Word, n: Word)
      requires Valid()
      modifies bytes
      ensures View() == Zeroed(old(View()), a, n)
    {
      ghost var m := View();
      var i := 0;
      while i < n
        invariant 0 <= i <= n
        invariant View() == Zeroed(m, a, i)
      {
        Store(Wrap(a + i), 0);
        ZeroedStep(m, a, i);
        i := i + 1;
      }
    }
  }
}
