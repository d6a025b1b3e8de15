/** The heap's entry table: one byte per 4096-byte block, with an entry type in
    the low four bits and the flags IS_FIRST and HAS_NEXT.  The abstract value of
    a well-formed table is a map from the first block of each live allocation to
    its number of blocks. */
module HeapTable {
  import opened Bits

  type Table = seq<Byte>

  const FREE: Byte := 0x00
  const TAKEN: Byte := 0x01
  const IS_FIRST: Byte := 0x40
  const HAS_NEXT: Byte := 0x80
  const ENOMEM: int := 3

  predicate IsFree(e: Byte) {
    e % 16 == 0
  }

  predicate IsFirst(e: Byte) {
    e / 64 % 2 == 1
  }

  predicate HasNext(e: Byte) {
    e >= 128
  }

  /** The flag tests above are the C expressions on the entry. */
  lemma EntryBits(e: Byte)
    ensures And(e, 0x0f) == 0 <==> IsFree(e)
    ensures And(e, HAS_NEXT) != 0 <==> HasNext(e)
  {
    assert Pow2(4) == 16;
    AndLowMask(e, 4);
    assert Pow2(7) == 128;
    AndBit(e, 7);
    ShrDivides(e, 7);
  }

  /** A taken entry that is not the first of its allocation. */
  predicate Continues(e: Byte) {
    e == 0x01 || e == 0x81
  }

  predicate Known(e: Byte) {
    e == 0x00 || e == 0x41 || e == 0xC1 || Continues(e)
  }

  predicate EntryOk(t: Table, i: nat)
    requires i < |t|
  {
    && Known(t[i])
    && (HasNext(t[i]) ==> i + 1 < |t| && Continues(t[i + 1]))
    && (Continues(t[i]) ==> i > 0 && HasNext(t[i - 1]))
  }

  ghost predicate WellFormed(t: Table) {
    forall i: nat | i < |t| :: EntryOk(t, i)
  }

  /** Blocks from `i` to the end of the chain of HAS_NEXT flags starting there. */
  function RunLen(t: Table, i: nat): (n: nat)
    requires i < |t|
    ensures 1 <= n <= |t| - i
    decreases |t| - i
  {
    if HasNext(t[i]) && i + 1 < |t| then 1 + RunLen(t, i + 1) else 1
  }

  /** First block of each live allocation, with its number of blocks. */
  ghost function Allocs(t: Table): map<nat, nat> {
    map s: nat | s < |t| && IsFirst(t[s]) :: RunLen(t, s)
  }

  /** The HAS_NEXT chain starting at `s` has exactly `n` blocks. */
  ghost predicate Chain(t: Table, s: nat, n: nat) {
    && 1 <= n && s + n <= |t|
    && (forall k | s <= k < s + n - 1 :: HasNext(t[k]))
    && !HasNext(t[s + n - 1])
  }

  lemma {:induction false} ChainLen(t: Table, s: nat, n: nat)
    requires Chain(t, s, n)
    ensures RunLen(t, s) == n
    decreases n
  {
    if n > 1 {
      ChainLen(t, s + 1, n - 1);
    }
  }

  lemma {:induction false} RunChain(t: Table, s: nat)
    requires WellFormed(t) && s < |t|
    ensures Chain(t, s, RunLen(t, s))
    ensures forall k | s < k < s + RunLen(t, s) :: Continues(t[k])
    decreases |t| - s
  {
    assert EntryOk(t, s);
    if HasNext(t[s]) {
      RunChain(t, s + 1);
    }
  }

  /** A table that agrees with `t` on an allocation gives it the same length. */
  lemma RunKept(t: Table, r: Table, s: nat)
    requires WellFormed(t) && s < |t| == |r|
    requires forall k | s <= k < s + RunLen(t, s) :: r[k] == t[k]
    ensures RunLen(r, s) == RunLen(t, s)
  {
    RunChain(t, s);
    ChainLen(r, s, RunLen(t, s));
  }

  /** The entry `heap_mark_blocks_taken` gives block `k` of an allocation of `n`. */
  function Entry(k: nat, n: nat): Byte
    requires k < n
  {
    if k == 0 then (if n > 1 then 0xC1 else 0x41)
    else if k == n - 1 then 0x01 else 0x81
  }

  function MarkedAt(t: Table, s: nat, n: nat, i: nat): Byte
    requires i < |t|
  {
    if s <= i < s + n then Entry(i - s, n) else t[i]
  }

  function Marked(t: Table, s: nat, n: nat): (r: Table)
    ensures |r| == |t|
    ensures forall i | 0 <= i < |t| :: r[i] == if s <= i < s + n then Entry(i - s, n) else t[i]
  {
    seq(|t|, i requires 0 <= i < |t| => MarkedAt(t, s, n, i))
  }

  function Cleared(t: Table, s: nat, n: nat): (r: Table)
    ensures |r| == |t|
    ensures forall i | 0 <= i < |t| :: r[i] == if s <= i < s + n then FREE else t[i]
  {
    seq(|t|, i requires 0 <= i < |t| => if s <= i < s + n then FREE else t[i])
  }

  /** `n` consecutive free blocks start at `s`. */
  ghost predicate Window(t: Table, s: nat, n: nat) {
    s + n <= |t| && forall k | s <= k < s + n :: IsFree(t[k])
  }

  // ------------------------------------------------------------------
  // Live allocations partition the taken blocks.
  // ------------------------------------------------------------------

  /** Every entry of a live allocation is determined by its position in it. */
  lemma AllocEntries(t: Table, s: nat)
    requires WellFormed(t) && s in Allocs(t)
    ensures s + Allocs(t)[s] <= |t|
    ensures forall i | s <= i < s + Allocs(t)[s] :: t[i] == Entry(i - s, Allocs(t)[s])
  {
    RunChain(t, s);
    assert EntryOk(t, s);
  }

  lemma AllocsDisjoint(t: Table, s: nat, u: nat)
    requires WellFormed(t) && s in Allocs(t) && u in Allocs(t) && s < u
    ensures s + Allocs(t)[s] <= u
  {
    RunChain(t, s);
  }

  /** The allocation a taken block belongs to. */
  lemma {:induction false} Owner(t: Table, i: nat) returns (s: nat)
    requires WellFormed(t) && i < |t| && !IsFree(t[i])
    ensures s in Allocs(t) && s <= i < s + Allocs(t)[s]
    decreases i
  {
    assert EntryOk(t, i);
    if IsFirst(t[i]) {
      s := i;
    } else {
      assert EntryOk(t, i - 1);
      s := Owner(t, i - 1);
      RunChain(t, s);
    }
  }

  /** A well-formed table is determined by its live allocations. */
  lemma TableFromAllocs(t: Table, u: Table)
    requires WellFormed(t) && WellFormed(u) && |t| == |u| && Allocs(t) == Allocs(u)
    ensures t == u
  {
    forall i | 0 <= i < |t|
      ensures t[i] == u[i]
    {
      assert EntryOk(t, i) && EntryOk(u, i);
      if !IsFree(t[i]) {
        var s := Owner(t, i);
        AllocEntries(t, s);
        AllocEntries(u, s);
      } else if !IsFree(u[i]) {
        var s := Owner(u, i);
        AllocEntries(t, s);
      }
    }
  }

  // ------------------------------------------------------------------
  // Marking a free window and clearing a live allocation.
  // ------------------------------------------------------------------

  lemma MarkedWellFormed(t: Table, s: nat, n: nat)
    requires WellFormed(t) && n >= 1 && Window(t, s, n)
    ensures WellFormed(Marked(t, s, n))
  {
    var r := Marked(t, s, n);
    forall i: nat | i < |r|
      ensures EntryOk(r, i)
    {
      assert EntryOk(t, i);
      if i + 1 < |t| { assert EntryOk(t, i + 1); }
      if i > 0 { assert EntryOk(t, i - 1); }
    }
  }

  lemma MarkedOther(t: Table, s: nat, n: nat, i: nat)
    requires WellFormed(t) && n >= 1 && Window(t, s, n) && i < |t| && i != s
    ensures IsFirst(Marked(t, s, n)[i]) <==> IsFirst(t[i])
    ensures IsFirst(t[i]) ==> RunLen(Marked(t, s, n), i) == RunLen(t, i)
  {
    assert EntryOk(t, i);
    if IsFirst(t[i]) {
      AllocEntries(t, i);
      RunKept(t, Marked(t, s, n), i);
    }
  }

  lemma MarkedAllocs(t: Table, s: nat, n: nat)
    requires WellFormed(t) && n >= 1 && Window(t, s, n)
    ensures WellFormed(Marked(t, s, n))
    ensures Allocs(Marked(t, s, n)) == Allocs(t)[s := n]
    ensures s !in Allocs(t)
  {
    MarkedWellFormed(t, s, n);
    assert EntryOk(t, s);
    ChainLen(Marked(t, s, n), s, n);
    forall i: nat | i < |t| && i != s
      ensures IsFirst(Marked(t, s, n)[i]) <==> IsFirst(t[i])
      ensures IsFirst(t[i]) ==> RunLen(Marked(t, s, n), i) == RunLen(t, i)
    {
      MarkedOther(t, s, n, i);
    }
  }

  lemma ClearedWellFormed(t: Table, s: nat)
    requires WellFormed(t) && s in Allocs(t)
    ensures WellFormed(Cleared(t, s, Allocs(t)[s]))
  {
    var n := Allocs(t)[s];
    var r := Cleared(t, s, n);
    AllocEntries(t, s);
    forall i: nat | i < |r|
      ensures EntryOk(r, i)
    {
      assert EntryOk(t, i);
      if i + 1 < |t| { assert EntryOk(t, i + 1); }
      if i > 0 { assert EntryOk(t, i - 1); }
    }
  }

  lemma ClearedAllocs(t: Table, s: nat)
    requires WellFormed(t) && s in Allocs(t)
    ensures WellFormed(Cleared(t, s, Allocs(t)[s]))
    ensures Allocs(Cleared(t, s, Allocs(t)[s])) == Allocs(t) - {s}
  {
    ClearedWellFormed(t, s);
    var n := Allocs(t)[s];
    var r := Cleared(t, s, n);
    AllocEntries(t, s);
    forall i: nat | i < |t| && i != s
      ensures IsFirst(r[i]) <==> IsFirst(t[i])
      ensures IsFirst(t[i]) ==> RunLen(r, i) == RunLen(t, i)
    {
      if IsFirst(t[i]) {
        if i < s { AllocsDisjoint(t, i, s); } else { AllocsDisjoint(t, s, i); }
        RunKept(t, r, i);
      }
    }
  }

  /** Freeing what was just allocated restores the table byte for byte. */
  lemma ClearMarked(t: Table, s: nat, n: nat)
    requires WellFormed(t) && n >= 1 && Window(t, s, n)
    ensures s in Allocs(Marked(t, s, n)) && Allocs(Marked(t, s, n))[s] == n
    ensures Cleared(Marked(t, s, n), s, n) == t
  {
    MarkedAllocs(t, s, n);
    forall i | 0 <= i < |t|
      ensures Cleared(Marked(t, s, n), s, n)[i] == t[i]
    {
      assert EntryOk(t, i);
    }
  }

  // ------------------------------------------------------------------
  // Conservation: taken blocks are the sum of the live allocation lengths.
  // ------------------------------------------------------------------

  function TakenFrom(t: Table, i: nat): nat
    requires i <= |t|
    decreases |t| - i
  {
    if i == |t| then 0 else (if IsFree(t[i]) then 0 else 1) + TakenFrom(t, i + 1)
  }

  /** Sum of the lengths of the allocations that start at or after block `i`. */
  ghost function LengthsFrom(t: Table, i: nat): nat
    requires i <= |t|
    decreases |t| - i
  {
    if i == |t| then 0
    else (if i in Allocs(t) then Allocs(t)[i] else 0) + LengthsFrom(t, i + 1)
  }

  lemma {:induction false} TakenIsSumOfLengths(t: Table, i: nat)
    requires WellFormed(t) && i <= |t|
    ensures TakenFrom(t, i) == LengthsFrom(t, i)
                               + (if i < |t| && Continues(t[i]) then RunLen(t, i) else 0)
    decreases |t| - i
  {
    if i < |t| {
      TakenIsSumOfLengths(t, i + 1);
      assert EntryOk(t, i);
      if i + 1 < |t| { assert EntryOk(t, i + 1); }
    }
  }

  // ------------------------------------------------------------------
  // First fit.
  // ------------------------------------------------------------------

  /** The least start at or after `s` of `n` consecutive free blocks, or -1. */
  ghost function FirstWindow(t: Table, n: nat, s: nat): (r: int)
    ensures r == -1 || (s <= r && Window(t, r, n))
    ensures forall k: nat | s <= k && (r == -1 || k < r) :: !Window(t, k, n)
    decreases |t| - s
  {
    if s + n > |t| then -1
    else if Window(t, s, n) then s
    else if s == |t| then -1
    else FirstWindow(t, n, s + 1)
  }

  /** Where the run of free blocks at the end of the table starts. */
  ghost function TailStart(t: Table): (r: nat)
    ensures r <= |t|
    ensures forall i | r <= i < |t| :: IsFree(t[i])
    ensures r > 0 ==> !IsFree(t[r - 1])
  {
    if t == [] || !IsFree(t[|t| - 1]) then |t| else TailStart(t[..|t| - 1])
  }

  /** What `heap_get_start_block_index` returns: a fitting window if there is one,
      and otherwise the start of the trailing free run however short it is. */
  ghost function ScanResult(t: Table, n: nat): int {
    if n >= 1 && FirstWindow(t, n, 0) >= 0 then FirstWindow(t, n, 0)
    else if TailStart(t) < |t| then TailStart(t)
    else -ENOMEM
  }

  lemma ScanFound(t: Table, n: nat, s: nat)
    requires n >= 1 && Window(t, s, n) && forall k: nat | k < s :: !Window(t, k, n)
    ensures ScanResult(t, n) == s
  {
  }

  /** Before block `i`, with `bc` free blocks just behind and nothing found yet. */
  ghost predicate Scanning(t: Table, n: nat, i: nat, bc: nat) {
    && bc <= i <= |t|
    && (forall k | i - bc <= k < i :: IsFree(t[k]))
    && (i - bc > 0 ==> !IsFree(t[i - bc - 1]))
    && (n >= 1 ==> bc < n && forall s: nat | s + n <= i :: !Window(t, s, n))
  }

  lemma ScanStart(t: Table, n: nat)
    ensures Scanning(t, n, 0, 0)
  {
  }

  lemma ScanStep(t: Table, n: nat, i: nat, bc: nat)
    requires Scanning(t, n, i, bc) && i < |t|
    ensures !IsFree(t[i]) ==> Scanning(t, n, i + 1, 0)
    ensures IsFree(t[i]) && bc + 1 != n ==> Scanning(t, n, i + 1, bc + 1)
    ensures IsFree(t[i]) && bc + 1 == n ==> ScanResult(t, n) == i - bc
  {
    if IsFree(t[i]) && bc + 1 == n {
      ScanFound(t, n, i - bc);
    }
  }

  lemma ScanTail(t: Table, n: nat, bc: nat)
    requires Scanning(t, n, |t|, bc)
    ensures ScanResult(t, n) == if bc > 0 then |t| - bc else -3
  {
    var r := FirstWindow(t, n, 0);
    assert n >= 1 ==> r == -1;
    var u := TailStart(t);
    assert u == |t| - bc;
  }
}
