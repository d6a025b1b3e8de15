/** What allocation leaves alone: the bytes outside the entry table and outside free
    blocks.  Everything later layers keep in the heap is framed with these. */
module HeapFrames {
  import opened Bits
  import opened Memory
  import opened HeapTable
  import opened Heap
  import opened HeapSafety

  predicate InBlock(h: HeapDesc, b: nat, a: Word) {
    4096 * (h.page + b) <= a < 4096 * (h.page + b) + 4096
  }

  /** Byte `a` is neither part of the entry table nor of a free block. */
  ghost predicate Stable(m: Mem, h: HeapDesc, a: Word)
    requires h.Valid()
  {
    !InTable(h, a) && forall b: nat | b < h.total && InBlock(h, b, a) :: !IsFree(TableOf(m, h)[b])
  }

  /** Stable bytes keep their value and stay stable. */
  ghost predicate Kept(m: Mem, r: Mem, h: HeapDesc)
    requires h.Valid()
  {
    forall a: Word | Stable(m, h, a) :: r[a] == m[a] && Stable(r, h, a)
  }

  lemma KeptTransitive(m: Mem, r: Mem, s: Mem, h: HeapDesc)
    requires h.Valid() && Kept(m, r, h) && Kept(r, s, h)
    ensures Kept(m, s, h)
  {
  }

  /** Every byte of a live allocation is stable. */
  lemma LiveStable(m: Mem, h: HeapDesc, b: nat, k: nat, a: Word)
    requires HeapOk(m, h) && b in Live(m, h) && b <= k < b + Live(m, h)[b] && InBlock(h, k, a)
    ensures k < h.total && Stable(m, h, a)
  {
    AllocEntries(TableOf(m, h), b);
  }

  /** A write outside the entry table keeps the heap. */
  lemma HeapUntouched(m: Mem, r: Mem, h: HeapDesc)
    requires HeapOk(m, h) && forall a: Word | InTable(h, a) :: r[a] == m[a]
    ensures TableOf(r, h) == TableOf(m, h) && HeapOk(r, h) && Live(r, h) == Live(m, h)
    ensures forall a: Word :: Stable(r, h, a) <==> Stable(m, h, a)
  {
  }

  // ------------------------------------------------------------------
  // Counting free blocks.
  // ------------------------------------------------------------------

  function FreeCount(t: Table): int {
    |t| - TakenFrom(t, 0)
  }

  lemma {:induction false} SomeFree(t: Table, i: nat) returns (k: nat)
    requires i <= |t| && TakenFrom(t, i) < |t| - i
    ensures i <= k < |t| && IsFree(t[k])
    decreases |t| - i
  {
    if IsFree(t[i]) {
      k := i;
    } else {
      k := SomeFree(t, i + 1);
    }
  }

  lemma {:induction false} TakenBound(t: Table, i: nat)
    requires i <= |t|
    ensures TakenFrom(t, i) <= |t| - i
    ensures TakenFrom(t, i) == |t| - i ==> forall k | i <= k < |t| :: !IsFree(t[k])
    decreases |t| - i
  {
    if i < |t| {
      TakenBound(t, i + 1);
    }
  }

  lemma {:induction false} MarkedTaken(t: Table, s: nat, n: nat, i: nat)
    requires Window(t, s, n) && i <= |t|
    ensures TakenFrom(Marked(t, s, n), i) ==
            TakenFrom(t, i) + (if i <= s then n else if i < s + n then s + n - i else 0)
    decreases |t| - i
  {
    if i < |t| {
      MarkedTaken(t, s, n, i + 1);
    }
  }

  // ------------------------------------------------------------------
  // kzalloc.
  // ------------------------------------------------------------------

  /** `r` and `p` are what kzalloc of `size` bytes in `n` blocks from block `b` gives. */
  ghost predicate Zalloced(m: Mem, h: HeapDesc, size: Word, r: Mem, p: Word, b: nat, n: nat) {
    && HeapOk(m, h) && HeapOk(r, h)
    && BlockAt(h, p, b) && p > 0 && b + n <= h.total
    && Window(TableOf(m, h), b, n)
    && b !in Live(m, h) && Live(r, h) == Live(m, h)[b := n]
    && TableOf(r, h) == Marked(TableOf(m, h), b, n)
    && size <= 4096 * n
    && (forall a: Word | p <= a < p + size :: r[a] == 0)
    && (forall a: Word | !InTable(h, a) && !(p <= a < p + size) :: r[a] == m[a])
    && Kept(m, r, h)
    && FreeCount(TableOf(r, h)) == FreeCount(TableOf(m, h)) - n
  }

  lemma ZallocKeeps(m: Mem, r: Mem, h: HeapDesc, size: Word, p: Word, b: nat, n: nat)
    requires h.Valid() && b + n <= h.total && Window(TableOf(m, h), b, n) && size <= 4096 * n && BlockAt(h, p, b)
    requires TableOf(r, h) == Marked(TableOf(m, h), b, n)
    requires forall a: Word | !InTable(h, a) && !(p <= a < p + size) :: r[a] == m[a]
    ensures Kept(m, r, h)
  {
    forall a: Word | Stable(m, h, a)
      ensures r[a] == m[a] && Stable(r, h, a)
    {
      if p <= a < p + size {
        var k := a / 4096 - h.page;
        assert InBlock(h, k, a);
      }
    }
  }

  lemma ZallocFits(m: Mem, h: HeapDesc, size: Word, s: nat)
    requires HeapOk(m, h) && 0 < size <= 0xFFFF_F000 && Window(TableOf(m, h), s, Blocks(size))
    ensures var (r, p) := Kzalloc(m, h, size);
            var b := FirstWindow(TableOf(m, h), Blocks(size), 0);
            0 <= b <= s && Zalloced(m, h, size, r, p, b, Blocks(size))
  {
    var n := Blocks(size);
    BlocksRoundsUp(size);
    MallocFits(m, h, n, s);
    var (r0, p) := MallocBlocks(m, h, n);
    var b := FirstWindow(TableOf(m, h), n, 0);
    var r := Zeroed(r0, p, size);
    ZeroedPlain(r0, p, size);
    HeapUntouched(r0, r, h);
    MarkedTaken(TableOf(m, h), b, n, 0);
    ZallocKeeps(m, r, h, size, p, b, n);
  }

  /** One block is always found while any block is free. */
  lemma ZallocOne(m: Mem, h: HeapDesc, size: Word) returns (b: nat)
    requires HeapOk(m, h) && 0 < size <= 4096 && FreeCount(TableOf(m, h)) > 0
    ensures var (r, p) := Kzalloc(m, h, size);
            Zalloced(m, h, size, r, p, b, 1)
  {
    var k := SomeFree(TableOf(m, h), 0);
    BlocksRoundsUp(size);
    assert Blocks(size) == 1;
    assert Window(TableOf(m, h), k, 1);
    ZallocFits(m, h, size, k);
    b := FirstWindow(TableOf(m, h), 1, 0);
  }

  /** With no block free, kzalloc of any size gives NULL and changes nothing. */
  lemma ZallocNone(m: Mem, h: HeapDesc, size: Word)
    requires HeapOk(m, h) && FreeCount(TableOf(m, h)) == 0
    ensures Kzalloc(m, h, size) == (m, 0)
  {
    var t := TableOf(m, h);
    TakenBound(t, 0);
    forall s: nat
      ensures Blocks(size) > 0 ==> !Window(t, s, Blocks(size))
    {
      assert s < |t| ==> !IsFree(t[s]);
    }
    MallocRefuses(m, h, Blocks(size));
  }

  // ------------------------------------------------------------------
  // A heap just created.
  // ------------------------------------------------------------------

  lemma {:induction false} NoneTaken(t: Table, i: nat)
    requires i <= |t| && Window(t, 0, |t|)
    ensures TakenFrom(t, i) == 0
    decreases |t| - i
  {
    if i < |t| {
      NoneTaken(t, i + 1);
    }
  }

  /** All of its blocks are free. */
  lemma CreatedAllFree(m: Mem, h: HeapDesc)
    requires h.Valid()
    ensures var r := Zeroed(m, h.table, h.total);
            HeapOk(r, h) && Window(TableOf(r, h), 0, h.total) && FreeCount(TableOf(r, h)) == h.total
  {
    CreatedOwnsNothing(m, h);
    NoneTaken(TableOf(Zeroed(m, h.table, h.total), h), 0);
  }

  /** Every block from `k` on is free. */
  ghost predicate FreeFrom(t: Table, k: nat) {
    forall i | k <= i < |t| :: IsFree(t[i])
  }

  lemma {:induction false} TakenBelow(t: Table, k: nat, i: nat)
    requires i <= |t| && FreeFrom(t, k)
    ensures TakenFrom(t, i) <= if i < k then k - i else 0
    decreases |t| - i
  {
    if i < |t| {
      TakenBelow(t, k, i + 1);
    }
  }

  lemma FreeFromCount(t: Table, k: nat)
    requires FreeFrom(t, k)
    ensures FreeCount(t) >= |t| - k
  {
    TakenBelow(t, k, 0);
  }

  /** First fit takes no block past the first `n` of those. */
  lemma FreeFromZalloc(m: Mem, h: HeapDesc, size: Word, k: nat)
    requires HeapOk(m, h) && 0 < size <= 0xFFFF_F000 && FreeFrom(TableOf(m, h), k) && k + Blocks(size) <= h.total
    ensures var (r, p) := Kzalloc(m, h, size);
            && FreeFrom(TableOf(r, h), k + Blocks(size)) && p <= 4096 * (h.page + k)
  {
    hide Kzalloc, FreeCount, Kept, WellFormed, Live;
    assert Window(TableOf(m, h), k, Blocks(size));
    ZallocFits(m, h, size, k);
  }
}
