/** When a user's malloc keeps heap, page tables and slots in step: the exact condition,
    for requests of every size, on the state before the call. */
module UserHeapExact {
  import opened Bits
  import opened Memory
  import opened HeapTable
  import H = Heap
  import opened HeapSafety
  import opened HeapFrames
  import opened Paging
  import opened PageTables
  import opened UserHeap

  // ------------------------------------------------------------------
  // A request that does not fit while the last block is free.
  // ------------------------------------------------------------------

  ghost predicate Unfit(h: HeapDesc, m: Mem, size: Word)
    requires h.Valid()
  {
    H.Blocks(size) > 0 && !MallocSafe(H.TableOf(m, h), H.Blocks(size))
  }

  /** The entries of an allocation of `n` blocks that runs over the end of the table still
      lie below the heap's data. */
  predicate MarksBelow(h: HeapDesc, n: nat) {
    h.table + h.total + n <= 4096 * h.page
  }

  /** The first page of the free blocks at the end of the heap. */
  ghost function TailPage(h: HeapDesc, m: Mem): (f: Page)
    requires h.Valid()
  {
    h.page + TailStart(H.TableOf(m, h))
  }

  /** Where the bytes cleared for such a request end, before any wrap. */
  ghost function ClearEnd(h: HeapDesc, m: Mem, size: Word): nat
    requires h.Valid()
  {
    4096 * (TailPage(h, m) as int) + size
  }

  /** How many entries of the heap's table are cleared when the clearing wraps at 4 GiB. */
  ghost function LostEntries(h: HeapDesc, m: Mem, size: Word): nat
    requires h.Valid()
  {
    var reach := ClearEnd(h, m, size) - 0x1_0000_0000 - h.table;
    if reach > 0 then reach else 0
  }

  /** What kzalloc leaves of memory: entries marked past the end of the table, and the
      requested bytes cleared past the end of the heap. */
  ghost function Overrun(h: HeapDesc, m: Mem, size: Word): Mem
    requires h.Valid()
  {
    var n := H.Blocks(size);
    Zeroed(H.MarkedMem(m, h, TailStart(H.TableOf(m, h)), n, n), 4096 * TailPage(h, m), size)
  }

  lemma UnfitFacts(h: HeapDesc, m: Mem, size: Word)
    requires h.Valid() && Unfit(h, m, size)
    ensures var s := TailStart(H.TableOf(m, h));
            s < h.total && s + H.Blocks(size) > h.total && 0 < size <= 0xFFFF_F000 && H.Blocks(size) >= 2
    ensures H.Kzalloc(m, h, size) == (Overrun(h, m, size), 4096 * TailPage(h, m))
  {
    hide Zeroed, H.MarkedMem, Window;
    H.BlocksRoundsUp(size);
    var t, n := H.TableOf(m, h), H.Blocks(size);
    UnfitTail(t, n);
  }

  lemma UnfitTail(t: Table, n: nat)
    requires n > 0 && !MallocSafe(t, n)
    ensures TailStart(t) < |t| && TailStart(t) + n > |t| && FirstWindow(t, n, 0) == -1 && n >= 2
  {
    var s := TailStart(t);
    assert !Window(t, s, n);
  }

  /** A byte below the heap's free tail: marked, cleared by the wrap, or as it was. */
  lemma OverrunByte(h: HeapDesc, m: Mem, size: Word, a: Word)
    requires h.Valid() && Unfit(h, m, size) && MarksBelow(h, H.Blocks(size)) && a < 4096 * TailPage(h, m)
    ensures var s, n := TailStart(H.TableOf(m, h)), H.Blocks(size);
            Overrun(h, m, size)[a] ==
              if a < ClearEnd(h, m, size) - 0x1_0000_0000 then 0
              else if h.table + s <= a < h.table + s + n then Entry(a - h.table - s, n) else m[a]
  {
    hide Wrap, TailStart, Unfit, H.Blocks;
    UnfitFacts(h, m, size);
    var s: nat := TailStart(H.TableOf(m, h));
    WrapOnce(a - 4096 * (TailPage(h, m) as int));
    WrapOnce(a - (h.table + s));
  }

  // ------------------------------------------------------------------
  // Giving such a block back.
  // ------------------------------------------------------------------

  /** Entries from `i` on that all have HAS_NEXT are cleared to the end of the table. */
  lemma {:induction false} FreedToEnd(m: Mem, h: HeapDesc, i: nat)
    requires h.Valid() && i <= h.total && forall a: Word | h.table + i <= a < h.table + h.total :: HasNext(m[a])
    ensures forall a: Word :: H.FreedMem(m, h, i)[a] == if h.table + i <= a < h.table + h.total then FREE else m[a]
    decreases h.total - i
  {
    hide H.FreedMem, HasNext;
    if i == h.total {
      FreedNothing(m, h);
    } else {
      var x: Word := h.table + i;
      FreedUnfold(m, h, i);
      assert H.TableOf(m, h)[i] == m[x];
      FreedToEnd(m[x := FREE], h, i + 1);
    }
  }

  lemma FreedNothing(m: Mem, h: HeapDesc)
    ensures H.FreedMem(m, h, h.total) == m
  {
  }

  ghost function GivenUp(h: HeapDesc, m: Mem, size: Word): Mem
    requires h.Valid()
  {
    H.Kfree(Overrun(h, m, size), h, 4096 * TailPage(h, m))
  }

  lemma FreedFrom(h: HeapDesc, m: Mem, size: Word)
    requires h.Valid() && Unfit(h, m, size)
    ensures GivenUp(h, m, size) == H.FreedMem(Overrun(h, m, size), h, TailStart(H.TableOf(m, h)))
  {
    hide Overrun, H.FreedMem, Unfit;
    UnfitFacts(h, m, size);
    BlockAddress(h, TailStart(H.TableOf(m, h)));
  }

  /** While the wrap spares the tail's entries, exactly the table's first entries are lost. */
  lemma GivenUpTable(h: HeapDesc, m: Mem, size: Word)
    requires H.HeapOk(m, h) && Unfit(h, m, size) && MarksBelow(h, H.Blocks(size))
    requires LostEntries(h, m, size) <= TailStart(H.TableOf(m, h))
    ensures H.TableOf(GivenUp(h, m, size), h) == Cleared(H.TableOf(m, h), 0, LostEntries(h, m, size))
    ensures forall a: Word | 4096 * h.page <= a < 4096 * TailPage(h, m) :: GivenUp(h, m, size)[a] == m[a]
  {
    hide Overrun, H.FreedMem, Unfit, TailStart, H.Blocks, WellFormed, GivenUp, Cleared, H.TableOf;
    UnfitFacts(h, m, size);
    var t, s, n, r := H.TableOf(m, h), TailStart(H.TableOf(m, h)), H.Blocks(size), Overrun(h, m, size);
    forall a: Word | h.table + s <= a < h.table + h.total
      ensures HasNext(r[a])
    {
      OverrunByte(h, m, size, a);
    }
    FreedToEnd(r, h, s);
    FreedFrom(h, m, size);
    var f := GivenUp(h, m, size);
    forall a: Word | a < 4096 * TailPage(h, m)
      ensures f[a] == if h.table + s <= a < h.table + h.total || a < ClearEnd(h, m, size) - 0x1_0000_0000 then 0
                      else if h.table + h.total <= a < h.table + s + n then r[a] else m[a]
    {
      OverrunByte(h, m, size, a);
    }
    TableOfCleared(h, m, f, s, LostEntries(h, m, size));
  }

  lemma TableOfCleared(h: HeapDesc, m: Mem, f: Mem, s: nat, k: nat)
    requires H.HeapOk(m, h) && s == TailStart(H.TableOf(m, h)) && k <= s
    requires forall a: Word | H.InTable(h, a) :: f[a] == if a < h.table + k || a >= h.table + s then 0 else m[a]
    ensures H.TableOf(f, h) == Cleared(H.TableOf(m, h), 0, k)
  {
    hide TailStart;
    var t := H.TableOf(m, h);
    forall i: nat | i < h.total
      ensures H.TableOf(f, h)[i] == Cleared(t, 0, k)[i]
    {
      assert H.TableOf(f, h)[i] == f[h.table + i] && t[i] == m[h.table + i];
      assert EntryOk(t, i);
    }
  }

  /** Where the wrap reaches the tail's entries, every entry below them is lost. */
  lemma GivenUpAllLost(h: HeapDesc, m: Mem, size: Word)
    requires H.HeapOk(m, h) && Unfit(h, m, size) && MarksBelow(h, H.Blocks(size))
    requires LostEntries(h, m, size) > TailStart(H.TableOf(m, h))
    ensures forall i: nat | i < TailStart(H.TableOf(m, h)) :: H.TableOf(GivenUp(h, m, size), h)[i] == 0
  {
    hide Overrun, H.FreedMem, Unfit, TailStart, H.Blocks, WellFormed;
    UnfitFacts(h, m, size);
    var s, r := TailStart(H.TableOf(m, h)), Overrun(h, m, size);
    OverrunByte(h, m, size, h.table + s);
    FreedFrom(h, m, size);
    assert H.TableOf(r, h)[s] == r[h.table + s];
    FreedUnfold(r, h, s);
    forall i: nat | i < s
      ensures H.TableOf(GivenUp(h, m, size), h)[i] == 0
    {
      OverrunByte(h, m, size, h.table + i);
    }
  }

  // ------------------------------------------------------------------
  // Losing the first entries of the table.
  // ------------------------------------------------------------------

  /** Page `f` is a heap page past the first `k`. */
  predicate PastLost(h: HeapDesc, k: nat, f: Page) {
    f >= h.page + k
  }

  /** The first `k` entries hold no page table and no slot, and end no allocation's middle. */
  ghost predicate Spared(h: HeapDesc, st: UserState, k: nat)
    requires h.Valid()
  {
    && (k < h.total ==> !Continues(H.TableOf(st.m, h)[k]))
    && PastLost(h, k, st.d) && (forall i: nat | i < 1024 :: PastLost(h, k, Frame(st.m, st.d, i)))
    && (forall i: nat | i < 1024 && st.slots[i].ptr != 0 :: PastLost(h, k, st.slots[i].ptr / 4096))
  }

  lemma PrefixWellFormed(t: Table, k: nat)
    requires WellFormed(t) && k <= |t|
    ensures WellFormed(Cleared(t, 0, k)) <==> k == |t| || !Continues(t[k])
    ensures forall b: nat :: b in Allocs(Cleared(t, 0, k)) <==> b >= k && b in Allocs(t)
  {
    var r := Cleared(t, 0, k);
    if k < |t| {
      assert EntryOk(t, k);
      if Continues(t[k]) {
        assert k > 0 && r[k - 1] == FREE && r[k] == t[k];
        assert !EntryOk(r, k);
      } else {
        forall i: nat | i < |t|
          ensures EntryOk(r, i)
        {
          assert EntryOk(t, i);
        }
      }
    }
  }

  lemma PrefixLengths(t: Table, k: nat, b: nat)
    requires WellFormed(t) && k <= b && b in Allocs(t)
    ensures b in Allocs(Cleared(t, 0, k)) && Allocs(Cleared(t, 0, k))[b] == Allocs(t)[b]
  {
    RunKept(t, Cleared(t, 0, k), b);
  }

  lemma LiveInTail(m: Mem, h: HeapDesc, f: Page)
    requires H.HeapOk(m, h) && LivePage(m, h, f)
    ensures f < TailPage(h, m)
  {
    assert EntryOk(H.TableOf(m, h), f - h.page);
  }

  ghost predicate TailAgrees(h: HeapDesc, m: Mem, r: Mem)
    requires h.Valid()
  {
    forall a: Word | 4096 * h.page <= a < 4096 * TailPage(h, m) :: r[a] == m[a]
  }

  /** The page tables lie below the tail and read the same. */
  lemma TablesBelowTail(h: HeapDesc, st: UserState, r: Mem)
    requires H.HeapOk(st.m, h) && TablesOk(st.m, st.d) && TablesLive(st.m, h, st.d) && TailAgrees(h, st.m, r)
    ensures TablesOk(r, st.d) && SameTables(st.m, r, st.d)
    ensures h.page <= st.d < TailPage(h, st.m)
  {
    hide H.Live, Frame, TailStart, WellFormed;
    LiveInTail(st.m, h, st.d);
    forall i: nat | i < 1024
      ensures AgreeOnPage(st.m, r, Frame(st.m, st.d, i))
    {
      LiveInTail(st.m, h, Frame(st.m, st.d, i));
    }
    TablesFrame(st.m, r, st.d);
  }

  lemma LiveAfter(m: Mem, r: Mem, h: HeapDesc, k: nat, b: nat)
    requires H.HeapOk(m, h) && k <= h.total && H.TableOf(r, h) == Cleared(H.TableOf(m, h), 0, k)
    ensures b in H.Live(r, h) <==> b >= k && b in H.Live(m, h)
    ensures b in H.Live(r, h) ==> H.Live(r, h)[b] == H.Live(m, h)[b]
  {
    hide H.TableOf, Cleared;
    PrefixWellFormed(H.TableOf(m, h), k);
    if b in H.Live(r, h) {
      PrefixLengths(H.TableOf(m, h), k, b);
    }
  }

  /** Losing the first `k` entries keeps the invariant exactly if they are spared. */
  lemma PrefixExact(h: HeapDesc, st: UserState, r: Mem, k: nat)
    requires Joint(h, st) && k <= h.total && H.TableOf(r, h) == Cleared(H.TableOf(st.m, h), 0, k)
    requires TailAgrees(h, st.m, r)
    ensures Joint(h, st.(m := r)) <==> Spared(h, st, k)
  {
    if Spared(h, st, k) {
      SparedJoint(h, st, r, k);
    } else {
      UnsparedBreaks(h, st, r, k);
    }
  }

  lemma SparedJoint(h: HeapDesc, st: UserState, r: Mem, k: nat)
    requires Joint(h, st) && k <= h.total && H.TableOf(r, h) == Cleared(H.TableOf(st.m, h), 0, k)
    requires TailAgrees(h, st.m, r) && Spared(h, st, k)
    ensures Joint(h, st.(m := r))
  {
    hide Pte, Frame, H.Live, H.TableOf, Cleared, Distinct, SlotOk, IsTablePage, TablesOk, TailAgrees;
    PrefixWellFormed(H.TableOf(st.m, h), k);
    TablesBelowTail(h, st, r);
    LiveAfter(st.m, r, h, k, st.d - h.page);
    forall i: nat | i < 1024
      ensures LivePage(r, h, Frame(r, st.d, i))
    {
      var f := Frame(st.m, st.d, i);
      assert LivePage(st.m, h, f) && PastLost(h, k, f);
      LiveAfter(st.m, r, h, k, f - h.page);
    }
    forall i: nat | i < 1024
      ensures SlotFine(h, r, st.d, st.slots[i])
    {
      SlotSpared(h, st, r, k, i);
    }
  }

  lemma SlotSpared(h: HeapDesc, st: UserState, r: Mem, k: nat, i: nat)
    requires H.HeapOk(st.m, h) && i < 1024 && SlotFine(h, st.m, st.d, st.slots[i]) && SameTables(st.m, r, st.d)
    requires k <= h.total && H.TableOf(r, h) == Cleared(H.TableOf(st.m, h), 0, k)
    requires st.slots[i].ptr != 0 ==> PastLost(h, k, st.slots[i].ptr / 4096)
    ensures SlotFine(h, r, st.d, st.slots[i])
  {
    hide Pte, Frame, H.TableOf, Cleared, IsTablePage, H.Live;
    var s := st.slots[i];
    if s.ptr != 0 {
      LiveAfter(st.m, r, h, k, s.ptr / 4096 - h.page);
    }
    OldSlotFine(h, st.m, r, st.d, s, 0, 0);
  }

  lemma UnsparedBreaks(h: HeapDesc, st: UserState, r: Mem, k: nat)
    requires Joint(h, st) && k <= h.total && H.TableOf(r, h) == Cleared(H.TableOf(st.m, h), 0, k)
    requires TailAgrees(h, st.m, r) && !Spared(h, st, k)
    ensures !Joint(h, st.(m := r))
  {
    hide Pte, Frame, H.Live, H.TableOf, Cleared, Distinct, IsTablePage, TablesOk, TailAgrees, SelfMapped;
    PrefixWellFormed(H.TableOf(st.m, h), k);
    TablesBelowTail(h, st, r);
    if k == h.total || !Continues(H.TableOf(st.m, h)[k]) {
      if !PastLost(h, k, st.d) {
        LiveAfter(st.m, r, h, k, st.d - h.page);
      } else if i: nat :| i < 1024 && !PastLost(h, k, Frame(st.m, st.d, i)) {
        assert LivePage(st.m, h, Frame(st.m, st.d, i));
        LiveAfter(st.m, r, h, k, Frame(st.m, st.d, i) - h.page);
        assert Frame(r, st.d, i) == Frame(st.m, st.d, i);
        assert !LivePage(r, h, Frame(r, st.d, i));
      } else {
        var i: nat :| i < 1024 && st.slots[i].ptr != 0 && !PastLost(h, k, st.slots[i].ptr / 4096);
        assert SlotFine(h, st.m, st.d, st.slots[i]);
        LiveAfter(st.m, r, h, k, st.slots[i].ptr / 4096 - h.page);
        assert !SlotFine(h, r, st.d, st.slots[i]);
      }
    }
  }

  // ------------------------------------------------------------------
  // The call.
  // ------------------------------------------------------------------

  /** The block is given back: no slot is left, or the end of the pages to map wraps. */
  ghost predicate GivesUp(h: HeapDesc, st: UserState, size: Word)
    requires h.Valid()
  {
    Find(st.slots, 0, 0) < 0 || ClearEnd(h, st.m, size) > 0xFFFF_F000
  }

  lemma EndWraps(h: HeapDesc, st: UserState, f: Page, size: Word, m: Mem)
    requires f > 0 && 0 < size <= 0xFFFF_F000 && 4096 * (f as int) + size > 0xFFFF_F000
    ensures CreateMapping(m, st.d, 4096 * f, 4096 * f, AlignUp(Wrap(4096 * (f as int) + size)), WRITABLE) ==
            (m, -EINVARG)
  {
    hide MapPages, Wrap, AlignUp;
    WrapOnce(4096 * (f as int) + size);
  }

  lemma EndFits(h: HeapDesc, st: UserState, f: Page, size: Word, m: Mem)
    requires f > 0 && 0 < size <= 0xFFFF_F000 && 4096 * (f as int) + size <= 0xFFFF_F000
    ensures CreateMapping(m, st.d, 4096 * f, 4096 * f, AlignUp(Wrap(4096 * (f as int) + size)), WRITABLE)
            == (MapPages(m, st.d, f, f, H.Blocks(size), WRITABLE), 0)
  {
    hide MapPages, Wrap, AlignUp, H.Blocks;
    H.BlocksRoundsUp(size);
    var x: Word, n := 4096 * (f as int) + size, H.Blocks(size);
    WrapOnce(x);
    var y := AlignUp(x);
    assert y == 4096 * (y / 4096);
    DivModUnique(y - 4096 * (f as int), 4096, n, 0);
  }

  /** What the call leaves: the overrun block mapped and in a slot, or given back. */
  lemma UnfitMalloc(h: HeapDesc, st: UserState, size: Word)
    requires h.Valid() && Unfit(h, st.m, size)
    ensures var (r, ptr) := UserMalloc(h, st, size);
            var f := TailPage(h, st.m);
            if GivesUp(h, st, size) then r == st.(m := GivenUp(h, st.m, size)) && ptr == 0
            else && ptr == 4096 * f && r.d == st.d
                 && r.m == MapPages(Overrun(h, st.m, size), st.d, f, f, H.Blocks(size), WRITABLE)
  {
    hide H.Kzalloc, Overrun, TailStart, CreateMapping, AlignUp, Wrap, MapPages, H.Kfree, H.Blocks, Find, Unfit;
    UnfitFacts(h, st.m, size);
    var f := TailPage(h, st.m);
    if ClearEnd(h, st.m, size) > 0xFFFF_F000 {
      EndWraps(h, st, f, size, Overrun(h, st.m, size));
    } else {
      EndFits(h, st, f, size, Overrun(h, st.m, size));
    }
  }

  /** A table that ends in HAS_NEXT is not well-formed. */
  lemma OverrunBreaks(h: HeapDesc, st: UserState, size: Word)
    requires Joint(h, st) && Unfit(h, st.m, size) && MarksBelow(h, H.Blocks(size)) && !GivesUp(h, st, size)
    ensures !Joint(h, UserMalloc(h, st, size).0)
  {
    hide Overrun, TailStart, MapPages, H.Blocks, Find, Unfit, UserMalloc, TablesOk, TablesLive, SlotFine, Distinct, Pte;
    UnfitMalloc(h, st, size);
    UnfitFacts(h, st.m, size);
    var r := UserMalloc(h, st, size).0;
    OverrunTables(h, st, size);
    var a: Word := h.table + h.total - 1;
    OverrunByte(h, st.m, size, a);
    OverrunKept(h, st, size, a);
    assert H.TableOf(r.m, h)[h.total - 1] == r.m[a];
    assert !EntryOk(H.TableOf(r.m, h), h.total - 1);
  }

  /** The page tables are untouched by the overrun while the clearing does not wrap. */
  lemma OverrunTables(h: HeapDesc, st: UserState, size: Word)
    requires Joint(h, st) && Unfit(h, st.m, size) && MarksBelow(h, H.Blocks(size))
    requires ClearEnd(h, st.m, size) <= 0xFFFF_F000
    ensures TablesOk(Overrun(h, st.m, size), st.d) && SameTables(st.m, Overrun(h, st.m, size), st.d)
  {
    hide Overrun, TailStart, H.Blocks, Unfit, TablesOk, TablesLive, SlotFine, Distinct, Pte;
    UnfitFacts(h, st.m, size);
    forall a: Word | 4096 * h.page <= a < 4096 * TailPage(h, st.m)
      ensures Overrun(h, st.m, size)[a] == st.m[a]
    {
      OverrunByte(h, st.m, size, a);
    }
    TablesBelowTail(h, st, Overrun(h, st.m, size));
  }

  lemma OverrunKept(h: HeapDesc, st: UserState, size: Word, a: Word)
    requires Joint(h, st) && Unfit(h, st.m, size) && H.InTable(h, a)
    requires TablesOk(Overrun(h, st.m, size), st.d) && SameTables(st.m, Overrun(h, st.m, size), st.d)
    ensures var m1, f := Overrun(h, st.m, size), TailPage(h, st.m);
            MapPages(m1, st.d, f, f, H.Blocks(size), WRITABLE)[a] == m1[a]
  {
    hide Overrun, TailStart, H.Blocks, Unfit, TablesOk, MapPages, Frame, SlotFine, Distinct, Pte;
    var m1, f := Overrun(h, st.m, size), TailPage(h, st.m);
    MapPagesKeeps(m1, st.d, f, f, H.Blocks(size), WRITABLE);
    if i: nat :| i < 1024 && InPage(Frame(m1, st.d, i), a) {
      LivePageStable(st.m, st.m, h, Frame(st.m, st.d, i));
    }
  }

  /** A request that does not fit while the last block is free keeps the invariant exactly
      when its block is given back and the entries lost to a wrap are spared. */
  lemma UnfitExact(h: HeapDesc, st: UserState, size: Word)
    requires Joint(h, st) && Unfit(h, st.m, size) && MarksBelow(h, H.Blocks(size))
    ensures Joint(h, UserMalloc(h, st, size).0) <==>
            GivesUp(h, st, size) && Spared(h, st, LostEntries(h, st.m, size))
  {
    hide UserMalloc, GivenUp, TailStart, H.Blocks, Unfit, Joint, Spared, Cleared, MapPages;
    HeapOfJoint(h, st);
    if !GivesUp(h, st, size) {
      OverrunBreaks(h, st, size);
    } else {
      UnfitMalloc(h, st, size);
      UnfitFacts(h, st.m, size);
      var k := LostEntries(h, st.m, size);
      if k <= TailStart(H.TableOf(st.m, h)) {
        GivenUpTable(h, st.m, size);
        PrefixExact(h, st, GivenUp(h, st.m, size), k);
      } else {
        GivenUpAllLost(h, st.m, size);
        AllLostBreaks(h, st, GivenUp(h, st.m, size), k);
      }
    }
  }

  lemma AllLostBreaks(h: HeapDesc, st: UserState, r: Mem, k: nat)
    requires Joint(h, st) && k > TailStart(H.TableOf(st.m, h))
    requires forall i: nat | i < TailStart(H.TableOf(st.m, h)) :: H.TableOf(r, h)[i] == 0
    ensures !Joint(h, st.(m := r)) && !Spared(h, st, k)
  {
    hide TailStart, TablesOk, SlotFine, Distinct, Frame, WellFormed;
    HeapOfJoint(h, st);
    LiveInTail(st.m, h, st.d);
    assert H.TableOf(r, h)[st.d - h.page] == 0;
  }

  /** Where the clearing does not wrap, nothing is lost. */
  lemma NothingLost(h: HeapDesc, st: UserState)
    requires Joint(h, st)
    ensures Spared(h, st, 0)
  {
    hide TablesOk, Distinct, Frame, H.Live, IsTablePage, SelfMapped;
    HeapOfJoint(h, st);
    if h.total > 0 {
      assert EntryOk(H.TableOf(st.m, h), 0);
    }
    forall i: nat | i < 1024 && st.slots[i].ptr != 0
      ensures PastLost(h, 0, st.slots[i].ptr / 4096)
    {
      assert SlotFine(h, st.m, st.d, st.slots[i]);
    }
  }

  // ------------------------------------------------------------------
  // Every size.
  // ------------------------------------------------------------------

  /** What has to hold before a malloc for the invariant to hold after it. */
  ghost predicate Keeps(h: HeapDesc, st: UserState, size: Word)
    requires h.Valid()
  {
    || MallocSafe(H.TableOf(st.m, h), H.Blocks(size))
    || (if H.Blocks(size) == 0 then size == 0 && Find(st.slots, 0, 0) < 0
        else GivesUp(h, st, size) && Spared(h, st, LostEntries(h, st.m, size)))
  }

  /** Malloc of any size keeps the invariant exactly when the request fits or the last block
      is taken; or it asks for nothing and no slot is left; or its block is given back and
      no entry that matters is lost. */
  lemma UserMallocExact(h: HeapDesc, st: UserState, size: Word)
    requires Joint(h, st) && NullFreeHarmless(h, st.m) && MarksBelow(h, H.Blocks(size))
    ensures Joint(h, UserMalloc(h, st, size).0) <==> Keeps(h, st, size)
  {
    hide Joint, UserMalloc, Find, NullFreeHarmless, MallocSafe, Spared, GivesUp, LastFree;
    HeapOfJoint(h, st);
    if MallocSafe(H.TableOf(st.m, h), H.Blocks(size)) {
      SafeIsAllowed(h, st, size);
      MallocKeeps(h, st, size);
    } else if H.Blocks(size) == 0 {
      LastFreeUnsafe(h, st.m);
      NoBlocksExact(h, st, size);
    } else {
      UnfitExact(h, st, size);
    }
  }

  lemma SafeIsAllowed(h: HeapDesc, st: UserState, size: Word)
    requires h.Valid() && MallocSafe(H.TableOf(st.m, h), H.Blocks(size)) && NullFreeHarmless(h, st.m)
    ensures UserHeap.Allowed(h, st, MallocCall(size))
  {
  }

  /** At the kernel's heap the marks of every request lie below the data. */
  lemma KernelMarks(size: Word)
    ensures MarksBelow(H.KERNEL_HEAP, H.Blocks(size))
  {
  }

  /** For one: with a slot and the last block free, a request of 101 MiB, more than the
      kernel's heap has, is served; the invariant is lost, and the page behind the heap is
      the process's to write. */
  lemma UnfitExample(st: UserState)
    requires Joint(H.KERNEL_HEAP, st) && LastFree(H.KERNEL_HEAP, st.m) && Find(st.slots, 0, 0) >= 0
    ensures var (r, ptr) := UserMalloc(H.KERNEL_HEAP, st, 0x650_0000);
            && ptr != 0 && !Joint(H.KERNEL_HEAP, r)
            && Pte(r.m, r.d, 0x7400) == 4096 * 0x7400 + WRITABLE
  {
    hide UserMalloc, Joint, Overrun, TailStart, MapPages, Pte, Find;
    var h, size: Word := H.KERNEL_HEAP, 0x650_0000;
    HeapOfJoint(h, st);
    BigUnfit(st.m);
    KernelMarks(size);
    UnfitFacts(h, st.m, size);
    OverrunBreaks(h, st, size);
    UnfitMalloc(h, st, size);
    OverrunTables(h, st, size);
    var f := TailPage(h, st.m);
    SelfMapPte(Overrun(h, st.m, size), st.d, f, H.Blocks(size), WRITABLE, 0x7400);
  }

  lemma BigUnfit(m: Mem)
    requires LastFree(H.KERNEL_HEAP, m)
    ensures Unfit(H.KERNEL_HEAP, m, 0x650_0000) && H.Blocks(0x650_0000) == 25856
  {
    H.BlocksRoundsUp(0x650_0000);
  }

  // ------------------------------------------------------------------
  // Runs.
  // ------------------------------------------------------------------

  /** Every malloc of the run meets the condition when it is made. */
  ghost predicate AllKeep(h: HeapDesc, st: UserState, calls: seq<Call>)
    requires h.Valid()
  {
    forall i: nat | i < |calls| && calls[i].MallocCall? :: Keeps(h, UserHeap.Run(h, st, calls[..i]), calls[i].size)
  }

  /** The invariant holds after every call of the run. */
  ghost predicate JointThroughout(h: HeapDesc, st: UserState, calls: seq<Call>)
    requires h.Valid()
  {
    forall i: nat | i <= |calls| :: Joint(h, UserHeap.Run(h, st, calls[..i]))
  }

  /** kfree(NULL) is harmless at every point, and marks lie below the data. */
  ghost predicate Steady(h: HeapDesc, st: UserState, calls: seq<Call>)
    requires h.Valid()
  {
    && MarksBelow(h, 0x10_0000)
    && forall i: nat | i < |calls| :: NullFreeHarmless(h, UserHeap.Run(h, st, calls[..i]).m)
  }

  /** Over a run, the invariant holds throughout exactly if every malloc meets the condition. */
  lemma {:induction false} RunExact(h: HeapDesc, st: UserState, calls: seq<Call>)
    requires Joint(h, st) && Steady(h, st, calls)
    ensures JointThroughout(h, st, calls) <==> AllKeep(h, st, calls)
    decreases |calls|
  {
    hide Joint, Keeps, UserMalloc, UserFree, NullFreeHarmless, UserHeap.Run;
    HeapOfJoint(h, st);
    RunNone(h, st);
    if calls == [] {
      assert forall i: nat | i <= 0 :: calls[..i] == [];
    } else {
      var n := |calls| - 1;
      var init, call := calls[..n], calls[n];
      assert forall i: nat | i <= n :: init[..i] == calls[..i];
      RunExact(h, st, init);
      assert calls[..n + 1] == calls;
      RunLast(h, st, calls);
      if JointThroughout(h, st, init) {
        assert Joint(h, UserHeap.Run(h, st, init[..n])) && init[..n] == init;
        CallExact(h, UserHeap.Run(h, st, init), call);
      }
      ThroughoutSplits(h, st, calls);
      KeepSplits(h, st, calls);
    }
  }

  lemma CallExact(h: HeapDesc, st: UserState, call: Call)
    requires Joint(h, st) && NullFreeHarmless(h, st.m) && MarksBelow(h, 0x10_0000)
    ensures Joint(h, UserHeap.Step(h, st, call)) <==> (call.MallocCall? ==> Keeps(h, st, call.size))
  {
    hide Joint, Keeps, UserMalloc, UserFree, NullFreeHarmless;
    match call
    case MallocCall(size) => UserMallocExact(h, st, size);
    case FreeCall(ptr) => FreeKeeps(h, st, ptr);
  }

  lemma RunNone(h: HeapDesc, st: UserState)
    requires h.Valid()
    ensures UserHeap.Run(h, st, []) == st
  {
  }

  lemma RunLast(h: HeapDesc, st: UserState, calls: seq<Call>)
    requires h.Valid() && calls != []
    ensures UserHeap.Run(h, st, calls) ==
            UserHeap.Step(h, UserHeap.Run(h, st, calls[..|calls| - 1]), calls[|calls| - 1])
  {
  }

  lemma ThroughoutSplits(h: HeapDesc, st: UserState, calls: seq<Call>)
    requires h.Valid() && calls != []
    ensures JointThroughout(h, st, calls) <==>
            JointThroughout(h, st, calls[..|calls| - 1]) && Joint(h, UserHeap.Run(h, st, calls))
  {
    hide Joint, UserHeap.Run;
    var n := |calls| - 1;
    var init := calls[..n];
    assert forall i: nat | i <= n :: init[..i] == calls[..i];
    assert calls[..n + 1] == calls;
  }

  lemma KeepSplits(h: HeapDesc, st: UserState, calls: seq<Call>)
    requires h.Valid() && calls != []
    ensures var n := |calls| - 1;
            AllKeep(h, st, calls) <==>
            && AllKeep(h, st, calls[..n])
            && (calls[n].MallocCall? ==> Keeps(h, UserHeap.Run(h, st, calls[..n]), calls[n].size))
  {
    hide Keeps, UserHeap.Run;
    var n := |calls| - 1;
    var init := calls[..n];
    assert forall i: nat | i < n :: init[..i] == calls[..i] && init[i] == calls[i];
  }
}
