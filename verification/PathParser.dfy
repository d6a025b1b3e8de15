/** Path parsing over the kernel heap: the list of parts it builds, and how freeing the
    list gives every block back. */
module PathParser {
  import opened Bits
  import opened Memory
  import opened HeapTable
  import H = Heap
  import opened HeapSafety
  import opened HeapFrames
  import opened Paging
  import opened PageTables
  import opened Arguments
  import opened Paths

  // ------------------------------------------------------------------
  // A set of pages carved out of the heap.
  // ------------------------------------------------------------------

  /** `m` has the allocations of `m0` and one-block allocations for the pages in `used`,
      and has kept every byte that was in use at `m0`. */
  ghost predicate Grown(m0: Mem, m: Mem, h: HeapDesc, used: set<Page>) {
    && H.HeapOk(m0, h) && H.HeapOk(m, h) && Kept(m0, m, h)
    && (forall f | f in used :: FreePage(m0, h, f))
    && Extends(H.Live(m0, h), H.Live(m, h), h.page, used)
    && FreeCount(H.TableOf(m, h)) == FreeCount(H.TableOf(m0, h)) - |used|
  }

  /** The allocations `more` are those of `before` and one block for each page in `used`. */
  ghost predicate Extends(before: map<nat, nat>, more: map<nat, nat>, page: nat, used: set<Page>) {
    && (forall f | f in used :: page <= f && f - page in more && more[f - page] == 1)
    && (forall b | b in before :: b in more && more[b] == before[b])
    && (forall b | b in more :: b in before || page + b in used)
  }

  lemma ExtendsLess(before: map<nat, nat>, more: map<nat, nat>, page: nat, used: set<Page>, f: Page)
    requires Extends(before, more, page, used) && f in used && f - page !in before
    ensures Extends(before, more - {f - page}, page, used - {f})
  {
  }

  lemma ExtendsMore(before: map<nat, nat>, more: map<nat, nat>, page: nat, used: set<Page>, f: Page)
    requires Extends(before, more, page, used) && page <= f && f - page !in more
    ensures Extends(before, more[f - page := 1], page, used + {f})
  {
  }

  lemma NothingGrown(m: Mem, h: HeapDesc)
    requires H.HeapOk(m, h)
    ensures Grown(m, m, h, {})
  {
    hide FreeCount, H.Live;
  }

  /** With nothing left of them, the entry table is what it was. */
  lemma NothingLeft(m0: Mem, m: Mem, h: HeapDesc)
    requires Grown(m0, m, h, {})
    ensures H.TableOf(m, h) == H.TableOf(m0, h)
  {
    hide FreeCount, Kept;
    assert H.Live(m, h) == H.Live(m0, h);
    TableFromAllocs(H.TableOf(m, h), H.TableOf(m0, h));
  }

  /** A used page is in use, so it is not free and keeps its bytes. */
  lemma UsedHeld(m0: Mem, m: Mem, h: HeapDesc, used: set<Page>, f: Page, r: Mem)
    requires Grown(m0, m, h, used) && f in used
    ensures !FreePage(m, h, f) && (Kept(m, r, h) ==> AgreeOnPage(m, r, f))
  {
    hide FreeCount, Kept, H.Live;
    LivePageStable(m, r, h, f);
  }

  /** kzalloc of one block adds a page. */
  lemma Grow(m0: Mem, m: Mem, h: HeapDesc, used: set<Page>, size: Word) returns (f: Page)
    requires Grown(m0, m, h, used) && 0 < size <= 4096 && FreeCount(H.TableOf(m, h)) > 0
    ensures var (r, p) := H.Kzalloc(m, h, size);
            && p == 4096 * f > 0 && f !in used && Grown(m0, r, h, used + {f}) && Kept(m, r, h)
            && (forall a: Word | p <= a < p + size :: r[a] == 0)
  {
    hide H.Kzalloc, FreeCount, Kept, H.Live, FreePage, WellFormed, H.TableOf, Window, Marked, Extends;
    var b := ZallocOne(m, h, size);
    var (r, p) := H.Kzalloc(m, h, size);
    f := h.page + b;
    FreshIsFree(m, h, size, r, p, b, f);
    FreeBefore(m0, m, h, f);
    KeptTransitive(m0, m, r, h);
    if f in used { UsedHeld(m0, m, h, used, f, r); }
    ExtendsMore(H.Live(m0, h), H.Live(m, h), h.page, used, f);
    assert |used + {f}| == |used| + 1;
  }

  lemma FreshIsFree(m: Mem, h: HeapDesc, size: Word, r: Mem, p: Word, b: nat, f: Page)
    requires Zalloced(m, h, size, r, p, b, 1) && f == h.page + b
    ensures FreePage(m, h, f)
  {
    hide FreeCount, Kept, H.Live;
  }

  /** Writing a used page changes nothing else. */
  lemma WriteUsed(m0: Mem, m: Mem, r: Mem, h: HeapDesc, used: set<Page>, f: Page)
    requires Grown(m0, m, h, used) && f in used
    requires forall a: Word | !InPage(f, a) :: r[a] == m[a]
    ensures Grown(m0, r, h, used)
  {
    hide FreeCount, H.Live;
    forall a: Word | InPage(f, a)
      ensures !Stable(m0, h, a) && !H.InTable(h, a)
    {
      FreePageUnstable(m0, h, f, a);
    }
    HeapUntouched(m, r, h);
  }

  lemma FreePageBack(m: Mem, h: HeapDesc, f: Page)
    requires H.HeapOk(m, h) && LivePage(m, h, f)
    ensures var r := H.Kfree(m, h, 4096 * f);
            && H.HeapOk(r, h) && OnlyTable(m, r, h) && H.Live(r, h) == H.Live(m, h) - {f - h.page}
            && H.TableOf(r, h) == Cleared(H.TableOf(m, h), f - h.page, 1)
            && FreeCount(H.TableOf(r, h)) == FreeCount(H.TableOf(m, h)) + 1
  {
    hide H.FreedMem, TakenFrom, Allocs;
    var b := f - h.page;
    LivePageStable(m, m, h, f);
    FreeLive(m, h, b);
    ClearedTaken(H.TableOf(m, h), b, 0);
  }

  /** kfree takes a page out again and changes only the entry table. */
  lemma Shrink(m0: Mem, m: Mem, h: HeapDesc, used: set<Page>, f: Page)
    requires Grown(m0, m, h, used) && f in used
    ensures var r := H.Kfree(m, h, 4096 * f);
            Grown(m0, r, h, used - {f}) && OnlyTable(m, r, h)
  {
    hide H.Kfree, H.Live, FreeCount, Kept, FreePage, OnlyTable, WellFormed, H.TableOf, Extends;
    UsedLive(m0, m, h, used, f);
    FreePageBack(m, h, f);
    ShrinkKeeps(m0, m, H.Kfree(m, h, 4096 * f), h, f);
    OldNotUsed(m0, h, f);
    ExtendsLess(H.Live(m0, h), H.Live(m, h), h.page, used, f);
    assert |used - {f}| == |used| - 1;
  }

  lemma UsedLive(m0: Mem, m: Mem, h: HeapDesc, used: set<Page>, f: Page)
    requires Grown(m0, m, h, used) && f in used
    ensures LivePage(m, h, f) && FreePage(m0, h, f)
  {
    hide H.Live, FreeCount, Kept, FreePage, WellFormed, H.TableOf;
  }

  lemma OldNotUsed(m: Mem, h: HeapDesc, f: Page)
    requires H.HeapOk(m, h) && FreePage(m, h, f)
    ensures f - h.page !in H.Live(m, h)
  {
    assert EntryOk(H.TableOf(m, h), f - h.page);
  }

  lemma ShrinkKeeps(m0: Mem, m: Mem, r: Mem, h: HeapDesc, f: Page)
    requires h.Valid() && Kept(m0, m, h) && FreePage(m0, h, f) && OnlyTable(m, r, h)
    requires H.TableOf(r, h) == Cleared(H.TableOf(m, h), f - h.page, 1)
    ensures Kept(m0, r, h)
  {
    forall a: Word | Stable(m0, h, a)
      ensures r[a] == m0[a] && Stable(r, h, a)
    {
      if InPage(f, a) { FreePageUnstable(m0, h, f, a); }
    }
  }

  lemma {:induction false} ClearedTaken(t: Table, s: nat, i: nat)
    requires i <= |t| && s < |t| && !IsFree(t[s])
    ensures TakenFrom(Cleared(t, s, 1), i) == TakenFrom(t, i) - (if i <= s then 1 else 0)
    decreases |t| - i
  {
    if i < |t| {
      ClearedTaken(t, s, i + 1);
    }
  }

  // ------------------------------------------------------------------
  // What parsing does to memory.
  // ------------------------------------------------------------------

  /** A buffer holding the characters of a part. */
  ghost function NewString(m: Mem, h: HeapDesc, part: CString): (Mem, Word)
    requires h.Valid()
  {
    var (m1, buf) := H.Kzalloc(m, h, 128);
    (Written(m1, buf, part), buf)
  }

  /** A `struct path_part` with its string and no successor. */
  ghost function NewNode(m: Mem, h: HeapDesc, buf: Word): (Mem, Word)
    requires h.Valid()
  {
    var (m1, node) := H.Kzalloc(m, h, 8);
    (SetSlot(SetSlot(m1, node / 4096, 0, buf), node / 4096, 1, 0), node)
  }

  function Link(m: Mem, last: Word, node: Word): Mem {
    if last == 0 then m else SetSlot(m, last / 4096, 1, node)
  }

  /** `parse_path_part` on a non-empty part. */
  ghost function AddPart(m: Mem, h: HeapDesc, part: CString, last: Word): (Mem, Word)
    requires h.Valid()
  {
    var (m1, buf) := NewString(m, h, part);
    var (m2, node) := NewNode(m1, h, buf);
    (Link(m2, last, node), node)
  }

  /** `parse_path_part` where there is no part: the buffer is freed again. */
  ghost function NoPart(m: Mem, h: HeapDesc): Mem
    requires h.Valid()
  {
    var (m1, buf) := H.Kzalloc(m, h, 128);
    H.Kfree(m1, h, buf)
  }

  /** The parts from `t` on, appended behind `last`; then the end of the path. */
  ghost function AddParts(m: Mem, h: HeapDesc, t: CString, last: Word): Mem
    requires h.Valid()
    decreases |t|
  {
    if PartLen(t) == 0 then NoPart(m, h)
    else
      var (m1, node) := AddPart(m, h, FirstPart(t), last);
      AddParts(m1, h, AfterPart(t), node)
  }

  /** A `struct path_root` for a drive. */
  ghost function NewRoot(m: Mem, h: HeapDesc, drive: Word): (Mem, Word)
    requires h.Valid()
  {
    var (m1, root) := H.Kzalloc(m, h, 8);
    (SetSlot(SetSlot(m1, root / 4096, 0, drive), root / 4096, 1, 0), root)
  }

  /** `pparser_parse` of the string `s`: memory and the root, or NULL. */
  ghost function ParseInto(m: Mem, h: HeapDesc, s: CString): (Mem, Word)
    requires h.Valid()
  {
    if |s| > MAX_PATH || !ValidForm(s) then (m, 0)
    else
      var (m1, root) := NewRoot(m, h, s[0] - 48);
      if root == 0 then (m1, 0)
      else if PartLen(s[3..]) == 0 then (NoPart(m1, h), 0)
      else
        var (m2, first) := AddPart(m1, h, FirstPart(s[3..]), 0);
        (AddParts(SetSlot(m2, root / 4096, 1, first), h, AfterPart(s[3..]), first), root)
  }

  /** The loop of `pparser_free` over a list of `k` nodes. */
  function FreeNodes(m: Mem, h: HeapDesc, node: Word, k: nat): Mem
    decreases k
  {
    if node == 0 || k == 0 then m
    else
      var next := Slot(m, node / 4096, 1);
      FreeNodes(H.Kfree(H.Kfree(m, h, Slot(m, node / 4096, 0)), h, node), h, next, k - 1)
  }

  /** `pparser_free` of a root whose list has `k` nodes. */
  function FreePath(m: Mem, h: HeapDesc, root: Word, k: nat): Mem {
    H.Kfree(FreeNodes(m, h, Slot(m, root / 4096, 1), k), h, root)
  }

  // ------------------------------------------------------------------
  // The list.
  // ------------------------------------------------------------------

  ghost predicate Distinct(ps: seq<Page>) {
    forall i, j | 0 <= i < j < |ps| :: ps[i] != ps[j]
  }

  ghost function PageSet(ps: seq<Page>): set<Page> {
    set f | f in ps
  }

  /** Node page `n` with string page `s`. */
  ghost predicate NodeAt(m: Mem, n: Page, s: Page, next: Word, part: CString) {
    Slot(m, n, 0) == 4096 * s && Slot(m, n, 1) == next && StringAt(m, 4096 * s, part) && |part| <= 127
  }

  /** Pages: the root, then a string page and a node page for every part. */
  ghost predicate ListAt(m: Mem, ps: seq<Page>, parts: seq<CString>) {
    && |ps| == 1 + 2 * |parts|
    && forall i: nat | i < |parts| :: NodeAt(m, ps[2 * i + 2], ps[2 * i + 1], NextNode(ps, i), parts[i])
  }

  function NextNode(ps: seq<Page>, i: nat): Word {
    if 2 * i + 4 < |ps| then 4096 * (ps[2 * i + 4] as int) else 0
  }

  lemma NodeAgrees(m: Mem, r: Mem, n: Page, s: Page, next: Word, part: CString)
    requires NodeAt(m, n, s, next, part) && AgreeOnPage(m, r, n) && AgreeOnPage(m, r, s)
    ensures NodeAt(r, n, s, next, part)
  {
    hide Slot;
    SlotAgree(m, r, n, 0);
    SlotAgree(m, r, n, 1);
  }

  /** A memory that has the list, with its heap. */
  ghost predicate Holds(m0: Mem, m: Mem, h: HeapDesc, ps: seq<Page>, parts: seq<CString>) {
    Distinct(ps) && Grown(m0, m, h, PageSet(ps)) && ListAt(m, ps, parts)
  }

  ghost predicate AgreeOnPages(m: Mem, r: Mem, ps: seq<Page>) {
    forall i | 0 <= i < |ps| :: AgreeOnPage(m, r, ps[i])
  }

  lemma ListAgrees(m: Mem, r: Mem, ps: seq<Page>, parts: seq<CString>)
    requires ListAt(m, ps, parts) && AgreeOnPages(m, r, ps)
    ensures ListAt(r, ps, parts)
  {
    hide NodeAt;
    forall i: nat | i < |parts|
      ensures NodeAt(r, ps[2 * i + 2], ps[2 * i + 1], NextNode(ps, i), parts[i])
    {
      NodeAgrees(m, r, ps[2 * i + 2], ps[2 * i + 1], NextNode(ps, i), parts[i]);
    }
  }

  /** One more page: it differs from the others, which keep their bytes. */
  lemma OnePage(m0: Mem, m: Mem, h: HeapDesc, ps: seq<Page>, size: Word) returns (f: Page)
    requires Distinct(ps) && Grown(m0, m, h, PageSet(ps)) && 0 < size <= 4096 && FreeCount(H.TableOf(m, h)) > 0
    ensures var (r, p) := H.Kzalloc(m, h, size);
            && p == 4096 * f > 0 && Distinct(ps + [f]) && Grown(m0, r, h, PageSet(ps + [f])) && AgreeOnPages(m, r, ps)
            && FreeCount(H.TableOf(r, h)) == FreeCount(H.TableOf(m, h)) - 1
            && (forall a: Word | p <= a < p + size :: r[a] == 0)
  {
    hide H.Kzalloc, FreeCount, Kept, Grown, WellFormed;
    GrownCounts(m0, m, h, PageSet(ps));
    f := Grow(m0, m, h, PageSet(ps), size);
    var r := H.Kzalloc(m, h, size).0;
    assert PageSet(ps + [f]) == PageSet(ps) + {f};
    forall i | 0 <= i < |ps|
      ensures AgreeOnPage(m, r, ps[i])
    {
      UsedHeld(m0, m, h, PageSet(ps), ps[i], r);
    }
    GrownCounts(m0, r, h, PageSet(ps) + {f});
    assert |PageSet(ps) + {f}| == |PageSet(ps)| + 1;
  }

  lemma GrownCounts(m0: Mem, m: Mem, h: HeapDesc, used: set<Page>)
    requires Grown(m0, m, h, used)
    ensures H.HeapOk(m0, h) && H.HeapOk(m, h)
    ensures FreeCount(H.TableOf(m, h)) == FreeCount(H.TableOf(m0, h)) - |used|
  {
  }

  /** Writing the newest page leaves the others alone. */
  lemma WriteLast(m0: Mem, m: Mem, r: Mem, h: HeapDesc, ps: seq<Page>, f: Page)
    requires Distinct(ps + [f]) && Grown(m0, m, h, PageSet(ps + [f]))
    requires forall a: Word | !InPage(f, a) :: r[a] == m[a]
    ensures Grown(m0, r, h, PageSet(ps + [f])) && AgreeOnPages(m, r, ps)
    ensures H.TableOf(r, h) == H.TableOf(m, h)
  {
    hide FreeCount, Kept, H.Live;
    assert (ps + [f])[|ps|] == f;
    WriteUsed(m0, m, r, h, PageSet(ps + [f]), f);
    forall i | 0 <= i < |ps|
      ensures AgreeOnPage(m, r, ps[i])
    {
      assert (ps + [f])[i] != f;
    }
    UsedOutsideTable(m0, m, r, h, f);
  }

  lemma UsedOutsideTable(m0: Mem, m: Mem, r: Mem, h: HeapDesc, f: Page)
    requires h.Valid() && FreePage(m0, h, f) && forall a: Word | !InPage(f, a) :: r[a] == m[a]
    ensures H.TableOf(r, h) == H.TableOf(m, h)
  {
    forall a: Word | H.InTable(h, a)
      ensures r[a] == m[a]
    {
      if InPage(f, a) { FreePageUnstable(m0, h, f, a); }
    }
  }

  lemma StringAdded(m0: Mem, m: Mem, h: HeapDesc, ps: seq<Page>, part: CString) returns (f: Page)
    requires Distinct(ps) && Grown(m0, m, h, PageSet(ps)) && FreeCount(H.TableOf(m, h)) > 0 && |part| <= 127
    ensures var (r, buf) := NewString(m, h, part);
            && buf == 4096 * f > 0 && Distinct(ps + [f]) && Grown(m0, r, h, PageSet(ps + [f]))
            && AgreeOnPages(m, r, ps) && StringAt(r, buf, part)
            && FreeCount(H.TableOf(r, h)) == FreeCount(H.TableOf(m, h)) - 1
  {
    hide H.Kzalloc, FreeCount, Grown, Distinct, WellFormed;
    GrownCounts(m0, m, h, PageSet(ps));
    f := OnePage(m0, m, h, ps, 128);
    var (m1, buf) := H.Kzalloc(m, h, 128);
    var r := Written(m1, buf, part);
    WriteLast(m0, m1, r, h, ps, f);
  }

  lemma NodeAdded(m0: Mem, m: Mem, h: HeapDesc, ps: seq<Page>, buf: Word) returns (f: Page)
    requires Distinct(ps) && Grown(m0, m, h, PageSet(ps)) && FreeCount(H.TableOf(m, h)) > 0
    ensures var (r, node) := NewNode(m, h, buf);
            && node == 4096 * f > 0 && Distinct(ps + [f]) && Grown(m0, r, h, PageSet(ps + [f]))
            && AgreeOnPages(m, r, ps) && Slot(r, f, 0) == buf && Slot(r, f, 1) == 0
            && FreeCount(H.TableOf(r, h)) == FreeCount(H.TableOf(m, h)) - 1
  {
    hide H.Kzalloc, FreeCount, Grown, Distinct, Slot, SetSlot, WellFormed;
    GrownCounts(m0, m, h, PageSet(ps));
    f := OnePage(m0, m, h, ps, 8);
    var m1 := H.Kzalloc(m, h, 8).0;
    var r := SetSlot(SetSlot(m1, f, 0, buf), f, 1, 0);
    WriteLast(m0, m1, r, h, ps, f);
  }

  /** Linking the new node behind the last one completes the longer list. */
  lemma Linked(m: Mem, r: Mem, ps: seq<Page>, parts: seq<CString>, sp: Page, np: Page, part: CString)
    requires Distinct(ps + [sp, np]) && ListAt(m, ps, parts) && AgreeOnPages(m, r, ps)
    requires NodeAt(r, np, sp, 0, part) && (parts != [] ==> ps[|ps| - 1] > 0)
    ensures ListAt(Link(r, LastNode(ps), 4096 * np), ps + [sp, np], parts + [part])
    ensures forall a: Word | parts == [] || !InPage(ps[|ps| - 1], a) :: Link(r, LastNode(ps), 4096 * np)[a] == r[a]
  {
    hide Slot, SetSlot, StringAt, Distinct;
    var t, qs, n := Link(r, LastNode(ps), 4096 * np), ps + [sp, np], |parts|;
    ListAgrees(m, r, ps, parts);
    forall i: nat | i < n + 1
      ensures NodeAt(t, qs[2 * i + 2], qs[2 * i + 1], NextNode(qs, i), (parts + [part])[i])
    {
      LinkedNode(r, ps, parts, sp, np, part, i);
    }
  }

  /** The address of the last node, or NULL while there is none. */
  function LastNode(ps: seq<Page>): Word {
    if |ps| <= 1 then 0 else 4096 * (ps[|ps| - 1] as int)
  }

  lemma NodeRelinked(r: Mem, last: Page, v: Word, n: Page, s: Page, next: Word, part: CString)
    requires NodeAt(r, n, s, next, part) && s != last
    ensures NodeAt(SetSlot(r, last, 1, v), n, s, if n == last then v else next, part)
  {
    hide Slot, SetSlot;
    var t := SetSlot(r, last, 1, v);
    forall k | 0 <= k <= |part|
      ensures CharAt(part, k) == t[4096 * s + k]
    {
      var a: Word := 4096 * s + k;
      assert !InPage(last, a);
    }
  }

  lemma LinkAt(r: Mem, last: Page, v: Word)
    ensures Link(r, 4096 * (last as int), v) == if last == 0 then r else SetSlot(r, last, 1, v)
  {
    hide SetSlot;
    DivModUnique(4096 * (last as int), 4096, last, 0);
  }

  lemma LinkedOld(r: Mem, ps: seq<Page>, parts: seq<CString>, sp: Page, np: Page, i: nat)
    requires Distinct(ps) && ListAt(r, ps, parts) && i < |parts| && ps[|ps| - 1] > 0
    ensures NodeAt(Link(r, LastNode(ps), 4096 * np), ps[2 * i + 2], ps[2 * i + 1], NextNode(ps + [sp, np], i), parts[i])
  {
    hide NodeAt, SetSlot, Link;
    var last := ps[|ps| - 1];
    LinkAt(r, last, 4096 * np);
    assert ps[2 * i + 1] != last && (ps[2 * i + 2] == last <==> i + 1 == |parts|);
    NodeRelinked(r, last, 4096 * np, ps[2 * i + 2], ps[2 * i + 1], NextNode(ps, i), parts[i]);
  }

  lemma LinkedNew(r: Mem, ps: seq<Page>, sp: Page, np: Page, part: CString)
    requires Distinct(ps + [sp, np]) && NodeAt(r, np, sp, 0, part)
    ensures NodeAt(Link(r, LastNode(ps), 4096 * np), np, sp, 0, part)
  {
    hide NodeAt, SetSlot;
    if |ps| > 1 {
      hide Link;
      var qs, last := ps + [sp, np], ps[|ps| - 1];
      LinkAt(r, last, 4096 * np);
      assert qs[|ps| - 1] == last && qs[|ps|] == sp && qs[|ps| + 1] == np;
      NodeRelinked(r, last, 4096 * np, np, sp, 0, part);
    }
  }

  lemma LinkedNode(r: Mem, ps: seq<Page>, parts: seq<CString>, sp: Page, np: Page, part: CString, i: nat)
    requires Distinct(ps + [sp, np]) && ListAt(r, ps, parts) && NodeAt(r, np, sp, 0, part) && i < |parts| + 1
    requires parts != [] ==> ps[|ps| - 1] > 0
    ensures var qs := ps + [sp, np];
            NodeAt(Link(r, LastNode(ps), 4096 * np), qs[2 * i + 2], qs[2 * i + 1], NextNode(qs, i), (parts + [part])[i])
  {
    hide NodeAt, SetSlot, Link;
    if i < |parts| {
      assert ps + [sp, np] == ps + [sp] + [np];
      LastNotBefore(ps + [sp], np);
      LastNotBefore(ps, sp);
      LinkedOld(r, ps, parts, sp, np, i);
    } else {
      LinkedNew(r, ps, sp, np, part);
    }
  }

  lemma PagePositive(m0: Mem, m: Mem, h: HeapDesc, ps: seq<Page>, i: nat)
    requires Grown(m0, m, h, PageSet(ps)) && i < |ps|
    ensures ps[i] > 0 && FreePage(m0, h, ps[i]) && ps[i] in PageSet(ps)
  {
    hide FreeCount, Kept, H.Live;
    assert ps[i] in PageSet(ps);
  }

  /** The root's words read the same. */
  ghost predicate SameRoot(m: Mem, r: Mem, root: Page) {
    Slot(r, root, 0) == Slot(m, root, 0) && Slot(r, root, 1) == Slot(m, root, 1)
  }

  /** Linking writes only the last node, so the heap is as it was. */
  lemma LinkKeepsHeap(m0: Mem, r: Mem, h: HeapDesc, ps: seq<Page>, qs: seq<Page>, node: Word)
    requires Grown(m0, r, h, PageSet(qs)) && Distinct(qs) && ps <= qs && |ps| >= 1
    ensures var t := Link(r, LastNode(ps), node);
            && Grown(m0, t, h, PageSet(qs)) && H.TableOf(t, h) == H.TableOf(r, h) && SameRoot(r, t, ps[0])
  {
    hide FreeCount, Kept, H.Live, Slot, SetSlot, Grown;
    var t := Link(r, LastNode(ps), node);
    GrownCounts(m0, r, h, PageSet(qs));
    if |ps| > 1 {
      var i := |ps| - 1;
      assert ps[i] == qs[i] && ps[0] == qs[0] != qs[i];
      PagePositive(m0, r, h, qs, i);
      WriteUsed(m0, r, t, h, PageSet(qs), qs[i]);
      UsedOutsideTable(m0, r, t, h, qs[i]);
    }
  }

  /** One more part on the list. */
  lemma PartAdded(m0: Mem, m: Mem, h: HeapDesc, ps: seq<Page>, parts: seq<CString>, part: CString)
    returns (qs: seq<Page>)
    requires Holds(m0, m, h, ps, parts) && FreeCount(H.TableOf(m, h)) >= 2 && |part| <= 127
    ensures var (r, node) := AddPart(m, h, part, LastNode(ps));
            && Holds(m0, r, h, qs, parts + [part]) && ps <= qs && |qs| == |ps| + 2 && node == LastNode(qs)
            && FreeCount(H.TableOf(r, h)) == FreeCount(H.TableOf(m, h)) - 2 && SameRoot(m, r, ps[0])
  {
    hide FreeCount, NewString, NewNode, Grown, Slot, Distinct, ListAt, StringAt;
    HoldsValid(m0, m, h, ps, parts);
    var sp := StringAdded(m0, m, h, ps, part);
    var (m1, buf) := NewString(m, h, part);
    var np := NodeAdded(m0, m1, h, ps + [sp], buf);
    var (m2, node) := NewNode(m1, h, buf);
    qs := ps + [sp, np];
    assert ps + [sp] + [np] == qs;
    PartInPlace(m, m1, m2, ps, sp, np, part);
    ListSize(m, ps, parts);
    if parts != [] {
      assert ps[|ps| - 1] == qs[|ps| - 1];
      PagePositive(m0, m2, h, qs, |ps| - 1);
    }
    Linked(m, m2, ps, parts, sp, np, part);
    LinkKeepsHeap(m0, m2, h, ps, qs, node);
    SlotAgree(m, m2, ps[0], 0);
    SlotAgree(m, m2, ps[0], 1);
  }

  lemma ListSize(m: Mem, ps: seq<Page>, parts: seq<CString>)
    requires ListAt(m, ps, parts)
    ensures |ps| == 1 + 2 * |parts|
  {
  }

  lemma PartInPlace(m: Mem, m1: Mem, m2: Mem, ps: seq<Page>, sp: Page, np: Page, part: CString)
    requires AgreeOnPages(m, m1, ps) && AgreeOnPages(m1, m2, ps + [sp])
    requires StringAt(m1, 4096 * sp, part) && |part| <= 127 && Slot(m2, np, 0) == 4096 * sp && Slot(m2, np, 1) == 0
    ensures AgreeOnPages(m, m2, ps) && NodeAt(m2, np, sp, 0, part)
  {
    hide Slot;
    forall i | 0 <= i < |ps|
      ensures AgreeOnPage(m, m2, ps[i])
    {
      assert AgreeOnPage(m1, m2, (ps + [sp])[i]);
    }
    assert AgreeOnPage(m1, m2, (ps + [sp])[|ps|]);
  }

  /** A buffer taken and given back leaves the list and the heap as they were. */
  lemma NoPartAdded(m0: Mem, m: Mem, h: HeapDesc, ps: seq<Page>, parts: seq<CString>)
    requires Holds(m0, m, h, ps, parts) && FreeCount(H.TableOf(m, h)) >= 1
    ensures Holds(m0, NoPart(m, h), h, ps, parts) && AgreeOnPages(m, NoPart(m, h), ps)
  {
    hide FreeCount, Grown, Distinct, ListAt, H.Kzalloc, H.Kfree;
    HoldsValid(m0, m, h, ps, parts);
    var f := OnePage(m0, m, h, ps, 128);
    var m1 := H.Kzalloc(m, h, 128).0;
    assert f in PageSet(ps + [f]);
    Shrink(m0, m1, h, PageSet(ps + [f]), f);
    var r := NoPart(m, h);
    LastNotBefore(ps, f);
    assert PageSet(ps + [f]) - {f} == PageSet(ps);
    forall i | 0 <= i < |ps|
      ensures AgreeOnPage(m, r, ps[i])
    {
      assert (ps + [f])[i] == ps[i];
      PagePositive(m0, m1, h, ps + [f], i);
      TableChangeKeepsPage(m0, m1, r, h, ps[i]);
    }
    ListAgrees(m, r, ps, parts);
  }

  lemma LastNotBefore(ps: seq<Page>, f: Page)
    requires Distinct(ps + [f])
    ensures f !in ps && Distinct(ps)
  {
    forall i | 0 <= i < |ps|
      ensures ps[i] != f
    {
      assert (ps + [f])[i] != (ps + [f])[|ps|];
    }
    forall i, j | 0 <= i < j < |ps|
      ensures ps[i] != ps[j]
    {
      assert (ps + [f])[i] != (ps + [f])[j];
    }
  }

  lemma TableChangeKeepsPage(m0: Mem, m: Mem, r: Mem, h: HeapDesc, f: Page)
    requires h.Valid() && FreePage(m0, h, f) && OnlyTable(m, r, h)
    ensures AgreeOnPage(m, r, f)
  {
    forall a: Word | InPage(f, a)
      ensures r[a] == m[a]
    {
      FreePageUnstable(m0, h, f, a);
    }
  }

  /** All the parts from `t` on. */
  lemma {:induction false} PartsAdded(m0: Mem, m: Mem, h: HeapDesc, ps: seq<Page>, parts: seq<CString>, t: CString)
    returns (qs: seq<Page>)
    requires Holds(m0, m, h, ps, parts) && FreeCount(H.TableOf(m, h)) >= 2 * |Parts(t)| + 1 && |t| <= 127
    ensures var r := AddParts(m, h, t, LastNode(ps));
            Holds(m0, r, h, qs, parts + Parts(t)) && ps <= qs && SameRoot(m, r, ps[0])
    decreases |t|
  {
    hide FreeCount, Grown, Distinct, ListAt, AddPart, NoPart, Slot, LastNode;
    HoldsValid(m0, m, h, ps, parts);
    if PartLen(t) == 0 {
      NoPartAdded(m0, m, h, ps, parts);
      SlotAgree(m, NoPart(m, h), ps[0], 0);
      SlotAgree(m, NoPart(m, h), ps[0], 1);
      qs := ps;
      assert parts + [] == parts;
    } else {
      var part := FirstPart(t);
      var os := PartAdded(m0, m, h, ps, parts, part);
      var (m1, node) := AddPart(m, h, part, LastNode(ps));
      qs := PartsAdded(m0, m1, h, os, parts + [part], AfterPart(t));
      assert parts + [part] + Parts(AfterPart(t)) == parts + Parts(t);
    }
  }

  lemma HoldsValid(m0: Mem, m: Mem, h: HeapDesc, ps: seq<Page>, parts: seq<CString>)
    requires Holds(m0, m, h, ps, parts)
    ensures h.Valid() && |ps| == 1 + 2 * |parts|
  {
  }

  /** The path a root stands for. */
  ghost predicate PathAt(m0: Mem, m: Mem, h: HeapDesc, ps: seq<Page>, path: Path) {
    && Holds(m0, m, h, ps, path.parts) && path.parts != []
    && Slot(m, ps[0], 0) == path.drive && Slot(m, ps[0], 1) == 4096 * (ps[2] as int)
  }

  lemma RootAdded(m: Mem, h: HeapDesc, drive: Word) returns (f: Page)
    requires H.HeapOk(m, h) && FreeCount(H.TableOf(m, h)) > 0
    ensures var (r, root) := NewRoot(m, h, drive);
            && root == 4096 * f > 0 && Holds(m, r, h, [f], []) && Slot(r, f, 0) == drive && Slot(r, f, 1) == 0
            && FreeCount(H.TableOf(r, h)) == FreeCount(H.TableOf(m, h)) - 1
  {
    hide H.Kzalloc, FreeCount, Grown, Slot, SetSlot, WellFormed;
    NothingGrown(m, h);
    assert PageSet([]) == {};
    f := OnePage(m, m, h, [], 8);
    assert [] + [f] == [f];
    var m1 := H.Kzalloc(m, h, 8).0;
    WriteLast(m, m1, SetSlot(SetSlot(m1, f, 0, drive), f, 1, 0), h, [], f);
  }

  /** Setting the root's list pointer. */
  lemma FirstSet(m0: Mem, m: Mem, h: HeapDesc, ps: seq<Page>, parts: seq<CString>, first: Word)
    requires Holds(m0, m, h, ps, parts)
    ensures var r := SetSlot(m, ps[0], 1, first);
            && Holds(m0, r, h, ps, parts) && Slot(r, ps[0], 0) == Slot(m, ps[0], 0) && Slot(r, ps[0], 1) == first
            && H.TableOf(r, h) == H.TableOf(m, h)
  {
    hide FreeCount, Grown, Slot, SetSlot, NodeAt;
    HoldsValid(m0, m, h, ps, parts);
    var r := SetSlot(m, ps[0], 1, first);
    PagePositive(m0, m, h, ps, 0);
    WriteUsed(m0, m, r, h, PageSet(ps), ps[0]);
    UsedOutsideTable(m0, m, r, h, ps[0]);
    forall i: nat | i < |parts|
      ensures NodeAt(r, ps[2 * i + 2], ps[2 * i + 1], NextNode(ps, i), parts[i])
    {
      NodeAgrees(m, r, ps[2 * i + 2], ps[2 * i + 1], NextNode(ps, i), parts[i]);
    }
  }

  /** The root of a drive with its first part. */
  lemma FirstAdded(m: Mem, h: HeapDesc, drive: Word, part: CString) returns (os: seq<Page>)
    requires H.HeapOk(m, h) && FreeCount(H.TableOf(m, h)) >= 3 && |part| <= 127
    ensures var (m1, root) := NewRoot(m, h, drive);
            var (m2, first) := AddPart(m1, h, part, 0);
            var m3 := SetSlot(m2, root / 4096, 1, first);
            && |os| == 3 && root == 4096 * (os[0] as int) > 0 && first == LastNode(os) && Holds(m, m3, h, os, [part])
            && Slot(m3, os[0], 0) == drive && Slot(m3, os[0], 1) == first
            && FreeCount(H.TableOf(m3, h)) == FreeCount(H.TableOf(m, h)) - 3
  {
    hide FreeCount, Grown, Slot, SetSlot, AddPart, NewRoot, NodeAt, WellFormed, Distinct, ListAt;
    var f := RootAdded(m, h, drive);
    var m1 := NewRoot(m, h, drive).0;
    os := PartAdded(m, m1, h, [f], [], part);
    var (m2, first) := AddPart(m1, h, part, 0);
    assert [] + [part] == [part];
    assert os[0] == f;
    FirstSet(m, m2, h, os, [part], first);
  }

  /** Parsing an accepted path builds its list out of free blocks. */
  lemma ParseBuilds(m: Mem, h: HeapDesc, s: CString) returns (ps: seq<Page>)
    requires H.HeapOk(m, h) && Parse(s).Accepted?
    requires FreeCount(H.TableOf(m, h)) >= 2 * |Parse(s).path.parts| + 2
    ensures var (r, root) := ParseInto(m, h, s);
            PathAt(m, r, h, ps, Parse(s).path) && root == 4096 * (ps[0] as int) > 0
  {
    hide FreeCount, Grown, Slot, SetSlot, AddPart, NewRoot, AddParts, NodeAt, WellFormed, Distinct, ListAt;
    var t: CString, drive: Word := s[3..], s[0] - 48;
    var part := FirstPart(t);
    var os := FirstAdded(m, h, drive, part);
    var (m1, root) := NewRoot(m, h, drive);
    var (m2, first) := AddPart(m1, h, part, 0);
    var m3 := SetSlot(m2, root / 4096, 1, first);
    ps := PartsAdded(m, m3, h, os, [part], AfterPart(t));
    HoldsValid(m, AddParts(m3, h, AfterPart(t), first), h, ps, Parts(t));
    assert ps[0] == os[0] && ps[2] == os[2];
  }

  // ------------------------------------------------------------------
  // Freeing the list.
  // ------------------------------------------------------------------

  function FirstNode(ps: seq<Page>): Word {
    if |ps| < 3 then 0 else 4096 * (ps[2] as int)
  }

  /** The list without its first node. */
  ghost function Tail(ps: seq<Page>): seq<Page>
    requires |ps| >= 3
  {
    [ps[0]] + ps[3..]
  }

  lemma TailList(m: Mem, r: Mem, ps: seq<Page>, parts: seq<CString>)
    requires parts != [] && ListAt(m, ps, parts) && AgreeOnPages(m, r, ps)
    ensures ListAt(r, Tail(ps), parts[1..]) && FirstNode(Tail(ps)) == NextNode(ps, 0)
  {
    hide NodeAt;
    ListAgrees(m, r, ps, parts);
    forall i: nat | i < |parts| - 1
      ensures NodeAt(r, Tail(ps)[2 * i + 2], Tail(ps)[2 * i + 1], NextNode(Tail(ps), i), parts[1..][i])
    {
      assert NodeAt(r, ps[2 * (i + 1) + 2], ps[2 * (i + 1) + 1], NextNode(ps, i + 1), parts[i + 1]);
    }
  }

  lemma TailPages(ps: seq<Page>)
    requires |ps| >= 3 && Distinct(ps)
    ensures Distinct(Tail(ps)) && PageSet(Tail(ps)) == PageSet(ps) - {ps[1]} - {ps[2]}
    ensures ps[1] in PageSet(ps) && ps[2] in PageSet(ps) - {ps[1]}
  {
    assert ps == [ps[0], ps[1], ps[2]] + ps[3..];
  }

  /** Freeing a string and its node changes no page, only the entry table. */
  lemma TwoFreed(m0: Mem, m: Mem, h: HeapDesc, ps: seq<Page>, parts: seq<CString>)
    requires Holds(m0, m, h, ps, parts) && parts != []
    ensures var r := H.Kfree(H.Kfree(m, h, 4096 * (ps[1] as int)), h, 4096 * (ps[2] as int));
            Grown(m0, r, h, PageSet(Tail(ps))) && AgreeOnPages(m, r, ps)
  {
    hide FreeCount, Grown, ListAt, H.Kfree, FreePage;
    HoldsValid(m0, m, h, ps, parts);
    TailPages(ps);
    var used := PageSet(ps);
    Shrink(m0, m, h, used, ps[1]);
    var m1 := H.Kfree(m, h, 4096 * (ps[1] as int));
    Shrink(m0, m1, h, used - {ps[1]}, ps[2]);
    var r := H.Kfree(m1, h, 4096 * (ps[2] as int));
    forall i | 0 <= i < |ps|
      ensures AgreeOnPage(m, r, ps[i])
    {
      PagePositive(m0, m, h, ps, i);
      TableChangeKeepsPage(m0, m, m1, h, ps[i]);
      TableChangeKeepsPage(m0, m1, r, h, ps[i]);
    }
  }

  lemma {:induction false} NodesFreed(m0: Mem, m: Mem, h: HeapDesc, ps: seq<Page>, parts: seq<CString>)
    requires Holds(m0, m, h, ps, parts)
    ensures Grown(m0, FreeNodes(m, h, FirstNode(ps), |parts|), h, {ps[0]})
    decreases |parts|
  {
    hide FreeCount, Grown, H.Kfree, Slot, ListAt, Distinct, FreePage, StringAt;
    HoldsValid(m0, m, h, ps, parts);
    if parts == [] {
      assert PageSet(ps) == {ps[0]};
    } else {
      PagePositive(m0, m, h, ps, 2);
      FirstNodeAt(m, ps, parts);
      TwoFreed(m0, m, h, ps, parts);
      var r := H.Kfree(H.Kfree(m, h, 4096 * (ps[1] as int)), h, 4096 * (ps[2] as int));
      TailPages(ps);
      TailList(m, r, ps, parts);
      NodesFreed(m0, r, h, Tail(ps), parts[1..]);
    }
  }

  lemma FirstNodeAt(m: Mem, ps: seq<Page>, parts: seq<CString>)
    requires ListAt(m, ps, parts) && parts != []
    ensures NodeAt(m, ps[2], ps[1], NextNode(ps, 0), parts[0])
  {
    assert NodeAt(m, ps[2 * 0 + 2], ps[2 * 0 + 1], NextNode(ps, 0), parts[0]);
  }

  /** `pparser_free` gives back every block of the path. */
  lemma PathFreed(m0: Mem, m: Mem, h: HeapDesc, ps: seq<Page>, path: Path)
    requires PathAt(m0, m, h, ps, path)
    ensures H.TableOf(FreePath(m, h, 4096 * (ps[0] as int), |path.parts|), h) == H.TableOf(m0, h)
  {
    hide FreeCount, Grown, H.Kfree, Slot, ListAt, Distinct, FreeNodes;
    HoldsValid(m0, m, h, ps, path.parts);
    NodesFreed(m0, m, h, ps, path.parts);
    var m1 := FreeNodes(m, h, FirstNode(ps), |path.parts|);
    Shrink(m0, m1, h, {ps[0]}, ps[0]);
    assert {ps[0]} - {ps[0]} == {};
    NothingLeft(m0, FreePath(m, h, 4096 * (ps[0] as int), |path.parts|), h);
  }

  /** Parse then free conserves the heap: for every accepted path with room for its
      nodes and strings, the entry table ends byte for byte as it began. */
  lemma ParseThenFree(m: Mem, h: HeapDesc, s: CString)
    requires H.HeapOk(m, h) && Parse(s).Accepted?
    requires FreeCount(H.TableOf(m, h)) >= 2 * |Parse(s).path.parts| + 2
    ensures var (r, root) := ParseInto(m, h, s);
            && root != 0
            && H.TableOf(FreePath(r, h, root, |Parse(s).path.parts|), h) == H.TableOf(m, h)
  {
    hide FreeCount, ParseInto, FreePath, PathAt, Parse, WellFormed;
    var ps := ParseBuilds(m, h, s);
    PathFreed(m, ParseInto(m, h, s).0, h, ps, Parse(s).path);
  }

  /** A rejected path leaves the heap alone exactly when it is refused before its root
      is made; "d:/" followed by nothing, or by a slash, loses the root's block. */
  lemma RejectedExact(m: Mem, h: HeapDesc, s: CString)
    requires H.HeapOk(m, h) && Parse(s).Rejected? && FreeCount(H.TableOf(m, h)) >= 2
    ensures ParseInto(m, h, s).1 == 0
    ensures H.TableOf(ParseInto(m, h, s).0, h) == H.TableOf(m, h) <==> |s| > MAX_PATH || !ValidForm(s)
  {
    hide FreeCount, Grown, Slot, NewRoot, NoPart, WellFormed, Distinct;
    if |s| <= MAX_PATH && ValidForm(s) {
      var f := RootAdded(m, h, s[0] - 48);
      var m1 := NewRoot(m, h, s[0] - 48).0;
      NoPartAdded(m, m1, h, [f], []);
      assert PageSet([f]) == {f};
      GrownCounts(m, NoPart(m1, h), h, {f});
    }
  }

  /** For one: "0:/" is rejected and takes a block. */
  lemma RejectedExample(m: Mem, h: HeapDesc)
    requires H.HeapOk(m, h) && FreeCount(H.TableOf(m, h)) >= 2
    ensures ParseInto(m, h, [48, 58, 47]).1 == 0 && H.TableOf(ParseInto(m, h, [48, 58, 47]).0, h) != H.TableOf(m, h)
  {
    hide FreeCount, ParseInto, WellFormed;
    var s: CString := [48, 58, 47];
    assert s[3..] == [];
    RejectedExact(m, h, s);
  }
}
