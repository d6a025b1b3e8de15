/** A loaded process and its malloc and free calls: what they keep of its stack and its
    arguments, and when they take the arguments out of its sight. */
module ProcessRuns {
  import opened Bits
  import opened Memory
  import opened HeapTable
  import H = Heap
  import opened HeapSafety
  import opened HeapFrames
  import opened Paging
  import opened PageTables
  import opened Arguments
  import opened ProcessLoad
  import UH = UserHeap

  // ------------------------------------------------------------------
  // Where the calls of a process start.
  // ------------------------------------------------------------------

  /** The state of a process just loaded. */
  ghost function Fresh(m: Mem, h: HeapDesc, exec: Exec, strs: seq<CString>): UH.UserState
    requires h.Valid() && |strs| <= MOST_ARGS
  {
    var image := LoadImage(m, h, exec, strs);
    UH.UserState(image.0, image.2, UH.NoSlots())
  }

  /** It meets the joint invariant of heap, page tables and slots. */
  lemma LoadedJoint(m: Mem, h: HeapDesc, exec: Exec, strs: seq<CString>, s: nat) returns (sp: Page, bp: Page)
    requires H.HeapOk(m, h) && Window(H.TableOf(m, h), s, 4) && FreeCount(H.TableOf(m, h)) >= 1032
    requires |strs| <= MOST_ARGS && forall i | 0 <= i < |strs| :: |strs[i]| <= 32
    requires ExecHeld(m, h, exec) && AvoidsArgs(m, exec)
    ensures var st := Fresh(m, h, exec, strs);
            UH.Joint(h, st) && Loaded(m, st.m, h, st.d, sp, bp, strs)
  {
    hide LoadImage, FreeCount, Window, ExecHeld, AvoidsArgs, UH.Joint, MappedFrom, StackAndArgs, ArgsInPlace, PageHeld,
         Kept, TablesOk, TablesLive;
    var m6: Mem;
    m6, sp, bp := ImageLoaded(m, h, exec, strs, s);
    var st := Fresh(m, h, exec, strs);
    UH.JointOfTables(h, st.m, st.d);
  }

  // ------------------------------------------------------------------
  // Entries over runs.
  // ------------------------------------------------------------------

  predicate SlotCovers(s: UH.MemAllocation, q: Page) {
    s.ptr != 0 && s.ptr / 4096 <= q < s.ptr / 4096 + H.Blocks(s.size)
  }

  /** Some occupied slot has page `q`. */
  ghost predicate Slotted(st: UH.UserState, q: Page) {
    exists i: nat | i < 1024 :: SlotCovers(st.slots[i], q)
  }

  /** Page `q` lies in the first window of free blocks that is long enough for the call, and
      there is an empty slot. */
  ghost predicate Touches(h: HeapDesc, st: UH.UserState, call: UH.Call, q: Page)
    requires h.Valid()
  {
    call.MallocCall? &&
    var n := H.Blocks(call.size);
    var b := FirstWindow(H.TableOf(st.m, h), n, 0);
    n > 0 && b >= 0 && UH.Find(st.slots, 0, 0) >= 0 && h.page + b <= q < h.page + b + n
  }

  lemma NoWindow(t: Table, n: nat)
    requires forall s: nat :: !Window(t, s, n)
    ensures FirstWindow(t, n, 0) == -1
  {
    hide Window;
  }

  /** So the pointer that the call returns has page `q` in its block. */
  lemma TouchesReturned(h: HeapDesc, st: UH.UserState, size: Word, q: Page)
    requires UH.Joint(h, st) && UH.Allowed(h, st, UH.MallocCall(size))
    ensures var ptr := UH.UserMalloc(h, st, size).1;
            Touches(h, st, UH.MallocCall(size), q) <==>
            ptr != 0 && ptr / 4096 <= q < ptr / 4096 + H.Blocks(size)
  {
    hide UH.Joint, UH.UserMalloc, UH.Find, MallocSafe, UH.NullFreeHarmless, Zalloced, H.Blocks, Window, TablesOk,
         TablesLive, MapPages;
    UH.HeapOfJoint(h, st);
    if s: nat :| H.Blocks(size) > 0 && Window(H.TableOf(st.m, h), s, H.Blocks(size)) {
      if UH.Find(st.slots, 0, 0) >= 0 {
        var m1, f, slot := UH.MallocServes(h, st, size, s);
      } else {
        UH.MallocWithoutSlot(h, st, size, s);
      }
    } else {
      UH.MallocRefused(h, st, size);
      if H.Blocks(size) > 0 {
        NoWindow(H.TableOf(st.m, h), H.Blocks(size));
      }
    }
  }

  ghost predicate RunTouches(h: HeapDesc, st: UH.UserState, calls: seq<UH.Call>, q: Page)
    requires h.Valid()
  {
    calls != [] &&
    (RunTouches(h, st, calls[..|calls| - 1], q)
     || Touches(h, UH.Run(h, st, calls[..|calls| - 1]), calls[|calls| - 1], q))
  }

  ghost predicate RunAllowed(h: HeapDesc, st: UH.UserState, calls: seq<UH.Call>)
    requires h.Valid()
  {
    forall i | 0 <= i < |calls| :: UH.Allowed(h, UH.Run(h, st, calls[..i]), calls[i])
  }

  lemma RunPrefix(h: HeapDesc, st: UH.UserState, calls: seq<UH.Call>)
    requires h.Valid() && calls != [] && RunAllowed(h, st, calls)
    ensures var init := calls[..|calls| - 1];
            RunAllowed(h, st, init) && UH.Allowed(h, UH.Run(h, st, init), calls[|calls| - 1])
  {
    hide UH.Allowed, UH.Run;
    var init := calls[..|calls| - 1];
    forall i | 0 <= i < |init|
      ensures UH.Allowed(h, UH.Run(h, st, init[..i]), init[i])
    {
      assert init[..i] == calls[..i];
    }
  }

  /** A page of a slot maps to itself. */
  lemma SlottedSelf(h: HeapDesc, st: UH.UserState, q: Page)
    requires UH.Joint(h, st) && Slotted(st, q)
    ensures Pte(st.m, st.d, q) == 4096 * q + 7
  {
    hide TablesOk, TablesLive, UH.IsTablePage, UH.Distinct, Pte, H.Live, H.Blocks, WellFormed;
    var i: nat :| i < 1024 && SlotCovers(st.slots[i], q);
    assert UH.SlotFine(h, st.m, st.d, st.slots[i]);
    assert UH.SelfMapped(st.m, st.d, q, UH.WRITABLE);
  }

  /** What a call does to the entry of page `q`: a served block maps its pages to
      themselves, a freed one leaves them so, and any other entry stays. */
  ghost predicate EntryStep(st: UH.UserState, r: UH.UserState, q: Page, touched: bool) {
    && r.d == st.d
    && (touched ==> Pte(r.m, st.d, q) == 4096 * q + 7)
    && (!touched && !Slotted(st, q) ==> Pte(r.m, st.d, q) == Pte(st.m, st.d, q))
    && (!touched && Slotted(st, q) ==> Pte(r.m, st.d, q) / 4096 == q)
  }

  lemma MallocEntry(h: HeapDesc, st: UH.UserState, size: Word, q: Page)
    requires UH.Joint(h, st) && UH.Allowed(h, st, UH.MallocCall(size))
    ensures EntryStep(st, UH.UserMalloc(h, st, size).0, q, Touches(h, st, UH.MallocCall(size), q))
  {
    hide UH.Joint, UH.UserMalloc, UH.Find, MallocSafe, UH.NullFreeHarmless, Zalloced, H.Blocks, Window, Pte, Slotted,
         TablesOk, TablesLive, MapPages;
    UH.HeapOfJoint(h, st);
    if Slotted(st, q) {
      SlottedSelf(h, st, q);
    }
    if s: nat :| H.Blocks(size) > 0 && Window(H.TableOf(st.m, h), s, H.Blocks(size)) {
      if UH.Find(st.slots, 0, 0) >= 0 {
        var m1, f, slot := UH.MallocServes(h, st, size, s);
        UH.MappedAfterZalloc(st.m, m1, h, st.d, size, f, H.Blocks(size));
      } else {
        UH.MallocWithoutSlot(h, st, size, s);
      }
    } else {
      UH.MallocRefused(h, st, size);
      if H.Blocks(size) > 0 {
        NoWindow(H.TableOf(st.m, h), H.Blocks(size));
      }
    }
  }

  lemma ReleasedEntry(h: HeapDesc, st: UH.UserState, slot: nat, q: Page)
    requires UH.Joint(h, st) && slot < 1024 && st.slots[slot].ptr != 0
    ensures EntryStep(st, UH.Released(h, st, slot), q, false)
  {
    hide UH.Joint, H.Kfree, TablesOk, TablesLive, Pte, Slotted, MapPages, H.Blocks, UH.IsTablePage, UH.Find, H.Live,
         H.TableOf;
    UH.HeapOfJoint(h, st);
    if Slotted(st, q) {
      SlottedSelf(h, st, q);
    }
    UH.FindsOccupied(h, st, slot);
    UH.ReleasedMemory(h, st.m, st.d, st.slots[slot].ptr / 4096, H.Blocks(st.slots[slot].size));
    CoversSlotted(st, slot, q);
  }

  lemma FreeEntry(h: HeapDesc, st: UH.UserState, ptr: Word, q: Page)
    requires UH.Joint(h, st) && UH.Allowed(h, st, UH.FreeCall(ptr))
    ensures EntryStep(st, UH.UserFree(h, st, ptr), q, false)
  {
    hide UH.Joint, H.Kfree, UH.NullFreeHarmless, TablesOk, TablesLive, CreateMapping, AlignUp, Wrap, Pte, Slotted,
         UH.Released, WellFormed, UH.Find;
    UH.HeapOfJoint(h, st);
    var slot := UH.Find(st.slots, ptr, 0);
    if Slotted(st, q) {
      SlottedSelf(h, st, q);
    }
    if slot >= 0 {
      if ptr == 0 {
        UH.FreeOfNull(h, st);
        UH.NullFreeKeeps(h, st.m, st.d);
      } else {
        UH.FreeReleases(h, st, slot);
        ReleasedEntry(h, st, slot, q);
      }
    }
  }

  lemma CoversSlotted(st: UH.UserState, slot: nat, q: Page)
    requires slot < 1024
    ensures SlotCovers(st.slots[slot], q) ==> Slotted(st, q)
  {
  }

  lemma CallEntry(h: HeapDesc, st: UH.UserState, call: UH.Call, q: Page)
    requires UH.Joint(h, st) && UH.Allowed(h, st, call)
    ensures EntryStep(st, UH.Step(h, st, call), q, Touches(h, st, call, q)) && UH.Joint(h, UH.Step(h, st, call))
  {
    hide UH.Joint, UH.UserMalloc, UH.UserFree, UH.Allowed, EntryStep;
    match call
    case MallocCall(size) =>
      MallocEntry(h, st, size, q);
      UH.MallocKeeps(h, st, size);
    case FreeCall(ptr) =>
      FreeEntry(h, st, ptr, q);
      UH.FreeKeeps(h, st, ptr);
  }

  /** Over every run, a page that is mapped elsewhere keeps its entry exactly as long as no
      call is served a block with that page. */
  lemma {:induction false} EntryExact(h: HeapDesc, st: UH.UserState, calls: seq<UH.Call>, q: Page)
    requires UH.Joint(h, st) && RunAllowed(h, st, calls) && Pte(st.m, st.d, q) / 4096 != q
    ensures var r := UH.Run(h, st, calls);
            && UH.Joint(h, r) && r.d == st.d
            && (Pte(r.m, st.d, q) == Pte(st.m, st.d, q) <==> !RunTouches(h, st, calls, q))
            && (RunTouches(h, st, calls, q) ==> Pte(r.m, st.d, q) / 4096 == q)
  {
    hide UH.Joint, UH.Step, Pte, Touches, UH.Allowed, RunAllowed, Slotted;
    UH.HeapOfJoint(h, st);
    if calls != [] {
      var init, call := calls[..|calls| - 1], calls[|calls| - 1];
      RunPrefix(h, st, calls);
      EntryExact(h, st, init, q);
      var r := UH.Run(h, st, init);
      CallEntry(h, r, call, q);
      if Slotted(r, q) {
        SlottedSelf(h, r, q);
      }
    }
  }

  // ------------------------------------------------------------------
  // What the process can write.
  // ------------------------------------------------------------------

  /** The directory's page keeps its bytes. */
  lemma DirKept(m: Mem, r: Mem, h: HeapDesc, d: Page)
    requires H.HeapOk(m, h) && TablesLive(m, h, d) && (Kept(m, r, h) || OnlyTable(m, r, h))
    ensures AgreeOnPage(m, r, d)
  {
    hide H.Live, WellFormed, H.TableOf, Frame, Kept, Stable;
    LivePageStable(m, r, h, d);
    if OnlyTable(m, r, h) {
      TableOnlyKeepsPage(m, r, h, d);
    }
  }

  lemma ServedDir(h: HeapDesc, st: UH.UserState, size: Word, m1: Mem, f: Page, slot: nat)
    requires UH.Joint(h, st) && slot < 1024 && h.page <= f
    requires Zalloced(st.m, h, size, m1, 4096 * f, f - h.page, H.Blocks(size))
    ensures AgreeOnPage(st.m, UH.Served(h, st, size, m1, f, slot).m, st.d)
  {
    hide UH.Joint, MapPages, TablesOk, TablesLive, FreeCount, Kept, H.Live, H.TableOf, WellFormed, Pte, Frame, H.Blocks,
         OnlyPtes;
    UH.HeapOfJoint(h, st);
    DirKept(st.m, m1, h, st.d);
    UH.TablesAfterZalloc(st.m, m1, h, st.d, size, f, H.Blocks(size));
    MapPagesKeeps(m1, st.d, f, f, H.Blocks(size), UH.WRITABLE);
    OnlyPtesDir(m1, UH.Served(h, st, size, m1, f, slot).m, st.d);
  }

  lemma GivenUpDir(h: HeapDesc, st: UH.UserState, size: Word, s: nat)
    requires UH.Joint(h, st) && UH.Find(st.slots, 0, 0) < 0
    requires H.Blocks(size) > 0 && Window(H.TableOf(st.m, h), s, H.Blocks(size))
    ensures AgreeOnPage(st.m, UH.UserMalloc(h, st, size).0.m, st.d)
  {
    hide UH.Joint, UH.UserMalloc, UH.Find, H.Kzalloc, H.Kfree, H.Blocks, TablesOk, TablesLive, H.Live, Window, Pte,
         FreeCount, Kept, H.TableOf, WellFormed, Frame, SameTables;
    UH.HeapOfJoint(h, st);
    var g := UH.ServedFrom(h, st.m, size, s);
    var (m1, ptr) := H.Kzalloc(st.m, h, size);
    DirKept(st.m, m1, h, st.d);
    FreshFreed(st.m, m1, h, size, g, H.Blocks(size));
    UH.TablesAfterZalloc(st.m, m1, h, st.d, size, g, H.Blocks(size));
    DirKept(m1, H.Kfree(m1, h, ptr), h, st.d);
    UH.MallocGivesUp(h, st, size, m1, ptr);
  }

  lemma NullFreeDir(h: HeapDesc, st: UH.UserState)
    requires UH.Joint(h, st) && UH.NullFreeHarmless(h, st.m)
    ensures AgreeOnPage(st.m, H.Kfree(st.m, h, 0), st.d)
  {
    hide UH.Joint, H.Kfree, TablesOk, UH.NullFreeHarmless, H.Live, H.TableOf, WellFormed, Frame, Kept;
    UH.HeapOfJoint(h, st);
    LivePageStable(st.m, st.m, h, st.d);
    NullFreeKeepsPage(h, st.m, st.d);
  }

  lemma ReleasedDir(h: HeapDesc, st: UH.UserState, slot: nat)
    requires UH.Joint(h, st) && slot < 1024 && st.slots[slot].ptr != 0
    ensures AgreeOnPage(st.m, UH.Released(h, st, slot).m, st.d)
  {
    hide UH.Joint, MapPages, H.Kfree, H.Blocks, TablesOk, TablesLive, UH.IsTablePage, H.Live, UH.Find, Pte, H.TableOf,
         OnlyPtes, WellFormed, Frame;
    UH.HeapOfJoint(h, st);
    UH.FindsOccupied(h, st, slot);
    var g, n := st.slots[slot].ptr / 4096, H.Blocks(st.slots[slot].size);
    var m1 := MapPages(st.m, st.d, g, g, n, UH.READ_ONLY);
    UH.MapKeepsHeap(st.m, h, st.d, g, g, n, UH.READ_ONLY);
    OnlyPtesDir(st.m, m1, st.d);
    LiveFreed(m1, h, g);
    DirKept(m1, UH.Released(h, st, slot).m, h, st.d);
  }

  /** No call changes the directory. */
  lemma CallKeepsDir(h: HeapDesc, st: UH.UserState, call: UH.Call)
    requires UH.Joint(h, st) && UH.Allowed(h, st, call)
    ensures AgreeOnPage(st.m, UH.Step(h, st, call).m, st.d)
  {
    hide UH.Joint, UH.UserMalloc, UH.UserFree, UH.Find, MallocSafe, UH.NullFreeHarmless, Zalloced, UH.Served, H.Blocks,
         Window, H.Kfree, H.Kzalloc, UH.Released, TablesOk, TablesLive, WellFormed, AgreeOnPage;
    UH.HeapOfJoint(h, st);
    match call
    case MallocCall(size) =>
      if s: nat :| H.Blocks(size) > 0 && Window(H.TableOf(st.m, h), s, H.Blocks(size)) {
        if UH.Find(st.slots, 0, 0) >= 0 {
          var m1, f, slot := UH.MallocServes(h, st, size, s);
          ServedDir(h, st, size, m1, f, slot);
        } else {
          GivenUpDir(h, st, size, s);
        }
      } else {
        NotServed(h, st, size);
        UH.MallocGivesUp(h, st, size, st.m, 0);
        NullFreeDir(h, st);
      }
    case FreeCall(ptr) => FreeKeepsDir(h, st, ptr);
  }

  lemma FreeKeepsDir(h: HeapDesc, st: UH.UserState, ptr: Word)
    requires UH.Joint(h, st) && UH.Allowed(h, st, UH.FreeCall(ptr))
    ensures AgreeOnPage(st.m, UH.UserFree(h, st, ptr).m, st.d)
  {
    var slot := UH.Find(st.slots, ptr, 0);
    hide UH.Joint, H.Kfree, UH.NullFreeHarmless, CreateMapping, AlignUp, Wrap, UH.Released;
    if slot < 0 {
      assert UH.UserFree(h, st, ptr) == st;
    } else if ptr == 0 {
      UH.FreeOfNull(h, st);
      NullFreeDir(h, st);
    } else {
      UH.FreeReleases(h, st, slot);
      ReleasedDir(h, st, slot);
    }
  }

  /** A page that a call takes out of the slots cannot be written any more. */
  ghost predicate Withdrawn(st: UH.UserState, r: UH.UserState, q: Page) {
    Slotted(st, q) && !Slotted(r, q) ==> !Writable(Pte(r.m, r.d, q))
  }

  /** A page that a call brings into the slots was not there before. */
  lemma MallocSlots(h: HeapDesc, st: UH.UserState, size: Word, q: Page)
    requires UH.Joint(h, st) && UH.Allowed(h, st, UH.MallocCall(size))
    ensures var r := UH.UserMalloc(h, st, size).0;
            && (Slotted(st, q) ==> Slotted(r, q))
            && (Touches(h, st, UH.MallocCall(size), q) ==> Slotted(r, q))
  {
    hide UH.Joint, UH.UserMalloc, MallocSafe, UH.NullFreeHarmless, Zalloced, H.Blocks, Window, TablesOk, TablesLive,
         MapPages, SlotCovers, H.TableOf, WellFormed;
    UH.HeapOfJoint(h, st);
    if s: nat :| H.Blocks(size) > 0 && Window(H.TableOf(st.m, h), s, H.Blocks(size)) {
      if UH.Find(st.slots, 0, 0) >= 0 {
        var m1, f, slot := UH.MallocServes(h, st, size, s);
        SlotAdded(st, slot, UH.MemAllocation(4096 * (f as int), size), q);
        CoversServed(f, size, q);
        UH.ServedSlot(h, st, size, m1, f, slot);
      } else {
        UH.MallocWithoutSlot(h, st, size, s);
      }
    } else {
      UH.MallocRefused(h, st, size);
      if H.Blocks(size) > 0 {
        NoWindow(H.TableOf(st.m, h), H.Blocks(size));
      }
    }
  }

  lemma CoversServed(f: Page, size: Word, q: Page)
    requires f > 0
    ensures SlotCovers(UH.MemAllocation(4096 * (f as int), size), q) <==> f <= q < f + H.Blocks(size)
  {
    hide H.Blocks;
  }

  lemma SlotAdded(st: UH.UserState, slot: nat, s: UH.MemAllocation, q: Page)
    requires slot < 1024 && st.slots[slot].ptr == 0
    ensures var slots := st.slots[slot := s];
            (exists i: nat | i < 1024 :: SlotCovers(slots[i], q)) <==> Slotted(st, q) || SlotCovers(s, q)
  {
    var slots := st.slots[slot := s];
    assert slots[slot] == s;
    if i: nat :| i < 1024 && SlotCovers(st.slots[i], q) {
      assert slots[i] == st.slots[i];
    }
    if i: nat :| i < 1024 && SlotCovers(slots[i], q) {
      assert i != slot ==> slots[i] == st.slots[i];
    }
  }

  lemma SlotEmptied(st: UH.UserState, slot: nat, q: Page)
    requires slot < 1024
    ensures var slots := st.slots[slot := UH.EMPTY];
            var left := exists i: nat | i < 1024 :: SlotCovers(slots[i], q);
            (left ==> Slotted(st, q)) && (Slotted(st, q) && !left ==> SlotCovers(st.slots[slot], q))
  {
    var slots := st.slots[slot := UH.EMPTY];
    if i: nat :| i < 1024 && SlotCovers(slots[i], q) {
      assert i != slot && slots[i] == st.slots[i];
    }
    if i: nat :| i < 1024 && i != slot && SlotCovers(st.slots[i], q) {
      assert slots[i] == st.slots[i];
    }
  }

  lemma FreeSlots(h: HeapDesc, st: UH.UserState, ptr: Word, q: Page)
    requires UH.Joint(h, st) && UH.Allowed(h, st, UH.FreeCall(ptr))
    ensures var r := UH.UserFree(h, st, ptr);
            (Slotted(r, q) ==> Slotted(st, q)) && Withdrawn(st, r, q)
  {
    var slot := UH.Find(st.slots, ptr, 0);
    hide UH.Joint, H.Kfree, UH.NullFreeHarmless, CreateMapping, AlignUp, Wrap, UH.Released, SlotCovers, Pte, Writable,
         H.Blocks;
    if slot < 0 {
      assert UH.UserFree(h, st, ptr) == st;
    } else if ptr == 0 {
      UH.FreeOfNull(h, st);
      SameSlots(st, H.Kfree(st.m, h, 0), q);
    } else {
      SlotEmptied(st, slot, q);
      UH.FreeReleases(h, st, slot);
      ReleasedSlots(h, st, slot);
      if SlotCovers(st.slots[slot], q) {
        CoveredWithdrawn(h, st, slot, q);
      }
    }
  }

  lemma ReleasedSlots(h: HeapDesc, st: UH.UserState, slot: nat)
    requires slot < 1024
    ensures UH.Released(h, st, slot).slots == st.slots[slot := UH.EMPTY]
  {
    hide H.Kfree, MapPages, H.Blocks;
  }

  lemma CoveredWithdrawn(h: HeapDesc, st: UH.UserState, slot: nat, q: Page)
    requires UH.Joint(h, st) && slot < 1024 && st.slots[slot].ptr != 0 && SlotCovers(st.slots[slot], q)
    ensures var r := UH.UserFree(h, st, st.slots[slot].ptr);
            !Writable(Pte(r.m, r.d, q))
  {
    hide UH.Joint, UH.UserFree, Pte, Writable, H.Blocks;
    UH.FreeWithdraws(h, st, slot, q);
  }

  /** One call: pages come to be written only by being taken into the slots, and stop being
      so by leaving them. */
  lemma CallWrites(h: HeapDesc, st: UH.UserState, call: UH.Call, q: Page)
    requires UH.Joint(h, st) && UH.Allowed(h, st, call)
    ensures var r := UH.Step(h, st, call);
            Writable(Pte(r.m, r.d, q)) && !Slotted(r, q) ==> !Slotted(st, q) && Writable(Pte(st.m, st.d, q))
  {
    hide UH.Joint, UH.UserMalloc, UH.UserFree, UH.Allowed, Touches, Slotted, Pte, Writable;
    match call
    case MallocCall(size) =>
      MallocSlots(h, st, size, q);
      MallocEntry(h, st, size, q);
    case FreeCall(ptr) =>
      FreeSlots(h, st, ptr, q);
      FreeEntry(h, st, ptr, q);
  }

  /** Over every run, with a directory that leaves the decision to the tables: the process can
      write every page of its slots, and any other page only if it could from the start. */
  lemma {:induction false} RunWrites(h: HeapDesc, st: UH.UserState, calls: seq<UH.Call>, v: Word)
    requires UH.Joint(h, st) && RunAllowed(h, st, calls) && OpenDir(st.m, st.d) && !Slotted(st, v / 4096)
    ensures var r := UH.Run(h, st, calls);
            && UH.Joint(h, r) && r.d == st.d && OpenDir(r.m, r.d)
            && (Slotted(r, v / 4096) ==> UserWritable(r.m, r.d, v))
            && (UserWritable(r.m, r.d, v) && !Slotted(r, v / 4096) ==> Writable(Pte(st.m, st.d, v / 4096)))
  {
    hide UH.Joint, UH.Run, RunAllowed, Slotted, Pte, OpenDir, UserWritable, Writable;
    UH.HeapOfJoint(h, st);
    RunWritesPage(h, st, calls, v / 4096);
    var r := UH.Run(h, st, calls);
    WritesNeed(r.m, r.d, v);
    if Slotted(r, v / 4096) {
      SlottedSelf(h, r, v / 4096);
      WritableEntry(v / 4096);
      GrantedAccess(r.m, r.d, v, true);
    }
  }

  lemma WritesNeed(m: Mem, d: Page, v: Word)
    ensures UserWritable(m, d, v) ==> Writable(Pte(m, d, v / 4096))
  {
    hide Pte, Slot;
  }

  lemma {:induction false} RunWritesPage(h: HeapDesc, st: UH.UserState, calls: seq<UH.Call>, q: Page)
    requires UH.Joint(h, st) && RunAllowed(h, st, calls) && OpenDir(st.m, st.d) && !Slotted(st, q)
    ensures var r := UH.Run(h, st, calls);
            && UH.Joint(h, r) && r.d == st.d && OpenDir(r.m, r.d)
            && (Writable(Pte(r.m, r.d, q)) && !Slotted(r, q) ==> Writable(Pte(st.m, st.d, q)))
  {
    hide UH.Joint, UH.Step, Pte, Touches, UH.Allowed, RunAllowed, Slotted, OpenDir, Writable, AgreeOnPage;
    UH.HeapOfJoint(h, st);
    if calls != [] {
      var init, call := calls[..|calls| - 1], calls[|calls| - 1];
      RunPrefix(h, st, calls);
      RunWritesPage(h, st, init, q);
      var r := UH.Run(h, st, init);
      CallEntry(h, r, call, q);
      CallWrites(h, r, call, q);
      CallKeepsDir(h, r, call);
      OpenStays(r.m, UH.Step(h, r, call).m, r.d);
    }
  }

  lemma NoneSlotted(st: UH.UserState, q: Page)
    requires st.slots == UH.NoSlots()
    ensures !Slotted(st, q)
  {
  }

  /** From loading on, over every run: outside its stack, arguments and executable a process
      can write a byte exactly while it lies in a block that malloc gave and free did not take. */
  lemma WritesOnlyOwn(m: Mem, h: HeapDesc, exec: Exec, strs: seq<CString>, s: nat, calls: seq<UH.Call>, v: Word)
    requires H.HeapOk(m, h) && Window(H.TableOf(m, h), s, 4) && FreeCount(H.TableOf(m, h)) >= 1032
    requires |strs| <= MOST_ARGS && forall i | 0 <= i < |strs| :: |strs[i]| <= 32
    requires ExecHeld(m, h, exec) && AvoidsArgs(m, exec)
    requires RunAllowed(h, Fresh(m, h, exec, strs), calls)
    ensures var r := UH.Run(h, Fresh(m, h, exec, strs), calls);
            && (Slotted(r, v / 4096) ==> UserWritable(r.m, r.d, v))
            && (!StackOrArgs(v / 4096) && !ExecPage(m, exec, v / 4096) ==>
                  (UserWritable(r.m, r.d, v) <==> Slotted(r, v / 4096)))
  {
    hide LoadImage, FreeCount, Window, ExecHeld, AvoidsArgs, UH.Joint, UH.Run, RunAllowed, Slotted, Pte, OpenDir,
         UserWritable, UserReadable, ExecPage, Loaded, Writable;
    var st := Fresh(m, h, exec, strs);
    var sp, bp := LoadedJoint(m, h, exec, strs, s);
    TaskMemoryAccess(m, h, exec, strs, s, v);
    NoneSlotted(st, v / 4096);
    RunWrites(h, st, calls, v);
    if !StackOrArgs(v / 4096) && !ExecPage(m, exec, v / 4096) {
      EntryElsewhere(m, h, exec, strs, s, v / 4096);
      NotWritable(v / 4096);
    }
  }

  lemma NotWritable(p: Page)
    ensures !Writable(4096 * (p as int) + 5)
  {
    FlagsOfEntry(p, 5);
  }

  /** A malloc whose pages are none of those leaves no trace once freed. */
  lemma FreshUndone(m: Mem, h: HeapDesc, exec: Exec, strs: seq<CString>, s: nat, size: Word, w: nat)
    requires H.HeapOk(m, h) && Window(H.TableOf(m, h), s, 4) && FreeCount(H.TableOf(m, h)) >= 1032
    requires |strs| <= MOST_ARGS && forall i | 0 <= i < |strs| :: |strs[i]| <= 32
    requires ExecHeld(m, h, exec) && AvoidsArgs(m, exec)
    requires H.Blocks(size) > 0 && Window(H.TableOf(Fresh(m, h, exec, strs).m, h), w, H.Blocks(size))
    requires var b := FirstWindow(H.TableOf(Fresh(m, h, exec, strs).m, h), H.Blocks(size), 0);
             forall q: Page | h.page + b <= q < h.page + b + H.Blocks(size) :: !StackOrArgs(q) && !ExecPage(m, exec, q)
    ensures var st := Fresh(m, h, exec, strs);
            var (st1, ptr) := UH.UserMalloc(h, st, size);
            var r := UH.UserFree(h, st1, ptr);
            && ptr != 0 && r.slots == st.slots && H.TableOf(r.m, h) == H.TableOf(st.m, h)
            && SameTables(st.m, r.m, st.d)
  {
    hide LoadImage, FreeCount, Window, ExecHeld, AvoidsArgs, UH.Joint, UH.UserMalloc, UH.UserFree, Pte, ExecPage,
         Loaded, H.Blocks, SameTables, H.TableOf, WellFormed;
    var st := Fresh(m, h, exec, strs);
    var sp, bp := LoadedJoint(m, h, exec, strs, s);
    assert st.slots[0].ptr == 0;
    var f := UH.FreeUndoesMalloc(h, st, size, w);
    forall p: Page | f <= p < f + H.Blocks(size)
      ensures UH.SelfMapped(st.m, st.d, p, 5)
    {
      EntryElsewhere(m, h, exec, strs, s, p);
    }
  }

  // ------------------------------------------------------------------
  // Pages of the heap that are not the process's own.
  // ------------------------------------------------------------------

  /** Page `f` of the heap is taken, by neither a slot nor the page tables. */
  ghost predicate Guarded(h: HeapDesc, st: UH.UserState, f: Page) {
    && h.Valid() && h.page <= f < h.page + h.total && !FreePage(st.m, h, f)
    && !Slotted(st, f) && !UH.IsTablePage(st.m, st.d, f)
  }

  /** A page keeps its bytes while only other blocks, entries and the heap's table change. */
  lemma MapKeepsPage(m: Mem, d: Page, v: Page, g: Page, n: nat, prot: Flags, f: Page)
    requires TablesOk(m, d) && !UH.IsTablePage(m, d, f)
    ensures AgreeOnPage(m, MapPages(m, d, v, g, n, prot), f)
    ensures !UH.IsTablePage(MapPages(m, d, v, g, n, prot), d, f)
  {
    hide MapPages, Frame, TablesOk;
    MapPagesKeeps(m, d, v, g, n, prot);
    forall a: Word | InPage(f, a)
      ensures !TableByte(m, d, a)
    {
    }
  }

  lemma ZallocKeepsPage(m: Mem, m1: Mem, h: HeapDesc, size: Word, g: Page, n: nat, f: Page)
    requires h.Valid() && h.page <= g && Zalloced(m, h, size, m1, 4096 * g, g - h.page, n)
    requires h.page <= f < h.page + h.total && !FreePage(m, h, f)
    ensures AgreeOnPage(m, m1, f) && !FreePage(m1, h, f) && !(g <= f < g + n) && H.HeapOk(m1, h)
  {
    hide FreeCount, Kept, H.Live, WellFormed;
    assert !(g <= f < g + n);
    forall a: Word | InPage(f, a)
      ensures m1[a] == m[a]
    {
      assert !H.InTable(h, a) && !(4096 * g <= a < 4096 * g + size);
    }
  }

  lemma TableOnlyKeepsPage(m: Mem, r: Mem, h: HeapDesc, f: Page)
    requires h.Valid() && OnlyTable(m, r, h) && h.page <= f < h.page + h.total
    ensures AgreeOnPage(m, r, f)
  {
    assert forall a: Word | InPage(f, a) :: !H.InTable(h, a);
  }

  /** The tables' pages are the same when the directory is. */
  lemma SameTablePages(m: Mem, r: Mem, d: Page, f: Page)
    requires SameDir(m, r, d)
    ensures UH.IsTablePage(m, d, f) == UH.IsTablePage(r, d, f)
  {
  }

  ghost predicate PageKept(h: HeapDesc, st: UH.UserState, r: UH.UserState, f: Page) {
    Guarded(h, r, f) && AgreeOnPage(st.m, r.m, f)
  }

  lemma ServedKeepsPage(h: HeapDesc, st: UH.UserState, size: Word, m1: Mem, g: Page, slot: nat, f: Page)
    requires UH.Joint(h, st) && Guarded(h, st, f) && slot < 1024 && h.page <= g
    requires H.Blocks(size) > 0 && Zalloced(st.m, h, size, m1, 4096 * g, g - h.page, H.Blocks(size))
    ensures PageKept(h, st, UH.Served(h, st, size, m1, g, slot), f)
  {
    hide UH.Joint, Zalloced, H.Blocks, MapPages, TablesOk, TablesLive, UH.IsTablePage, FreePage, FreeCount, Kept,
         H.Live, Pte;
    UH.HeapOfJoint(h, st);
    var n, r := H.Blocks(size), UH.Served(h, st, size, m1, g, slot);
    ZallocKeepsPage(st.m, m1, h, size, g, n, f);
    UH.TablesAfterZalloc(st.m, m1, h, st.d, size, g, n);
    SameTablePages(st.m, m1, st.d, f);
    MapKeepsPage(m1, st.d, g, g, n, UH.WRITABLE, f);
    UH.MapKeepsHeap(m1, h, st.d, g, g, n, UH.WRITABLE);
    SameFree(m1, r.m, h, f);
    NewSlotNot(st, slot, UH.MemAllocation(4096 * g, size), f);
  }

  lemma SameFree(m: Mem, r: Mem, h: HeapDesc, f: Page)
    requires h.Valid() && H.TableOf(r, h) == H.TableOf(m, h)
    ensures FreePage(r, h, f) == FreePage(m, h, f)
  {
  }

  lemma NewSlotNot(st: UH.UserState, slot: nat, s: UH.MemAllocation, f: Page)
    requires slot < 1024 && !Slotted(st, f) && !SlotCovers(s, f)
    ensures !Slotted(UH.UserState(st.m, st.d, st.slots[slot := s]), f)
  {
    hide SlotCovers;
    var slots := st.slots[slot := s];
    forall i: nat | i < 1024
      ensures !SlotCovers(slots[i], f)
    {
      assert i != slot ==> slots[i] == st.slots[i] && !SlotCovers(st.slots[i], f);
    }
  }

  /** kfree(NULL) below the table does not reach the heap's pages. */
  lemma NullFreeKeepsPage(h: HeapDesc, m: Mem, f: Page)
    requires UH.NullFreeHarmless(h, m) && h.page <= f < h.page + h.total
    ensures AgreeOnPage(m, H.Kfree(m, h, 0), f)
  {
    hide H.FreedMem, StopsBelow;
    NullIndex(h);
    FreedBelow(m, h, h.BlockIndex(0));
  }

  lemma GivenUpKeepsPage(h: HeapDesc, st: UH.UserState, size: Word, s: nat, f: Page)
    requires UH.Joint(h, st) && Guarded(h, st, f) && UH.Find(st.slots, 0, 0) < 0
    requires H.Blocks(size) > 0 && Window(H.TableOf(st.m, h), s, H.Blocks(size))
    ensures PageKept(h, st, UH.UserMalloc(h, st, size).0, f)
  {
    hide UH.Joint, UH.UserMalloc, UH.Find, H.Kzalloc, H.Kfree, H.Blocks, Zalloced, TablesOk, TablesLive, UH.IsTablePage,
         FreePage, H.Live, Slotted, Window, Pte;
    UH.HeapOfJoint(h, st);
    var n := H.Blocks(size);
    var g := UH.ServedFrom(h, st.m, size, s);
    var (m1, ptr) := H.Kzalloc(st.m, h, size);
    ZallocKeepsPage(st.m, m1, h, size, g, n, f);
    FreshFreed(st.m, m1, h, size, g, n);
    var r := H.Kfree(m1, h, ptr);
    TableOnlyKeepsPage(m1, r, h, f);
    UH.MallocGivesUp(h, st, size, m1, ptr);
    UH.MallocWithoutSlot(h, st, size, s);
    SameFree(st.m, r, h, f);
    SameTablePages(st.m, r, st.d, f);
    SameSlots(st, r, f);
  }

  lemma SameSlots(st: UH.UserState, m: Mem, f: Page)
    ensures Slotted(UH.UserState(m, st.d, st.slots), f) == Slotted(st, f)
  {
  }

  lemma FreshFreed(m: Mem, m1: Mem, h: HeapDesc, size: Word, g: Page, n: nat)
    requires h.Valid() && h.page <= g && n > 0 && Zalloced(m, h, size, m1, 4096 * g, g - h.page, n)
    ensures OnlyTable(m1, H.Kfree(m1, h, 4096 * g), h)
  {
    hide FreeCount, Kept, H.TableOf, WellFormed;
    FreeLive(m1, h, g - h.page);
  }

  lemma RefusedKeepsPage(h: HeapDesc, st: UH.UserState, r: UH.UserState, f: Page)
    requires UH.Joint(h, st) && Guarded(h, st, f) && UH.NullFreeHarmless(h, st.m)
    requires r == st.(m := H.Kfree(st.m, h, 0))
    ensures PageKept(h, st, r, f)
  {
    hide UH.Joint, H.Kfree, TablesOk, TablesLive, UH.IsTablePage, FreePage, Slotted, UH.NullFreeHarmless, Pte;
    UH.HeapOfJoint(h, st);
    NullFreeKeepsPage(h, st.m, f);
    UH.NullFreeKeeps(h, st.m, st.d);
    SameFree(st.m, r.m, h, f);
    SameTablePages(st.m, r.m, st.d, f);
    SameSlots(st, r.m, f);
  }

  lemma MallocKeepsPage(h: HeapDesc, st: UH.UserState, size: Word, f: Page)
    requires UH.Joint(h, st) && Guarded(h, st, f) && UH.Allowed(h, st, UH.MallocCall(size))
    ensures PageKept(h, st, UH.UserMalloc(h, st, size).0, f)
  {
    hide UH.Joint, UH.UserMalloc, UH.Find, MallocSafe, UH.NullFreeHarmless, Zalloced, UH.Served, H.Blocks, Window,
         Guarded, PageKept, H.Kfree, H.Kzalloc;
    UH.HeapOfJoint(h, st);
    if s: nat :| H.Blocks(size) > 0 && Window(H.TableOf(st.m, h), s, H.Blocks(size)) {
      if UH.Find(st.slots, 0, 0) >= 0 {
        var m1, g, slot := UH.MallocServes(h, st, size, s);
        ServedKeepsPage(h, st, size, m1, g, slot, f);
      } else {
        GivenUpKeepsPage(h, st, size, s, f);
      }
    } else {
      NotServed(h, st, size);
      UH.MallocGivesUp(h, st, size, st.m, 0);
      RefusedKeepsPage(h, st, st.(m := H.Kfree(st.m, h, 0)), f);
    }
  }

  lemma NotServed(h: HeapDesc, st: UH.UserState, size: Word)
    requires H.HeapOk(st.m, h) && MallocSafe(H.TableOf(st.m, h), H.Blocks(size))
    requires H.Blocks(size) == 0 || forall s: nat :: !Window(H.TableOf(st.m, h), s, H.Blocks(size))
    ensures H.Kzalloc(st.m, h, size) == (st.m, 0)
  {
    hide H.MallocBlocks;
    MallocRefuses(st.m, h, H.Blocks(size));
  }

  lemma ReleasedKeepsPage(h: HeapDesc, st: UH.UserState, slot: nat, f: Page)
    requires UH.Joint(h, st) && Guarded(h, st, f) && slot < 1024 && st.slots[slot].ptr != 0
    ensures PageKept(h, st, UH.Released(h, st, slot), f)
  {
    hide UH.Joint, MapPages, H.Kfree, H.Blocks, TablesOk, TablesLive, UH.IsTablePage, H.Live, Slotted, UH.Find, Pte,
         H.TableOf;
    UH.HeapOfJoint(h, st);
    UH.FindsOccupied(h, st, slot);
    var s, r := st.slots[slot], UH.Released(h, st, slot);
    var g, n := s.ptr / 4096, H.Blocks(s.size);
    CoversSlotted(st, slot, f);
    MapKeepsPage(st.m, st.d, g, g, n, UH.READ_ONLY, f);
    UH.MapKeepsHeap(st.m, h, st.d, g, g, n, UH.READ_ONLY);
    var m1 := MapPages(st.m, st.d, g, g, n, UH.READ_ONLY);
    LiveFreed(m1, h, g);
    TableOnlyKeepsPage(m1, r.m, h, f);
    UH.ReleasedMemory(h, st.m, st.d, g, n);
    StillTaken(st.m, r.m, h, g, n, f);
    SameTablePages(st.m, r.m, st.d, f);
    NewSlotNot(st, slot, UH.EMPTY, f);
    SameSlots(st.(slots := st.slots[slot := UH.EMPTY]), r.m, f);
  }

  lemma LiveFreed(m: Mem, h: HeapDesc, g: Page)
    requires H.HeapOk(m, h) && h.page <= g && g - h.page in H.Live(m, h)
    ensures OnlyTable(m, H.Kfree(m, h, 4096 * g), h)
  {
    hide H.TableOf, WellFormed;
    FreeLive(m, h, g - h.page);
  }

  lemma StillTaken(m: Mem, r: Mem, h: HeapDesc, g: Page, n: nat, f: Page)
    requires h.Valid() && h.page <= g && g + n <= h.page + h.total && h.page <= f < h.page + h.total
    requires !FreePage(m, h, f) && !(g <= f < g + n) && H.TableOf(r, h) == Cleared(H.TableOf(m, h), g - h.page, n)
    ensures !FreePage(r, h, f)
  {
  }

  lemma FreeKeepsPage(h: HeapDesc, st: UH.UserState, ptr: Word, f: Page)
    requires UH.Joint(h, st) && Guarded(h, st, f) && UH.Allowed(h, st, UH.FreeCall(ptr))
    ensures PageKept(h, st, UH.UserFree(h, st, ptr), f)
  {
    UH.HeapOfJoint(h, st);
    var slot := UH.Find(st.slots, ptr, 0);
    hide UH.Joint, H.Kfree, UH.NullFreeHarmless, CreateMapping, AlignUp, Wrap, Guarded, UH.Released;
    if slot < 0 {
      assert UH.UserFree(h, st, ptr) == st;
    } else if ptr == 0 {
      UH.FreeOfNull(h, st);
      RefusedKeepsPage(h, st, UH.UserFree(h, st, ptr), f);
    } else {
      UH.FreeReleases(h, st, slot);
      ReleasedKeepsPage(h, st, slot, f);
    }
  }

  /** Over every run such a page keeps its bytes, and no call is served a block with it. */
  lemma {:induction false} GuardedPage(h: HeapDesc, st: UH.UserState, calls: seq<UH.Call>, f: Page)
    requires UH.Joint(h, st) && Guarded(h, st, f) && RunAllowed(h, st, calls)
    ensures var r := UH.Run(h, st, calls);
            && UH.Joint(h, r) && r.d == st.d && PageKept(h, st, r, f)
            && !RunTouches(h, st, calls, f) && Pte(r.m, st.d, f) == Pte(st.m, st.d, f)
  {
    hide UH.Joint, UH.Step, UH.Allowed, RunAllowed, FreePage, Slotted, UH.IsTablePage, Pte, Touches;
    if calls != [] {
      var init, call := calls[..|calls| - 1], calls[|calls| - 1];
      RunPrefix(h, st, calls);
      GuardedPage(h, st, init, f);
      var r := UH.Run(h, st, init);
      CallKeepsPage(h, r, call, f);
      CallEntry(h, r, call, f);
    }
  }

  lemma CallKeepsPage(h: HeapDesc, st: UH.UserState, call: UH.Call, f: Page)
    requires UH.Joint(h, st) && Guarded(h, st, f) && UH.Allowed(h, st, call)
    ensures PageKept(h, st, UH.Step(h, st, call), f) && !Touches(h, st, call, f)
  {
    hide UH.Joint, UH.UserMalloc, UH.UserFree, PageKept;
    match call
    case MallocCall(size) =>
      MallocKeepsPage(h, st, size, f);
      MallocMisses(h, st, size, f);
    case FreeCall(ptr) =>
      FreeKeepsPage(h, st, ptr, f);
  }

  /** A served block is made of pages that were free. */
  lemma MallocMisses(h: HeapDesc, st: UH.UserState, size: Word, f: Page)
    requires UH.Joint(h, st) && Guarded(h, st, f)
    ensures !Touches(h, st, UH.MallocCall(size), f)
  {
    hide UH.Joint, UH.Find, H.Blocks, Slotted, UH.IsTablePage;
    UH.HeapOfJoint(h, st);
  }

  // ------------------------------------------------------------------
  // The arguments over runs.
  // ------------------------------------------------------------------

  lemma LoadedGuarded(m: Mem, h: HeapDesc, st: UH.UserState, sp: Page, bp: Page, strs: seq<CString>)
    requires Loaded(m, st.m, h, st.d, sp, bp, strs) && st.slots == UH.NoSlots()
    ensures Guarded(h, st, sp + 3) && Guarded(h, st, bp)
  {
    hide Stable, Frame, StackAndArgs, ArgsInPlace, Kept, TablesOk, TablesLive, WellFormed, FreePage;
    HeldTaken(st.m, h, sp + 3);
    HeldTaken(st.m, h, bp);
  }

  /** One of them over a run: it stays exactly as long as no call is served its page. */
  lemma ArgEntry(h: HeapDesc, st: UH.UserState, calls: seq<UH.Call>, q: Page, f: Page)
    requires UH.Joint(h, st) && RunAllowed(h, st, calls) && Guarded(h, st, f) && Pte(st.m, st.d, q) == 4096 * f + 7
    ensures var r := UH.Run(h, st, calls);
            Pte(r.m, st.d, q) == 4096 * f + 7 <==> !RunTouches(h, st, calls, q)
  {
    hide UH.Joint, UH.Run, RunAllowed, Guarded, RunTouches, PageKept, Pte;
    DivModUnique(4096 * f + 7, 4096, f, 7);
    if f == q {
      GuardedPage(h, st, calls, f);
    } else {
      EntryExact(h, st, calls, q);
    }
  }

  /** A loaded process's malloc and free calls keep the way to its arguments exactly as long
      as no call is served a block with page 0x2000 or 0x3FE; until then the process sees
      its arguments as it did at the start. */
  lemma ArgumentsOverRuns(m: Mem, h: HeapDesc, exec: Exec, strs: seq<CString>, s: nat, calls: seq<UH.Call>)
    returns (sp: Page, bp: Page)
    requires H.HeapOk(m, h) && Window(H.TableOf(m, h), s, 4) && FreeCount(H.TableOf(m, h)) >= 1032
    requires |strs| <= MOST_ARGS && forall i | 0 <= i < |strs| :: |strs[i]| <= 32
    requires ExecHeld(m, h, exec) && AvoidsArgs(m, exec)
    requires RunAllowed(h, Fresh(m, h, exec, strs), calls)
    ensures var st := Fresh(m, h, exec, strs);
            var r := UH.Run(h, st, calls);
            && UH.Joint(h, r) && r.d == st.d && ArgEntries(st.m, st.d, sp, bp)
            && (ArgEntries(r.m, st.d, sp, bp) <==>
                !RunTouches(h, st, calls, 0x2000) && !RunTouches(h, st, calls, 0x3FE))
            && (ArgEntries(r.m, st.d, sp, bp) ==>
                SeesPointers(r.m, st.d, strs) && (SeesArguments(r.m, st.d, strs) <==> ArgsLast(strs)))
  {
    hide LoadImage, FreeCount, Window, ExecHeld, AvoidsArgs, UH.Joint, Kept, TablesOk, TablesLive, UH.Run,
         RunAllowed, Fresh, RunTouches, Guarded, ArgsInPlace, SeesArguments, ArgsLast, Pte, PageHeld, Untabled,
         AgreeOnPage;
    sp, bp := LoadedJoint(m, h, exec, strs, s);
    var st := Fresh(m, h, exec, strs);
    assert st.slots == UH.NoSlots() by { FreshSlots(m, h, exec, strs); }
    LoadedGuarded(m, h, st, sp, bp, strs);
    ArgEntry(h, st, calls, 0x3FE, sp + 3);
    ArgEntry(h, st, calls, 0x2000, bp);
    GuardedPage(h, st, calls, sp + 3);
    GuardedPage(h, st, calls, bp);
    var r := UH.Run(h, st, calls);
    InPlaceAgrees(st.m, r.m, sp + 3, bp, strs);
    if ArgEntries(r.m, st.d, sp, bp) {
      ArgumentsSeen(r.m, st.d, sp, bp, strs);
    }
  }

  lemma FreshSlots(m: Mem, h: HeapDesc, exec: Exec, strs: seq<CString>)
    requires h.Valid() && |strs| <= MOST_ARGS
    ensures Fresh(m, h, exec, strs).slots == UH.NoSlots()
  {
    hide LoadImage;
  }

  // ------------------------------------------------------------------
  // A process asks for 16 MiB.
  // ------------------------------------------------------------------

  /** Loading takes 1032 blocks from the bottom of a heap whose upper blocks are free. */
  lemma LoadReach(m: Mem, h: HeapDesc, exec: Exec, strs: seq<CString>, s: nat, k: nat)
    requires H.HeapOk(m, h) && Window(H.TableOf(m, h), s, 4) && FreeCount(H.TableOf(m, h)) >= 1032
    requires |strs| <= MOST_ARGS && forall i | 0 <= i < |strs| :: |strs[i]| <= 32
    requires ExecHeld(m, h, exec) && AvoidsArgs(m, exec)
    requires FreeFrom(H.TableOf(m, h), k) && k + 1032 <= h.total
    ensures FreeFrom(H.TableOf(LoadImage(m, h, exec, strs).0, h), k + 1032)
  {
    hide H.Kzalloc, InitialTables, MapTaskMemory, StackArgs, LoadArgs, FreeCount, Kept, PageHeld, Slot, ArgLoaded,
         FreeFrom, ExecHeld, AvoidsArgs, ArgsInPlace, Window, WellFormed, TablesLive;
    var sp := StackReady(m, h, s, |strs|);
    assert PagePlus(sp, 3) == sp + 3;
    assert H.Blocks(0x4000) == 4;
    FreeFromZalloc(m, h, 0x4000, k);
    var m2 := StackArgs(H.Kzalloc(m, h, 0x4000).0, sp + 3, |strs|);
    var bp := BlockReady(m2, h, strs);
    OneBlock(180);
    FreeFromZalloc(m2, h, 180, k + 4);
    var m4 := LoadArgs(H.Kzalloc(m2, h, 180).0, bp, strs, |strs|);
    OneBlock(TASK_SIZE);
    FreeFromZalloc(m4, h, TASK_SIZE, k + 5);
    TablesReachToo(m, h, exec, strs, s, H.Kzalloc(m4, h, TASK_SIZE).0, sp, bp, k);
  }

  lemma TablesReachToo(m: Mem, h: HeapDesc, exec: Exec, strs: seq<CString>, s: nat, m5: Mem, sp: Page, bp: Page, k: nat)
    requires H.HeapOk(m, h) && Window(H.TableOf(m, h), s, 4) && FreeCount(H.TableOf(m, h)) >= 1032
    requires |strs| <= MOST_ARGS && forall i | 0 <= i < |strs| :: |strs[i]| <= 32
    requires ExecHeld(m, h, exec) && AvoidsArgs(m, exec)
    requires var (m1, stack) := H.Kzalloc(m, h, 0x4000);
             var (m2, block) := H.Kzalloc(StackArgs(m1, PagePlus(stack / 4096, 3), |strs|), h, 180);
             && stack == 4096 * sp > 0 && block == 4096 * bp > 0
             && m5 == H.Kzalloc(LoadArgs(m2, block / 4096, strs, |strs|), h, TASK_SIZE).0
    requires FreeFrom(H.TableOf(m5, h), k + 6) && k + 1032 <= h.total
    ensures FreeFrom(H.TableOf(LoadImage(m, h, exec, strs).0, h), k + 1032)
  {
    hide H.Kzalloc, InitialTables, MapTaskMemory, StackArgs, LoadArgs, FreeCount, Kept, PageHeld, Slot, ArgLoaded,
         FreeFrom, ExecHeld, AvoidsArgs, ArgsInPlace, Window, WellFormed, TablesLive, TablesFresh, LiveGrows,
         LivePage, Translate, Loaded, OnlyPtes, ExecApart;
    var r, sp1, bp1 := PreparedForTask(m, h, strs, s);
    InitReach(m5, h, 5, k + 6);
    var d := TaskLoaded(m, m5, h, sp, bp, exec, strs);
    var m6 := InitialTables(m5, h, 5).0;
    var d1, f := InitIdentity(m5, h, 5);
    TaskMemoryMapped(m6, d, sp, bp, exec);
    EntriesKeepHeap(m6, MapTaskMemory(m6, d, 4096 * sp, 4096 * bp, exec).0, h, d);
  }

  /** A process can be loaded while the kernel's heap is free from block `k` on, and then
      takes no block from number 4096 on. */
  ghost predicate Loadable(m: Mem, k: nat, exec: Exec, strs: seq<CString>) {
    && H.HeapOk(m, H.KERNEL_HEAP) && FreeFrom(H.TableOf(m, H.KERNEL_HEAP), k) && k + 1032 <= 4096
    && |strs| <= MOST_ARGS && (forall i | 0 <= i < |strs| :: |strs[i]| <= 32)
    && ExecHeld(m, H.KERNEL_HEAP, exec) && AvoidsArgs(m, exec)
  }

  /** So it is after the kernel has built its own tables, for any flat binary of up to 28 MiB. */
  lemma BootLoadable(m: Mem, k: nat, ptr: Word, size: Word, strs: seq<CString>)
    requires H.HeapOk(m, H.KERNEL_HEAP) && FreeFrom(H.TableOf(m, H.KERNEL_HEAP), k) && k + 1026 + 1032 <= 4096
    requires Aligned(ptr) && ptr + size <= 0xFFFF_F000 && size <= 0x1C0_0000
    requires |strs| <= MOST_ARGS && forall i | 0 <= i < |strs| :: |strs[i]| <= 32
    ensures Loadable(InitialTables(m, H.KERNEL_HEAP, 7).0, k + 1026, Binary(ptr, size), strs)
  {
    hide InitialTables, FreeFrom, WellFormed, Kept;
    var d := KernelBoot(m, k);
  }

  lemma LoadableLoaded(m: Mem, k: nat, exec: Exec, strs: seq<CString>) returns (sp: Page, bp: Page)
    requires Loadable(m, k, exec, strs)
    ensures var st := Fresh(m, H.KERNEL_HEAP, exec, strs);
            && UH.Joint(H.KERNEL_HEAP, st) && FreeFrom(H.TableOf(st.m, H.KERNEL_HEAP), k + 1032)
            && st.slots == UH.NoSlots() && ArgEntries(st.m, st.d, sp, bp) && bp < 0x2000
  {
    hide LoadImage, FreeCount, WellFormed, UH.Joint, FreeFrom, StackAndArgs, ArgsInPlace, PageHeld, Kept, TablesOk,
         TablesLive, Untabled, Pte, ExecHeld, AvoidsArgs, Guarded;
    var h := H.KERNEL_HEAP;
    FreeFromCount(H.TableOf(m, h), k);
    assert Window(H.TableOf(m, h), k, 4) by { WindowFree(H.TableOf(m, h), k, 4); }
    sp, bp := LoadedJoint(m, h, exec, strs, k);
    LoadReach(m, h, exec, strs, k, k);
    var st := Fresh(m, h, exec, strs);
    EntriesOf(st, sp, bp);
    LoadedGuarded(m, h, st, sp, bp, strs);
    GuardedBelow(st, k + 1032, bp);
  }

  lemma GuardedBelow(st: UH.UserState, k: nat, f: Page)
    requires Guarded(H.KERNEL_HEAP, st, f) && FreeFrom(H.TableOf(st.m, H.KERNEL_HEAP), k)
    ensures f < 0x1000 + k
  {
    hide Slotted, UH.IsTablePage;
  }

  lemma EntriesOf(st: UH.UserState, sp: Page, bp: Page)
    requires StackAndArgs(st.m, st.d, sp, bp)
    ensures ArgEntries(st.m, st.d, sp, bp)
  {
    hide Pte;
  }

  lemma WindowFree(t: Table, k: nat, n: nat)
    requires FreeFrom(t, k) && k + n <= |t|
    ensures Window(t, k, n)
  {
  }

  /** A request of 4097 or more blocks is served from block 4096 or below, so its block
      covers page 0x2000. */
  lemma BigMallocServed(st: UH.UserState, k: nat, size: Word) returns (m1: Mem, f: Page, slot: nat)
    requires UH.Joint(H.KERNEL_HEAP, st) && FreeFrom(H.TableOf(st.m, H.KERNEL_HEAP), k) && st.slots == UH.NoSlots()
    requires k <= 4096 < H.Blocks(size) <= H.KERNEL_HEAP.total - k
    ensures slot < 1024 && 0x1000 <= f <= 0x2000 < f + H.Blocks(size)
    ensures Zalloced(st.m, H.KERNEL_HEAP, size, m1, 4096 * f, f - 0x1000, H.Blocks(size))
    ensures UH.UserMalloc(H.KERNEL_HEAP, st, size) == (UH.Served(H.KERNEL_HEAP, st, size, m1, f, slot), 4096 * f)
    ensures Touches(H.KERNEL_HEAP, st, UH.MallocCall(size), 0x2000)
    ensures Window(H.TableOf(st.m, H.KERNEL_HEAP), k, H.Blocks(size)) && UH.Find(st.slots, 0, 0) == 0
  {
    hide UH.Joint, H.Kzalloc, Zalloced, H.Blocks, UH.UserMalloc, UH.Served, WellFormed, FreeFrom;
    var h := H.KERNEL_HEAP;
    UH.HeapOfJoint(h, st);
    WindowFree(H.TableOf(st.m, h), k, H.Blocks(size));
    assert st.slots[0].ptr == 0;
    H.BlocksRoundsUp(size);
    m1, f, slot := UH.MallocServes(h, st, size, k);
  }

  /** The task reads NULL for argv[0]. */
  ghost predicate ArgvCleared(m: Mem, d: Page) {
    TaskWord(m, d, ARG_VIRT_ADDR) == 0
  }

  /** Then the task's way to its arguments is gone, and the block it was given is what it
      finds at the address of its argv array. */
  lemma BigMallocLosesArguments(m: Mem, k: nat, exec: Exec, strs: seq<CString>, asked: Word)
    returns (sp: Page, bp: Page)
    requires Loadable(m, k, exec, strs) && 4097 <= H.Blocks(asked) <= H.KERNEL_HEAP.total - (k + 1032)
    ensures var st := Fresh(m, H.KERNEL_HEAP, exec, strs);
            var (r, p) := UH.UserMalloc(H.KERNEL_HEAP, st, asked);
            && ArgEntries(st.m, st.d, sp, bp) && p != 0 && r.d == st.d && !ArgEntries(r.m, st.d, sp, bp)
            && Pte(r.m, st.d, 0x2000) == 4096 * 0x2000 + 7
            && (asked >= 0x100_0004 ==> ArgvCleared(r.m, st.d))
  {
    hide Loadable, Fresh, UH.Joint, H.Blocks, UH.UserMalloc, Zalloced, FreeFrom, MapPages, Pte, TaskWord, TablesOk,
         TablesLive, Slot;
    var h := H.KERNEL_HEAP;
    LoadableBound(m, k, exec, strs);
    sp, bp := LoadableLoaded(m, k, exec, strs);
    var st := Fresh(m, h, exec, strs);
    UH.HeapOfJoint(h, st);
    var m1, f, slot := BigMallocServed(st, k + 1032, asked);
    UH.MappedAfterZalloc(st.m, m1, h, st.d, asked, f, H.Blocks(asked));
    if asked >= 0x100_0004 {
      ArgvZero(h, st, asked, m1, f);
      WordThroughPage(UH.Served(h, st, asked, m1, f, slot).m, st.d, ARG_VIRT_ADDR, 0x2000, 0x2000, 0);
    }
  }

  lemma LoadableBound(m: Mem, k: nat, exec: Exec, strs: seq<CString>)
    requires Loadable(m, k, exec, strs)
    ensures k + 1032 <= 4096 && |strs| <= MOST_ARGS
  {
  }

  lemma ArgvZero(h: HeapDesc, st: UH.UserState, size: Word, m1: Mem, f: Page)
    requires UH.Joint(h, st) && h.page <= f && 0x1000 <= f <= 0x2000 < f + H.Blocks(size) && size >= 0x100_0004
    requires Zalloced(st.m, h, size, m1, 4096 * f, f - h.page, H.Blocks(size))
    ensures Slot(MapPages(m1, st.d, f, f, H.Blocks(size), UH.WRITABLE), 0x2000, 0) == 0
  {
    hide UH.Joint, MapPages, TablesOk, TablesLive, Pte, FreeCount, Kept, H.Live, WellFormed;
    var n := H.Blocks(size);
    UH.HeapOfJoint(h, st);
    UH.TablesAfterZalloc(st.m, m1, h, st.d, size, f, n);
    H.BlocksRoundsUp(size);
    var p: Page := 0x2000;
    ServedNoTable(st.m, m1, h, st.d, size, f, n, p);
    MapKeepsPage(m1, st.d, f, f, n, UH.WRITABLE, p);
    SlotAgree(m1, MapPages(m1, st.d, f, f, n, UH.WRITABLE), p, 0);
    assert forall a: Word | 4096 * p <= a < 4096 * p + 4 :: m1[a] == 0;
  }

  lemma ServedNoTable(m: Mem, m1: Mem, h: HeapDesc, d: Page, size: Word, f: Page, n: nat, q: Page)
    requires H.HeapOk(m, h) && TablesLive(m, h, d) && SameDir(m, m1, d) && h.page <= f <= q < f + n
    requires Zalloced(m, h, size, m1, 4096 * f, f - h.page, n)
    ensures !UH.IsTablePage(m1, d, q)
  {
    hide FreeCount, Kept, H.Live, WellFormed, Slot;
    assert FreePage(m, h, q);
    SameTablePages(m, m1, d, q);
    LivePageStable(m, m, h, d);
    forall i: nat | i < 1024
      ensures Frame(m, d, i) != q
    {
      LivePageStable(m, m, h, Frame(m, d, i));
    }
  }

  /** And freeing the block does not bring the page tables back. */
  lemma BigMallocNotUndone(m: Mem, k: nat, exec: Exec, strs: seq<CString>, asked: Word)
    requires Loadable(m, k, exec, strs) && 4097 <= H.Blocks(asked) <= H.KERNEL_HEAP.total - (k + 1032)
    ensures var st := Fresh(m, H.KERNEL_HEAP, exec, strs);
            var (st1, p) := UH.UserMalloc(H.KERNEL_HEAP, st, asked);
            p != 0 && !SameTables(st.m, UH.UserFree(H.KERNEL_HEAP, st1, p).m, st.d)
  {
    hide Loadable, Fresh, UH.Joint, H.Blocks, UH.UserMalloc, UH.UserFree, Zalloced, FreeFrom, Pte, SameTables,
         UH.Served, WellFormed;
    var h := H.KERNEL_HEAP;
    LoadableBound(m, k, exec, strs);
    var sp, bp := LoadableLoaded(m, k, exec, strs);
    var st := Fresh(m, h, exec, strs);
    var m1, f, slot := BigMallocServed(st, k + 1032, asked);
    var g := UH.FreeUndoesMalloc(h, st, asked, k + 1032);
    DivModUnique(4096 * (bp as int) + 7, 4096, bp, 7);
    assert !UH.SelfMapped(st.m, st.d, 0x2000, 5);
  }
}
