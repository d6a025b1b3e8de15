/** The processes that share the kernel's heap: in every order of loads and of malloc and
    free calls, none of them disturbs another. */
module Processes {
  import opened Bits
  import opened Memory
  import opened HeapTable
  import H = Heap
  import opened HeapSafety
  import opened HeapFrames
  import opened Paging
  import opened PageTables
  import opened Arguments
  import opened ProcessLoad
  import opened ProcessRuns
  import UH = UserHeap

  // ------------------------------------------------------------------
  // What a call does to the heap's allocations.
  // ------------------------------------------------------------------

  datatype Effect = Unchanged | Took(slot: nat, f: Page, size: Word) | Gave(slot: nat)

  ghost predicate HasEffect(h: HeapDesc, st: UH.UserState, r: UH.UserState, e: Effect)
    requires h.Valid()
  {
    && r.d == st.d && SameDir(st.m, r.m, st.d)
    && match e
       case Unchanged => H.TableOf(r.m, h) == H.TableOf(st.m, h) && r.slots == st.slots
       case Took(slot, f, size) =>
         && slot < 1024 && h.page <= f && f > 0 && H.Blocks(size) > 0
         && Window(H.TableOf(st.m, h), f - h.page, H.Blocks(size)) && f - h.page !in H.Live(st.m, h)
         && H.Live(r.m, h) == H.Live(st.m, h)[f - h.page := H.Blocks(size)]
         && r.slots == st.slots[slot := UH.MemAllocation(4096 * f, size)]
       case Gave(slot) =>
         && slot < 1024 && st.slots[slot].ptr != 0
         && H.Live(r.m, h) == H.Live(st.m, h) - {st.slots[slot].ptr / 4096 - h.page}
         && r.slots == st.slots[slot := UH.EMPTY]
  }

  lemma MallocEffect(h: HeapDesc, st: UH.UserState, size: Word) returns (e: Effect)
    requires UH.Joint(h, st) && UH.Allowed(h, st, UH.MallocCall(size))
    ensures HasEffect(h, st, UH.UserMalloc(h, st, size).0, e)
  {
    hide UH.Joint, UH.UserMalloc, UH.Find, MallocSafe, UH.NullFreeHarmless, H.Blocks, Window, Pte, TablesOk, TablesLive,
         MapPages, H.Live, H.TableOf, FreeCount, Kept, Frame;
    UH.HeapOfJoint(h, st);
    if s: nat :| H.Blocks(size) > 0 && Window(H.TableOf(st.m, h), s, H.Blocks(size)) {
      if UH.Find(st.slots, 0, 0) >= 0 {
        var m1, f, slot := UH.MallocServes(h, st, size, s);
        UH.MappedAfterZalloc(st.m, m1, h, st.d, size, f, H.Blocks(size));
        e := Took(slot, f, size);
      } else {
        UH.MallocWithoutSlot(h, st, size, s);
        e := Unchanged;
      }
    } else {
      UH.MallocRefused(h, st, size);
      e := Unchanged;
    }
  }

  lemma ReleasedEffect(h: HeapDesc, st: UH.UserState, slot: nat)
    requires UH.Joint(h, st) && slot < 1024 && st.slots[slot].ptr != 0
    ensures h.Valid() && HasEffect(h, st, UH.Released(h, st, slot), Gave(slot))
  {
    hide UH.Joint, H.Kfree, TablesOk, TablesLive, Pte, MapPages, H.Blocks, UH.IsTablePage, UH.Find, H.Live,
         H.TableOf, Frame;
    UH.HeapOfJoint(h, st);
    UH.FindsOccupied(h, st, slot);
    UH.ReleasedMemory(h, st.m, st.d, st.slots[slot].ptr / 4096, H.Blocks(st.slots[slot].size));
  }

  lemma FreeEffect(h: HeapDesc, st: UH.UserState, ptr: Word) returns (e: Effect)
    requires UH.Joint(h, st) && UH.Allowed(h, st, UH.FreeCall(ptr))
    ensures HasEffect(h, st, UH.UserFree(h, st, ptr), e)
  {
    UH.HeapOfJoint(h, st);
    var slot := UH.Find(st.slots, ptr, 0);
    e := if slot < 0 || ptr == 0 then Unchanged else Gave(slot);
    hide UH.Joint, H.Kfree, UH.NullFreeHarmless, CreateMapping, AlignUp, Wrap, TablesOk, TablesLive, Pte, H.Live,
         H.TableOf, UH.Released, Frame;
    if slot < 0 {
      assert UH.UserFree(h, st, ptr) == st;
    } else if ptr == 0 {
      UH.FreeOfNull(h, st);
      UH.NullFreeKeeps(h, st.m, st.d);
    } else {
      UH.FreeReleases(h, st, slot);
      ReleasedEffect(h, st, slot);
    }
  }

  lemma CallEffect(h: HeapDesc, st: UH.UserState, call: UH.Call) returns (e: Effect)
    requires UH.Joint(h, st) && UH.Allowed(h, st, call)
    ensures HasEffect(h, st, UH.Step(h, st, call), e)
  {
    hide UH.Joint, UH.UserMalloc, UH.UserFree, UH.Allowed, HasEffect;
    match call
    case MallocCall(size) => e := MallocEffect(h, st, size);
    case FreeCall(ptr) => e := FreeEffect(h, st, ptr);
  }

  /** Block `g` is the first of no occupied slot. */
  ghost predicate NoSlotAt(h: HeapDesc, slots: UH.Slots, g: nat) {
    forall i: nat | i < 1024 :: slots[i].ptr != 0 ==> slots[i].ptr / 4096 - h.page != g
  }

  /** Allocations that are none of the process's slots stay. */
  lemma LiveStays(h: HeapDesc, st: UH.UserState, r: UH.UserState, e: Effect, g: nat)
    requires h.Valid() && HasEffect(h, st, r, e) && g in H.Live(st.m, h) && NoSlotAt(h, st.slots, g)
    ensures g in H.Live(r.m, h) && H.Live(r.m, h)[g] == H.Live(st.m, h)[g]
  {
    hide Frame, H.Blocks, H.TableOf, Window, Allocs;
  }

  // ------------------------------------------------------------------
  // Two processes.
  // ------------------------------------------------------------------

  /** The directory and tables of `d` are pages in use, none of them a slot's or a table's of
      process `a`. */
  ghost predicate TablesBeside(h: HeapDesc, a: UH.UserState, d: Page) {
    forall f: Page | UH.IsTablePage(a.m, d, f) :: Guarded(h, a, f)
  }

  ghost predicate Unshared(s: UH.Slots, t: UH.Slots) {
    forall i: nat, j: nat | i < 1024 && j < 1024 :: s[i].ptr != 0 ==> s[i].ptr != t[j].ptr
  }

  ghost predicate Apart(h: HeapDesc, a: UH.UserState, b: UH.UserState) {
    && a.m == b.m && UH.Joint(h, a) && UH.Joint(h, b)
    && TablesBeside(h, a, b.d) && TablesBeside(h, b, a.d) && Unshared(a.slots, b.slots)
  }

  lemma ApartSymmetric(h: HeapDesc, a: UH.UserState, b: UH.UserState)
    requires Apart(h, a, b)
    ensures Apart(h, b, a)
  {
    hide UH.Joint, TablesBeside;
  }

  lemma SlotPairDisjoint(h: HeapDesc, a: UH.UserState, b: UH.UserState, i: nat, j: nat)
    requires a.m == b.m && UH.Joint(h, a) && UH.Joint(h, b) && Unshared(a.slots, b.slots) && i < 1024 && j < 1024
    requires a.slots[i].ptr != 0 && b.slots[j].ptr != 0
    ensures var f, g := a.slots[i].ptr / 4096, b.slots[j].ptr / 4096;
            f + H.Blocks(a.slots[i].size) <= g || g + H.Blocks(b.slots[j].size) <= f
  {
    hide UH.Joint, H.Live, UH.IsTablePage, H.TableOf, WellFormed, H.Blocks, UH.Find, TablesOk, TablesLive;
    UH.HeapOfJoint(h, a);
    UH.FindsOccupied(h, a, i);
    UH.FindsOccupied(h, b, j);
    AllocsApart(a.m, h, a.slots[i].ptr / 4096 - h.page, b.slots[j].ptr / 4096 - h.page);
  }

  /** Slots of two processes have no page in common. */
  lemma ForeignSlotsDisjoint(h: HeapDesc, a: UH.UserState, b: UH.UserState, q: Page)
    requires Apart(h, a, b)
    ensures !(Slotted(a, q) && Slotted(b, q))
  {
    hide TablesBeside, UH.Joint, Unshared, H.Blocks;
    if i: nat, j: nat :| i < 1024 && j < 1024 && SlotCovers(a.slots[i], q) && SlotCovers(b.slots[j], q) {
      SlotPairDisjoint(h, a, b, i, j);
      assert false;
    }
  }

  lemma AllocsApart(m: Mem, h: HeapDesc, b: nat, c: nat)
    requires H.HeapOk(m, h) && b in H.Live(m, h) && c in H.Live(m, h) && b != c
    ensures b + H.Live(m, h)[b] <= c || c + H.Live(m, h)[c] <= b
  {
    var t := H.TableOf(m, h);
    if b < c { AllocsDisjoint(t, b, c); } else { AllocsDisjoint(t, c, b); }
  }

  /** A page of one process's slots is in use, and nothing to the other. */
  lemma ForeignSlotGuarded(h: HeapDesc, a: UH.UserState, b: UH.UserState, q: Page)
    requires Apart(h, a, b) && Slotted(b, q)
    ensures Guarded(h, a, q)
  {
    ForeignSlotsDisjoint(h, a, b, q);
    hide TablesBeside, Slotted, H.TableOf;
    assert TablesBeside(h, b, a.d);
    SlottedTaken(h, b, q);
    if UH.IsTablePage(a.m, a.d, q) {
      BesideAt(h, b, a.d, q);
      assert false;
    }
  }

  lemma BesideAt(h: HeapDesc, a: UH.UserState, d: Page, f: Page)
    requires TablesBeside(h, a, d) && UH.IsTablePage(a.m, d, f)
    ensures Guarded(h, a, f)
  {
  }

  lemma SlottedTaken(h: HeapDesc, st: UH.UserState, q: Page)
    requires UH.Joint(h, st) && Slotted(st, q)
    ensures h.Valid() && h.page <= q < h.page + h.total && !FreePage(st.m, h, q) && PageHeld(st.m, h, q)
  {
    hide UH.Joint, UH.IsTablePage, TablesOk, TablesLive, H.Blocks, UH.Find, WellFormed;
    UH.HeapOfJoint(h, st);
    var i: nat :| i < 1024 && SlotCovers(st.slots[i], q);
    UH.FindsOccupied(h, st, i);
    var b := st.slots[i].ptr / 4096 - h.page;
    LiveHeld(st.m, h, b, q);
    HeldTaken(st.m, h, q);
  }

  lemma LiveHeld(m: Mem, h: HeapDesc, b: nat, q: Page)
    requires H.HeapOk(m, h) && b in H.Live(m, h) && h.page + b <= q < h.page + b + H.Live(m, h)[b]
    ensures PageHeld(m, h, q)
  {
    hide H.Live, Stable, H.TableOf, WellFormed;
    forall a: Word | InPage(q, a)
      ensures Stable(m, h, a)
    {
      LiveStable(m, h, b, q - h.page, a);
    }
  }

  /** The tables of the other process keep their bytes. */
  lemma ForeignTables(h: HeapDesc, a: UH.UserState, call: UH.Call, d: Page)
    requires UH.Joint(h, a) && UH.Allowed(h, a, call) && TablesOk(a.m, d) && TablesBeside(h, a, d)
    ensures var r := UH.Step(h, a, call);
            TablesOk(r.m, d) && SameTables(a.m, r.m, d) && TablesBeside(h, r, d)
  {
    hide UH.Joint, UH.Allowed, UH.Step, Guarded, AgreeOnPage, TablesOk, Pte, Frame, Touches;
    UH.HeapOfJoint(h, a);
    var r := UH.Step(h, a, call);
    forall f: Page | UH.IsTablePage(a.m, d, f)
      ensures Guarded(h, r, f) && AgreeOnPage(a.m, r.m, f)
    {
      CallKeepsPage(h, a, call, f);
    }
    forall i: nat | i < 1024
      ensures AgreeOnPage(a.m, r.m, Frame(a.m, d, i))
    {
      assert UH.IsTablePage(a.m, d, Frame(a.m, d, i));
    }
    TablesFrame(a.m, r.m, d);
    forall f: Page | UH.IsTablePage(r.m, d, f)
      ensures Guarded(h, r, f)
    {
      SameTablePages(a.m, r.m, d, f);
    }
  }

  /** Tables that are live in a new memory stay beside a process that has not moved. */
  lemma BesideStays(h: HeapDesc, b: UH.UserState, d: Page, m: Mem)
    requires h.Valid() && TablesBeside(h, b, d) && SameDir(b.m, m, d) && SameDir(b.m, m, b.d)
    requires H.HeapOk(m, h) && TablesLive(m, h, d)
    ensures TablesBeside(h, b.(m := m), d)
  {
    hide Slotted, SameDir, UH.IsTablePage, FreePage, TablesLive, WellFormed;
    forall f: Page | UH.IsTablePage(m, d, f)
      ensures Guarded(h, b.(m := m), f)
    {
      SameTablePages(b.m, m, d, f);
      SameTablePages(b.m, m, b.d, f);
      SameSlots(b, m, f);
      TablePageTaken(m, h, d, f);
    }
  }

  lemma TablePageTaken(m: Mem, h: HeapDesc, d: Page, f: Page)
    requires H.HeapOk(m, h) && TablesLive(m, h, d) && UH.IsTablePage(m, d, f)
    ensures h.page <= f < h.page + h.total && !FreePage(m, h, f) && LivePage(m, h, f)
  {
    hide H.Live, WellFormed, H.TableOf, Frame, Kept, AgreeOnPage;
    LivePageStable(m, m, h, f);
  }

  /** A slot of the other process is no slot of this one. */
  lemma UnsharedBlock(h: HeapDesc, a: UH.UserState, b: UH.UserState, j: nat)
    requires UH.Joint(h, a) && UH.Joint(h, b) && Unshared(a.slots, b.slots) && j < 1024 && b.slots[j].ptr != 0
    ensures NoSlotAt(h, a.slots, b.slots[j].ptr / 4096 - h.page)
  {
    hide UH.Joint, H.Live, UH.IsTablePage, UH.Find;
    UH.FindsOccupied(h, b, j);
    forall i: nat | i < 1024 && a.slots[i].ptr != 0
      ensures a.slots[i].ptr / 4096 != b.slots[j].ptr / 4096
    {
      UH.FindsOccupied(h, a, i);
    }
  }

  /** Nor is a table of the other process. */
  lemma GuardedBlock(h: HeapDesc, a: UH.UserState, f: Page)
    requires UH.Joint(h, a) && Guarded(h, a, f)
    ensures NoSlotAt(h, a.slots, f - h.page)
  {
    hide UH.Joint, H.Live, UH.IsTablePage, UH.Find, FreePage;
    forall i: nat | i < 1024 && a.slots[i].ptr != 0
      ensures a.slots[i].ptr / 4096 != f
    {
      UH.FindsOccupied(h, a, i);
      assert !SlotCovers(a.slots[i], f);
    }
  }

  /** A process whose tables read as before and whose allocations are still there is in order
      in the new memory. */
  lemma JointStays(h: HeapDesc, b: UH.UserState, m: Mem)
    requires UH.Joint(h, b) && H.HeapOk(m, h) && TablesOk(m, b.d) && SameTables(b.m, m, b.d)
    requires forall f: Page | UH.IsTablePage(b.m, b.d, f) :: LivePage(m, h, f)
    requires forall j: nat | j < 1024 :: SlotLive(h, b, j, m)
    ensures UH.Joint(h, b.(m := m))
  {
    hide Pte, Frame, UH.Distinct, TablesOk, H.Live, LivePage, WellFormed, H.TableOf;
    assert forall i: nat | i < 1024 ::
        Frame(m, b.d, i) == Frame(b.m, b.d, i) && UH.IsTablePage(b.m, b.d, Frame(b.m, b.d, i));
    assert UH.IsTablePage(b.m, b.d, b.d);
    forall j | 0 <= j < 1024
      ensures UH.SlotFine(h, m, b.d, b.slots[j])
    {
      assert SlotLive(h, b, j, m);
      UH.OldSlotFine(h, b.m, m, b.d, b.slots[j], 0, 0);
    }
  }

  ghost predicate SlotLive(h: HeapDesc, b: UH.UserState, j: nat, m: Mem)
    requires h.Valid() && j < 1024
  {
    var g := b.slots[j].ptr / 4096 - h.page;
    b.slots[j].ptr != 0 ==> g in H.Live(m, h) && H.Live(m, h)[g] == H.Blocks(b.slots[j].size)
  }

  /** One process's call leaves the other in order, with every entry as it was. */
  lemma ForeignJoint(h: HeapDesc, a: UH.UserState, b: UH.UserState, call: UH.Call)
    requires Apart(h, a, b) && UH.Allowed(h, a, call)
    ensures var r := UH.Step(h, a, call);
            && UH.Joint(h, r) && UH.Joint(h, b.(m := r.m)) && SameTables(b.m, r.m, b.d) && TablesBeside(h, r, b.d)
  {
    hide UH.Joint, UH.Allowed, UH.Step, Guarded, TablesOk, TablesLive, Touches, EntryStep, HasEffect, Pte, Frame,
         H.Live, TablesBeside, Unshared, UH.IsTablePage, LivePage;
    UH.HeapOfJoint(h, b);
    var r := UH.Step(h, a, call);
    CallEntry(h, a, call, 0);
    UH.HeapOfJoint(h, r);
    ForeignTables(h, a, call, b.d);
    var e := CallEffect(h, a, call);
    forall f: Page | UH.IsTablePage(b.m, b.d, f)
      ensures LivePage(r.m, h, f)
    {
      ForeignTableLive(h, a, b, r, e, f);
    }
    forall j: nat | j < 1024
      ensures SlotLive(h, b, j, r.m)
    {
      ForeignSlotLive(h, a, b, r, e, j);
    }
    JointStays(h, b, r.m);
  }

  lemma ForeignTableLive(h: HeapDesc, a: UH.UserState, b: UH.UserState, r: UH.UserState, e: Effect, f: Page)
    requires Apart(h, a, b) && HasEffect(h, a, r, e) && UH.IsTablePage(b.m, b.d, f)
    ensures LivePage(r.m, h, f)
  {
    hide UH.Joint, Guarded, TablesOk, TablesLive, HasEffect, Frame, H.Live, TablesBeside, Unshared, UH.IsTablePage;
    UH.HeapOfJoint(h, b);
    TablePageTaken(b.m, h, b.d, f);
    BesideAt(h, a, b.d, f);
    GuardedBlock(h, a, f);
    LiveStays(h, a, r, e, f - h.page);
  }

  lemma ForeignSlotLive(h: HeapDesc, a: UH.UserState, b: UH.UserState, r: UH.UserState, e: Effect, j: nat)
    requires Apart(h, a, b) && HasEffect(h, a, r, e) && j < 1024
    ensures SlotLive(h, b, j, r.m)
  {
    hide UH.Joint, Guarded, TablesOk, TablesLive, HasEffect, Frame, H.Live, TablesBeside, Unshared, UH.IsTablePage,
         UH.Find;
    UH.HeapOfJoint(h, b);
    if b.slots[j].ptr != 0 {
      UH.FindsOccupied(h, b, j);
      UnsharedBlock(h, a, b, j);
      LiveStays(h, a, r, e, b.slots[j].ptr / 4096 - h.page);
    }
  }

  lemma SlotsStayUnshared(h: HeapDesc, a: UH.UserState, b: UH.UserState, r: UH.UserState, e: Effect)
    requires Apart(h, a, b) && HasEffect(h, a, r, e)
    ensures Unshared(r.slots, b.slots)
  {
    hide UH.Joint, TablesBeside, H.Live, Frame, H.Blocks, Window, UH.Find, UH.IsTablePage;
    if e.Took? {
      forall j: nat | j < 1024
        ensures b.slots[j].ptr != 4096 * e.f
      {
        if b.slots[j].ptr != 0 {
          UH.FindsOccupied(h, b, j);
          UH.SlotApart(h, b, j, e.f - h.page, H.Blocks(e.size));
        }
      }
    }
  }

  /** So two processes stay apart whichever of them makes a call. */
  lemma CallKeepsApart(h: HeapDesc, a: UH.UserState, b: UH.UserState, call: UH.Call)
    requires Apart(h, a, b) && UH.Allowed(h, a, call)
    ensures var r := UH.Step(h, a, call);
            Apart(h, r, b.(m := r.m)) && SameTables(b.m, r.m, b.d)
  {
    hide UH.Joint, UH.Allowed, UH.Step, HasEffect, Pte, Frame, TablesBeside, Unshared, TablesOk, TablesLive;
    UH.HeapOfJoint(h, a);
    var r := UH.Step(h, a, call);
    ForeignJoint(h, a, b, call);
    var e := CallEffect(h, a, call);
    SlotsStayUnshared(h, a, b, r, e);
    UH.HeapOfJoint(h, r);
    EffectDir(h, a, r, e);
    BesideStays(h, b, a.d, r.m);
  }

  lemma EffectDir(h: HeapDesc, st: UH.UserState, r: UH.UserState, e: Effect)
    requires h.Valid() && HasEffect(h, st, r, e)
    ensures r.d == st.d && SameDir(st.m, r.m, st.d)
  {
    hide SameDir;
  }

  // ------------------------------------------------------------------
  // All of them.
  // ------------------------------------------------------------------

  datatype Proc = Proc(d: Page, slots: UH.Slots)

  /** Memory and the processes loaded so far. */
  datatype System = System(m: Mem, procs: seq<Proc>)

  function Of(s: System, i: nat): UH.UserState
    requires i < |s.procs|
  {
    UH.UserState(s.m, s.procs[i].d, s.procs[i].slots)
  }

  ghost predicate Together(h: HeapDesc, s: System) {
    && H.HeapOk(s.m, h)
    && (forall i: nat | i < |s.procs| :: UH.Joint(h, Of(s, i)))
    && (forall i: nat, j: nat | i < |s.procs| && j < |s.procs| && i != j :: Apart(h, Of(s, i), Of(s, j)))
  }

  /** A process's call, or the load of one more process. */
  datatype Op = CallOp(who: nat, call: UH.Call) | LoadOp(exec: Exec, strs: seq<CString>)

  ghost function SysStep(h: HeapDesc, s: System, op: Op): System
    requires h.Valid()
  {
    match op
    case CallOp(who, call) =>
      if who < |s.procs| then
        var r := UH.Step(h, Of(s, who), call);
        System(r.m, s.procs[who := Proc(r.d, r.slots)])
      else s
    case LoadOp(exec, strs) =>
      if |strs| <= MOST_ARGS then
        var (m, rc, d) := LoadImage(s.m, h, exec, strs);
        System(m, s.procs + [Proc(d, UH.NoSlots())])
      else s
  }

  /** Calls as for one process; a load that finds four adjacent free blocks for the stack and
      1032 in all, and an executable that lies in memory in use. */
  ghost predicate OpAllowed(h: HeapDesc, s: System, op: Op)
    requires h.Valid()
  {
    match op
    case CallOp(who, call) => who < |s.procs| && UH.Allowed(h, Of(s, who), call)
    case LoadOp(exec, strs) =>
      && (exists b: nat :: Window(H.TableOf(s.m, h), b, 4)) && FreeCount(H.TableOf(s.m, h)) >= 1032
      && |strs| <= MOST_ARGS && (forall i | 0 <= i < |strs| :: |strs[i]| <= 32)
      && ExecHeld(s.m, h, exec) && AvoidsArgs(s.m, exec)
  }

  /** Two processes that did not move, in a memory where both are in order. */
  lemma OthersApart(h: HeapDesc, a: UH.UserState, b: UH.UserState, m: Mem)
    requires Apart(h, a, b) && UH.Joint(h, a.(m := m)) && UH.Joint(h, b.(m := m))
    requires SameDir(a.m, m, a.d) && SameDir(b.m, m, b.d)
    ensures Apart(h, a.(m := m), b.(m := m))
  {
    hide UH.Joint, TablesBeside, Unshared, SameDir, TablesOk, TablesLive;
    UH.HeapOfJoint(h, a.(m := m));
    UH.HeapOfJoint(h, b.(m := m));
    BesideStays(h, a, b.d, m);
    BesideStays(h, b, a.d, m);
  }

  lemma CallKeepsTogether(h: HeapDesc, s: System, who: nat, call: UH.Call)
    requires Together(h, s) && who < |s.procs| && UH.Allowed(h, Of(s, who), call)
    ensures Together(h, SysStep(h, s, CallOp(who, call)))
  {
    hide UH.Joint, UH.Allowed, UH.Step, Apart, EntryStep, Touches, SameDir, Pte, TablesOk, TablesLive;
    var a, t := Of(s, who), SysStep(h, s, CallOp(who, call));
    CallEntry(h, a, call, 0);
    assert Of(t, who) == UH.Step(h, a, call);
    UH.HeapOfJoint(h, Of(t, who));
    forall j: nat | j < |s.procs| && j != who
      ensures Of(t, j) == Of(s, j).(m := t.m) && UH.Joint(h, Of(t, j)) && SameDir(s.m, t.m, s.procs[j].d)
      ensures Apart(h, Of(t, who), Of(t, j)) && Apart(h, Of(t, j), Of(t, who))
    {
      CallKeepsApart(h, a, Of(s, j), call);
      ApartSymmetric(h, Of(t, who), Of(t, j));
      ApartJoint(h, Of(t, j), Of(t, who));
    }
    forall j: nat, k: nat | j < |s.procs| && k < |s.procs| && j != k && j != who && k != who
      ensures Apart(h, Of(t, j), Of(t, k))
    {
      OthersApart(h, Of(s, j), Of(s, k), t.m);
    }
  }

  lemma ApartJoint(h: HeapDesc, a: UH.UserState, b: UH.UserState)
    requires Apart(h, a, b)
    ensures UH.Joint(h, a)
  {
  }

  // ------------------------------------------------------------------
  // One more process.
  // ------------------------------------------------------------------

  /** What was in use is as it was: a process that was in order still is. */
  lemma LoadKeepsJoint(h: HeapDesc, b: UH.UserState, m: Mem)
    requires UH.Joint(h, b) && H.HeapOk(m, h) && Kept(b.m, m, h) && LiveGrows(b.m, m, h)
    ensures UH.Joint(h, b.(m := m)) && SameTables(b.m, m, b.d)
  {
    hide UH.Joint, TablesOk, H.Live, Kept, AgreeOnPage, Frame, Pte, WellFormed, UH.IsTablePage, UH.Find, H.TableOf,
         LivePage;
    UH.HeapOfJoint(h, b);
    LivePageStable(b.m, m, h, b.d);
    forall i: nat | i < 1024
      ensures AgreeOnPage(b.m, m, Frame(b.m, b.d, i))
    {
      LivePageStable(b.m, m, h, Frame(b.m, b.d, i));
    }
    TablesFrame(b.m, m, b.d);
    forall f: Page | UH.IsTablePage(b.m, b.d, f)
      ensures LivePage(m, h, f)
    {
      TablePageTaken(b.m, h, b.d, f);
      GrownPage(b.m, m, h, f);
    }
    forall j: nat | j < 1024
      ensures SlotLive(h, b, j, m)
    {
      if b.slots[j].ptr != 0 {
        UH.FindsOccupied(h, b, j);
      }
    }
    JointStays(h, b, m);
  }

  lemma GrownPage(m: Mem, r: Mem, h: HeapDesc, f: Page)
    requires h.Valid() && LivePage(m, h, f) && LiveGrows(m, r, h)
    ensures LivePage(r, h, f)
  {
    hide H.Live;
  }

  /** The tables of the new process are beside one that was there. */
  lemma NewTablesBeside(h: HeapDesc, b: UH.UserState, m: Mem, d: Page)
    requires UH.Joint(h, b) && UH.Joint(h, b.(m := m)) && SameTables(b.m, m, b.d)
    requires H.HeapOk(m, h) && TablesLive(m, h, d) && TablesNew(b.m, m, h, d)
    ensures TablesBeside(h, b.(m := m), d)
  {
    hide UH.Joint, TablesLive, PageHeld, Slotted, UH.IsTablePage, Pte, FreePage, SameDir, Frame, TablesOk, WellFormed;
    UH.HeapOfJoint(h, b);
    forall f: Page | UH.IsTablePage(m, d, f)
      ensures Guarded(h, b.(m := m), f)
    {
      TablePageTaken(m, h, d, f);
      SameTablePages(b.m, m, b.d, f);
      SameSlots(b, m, f);
      TabledNotHeld(b.m, m, h, d, f);
      if Slotted(b, f) {
        SlottedTaken(h, b, f);
        assert false;
      }
      if UH.IsTablePage(b.m, b.d, f) {
        TablePageHeld(b.m, h, b.d, f);
        assert false;
      }
    }
  }

  lemma TabledNotHeld(m0: Mem, m: Mem, h: HeapDesc, d: Page, f: Page)
    requires h.Valid() && TablesNew(m0, m, h, d) && UH.IsTablePage(m, d, f)
    ensures !PageHeld(m0, h, f)
  {
    hide PageHeld, Frame;
  }

  lemma TablePageHeld(m: Mem, h: HeapDesc, d: Page, f: Page)
    requires H.HeapOk(m, h) && TablesLive(m, h, d) && UH.IsTablePage(m, d, f)
    ensures PageHeld(m, h, f)
  {
    hide H.Live, WellFormed, H.TableOf, Frame, Kept, AgreeOnPage, Stable;
    LivePageStable(m, m, h, f);
  }

  /** The tables of one that was there are beside the new process. */
  lemma OldTablesBeside(h: HeapDesc, b: UH.UserState, m: Mem, d: Page)
    requires UH.Joint(h, b) && UH.Joint(h, b.(m := m)) && SameTables(b.m, m, b.d)
    requires H.HeapOk(m, h) && TablesNew(b.m, m, h, d)
    ensures TablesBeside(h, UH.UserState(m, d, UH.NoSlots()), b.d)
  {
    hide UH.Joint, TablesLive, PageHeld, UH.IsTablePage, Pte, FreePage, SameDir, Frame, TablesOk, WellFormed;
    UH.HeapOfJoint(h, b);
    UH.HeapOfJoint(h, b.(m := m));
    var added := UH.UserState(m, d, UH.NoSlots());
    forall f: Page | UH.IsTablePage(m, b.d, f)
      ensures Guarded(h, added, f)
    {
      TablePageTaken(m, h, b.d, f);
      SameTablePages(b.m, m, b.d, f);
      TablePageHeld(b.m, h, b.d, f);
      if UH.IsTablePage(m, d, f) {
        TabledNotHeld(b.m, m, h, d, f);
        assert false;
      }
    }
  }

  lemma NewApart(h: HeapDesc, b: UH.UserState, m: Mem, d: Page)
    requires UH.Joint(h, b) && UH.Joint(h, UH.UserState(m, d, UH.NoSlots()))
    requires Kept(b.m, m, h) && LiveGrows(b.m, m, h) && TablesNew(b.m, m, h, d)
    ensures Apart(h, b.(m := m), UH.UserState(m, d, UH.NoSlots())) && SameDir(b.m, m, b.d)
  {
    hide UH.Joint, Kept, LiveGrows, TablesNew, TablesBeside, SameDir, TablesOk, TablesLive;
    UH.HeapOfJoint(h, UH.UserState(m, d, UH.NoSlots()));
    LoadKeepsJoint(h, b, m);
    NewTablesBeside(h, b, m, d);
    OldTablesBeside(h, b, m, d);
  }

  lemma LoadKeepsTogether(h: HeapDesc, s: System, exec: Exec, strs: seq<CString>)
    requires Together(h, s) && OpAllowed(h, s, LoadOp(exec, strs))
    ensures Together(h, SysStep(h, s, LoadOp(exec, strs)))
  {
    hide UH.Joint, Apart, LoadImage, FreeCount, Window, ExecHeld, AvoidsArgs, Kept, LiveGrows, TablesNew, TablesOk,
         TablesLive, StackAndArgs, ArgsInPlace, PageHeld, Untabled, SameDir;
    var b: nat :| Window(H.TableOf(s.m, h), b, 4);
    var sp, bp := LoadedJoint(s.m, h, exec, strs, b);
    var added, t, n := Fresh(s.m, h, exec, strs), SysStep(h, s, LoadOp(exec, strs)), |s.procs|;
    assert Of(t, n) == added;
    forall j: nat | j < n
      ensures Of(t, j) == Of(s, j).(m := t.m) && UH.Joint(h, Of(t, j)) && SameDir(s.m, t.m, s.procs[j].d)
      ensures Apart(h, Of(t, n), Of(t, j)) && Apart(h, Of(t, j), Of(t, n))
    {
      NewApart(h, Of(s, j), t.m, added.d);
      ApartSymmetric(h, Of(t, j), Of(t, n));
      ApartJoint(h, Of(t, j), Of(t, n));
    }
    forall j: nat, k: nat | j < n && k < n && j != k
      ensures Apart(h, Of(t, j), Of(t, k))
    {
      OthersApart(h, Of(s, j), Of(s, k), t.m);
    }
  }

  // ------------------------------------------------------------------
  // Whole runs.
  // ------------------------------------------------------------------

  ghost function SysRun(h: HeapDesc, s: System, ops: seq<Op>): System
    requires h.Valid()
  {
    if ops == [] then s else SysStep(h, SysRun(h, s, ops[..|ops| - 1]), ops[|ops| - 1])
  }

  ghost predicate OpsAllowed(h: HeapDesc, s: System, ops: seq<Op>)
    requires h.Valid()
  {
    forall i | 0 <= i < |ops| :: OpAllowed(h, SysRun(h, s, ops[..i]), ops[i])
  }

  lemma OpsPrefix(h: HeapDesc, s: System, ops: seq<Op>)
    requires h.Valid() && ops != [] && OpsAllowed(h, s, ops)
    ensures var init := ops[..|ops| - 1];
            OpsAllowed(h, s, init) && OpAllowed(h, SysRun(h, s, init), ops[|ops| - 1])
  {
    hide OpAllowed, SysRun;
    var init := ops[..|ops| - 1];
    forall i | 0 <= i < |init|
      ensures OpAllowed(h, SysRun(h, s, init[..i]), init[i])
    {
      assert init[..i] == ops[..i];
    }
  }

  lemma StepKeepsTogether(h: HeapDesc, s: System, op: Op)
    requires Together(h, s) && OpAllowed(h, s, op)
    ensures Together(h, SysStep(h, s, op))
  {
    hide Together, SysStep, UH.Allowed;
    match op
    case CallOp(who, call) => CallKeepsTogether(h, s, who, call);
    case LoadOp(exec, strs) => LoadKeepsTogether(h, s, exec, strs);
  }

  /** In every run of loads and calls, whatever their order, each process's slots, tables and
      heap blocks are in step, and no two processes share a slot page or a table page. */
  lemma {:induction false} RunKeepsTogether(h: HeapDesc, s: System, ops: seq<Op>)
    requires Together(h, s) && OpsAllowed(h, s, ops)
    ensures Together(h, SysRun(h, s, ops))
  {
    hide Together, OpsAllowed, SysStep, OpAllowed;
    assert h.Valid() by { TogetherHeap(h, s); }
    if ops != [] {
      var init := ops[..|ops| - 1];
      OpsPrefix(h, s, ops);
      RunKeepsTogether(h, s, init);
      StepKeepsTogether(h, SysRun(h, s, init), ops[|ops| - 1]);
    }
  }

  lemma TogetherHeap(h: HeapDesc, s: System)
    requires Together(h, s)
    ensures H.HeapOk(s.m, h)
  {
    hide UH.Joint, Apart;
  }

  // ------------------------------------------------------------------
  // What the others do to a process: its entries, and pages in use by nobody's slots.
  // ------------------------------------------------------------------

  /** The operation is a call of process `i` that takes page `q`. */
  ghost predicate OpTouches(h: HeapDesc, s: System, op: Op, i: nat, q: Page)
    requires h.Valid()
  {
    op.CallOp? && op.who == i < |s.procs| && Touches(h, Of(s, i), op.call, q)
  }

  ghost predicate SysTouches(h: HeapDesc, s: System, ops: seq<Op>, i: nat, q: Page)
    requires h.Valid()
  {
    ops != [] &&
    (SysTouches(h, s, ops[..|ops| - 1], i, q)
     || OpTouches(h, SysRun(h, s, ops[..|ops| - 1]), ops[|ops| - 1], i, q))
  }

  /** Page `f` of the heap is in use, and is no slot's and no table's page of any process. */
  ghost predicate Reserved(h: HeapDesc, s: System, f: Page) {
    && h.Valid() && h.page <= f < h.page + h.total && !FreePage(s.m, h, f)
    && forall i: nat | i < |s.procs| :: Guarded(h, Of(s, i), f)
  }

  /** Only its own calls change a process's entries and slots. */
  lemma ForeignOp(h: HeapDesc, s: System, op: Op, i: nat)
    requires Together(h, s) && OpAllowed(h, s, op) && i < |s.procs| && !(op.CallOp? && op.who == i)
    ensures var t := SysStep(h, s, op);
            && i < |t.procs| && t.procs[i] == s.procs[i] && SameTables(s.m, t.m, s.procs[i].d)
  {
    hide UH.Joint, Apart, LoadImage, FreeCount, Window, ExecHeld, AvoidsArgs, Kept, LiveGrows, TablesNew, TablesOk,
         TablesLive, StackAndArgs, ArgsInPlace, PageHeld, Untabled, SameTables, UH.Step, UH.Allowed;
    match op
    case CallOp(who, call) =>
      CallKeepsApart(h, Of(s, who), Of(s, i), call);
    case LoadOp(exec, strs) =>
      var b: nat :| Window(H.TableOf(s.m, h), b, 4);
      var sp, bp := LoadedJoint(s.m, h, exec, strs, b);
      LoadKeepsJoint(h, Of(s, i), Fresh(s.m, h, exec, strs).m);
  }

  lemma OwnOp(h: HeapDesc, s: System, call: UH.Call, i: nat)
    requires h.Valid() && i < |s.procs|
    ensures var t := SysStep(h, s, CallOp(i, call));
            i < |t.procs| && Of(t, i) == UH.Step(h, Of(s, i), call)
  {
    hide UH.Step;
  }

  lemma UnmovedEntry(h: HeapDesc, st: UH.UserState, m: Mem, q: Page)
    requires UH.Joint(h, st) && Pte(m, st.d, q) == Pte(st.m, st.d, q)
    ensures EntryStep(st, st.(m := m), q, false)
  {
    hide UH.Joint, Pte, Slotted;
    if Slotted(st, q) {
      SlottedSelf(h, st, q);
    }
  }

  lemma OpEntry(h: HeapDesc, s: System, op: Op, i: nat, q: Page)
    requires Together(h, s) && OpAllowed(h, s, op) && i < |s.procs|
    ensures h.Valid() && i < |SysStep(h, s, op).procs|
    ensures EntryStep(Of(s, i), Of(SysStep(h, s, op), i), q, OpTouches(h, s, op, i, q))
  {
    hide UH.Joint, Apart, SysStep, EntryStep, Touches, UH.Allowed, UH.Step, Pte, SameDir, FreeCount, Window;
    if op.CallOp? && op.who == i {
      OwnOp(h, s, op.call, i);
      CallEntry(h, Of(s, i), op.call, q);
    } else {
      ForeignOp(h, s, op, i);
      UnmovedEntry(h, Of(s, i), SysStep(h, s, op).m, q);
    }
  }

  /** Over every run, a process's page that is mapped elsewhere keeps its entry exactly as
      long as no call of its own takes that page; the others do not matter. */
  lemma {:induction false} SysEntryExact(h: HeapDesc, s: System, ops: seq<Op>, i: nat, q: Page)
    requires Together(h, s) && OpsAllowed(h, s, ops) && i < |s.procs| && Pte(s.m, s.procs[i].d, q) / 4096 != q
    ensures var r, d := SysRun(h, s, ops), s.procs[i].d;
            && Together(h, r) && i < |r.procs| && r.procs[i].d == d
            && (Pte(r.m, d, q) == Pte(s.m, d, q) <==> !SysTouches(h, s, ops, i, q))
            && (SysTouches(h, s, ops, i, q) ==> Pte(r.m, d, q) / 4096 == q)
  {
    hide Together, OpsAllowed, SysStep, OpAllowed, OpTouches, Pte, Slotted;
    assert h.Valid() by { TogetherHeap(h, s); }
    if ops != [] {
      var init, op := ops[..|ops| - 1], ops[|ops| - 1];
      OpsPrefix(h, s, ops);
      SysEntryExact(h, s, init, i, q);
      var r := SysRun(h, s, init);
      StepKeepsTogether(h, r, op);
      OpEntry(h, r, op, i, q);
      if Slotted(Of(r, i), q) {
        TogetherJoint(h, r, i);
        SlottedSelf(h, Of(r, i), q);
      }
    }
  }

  lemma TogetherJoint(h: HeapDesc, s: System, i: nat)
    requires Together(h, s) && i < |s.procs|
    ensures UH.Joint(h, Of(s, i))
  {
    hide UH.Joint, Apart;
  }

  /** A reserved page after an operation, seen from a process that did not move. */
  lemma GuardedUnmoved(h: HeapDesc, st: UH.UserState, m: Mem, f: Page)
    requires Guarded(h, st, f) && SameDir(st.m, m, st.d) && !FreePage(m, h, f)
    ensures Guarded(h, st.(m := m), f)
  {
    hide Slotted, UH.IsTablePage, SameDir, FreePage;
    SameSlots(st, m, f);
    SameTablePages(st.m, m, st.d, f);
  }

  lemma CallKeepsReserved(h: HeapDesc, s: System, who: nat, call: UH.Call, f: Page)
    requires Together(h, s) && who < |s.procs| && UH.Allowed(h, Of(s, who), call) && Reserved(h, s, f)
    ensures var t := SysStep(h, s, CallOp(who, call));
            Reserved(h, t, f) && AgreeOnPage(s.m, t.m, f) && !Touches(h, Of(s, who), call, f)
  {
    hide UH.Joint, UH.Allowed, UH.Step, Apart, Touches, SameDir, Pte, TablesOk, TablesLive, Slotted, UH.IsTablePage,
         FreePage, AgreeOnPage;
    var a, t := Of(s, who), SysStep(h, s, CallOp(who, call));
    OwnOp(h, s, call, who);
    CallKeepsPage(h, a, call, f);
    forall j: nat | j < |t.procs|
      ensures Guarded(h, Of(t, j), f)
    {
      if j != who {
        ForeignOp(h, s, CallOp(who, call), j);
        GuardedUnmoved(h, Of(s, j), t.m, f);
      }
    }
  }

  lemma LoadKeepsReserved(h: HeapDesc, s: System, exec: Exec, strs: seq<CString>, f: Page)
    requires Together(h, s) && OpAllowed(h, s, LoadOp(exec, strs)) && Reserved(h, s, f)
    ensures var t := SysStep(h, s, LoadOp(exec, strs));
            Reserved(h, t, f) && AgreeOnPage(s.m, t.m, f)
  {
    hide UH.Joint, Apart, LoadImage, FreeCount, Window, ExecHeld, AvoidsArgs, Kept, LiveGrows, TablesOk, TablesLive,
         StackAndArgs, ArgsInPlace, PageHeld, SameDir, Pte, FreePage, Guarded, AgreeOnPage;
    var b: nat :| Window(H.TableOf(s.m, h), b, 4);
    var sp, bp := LoadedJoint(s.m, h, exec, strs, b);
    var added, t := Fresh(s.m, h, exec, strs), SysStep(h, s, LoadOp(exec, strs));
    TakenHeld(s.m, h, f);
    HeldStays(s.m, t.m, h, f);
    HeldTaken(t.m, h, f);
    forall j: nat | j < |t.procs|
      ensures Guarded(h, Of(t, j), f)
    {
      if j < |s.procs| {
        ForeignOp(h, s, LoadOp(exec, strs), j);
        GuardedUnmoved(h, Of(s, j), t.m, f);
      } else {
        assert Of(t, j) == added;
        UntabledGuarded(h, t.m, added.d, f);
      }
    }
  }

  lemma UntabledGuarded(h: HeapDesc, m: Mem, d: Page, f: Page)
    requires h.Valid() && h.page <= f < h.page + h.total && !FreePage(m, h, f) && Untabled(m, d, f)
    ensures Guarded(h, UH.UserState(m, d, UH.NoSlots()), f)
  {
    hide FreePage, Frame;
  }

  lemma OpKeepsReserved(h: HeapDesc, s: System, op: Op, f: Page)
    requires Together(h, s) && OpAllowed(h, s, op) && Reserved(h, s, f)
    ensures var t := SysStep(h, s, op);
            && Reserved(h, t, f) && AgreeOnPage(s.m, t.m, f)
            && forall i: nat :: !OpTouches(h, s, op, i, f)
  {
    hide Together, SysStep, UH.Allowed, Reserved, Touches, AgreeOnPage;
    match op
    case CallOp(who, call) => CallKeepsReserved(h, s, who, call, f);
    case LoadOp(exec, strs) => LoadKeepsReserved(h, s, exec, strs, f);
  }

  /** Over every run such a page keeps its bytes, and no process is given it. */
  lemma {:induction false} ReservedPage(h: HeapDesc, s: System, ops: seq<Op>, i: nat, f: Page)
    requires Together(h, s) && OpsAllowed(h, s, ops) && Reserved(h, s, f) && i < |s.procs|
    ensures var r, d := SysRun(h, s, ops), s.procs[i].d;
            && Together(h, r) && Reserved(h, r, f) && AgreeOnPage(s.m, r.m, f) && !SysTouches(h, s, ops, i, f)
            && i < |r.procs| && r.procs[i].d == d && Pte(r.m, d, f) == Pte(s.m, d, f)
  {
    hide Together, OpsAllowed, SysStep, OpAllowed, OpTouches, Pte, Slotted, FreePage, Guarded;
    assert h.Valid() by { TogetherHeap(h, s); }
    if ops != [] {
      var init, op := ops[..|ops| - 1], ops[|ops| - 1];
      OpsPrefix(h, s, ops);
      ReservedPage(h, s, init, i, f);
      var r := SysRun(h, s, init);
      StepKeepsTogether(h, r, op);
      OpKeepsReserved(h, r, op, f);
      OpEntry(h, r, op, i, f);
      GuardedUnslotted(h, Of(r, i), f);
    }
  }

  lemma GuardedUnslotted(h: HeapDesc, st: UH.UserState, f: Page)
    requires Guarded(h, st, f)
    ensures !Slotted(st, f)
  {
  }

  // ------------------------------------------------------------------
  // The arguments of a process among others.
  // ------------------------------------------------------------------

  /** A page that was free is nobody else's. */
  lemma FreeGuarded(h: HeapDesc, b: UH.UserState, m: Mem, f: Page)
    requires UH.Joint(h, b) && FreePage(b.m, h, f) && SameDir(b.m, m, b.d) && !FreePage(m, h, f)
    ensures Guarded(h, b.(m := m), f)
  {
    hide UH.Joint, Slotted, UH.IsTablePage, SameDir, FreePage, TablesOk, TablesLive, WellFormed;
    UH.HeapOfJoint(h, b);
    SameSlots(b, m, f);
    SameTablePages(b.m, m, b.d, f);
    if Slotted(b, f) {
      SlottedTaken(h, b, f);
      assert false;
    }
    if UH.IsTablePage(b.m, b.d, f) {
      TablePageTaken(b.m, h, b.d, f);
      assert false;
    }
    FreeInHeap(b.m, h, f);
  }

  lemma FreeInHeap(m: Mem, h: HeapDesc, f: Page)
    requires h.Valid() && FreePage(m, h, f)
    ensures h.page <= f < h.page + h.total
  {
  }

  /** Its last stack page and its argument page are reserved. */
  lemma NewReserved(h: HeapDesc, s: System, exec: Exec, strs: seq<CString>, sp: Page, bp: Page, f: Page)
    requires Together(h, s) && OpAllowed(h, s, LoadOp(exec, strs))
    requires var st := Fresh(s.m, h, exec, strs);
             Loaded(s.m, st.m, h, st.d, sp, bp, strs) && (f == sp + 3 || f == bp)
    ensures Reserved(h, SysStep(h, s, LoadOp(exec, strs)), f)
  {
    hide UH.Joint, Apart, LoadImage, FreeCount, Window, ExecHeld, AvoidsArgs, Kept, LiveGrows, TablesOk, TablesLive,
         TablesNew, StackAndArgs, ArgsInPlace, PageHeld, SameDir, Pte, FreePage, Guarded, Untabled, InHeap;
    var added, t := Fresh(s.m, h, exec, strs), SysStep(h, s, LoadOp(exec, strs));
    HeldTaken(t.m, h, f);
    FreeInHeap(s.m, h, f);
    forall j: nat | j < |t.procs|
      ensures Guarded(h, Of(t, j), f)
    {
      if j < |s.procs| {
        ForeignOp(h, s, LoadOp(exec, strs), j);
        FreeGuarded(h, Of(s, j), t.m, f);
      } else {
        assert Of(t, j) == added;
        UntabledGuarded(h, t.m, added.d, f);
      }
    }
  }

  /** One of them over a run: it stays exactly as long as the process itself does not take
      the page. */
  lemma SysArgEntry(h: HeapDesc, s: System, ops: seq<Op>, i: nat, q: Page, f: Page)
    requires Together(h, s) && OpsAllowed(h, s, ops) && i < |s.procs| && Reserved(h, s, f)
    requires Pte(s.m, s.procs[i].d, q) == 4096 * f + 7
    ensures Pte(SysRun(h, s, ops).m, s.procs[i].d, q) == 4096 * f + 7 <==> !SysTouches(h, s, ops, i, q)
  {
    hide Together, SysRun, OpsAllowed, Reserved, SysTouches, Pte;
    DivModUnique(4096 * f + 7, 4096, f, 7);
    if f == q {
      ReservedPage(h, s, ops, i, f);
    } else {
      SysEntryExact(h, s, ops, i, q);
    }
  }

  /** A process among others keeps the way to its arguments, over every run of loads and
      calls, exactly as long as no call of its own takes page 0x2000 or 0x3FE; until then it
      sees its arguments as it did at the start. */
  lemma ArgumentsAmongOthers(h: HeapDesc, s: System, exec: Exec, strs: seq<CString>, ops: seq<Op>)
    returns (sp: Page, bp: Page)
    requires Together(h, s) && OpAllowed(h, s, LoadOp(exec, strs))
    requires OpsAllowed(h, SysStep(h, s, LoadOp(exec, strs)), ops)
    ensures var t, i := SysStep(h, s, LoadOp(exec, strs)), |s.procs|;
            var r := SysRun(h, t, ops);
            && Together(h, r) && i < |t.procs| && i < |r.procs| && r.procs[i].d == t.procs[i].d
            && var d := t.procs[i].d;
               && ArgEntries(t.m, d, sp, bp)
               && (ArgEntries(r.m, d, sp, bp) <==>
                   !SysTouches(h, t, ops, i, 0x2000) && !SysTouches(h, t, ops, i, 0x3FE))
               && (ArgEntries(r.m, d, sp, bp) ==>
                   SeesPointers(r.m, d, strs) && (SeesArguments(r.m, d, strs) <==> ArgsLast(strs)))
  {
    hide LoadImage, FreeCount, Window, ExecHeld, AvoidsArgs, UH.Joint, Kept, TablesOk, TablesLive, SysRun,
         OpsAllowed, Together, SysTouches, Reserved, ArgsInPlace, SeesArguments, SeesPointers, ArgsLast, Pte,
         PageHeld, Untabled, AgreeOnPage, TablesNew, LiveGrows, FreePage;
    assert H.HeapOk(s.m, h) by { TogetherHeap(h, s); }
    var b: nat :| Window(H.TableOf(s.m, h), b, 4);
    sp, bp := LoadedJoint(s.m, h, exec, strs, b);
    var t, i := SysStep(h, s, LoadOp(exec, strs)), |s.procs|;
    LoadKeepsTogether(h, s, exec, strs);
    NewReserved(h, s, exec, strs, sp, bp, sp + 3);
    NewReserved(h, s, exec, strs, sp, bp, bp);
    SysArgEntry(h, t, ops, i, 0x3FE, sp + 3);
    SysArgEntry(h, t, ops, i, 0x2000, bp);
    ReservedPage(h, t, ops, i, sp + 3);
    ReservedPage(h, t, ops, i, bp);
    var r := SysRun(h, t, ops);
    InPlaceAgrees(t.m, r.m, sp + 3, bp, strs);
    if ArgEntries(r.m, t.procs[i].d, sp, bp) {
      ArgumentsSeen(r.m, t.procs[i].d, sp, bp, strs);
    }
  }
}
