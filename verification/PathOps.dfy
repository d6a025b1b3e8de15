/** Path parsing, step by step: the operations that read the path and build or free the
    list, each proved equal to its description in PathParser. */
module PathOps {
  import opened Bits
  import opened Memory
  import opened HeapTable
  import H = Heap
  import opened HeapSafety
  import opened HeapFrames
  import opened Paging
  import opened PageTables
  import opened Arguments
  import opened Paths
  import opened PathParser

  /** The string `t` at `a`, in memory that is in use. */
  ghost predicate StringHeld(m: Mem, h: HeapDesc, a: Word, t: CString)
    requires h.Valid()
  {
    StringAt(m, a, t) && forall b: Word | a <= b <= a + |t| :: Stable(m, h, b)
  }

  /** It reads the same in a memory that has kept what was in use. */
  lemma HeldReads(m0: Mem, m: Mem, h: HeapDesc, a: Word, t: CString, k: nat)
    requires h.Valid() && StringHeld(m0, h, a, t) && Kept(m0, m, h) && k <= |t|
    ensures m[a + k] == CharAt(t, k)
  {
    hide Stable;
  }

  /** It shares no byte with a page that was free. */
  lemma HeldOutside(m0: Mem, h: HeapDesc, a: Word, t: CString, k: nat, f: Page)
    requires h.Valid() && StringHeld(m0, h, a, t) && FreePage(m0, h, f) && k <= |t|
    ensures !InPage(f, a + k)
  {
    hide Stable, FreePage;
    if InPage(f, a + k) {
      FreePageUnstable(m0, h, f, a + k);
    }
  }

  lemma HeldFrom(m: Mem, h: HeapDesc, a: Word, t: CString, n: nat)
    requires h.Valid() && StringHeld(m, h, a, t) && n <= |t|
    ensures a + n < 0x1_0000_0000 && StringHeld(m, h, a + n, t[n..])
  {
    hide Stable;
    forall k | 0 <= k <= |t[n..]|
      ensures CharAt(t[n..], k) == m[a + n + k]
    {
      assert CharAt(t, n + k) == m[a + (n + k)];
    }
  }

  /** How far one part and the slash behind it reach. */
  function PartStep(t: CString): nat {
    PartLen(t) + (if PartLen(t) < |t| then 1 else 0)
  }

  lemma HeldAfter(m: Mem, h: HeapDesc, a: Word, t: CString)
    requires h.Valid() && StringHeld(m, h, a, t)
    ensures a + PartStep(t) < 0x1_0000_0000 && StringHeld(m, h, a + PartStep(t), AfterPart(t))
  {
    hide StringHeld;
    HeldFrom(m, h, a, t, PartStep(t));
    assert t[PartStep(t)..] == AfterPart(t);
  }

  /** The part copied so far, and what follows it. */
  lemma CharOfPart(t: CString, i: nat)
    requires i <= PartLen(t)
    ensures i < PartLen(t) <==> CharAt(t, i) != SLASH && CharAt(t, i) != 0
    ensures i < PartLen(t) ==> CharAt(t, i) == CharAt(FirstPart(t), i)
  {
    if i < |t| {
      assert t[i] in t;
    }
  }

  lemma PartBuffer(m0: Mem, m: Mem, h: HeapDesc, ps: seq<Page>, f: Page)
    requires Grown(m0, m, h, PageSet(ps + [f]))
    ensures h.Valid() && Kept(m0, m, h) && FreePage(m0, h, f)
  {
    hide FreeCount, Kept, H.Live;
    assert f in PageSet(ps + [f]);
  }

  lemma StringFits(m: Mem, h: HeapDesc, a: Word, t: CString)
    requires h.Valid() && StringHeld(m, h, a, t)
    ensures a + |t| < 0x1_0000_0000
  {
  }

  /** While only page `f` is written, the path reads as it did. */
  lemma PartChar(m0: Mem, m1: Mem, r: Mem, h: HeapDesc, path: Word, t: CString, i: nat, f: Page, part: CString)
    requires h.Valid() && StringHeld(m0, h, path, t) && Kept(m0, m1, h) && FreePage(m0, h, f) && i <= |t|
    requires i <= 128 && WrittenUpTo(m1, r, 4096 * f, part, i)
    ensures path + i < 0x1_0000_0000 && r[path + i] == CharAt(t, i)
  {
    hide Kept, FreePage, CharAt;
    StringFits(m0, h, path, t);
    HeldReads(m0, m1, h, path, t, i);
    HeldOutside(m0, h, path, t, i, f);
  }

  lemma WrittenNothing(m: Mem, r: Mem, dst: Word, part: CString)
    requires WrittenUpTo(m, r, dst, part, 0)
    ensures r == m
  {
  }

  lemma PartWritten(m: Mem, r: Mem, dst: Word, part: CString)
    requires WrittenUpTo(m, r, dst, part, |part|) && dst + |part| < 0x1_0000_0000 && m[dst + |part|] == 0
    ensures r == Written(m, dst, part)
  {
  }

  /** `pparser_get_path_part`: a buffer with the next part, or NULL; `next` is where the
      path goes on. */
  method GetPathPart(ram: Ram, h: HeapDesc, path: Word, ghost t: CString,
                     ghost m0: Mem, ghost ps: seq<Page>, ghost parts: seq<CString>) returns (buf: Word, next: Word)
    requires ram.Valid() && Holds(m0, ram.View(), h, ps, parts) && FreeCount(H.TableOf(ram.View(), h)) > 0
    requires StringHeld(m0, h, path, t) && |t| <= 125
    modifies ram.bytes
    ensures PartLen(t) > 0 ==> (ram.View(), buf) == NewString(old(ram.View()), h, FirstPart(t))
    ensures PartLen(t) == 0 ==> ram.View() == NoPart(old(ram.View()), h) && buf == 0
    ensures next == path + PartStep(t)
  {
    hide FreeCount, Grown, ListAt, Distinct, H.Kzalloc, H.Kfree, StringHeld, CharAt, Stable, Kept, FreePage, WellFormed;
    ghost var m := ram.View();
    HoldsValid(m0, m, h, ps, parts);
    ghost var f := OnePage(m0, m, h, ps, 128);
    buf := H.HeapZalloc(ram, h, 128);
    ghost var m1, part := ram.View(), FirstPart(t);
    PartBuffer(m0, m1, h, ps, f);
    StringFits(m0, h, path, t);
    var i: nat := 0;
    PartChar(m0, m1, m1, h, path, t, 0, f, part);
    var c := ram.Load(path);
    CharOfPart(t, 0);
    while c != SLASH && c != 0
      invariant i <= PartLen(t) && c == CharAt(t, i)
      invariant i < PartLen(t) <==> CharAt(t, i) != SLASH && CharAt(t, i) != 0
      invariant i < PartLen(t) ==> CharAt(t, i) == CharAt(part, i)
      invariant WrittenUpTo(m1, ram.View(), buf, part, i)
      decreases PartLen(t) - i
    {
      ram.Store(buf + i, c);
      i := i + 1;
      CharOfPart(t, i);
      PartChar(m0, m1, ram.View(), h, path, t, i, f, part);
      c := ram.Load(path + i);
    }
    AtPartEnd(t, i);
    next := path + i;
    if c == SLASH {
      next := next + 1;
    }
    if i == 0 {
      WrittenNothing(m1, ram.View(), buf, part);
      H.HeapFree(ram, h, buf);
      buf := 0;
    } else {
      PartWritten(m1, ram.View(), buf, part);
    }
  }

  lemma AtPartEnd(t: CString, i: nat)
    requires i == PartLen(t)
    ensures CharAt(t, i) == SLASH <==> i < |t|
  {
  }

  /** A zeroed `struct path_part`, filled in. */
  method MakeNode(ram: Ram, h: HeapDesc, buf: Word, ghost m0: Mem, ghost ps: seq<Page>) returns (node: Word)
    requires ram.Valid() && Distinct(ps) && Grown(m0, ram.View(), h, PageSet(ps))
    requires h.Valid() && FreeCount(H.TableOf(ram.View(), h)) > 0
    modifies ram.bytes
    ensures (ram.View(), node) == NewNode(old(ram.View()), h, buf)
  {
    hide FreeCount, Grown, Distinct, H.Kzalloc, SetSlot;
    ghost var f := OnePage(m0, ram.View(), h, ps, 8);
    node := H.HeapZalloc(ram, h, 8);
    StoreEntry(ram, node, 0, buf, f);
    StoreEntry(ram, node, 1, 0, f);
  }

  /** `parse_path_part`: the next part as a new node linked behind `last`, or NULL. */
  method ParsePathPart(ram: Ram, h: HeapDesc, last: Word, path: Word, ghost t: CString,
                       ghost m0: Mem, ghost ps: seq<Page>, ghost parts: seq<CString>) returns (node: Word, next: Word)
    requires ram.Valid() && Holds(m0, ram.View(), h, ps, parts) && last == LastNode(ps)
    requires FreeCount(H.TableOf(ram.View(), h)) >= if PartLen(t) > 0 then 2 else 1
    requires StringHeld(m0, h, path, t) && |t| <= 125
    modifies ram.bytes
    ensures PartLen(t) > 0 ==> (ram.View(), node) == AddPart(old(ram.View()), h, FirstPart(t), last) && node != 0
    ensures PartLen(t) == 0 ==> ram.View() == NoPart(old(ram.View()), h) && node == 0
    ensures next == path + PartStep(t)
  {
    hide FreeCount, Grown, ListAt, Distinct, NewString, NewNode, NoPart, StringHeld, SetSlot, StringAt;
    ghost var m := ram.View();
    HoldsValid(m0, m, h, ps, parts);
    var buf: Word;
    buf, next := GetPathPart(ram, h, path, t, m0, ps, parts);
    if PartLen(t) > 0 {
      var sp := StringAdded(m0, m, h, ps, FirstPart(t));
      var np := NodeAdded(m0, ram.View(), h, ps + [sp], buf);
    }
    if buf == 0 {
      return 0, next;
    }
    ghost var sp := StringAdded(m0, m, h, ps, FirstPart(t));
    node := MakeNode(ram, h, buf, m0, ps + [sp]);
    if last != 0 {
      StoreEntry(ram, last, 1, node, last / 4096);
    }
  }

  /** The loop over the parts behind the first. */
  method ParseRest(ram: Ram, h: HeapDesc, first: Word, path: Word, ghost t: CString,
                   ghost m0: Mem, ghost ps: seq<Page>, ghost parts: seq<CString>)
    requires ram.Valid() && Holds(m0, ram.View(), h, ps, parts) && first == LastNode(ps)
    requires FreeCount(H.TableOf(ram.View(), h)) >= 2 * |Parts(t)| + 1
    requires StringHeld(m0, h, path, t) && |t| <= 125
    modifies ram.bytes
    ensures ram.View() == AddParts(old(ram.View()), h, t, first)
  {
    hide FreeCount, Holds, AddPart, NoPart, StringHeld, LastNode, AddParts, Parts, PartLen, FirstPart, PartStep;
    HoldsValid(m0, ram.View(), h, ps, parts);
    ghost var goal := AddParts(ram.View(), h, t, first);
    ghost var rest, qs, done, before := t, ps, parts, ram.View();
    AddPartsUnfolds(before, h, rest, first);
    var part, p := ParsePathPart(ram, h, first, path, rest, m0, qs, done);
    if PartLen(rest) > 0 {
      qs, done, rest := NextPart(m0, before, h, qs, done, rest, path);
    }
    while part != 0
      invariant part == 0 ==> ram.View() == goal
      invariant part != 0 ==> Holds(m0, ram.View(), h, qs, done) && part == LastNode(qs) && |rest| <= 125
      invariant part != 0 ==> h.Valid() && StringHeld(m0, h, p, rest)
      invariant part != 0 ==> FreeCount(H.TableOf(ram.View(), h)) >= 2 * |Parts(rest)| + 1
      invariant part != 0 ==> goal == AddParts(ram.View(), h, rest, part)
      decreases if part == 0 then 0 else |rest| + 1
    {
      before := ram.View();
      ghost var here := p;
      AddPartsUnfolds(before, h, rest, part);
      part, p := ParsePathPart(ram, h, part, p, rest, m0, qs, done);
      if PartLen(rest) > 0 {
        qs, done, rest := NextPart(m0, before, h, qs, done, rest, here);
      }
    }
  }

  lemma AddPartsUnfolds(m: Mem, h: HeapDesc, t: CString, last: Word)
    requires h.Valid()
    ensures PartLen(t) == 0 ==> AddParts(m, h, t, last) == NoPart(m, h) && Parts(t) == []
    ensures PartLen(t) > 0 ==>
              && |Parts(t)| >= 1
              && AddParts(m, h, t, last) ==
                 var (m1, node) := AddPart(m, h, FirstPart(t), last); AddParts(m1, h, AfterPart(t), node)
  {
    hide AddPart, NoPart;
  }

  /** What one more part leaves for the next. */
  lemma NextPart(m0: Mem, m: Mem, h: HeapDesc, ps: seq<Page>, parts: seq<CString>, t: CString, a: Word)
    returns (qs: seq<Page>, done: seq<CString>, rest: CString)
    requires Holds(m0, m, h, ps, parts) && FreeCount(H.TableOf(m, h)) >= 2 * |Parts(t)| + 1
    requires h.Valid() && StringHeld(m0, h, a, t) && |t| <= 125 && PartLen(t) > 0
    ensures rest == AfterPart(t) && |rest| < |t| && Parts(t) == [FirstPart(t)] + Parts(rest)
    ensures a + PartStep(t) < 0x1_0000_0000 && StringHeld(m0, h, a + PartStep(t), rest)
    ensures var (r, node) := AddPart(m, h, FirstPart(t), LastNode(ps));
            && Holds(m0, r, h, qs, done) && node == LastNode(qs)
            && FreeCount(H.TableOf(r, h)) >= 2 * |Parts(rest)| + 1
  {
    hide FreeCount, Holds, AddPart, StringHeld, LastNode;
    rest := AfterPart(t);
    HeldAfter(m0, h, a, t);
    done := parts + [FirstPart(t)];
    qs := PartAdded(m0, m, h, ps, parts, FirstPart(t));
  }

  // ------------------------------------------------------------------
  // pparser_parse.
  // ------------------------------------------------------------------

  /** `strlen`. */
  method Strlen(ram: Ram, a: Word, ghost s: CString) returns (n: nat)
    requires ram.Valid() && StringAt(ram.View(), a, s)
    ensures n == |s|
  {
    hide *;
    n := 0;
    StringChar(ram.View(), a, s, 0);
    var c := ram.Load(a);
    while c != 0
      invariant n <= |s| && (c == 0 <==> n == |s|) && a + |s| < 0x1_0000_0000
      decreases |s| - n
    {
      n := n + 1;
      StringChar(ram.View(), a, s, n);
      c := ram.Load(a + n);
    }
  }

  /** `strnlen`. */
  method Strnlen(ram: Ram, a: Word, max: nat, ghost s: CString) returns (n: nat)
    requires ram.Valid() && StringAt(ram.View(), a, s)
    ensures n == if |s| < max then |s| else max
  {
    hide *;
    n := 0;
    while n < max
      invariant n <= |s| && n <= max
    {
      StringChar(ram.View(), a, s, n);
      var c := ram.Load(a + n);
      if c == 0 {
        break;
      }
      n := n + 1;
    }
  }

  lemma StringChar(m: Mem, a: Word, s: CString, k: nat)
    requires StringAt(m, a, s) && k <= |s|
    ensures a + |s| < 0x1_0000_0000 && m[a + k] == CharAt(s, k)
    ensures m[a + k] == 0 <==> k == |s|
    ensures k < |s| ==> m[a + k] == s[k]
  {
    if k < |s| {
      assert s[k] in s;
    }
    assert CharAt(s, k) == m[a + k];
  }

  /** `path_valid_form`. */
  method PathValidForm(ram: Ram, a: Word, ghost s: CString) returns (ok: bool)
    requires ram.Valid() && StringAt(ram.View(), a, s)
    ensures ok == ValidForm(s)
  {
    hide StringAt;
    var len := Strnlen(ram, a, MAX_PATH, s);
    if len <= 2 {
      return false;
    }
    StringChar(ram.View(), a, s, 0);
    StringChar(ram.View(), a, s, 1);
    StringChar(ram.View(), a, s, 2);
    var digit := ram.Load(a);
    var colon := ram.Load(a + 1);
    var slash := ram.Load(a + 2);
    ok := 47 < digit < 58 && colon == COLON && slash == SLASH;
  }

  /** The blocks a parse takes at its height. */
  function Room(s: CString): nat {
    if |s| > MAX_PATH || !ValidForm(s) then 0 else 2 * |Parts(s[3..])| + 2
  }

  /** `pparser_create_root`. */
  method CreateRoot(ram: Ram, h: HeapDesc, drive: Word) returns (root: Word)
    requires ram.Valid() && H.HeapOk(ram.View(), h) && FreeCount(H.TableOf(ram.View(), h)) > 0
    modifies ram.bytes
    ensures (ram.View(), root) == NewRoot(old(ram.View()), h, drive)
  {
    hide FreeCount, Grown, H.Kzalloc, SetSlot, WellFormed;
    NothingGrown(ram.View(), h);
    assert PageSet([]) == {};
    ghost var f := OnePage(ram.View(), ram.View(), h, [], 8);
    root := H.HeapZalloc(ram, h, 8);
    StoreEntry(ram, root, 0, drive, f);
    StoreEntry(ram, root, 1, 0, f);
  }

  /** `pparser_parse`: NULL exactly for the paths the grammar rejects, and otherwise the
      root of the list that ParseBuilds describes. */
  method PparserParse(ram: Ram, h: HeapDesc, path: Word, ghost s: CString) returns (root: Word)
    requires ram.Valid() && H.HeapOk(ram.View(), h) && StringHeld(ram.View(), h, path, s)
    requires FreeCount(H.TableOf(ram.View(), h)) >= Room(s)
    modifies ram.bytes
    ensures (ram.View(), root) == ParseInto(old(ram.View()), h, s)
    ensures root == 0 <==> Parse(s).Rejected?
  {
    hide FreeCount, Grown, NewRoot, AddPart, AddParts, NoPart, SetSlot, Slot, StringHeld, WellFormed, ListAt, Distinct;
    ghost var m := ram.View();
    HeldString(m, h, path, s);
    var len := Strlen(ram, path, s);
    if len > MAX_PATH {
      return 0;
    }
    var ok := PathValidForm(ram, path, s);
    if !ok {
      return 0;
    }
    StringChar(m, path, s, 0);
    var digit := ram.Load(path);
    ghost var t: CString := s[3..];
    HeldFrom(m, h, path, s, 3);
    ghost var f := RootAdded(m, h, digit - 48);
    root := CreateRoot(ram, h, digit - 48);
    var first, p := ParsePathPart(ram, h, 0, path + 3, t, m, [f], []);
    if first == 0 {
      return 0;
    }
    ghost var os := FirstAdded(m, h, digit - 48, FirstPart(t));
    HeldAfter(m, h, path + 3, t);
    StoreEntry(ram, root, 1, first, f);
    ParseRest(ram, h, first, p, AfterPart(t), m, os, [FirstPart(t)]);
  }

  lemma HeldString(m: Mem, h: HeapDesc, a: Word, t: CString)
    requires h.Valid() && StringHeld(m, h, a, t)
    ensures StringAt(m, a, t)
  {
  }

  // ------------------------------------------------------------------
  // pparser_free.
  // ------------------------------------------------------------------

  method LoadSlot(ram: Ram, node: Word, k: nat, ghost f: Page) returns (v: Word)
    requires ram.Valid() && node == 4096 * f && k < 1024
    ensures v == Slot(ram.View(), f, k)
  {
    hide WordAt;
    v := ram.LoadWord(node + 4 * k);
  }

  /** `pparser_free`: the loop ends at the end of the list, and every block is back. */
  method PparserFree(ram: Ram, h: HeapDesc, root: Word, ghost m0: Mem, ghost ps: seq<Page>, ghost path: Path)
    requires ram.Valid() && PathAt(m0, ram.View(), h, ps, path) && root == 4096 * (ps[0] as int)
    modifies ram.bytes
    ensures ram.View() == FreePath(old(ram.View()), h, root, |path.parts|)
    ensures h.Valid() && H.TableOf(ram.View(), h) == H.TableOf(m0, h)
  {
    hide FreeCount, Grown, H.Kfree, Slot, ListAt, Distinct, StringAt;
    ghost var m := ram.View();
    HoldsValid(m0, m, h, ps, path.parts);
    PathFreed(m0, m, h, ps, path);
    ghost var goal := FreeNodes(m, h, FirstNode(ps), |path.parts|);
    ghost var qs, rest := ps, path.parts;
    var part := LoadSlot(ram, root, 1, ps[0]);
    while part != 0
      invariant Holds(m0, ram.View(), h, qs, rest) && part == FirstNode(qs)
      invariant FreeNodes(ram.View(), h, part, |rest|) == goal
      decreases |rest|
    {
      ghost var m1 := ram.View();
      HoldsValid(m0, m1, h, qs, rest);
      FirstNodeAt(m1, qs, rest);
      TwoFreed(m0, m1, h, qs, rest);
      var next := LoadSlot(ram, part, 1, qs[2]);
      var str := LoadSlot(ram, part, 0, qs[2]);
      H.HeapFree(ram, h, str);
      H.HeapFree(ram, h, part);
      TailPages(qs);
      TailList(m1, ram.View(), qs, rest);
      part, qs, rest := next, Tail(qs), rest[1..];
    }
    H.HeapFree(ram, h, root);
  }
}
