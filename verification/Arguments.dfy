/** Command-line arguments: the argument block, and argc and argv on the stack. */
module Arguments {
  import opened Bits
  import opened Memory
  import opened Paging

  const STACK_SIZE: int := 0x4000
  const STACK_VIRT_ADDR: Word := 0x3F_F000
  const ARG_VIRT_ADDR: Word := 0x0200_0000
  const MAX_NUM_ARGS: int := 5
  const MAX_ARG_LEN: int := 32
  /** Five pointers and five strings of 32 bytes. */
  const ARG_BLOCK_SIZE: int := 180
  /** The strings of this many arguments lie in the argument block's page, and execve copies
      the pointers of no more. */
  const MOST_ARGS: int := 127

  /** The characters of a C string, without its NUL. */
  type CString = s: seq<Byte> | 0 !in s witness []

  /** Character `k` of the stored form, which ends in NUL. */
  function CharAt(s: CString, k: nat): Byte
    requires k <= |s|
  {
    if k < |s| then s[k] else 0
  }

  ghost predicate StringAt(m: Mem, a: Word, s: CString) {
    a + |s| < 0x1_0000_0000 && forall k | 0 <= k <= |s| :: CharAt(s, k) == m[a + k]
  }

  function WrittenByte(m: Mem, dst: Word, s: CString, a: Word): Byte {
    if dst <= a <= dst + |s| then CharAt(s, a - dst) else m[a]
  }

  /** What `strcpy` of `s` to `dst` leaves. */
  function Written(m: Mem, dst: Word, s: CString): (r: Mem)
    ensures forall a: Word :: r[a] == WrittenByte(m, dst, s, a)
  {
    seq(0x1_0000_0000, a requires 0 <= a < 0x1_0000_0000 => WrittenByte(m, dst, s, a))
  }

  /** `translate_arg_block_addr_to_userspace_addr`. */
  function UserAddr(addr: Word, block: Word): Word {
    if addr < block then 0 else Wrap(ARG_VIRT_ADDR + (addr - block))
  }

  /** Byte offset of string `i` in the argument block. */
  function StringOffset(i: nat): nat {
    20 + 32 * i
  }

  function ArgCell(b: Page, i: nat): Word
    requires i < MOST_ARGS
  {
    4096 * b + StringOffset(i)
  }

  /** One turn of the loop of `load_arg_block`: a string and its pointer. */
  function LoadArg(m: Mem, b: Page, i: nat, s: CString): Mem
    requires i < MOST_ARGS
  {
    SetSlot(Written(m, ArgCell(b, i), s), b, i, UserAddr(ArgCell(b, i), 4096 * b))
  }

  /** The argument block in page `b` after `n` turns. */
  function LoadArgs(m: Mem, b: Page, strs: seq<CString>, n: nat): Mem
    requires n <= |strs| && n <= MOST_ARGS
  {
    if n == 0 then m else LoadArg(LoadArgs(m, b, strs, n - 1), b, n - 1, strs[n - 1])
  }

  /** Pointer `i` leads to string `i`'s cell. */
  ghost predicate ArgPointer(r: Mem, b: Page, i: nat)
    requires i < MOST_ARGS
  {
    Slot(r, b, i) == ARG_VIRT_ADDR + StringOffset(i)
  }

  /** There is room for five pointers before the strings. Pointer 5 + 8j is the first word of
      string j's cell. */
  predicate Overlaid(n: nat, i: nat) {
    MAX_NUM_ARGS + 8 * i < n
  }

  /** The bytes of that pointer, up to its first zero. */
  function PointerText(i: nat): CString
    requires i < MOST_ARGS
  {
    if i == 0 then [180] else [180, i]
  }

  /** Argument `i` is followed by none, or leaves room for its NUL in its own cell, or the
      next argument's NUL can serve as its own. */
  predicate ArgFits(strs: seq<CString>, i: nat)
    requires i < |strs|
  {
    i + 1 < |strs| ==> |strs[i]| <= 31 || strs[i + 1] == []
  }

  /** Argument `i` survives the loop: it fits, or it reads like the pointer written over it. */
  predicate ArgLasts(strs: seq<CString>, i: nat)
    requires i < |strs| <= MOST_ARGS
  {
    if Overlaid(|strs|, i) then strs[i] == PointerText(i) else ArgFits(strs, i)
  }

  /** Argument `i` is loaded: its pointer is in place, its cell holds the string exactly if
      the string lasts, and a later pointer is what an overlaid cell holds. */
  ghost predicate ArgLoaded(r: Mem, b: Page, strs: seq<CString>, i: nat)
    requires i < |strs| <= MOST_ARGS
  {
    && ArgPointer(r, b, i) && (StringAt(r, ArgCell(b, i), strs[i]) <==> ArgLasts(strs, i))
    && (Overlaid(|strs|, i) ==> StringAt(r, ArgCell(b, i), PointerText(i)))
  }

  /** Bytes of page `b` other than those of the word. */
  lemma SetSlotBytes(m: Mem, b: Page, i: nat, v: Word, a: Word)
    requires i < MOST_ARGS && !(4096 * b + 4 * i <= a < 4096 * b + 4 * i + 4)
    ensures SetSlot(m, b, i, v)[a] == m[a]
  {
  }

  lemma PlaceArg(m: Mem, b: Page, i: nat, s: CString)
    requires i < MOST_ARGS && |s| <= 32
    ensures ArgPointer(LoadArg(m, b, i, s), b, i) && StringAt(LoadArg(m, b, i, s), ArgCell(b, i), s)
    ensures forall a: Word | !InPage(b, a) :: LoadArg(m, b, i, s)[a] == m[a]
  {
    hide SetSlot, Slot;
    var r, at := LoadArg(m, b, i, s), ArgCell(b, i);
    forall k | 0 <= k <= |s|
      ensures CharAt(s, k) == r[at + k]
    {
      SetSlotBytes(Written(m, at, s), b, i, UserAddr(at, 4096 * b), at + k);
    }
  }

  /** A later argument leaves the cells before its own alone, its pointer apart, and the
      earlier pointers. */
  lemma CellsStay(m: Mem, b: Page, i: nat, s: CString, j: nat)
    requires j < i < MOST_ARGS
    ensures var r, word := LoadArg(m, b, i, s), 4096 * b + 4 * i;
            && (ArgPointer(m, b, j) ==> ArgPointer(r, b, j))
            && (forall a: Word | 4096 * b <= a < ArgCell(b, i) && !(word <= a < word + 4) :: r[a] == m[a])
            && r[ArgCell(b, i)] == CharAt(s, 0)
  {
    hide SetSlot, UserAddr, WordAt;
    var m1, r, at := Written(m, ArgCell(b, i), s), LoadArg(m, b, i, s), ArgCell(b, i);
    forall a: Word | 4096 * b <= a < at && !(4096 * b + 4 * i <= a < 4096 * b + 4 * i + 4)
      ensures r[a] == m[a]
    {
      SetSlotBytes(m1, b, i, UserAddr(at, 4096 * b), a);
    }
    SetSlotBytes(m1, b, i, UserAddr(at, 4096 * b), at);
    WordAgree(m, m1, 1024 * b + j);
  }

  /** What a later argument does to an earlier string of at most 32 characters that it does
      not overlay: nothing, unless the string's NUL is the first byte of the later cell. */
  lemma StringStays(m: Mem, b: Page, i: nat, s: CString, j: nat, t: CString)
    requires j < i < MOST_ARGS && |t| <= 32 && i < MAX_NUM_ARGS + 8 * j
    ensures |t| <= 31 || j + 1 < i ==>
              (StringAt(LoadArg(m, b, i, s), ArgCell(b, j), t) <==> StringAt(m, ArgCell(b, j), t))
    ensures |t| == 32 && j + 1 == i && StringAt(m, ArgCell(b, j), t) ==>
              (StringAt(LoadArg(m, b, i, s), ArgCell(b, j), t) <==> s == [])
  {
    hide LoadArg;
    var r, own := LoadArg(m, b, i, s), ArgCell(b, j);
    CellsStay(m, b, i, s, j);
    assert s != [] ==> s[0] in s;
    forall k | 0 <= k <= |t|
      ensures own + k < ArgCell(b, i) ==> (CharAt(t, k) == r[own + k] <==> CharAt(t, k) == m[own + k])
    {
    }
    if |t| == 32 && j + 1 == i {
      assert own + 32 == ArgCell(b, i) && CharAt(t, 32) == 0;
      assert StringAt(r, own, t) ==> CharAt(t, 32) == r[own + 32];
    }
  }

  lemma PointerBytes(b0: int, b1: int, b2: int, b3: int, j: nat)
    requires 0 <= b0 < 0x100 && 0 <= b1 < 0x100 && 0 <= b2 < 0x100 && 0 <= b3 < 0x100 && j < 0x100
    requires b0 + 0x100 * b1 + 0x1_0000 * b2 + 0x100_0000 * b3 == ARG_VIRT_ADDR + StringOffset(MAX_NUM_ARGS + 8 * j)
    ensures b0 == 180 && b1 == j && b2 == 0 && b3 == 2
  {
  }

  /** The pointer that overlays cell `j` reads as a string of one or two characters. */
  lemma PointerReads(r: Mem, b: Page, j: nat)
    requires MAX_NUM_ARGS + 8 * j < MOST_ARGS && ArgPointer(r, b, MAX_NUM_ARGS + 8 * j)
    ensures StringAt(r, ArgCell(b, j), PointerText(j))
  {
    var i := MAX_NUM_ARGS + 8 * j;
    var a: Word := 4096 * b + 4 * i;
    PointerBytes(r[a], r[a + 1], r[a + 2], r[a + 3], j);
  }

  /** Once overlaid, a cell stays as it is. */
  lemma OverlaidStays(m: Mem, b: Page, i: nat, s: CString, j: nat)
    requires MAX_NUM_ARGS + 8 * j < i < MOST_ARGS && StringAt(m, ArgCell(b, j), PointerText(j))
    ensures StringAt(LoadArg(m, b, i, s), ArgCell(b, j), PointerText(j))
  {
    hide LoadArg;
    var r, own, t := LoadArg(m, b, i, s), ArgCell(b, j), PointerText(j);
    CellsStay(m, b, i, s, j);
    forall k | 0 <= k <= |t|
      ensures CharAt(t, k) == r[own + k]
    {
      assert CharAt(t, k) == m[own + k];
    }
  }

  lemma NotShorter(m: Mem, a: Word, s: CString, t: CString)
    requires StringAt(m, a, s) && StringAt(m, a, t)
    ensures |t| <= |s|
  {
    assert CharAt(s, |s|) == m[a + |s|];
    assert |s| < |t| ==> CharAt(t, |s|) in t;
  }

  /** Two strings at one address are one. */
  lemma OneString(m: Mem, a: Word, s: CString, t: CString)
    requires StringAt(m, a, s) && StringAt(m, a, t)
    ensures s == t
  {
    NotShorter(m, a, s, t);
    NotShorter(m, a, t, s);
    forall k | 0 <= k < |s|
      ensures s[k] == t[k]
    {
      assert CharAt(s, k) == m[a + k] == CharAt(t, k);
    }
  }

  /** A turn for argument `n` and what became of an earlier one. */
  lemma EarlierArg(m1: Mem, b: Page, strs: seq<CString>, n: nat, i: nat)
    requires i < n && |strs| == n + 1 <= MOST_ARGS && |strs[i]| <= 32 && |strs[n]| <= 32
    requires ArgLoaded(m1, b, strs[..n], i)
    ensures ArgLoaded(LoadArg(m1, b, n, strs[n]), b, strs, i)
  {
    hide ArgPointer, LoadArg, StringAt, PointerText;
    var r := LoadArg(m1, b, n, strs[n]);
    CellsStay(m1, b, n, strs[n], i);
    if Overlaid(n, i) {
      OverlaidStays(m1, b, n, strs[n], i);
    } else if Overlaid(n + 1, i) {
      PlaceArg(m1, b, n, strs[n]);
      PointerReads(r, b, i);
    } else {
      StringStays(m1, b, n, strs[n], i, strs[i]);
    }
    if Overlaid(n + 1, i) && StringAt(r, ArgCell(b, i), strs[i]) {
      OneString(r, ArgCell(b, i), strs[i], PointerText(i));
    }
  }

  /** After the loop every pointer is in place, every string of at most 32 characters is
      in place exactly if it lasts, and no other page has changed. */
  lemma {:induction false} ArgsLoaded(m: Mem, b: Page, strs: seq<CString>)
    requires |strs| <= MOST_ARGS && forall i | 0 <= i < |strs| :: |strs[i]| <= 32
    ensures forall i: nat | i < |strs| :: ArgLoaded(LoadArgs(m, b, strs, |strs|), b, strs, i)
    ensures forall a: Word | !InPage(b, a) :: LoadArgs(m, b, strs, |strs|)[a] == m[a]
    decreases |strs|
  {
    hide ArgPointer, LoadArg, StringAt;
    if strs != [] {
      var n := |strs| - 1;
      var init, s := strs[..n], strs[n];
      ArgsLoaded(m, b, init);
      LoadPrefix(m, b, strs, n);
      var m1 := LoadArgs(m, b, init, n);
      PlaceArg(m1, b, n, s);
      forall i: nat | i < n
        ensures ArgLoaded(LoadArg(m1, b, n, s), b, strs, i)
      {
        EarlierArg(m1, b, strs, n, i);
      }
    }
  }

  lemma {:induction false} LoadPrefix(m: Mem, b: Page, strs: seq<CString>, n: nat)
    requires n <= |strs| && n <= MOST_ARGS
    ensures LoadArgs(m, b, strs, n) == LoadArgs(m, b, strs[..n], n)
    decreases n
  {
    hide LoadArg;
    if n > 0 {
      LoadPrefix(m, b, strs, n - 1);
      LoadPrefix(m, b, strs[..n], n - 1);
      assert strs[..n][..n - 1] == strs[..n - 1];
    }
  }

  /** Whatever has been loaded so far, only the block's page has changed. */
  lemma {:induction false} LoadsInPage(m: Mem, b: Page, strs: seq<CString>, n: nat)
    requires n <= |strs| <= MOST_ARGS && forall i | 0 <= i < |strs| :: |strs[i]| <= 32
    ensures forall a: Word | !InPage(b, a) :: LoadArgs(m, b, strs, n)[a] == m[a]
  {
    hide LoadArg;
    if n > 0 {
      LoadsInPage(m, b, strs, n - 1);
      PlaceArg(LoadArgs(m, b, strs, n - 1), b, n - 1, strs[n - 1]);
    }
  }

  /** `put_argv_argc_in_stack_mem`, for a stack whose last page is `top`: argc in the
      last word and the address of the argument block in the word before. */
  function StackArgs(m: Mem, top: Page, argc: Word): Mem {
    SetSlot(SetSlot(m, top, 1023, argc), top, 1022, ARG_VIRT_ADDR)
  }

  // ------------------------------------------------------------------
  // The operations themselves.
  // ------------------------------------------------------------------

  /** The first `n` stored characters written. */
  ghost predicate WrittenUpTo(m: Mem, r: Mem, dst: Word, s: CString, n: nat) {
    forall a: Word :: r[a] == if dst <= a < dst + n && a <= dst + |s| then CharAt(s, a - dst) else m[a]
  }

  method Strcpy(ram: Ram, dst: Word, src: Word, ghost s: CString)
    requires ram.Valid() && StringAt(ram.View(), src, s) && dst + |s| < 0x1_0000_0000
    requires dst + |s| < src || src + |s| < dst
    modifies ram.bytes
    ensures ram.View() == Written(old(ram.View()), dst, s)
  {
    ghost var m := ram.View();
    var i: nat := 0;
    while true
      invariant i <= |s| && WrittenUpTo(m, ram.View(), dst, s, i)
      decreases |s| - i
    {
      assert ram.View()[src + i] == m[src + i] == CharAt(s, i);
      var c := ram.Load(src + i);
      if c == 0 {
        break;
      }
      ram.Store(dst + i, c);
      i := i + 1;
    }
    ram.Store(dst + i, 0);
  }

  /** The first `n` characters of a string, or all of it. */
  function Prefix(s: CString, n: nat): CString {
    if |s| <= n then s else s[..n]
  }

  /** `strncpy` of at most `n` characters; it writes the NUL even after `n` of them. */
  method Strncpy(ram: Ram, dst: Word, src: Word, n: nat, ghost s: CString)
    requires ram.Valid() && StringAt(ram.View(), src, s) && dst + |Prefix(s, n)| < 0x1_0000_0000
    requires dst + |Prefix(s, n)| < src || src + |s| < dst
    modifies ram.bytes
    ensures ram.View() == Written(old(ram.View()), dst, Prefix(s, n))
  {
    ghost var m, t := ram.View(), Prefix(s, n);
    var i: nat := 0;
    while i < n
      invariant i <= |t| && WrittenUpTo(m, ram.View(), dst, t, i)
    {
      assert ram.View()[src + i] == m[src + i] == CharAt(s, i);
      var c := ram.Load(src + i);
      if c == 0 {
        break;
      }
      ram.Store(dst + i, c);
      i := i + 1;
    }
    ram.Store(dst + i, 0);
  }

  method PutArgvArgcInStack(ram: Ram, stack: Word, argc: Word, ghost top: Page)
    requires ram.Valid() && stack + 0x3000 == 4096 * top
    modifies ram.bytes
    ensures ram.View() == StackArgs(old(ram.View()), top, argc)
  {
    hide SetWord;
    SlotAddress(top, 1023, stack + STACK_SIZE - 4);
    SlotAddress(top, 1022, stack + STACK_SIZE - 8);
    ram.StoreWord(stack + STACK_SIZE - 4, argc);
    ram.StoreWord(stack + STACK_SIZE - 8, ARG_VIRT_ADDR);
  }

  /** Pointer `i` of the kernel's argv leads to `s`, and neither lies in page `b`. */
  ghost predicate ArgApart(m: Mem, b: Page, argv: Word, i: nat, s: CString)
    requires argv % 4 == 0 && argv + 4 * i < 0x1_0000_0000
  {
    var p := WordAt(m, argv / 4 + i);
    && StringAt(m, p, s) && |s| <= 32
    && (argv + 4 * i + 3 < 4096 * b || 4096 * b + 4096 <= argv + 4 * i)
    && (p + |s| < 4096 * b || 4096 * b + 4096 <= p)
  }

  ghost predicate ArgsApart(m: Mem, b: Page, argv: Word, strs: seq<CString>) {
    && argv % 4 == 0 && argv + 4 * |strs| <= 0x1_0000_0000 && |strs| <= MOST_ARGS
    && forall i: nat | i < |strs| :: ArgApart(m, b, argv, i, strs[i])
  }

  /** An argument outside the block reads the same while only the block changes. */
  lemma ArgStays(m: Mem, r: Mem, b: Page, argv: Word, i: nat, s: CString)
    requires argv % 4 == 0 && argv + 4 * i < 0x1_0000_0000 && ArgApart(m, b, argv, i, s)
    requires forall a: Word | !InPage(b, a) :: r[a] == m[a]
    ensures WordAt(r, argv / 4 + i) == WordAt(m, argv / 4 + i) && ArgApart(r, b, argv, i, s)
  {
    WordAgree(m, r, argv / 4 + i);
  }

  method LoadArgBlock(ram: Ram, block: Word, argc: nat, argv: Word, ghost b: Page, ghost strs: seq<CString>)
    requires ram.Valid() && block == 4096 * b && argc == |strs| && ArgsApart(ram.View(), b, argv, strs)
    modifies ram.bytes
    ensures ram.View() == LoadArgs(old(ram.View()), b, strs, argc)
  {
    hide SetSlot, Written, WordAt, StringAt;
    ghost var m := ram.View();
    assert forall i | 0 <= i < |strs| :: ArgApart(m, b, argv, i, strs[i]);
    var i: nat := 0;
    var argStrings: Word := block + 4 * MAX_NUM_ARGS;
    while i < argc
      invariant i <= argc && argStrings == block + StringOffset(i)
      invariant ram.View() == LoadArgs(m, b, strs, i)
    {
      LoadsInPage(m, b, strs, i);
      ArgStays(m, ram.View(), b, argv, i, strs[i]);
      var src := ram.LoadWord(argv + 4 * i);
      Strcpy(ram, argStrings, src, strs[i]);
      StoreEntry(ram, block, i, UserAddr(argStrings, block), b);
      argStrings := argStrings + MAX_ARG_LEN;
      i := i + 1;
    }
  }
}
