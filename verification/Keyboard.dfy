/** A process's keyboard buffer: a ring of 1024 characters in which a zero marks an empty
    place, and the queue it stands for. */
module Keyboard {
  import opened Bits

  const SIZE: int := 1024

  datatype Ring = Ring(buffer: seq<Byte>, head: nat, tail: nat)

  predicate WellSized(r: Ring) {
    |r.buffer| == SIZE && r.head < SIZE && r.tail < SIZE
  }

  function At(r: Ring, k: nat): nat {
    (r.head + k) % SIZE
  }

  /** What the place `k` after the head holds. */
  function Read(r: Ring, k: nat): Byte
    requires WellSized(r)
  {
    r.buffer[At(r, k)]
  }

  function Queued(q: seq<Byte>, k: nat): Byte {
    if k < |q| then q[k] else 0
  }

  /** The ring holds the characters `q`, oldest first, and zeros elsewhere. */
  ghost predicate Holds(r: Ring, q: seq<Byte>) {
    && WellSized(r) && |q| <= SIZE && 0 !in q && r.tail == At(r, |q|)
    && forall k: nat | k < SIZE :: Read(r, k) == Queued(q, k)
  }

  // ------------------------------------------------------------------
  // The operations.
  // ------------------------------------------------------------------

  /** `keyboard_push` to a process. */
  function Push(r: Ring, c: Byte): Ring
    requires WellSized(r)
  {
    if c == 0 then r else Ring(r.buffer[r.tail := c], r.head, (r.tail + 1) % SIZE)
  }

  /** `keyboard_pop`. */
  function Pop(r: Ring): (Ring, Byte)
    requires WellSized(r)
  {
    var c := r.buffer[r.head];
    if c == 0 then (r, 0) else (Ring(r.buffer[r.head := 0], (r.head + 1) % SIZE, r.tail), c)
  }

  /** `keyboard_backspace`, whose last step clears the tail. */
  function Backspace(r: Ring): Ring {
    r.(tail := 0)
  }

  // ------------------------------------------------------------------
  // One step.
  // ------------------------------------------------------------------

  lemma PlacesApart(r: Ring, j: nat, k: nat)
    requires r.head < SIZE && j < SIZE && k < SIZE
    ensures At(r, j) == At(r, k) <==> j == k
  {
    ModOnce(r.head + j, SIZE);
    ModOnce(r.head + k, SIZE);
  }

  /** Writing the place `j` after the head. */
  lemma Rewrite(r: Ring, j: nat, c: Byte, tail: nat, k: nat)
    requires WellSized(r) && j < SIZE && k < SIZE && tail < SIZE
    ensures Read(Ring(r.buffer[At(r, j) := c], r.head, tail), k) == if k == j then c else Read(r, k)
  {
    PlacesApart(r, j, k);
  }

  /** Places count on from the next one once the head has moved. */
  lemma HeadMoved(r: Ring, buffer: seq<Byte>, k: nat)
    requires WellSized(r) && |buffer| == SIZE
    ensures Read(Ring(buffer, (r.head + 1) % SIZE, r.tail), k) == Read(Ring(buffer, r.head, r.tail), k + 1)
    ensures At(Ring(buffer, (r.head + 1) % SIZE, r.tail), k) == At(r, k + 1)
  {
    ModAdd(k, r.head + 1, SIZE);
  }

  lemma RoundTheRing(r: Ring)
    requires WellSized(r)
    ensures Read(r, SIZE) == Read(r, 0) && At(r, 0) == At(r, SIZE) == r.head
  {
  }

  lemma NextPlace(r: Ring, k: nat)
    ensures (At(r, k) + 1) % SIZE == At(r, k + 1)
  {
    ModAdd(1, r.head + k, SIZE);
  }

  lemma PushKeeps(r: Ring, q: seq<Byte>, c: Byte)
    requires Holds(r, q) && c != 0 && |q| < SIZE
    ensures Holds(Push(r, c), q + [c])
  {
    hide At, Read;
    var s := Push(r, c);
    NextPlace(r, |q|);
    SameAt(r, s, |q| + 1);
    forall k: nat | k < SIZE
      ensures Read(s, k) == Queued(q + [c], k)
    {
      Rewrite(r, |q|, c, s.tail, k);
    }
  }

  lemma SameAt(r: Ring, s: Ring, k: nat)
    requires r.head == s.head
    ensures At(r, k) == At(s, k)
  {
  }

  /** A character is queued exactly when there is a free place. */
  lemma PushExact(r: Ring, q: seq<Byte>, c: Byte)
    requires Holds(r, q) && c != 0
    ensures Holds(Push(r, c), q + [c]) <==> |q| < 1024
  {
    if |q| < SIZE {
      PushKeeps(r, q, c);
    }
  }

  /** A zero is no character: it is dropped. */
  lemma PushNothing(r: Ring, q: seq<Byte>)
    requires Holds(r, q)
    ensures Holds(Push(r, 0), q)
  {
    hide Holds;
    HoldsSized(r, q);
  }

  lemma Popped(r: Ring, k: nat)
    requires WellSized(r) && Read(r, 0) != 0 && k < SIZE
    ensures Pop(r).1 == Read(r, 0) && At(Pop(r).0, k) == At(r, k + 1)
    ensures Read(Pop(r).0, k) == if k + 1 < SIZE then Read(r, k + 1) else 0
  {
    hide At, Read;
    RoundTheRing(r);
    HeadRead(r);
    var buffer := r.buffer[r.head := 0];
    HeadMoved(r, buffer, k);
    RoundTheRing(Ring(buffer, r.head, r.tail));
    Rewrite(r, 0, 0, r.tail, if k + 1 < SIZE then k + 1 else 0);
  }

  lemma HeadRead(r: Ring)
    requires WellSized(r)
    ensures r.buffer[r.head] == Read(r, 0)
  {
  }

  /** A pop takes the oldest character, and answers 0 exactly when there is none. */
  lemma PopTakesOldest(r: Ring, q: seq<Byte>)
    requires Holds(r, q)
    ensures Pop(r).1 == 0 <==> q == []
    ensures q == [] ==> Pop(r).0 == r
    ensures q != [] ==> Pop(r).1 == q[0] && Holds(Pop(r).0, q[1..])
  {
    hide At, Read;
    HeadRead(r);
    assert Read(r, 0) == Queued(q, 0);
    if q != [] {
      assert q[0] in q;
      var s := Pop(r).0;
      forall k: nat | k < SIZE
        ensures Read(s, k) == Queued(q[1..], k)
      {
        Popped(r, k);
      }
      Popped(r, |q| - 1);
      assert forall c | c in q[1..] :: c in q;
    }
  }

  /** On a full ring the new character takes the oldest one's place and comes out first;
      the rest follow in order. */
  lemma PushFull(r: Ring, q: seq<Byte>, c: Byte)
    requires Holds(r, q) && c != 0 && |q| == SIZE
    ensures Pops(Push(r, c), SIZE) == [c] + q[1..]
  {
    hide At, Read;
    var s, p := Push(r, c), [c] + q[1..];
    RoundTheRing(r);
    forall k: nat | k < SIZE
      ensures Read(s, k) == Queued(p, k)
    {
      Rewrite(r, 0, c, s.tail, k);
      assert Read(r, k) == Queued(q, k);
    }
    assert forall d | d in q[1..] :: d in q;
    PopsInOrder(s, p);
  }

  /** What `n` pops answer. */
  function Pops(r: Ring, n: nat): seq<Byte>
    requires WellSized(r)
    decreases n
  {
    if n == 0 then [] else [Pop(r).1] + Pops(Pop(r).0, n - 1)
  }

  lemma {:induction false} PopsInOrder(r: Ring, p: seq<Byte>)
    requires WellSized(r) && |p| <= SIZE && 0 !in p && forall k: nat | k < |p| :: Read(r, k) == Queued(p, k)
    ensures Pops(r, |p|) == p
    decreases |p|
  {
    hide At, Read;
    if p != [] {
      HeadRead(r);
      assert Read(r, 0) == Queued(p, 0) && p[0] in p;
      var s := Pop(r).0;
      forall k: nat | k < |p| - 1
        ensures Read(s, k) == Queued(p[1..], k)
      {
        Popped(r, k);
      }
      assert forall c | c in p[1..] :: c in p;
      PopsInOrder(s, p[1..]);
    }
  }

  /** Backspace drops the last character exactly when there was nothing to drop and the
      ring had not moved: it clears the tail and no character. */
  lemma BackspaceExact(r: Ring, q: seq<Byte>)
    requires Holds(r, q)
    ensures Holds(Backspace(r), if q == [] then [] else q[..|q| - 1]) <==> q == [] && r.head == 0
    ensures Holds(Backspace(r), q) <==> r.tail == 0
  {
    hide At, Read;
    var s := Backspace(r);
    RoundTheRing(r);
    SameAt(r, s, |q|);
    if q != [] {
      var k := |q| - 1;
      assert Read(r, k) == Queued(q, k) && q[k] in q;
      SameRead(r, s, k);
      assert Queued(q[..k], k) == 0;
    }
    if r.tail == 0 {
      assert s == r;
    }
  }

  /** For one: a character typed into an empty ring is still there after a backspace. */
  lemma BackspaceExample(r: Ring)
    requires Holds(r, [])
    ensures Pop(Backspace(Push(r, 97))).1 == 97
  {
    hide Holds, At, Read;
    HoldsSized(r, []);
    PushKeeps(r, [], 97);
    assert [] + [97] == [97];
    PopTakesOldest(Push(r, 97), [97]);
  }

  lemma SameRead(r: Ring, s: Ring, k: nat)
    requires WellSized(r) && r.head == s.head && r.buffer == s.buffer && s.tail < SIZE
    ensures Read(r, k) == Read(s, k)
  {
  }

  // ------------------------------------------------------------------
  // Runs.
  // ------------------------------------------------------------------

  datatype Key = PushKey(c: Byte) | PopKey

  function StepKey(r: Ring, op: Key): (s: Ring)
    requires WellSized(r)
    ensures WellSized(s)
  {
    match op
    case PushKey(c) => Push(r, c)
    case PopKey => Pop(r).0
  }

  /** The characters a run pushes, without the zeros that are ignored. */
  function Typed(ops: seq<Key>): seq<Byte> {
    if ops == [] then []
    else (if ops[0].PushKey? && ops[0].c != 0 then [ops[0].c] else []) + Typed(ops[1..])
  }

  /** The characters its pops answer, without the zeros of an empty ring. */
  function Answers(r: Ring, ops: seq<Key>): seq<Byte>
    requires WellSized(r)
    decreases |ops|
  {
    if ops == [] then []
    else (if ops[0].PopKey? && Pop(r).1 != 0 then [Pop(r).1] else []) + Answers(StepKey(r, ops[0]), ops[1..])
  }

  function RunKeys(r: Ring, ops: seq<Key>): Ring
    requires WellSized(r)
    decreases |ops|
  {
    if ops == [] then r else RunKeys(StepKey(r, ops[0]), ops[1..])
  }

  /** The number of characters waiting, from the operations alone. */
  function Waiting(n: nat, op: Key): nat {
    if op.PushKey? then (if op.c == 0 then n else n + 1) else if n == 0 then 0 else n - 1
  }

  /** The run never types into a full ring. */
  predicate NeverFull(n: nat, ops: seq<Key>)
    decreases |ops|
  {
    ops == [] || (Waiting(n, ops[0]) <= 1024 && NeverFull(Waiting(n, ops[0]), ops[1..]))
  }

  /** First in, first out, over every run that never types into a full ring: what was
      waiting and what is typed is what comes out, in order, and what is left waiting. */
  lemma {:induction false} FirstInFirstOut(r: Ring, q: seq<Byte>, ops: seq<Key>) returns (left: seq<Byte>)
    requires Holds(r, q) && NeverFull(|q|, ops)
    ensures Holds(RunKeys(r, ops), left)
    ensures Answers(r, ops) + left == q + Typed(ops)
    decreases |ops|
  {
    hide Holds, Push, Pop, Typed, Answers;
    HoldsSized(r, q);
    if ops == [] {
      left := q;
      Ends(r);
      assert q + [] == q && [] + q == q;
    } else {
      var s, rest := StepKey(r, ops[0]), ops[1..];
      Unfolds(r, ops);
      PushZero(r);
      if ops[0].PushKey? && ops[0].c != 0 {
        PushKeeps(r, q, ops[0].c);
        left := FirstInFirstOut(s, q + [ops[0].c], rest);
        assert q + [ops[0].c] + Typed(rest) == q + ([ops[0].c] + Typed(rest));
      } else if ops[0].PopKey? && q != [] {
        PopTakesOldest(r, q);
        left := FirstInFirstOut(s, q[1..], rest);
        assert [q[0]] + (q[1..] + Typed(rest)) == q + Typed(rest);
        assert [q[0]] + Answers(s, rest) + left == [q[0]] + (Answers(s, rest) + left);
      } else {
        PopTakesOldest(r, q);
        left := FirstInFirstOut(s, q, rest);
        assert [] + Typed(rest) == Typed(rest) && [] + Answers(s, rest) == Answers(s, rest);
      }
    }
  }

  lemma HoldsSized(r: Ring, q: seq<Byte>)
    requires Holds(r, q)
    ensures WellSized(r) && |q| <= SIZE && 0 !in q
  {
  }

  lemma PushZero(r: Ring)
    requires WellSized(r)
    ensures Push(r, 0) == r
  {
  }

  lemma Ends(r: Ring)
    requires WellSized(r)
    ensures Typed([]) == [] && Answers(r, []) == []
  {
  }

  lemma Unfolds(r: Ring, ops: seq<Key>)
    requires WellSized(r) && ops != []
    ensures Typed(ops) == (if ops[0].PushKey? && ops[0].c != 0 then [ops[0].c] else []) + Typed(ops[1..])
    ensures Answers(r, ops) ==
            (if ops[0].PopKey? && Pop(r).1 != 0 then [Pop(r).1] else []) + Answers(StepKey(r, ops[0]), ops[1..])
  {
  }

  // ------------------------------------------------------------------
  // A run that types into a full ring loses a character for good.
  // ------------------------------------------------------------------

  /** The places from `i` on that are in use. */
  function InUse(buffer: seq<Byte>, i: nat): nat
    requires i <= |buffer|
    decreases |buffer| - i
  {
    if i == |buffer| then 0 else (if buffer[i] == 0 then 0 else 1) + InUse(buffer, i + 1)
  }

  function One(b: Byte): nat {
    if b == 0 then 0 else 1
  }

  lemma {:induction false} InUseUpdate(buffer: seq<Byte>, a: nat, c: Byte, i: nat)
    requires a < |buffer| && i <= |buffer|
    ensures InUse(buffer[a := c], i) == InUse(buffer, i) + (if i <= a then One(c) - One(buffer[a]) else 0)
    decreases |buffer| - i
  {
    if i < |buffer| {
      InUseUpdate(buffer, a, c, i + 1);
    }
  }

  lemma {:induction false} NoneInUse(buffer: seq<Byte>, i: nat)
    requires i <= |buffer| && forall a | 0 <= a < |buffer| :: buffer[a] == 0
    ensures InUse(buffer, i) == 0
    decreases |buffer| - i
  {
    if i < |buffer| {
      NoneInUse(buffer, i + 1);
    }
  }

  lemma EveryPlace(r: Ring, a: nat) returns (k: nat)
    requires WellSized(r) && a < SIZE
    ensures k < SIZE && At(r, k) == a
  {
    k := if r.head <= a then a - r.head else a - r.head + SIZE;
  }

  lemma {:induction false} QueueInUse(r: Ring, q: seq<Byte>)
    requires Holds(r, q)
    ensures InUse(r.buffer, 0) == |q|
    decreases |q|
  {
    hide At;
    if q == [] {
      forall a | 0 <= a < SIZE
        ensures r.buffer[a] == 0
      {
        var k := EveryPlace(r, a);
        assert Read(r, k) == Queued(q, k);
      }
      NoneInUse(r.buffer, 0);
    } else {
      PopTakesOldest(r, q);
      QueueInUse(Pop(r).0, q[1..]);
      InUseUpdate(r.buffer, r.head, 0, 0);
    }
  }

  /** Characters are never made up. */
  lemma {:induction false} NoneMadeUp(r: Ring, ops: seq<Key>)
    requires WellSized(r)
    ensures |Answers(r, ops)| + InUse(RunKeys(r, ops).buffer, 0) <= InUse(r.buffer, 0) + |Typed(ops)|
    decreases |ops|
  {
    hide InUse;
    if ops != [] {
      var s := StepKey(r, ops[0]);
      NoneMadeUp(s, ops[1..]);
      InUseUpdate(r.buffer, r.head, 0, 0);
      match ops[0]
      case PushKey(c) => InUseUpdate(r.buffer, r.tail, c, 0);
      case PopKey =>
    }
  }

  lemma {:induction false} OneLost(r: Ring, q: seq<Byte>, ops: seq<Key>)
    requires Holds(r, q) && !NeverFull(|q|, ops)
    ensures WellSized(r) && |Answers(r, ops)| + InUse(RunKeys(r, ops).buffer, 0) < |q| + |Typed(ops)|
    decreases |ops|
  {
    hide InUse, Holds, Push, Pop, Typed, Answers;
    HoldsSized(r, q);
    Unfolds(r, ops);
    PushZero(r);
    var s, rest := StepKey(r, ops[0]), ops[1..];
    if Waiting(|q|, ops[0]) > SIZE {
      FullInUse(r, q, ops[0].c);
      NoneMadeUp(s, rest);
    } else if ops[0].PushKey? && ops[0].c != 0 {
      PushKeeps(r, q, ops[0].c);
      OneLost(s, q + [ops[0].c], rest);
    } else if ops[0].PopKey? && q != [] {
      PopTakesOldest(r, q);
      OneLost(s, q[1..], rest);
    } else {
      PopTakesOldest(r, q);
      OneLost(s, q, rest);
    }
  }

  lemma FullInUse(r: Ring, q: seq<Byte>, c: Byte)
    requires Holds(r, q) && |q| == SIZE && c != 0
    ensures InUse(Push(r, c).buffer, 0) == |q|
  {
    hide At, Read, InUse;
    QueueInUse(r, q);
    RoundTheRing(r);
    HeadRead(r);
    assert Read(r, 0) == Queued(q, 0) && q[0] in q;
    InUseUpdate(r.buffer, r.tail, c, 0);
  }

  /** The run kept every character, in order. */
  ghost predicate Faithful(r: Ring, q: seq<Byte>, ops: seq<Key>, left: seq<Byte>) {
    WellSized(r) && Holds(RunKeys(r, ops), left) && Answers(r, ops) + left == q + Typed(ops)
  }

  lemma LosesSome(r: Ring, q: seq<Byte>, ops: seq<Key>, left: seq<Byte>)
    requires Holds(r, q) && !NeverFull(|q|, ops)
    ensures !Faithful(r, q, ops, left)
  {
    hide Holds, RunKeys, Answers, Typed, InUse;
    OneLost(r, q, ops);
    if Holds(RunKeys(r, ops), left) {
      QueueInUse(RunKeys(r, ops), left);
      assert |Answers(r, ops) + left| < |q + Typed(ops)|;
    }
  }

  /** A run is first in, first out exactly when it never types into a full ring. */
  lemma FifoExact(r: Ring, q: seq<Byte>, ops: seq<Key>)
    requires Holds(r, q)
    ensures (exists left :: Faithful(r, q, ops, left)) <==> NeverFull(|q|, ops)
  {
    hide Holds, RunKeys, Answers, Typed, InUse;
    HoldsSized(r, q);
    if NeverFull(|q|, ops) {
      var left := FirstInFirstOut(r, q, ops);
      assert Faithful(r, q, ops, left);
    } else {
      forall left
        ensures !Faithful(r, q, ops, left)
      {
        LosesSome(r, q, ops, left);
      }
    }
  }

  // ------------------------------------------------------------------
  // The buffer itself.
  // ------------------------------------------------------------------

  class KeyboardBuffer {
    const buffer: array<Byte>
    var head: nat
    var tail: nat

    ghost predicate Valid()
      reads this, buffer
    {
      WellSized(View())
    }

    ghost function View(): Ring
      reads this, buffer
    {
      Ring(buffer[..], head, tail)
    }

    constructor ()
      ensures Valid() && fresh(buffer) && Holds(View(), [])
    {
      buffer := new Byte[1024](_ => 0);
      head, tail := 0, 0;
    }

    method IncrementTail()
      requires Valid()
      modifies this`tail
      ensures Valid() && View() == old(View()).(tail := (old(tail) + 1) % SIZE)
    {
      tail := (tail + 1) % SIZE;
    }

    method IncrementHead()
      requires Valid()
      modifies this`head
      ensures Valid() && View() == old(View()).(head := (old(head) + 1) % SIZE)
    {
      head := (head + 1) % SIZE;
    }

    method DecrementTail()
      requires Valid()
      modifies this`tail
      ensures head == old(head) && buffer[..] == old(buffer[..])
      ensures tail == if old(tail) == head then head else if old(tail) == 0 then SIZE else old(tail) - 1
    {
      if tail == head {
        return;
      }
      if tail == 0 {
        tail := SIZE;
        return;
      }
      tail := tail - 1;
    }

    /** `keyboard_push` and `keyboard_pop` for the process that owns the buffer. */
    method Type(c: Byte)
      requires Valid()
      modifies this, buffer
      ensures Valid() && View() == Push(old(View()), c)
    {
      if c == 0 {
        return;
      }
      buffer[tail] := c;
      IncrementTail();
    }

    method Take() returns (c: Byte)
      requires Valid()
      modifies this, buffer
      ensures Valid() && (View(), c) == Pop(old(View()))
    {
      c := buffer[head];
      if c == 0 {
        return 0;
      }
      buffer[head] := 0;
      IncrementHead();
    }

    method Erase()
      requires Valid()
      modifies this
      ensures Valid() && View() == Backspace(old(View()))
    {
      DecrementTail();
      tail := 0;
    }
  }

  /** `keyboard_push`: without a current process the key is dropped. */
  method KeyboardPush(process: KeyboardBuffer?, c: Byte)
    requires process != null ==> process.Valid()
    modifies process, if process == null then {} else {process.buffer}
    ensures process != null ==> process.Valid() && process.View() == Push(old(process.View()), c)
  {
    if process == null {
      return;
    }
    process.Type(c);
  }

  /** `keyboard_pop`: without a current task the answer is 0. */
  method KeyboardPop(task: KeyboardBuffer?) returns (c: Byte)
    requires task != null ==> task.Valid()
    modifies task, if task == null then {} else {task.buffer}
    ensures task == null ==> c == 0
    ensures task != null ==> task.Valid() && (task.View(), c) == Pop(old(task.View()))
  {
    if task == null {
      return 0;
    }
    c := task.Take();
  }
}
