/** The kernel's task list: a doubly linked list threaded through the tasks, and the task
    that runs. */
module TaskList {
  import opened Scheduling

  ghost predicate NextRight(s: seq<Task>, i: nat)
    requires i < |s|
    reads s[i]
  {
    s[i].next == if i + 1 < |s| then s[i + 1] else null
  }

  /** Following `next` gives exactly `s`, and then NULL. */
  ghost predicate Forward(s: seq<Task>)
    reads s
  {
    forall i: nat | i < |s| :: NextRight(s, i)
  }

  /** A right back pointer names the task before, or NULL at the head; a wrong one does
      not name any task further up the list. */
  ghost predicate Back(s: seq<Task>, i: nat, right: bool)
    requires i < |s|
    reads s[i]
  {
    if right then s[i].prev == (if i == 0 then null else s[i - 1])
    else s[i].prev != null && s[i].prev !in s[..i]
  }

  ghost predicate Backward(s: seq<Task>, ok: seq<bool>)
    reads s
  {
    |ok| == |s| && forall i: nat | i < |s| :: Back(s, i, ok[i])
  }

  function First(s: seq<Task>): Task? {
    if s == [] then null else s[0]
  }

  function Last(s: seq<Task>): Task? {
    if s == [] then null else s[|s| - 1]
  }

  lemma NextIsSuccessor(s: seq<Task>, t: Task?)
    requires Forward(s) && t in s
    ensures Successor(s, t) == if t.next == null then s[0] else t.next
  {
    var i := Index(s, t);
    assert NextRight(s, i);
  }

  lemma AppendedForward(s: seq<Task>, t: Task)
    requires s != [] && s[|s| - 1].next == t && t.next == null
    requires forall i: nat | i < |s| - 1 :: NextRight(s, i)
    ensures Forward(s + [t])
  {
    forall i: nat | i < |s| + 1
      ensures NextRight(s + [t], i)
    {
      assert i < |s| - 1 ==> NextRight(s, i);
    }
  }

  lemma AppendedBackward(s: seq<Task>, ok: seq<bool>, t: Task)
    requires s != [] && Backward(s, ok) && t.prev == s[|s| - 1]
    ensures Backward(s + [t], ok + [true])
  {
    forall i: nat | i < |s| + 1
      ensures Back(s + [t], i, (ok + [true])[i])
    {
      if i < |s| {
        assert Back(s, i, ok[i]);
        assert (s + [t])[..i] == s[..i];
      }
    }
  }

  /** Taking task `i` out of the forward chain. */
  lemma CutForward(s: seq<Task>, i: nat)
    requires i < |s| && (i > 0 ==> s[i - 1].next == if i + 1 < |s| then s[i + 1] else null)
    requires forall j: nat | j < |s| && j != i && j != i - 1 :: NextRight(s, j)
    ensures Forward(Cut(s, i))
  {
    var r := Cut(s, i);
    forall j: nat | j < |r|
      ensures NextRight(r, j)
    {
      if j != i - 1 {
        assert NextRight(s, if j < i then j else j + 1);
      }
    }
  }

  lemma CutBackward(s: seq<Task>, ok: seq<bool>, i: nat)
    requires i < |s| == |ok| && NoDup(s) && forall j: nat | j < |s| && j != i && j != i + 1 :: Back(s, j, ok[j])
    requires i + 1 < |s| ==> if i == 0 then s[1].prev == null else s[i + 1].prev != null && s[i + 1].prev !in s[..i]
    ensures Backward(Cut(s, i), OkWithout(ok, i))
  {
    hide Back, NoDup;
    var r := Cut(s, i);
    forall j: nat | j < |r|
      ensures Back(r, j, OkWithout(ok, i)[j])
    {
      if j < i {
        assert Back(s, j, ok[j]);
        CutBefore(s, i, j, ok[j]);
      } else if j == i {
        CutHere(s, i);
      } else {
        assert Back(s, j + 1, ok[j + 1]);
        CutAfter(s, i, j, ok[j + 1]);
      }
    }
  }

  lemma CutBefore(s: seq<Task>, i: nat, j: nat, right: bool)
    requires j < i < |s| && Back(s, j, right)
    ensures Back(Cut(s, i), j, right)
  {
    assert Cut(s, i)[..j] == s[..j];
  }

  lemma CutHere(s: seq<Task>, i: nat)
    requires i + 1 < |s|
    requires if i == 0 then s[1].prev == null else s[i + 1].prev != null && s[i + 1].prev !in s[..i]
    ensures Back(Cut(s, i), i, i == 0)
  {
    assert Cut(s, i)[..i] == s[..i];
  }

  lemma CutAfter(s: seq<Task>, i: nat, j: nat, right: bool)
    requires i < j < |s| - 1 && Back(s, j + 1, right)
    ensures Back(Cut(s, i), j, right)
  {
    CutWithin(s, i, j);
  }

  lemma CutWithin(s: seq<Task>, i: nat, j: nat)
    requires i < j < |s| - 1
    ensures forall t | t in Cut(s, i)[..j] :: t in s[..j + 1]
  {
    var r := Cut(s, i);
    forall t | t in r[..j]
      ensures t in s[..j + 1]
    {
      var k :| 0 <= k < j && r[k] == t;
      assert s[..j + 1][if k < i then k else k + 1] == t;
    }
  }

  /** A chain that still runs through task `i` is not the chain without it. */
  lemma StillLinked(s: seq<Task>, i: nat)
    requires NoDup(s) && 0 < i < |s| - 1 && s[i - 1].next == s[i]
    ensures !Forward(Cut(s, i))
  {
    var r := Cut(s, i);
    assert r[i - 1] == s[i - 1] && r[i] == s[i + 1];
    assert !NextRight(r, i - 1);
  }

  lemma CutEnds(s: seq<Task>, i: nat)
    requires i < |s|
    ensures |s| == 1 ==> Cut(s, i) == []
    ensures |s| > 1 ==> First(Cut(s, i)) == (if i == 0 then s[1] else s[0])
    ensures |s| > 1 ==> Last(Cut(s, i)) == (if i == |s| - 1 then s[i - 1] else s[|s| - 1])
  {
  }

  lemma RemovedParts(s: Sched, t: Task)
    requires Inv(s) && t in s.tasks
    ensures var i, r := Index(s.tasks, t), Removed(s, t);
            && r.tasks == Cut(s.tasks, i) && r.ok == OkWithout(s.ok, i)
            && r.current == if |s.tasks| == 1 then null else if s.current == t then Successor(s.tasks, t) else s.current
  {
  }

  class TaskQueue {
    var head: Task?
    var tail: Task?
    var current: Task?
    ghost var tasks: seq<Task>
    ghost var ok: seq<bool>

    /** The list that starts at `head` and ends at `tail` is `s`. */
    ghost predicate Linked(s: seq<Task>)
      reads this, s
    {
      head == First(s) && tail == Last(s) && Forward(s)
    }

    ghost predicate Valid()
      reads this, tasks
    {
      Linked(tasks) && Backward(tasks, ok) && Inv(Abs())
    }

    ghost function Abs(): Sched
      reads this
    {
      Sched(tasks, ok, current)
    }

    constructor ()
      ensures Valid() && Abs() == Sched([], [], null)
    {
      head, tail, current, tasks, ok := null, null, null, [], [];
    }

    /** `task_get_next`. */
    method GetNext() returns (t: Task)
      requires Valid() && tasks != []
      ensures t == Successor(tasks, current)
    {
      hide Backward, NoDup, Index, Successor;
      NextIsSuccessor(tasks, current);
      if current.next == null {
        return head;
      }
      return current.next;
    }

    /** The part of `task_exec` that the scheduler sees. */
    method Exec(t: Task)
      requires Valid() && t in tasks
      modifies this`current
      ensures Valid() && Abs() == old(Abs()).(current := t)
    {
      hide NoDup, Forward, Backward;
      current := t;
    }

    /** `task_exec(task_get_next())`, where a process that ends hands over. */
    method Schedule()
      requires Valid() && tasks != []
      modifies this`current
      ensures Valid() && Abs() == Ticked(old(Abs()))
    {
      var t := GetNext();
      Exec(t);
    }

    /** `task_new` on a zeroed task. */
    method Append(t: Task)
      requires Valid() && t !in tasks
      modifies this, t, tasks
      ensures Valid() && Abs() == Added(old(Abs()), t)
    {
      t.next, t.prev := null, null;
      if head == null {
        head, tail, current := t, t, t;
        tasks, ok := [t], [true];
        return;
      }
      tail.next := t;
      t.prev := tail;
      tail := t;
      tail.next := null;
      AppendedForward(tasks, t);
      AppendedBackward(tasks, ok, t);
      tasks, ok := tasks + [t], ok + [true];
    }

    /** The four branches of `task_list_remove`. */
    method Unlink(t: Task)
      requires Valid() && t in tasks
      modifies this`head, this`tail, this`current, tasks, if t.prev == null then {} else {t.prev}
      ensures Linked(Cut(tasks, Index(tasks, t))) <==> ok[Index(tasks, t)]
      ensures ok[Index(tasks, t)] ==> Backward(Cut(tasks, Index(tasks, t)), OkWithout(ok, Index(tasks, t)))
      ensures ok[Index(tasks, t)] ==> t.next == old(t.next)
      ensures current == if |tasks| == 1 then null else old(current)
    {
      hide Index, OkWithout, Cut;
      ghost var s, i := tasks, Index(tasks, t);
      assert Back(s, i, ok[i]) && (i + 1 < |s| ==> Back(s, i + 1, ok[i + 1]));
      assert NextRight(s, i) && (i > 0 ==> NextRight(s, i - 1));
      CutEnds(s, i);
      if t == head && t == tail {
        head, tail, current := null, null, null;
        CutBackward(s, ok, i);
      } else if t == head {
        head := t.next;
        head.prev := null;
        forall j: nat | j < |s|
          ensures NextRight(s, j)
        {
          assert old(NextRight(s, j));
        }
        CutForward(s, i);
        CutBackward(s, ok, i);
      } else if t == tail {
        tail := t.prev;
        tail.next := null;
        if ok[i] {
          forall j: nat | j < |s| && j != i && j != i - 1
            ensures NextRight(s, j)
          {
            assert old(NextRight(s, j));
          }
          CutForward(s, i);
          CutBackward(s, ok, i);
        }
      } else {
        t.prev.next := t.next;
        if ok[i] {
          forall j: nat | j < |s| && j != i && j != i - 1
            ensures NextRight(s, j)
          {
            assert old(NextRight(s, j));
          }
          CutForward(s, i);
          CutBackward(s, ok, i);
        } else {
          StillLinked(s, i);
        }
      }
    }

    /** `task_list_remove`: the list without the task, exactly when the task's own back
        pointer was right. */
    method Remove(t: Task)
      requires Valid() && t in tasks
      modifies this, tasks, if t.prev == null then {} else {t.prev}
      ensures Linked(Cut(old(tasks), Index(old(tasks), t))) <==> old(Allowed(Abs(), Op.Remove(t)))
      ensures old(Allowed(Abs(), Op.Remove(t))) ==> Valid() && Abs() == old(Removed(Abs(), t))
    {
      hide Index, Successor, OkWithout, Cut, Removed, Forward, Backward, NoDup;
      ghost var s, i, was := tasks, Index(tasks, t), Abs();
      RemovedOrder(was, t);
      RemovedParts(was, t);
      NextIsSuccessor(s, t);
      CutEnds(s, i);
      Unlink(t);
      if t == current {
        current := if current.next == null then head else current.next;
      }
      if ok[i] {
        tasks, ok := Cut(s, i), OkWithout(ok, i);
      }
    }
  }
}
