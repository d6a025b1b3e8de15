/** The round robin that the task list stands for: what adding, removing and scheduling
    tasks does to the order of turns, over every run. */
module Scheduling {
  class Task {
    var next: Task?
    var prev: Task?
  }

  /** The tasks in list order, which of their `prev` pointers are right, and the current
      task (null in an empty list). */
  datatype Sched = Sched(tasks: seq<Task>, ok: seq<bool>, current: Task?)

  ghost predicate NoDup(s: seq<Task>) {
    forall i, j | 0 <= i < j < |s| :: s[i] != s[j]
  }

  ghost predicate Inv(s: Sched) {
    && NoDup(s.tasks) && |s.ok| == |s.tasks| && (s.ok != [] ==> s.ok[0])
    && (s.current == null <==> s.tasks == []) && (s.current != null ==> s.current in s.tasks)
  }

  ghost function Index(s: seq<Task>, t: Task?): (i: nat)
    requires t in s
    ensures i < |s| && s[i] == t
  {
    if s[0] == t then 0 else 1 + Index(s[1..], t)
  }

  lemma IndexUnique(s: seq<Task>, i: nat)
    requires NoDup(s) && i < |s|
    ensures Index(s, s[i]) == i
  {
  }

  function Cut<T>(s: seq<T>, i: nat): seq<T>
    requires i < |s|
  {
    s[..i] + s[i + 1..]
  }

  /** The task whose turn follows `t`'s. */
  ghost function Successor(s: seq<Task>, t: Task?): Task
    requires t in s
  {
    var i := Index(s, t);
    if i + 1 < |s| then s[i + 1] else s[0]
  }

  // ------------------------------------------------------------------
  // The operations on the order of turns.
  // ------------------------------------------------------------------

  function Added(s: Sched, t: Task): Sched {
    Sched(s.tasks + [t], s.ok + [true], if s.tasks == [] then t else s.current)
  }

  /** The back pointers once task `i` is out: the new head's is cleared, and an inner
      task's successor keeps pointing at the task that left. */
  function OkWithout(ok: seq<bool>, i: nat): seq<bool>
    requires i < |ok|
  {
    var cut := Cut(ok, i);
    if i < |cut| then cut[i := i == 0] else cut
  }

  ghost function Removed(s: Sched, t: Task): Sched
    requires Inv(s) && t in s.tasks
  {
    var i := Index(s.tasks, t);
    Sched(Cut(s.tasks, i), OkWithout(s.ok, i),
          if |s.tasks| == 1 then null else if s.current == t then Successor(s.tasks, t) else s.current)
  }

  /** `task_exec(task_get_next())`. */
  ghost function Ticked(s: Sched): Sched
    requires Inv(s) && s.tasks != []
  {
    s.(current := Successor(s.tasks, s.current))
  }

  /** `task_new`, `task_list_remove`, `task_exec(task_get_next())`, and `task_exec` of a
      chosen task. */
  datatype Op = Add(t: Task) | Remove(t: Task) | Tick | Jump(t: Task)

  /** A task is removed while it is in the list and its own back pointer is right. */
  ghost predicate Allowed(s: Sched, op: Op)
    requires Inv(s)
  {
    match op
    case Add(t) => t !in s.tasks
    case Remove(t) => t in s.tasks && s.ok[Index(s.tasks, t)]
    case Tick => s.tasks != []
    case Jump(t) => t in s.tasks
  }

  ghost function Step(s: Sched, op: Op): (r: Sched)
    requires Inv(s) && Allowed(s, op)
    ensures Inv(r)
  {
    StepKeeps(s, op);
    match op
    case Add(t) => Added(s, t)
    case Remove(t) => Removed(s, t)
    case Tick => Ticked(s)
    case Jump(t) => s.(current := t)
  }

  lemma StepKeeps(s: Sched, op: Op)
    requires Inv(s) && Allowed(s, op)
    ensures op.Add? ==> Inv(Added(s, op.t))
    ensures op.Remove? ==> Inv(Removed(s, op.t))
    ensures op.Tick? ==> Inv(Ticked(s))
    ensures op.Jump? ==> Inv(s.(current := op.t))
  {
    match op
    case Add(t) =>
    case Remove(t) =>
      RemovedOrder(s, t);
    case Tick =>
    case Jump(t) =>
  }

  lemma CutNoDup(s: seq<Task>, i: nat)
    requires NoDup(s) && i < |s|
    ensures NoDup(Cut(s, i)) && s[i] !in Cut(s, i)
  {
    var r := Cut(s, i);
    assert forall k | 0 <= k < |r| :: r[k] == s[if k < i then k else k + 1];
  }

  lemma CutIndex(s: seq<Task>, i: nat, j: nat)
    requires NoDup(s) && i < |s| && j < |s| && i != j
    ensures s[j] in Cut(s, i) && Index(Cut(s, i), s[j]) == j - (if i < j then 1 else 0)
  {
    CutNoDup(s, i);
    var k := j - (if i < j then 1 else 0);
    assert Cut(s, i)[k] == s[j];
    IndexUnique(Cut(s, i), k);
  }

  /** Taking a task out keeps every other task, in order. */
  lemma RemovedOrder(s: Sched, t: Task)
    requires Inv(s) && t in s.tasks
    ensures Inv(Removed(s, t)) && t !in Removed(s, t).tasks
    ensures forall u | u in s.tasks && u != t ::
              && u in Removed(s, t).tasks
              && Index(Removed(s, t).tasks, u) ==
                 Index(s.tasks, u) - (if Index(s.tasks, t) < Index(s.tasks, u) then 1 else 0)
  {
    hide NoDup, Cut;
    var i := Index(s.tasks, t);
    CutNoDup(s.tasks, i);
    forall u | u in s.tasks && u != t
      ensures u in Cut(s.tasks, i)
      ensures Index(Cut(s.tasks, i), u) == Index(s.tasks, u) - (if i < Index(s.tasks, u) then 1 else 0)
    {
      CutIndex(s.tasks, i, Index(s.tasks, u));
    }
    RemovedKeeps(s, t);
  }

  /** Removing the current task gives the turn to the task that would have had the next one;
      removing another leaves the turn where it is. */
  lemma RemovedTurn(s: Sched, t: Task)
    requires Inv(s) && t in s.tasks && |s.tasks| > 1
    ensures Removed(s, t).current == if s.current == t then Ticked(s).current else s.current
    ensures Removed(s, t).current in s.tasks && Removed(s, t).current != t
  {
    hide Cut, OkWithout;
    assert s.tasks[Index(s.tasks, t)] == t;
  }

  lemma RemovedKeeps(s: Sched, t: Task)
    requires Inv(s) && t in s.tasks && NoDup(Cut(s.tasks, Index(s.tasks, t)))
    requires forall u | u in s.tasks && u != t :: u in Cut(s.tasks, Index(s.tasks, t))
    ensures Inv(Removed(s, t))
  {
    if |s.tasks| > 1 {
      var i := Index(s.tasks, t);
      assert s.tasks[if i + 1 < |s.tasks| then i + 1 else 0] != t;
    }
  }

  /** Removal keeps all back pointers right exactly at the ends of the list. */
  lemma RemoveKeepsLinks(s: Sched, t: Task)
    requires Inv(s) && t in s.tasks && false !in s.ok
    ensures false !in Removed(s, t).ok <==> t == s.tasks[0] || t == s.tasks[|s.tasks| - 1]
  {
    var i, ok := Index(s.tasks, t), Removed(s, t).ok;
    IndexUnique(s.tasks, 0);
    IndexUnique(s.tasks, |s.tasks| - 1);
    if 0 < i < |s.tasks| - 1 {
      assert ok[i] == false;
    }
  }

  /** For one: the inner of three tasks leaves, and its successor's pointer is wrong. */
  lemma InnerRemovalExample(a: Task, b: Task, c: Task)
    requires a != b && b != c && a != c
    ensures var s := Sched([a, b, c], [true, true, true], a);
            Inv(s) && Removed(s, b) == Sched([a, c], [true, false], a)
  {
    var s := Sched([a, b, c], [true, true, true], a);
    IndexUnique(s.tasks, 1);
    assert s.tasks[1] == b;
    assert Cut(s.tasks, 1) == [a, c] && Cut(s.ok, 1) == [true, true];
    assert [true, true][1 := false] == [true, false];
  }

  /** Once a task is out, the task behind it can itself be taken out properly exactly
      when the first was at an end of the list. */
  lemma SuccessorStranded(s: Sched, t: Task)
    requires Inv(s) && |s.tasks| >= 2 && Allowed(s, Remove(t))
    ensures Allowed(Step(s, Remove(t)), Remove(Successor(s.tasks, t))) <==>
            t == s.tasks[0] || t == s.tasks[|s.tasks| - 1]
  {
    hide Cut;
    var i, n := Index(s.tasks, t), |s.tasks|;
    RemovedOrder(s, t);
    IndexUnique(s.tasks, 0);
    IndexUnique(s.tasks, n - 1);
    IndexUnique(s.tasks, if i + 1 < n then i + 1 else 0);
    OkAt(s.ok, i);
  }

  lemma OkAt(ok: seq<bool>, i: nat)
    requires i < |ok| && ok[0] && |ok| >= 2
    ensures OkWithout(ok, i)[0] && |OkWithout(ok, i)| == |ok| - 1
    ensures i < |ok| - 1 ==> (OkWithout(ok, i)[i] <==> i == 0)
  {
  }

  // ------------------------------------------------------------------
  // Turns.
  // ------------------------------------------------------------------

  /** Ticks until `t` runs: the current task waits for a whole round. */
  ghost function Wait(s: Sched, t: Task): (d: nat)
    requires Inv(s) && t in s.tasks
    ensures 1 <= d <= |s.tasks|
  {
    var c, j := Index(s.tasks, s.current), Index(s.tasks, t);
    if c < j then j - c else j - c + |s.tasks|
  }

  lemma TickWait(s: Sched, t: Task)
    requires Inv(s) && t in s.tasks
    ensures Ticked(s).current == t <==> Wait(s, t) == 1
    ensures Wait(Ticked(s), t) == if Wait(s, t) == 1 then |s.tasks| else Wait(s, t) - 1
  {
    var c := Index(s.tasks, s.current);
    IndexUnique(s.tasks, if c + 1 < |s.tasks| then c + 1 else 0);
  }

  ghost function Ticks(s: Sched, k: nat): (r: Sched)
    requires Inv(s) && s.tasks != []
    ensures Inv(r) && r.tasks == s.tasks && r.ok == s.ok
    decreases k
  {
    if k == 0 then s else Ticks(Step(s, Tick), k - 1)
  }

  /** Within a round, `t` runs at the tick it waits for and at no other. */
  lemma {:induction false} RunsAt(s: Sched, k: nat, t: Task)
    requires Inv(s) && t in s.tasks && 1 <= k <= |s.tasks|
    ensures Ticks(s, k).current == t <==> Wait(s, t) == k
    decreases k
  {
    hide Wait;
    TickWait(s, t);
    if k == 1 {
      assert Ticks(s, 1) == Ticks(Ticked(s), 0);
    } else {
      RunsAt(Ticked(s), k - 1, t);
    }
  }

  ghost function Turns(s: Sched, k: nat, t: Task): nat
    requires Inv(s) && s.tasks != []
    decreases k
  {
    if k == 0 then 0 else (if Ticked(s).current == t then 1 else 0) + Turns(Step(s, Tick), k - 1, t)
  }

  lemma {:induction false} TurnsInRound(s: Sched, k: nat, t: Task)
    requires Inv(s) && t in s.tasks && k <= |s.tasks|
    ensures Turns(s, k, t) == if Wait(s, t) <= k then 1 else 0
    decreases k
  {
    hide Wait;
    if k > 0 {
      TickWait(s, t);
      TurnsInRound(Ticked(s), k - 1, t);
    }
  }

  /** Round robin: as many ticks as there are tasks give every task exactly one turn and
      come back to where they started. */
  lemma RoundRobin(s: Sched)
    requires Inv(s) && s.tasks != []
    ensures forall t | t in s.tasks :: Turns(s, |s.tasks|, t) == 1
    ensures Ticks(s, |s.tasks|) == s
  {
    forall t | t in s.tasks
      ensures Turns(s, |s.tasks|, t) == 1
    {
      TurnsInRound(s, |s.tasks|, t);
    }
    RunsAt(s, |s.tasks|, s.current);
  }

  // ------------------------------------------------------------------
  // Runs.
  // ------------------------------------------------------------------

  ghost predicate RunAllowed(s: Sched, ops: seq<Op>)
    requires Inv(s)
    decreases |ops|
  {
    ops == [] || (Allowed(s, ops[0]) && RunAllowed(Step(s, ops[0]), ops[1..]))
  }

  ghost function Run(s: Sched, ops: seq<Op>): (r: Sched)
    requires Inv(s) && RunAllowed(s, ops)
    ensures Inv(r)
    decreases |ops|
  {
    if ops == [] then s else Run(Step(s, ops[0]), ops[1..])
  }

  /** Every task that leaves during the run is then at an end of the list. */
  ghost predicate EndsOnly(s: Sched, ops: seq<Op>)
    requires Inv(s) && RunAllowed(s, ops)
    decreases |ops|
  {
    || ops == []
    || (&& (ops[0].Remove? ==> ops[0].t == s.tasks[0] || ops[0].t == s.tasks[|s.tasks| - 1])
        && EndsOnly(Step(s, ops[0]), ops[1..]))
  }

  /** Over every such run the list stays doubly linked. */
  lemma {:induction false} StaysLinked(s: Sched, ops: seq<Op>)
    requires Inv(s) && RunAllowed(s, ops) && EndsOnly(s, ops) && false !in s.ok
    ensures false !in Run(s, ops).ok
    decreases |ops|
  {
    if ops != [] {
      if ops[0].Remove? {
        RemoveKeepsLinks(s, ops[0].t);
      }
      StaysLinked(Step(s, ops[0]), ops[1..]);
    }
  }

  /** `t` does not leave during the run. */
  ghost predicate Stays(s: Sched, ops: seq<Op>, t: Task)
    requires Inv(s) && RunAllowed(s, ops)
    decreases |ops|
  {
    ops == [] || (ops[0] != Remove(t) && Stays(Step(s, ops[0]), ops[1..], t))
  }

  /** `t` gets a turn during the run. */
  ghost predicate Runs(s: Sched, ops: seq<Op>, t: Task)
    requires Inv(s) && RunAllowed(s, ops)
    decreases |ops|
  {
    && ops != []
    && (((ops[0].Tick? || ops[0].Jump?) && Step(s, ops[0]).current == t) || Runs(Step(s, ops[0]), ops[1..], t))
  }

  function CountTicks(ops: seq<Op>): nat {
    if ops == [] then 0 else (if ops[0].Tick? then 1 else 0) + CountTicks(ops[1..])
  }

  /** How much the run can delay a task: by one step for each task added, and by a round
      each time a task is chosen out of turn or the current task leaves. */
  ghost function Delay(s: Sched, ops: seq<Op>): nat
    requires Inv(s) && RunAllowed(s, ops)
    decreases |ops|
  {
    if ops == [] then 0
    else
      var r := Step(s, ops[0]);
      var round := ops[0].Jump? || (ops[0].Remove? && ops[0].t == s.current);
      (if ops[0].Add? then 1 else if round then |r.tasks| else 0) + Delay(r, ops[1..])
  }

  lemma AddWait(s: Sched, u: Task, t: Task)
    requires Inv(s) && t in s.tasks && u !in s.tasks
    ensures Wait(Added(s, u), t) <= Wait(s, t) + 1
  {
    var j, c := Index(s.tasks, t), Index(s.tasks, s.current);
    assert Added(s, u).tasks[j] == t && Added(s, u).tasks[c] == s.current;
    IndexUnique(Added(s, u).tasks, j);
    IndexUnique(Added(s, u).tasks, c);
  }

  lemma RemoveWait(s: Sched, u: Task, t: Task)
    requires Inv(s) && t in s.tasks && u in s.tasks && u != t && u != s.current
    ensures t in Removed(s, u).tasks && Inv(Removed(s, u)) && Wait(Removed(s, u), t) <= Wait(s, t)
  {
    RemovedOrder(s, u);
    if Index(s.tasks, s.current) == Index(s.tasks, t) {
      assert s.current == t;
    }
  }

  /** No starvation: whatever tasks come, go and are chosen, a task that stays gets a turn
      within the steps it had to wait for and the delay of the run. */
  lemma {:induction false} NoStarvation(s: Sched, ops: seq<Op>, t: Task)
    requires Inv(s) && t in s.tasks && RunAllowed(s, ops) && Stays(s, ops, t)
    requires CountTicks(ops) >= Wait(s, t) + Delay(s, ops)
    ensures Runs(s, ops, t)
    decreases |ops|
  {
    hide Wait;
    var r := Step(s, ops[0]);
    match ops[0]
    case Add(u) =>
      AddWait(s, u, t);
      NoStarvation(r, ops[1..], t);
    case Remove(u) =>
      RemovedOrder(s, u);
      if u != s.current {
        RemoveWait(s, u, t);
      }
      NoStarvation(r, ops[1..], t);
    case Tick =>
      TickWait(s, t);
      if Wait(s, t) > 1 {
        NoStarvation(r, ops[1..], t);
      }
    case Jump(u) =>
      if u != t {
        NoStarvation(r, ops[1..], t);
      }
  }
}
