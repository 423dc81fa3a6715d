/** The run queues of the task manager and waiting for a task to finish (kernel/task.cpp), as a step system whose
    steps are atomic. */
module Scheduler {
  import opened Basics

  const MAX_LEVEL: nat := 3
  const DEFAULT_LEVEL: nat := 1
  const IDLE: nat := 2

  /** A message; only those of pipes and timers have contents that matter here. */
  datatype Message = Pipe(data: seq<Byte>) | TimerTimeout(timeout: nat, value: int) | Other(kind: nat)

  datatype Task = Task(level: nat, running: bool, msgs: seq<Message>)

  /** The task manager's fields; `waits` says which task each task inside `WaitFinish` waits for, and `exits` with
      which code each task finished. */
  datatype Sched = Sched(tasks: map<nat, Task>, latest: nat, queues: seq<seq<nat>>, level: nat, changed: bool,
                         finished: map<nat, int>, waiter: map<nat, nat>, waits: map<nat, nat>, exits: map<nat, int>)

  ghost predicate Shape(s: Sched) {
    |s.queues| == MAX_LEVEL + 1 && s.level <= MAX_LEVEL && s.queues[s.level] != []
  }

  function Current(s: Sched): nat
    requires Shape(s)
  {
    s.queues[s.level][0]
  }

  // ----- the invariant of the run queues

  /** Whoever is in a queue runs, at the level of that queue. */
  ghost predicate QueuedRun(s: Sched)
    requires |s.queues| == MAX_LEVEL + 1
  {
    forall lv, i :: 0 <= lv <= MAX_LEVEL && 0 <= i < |s.queues[lv]| ==>
      s.queues[lv][i] in s.tasks && s.tasks[s.queues[lv][i]].running && s.tasks[s.queues[lv][i]].level == lv
  }

  ghost predicate NoRepeats(q: seq<nat>) {
    forall i, j :: 0 <= i < j < |q| ==> q[i] != q[j]
  }

  /** Each running task is in exactly one queue, exactly once, at its own level, and a sleeping task in none; the
      current queue is not empty; and the current level is the highest one in use, unless a change is noted. */
  ghost predicate Inv(s: Sched) {
    && Shape(s) && QueuedRun(s)
    && (forall lv :: 0 <= lv <= MAX_LEVEL ==> NoRepeats(s.queues[lv]))
    && (forall t :: t in s.tasks ==> t <= s.latest && s.tasks[t].level <= MAX_LEVEL
                                     && (s.tasks[t].running ==> t in s.queues[s.tasks[t].level]))
    && IDLE in s.queues[0]
    && (!s.changed ==> forall lv :: s.level < lv <= MAX_LEVEL ==> s.queues[lv] == [])
  }

  // ----- steps

  /** The queue without a task. */
  function Without(q: seq<nat>, t: nat): (r: seq<nat>)
    ensures t !in r && forall x :: x in r <==> x in q && x != t
  {
    if q == [] then [] else if q[|q| - 1] == t then Without(q[..|q| - 1], t) else Without(q[..|q| - 1], t) + [q[|q| - 1]]
  }

  /** The highest level up to `lv` with a task, or `level` when there is none. */
  function Highest(queues: seq<seq<nat>>, lv: int, level: nat): (r: nat)
    requires lv < |queues|
    ensures r == level || (r <= lv && queues[r] != [])
    ensures forall k :: r < k <= lv && k >= 0 && (r != level || r > lv || queues[r] != []) ==> queues[k] == []
    decreases lv + 1
  {
    if lv < 0 then level else if queues[lv] != [] then lv else Highest(queues, lv - 1, level)
  }

  /** The current task leaves the front of its queue, and goes to the back unless it sleeps. */
  function Rotate(s: Sched, sleep: bool): Sched
    requires Shape(s)
  {
    var q := s.queues[s.level][1..] + if sleep then [] else [Current(s)];
    var queues := s.queues[s.level := q];
    var changed := s.changed || q == [];
    s.(queues := queues, changed := false, level := if changed then Highest(queues, MAX_LEVEL, s.level) else s.level)
  }

  function SetRunning(s: Sched, t: nat, running: bool): Sched
    requires t in s.tasks
  {
    s.(tasks := s.tasks[t := s.tasks[t].(running := running)])
  }

  function SleepTask(s: Sched, t: nat): Sched
    requires Shape(s) && t in s.tasks && s.tasks[t].level < |s.queues|
  {
    if !s.tasks[t].running then s
    else if t == Current(s) then Rotate(SetRunning(s, t, false), true)
    else
      var lv := s.tasks[t].level;
      SetRunning(s, t, false).(queues := s.queues[lv := Without(s.queues[lv], t)])
  }

  /** A sleeping task goes to the back of its queue; a running one stays where it is. */
  function WakeTask(s: Sched, t: nat): Sched
    requires t in s.tasks && s.tasks[t].level < |s.queues|
  {
    if s.tasks[t].running then s
    else
      var lv := s.tasks[t].level;
      SetRunning(s, t, true).(queues := s.queues[lv := s.queues[lv] + [t]], changed := s.changed || lv > s.level)
  }

  function Push(s: Sched, t: nat, m: Message): Sched
    requires t in s.tasks
  {
    s.(tasks := s.tasks[t := s.tasks[t].(msgs := s.tasks[t].msgs + [m])])
  }

  function FinishTask(s: Sched, code: int): Sched
    requires Shape(s) && forall t :: t in s.tasks ==> s.tasks[t].level < |s.queues|
    requires forall id :: id in s.waiter ==> s.waiter[id] in s.tasks && s.waiter[id] != Current(s)
  {
    var c := Current(s);
    var s1 := Rotate(s, true);
    var s2 := s1.(tasks := s1.tasks - {c}, finished := s1.finished[c := code], exits := s1.exits[c := code]);
    if c in s2.waiter then WakeTask(s2.(waiter := s2.waiter - {c}), s2.waiter[c]) else s2
  }

  /** One pass of the loop of `WaitFinish` by the current task: it takes the exit code, or registers and sleeps. */
  function WaitPass(s: Sched, id: nat): Sched
    requires Shape(s) && Current(s) in s.tasks && s.tasks[Current(s)].level < |s.queues|
  {
    var c := Current(s);
    if id in s.finished then s.(finished := s.finished - {id}, waits := s.waits - {c})
    else SleepTask(s.(waiter := s.waiter[id := c], waits := s.waits[c := id]), c)
  }

  datatype Event =
    | Tick
    | New
    | Send(to: nat, msg: Message)
    | Wake(task: nat)
    | Sleep(task: nat)
    | Receive
    | Exit(code: int)
    | Wait(id: nat)

  /** What the callers of the kernel keep to: the idle task neither sleeps, waits nor exits; a task inside
      `WaitFinish` does nothing else and is not put to sleep by others; one task waits for another that exists or
      whose code is still there, and no two for the same one. */
  ghost predicate Legal(s: Sched, e: Event)
    requires Shape(s)
  {
    match e
    case Tick => true
    case New => true
    case Send(to, msg) => true
    case Wake(t) => true
    case Sleep(t) => t != IDLE && t !in s.waits
    case Receive => Current(s) !in s.waits
    case Exit(code) => Current(s) != IDLE && Current(s) !in s.waits
    case Wait(id) =>
      && Current(s) != IDLE && id != Current(s) && (id in s.tasks || id in s.finished)
      && (Current(s) in s.waits ==> s.waits[Current(s)] == id)
      && forall t :: t in s.waits && s.waits[t] == id ==> t == Current(s)
  }

  ghost function Step(s: Sched, e: Event): Sched
    requires Inv(s) && WaitInv(s) && Legal(s, e)
  {
    match e
    case Tick => Rotate(s, false)
    case New => s.(latest := s.latest + 1, tasks := s.tasks[s.latest + 1 := Task(DEFAULT_LEVEL, false, [])])
    case Send(to, msg) => if to in s.tasks then WakeTask(Push(s, to, msg), to) else s
    case Wake(t) => if t in s.tasks then WakeTask(s, t) else s
    case Sleep(t) => if t in s.tasks then SleepTask(s, t) else s
    case Receive =>
      CurrentRuns(s);
      var c := Current(s);
      if s.tasks[c].msgs == [] then s else s.(tasks := s.tasks[c := s.tasks[c].(msgs := s.tasks[c].msgs[1..])])
    case Exit(code) =>
      CurrentRuns(s);
      FinishTask(s, code)
    case Wait(id) =>
      CurrentRuns(s);
      WaitPass(s, id)
  }

  // ----- waiting

  /** Every task asleep inside `WaitFinish` is registered for the task it waits for, which has not finished; only
      such tasks are registered; and unclaimed exit codes are those the tasks finished with. */
  ghost predicate WaitInv(s: Sched) {
    && (forall t {:trigger WaitOk(s, t)} :: t in s.waits ==> WaitOk(s, t))
    && OneWaiterEach(s.waits)
    && (forall id {:trigger RegisteredOk(s, id)} :: id in s.waiter ==> RegisteredOk(s, id))
    && (forall id :: id in s.finished ==> id in s.exits && s.finished[id] == s.exits[id] && id !in s.tasks)
    && (forall id :: id in s.exits ==> id <= s.latest && id !in s.tasks)
    && IDLE !in s.waits
  }

  ghost predicate WaitOk(s: Sched, t: nat)
    requires t in s.waits
  {
    && t in s.tasks && s.waits[t] != t && (s.waits[t] in s.tasks || s.waits[t] in s.finished)
    && (!s.tasks[t].running ==> s.waits[t] in s.waiter && s.waiter[s.waits[t]] == t && s.waits[t] in s.tasks)
  }

  ghost predicate OneWaiterEach(waits: map<nat, nat>) {
    forall t, u :: t in waits && u in waits && waits[t] == waits[u] ==> t == u
  }

  ghost predicate RegisteredOk(s: Sched, id: nat)
    requires id in s.waiter
  {
    s.waiter[id] in s.waits && s.waits[s.waiter[id]] == id && id !in s.finished
  }

  lemma CurrentRuns(s: Sched)
    requires Inv(s)
    ensures Shape(s) && Current(s) in s.tasks && s.tasks[Current(s)].running && s.tasks[Current(s)].level == s.level
    ensures forall t :: t in s.tasks ==> s.tasks[t].level < |s.queues|
    ensures WaitInv(s) && Current(s) !in s.waits ==> forall id :: id in s.waiter ==> s.waiter[id] in s.tasks && s.waiter[id] != Current(s)
  {
    assert s.queues[s.level][0] in s.tasks;
    if WaitInv(s) && Current(s) !in s.waits {
      forall id | id in s.waiter
        ensures s.waiter[id] in s.tasks && s.waiter[id] != Current(s)
      {
        assert RegisteredOk(s, id);
        assert WaitOk(s, s.waiter[id]);
      }
    }
  }

  // ----- the queue invariant is kept

  lemma {:induction false} WithoutOnce(q: seq<nat>, t: nat)
    requires NoRepeats(q)
    ensures NoRepeats(Without(q, t))
    ensures t in q ==> |Without(q, t)| == |q| - 1
    ensures t !in q ==> Without(q, t) == q
  {
    if q != [] {
      var p, last := q[..|q| - 1], q[|q| - 1];
      WithoutOnce(p, t);
      assert last !in p;
      assert q == p + [last];
    }
  }

  /** What `Inv` says of the queues when tasks are in them. */
  lemma InQueue(s: Sched, lv: nat, t: nat)
    requires |s.queues| == MAX_LEVEL + 1 && QueuedRun(s) && lv <= MAX_LEVEL && t in s.queues[lv]
    ensures t in s.tasks && s.tasks[t].running && s.tasks[t].level == lv
  {}

  /** After a rotation the current level is the highest one in use, and no change is noted. */
  lemma RotateKeeps(s: Sched)
    requires Inv(s)
    ensures Inv(Rotate(s, false)) && !Rotate(s, false).changed
  {
    var s' := Rotate(s, false);
    var q, q' := s.queues[s.level], s'.queues[s.level];
    forall lv, i | 0 <= lv <= MAX_LEVEL && 0 <= i < |s'.queues[lv]|
      ensures s'.queues[lv][i] in s.tasks && s.tasks[s'.queues[lv][i]].running && s.tasks[s'.queues[lv][i]].level == lv
    {
      assert s'.queues[lv][i] in s.queues[lv];
    }
    assert forall x :: x in q <==> x in q';
    assert forall lv :: 0 <= lv <= MAX_LEVEL && lv != s.level ==> s'.queues[lv] == s.queues[lv];
  }

  /** The queues and tasks once `t` has left its queue, the other queues being the same. */
  ghost predicate Left(s: Sched, s': Sched, t: nat) {
    && Inv(s) && t in s.tasks && s.tasks[t].running && t != IDLE
    && |s'.queues| == |s.queues| && s'.latest == s.latest
    && (forall lv, x :: 0 <= lv <= MAX_LEVEL ==> (x in s'.queues[lv] <==> x in s.queues[lv] && x != t))
    && (forall lv :: 0 <= lv <= MAX_LEVEL ==> NoRepeats(s'.queues[lv]))
    && (forall x :: x in s'.tasks ==> x in s.tasks && s'.tasks[x].level == s.tasks[x].level
                                      && s'.tasks[x].running == (s.tasks[x].running && x != t))
    && (forall x :: x in s.tasks && x != t ==> x in s'.tasks)
    && s'.level <= MAX_LEVEL && s'.queues[s'.level] != []
    && (!s'.changed ==> forall lv :: s'.level < lv <= MAX_LEVEL ==> s'.queues[lv] == [])
  }

  lemma LeftKeeps(s: Sched, s': Sched, t: nat)
    requires Left(s, s', t)
    ensures Inv(s')
  {
    forall lv, i | 0 <= lv <= MAX_LEVEL && 0 <= i < |s'.queues[lv]|
      ensures var x := s'.queues[lv][i]; x in s'.tasks && s'.tasks[x].running && s'.tasks[x].level == lv
    {
      var x := s'.queues[lv][i];
      assert x in s'.queues[lv];
      InQueue(s, lv, x);
    }
  }

  /** The current task leaves its queue by a rotation. */
  lemma RotateLeaves(s: Sched)
    requires Inv(s) && Current(s) != IDLE
    ensures var c, s' := Current(s), Rotate(s, true);
      && c in s.tasks && s.tasks[c].running && |s'.queues| == |s.queues| && s'.latest == s.latest && s'.tasks == s.tasks
      && (forall lv, x :: 0 <= lv <= MAX_LEVEL ==> (x in s'.queues[lv] <==> x in s.queues[lv] && x != c))
      && (forall lv :: 0 <= lv <= MAX_LEVEL ==> NoRepeats(s'.queues[lv]))
      && s'.level <= MAX_LEVEL && s'.queues[s'.level] != [] && !s'.changed
      && forall lv :: s'.level < lv <= MAX_LEVEL ==> s'.queues[lv] == []
  {
    CurrentRuns(s);
    RotateQueues(s);
    var queues := s.queues[s.level := s.queues[s.level][1..]];
    hide Inv, QueuedRun, NoRepeats;
    assert IDLE in queues[0];
    HighestIs(queues, s.level);
    assert s.queues[s.level][1..] + [] == s.queues[s.level][1..];
    if !s.changed && queues[s.level] != [] {
      NoneAbove(s);
    }
  }

  lemma NoneAbove(s: Sched)
    requires Inv(s) && !s.changed
    ensures forall lv :: s.level < lv <= MAX_LEVEL ==> s.queues[lv] == []
  {}

  lemma HighestIs(queues: seq<seq<nat>>, level: nat)
    requires |queues| == MAX_LEVEL + 1 && queues[0] != [] && level <= MAX_LEVEL
    ensures var lv := Highest(queues, MAX_LEVEL, level);
      lv <= MAX_LEVEL && queues[lv] != [] && forall k :: lv < k <= MAX_LEVEL ==> queues[k] == []
  {
    assert queues[0] != [] && queues[1] == queues[1] && queues[2] == queues[2] && queues[3] == queues[3];
  }

  /** The queues without their first task. */
  lemma RotateQueues(s: Sched)
    requires Inv(s) && Current(s) != IDLE
    ensures var c, queues := Current(s), s.queues[s.level := s.queues[s.level][1..]];
      && (forall lv, x :: 0 <= lv <= MAX_LEVEL ==> (x in queues[lv] <==> x in s.queues[lv] && x != c))
      && (forall lv :: 0 <= lv <= MAX_LEVEL ==> NoRepeats(queues[lv]))
      && IDLE in s.queues[0]
  {
    CurrentRuns(s);
    var c, q := Current(s), s.queues[s.level];
    var queues := s.queues[s.level := q[1..]];
    assert q == [c] + q[1..];
    forall lv, x | 0 <= lv <= MAX_LEVEL
      ensures x in queues[lv] <==> x in s.queues[lv] && x != c
    {
      if lv != s.level && c in s.queues[lv] {
        InQueue(s, lv, c);
      }
    }
  }

  lemma SleepKeeps(s: Sched, t: nat)
    requires Inv(s) && t in s.tasks && t != IDLE
    ensures Inv(SleepTask(s, t)) && !SleepTask(s, t).tasks[t].running
    ensures forall x :: x in s.tasks && x != t ==> SleepTask(s, t).tasks[x] == s.tasks[x]
    ensures SleepTask(s, t).tasks.Keys == s.tasks.Keys
  {
    CurrentRuns(s);
    SleepTasks(s, t);
    if s.tasks[t].running {
      if t == Current(s) {
        FrontLeaves(s, t);
      } else {
        OtherLeaves(s, t);
      }
      LeftKeeps(s, SleepTask(s, t), t);
    }
  }

  lemma SleepTasks(s: Sched, t: nat)
    requires Shape(s) && t in s.tasks && s.tasks[t].level < |s.queues|
    ensures SleepTask(s, t).tasks.Keys == s.tasks.Keys && !SleepTask(s, t).tasks[t].running
    ensures forall x :: x in s.tasks && x != t ==> SleepTask(s, t).tasks[x] == s.tasks[x]
  {
    assert SetRunning(s, t, false).tasks.Keys == s.tasks.Keys + {t};
  }

  lemma FrontLeaves(s: Sched, t: nat)
    requires Inv(s) && t in s.tasks && t != IDLE && s.tasks[t].running && t == Current(s)
    ensures s.tasks[t].level < |s.queues| && Left(s, SleepTask(s, t), t)
  {
    RotateLeaves(s);
    assert SleepTask(s, t) == SetRunning(Rotate(s, true), t, false);
    hide Inv, NoRepeats, QueuedRun, Rotate, SleepTask;
  }

  lemma OtherLeaves(s: Sched, t: nat)
    requires Inv(s) && t in s.tasks && t != IDLE && s.tasks[t].running && t != Current(s)
    ensures s.tasks[t].level < |s.queues| && Left(s, SleepTask(s, t), t)
  {
    var lv, s' := s.tasks[t].level, SleepTask(s, t);
    WithoutOnce(s.queues[lv], t);
    forall k, x | 0 <= k <= MAX_LEVEL
      ensures x in s'.queues[k] <==> x in s.queues[k] && x != t
    {
      if k != lv && t in s.queues[k] {
        InQueue(s, k, t);
      }
    }
    assert Current(s) in s'.queues[s.level];
  }

  lemma WakeKeeps(s: Sched, t: nat)
    requires Inv(s) && t in s.tasks
    ensures s.tasks[t].level < |s.queues| && Inv(WakeTask(s, t)) && WakeTask(s, t).tasks[t].running
    ensures WakeTask(s, t).tasks.Keys == s.tasks.Keys
    ensures forall x :: x in s.tasks && x != t ==> WakeTask(s, t).tasks[x] == s.tasks[x]
  {
    var s' := WakeTask(s, t);
    assert s'.tasks.Keys == s.tasks.Keys;
    if !s.tasks[t].running {
      var k := s.tasks[t].level;
      assert t !in s.queues[k] by {
        if t in s.queues[k] {
          InQueue(s, k, t);
        }
      }
      forall lv, i | 0 <= lv <= MAX_LEVEL && 0 <= i < |s'.queues[lv]|
        ensures var x := s'.queues[lv][i]; x in s'.tasks && s'.tasks[x].running && s'.tasks[x].level == lv
      {
        if lv != k || i < |s.queues[k]| {
          assert s'.queues[lv][i] == s.queues[lv][i];
        }
      }
      assert Current(s) == s'.queues[s.level][0];
    }
  }

  lemma PushKeeps(s: Sched, t: nat, msgs: seq<Message>)
    requires Inv(s) && t in s.tasks
    ensures Inv(s.(tasks := s.tasks[t := s.tasks[t].(msgs := msgs)]))
  {}

  lemma NewKeeps(s: Sched)
    requires Inv(s)
    ensures Inv(s.(latest := s.latest + 1, tasks := s.tasks[s.latest + 1 := Task(DEFAULT_LEVEL, false, [])]))
  {}

  /** The task manager once the current task is gone and before its waiter is woken. */
  function Gone(s: Sched, code: int): Sched
    requires Shape(s)
  {
    var c, s1 := Current(s), Rotate(s, true);
    s1.(tasks := s1.tasks - {c}, finished := s1.finished[c := code], exits := s1.exits[c := code], waiter := s1.waiter - {c})
  }

  lemma FinishIs(s: Sched, code: int)
    requires Inv(s) && WaitInv(s) && Current(s) != IDLE && Current(s) !in s.waits
    ensures (forall t :: t in s.tasks ==> s.tasks[t].level < |s.queues|)
    ensures (forall id :: id in s.waiter ==> s.waiter[id] in s.tasks && s.waiter[id] != Current(s))
    ensures Inv(Gone(s, code))
    ensures if Current(s) in s.waiter
            then s.waiter[Current(s)] in Gone(s, code).tasks && Gone(s, code).tasks[s.waiter[Current(s)]].level < |Gone(s, code).queues|
              && FinishTask(s, code) == WakeTask(Gone(s, code), s.waiter[Current(s)])
            else FinishTask(s, code) == Gone(s, code)
  {
    CurrentRuns(s);
    RotateLeaves(s);
    WaitersAlive(s);
    hide Inv, WaitInv, QueuedRun, Rotate, NoRepeats;
    var c := Current(s);
    GoneKeeps(s, Gone(s, code), c);
    if c in s.waiter {
      WakeKeeps(Gone(s, code), s.waiter[c]);
    } else {
      assert s.waiter - {c} == s.waiter;
    }
  }

  lemma FinishKeeps(s: Sched, code: int)
    requires Inv(s) && WaitInv(s) && Current(s) != IDLE && Current(s) !in s.waits
    ensures (forall t :: t in s.tasks ==> s.tasks[t].level < |s.queues|)
    ensures (forall id :: id in s.waiter ==> s.waiter[id] in s.tasks && s.waiter[id] != Current(s))
    ensures Inv(FinishTask(s, code))
  {
    FinishIs(s, code);
    hide FinishTask, Gone;
    if Current(s) in s.waiter {
      WakeKeeps(Gone(s, code), s.waiter[Current(s)]);
    }
  }

  lemma WaitersAlive(s: Sched)
    requires Inv(s) && WaitInv(s) && Current(s) !in s.waits
    ensures forall id :: id in s.waiter ==> s.waiter[id] in s.tasks && s.waiter[id] != Current(s)
    ensures Rotate(s, true).waiter == s.waiter
  {
    CurrentRuns(s);
  }

  lemma GoneKeeps(s: Sched, s': Sched, c: nat)
    requires Inv(s) && c in s.tasks && s.tasks[c].running && s'.tasks == s.tasks - {c} && c != IDLE
    requires |s'.queues| == |s.queues| && s'.latest == s.latest
    requires forall lv, x :: 0 <= lv <= MAX_LEVEL ==> (x in s'.queues[lv] <==> x in s.queues[lv] && x != c)
    requires forall lv :: 0 <= lv <= MAX_LEVEL ==> NoRepeats(s'.queues[lv])
    requires s'.level <= MAX_LEVEL && s'.queues[s'.level] != [] && !s'.changed
    requires forall lv :: s'.level < lv <= MAX_LEVEL ==> s'.queues[lv] == []
    ensures Inv(s')
  {
    LeftKeeps(s, s', c);
  }

  lemma FieldsKeep(s: Sched, s': Sched)
    requires Inv(s) && s'.tasks == s.tasks && s'.latest == s.latest && s'.queues == s.queues
    requires s'.level == s.level && s'.changed == s.changed
    ensures Inv(s') && Current(s') == Current(s)
  {}

  /** Every step keeps the run queues in order. */
  lemma StepKeeps(s: Sched, e: Event)
    requires Inv(s) && WaitInv(s) && Legal(s, e)
    ensures Inv(Step(s, e))
  {
    hide Inv, WaitInv, QueuedRun, Rotate, SleepTask, WakeTask, FinishTask;
    match e
    case Tick => RotateKeeps(s);
    case New => NewKeeps(s);
    case Send(to, msg) =>
      if to in s.tasks {
        PushKeeps(s, to, s.tasks[to].msgs + [msg]);
        WakeKeeps(Push(s, to, msg), to);
      }
    case Wake(t) => if t in s.tasks { WakeKeeps(s, t); }
    case Sleep(t) => if t in s.tasks { SleepKeeps(s, t); }
    case Receive =>
      CurrentRuns(s);
      if s.tasks[Current(s)].msgs != [] {
        PushKeeps(s, Current(s), s.tasks[Current(s)].msgs[1..]);
      }
    case Exit(code) => FinishKeeps(s, code);
    case Wait(id) =>
      CurrentRuns(s);
      var c := Current(s);
      FieldsKeep(s, s.(finished := s.finished - {id}, waits := s.waits - {c}));
      FieldsKeep(s, s.(waiter := s.waiter[id := c], waits := s.waits[c := id]));
      SleepKeeps(s.(waiter := s.waiter[id := c], waits := s.waits[c := id]), c);
  }
}
