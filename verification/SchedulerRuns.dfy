/** What holds over whole runs of the task manager: waiting for a task to finish, waiting in a queue, and the one
    operation that breaks the run queues. */
module SchedulerRuns {
  import opened Scheduler

  /** Only tasks and queues differ. */
  ghost predicate SameBooks(s: Sched, s': Sched) {
    s'.latest == s.latest && s'.finished == s.finished && s'.waiter == s.waiter && s'.waits == s.waits && s'.exits == s.exits
  }

  /** The same tasks, and no other one than `t` was put to sleep. */
  ghost predicate NoOtherSleeps(s: Sched, s': Sched, t: nat) {
    s'.tasks.Keys == s.tasks.Keys && forall x :: x in s.tasks && x != t ==> (s.tasks[x].running ==> s'.tasks[x].running)
  }

  lemma RotateBooks(s: Sched, sleep: bool)
    requires Shape(s)
    ensures SameBooks(s, Rotate(s, sleep)) && Rotate(s, sleep).tasks == s.tasks
  {}

  lemma SleepBooks(s: Sched, t: nat)
    requires Shape(s) && t in s.tasks && s.tasks[t].level < |s.queues|
    ensures SameBooks(s, SleepTask(s, t)) && NoOtherSleeps(s, SleepTask(s, t), t)
  {
    SleepTasks(s, t);
    hide SetRunning;
    hide Rotate;
    if s.tasks[t].running && t == Current(s) {
      RotateBooks(SetRunning(s, t, false), true);
    }
    assert SameBooks(s, SetRunning(s, t, false)) by { SetBooks(s, t, false); }
  }

  lemma SetBooks(s: Sched, t: nat, running: bool)
    requires t in s.tasks
    ensures SameBooks(s, SetRunning(s, t, running)) && SetRunning(s, t, running).queues == s.queues
    ensures SetRunning(s, t, running).level == s.level
  {}

  lemma WakeBooks(s: Sched, t: nat)
    requires t in s.tasks && s.tasks[t].level < |s.queues|
    ensures SameBooks(s, WakeTask(s, t)) && NoOtherSleeps(s, WakeTask(s, t), t) && WakeTask(s, t).tasks[t].running
  {
    assert SetRunning(s, t, true).tasks.Keys == s.tasks.Keys + {t};
  }

  /** Nobody inside `WaitFinish` was put to sleep: the waiting invariant does not change. */
  lemma WaitersKept(s: Sched, s': Sched, t: nat)
    requires WaitInv(s) && SameBooks(s, s') && NoOtherSleeps(s, s', t) && (t in s.waits ==> t in s.tasks && (s.tasks[t].running ==> s'.tasks[t].running))
    ensures WaitInv(s')
  {
    hide OneWaiterEach;
    forall x | x in s.waits
      ensures WaitOk(s', x)
    {
      assert WaitOk(s, x);
    }
    forall id | id in s'.waiter
      ensures RegisteredOk(s', id)
    {
      assert RegisteredOk(s, id);
    }
  }

  lemma NewKeepsWaits(s: Sched)
    requires Inv(s) && WaitInv(s)
    ensures WaitInv(s.(latest := s.latest + 1, tasks := s.tasks[s.latest + 1 := Task(DEFAULT_LEVEL, false, [])]))
  {
    var s' := s.(latest := s.latest + 1, tasks := s.tasks[s.latest + 1 := Task(DEFAULT_LEVEL, false, [])]);
    hide OneWaiterEach, Inv;
    assert s.latest + 1 !in s.tasks by { NewIsFresh(s); }
    forall x | x in s.waits
      ensures WaitOk(s', x)
    {
      assert WaitOk(s, x);
    }
    forall id | id in s'.waiter
      ensures RegisteredOk(s', id)
    {
      assert RegisteredOk(s, id);
    }
  }

  lemma NewIsFresh(s: Sched)
    requires Inv(s)
    ensures s.latest + 1 !in s.tasks
  {}

  /** Finishing wakes the task that sleeps until then. */
  lemma FinishKeepsWaits(s: Sched, code: int)
    requires Inv(s) && WaitInv(s) && Current(s) != IDLE && Current(s) !in s.waits
    ensures (forall t :: t in s.tasks ==> s.tasks[t].level < |s.queues|)
    ensures (forall id :: id in s.waiter ==> s.waiter[id] in s.tasks && s.waiter[id] != Current(s))
    ensures WaitInv(FinishTask(s, code))
    ensures forall t :: t in s.waits && s.waits[t] == Current(s) ==>
      t in FinishTask(s, code).tasks && FinishTask(s, code).tasks[t].running
    ensures FinishTask(s, code).exits == s.exits[Current(s) := code] && FinishTask(s, code).waits == s.waits
  {
    CurrentRuns(s);
    WaitersAlive(s);
    RotateBooks(s, true);
    var c := Current(s);
    var s1 := Rotate(s, true);
    var s2 := s1.(tasks := s1.tasks - {c}, finished := s1.finished[c := code], exits := s1.exits[c := code]);
    hide Rotate;
    if c in s2.waiter {
      WakeBooks(s2.(waiter := s2.waiter - {c}), s2.waiter[c]);
      FinishedWaits(s, s2, FinishTask(s, code), c, code);
    } else {
      NobodyWaits(s, s2, c, code);
    }
  }

  lemma FinishedWaits(s: Sched, s2: Sched, s': Sched, c: nat, code: int)
    requires Inv(s) && WaitInv(s) && c in s.tasks && c !in s.waits && c in s.waiter
    requires s2.tasks == s.tasks - {c} && s2.finished == s.finished[c := code] && s2.exits == s.exits[c := code]
    requires s2.waiter == s.waiter && s2.waits == s.waits && s2.latest == s.latest
    requires SameBooks(s2.(waiter := s2.waiter - {c}), s') && NoOtherSleeps(s2, s', s.waiter[c])
    requires s.waiter[c] in s'.tasks && s'.tasks[s.waiter[c]].running
    ensures WaitInv(s')
    ensures forall t :: t in s.waits && s.waits[t] == c ==> t in s'.tasks && s'.tasks[t].running
  {
    hide OneWaiterEach, Inv;
    forall t | t in s.waits
      ensures WaitOk(s', t) && (s.waits[t] == c ==> s'.tasks[t].running)
    {
      assert WaitOk(s, t);
    }
    forall id | id in s'.waiter
      ensures RegisteredOk(s', id)
    {
      assert RegisteredOk(s, id);
    }
    CurrentExits(s, c);
  }

  lemma CurrentExits(s: Sched, c: nat)
    requires Inv(s) && c in s.tasks
    ensures c <= s.latest
  {}

  lemma NobodyWaits(s: Sched, s': Sched, c: nat, code: int)
    requires Inv(s) && WaitInv(s) && c in s.tasks && c !in s.waits && c !in s.waiter
    requires s'.tasks == s.tasks - {c} && s'.finished == s.finished[c := code] && s'.exits == s.exits[c := code]
    requires s'.waiter == s.waiter && s'.waits == s.waits && s'.latest == s.latest
    ensures WaitInv(s')
    ensures forall t :: t in s.waits && s.waits[t] == c ==> t in s'.tasks && s'.tasks[t].running
  {
    hide OneWaiterEach, Inv;
    forall t | t in s.waits
      ensures WaitOk(s', t) && (s.waits[t] == c ==> s'.tasks[t].running)
    {
      assert WaitOk(s, t);
    }
    forall id | id in s'.waiter
      ensures RegisteredOk(s', id)
    {
      assert RegisteredOk(s, id);
    }
    CurrentExits(s, c);
  }

  /** A pass of `WaitFinish` takes the code that the task finished with, which is then gone, or goes to sleep
      registered. */
  lemma WaitKeepsWaits(s: Sched, id: nat)
    requires Inv(s) && WaitInv(s) && Legal(s, Wait(id)) && Current(s) in s.tasks
    requires s.tasks[Current(s)].level < |s.queues|
    ensures WaitInv(WaitPass(s, id))
    ensures id in s.finished ==> id in s.exits && s.finished[id] == s.exits[id] && id !in WaitPass(s, id).finished
    ensures id !in s.finished ==> !WaitPass(s, id).tasks[Current(s)].running && id in s.tasks
  {
    var c := Current(s);
    if id in s.finished {
      CodeTaken(s, c, id);
    } else {
      var s1 := s.(waiter := s.waiter[id := c], waits := s.waits[c := id]);
      SleepTasks(s1, c);
      SleepBooks(s1, c);
      hide SleepTask;
      WaiterSleeps(s, SleepTask(s1, c), c, id);
    }
  }

  lemma WaiterSleeps(s: Sched, s': Sched, c: nat, id: nat)
    requires Inv(s) && WaitInv(s) && c in s.tasks && id in s.tasks && id != c && c != IDLE && id !in s.finished
    requires (c in s.waits ==> s.waits[c] == id) && forall t :: t in s.waits && s.waits[t] == id ==> t == c
    requires SameBooks(s.(waiter := s.waiter[id := c], waits := s.waits[c := id]), s') && NoOtherSleeps(s, s', c)
    requires !s'.tasks[c].running
    ensures WaitInv(s')
  {
    hide Inv;
    forall t | t in s'.waits
      ensures WaitOk(s', t)
    {
      assert t in s.waits ==> WaitOk(s, t);
    }
    forall x | x in s'.waiter
      ensures RegisteredOk(s', x)
    {
      assert x in s.waiter ==> RegisteredOk(s, x);
    }
    hide WaitOk, RegisteredOk;
  }

  lemma CodeTaken(s: Sched, c: nat, id: nat)
    requires WaitInv(s) && c in s.tasks && id in s.finished
    requires (c in s.waits ==> s.waits[c] == id) && forall t :: t in s.waits && s.waits[t] == id ==> t == c
    ensures WaitInv(s.(finished := s.finished - {id}, waits := s.waits - {c}))
  {
    var s' := s.(finished := s.finished - {id}, waits := s.waits - {c});
    forall t | t in s'.waits
      ensures WaitOk(s', t)
    {
      assert WaitOk(s, t);
    }
    forall x | x in s'.waiter
      ensures RegisteredOk(s', x)
    {
      assert RegisteredOk(s, x);
    }
  }

  lemma ReceiveKeepsWaits(s: Sched)
    requires Inv(s) && WaitInv(s) && Legal(s, Receive)
    ensures WaitInv(Step(s, Receive))
  {
    CurrentRuns(s);
    var c := Current(s);
    var s' := Step(s, Receive);
    hide WaitInv, Inv;
    assert s.tasks[c].msgs != [] ==> s'.tasks.Keys == s.tasks.Keys + {c};
    WaitersKept(s, s', c);
  }

  /** Every step keeps the waiting invariant. */
  lemma StepKeepsWaits(s: Sched, e: Event)
    requires Inv(s) && WaitInv(s) && Legal(s, e)
    ensures WaitInv(Step(s, e))
  {
    CurrentRuns(s);
    hide Inv, WaitInv, QueuedRun, Rotate, SleepTask, WakeTask, FinishTask, WaitPass, OneWaiterEach;
    match e
    case Tick =>
      RotateBooks(s, false);
      WaitersKept(s, Rotate(s, false), Current(s));
    case New => NewKeepsWaits(s);
    case Send(to, msg) =>
      if to in s.tasks {
        var s1 := Push(s, to, msg);
        WakeBooks(s1, to);
        assert s1.tasks.Keys == s.tasks.Keys + {to};
        WaitersKept(s, WakeTask(s1, to), to);
      }
    case Wake(t) =>
      if t in s.tasks {
        WakeBooks(s, t);
        WaitersKept(s, WakeTask(s, t), t);
      }
    case Sleep(t) =>
      if t in s.tasks {
        SleepBooks(s, t);
        WaitersKept(s, SleepTask(s, t), t);
      }
    case Receive => ReceiveKeepsWaits(s);
    case Exit(code) => FinishKeepsWaits(s, code);
    case Wait(id) => WaitKeepsWaits(s, id);
  }

  // ----- runs

  ghost predicate AllLegal(s: Sched, es: seq<Event>)
    requires Inv(s) && WaitInv(s)
    decreases |es|
  {
    es == [] ||
    (Legal(s, es[0]) && (StepKeeps(s, es[0]); StepKeepsWaits(s, es[0]); AllLegal(Step(s, es[0]), es[1..])))
  }

  ghost function Final(s: Sched, es: seq<Event>): (s': Sched)
    requires Inv(s) && WaitInv(s) && AllLegal(s, es)
    ensures Inv(s') && WaitInv(s')
    decreases |es|
  {
    if es == [] then s
    else
      StepKeeps(s, es[0]);
      StepKeepsWaits(s, es[0]);
      Final(Step(s, es[0]), es[1..])
  }

  /** The task manager at the start: the main task at the highest level, and the idle task. */
  ghost function Initial(): (s: Sched)
    ensures Inv(s) && WaitInv(s)
  {
    Sched(map[1 := Task(MAX_LEVEL, true, []), IDLE := Task(0, true, [])], IDLE, [[IDLE], [], [], [1]], MAX_LEVEL, false,
          map[], map[], map[], map[])
  }

  /** Over every run: the queues are in order, a sleeping waiter waits for a task that has not finished, is
      registered for it, and will be woken by it. */
  lemma RunsAreSafe(es: seq<Event>)
    requires AllLegal(Initial(), es)
    ensures Inv(Final(Initial(), es)) && WaitInv(Final(Initial(), es))
    ensures var s := Final(Initial(), es);
      && (forall t :: t in s.waits && t in s.tasks && !s.tasks[t].running ==> s.waits[t] in s.tasks && s.waits[t] !in s.exits)
      && (forall t, code: int :: Legal(s, Exit(code)) && t in s.waits && s.waits[t] == Current(s) ==>
            t in Step(s, Exit(code)).tasks && Step(s, Exit(code)).tasks[t].running)
  {
    var s := Final(Initial(), es);
    forall t | t in s.waits && t in s.tasks && !s.tasks[t].running
      ensures s.waits[t] in s.tasks && s.waits[t] !in s.exits
    {
      assert WaitOk(s, t);
    }
    hide Inv, WaitInv;
    forall t, code: int | Legal(s, Exit(code)) && t in s.waits && s.waits[t] == Current(s)
      ensures t in Step(s, Exit(code)).tasks && Step(s, Exit(code)).tasks[t].running
    {
      FinishKeepsWaits(s, code);
    }
  }

  /** A finished task's code never changes. */
  lemma {:induction false} ExitsStay(s: Sched, es: seq<Event>, id: nat)
    requires Inv(s) && WaitInv(s) && AllLegal(s, es) && id in s.exits
    ensures id in Final(s, es).exits && Final(s, es).exits[id] == s.exits[id]
    decreases |es|
  {
    if es != [] {
      StepKeeps(s, es[0]);
      StepKeepsWaits(s, es[0]);
      ExitsStep(s, es[0], id);
      ExitsStay(Step(s, es[0]), es[1..], id);
    }
  }

  lemma ExitsStep(s: Sched, e: Event, id: nat)
    requires Inv(s) && WaitInv(s) && Legal(s, e) && id in s.exits
    ensures id in Step(s, e).exits && Step(s, e).exits[id] == s.exits[id]
  {
    CurrentRuns(s);
    if e.Exit? {
      FinishKeepsWaits(s, e.code);
    }
  }

  // ----- waiting in a queue

  /** The place of a task in a queue. */
  function Position(q: seq<nat>, t: nat): (i: nat)
    requires t in q
    ensures i < |q| && q[i] == t
  {
    if q[|q| - 1] == t then |q| - 1 else Position(q[..|q| - 1], t)
  }

  lemma PositionIs(q: seq<nat>, t: nat, i: nat)
    requires NoRepeats(q) && i < |q| && q[i] == t
    ensures Position(q, t) == i
  {}

  lemma {:induction false} PositionWithout(q: seq<nat>, x: nat, t: nat)
    requires NoRepeats(q) && t in q && t != x
    ensures t in Without(q, x) && Position(Without(q, x), t) <= Position(q, t)
  {
    var p, last := q[..|q| - 1], q[|q| - 1];
    assert q == p + [last];
    if last == t {
      WithoutOnce(p, x);
      WithoutShorter(p, x);
    } else {
      PositionWithout(p, x, t);
      if last != x {
        assert (Without(p, x) + [last])[..|Without(p, x)|] == Without(p, x);
      }
    }
  }

  lemma {:induction false} WithoutShorter(q: seq<nat>, x: nat)
    ensures |Without(q, x)| <= |q|
  {
    if q != [] {
      WithoutShorter(q[..|q| - 1], x);
    }
  }

  /** The step takes the front task of queue `lv` off its place. */
  ghost predicate Turns(s: Sched, e: Event, lv: nat)
    requires Shape(s)
  {
    s.level == lv &&
    match e
    case Tick => true
    case Sleep(t) => t == Current(s)
    case Exit(code) => true
    case Wait(id) => id !in s.finished
    case _ => false
  }

  /** A runnable task that is not at the front does not move back, and moves up when its queue turns. */
  ghost predicate MovesUp(q: seq<nat>, q': seq<nat>, t: nat, turns: bool) {
    && t in q && t in q'
    && (Position(q, t) > 0 ==> Position(q', t) <= Position(q, t) && (turns ==> Position(q', t) < Position(q, t)))
  }

  lemma RotateMovesUp(s: Sched, sleep: bool, t: nat)
    requires Inv(s) && t in s.tasks && s.tasks[t].running && (sleep ==> t != Current(s))
    ensures var lv := s.tasks[t].level;
      lv <= MAX_LEVEL && |Rotate(s, sleep).queues| == |s.queues|
      && MovesUp(s.queues[lv], Rotate(s, sleep).queues[lv], t, s.level == lv)
  {
    var lv, s' := s.tasks[t].level, Rotate(s, sleep);
    var q, q' := s.queues[lv], s'.queues[lv];
    if s.level == lv && Position(q, t) > 0 {
      if !sleep {
        RotateKeeps(s);
      } else {
        assert NoRepeats(q');
      }
      assert q'[Position(q, t) - 1] == t;
      PositionIs(q', t, Position(q, t) - 1);
    } else if s.level == lv {
      assert t == Current(s);
      assert q'[|q'| - 1] == t;
    }
  }

  lemma SleepMovesUp(s: Sched, x: nat, t: nat)
    requires Inv(s) && x in s.tasks && t in s.tasks && s.tasks[t].running && x != t && x != IDLE
    ensures var lv := s.tasks[t].level;
      lv <= MAX_LEVEL && s.tasks[x].level < |s.queues| && |SleepTask(s, x).queues| == |s.queues|
      && MovesUp(s.queues[lv], SleepTask(s, x).queues[lv], t, s.level == lv && s.tasks[x].running && x == Current(s))
  {
    CurrentRuns(s);
    var lv := s.tasks[t].level;
    if s.tasks[x].running {
      if x == Current(s) {
        RotateMovesUp(s, true, t);
        assert SleepTask(s, x) == SetRunning(Rotate(s, true), x, false);
      } else if s.tasks[x].level == lv {
        PositionWithout(s.queues[lv], x, t);
      }
    }
  }

  lemma WakeMovesUp(s: Sched, x: nat, t: nat)
    requires Inv(s) && x in s.tasks && t in s.tasks && s.tasks[t].running
    ensures var lv := s.tasks[t].level;
      lv <= MAX_LEVEL && s.tasks[x].level < |s.queues| && |WakeTask(s, x).queues| == |s.queues|
      && MovesUp(s.queues[lv], WakeTask(s, x).queues[lv], t, false)
  {
    var lv := s.tasks[t].level;
    var q := s.queues[lv];
    if !s.tasks[x].running && s.tasks[x].level == lv {
      WakeKeeps(s, x);
      var q' := WakeTask(s, x).queues[lv];
      assert q' == q + [x];
      PositionIs(q', t, Position(q, t));
    }
  }

  lemma MovesUpThen(q: seq<nat>, q': seq<nat>, q'': seq<nat>, t: nat, turns: bool)
    requires MovesUp(q, q', t, turns) && MovesUp(q', q'', t, false) && (t in q' && Position(q', t) == 0 ==> Position(q'', t) == 0)
    ensures MovesUp(q, q'', t, turns)
  {}

  lemma FinishMovesUp(s: Sched, code: int, t: nat)
    requires Inv(s) && WaitInv(s) && Current(s) != IDLE && Current(s) !in s.waits
    requires t in s.tasks && s.tasks[t].running && t != Current(s)
    ensures (forall t :: t in s.tasks ==> s.tasks[t].level < |s.queues|)
    ensures (forall id :: id in s.waiter ==> s.waiter[id] in s.tasks && s.waiter[id] != Current(s))
    ensures var lv, s' := s.tasks[t].level, FinishTask(s, code);
      && lv <= MAX_LEVEL && |s'.queues| == |s.queues| && t in s'.tasks && s'.tasks[t].level == lv
      && MovesUp(s.queues[lv], s'.queues[lv], t, s.level == lv)
  {
    FinishIs(s, code);
    RotateMovesUp(s, true, t);
    GoneFields(s, code, t);
    var lv, g, s' := s.tasks[t].level, Gone(s, code), FinishTask(s, code);
    hide Inv, WaitInv, FinishTask, Gone, Rotate;
    if Current(s) in s.waiter {
      var w := s.waiter[Current(s)];
      WakeMovesUp(g, w, t);
      WakeFront(g, w, lv, t);
      WakeLevels(g, w, t);
      MovesUpThen(s.queues[lv], g.queues[lv], s'.queues[lv], t, s.level == lv);
    }
  }

  lemma GoneFields(s: Sched, code: int, t: nat)
    requires Shape(s) && t in s.tasks && t != Current(s)
    ensures Gone(s, code).queues == Rotate(s, true).queues && t in Gone(s, code).tasks
    ensures Gone(s, code).tasks[t] == s.tasks[t]
  {}

  lemma WakeLevels(s: Sched, x: nat, t: nat)
    requires x in s.tasks && s.tasks[x].level < |s.queues| && t in s.tasks
    ensures t in WakeTask(s, x).tasks && WakeTask(s, x).tasks[t].level == s.tasks[t].level
    ensures |WakeTask(s, x).queues| == |s.queues|
  {}

  lemma WakeFront(s: Sched, x: nat, lv: nat, t: nat)
    requires Inv(s) && x in s.tasks && lv <= MAX_LEVEL && t in s.queues[lv]
    ensures s.tasks[x].level < |s.queues| && |WakeTask(s, x).queues| == |s.queues|
    ensures t in WakeTask(s, x).queues[lv] && Position(WakeTask(s, x).queues[lv], t) == Position(s.queues[lv], t)
  {
    WakeKeeps(s, x);
    var q, q' := s.queues[lv], WakeTask(s, x).queues[lv];
    assert q' == q || q' == q + [x];
    PositionIs(q', t, Position(q, t));
  }

  /** Whatever happens, a task that stays runnable keeps its level and moves up in its queue. */
  lemma StepMovesUp(s: Sched, e: Event, t: nat)
    requires Inv(s) && WaitInv(s) && Legal(s, e) && t in s.tasks && s.tasks[t].running
    requires t in Step(s, e).tasks && Step(s, e).tasks[t].running
    ensures var lv := s.tasks[t].level;
      && lv <= MAX_LEVEL && |Step(s, e).queues| == |s.queues| && Step(s, e).tasks[t].level == lv
      && MovesUp(s.queues[lv], Step(s, e).queues[lv], t, Turns(s, e, lv))
  {
    CurrentRuns(s);
    var lv, c := s.tasks[t].level, Current(s);
    Stays(s, t);
    hide Inv, WaitInv, QueuedRun, Rotate, SleepTask, WakeTask, FinishTask, MovesUp, Position;
    match e
    case Tick =>
      RotateMovesUp(s, false, t);
      RotateBooks(s, false);
    case New => NewTasks(s, t);
    case Send(to, msg) =>
      if to in s.tasks {
        SendMovesUp(s, to, msg, t);
      }
    case Wake(x) =>
      if x in s.tasks {
        WakeMovesUp(s, x, t);
        WakeLevels(s, x, t);
      }
    case Sleep(x) =>
      if x in s.tasks {
        SleepTasks(s, x);
        SleepMovesUp(s, x, t);
      }
    case Receive => {}
    case Exit(code) =>
      ExitedIsGone(s, code);
      FinishMovesUp(s, code, t);
    case Wait(id) =>
      if id !in s.finished {
        WaitMovesUp(s, id, t);
      }
  }

  lemma SendMovesUp(s: Sched, to: nat, msg: Message, t: nat)
    requires Inv(s) && t in s.tasks && s.tasks[t].running && to in s.tasks
    ensures var lv, s' := s.tasks[t].level, WakeTask(Push(s, to, msg), to);
      && lv <= MAX_LEVEL && |s'.queues| == |s.queues| && t in s'.tasks && s'.tasks[t].level == lv
      && MovesUp(s.queues[lv], s'.queues[lv], t, false)
  {
    hide Inv, WakeTask, MovesUp, Position;
    PushKeeps(s, to, s.tasks[to].msgs + [msg]);
    WakeMovesUp(Push(s, to, msg), to, t);
    WakeLevels(Push(s, to, msg), to, t);
  }

  lemma WaitMovesUp(s: Sched, id: nat, t: nat)
    requires Inv(s) && t in s.tasks && s.tasks[t].running && Current(s) != t && Current(s) != IDLE
    requires Current(s) in s.tasks
    ensures var c, lv := Current(s), s.tasks[t].level;
      var s1 := s.(waiter := s.waiter[id := c], waits := s.waits[c := id]);
      && s.tasks[c].level < |s.queues| && lv <= MAX_LEVEL && |SleepTask(s1, c).queues| == |s.queues|
      && t in SleepTask(s1, c).tasks && SleepTask(s1, c).tasks[t].level == lv
      && MovesUp(s.queues[lv], SleepTask(s1, c).queues[lv], t, s.level == lv && s.tasks[c].running)
  {
    var c := Current(s);
    var s1 := s.(waiter := s.waiter[id := c], waits := s.waits[c := id]);
    FieldsKeep(s, s1);
    SleepTasks(s1, c);
    hide Inv, SleepTask, MovesUp, Position;
    SleepMovesUp(s1, c, t);
  }

  lemma Stays(s: Sched, t: nat)
    requires Inv(s) && t in s.tasks && s.tasks[t].running
    ensures s.tasks[t].level <= MAX_LEVEL && t in s.queues[s.tasks[t].level] && |s.queues| == MAX_LEVEL + 1
    ensures MovesUp(s.queues[s.tasks[t].level], s.queues[s.tasks[t].level], t, false)
  {}

  lemma NewTasks(s: Sched, t: nat)
    requires Inv(s) && t in s.tasks
    ensures s.tasks[s.latest + 1 := Task(DEFAULT_LEVEL, false, [])][t] == s.tasks[t]
  {
    NewIsFresh(s);
  }

  lemma ExitedIsGone(s: Sched, code: int)
    requires Inv(s) && WaitInv(s) && Current(s) != IDLE && Current(s) !in s.waits
    ensures (forall t :: t in s.tasks ==> s.tasks[t].level < |s.queues|)
    ensures (forall id :: id in s.waiter ==> s.waiter[id] in s.tasks && s.waiter[id] != Current(s))
    ensures Current(s) !in FinishTask(s, code).tasks
  {
    FinishIs(s, code);
    if Current(s) in s.waiter {
      WakeKeeps(Gone(s, code), s.waiter[Current(s)]);
    }
  }

  /** The task is runnable in every state of the run. */
  ghost predicate StaysRunnable(s: Sched, es: seq<Event>, t: nat)
    requires Inv(s) && WaitInv(s) && AllLegal(s, es)
    decreases |es|
  {
    && t in s.tasks && s.tasks[t].running
    && (es == [] || (StepKeeps(s, es[0]); StepKeepsWaits(s, es[0]); StaysRunnable(Step(s, es[0]), es[1..], t)))
  }

  /** How often queue `lv` turns during the run. */
  ghost function TurnsOf(s: Sched, es: seq<Event>, lv: nat): nat
    requires Inv(s) && WaitInv(s) && AllLegal(s, es)
    decreases |es|
  {
    if es == [] then 0
    else
      StepKeeps(s, es[0]);
      StepKeepsWaits(s, es[0]);
      (if Turns(s, es[0], lv) then 1 else 0) + TurnsOf(Step(s, es[0]), es[1..], lv)
  }

  /** In some state of the run the task is at the front of queue `lv`. */
  ghost predicate ComesFirst(s: Sched, es: seq<Event>, lv: nat, t: nat)
    requires Inv(s) && WaitInv(s) && AllLegal(s, es) && lv <= MAX_LEVEL
    decreases |es|
  {
    || (s.queues[lv] != [] && s.queues[lv][0] == t)
    || (es != [] && (StepKeeps(s, es[0]); StepKeepsWaits(s, es[0]); ComesFirst(Step(s, es[0]), es[1..], lv, t)))
  }

  /** Bounded waiting: a task at position `i` of its queue that stays runnable comes first by the time its queue has
      turned `i` times, whatever other tasks do in between. */
  lemma {:induction false} BoundedWaiting(s: Sched, es: seq<Event>, t: nat)
    requires Inv(s) && WaitInv(s) && AllLegal(s, es) && StaysRunnable(s, es, t)
    requires t in s.tasks && s.tasks[t].level <= MAX_LEVEL && t in s.queues[s.tasks[t].level]
    requires TurnsOf(s, es, s.tasks[t].level) >= Position(s.queues[s.tasks[t].level], t)
    ensures ComesFirst(s, es, s.tasks[t].level, t)
    decreases |es|
  {
    var lv := s.tasks[t].level;
    if es != [] && Position(s.queues[lv], t) > 0 {
      StepKeeps(s, es[0]);
      StepKeepsWaits(s, es[0]);
      StepMovesUp(s, es[0], t);
      hide Step, Inv, WaitInv, Legal, Turns;
      BoundedWaiting(Step(s, es[0]), es[1..], t);
    }
  }

  // ----- changing the level of a running task

  /** `ChangeLevelRunning` as it is written: a task that is not current changes queues but keeps its level. */
  function ChangeLevel(s: Sched, t: nat, level: int): Sched
    requires Shape(s) && t in s.tasks && s.tasks[t].level < |s.queues| && level <= MAX_LEVEL
  {
    if level < 0 || level == s.tasks[t].level then s
    else if t != Current(s) then
      var queues := s.queues[s.tasks[t].level := Without(s.queues[s.tasks[t].level], t)];
      s.(queues := queues[level := queues[level] + [t]], changed := s.changed || level > s.level)
    else
      var queues := s.queues[s.level := s.queues[s.level][1..]];
      s.(queues := queues[level := [t] + queues[level]], tasks := s.tasks[t := s.tasks[t].(level := level)],
         level := level, changed := s.changed || level < s.level)
  }

  /** Changing the level of a running task keeps the run queues in order exactly when the task is current or its
      level does not change. */
  lemma ChangeLevelKeeps(s: Sched, t: nat, level: int)
    requires Inv(s) && t in s.tasks && s.tasks[t].running && level <= MAX_LEVEL && (t == IDLE ==> level <= 0)
    ensures s.tasks[t].level < |s.queues|
    ensures Inv(ChangeLevel(s, t, level)) <==> t == Current(s) || level < 0 || level == s.tasks[t].level
  {
    CurrentRuns(s);
    var s' := ChangeLevel(s, t, level);
    if 0 <= level && level != s.tasks[t].level {
      if t == Current(s) {
        FrontChanges(s, t, level);
      } else {
        var q := s'.queues[level];
        assert q[|q| - 1] == t && s'.tasks[t].level != level;
      }
    }
  }

  lemma FrontChanges(s: Sched, t: nat, level: nat)
    requires Inv(s) && t in s.tasks && t == Current(s) && level <= MAX_LEVEL && level != s.tasks[t].level && t != IDLE
    ensures s.tasks[t].level < |s.queues| && Inv(ChangeLevel(s, t, level))
  {
    CurrentRuns(s);
    var s', q := ChangeLevel(s, t, level), s.queues[s.level];
    assert q == [t] + q[1..];
    forall lv, i | 0 <= lv <= MAX_LEVEL && 0 <= i < |s'.queues[lv]|
      ensures var x := s'.queues[lv][i]; x in s'.tasks && s'.tasks[x].running && s'.tasks[x].level == lv
    {
      var x := s'.queues[lv][i];
      if lv != level || i > 0 {
        assert x in s.queues[lv];
        InQueue(s, lv, x);
        assert lv == s.level ==> x != t;
      }
    }
    assert t !in s.queues[level] by {
      if t in s.queues[level] {
        InQueue(s, level, t);
      }
    }
    forall x | x in s.tasks && s.tasks[x].running
      ensures x in s'.queues[s'.tasks[x].level]
    {
      if x != t {
        assert x in s.queues[s.tasks[x].level];
      }
    }
  }

  /** `Wakeup` with a level, or with a negative one for the task's own. */
  function WakeAt(s: Sched, t: nat, level: int): Sched
    requires Shape(s) && t in s.tasks && s.tasks[t].level < |s.queues| && level <= MAX_LEVEL
  {
    if s.tasks[t].running then ChangeLevel(s, t, level)
    else if level < 0 then WakeTask(s, t)
    else WakeTask(s.(tasks := s.tasks[t := s.tasks[t].(level := level)]), t)
  }

  /** Waking keeps the run queues in order, except where it changes the level of a running task that is not
      current. */
  lemma WakeAtKeeps(s: Sched, t: nat, level: int)
    requires Inv(s) && t in s.tasks && level <= MAX_LEVEL && (t == IDLE ==> level <= 0)
    ensures s.tasks[t].level < |s.queues|
    ensures Inv(WakeAt(s, t, level)) <==> !s.tasks[t].running || t == Current(s) || level < 0 || level == s.tasks[t].level
  {
    if s.tasks[t].running {
      ChangeLevelKeeps(s, t, level);
    } else if level < 0 {
      WakeKeeps(s, t);
    } else {
      WakeKeeps(s.(tasks := s.tasks[t := s.tasks[t].(level := level)]), t);
    }
  }

  // ----- who runs after a step

  /** The step puts the task to sleep: it is told to, or it has to wait. */
  ghost predicate Sleeps(s: Sched, e: Event, t: nat)
    requires Shape(s)
  {
    (e.Sleep? && e.task == t) || (e.Wait? && Current(s) == t && e.id !in s.finished)
  }

  /** The step wakes the task: it gets a message, is told to run, or the task it waits for exits. */
  ghost predicate Wakes(s: Sched, e: Event, t: nat)
    requires Shape(s)
  {
    || (e.Send? && e.to == t) || (e.Wake? && e.task == t)
    || (e.Exit? && Current(s) in s.waiter && s.waiter[Current(s)] == t)
  }

  /** The messages of a task after a step: one more if it was sent one, the first one less if it received it. */
  function MessagesAfter(s: Sched, e: Event, t: nat): seq<Message>
    requires Shape(s) && t in s.tasks
  {
    if e.Send? && e.to == t then s.tasks[t].msgs + [e.msg]
    else if e.Receive? && Current(s) == t && s.tasks[t].msgs != [] then s.tasks[t].msgs[1..]
    else s.tasks[t].msgs
  }

  /** A code that was not claimed yet stays until a task waits for it, and an exit adds one. */
  lemma CodesWait(s: Sched, e: Event)
    requires Inv(s) && WaitInv(s) && Legal(s, e)
    ensures Step(s, e).finished ==
      match e
      case Exit(code) => s.finished[Current(s) := code]
      case Wait(id) => s.finished - {id}
      case _ => s.finished
  {
    CurrentRuns(s);
    hide Inv, WaitInv, SleepTask, WakeTask, Rotate;
    match e
    case Tick => RotateBooks(s, false);
    case New => {}
    case Send(to, msg) => if to in s.tasks { WakeBooks(Push(s, to, msg), to); }
    case Wake(x) => if x in s.tasks { WakeBooks(s, x); }
    case Sleep(x) => if x in s.tasks { SleepBooks(s, x); }
    case Receive => {}
    case Exit(code) =>
      FinishIs(s, code);
      RotateBooks(s, true);
      if Current(s) in s.waiter {
        WakeBooks(Gone(s, code), s.waiter[Current(s)]);
      }
    case Wait(id) =>
      if id !in s.finished {
        SleepBooks(s.(waiter := s.waiter[id := Current(s)], waits := s.waits[Current(s) := id]), Current(s));
        assert s.finished - {id} == s.finished;
      }
  }

  /** What any step makes of a task that there was and is: it runs exactly if the step wakes it, or if it ran and is not
      put to sleep; its level stays. */
  lemma TaskAfter(s: Sched, e: Event, t: nat)
    requires Inv(s) && WaitInv(s) && Legal(s, e) && t in s.tasks && t in Step(s, e).tasks
    ensures Step(s, e).tasks[t] ==
      Task(s.tasks[t].level, Wakes(s, e, t) || (s.tasks[t].running && !Sleeps(s, e, t)), MessagesAfter(s, e, t))
  {
    if e.Send? || e.Wake? || e.Sleep? {
      TaskAfterOrder(s, e, t);
    } else {
      TaskAfterOwn(s, e, t);
    }
  }

  /** A step that is about some task. */
  lemma TaskAfterOrder(s: Sched, e: Event, t: nat)
    requires Inv(s) && WaitInv(s) && Legal(s, e) && t in s.tasks && t in Step(s, e).tasks && (e.Send? || e.Wake? || e.Sleep?)
    ensures Step(s, e).tasks[t] ==
      Task(s.tasks[t].level, Wakes(s, e, t) || (s.tasks[t].running && !Sleeps(s, e, t)), MessagesAfter(s, e, t))
  {
    CurrentRuns(s);
    hide Inv, WaitInv, SleepTask, WakeTask, Push;
    match e
    case Send(to, msg) => if to in s.tasks { TaskAfterSend(s, to, msg, t); }
    case Wake(x) => if x in s.tasks { TaskAwake(s, x, t); }
    case Sleep(x) => if x in s.tasks { TaskAsleep(s, x, t); }
  }

  /** A step of the current task or of the timer. */
  lemma TaskAfterOwn(s: Sched, e: Event, t: nat)
    requires Inv(s) && WaitInv(s) && Legal(s, e) && t in s.tasks && t in Step(s, e).tasks && !(e.Send? || e.Wake? || e.Sleep?)
    ensures Step(s, e).tasks[t] ==
      Task(s.tasks[t].level, Wakes(s, e, t) || (s.tasks[t].running && !Sleeps(s, e, t)), MessagesAfter(s, e, t))
  {
    CurrentRuns(s);
    hide Inv, WaitInv, FinishTask, WaitPass, Rotate;
    match e
    case Tick => RotateBooks(s, false);
    case New => NewIsFresh(s);
    case Receive => {}
    case Exit(code) => TaskAfterExit(s, code, t);
    case Wait(id) => TaskAfterWait(s, id, t);
  }

  lemma TaskAfterSend(s: Sched, to: nat, msg: Message, t: nat)
    requires to in s.tasks && t in s.tasks && s.tasks[to].level < |s.queues|
    ensures t in WakeTask(Push(s, to, msg), to).tasks
    ensures WakeTask(Push(s, to, msg), to).tasks[t]
      == if t == to then Task(s.tasks[t].level, true, s.tasks[t].msgs + [msg]) else s.tasks[t]
  {
    TaskAwake(Push(s, to, msg), to, t);
  }

  lemma TaskAfterWait(s: Sched, id: nat, t: nat)
    requires Shape(s) && Current(s) in s.tasks && s.tasks[Current(s)].level < |s.queues| && t in s.tasks
    ensures t in WaitPass(s, id).tasks
    ensures WaitPass(s, id).tasks[t]
      == s.tasks[t].(running := s.tasks[t].running && !(Current(s) == t && id !in s.finished))
  {
    hide SleepTask;
    if id !in s.finished {
      TaskAsleep(s.(waiter := s.waiter[id := Current(s)], waits := s.waits[Current(s) := id]), Current(s), t);
    }
  }

  lemma TaskAwake(s: Sched, x: nat, t: nat)
    requires x in s.tasks && s.tasks[x].level < |s.queues| && t in s.tasks
    ensures t in WakeTask(s, x).tasks
    ensures WakeTask(s, x).tasks[t] == s.tasks[t].(running := s.tasks[t].running || x == t)
  {}

  lemma TaskAsleep(s: Sched, x: nat, t: nat)
    requires Shape(s) && x in s.tasks && s.tasks[x].level < |s.queues| && t in s.tasks
    ensures t in SleepTask(s, x).tasks
    ensures SleepTask(s, x).tasks[t] == s.tasks[t].(running := s.tasks[t].running && x != t)
  {
    if s.tasks[x].running && x == Current(s) {
      RotateBooks(SetRunning(s, x, false), true);
    }
  }

  lemma TaskAfterExit(s: Sched, code: int, t: nat)
    requires Inv(s) && WaitInv(s) && Legal(s, Exit(code)) && t in s.tasks && t in Step(s, Exit(code)).tasks
    ensures Step(s, Exit(code)).tasks[t] == s.tasks[t].(running := s.tasks[t].running || Wakes(s, Exit(code), t))
  {
    FinishIs(s, code);
    ExitedIsGone(s, code);
    hide Inv, WaitInv, WakeTask, FinishTask, Rotate;
    GoneFields(s, code, t);
    hide Gone;
    if Current(s) in s.waiter {
      TaskAwake(Gone(s, code), s.waiter[Current(s)], t);
    }
  }

  /** Whoever runs is in the queue of its level, and so is whoever was just woken. */
  lemma WhoRuns(s: Sched, e: Event, t: nat)
    requires Inv(s) && WaitInv(s) && Legal(s, e) && t in s.tasks && t in Step(s, e).tasks
    ensures var s' := Step(s, e);
      && (s'.tasks[t].running <==> Wakes(s, e, t) || (s.tasks[t].running && !Sleeps(s, e, t)))
      && s'.tasks[t].level == s.tasks[t].level < |s'.queues| && (s'.tasks[t].running <==> t in s'.queues[s'.tasks[t].level])
  {
    StepKeeps(s, e);
    hide Inv, WaitInv, Step, Legal;
    TaskAfter(s, e, t);
    QueuedIffRuns(Step(s, e), t);
  }

  lemma QueuedIffRuns(s: Sched, t: nat)
    requires Inv(s) && t in s.tasks
    ensures s.tasks[t].level < |s.queues| && (s.tasks[t].running <==> t in s.queues[s.tasks[t].level])
  {
    if t in s.queues[s.tasks[t].level] {
      InQueue(s, s.tasks[t].level, t);
    }
  }

  // ----- no message is slept over

  /** The task does not sleep while messages wait for it. */
  ghost predicate Awake(s: Sched, t: nat) {
    t in s.tasks && s.tasks[t].msgs != [] ==> s.tasks[t].running
  }

  /** Every step keeps this, unless it puts the task to sleep although messages wait. */
  lemma StepKeepsAwake(s: Sched, e: Event, t: nat)
    requires Inv(s) && WaitInv(s) && Legal(s, e) && Awake(s, t)
    ensures Awake(Step(s, e), t) <==> !(Sleeps(s, e, t) && t in s.tasks && s.tasks[t].msgs != [])
  {
    hide Inv, WaitInv, Step, Legal;
    if t in s.tasks && t in Step(s, e).tasks {
      TaskAfter(s, e, t);
      OneThing(s, e, t);
    } else {
      Comings(s, e, t);
    }
  }

  /** No step both puts a task to sleep and wakes it or changes its messages. */
  lemma OneThing(s: Sched, e: Event, t: nat)
    requires Inv(s) && t in s.tasks
    ensures Sleeps(s, e, t) ==> !Wakes(s, e, t) && MessagesAfter(s, e, t) == s.tasks[t].msgs
    ensures MessagesAfter(s, e, t) != [] && s.tasks[t].msgs == [] ==> Wakes(s, e, t)
  {}

  /** Tasks appear without messages, and do not disappear while they sleep. */
  lemma Comings(s: Sched, e: Event, t: nat)
    requires Inv(s) && WaitInv(s) && Legal(s, e) && !(t in s.tasks && t in Step(s, e).tasks)
    ensures t in Step(s, e).tasks ==> Step(s, e).tasks[t] == Task(DEFAULT_LEVEL, false, [])
    ensures t in s.tasks ==> e.Exit? && t == Current(s)
  {
    CurrentRuns(s);
    hide Inv, WaitInv, SleepTask, WakeTask, FinishTask, Rotate;
    match e
    case Tick => RotateBooks(s, false);
    case New => {}
    case Send(to, msg) => if to in s.tasks { WakeTasks(Push(s, to, msg), to); }
    case Wake(x) => if x in s.tasks { WakeTasks(s, x); }
    case Sleep(x) => if x in s.tasks { SleepTasks(s, x); }
    case Receive => {}
    case Exit(code) =>
      FinishIs(s, code);
      GoneTasks(s, code);
      hide Gone;
      if Current(s) in s.waiter {
        WakeTasks(Gone(s, code), s.waiter[Current(s)]);
      }
    case Wait(id) =>
      if id !in s.finished {
        SleepTasks(s.(waiter := s.waiter[id := Current(s)], waits := s.waits[Current(s) := id]), Current(s));
      }
  }

  lemma WakeTasks(s: Sched, x: nat)
    requires x in s.tasks && s.tasks[x].level < |s.queues|
    ensures WakeTask(s, x).tasks.Keys == s.tasks.Keys
  {
    assert s.tasks.Keys + {x} == s.tasks.Keys;
  }

  lemma GoneTasks(s: Sched, code: int)
    requires Shape(s)
    ensures Gone(s, code).tasks.Keys == s.tasks.Keys - {Current(s)}
  {}

  /** In the run the task sleeps only when no message waits for it. */
  ghost predicate SleepsEmpty(s: Sched, es: seq<Event>, t: nat)
    requires Inv(s) && WaitInv(s) && AllLegal(s, es)
    decreases |es|
  {
    es == [] ||
    (StepKeeps(s, es[0]); StepKeepsWaits(s, es[0]);
     && (Sleeps(s, es[0], t) && t in s.tasks ==> s.tasks[t].msgs == [])
     && SleepsEmpty(Step(s, es[0]), es[1..], t))
  }

  /** Then in no state of the run does it sleep while a message waits: a message sent to it wakes it, and it runs until
      it has received them all. */
  lemma {:induction false} StaysAwake(s: Sched, es: seq<Event>, t: nat)
    requires Inv(s) && WaitInv(s) && AllLegal(s, es) && SleepsEmpty(s, es, t) && Awake(s, t)
    ensures Awake(Final(s, es), t)
    decreases |es|
  {
    hide Inv, WaitInv, Step, Legal, Sleeps, Awake;
    if es != [] {
      StepKeeps(s, es[0]);
      StepKeepsWaits(s, es[0]);
      StepKeepsAwake(s, es[0], t);
      StaysAwake(Step(s, es[0]), es[1..], t);
    }
  }
}
