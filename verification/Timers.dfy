/** Timers (kernel/timer.cpp): ordinary ones send a message when they expire, the task timer is armed again. */
module Timers {
  import opened Scheduler
  import opened SchedulerRuns
  import opened TaskManager

  /** 64-bit ticks. */
  const MAX_TICK: nat := 0xffff_ffff_ffff_ffff
  const TASK_TIMER_PERIOD: nat := 20
  const TASK_TIMER_VALUE: int := 0x7fff_ffff

  datatype Timer = Timer(timeout: nat, value: int, task: nat)

  predicate IsTaskTimer(t: Timer) {
    t.value == TASK_TIMER_VALUE
  }

  /** The message of an expired timer. */
  function TimeoutOf(t: Timer): Event {
    Send(t.task, TimerTimeout(t.timeout, t.value))
  }

  /** The tasks after the messages of these timers were sent in order. */
  ghost function Notified(s: Sched, ts: seq<Timer>): (s': Sched)
    requires Inv(s) && WaitInv(s)
    ensures Inv(s') && WaitInv(s')
  {
    if ts == [] then s
    else
      var p, e := Notified(s, ts[..|ts| - 1]), TimeoutOf(ts[|ts| - 1]);
      StepKeeps(p, e);
      StepKeepsWaits(p, e);
      Step(p, e)
  }

  /** What these timers tell a task, in order: their timeouts and values. */
  function MessagesFor(ts: seq<Timer>, id: nat): seq<Message> {
    if ts == [] then []
    else
      var last := ts[|ts| - 1];
      MessagesFor(ts[..|ts| - 1], id) + if last.task == id then [TimerTimeout(last.timeout, last.value)] else []
  }

  /** The task has got the messages of its timers, and can run if there was one. */
  ghost predicate Told(before: Task, after: Task, ts: seq<Timer>, id: nat) {
    && after.msgs == before.msgs + MessagesFor(ts, id) && after.level == before.level
    && (after.running <==> before.running || exists i :: 0 <= i < |ts| && ts[i].task == id)
  }

  lemma {:induction false} NotifiedTasks(s: Sched, ts: seq<Timer>)
    requires Inv(s) && WaitInv(s)
    ensures Notified(s, ts).tasks.Keys == s.tasks.Keys
    ensures forall id :: id in s.tasks ==> Told(s.tasks[id], Notified(s, ts).tasks[id], ts, id)
  {
    hide Inv, WaitInv, Step;
    if ts != [] {
      var n := |ts| - 1;
      var p, e := Notified(s, ts[..n]), TimeoutOf(ts[n]);
      NotifiedTasks(s, ts[..n]);
      SendKeepsTasks(p, e.to, e.msg);
      forall id | id in s.tasks
        ensures Told(s.tasks[id], Notified(s, ts).tasks[id], ts, id)
      {
        TaskAfterTimeout(p, e, id);
        assert forall i :: 0 <= i < n ==> ts[..n][i] == ts[i];
        assert Told(s.tasks[id], p.tasks[id], ts[..n], id);
      }
    }
  }

  lemma TaskAfterTimeout(s: Sched, e: Event, id: nat)
    requires Inv(s) && WaitInv(s) && e.Send? && id in s.tasks && id in Step(s, e).tasks
    ensures Step(s, e).tasks[id] == if e.to == id then Task(s.tasks[id].level, true, s.tasks[id].msgs + [e.msg]) else s.tasks[id]
  {
    hide Inv, WaitInv, Step;
    TaskAfter(s, e, id);
  }

  /** How many timers are due. */
  function Due(timers: seq<Timer>, tick: nat): nat {
    if timers == [] then 0
    else Due(timers[..|timers| - 1], tick) + if timers[|timers| - 1].timeout <= tick then 1 else 0
  }

  /** How many task timers are due. */
  function DueTasks(timers: seq<Timer>, tick: nat): nat {
    if timers == [] then 0
    else
      var last := timers[|timers| - 1];
      DueTasks(timers[..|timers| - 1], tick) + if IsTaskTimer(last) && last.timeout <= tick then 1 else 0
  }

  ghost predicate IsTop(timers: seq<Timer>, i: nat) {
    i < |timers| && forall j :: 0 <= j < |timers| ==> timers[i].timeout <= timers[j].timeout
  }

  function Removed(timers: seq<Timer>, i: nat): seq<Timer>
    requires i < |timers|
  {
    timers[..i] + timers[i + 1..]
  }

  ghost predicate Ascending(ts: seq<Timer>) {
    forall i, j :: 0 <= i < j < |ts| ==> ts[i].timeout <= ts[j].timeout
  }

  lemma {:induction false} DueJoin(a: seq<Timer>, b: seq<Timer>, tick: nat)
    ensures Due(a + b, tick) == Due(a, tick) + Due(b, tick)
    ensures DueTasks(a + b, tick) == DueTasks(a, tick) + DueTasks(b, tick)
  {
    if b == [] {
      assert a + b == a;
    } else {
      DueJoin(a, b[..|b| - 1], tick);
      assert (a + b)[..|a + b| - 1] == a + b[..|b| - 1];
    }
  }

  lemma DueOne(t: Timer, tick: nat)
    ensures Due([t], tick) == if t.timeout <= tick then 1 else 0
    ensures DueTasks([t], tick) == if IsTaskTimer(t) && t.timeout <= tick then 1 else 0
  {
    assert [t][..0] == [];
  }

  lemma RemovedIs(timers: seq<Timer>, i: nat, tick: nat)
    requires i < |timers|
    ensures Due(Removed(timers, i), tick) == Due(timers, tick) - if timers[i].timeout <= tick then 1 else 0
    ensures DueTasks(Removed(timers, i), tick)
      == DueTasks(timers, tick) - if IsTaskTimer(timers[i]) && timers[i].timeout <= tick then 1 else 0
    ensures multiset(timers) == multiset(Removed(timers, i)) + multiset{timers[i]}
  {
    var a, b := timers[..i], timers[i + 1..];
    assert timers == a + [timers[i]] + b;
    DueOne(timers[i], tick);
    DueJoin(a + [timers[i]], b, tick);
    DueJoin(a, [timers[i]], tick);
    DueJoin(a, b, tick);
    assert multiset(timers) == multiset(a) + multiset{timers[i]} + multiset(b);
  }

  /** Ordinary timers are delivered or still pending; the task timers that were due are armed again. */
  ghost predicate Accounted(before: seq<Timer>, timers: seq<Timer>, delivered: seq<Timer>, fired: nat, tick: nat) {
    && (forall t :: !IsTaskTimer(t) ==> multiset(before)[t] == multiset(timers)[t] + multiset(delivered)[t])
    && (forall t :: IsTaskTimer(t) ==> multiset(delivered)[t] == 0)
    && (forall t :: IsTaskTimer(t) && t.timeout > tick && t != Armed(tick) ==> multiset(timers)[t] == multiset(before)[t])
    && multiset(timers)[Armed(tick)] == multiset(before)[Armed(tick)] + fired
    && fired + DueTasks(timers, tick) == DueTasks(before, tick)
  }

  /** The task timer as it is armed again at a tick. */
  function Armed(tick: nat): Timer {
    Timer(tick + TASK_TIMER_PERIOD, TASK_TIMER_VALUE, 1)
  }

  class TimerManager {
    const manager: TaskManager
    var tick: nat
    var timers: seq<Timer>

    /** A timer that never expires keeps the queue from becoming empty. */
    constructor (manager: TaskManager)
      ensures Valid() && tick == 0 && timers == [Timer(MAX_TICK, 0, 0)] && this.manager == manager
    {
      this.manager := manager;
      tick := 0;
      timers := [Timer(MAX_TICK, 0, 0)];
    }

    ghost predicate Valid()
      reads this
    {
      Timer(MAX_TICK, 0, 0) in timers
    }

    method AddTimer(timer: Timer)
      requires Valid()
      modifies this`timers
      ensures Valid() && timers == old(timers) + [timer]
    {
      timers := timers + [timer];
    }

    /** The place of a timer that expires first. */
    method Top() returns (i: nat)
      requires timers != []
      ensures IsTop(timers, i)
    {
      i := 0;
      for j := 1 to |timers|
        invariant i < j && forall k :: 0 <= k < j ==> timers[i].timeout <= timers[k].timeout
      {
        if timers[j].timeout < timers[i].timeout {
          i := j;
        }
      }
    }

    /** One tick: every expired ordinary timer is delivered, earlier ones first, and only later timers are left; the
        task timer is reported exactly when it is due, and armed again. */
    method Tick() returns (taskTimeout: bool, ghost delivered: seq<Timer>, ghost fired: nat)
      requires Valid() && manager.Valid() && tick + 1 + TASK_TIMER_PERIOD < MAX_TICK
      modifies this, manager
      ensures Valid() && manager.Valid() && tick == old(tick) + 1
      ensures Ticked(old(timers), timers, delivered, fired, tick)
      ensures taskTimeout <==> DueTasks(old(timers), tick) > 0
      ensures manager.S() == Notified(old(manager.S()), delivered)
      ensures forall id :: id in old(manager.tasks) ==>
        id in manager.tasks && manager.tasks[id].msgs == old(manager.tasks)[id].msgs + MessagesFor(delivered, id)
      ensures forall i :: 0 <= i < |delivered| && delivered[i].task in manager.tasks ==> manager.tasks[delivered[i].task].running
    {
      hide Inv, WaitInv, Ticking, Accounted, DueTasks, IsTop, Removed, Due;
      tick := tick + 1;
      taskTimeout, delivered, fired := false, [], 0;
      ghost var before, s := timers, manager.S();
      TickStarts(before, tick);
      while true
        invariant timers != [] && manager.Valid() && tick == old(tick) + 1
        invariant Ticking(before, timers, delivered, fired, tick) && (taskTimeout <==> fired > 0)
        invariant manager.S() == Notified(s, delivered)
        decreases Due(timers, tick)
      {
        var i := Top();
        TopIsThere(timers, i);
        var t := timers[i];
        if t.timeout > tick {
          TickEnds(before, timers, delivered, fired, tick, i);
          TimersLeft(before, timers, delivered, fired, tick);
          NotifiedTasks(s, delivered);
          break;
        }
        if t.value == TASK_TIMER_VALUE {
          FireStep(before, timers, delivered, fired, tick, i);
          taskTimeout := true;
          timers := Removed(timers, i);
          timers := timers + [Armed(tick)];
          fired := fired + 1;
          TimersLeft(before, timers, delivered, fired, tick);
          continue;
        }
        DeliverStep(before, timers, delivered, fired, tick, i);
        assert (delivered + [t])[..|delivered|] == delivered;
        var sent := manager.SendMessage(t.task, TimerTimeout(t.timeout, t.value));
        delivered := delivered + [t];
        timers := Removed(timers, i);
        TimersLeft(before, timers, delivered, fired, tick);
      }
    }

    /** The timer interrupt: a tick, and a switch of tasks when the task timer is due. */
    method OnInterrupt() returns (ghost delivered: seq<Timer>)
      requires Valid() && manager.Valid() && tick + 1 + TASK_TIMER_PERIOD < MAX_TICK
      modifies this, manager
      ensures Valid() && manager.Valid() && tick == old(tick) + 1
      ensures manager.S() == if DueTasks(old(timers), tick) > 0 then Step(Notified(old(manager.S()), delivered), Event.Tick)
                             else Notified(old(manager.S()), delivered)
    {
      hide Inv, WaitInv, DueTasks, Step, Ticked;
      var taskTimeout;
      ghost var fired;
      taskTimeout, delivered, fired := Tick();
      if taskTimeout {
        manager.SwitchTask();
      }
    }
  }

  /** After a tick: what was due is delivered in order, what is left is later, and nothing is lost. */
  ghost predicate Ticked(before: seq<Timer>, timers: seq<Timer>, delivered: seq<Timer>, fired: nat, tick: nat) {
    && (forall i :: 0 <= i < |timers| ==> timers[i].timeout > tick)
    && Ascending(delivered) && (forall i :: 0 <= i < |delivered| ==> delivered[i].timeout <= tick)
    && Accounted(before, timers, delivered, fired, tick)
  }

  /** A tick in progress. */
  ghost predicate Ticking(before: seq<Timer>, timers: seq<Timer>, delivered: seq<Timer>, fired: nat, tick: nat) {
    && tick + TASK_TIMER_PERIOD < MAX_TICK && Timer(MAX_TICK, 0, 0) in timers
    && Accounted(before, timers, delivered, fired, tick)
    && InOrder(timers, delivered, tick)
  }

  /** What was delivered was due, earlier timers first, and before what is left. */
  ghost predicate InOrder(timers: seq<Timer>, delivered: seq<Timer>, tick: nat) {
    && Ascending(delivered) && (forall i :: 0 <= i < |delivered| ==> delivered[i].timeout <= tick)
    && (forall d, t :: d in delivered && t in timers ==> d.timeout <= t.timeout)
  }

  lemma TickStarts(timers: seq<Timer>, tick: nat)
    requires tick + TASK_TIMER_PERIOD < MAX_TICK && Timer(MAX_TICK, 0, 0) in timers
    ensures Ticking(timers, timers, [], 0, tick)
  {}

  lemma TimersLeft(before: seq<Timer>, timers: seq<Timer>, delivered: seq<Timer>, fired: nat, tick: nat)
    requires Ticking(before, timers, delivered, fired, tick)
    ensures timers != [] && Timer(MAX_TICK, 0, 0) in timers
  {}

  lemma TopIsThere(timers: seq<Timer>, i: nat)
    requires IsTop(timers, i)
    ensures i < |timers|
  {}

  lemma TickEnds(before: seq<Timer>, timers: seq<Timer>, delivered: seq<Timer>, fired: nat, tick: nat, i: nat)
    requires Ticking(before, timers, delivered, fired, tick) && IsTop(timers, i) && timers[i].timeout > tick
    ensures Ticked(before, timers, delivered, fired, tick)
    ensures fired == DueTasks(before, tick)
  {
    NoneDue(timers, tick);
  }

  lemma {:induction false} NoneDue(timers: seq<Timer>, tick: nat)
    requires forall i :: 0 <= i < |timers| ==> timers[i].timeout > tick
    ensures DueTasks(timers, tick) == 0
  {
    if timers != [] {
      NoneDue(timers[..|timers| - 1], tick);
    }
  }

  /** The task timer is armed again. */
  lemma FireStep(before: seq<Timer>, timers: seq<Timer>, delivered: seq<Timer>, fired: nat, tick: nat, i: nat)
    requires Ticking(before, timers, delivered, fired, tick) && IsTop(timers, i) && timers[i].timeout <= tick
    requires IsTaskTimer(timers[i])
    ensures var timers' := Removed(timers, i) + [Armed(tick)];
      Ticking(before, timers', delivered, fired + 1, tick) && Due(timers', tick) < Due(timers, tick)
  {
    var rest := Removed(timers, i);
    var timers' := rest + [Armed(tick)];
    hide Accounted;
    FireEffect(timers, i, tick);
    FireAccounts(before, timers, timers', delivered, fired, tick, timers[i]);
    hide Removed;
    RemovedIn(timers, i);
    assert forall t :: t in timers' <==> t in rest || t == Armed(tick);
    FireOrder(timers, timers', delivered, tick);
  }

  lemma FireEffect(timers: seq<Timer>, i: nat, tick: nat)
    requires i < |timers| && timers[i].timeout <= tick && IsTaskTimer(timers[i])
    ensures var timers' := Removed(timers, i) + [Armed(tick)];
      && multiset(timers') + multiset{timers[i]} == multiset(timers) + multiset{Armed(tick)}
      && DueTasks(timers', tick) == DueTasks(timers, tick) - 1
      && Due(timers', tick) < Due(timers, tick)
  {
    var rest := Removed(timers, i);
    RemovedIs(timers, i, tick);
    DueJoin(rest, [Armed(tick)], tick);
    DueOne(Armed(tick), tick);
    assert multiset(rest + [Armed(tick)]) == multiset(rest) + multiset{Armed(tick)};
  }

  lemma FireOrder(timers: seq<Timer>, timers': seq<Timer>, delivered: seq<Timer>, tick: nat)
    requires InOrder(timers, delivered, tick) && forall t :: t in timers' ==> t in timers || t == Armed(tick)
    ensures InOrder(timers', delivered, tick)
  {
    forall d, t | d in delivered && t in timers'
      ensures d.timeout <= t.timeout
    {
      var k :| 0 <= k < |delivered| && delivered[k] == d;
    }
  }

  lemma FireAccounts(before: seq<Timer>, timers: seq<Timer>, timers': seq<Timer>, delivered: seq<Timer>, fired: nat, tick: nat, t: Timer)
    requires Accounted(before, timers, delivered, fired, tick) && IsTaskTimer(t) && t.timeout <= tick
    requires multiset(timers') + multiset{t} == multiset(timers) + multiset{Armed(tick)}
    requires DueTasks(timers', tick) == DueTasks(timers, tick) - 1
    ensures Accounted(before, timers', delivered, fired + 1, tick)
  {
    hide DueTasks;
    forall u
      ensures multiset(timers')[u] + (if u == t then 1 else 0) == multiset(timers)[u] + if u == Armed(tick) then 1 else 0
    {
      assert (multiset(timers') + multiset{t})[u] == (multiset(timers) + multiset{Armed(tick)})[u];
    }
  }

  /** An ordinary timer is delivered. */
  lemma DeliverStep(before: seq<Timer>, timers: seq<Timer>, delivered: seq<Timer>, fired: nat, tick: nat, i: nat)
    requires Ticking(before, timers, delivered, fired, tick) && IsTop(timers, i) && timers[i].timeout <= tick
    requires !IsTaskTimer(timers[i])
    ensures Ticking(before, Removed(timers, i), delivered + [timers[i]], fired, tick)
    ensures Due(Removed(timers, i), tick) < Due(timers, tick)
  {
    var t, rest := timers[i], Removed(timers, i);
    RemovedIs(timers, i, tick);
    RemovedIn(timers, i);
    hide Removed, Due, DueTasks;
    DeliverAccounts(before, timers, rest, delivered, fired, tick, t);
    DeliverOrder(timers, rest, delivered, tick, i);
  }

  lemma DeliverAccounts(before: seq<Timer>, timers: seq<Timer>, rest: seq<Timer>, delivered: seq<Timer>, fired: nat, tick: nat, t: Timer)
    requires Accounted(before, timers, delivered, fired, tick) && !IsTaskTimer(t)
    requires multiset(timers) == multiset(rest) + multiset{t} && DueTasks(rest, tick) == DueTasks(timers, tick)
    ensures Accounted(before, rest, delivered + [t], fired, tick)
  {
    hide DueTasks;
    assert multiset(delivered + [t]) == multiset(delivered) + multiset{t};
  }

  lemma DeliverOrder(timers: seq<Timer>, rest: seq<Timer>, delivered: seq<Timer>, tick: nat, i: nat)
    requires InOrder(timers, delivered, tick) && IsTop(timers, i) && timers[i].timeout <= tick
    requires forall t :: t in rest ==> t in timers
    ensures InOrder(rest, delivered + [timers[i]], tick)
  {
    forall k | 0 <= k < |delivered|
      ensures delivered[k].timeout <= timers[i].timeout
    {
      assert delivered[k] in delivered && timers[i] in timers;
    }
  }

  lemma RemovedIn(timers: seq<Timer>, i: nat)
    requires i < |timers|
    ensures forall t :: t in Removed(timers, i) ==> t in timers
    ensures forall t :: t in timers && t != timers[i] ==> t in Removed(timers, i)
  {
    forall t | t in timers && t != timers[i]
      ensures t in Removed(timers, i)
    {
      var j :| 0 <= j < |timers| && timers[j] == t;
      assert Removed(timers, i)[if j < i then j else j - 1] == t;
    }
  }

  // ----- many ticks

  /** The task timer is the only one of its kind, and due at `at`. */
  ghost predicate TaskTimerAt(timers: seq<Timer>, at: nat) {
    forall t :: IsTaskTimer(t) ==> multiset(timers)[t] == if t == Timer(at, TASK_TIMER_VALUE, 1) then 1 else 0
  }

  /** The task timer goes off every 20 ticks: it is due exactly at its tick, and is then due 20 ticks later. */
  lemma TaskTimerPeriod(before: seq<Timer>, timers: seq<Timer>, delivered: seq<Timer>, fired: nat, tick: nat, at: nat)
    requires Ticked(before, timers, delivered, fired, tick) && TaskTimerAt(before, at) && tick <= at
    ensures DueTasks(before, tick) > 0 <==> tick == at
    ensures TaskTimerAt(timers, if tick == at then tick + TASK_TIMER_PERIOD else at)
  {
    DueTasksAt(before, tick, at);
    NoneDue(timers, tick);
    forall t | IsTaskTimer(t) && t.timeout <= tick
      ensures multiset(timers)[t] == 0
    {
      assert t !in timers;
    }
    assert multiset(before)[Timer(at, TASK_TIMER_VALUE, 1)] == 1;
  }

  lemma {:induction false} DueTasksAt(timers: seq<Timer>, tick: nat, at: nat)
    requires forall t :: t in timers && IsTaskTimer(t) ==> t == Timer(at, TASK_TIMER_VALUE, 1)
    ensures DueTasks(timers, tick) == if at <= tick then multiset(timers)[Timer(at, TASK_TIMER_VALUE, 1)] else 0
  {
    if timers != [] {
      var n := |timers| - 1;
      assert timers == timers[..n] + [timers[n]];
      DueTasksAt(timers[..n], tick, at);
    }
  }

  /** A timer that was set for the future is delivered at its own tick. */
  lemma DeliveredOnTime(before: seq<Timer>, timers: seq<Timer>, delivered: seq<Timer>, fired: nat, tick: nat)
    requires Ticked(before, timers, delivered, fired, tick) && forall i :: 0 <= i < |before| ==> before[i].timeout >= tick
    ensures forall t :: t in delivered ==> t.timeout == tick
    ensures forall t :: t in before && !IsTaskTimer(t) ==> (t.timeout == tick <==> t in delivered)
  {
    forall t | t in delivered
      ensures t in before
    {
      assert multiset(delivered)[t] > 0;
    }
    forall t | t in before && !IsTaskTimer(t) && t.timeout == tick
      ensures t in delivered
    {
      assert multiset(before)[t] > 0;
      assert t !in timers;
    }
  }

  // ----- whole runs

  datatype TimerOp = Set(timer: Timer) | Advance

  function TicksIn(ops: seq<TimerOp>): (n: nat) {
    if ops == [] then 0 else TicksIn(ops[..|ops| - 1]) + if ops[|ops| - 1].Advance? then 1 else 0
  }

  /** The tick at which a timer set at tick `now` is delivered: its own, or the next one if that is over. */
  function DueTick(t: Timer, now: nat): nat {
    if t.timeout > now then t.timeout else now + 1
  }

  /** How often a run from `tick` on sets the timer so that it is to be delivered at tick `k`. */
  function Ordered(ops: seq<TimerOp>, tick: nat, t: Timer, k: nat): nat {
    if ops == [] then 0
    else
      var rest, last := ops[..|ops| - 1], ops[|ops| - 1];
      Ordered(rest, tick, t, k) + if last == Set(t) && DueTick(t, tick + TicksIn(rest)) == k then 1 else 0
  }

  /** How often it sets the timer so that it is to be delivered after tick `now`. */
  function Waiting(ops: seq<TimerOp>, tick: nat, t: Timer, now: nat): nat {
    if ops == [] then 0
    else
      var rest, last := ops[..|ops| - 1], ops[|ops| - 1];
      Waiting(rest, tick, t, now) + if last == Set(t) && DueTick(t, tick + TicksIn(rest)) > now then 1 else 0
  }

  /** The timers there are, as if they had just been set. */
  function Sets(timers: seq<Timer>): seq<TimerOp> {
    seq(|timers|, i requires 0 <= i < |timers| => Set(timers[i]))
  }

  /** Every ordinary timer is delivered at its tick as often as it was set for it, earlier timeouts first. */
  ghost predicate DeliveredInTime(ops: seq<TimerOp>, tick: nat, delivered: seq<seq<Timer>>) {
    forall i :: 0 <= i < |delivered| ==> TickDelivers(ops, tick, delivered[i], tick + i + 1)
  }

  ghost predicate TickDelivers(ops: seq<TimerOp>, tick: nat, batch: seq<Timer>, k: nat) {
    Ascending(batch) && forall t :: multiset(batch)[t] == if IsTaskTimer(t) then 0 else Ordered(ops, tick, t, k)
  }

  /** The ordinary timers left are those to be delivered later. */
  ghost predicate LeftForLater(ops: seq<TimerOp>, tick: nat, timers: seq<Timer>) {
    forall t :: !IsTaskTimer(t) ==> multiset(timers)[t] == Waiting(ops, tick, t, tick + TicksIn(ops))
  }

  ghost predicate SetsNoTaskTimer(ops: seq<TimerOp>) {
    forall i :: 0 <= i < |ops| && ops[i].Set? ==> !IsTaskTimer(ops[i].timer)
  }

  lemma {:induction false} NothingDelivered(timers: seq<Timer>, tick: nat)
    ensures TicksIn(Sets(timers)) == 0 && LeftForLater(Sets(timers), tick, timers)
  {
    if timers != [] {
      var n := |timers| - 1;
      NothingDelivered(timers[..n], tick);
      assert Sets(timers)[..n] == Sets(timers[..n]);
      assert timers == timers[..n] + [timers[n]];
    }
  }

  /** One more timer: it is to be delivered later. */
  lemma SetKeeps(ops: seq<TimerOp>, tick: nat, timers: seq<Timer>, delivered: seq<seq<Timer>>, t: Timer)
    requires LeftForLater(ops, tick, timers) && DeliveredInTime(ops, tick, delivered) && |delivered| == TicksIn(ops)
    ensures TicksIn(ops + [Set(t)]) == TicksIn(ops)
    ensures LeftForLater(ops + [Set(t)], tick, timers + [t]) && DeliveredInTime(ops + [Set(t)], tick, delivered)
  {
    var ops' := ops + [Set(t)];
    assert ops'[..|ops|] == ops;
    forall i | 0 <= i < |delivered|
      ensures TickDelivers(ops', tick, delivered[i], tick + i + 1)
    {
      assert TickDelivers(ops, tick, delivered[i], tick + i + 1);
    }
  }

  /** Up to now, what is to be delivered at the next tick is what is waiting and has timed out by then. */
  lemma {:induction false} OrderedNext(ops: seq<TimerOp>, tick: nat, t: Timer, now: nat)
    requires tick + TicksIn(ops) <= now
    ensures Ordered(ops, tick, t, now + 1) == if t.timeout <= now + 1 then Waiting(ops, tick, t, now) else 0
    ensures Waiting(ops, tick, t, now) == Ordered(ops, tick, t, now + 1) + Waiting(ops, tick, t, now + 1)
  {
    if ops != [] {
      OrderedNext(ops[..|ops| - 1], tick, t, now);
    }
  }

  lemma AdvanceKeeps(ops: seq<TimerOp>, tick: nat, before: seq<Timer>, timers: seq<Timer>, delivered: seq<seq<Timer>>,
                     batch: seq<Timer>, fired: nat)
    requires LeftForLater(ops, tick, before) && DeliveredInTime(ops, tick, delivered) && |delivered| == TicksIn(ops)
    requires Ticked(before, timers, batch, fired, tick + TicksIn(ops) + 1)
    ensures TicksIn(ops + [Advance]) == TicksIn(ops) + 1
    ensures LeftForLater(ops + [Advance], tick, timers) && DeliveredInTime(ops + [Advance], tick, delivered + [batch])
  {
    hide Ticked, Ordered, Waiting, TicksIn;
    var ops', now := ops + [Advance], tick + TicksIn(ops);
    AdvanceSetsNothing(ops, tick);
    BatchIs(ops, tick, before, timers, batch, fired);
    assert TickDelivers(ops', tick, batch, now + 1);
    forall i | 0 <= i < |delivered|
      ensures TickDelivers(ops', tick, delivered[i], tick + i + 1)
    {
      assert TickDelivers(ops, tick, delivered[i], tick + i + 1);
    }
  }

  lemma AdvanceSetsNothing(ops: seq<TimerOp>, tick: nat)
    ensures TicksIn(ops + [Advance]) == TicksIn(ops) + 1
    ensures forall t, k :: Ordered(ops + [Advance], tick, t, k) == Ordered(ops, tick, t, k)
    ensures forall t, k :: Waiting(ops + [Advance], tick, t, k) == Waiting(ops, tick, t, k)
  {
    assert (ops + [Advance])[..|ops|] == ops;
  }

  /** What a tick delivers and leaves, by what was set before. */
  lemma BatchIs(ops: seq<TimerOp>, tick: nat, before: seq<Timer>, timers: seq<Timer>, batch: seq<Timer>, fired: nat)
    requires LeftForLater(ops, tick, before) && Ticked(before, timers, batch, fired, tick + TicksIn(ops) + 1)
    ensures TickDelivers(ops, tick, batch, tick + TicksIn(ops) + 1)
    ensures forall t :: !IsTaskTimer(t) ==> multiset(timers)[t] == Waiting(ops, tick, t, tick + TicksIn(ops) + 1)
  {
    hide Ordered, Waiting, TicksIn, Accounted;
    var now := tick + TicksIn(ops);
    forall t
      ensures multiset(batch)[t] == if IsTaskTimer(t) then 0 else Ordered(ops, tick, t, now + 1)
      ensures !IsTaskTimer(t) ==> multiset(timers)[t] == Waiting(ops, tick, t, now + 1)
    {
      OrderedNext(ops, tick, t, now);
      TickTakes(before, timers, batch, fired, now + 1, t);
    }
  }

  /** A tick delivers an ordinary timer as often as it was there, if it has timed out. */
  lemma TickTakes(before: seq<Timer>, timers: seq<Timer>, delivered: seq<Timer>, fired: nat, tick: nat, t: Timer)
    requires Ticked(before, timers, delivered, fired, tick)
    ensures multiset(delivered)[t] == if !IsTaskTimer(t) && t.timeout <= tick then multiset(before)[t] else 0
    ensures !IsTaskTimer(t) ==> multiset(timers)[t] == if t.timeout <= tick then 0 else multiset(before)[t]
  {
    assert t.timeout <= tick ==> t !in timers;
    assert t.timeout > tick ==> t !in delivered;
  }

  ghost function Joined(batches: seq<seq<Timer>>): seq<Timer> {
    if batches == [] then [] else Joined(batches[..|batches| - 1]) + batches[|batches| - 1]
  }

  lemma {:induction false} NotifiedJoin(s: Sched, a: seq<Timer>, b: seq<Timer>)
    requires Inv(s) && WaitInv(s)
    ensures Notified(s, a + b) == Notified(Notified(s, a), b)
  {
    hide Inv, WaitInv, Step;
    if b == [] {
      assert a + b == a;
    } else {
      NotifiedJoin(s, a, b[..|b| - 1]);
      assert (a + b)[..|a + b| - 1] == a + b[..|b| - 1];
    }
  }

  /** The task timer is reported in every twentieth tick from `at` on. */
  ghost predicate Periodic(reported: seq<bool>, tick: nat, at: nat) {
    forall i :: 0 <= i < |reported| ==> (reported[i] <==> at <= tick + i + 1 && (tick + i + 1 - at) % TASK_TIMER_PERIOD == 0)
  }

  /** The next report is due at `next`. */
  ghost predicate NextReport(tick: nat, at: nat, next: nat) {
    && at <= next && (next - at) % TASK_TIMER_PERIOD == 0 && tick < next
    && (next == at || next <= tick + TASK_TIMER_PERIOD)
  }

  lemma ReportNext(tick: nat, at: nat, next: nat)
    requires NextReport(tick, at, next)
    ensures tick + 1 == next <==> at <= tick + 1 && (tick + 1 - at) % TASK_TIMER_PERIOD == 0
    ensures NextReport(tick + 1, at, if tick + 1 == next then next + TASK_TIMER_PERIOD else next)
  {
    assert TASK_TIMER_PERIOD == 20;
  }

  lemma AddedTask(timers: seq<Timer>, at: nat, t: Timer)
    requires TaskTimerAt(timers, at) && !IsTaskTimer(t)
    ensures TaskTimerAt(timers + [t], at)
  {}

  lemma TicksSoFar(ops: seq<TimerOp>, i: nat)
    requires i < |ops|
    ensures TicksIn(ops[..i + 1]) == TicksIn(ops[..i]) + (if ops[i].Advance? then 1 else 0) <= TicksIn(ops)
  {
    assert ops[..i + 1][..i] == ops[..i];
    TicksGrow(ops, i + 1);
  }

  lemma {:induction false} TicksGrow(ops: seq<TimerOp>, i: nat)
    requires i <= |ops|
    ensures TicksIn(ops[..i]) <= TicksIn(ops)
    decreases |ops|
  {
    if i < |ops| {
      TicksGrow(ops[..|ops| - 1], i);
      assert ops[..|ops| - 1][..i] == ops[..i];
    } else {
      assert ops[..i] == ops;
    }
  }

  /** Any run of setting timers and ticks: every ordinary timer is delivered once for each time it was set, at its
      tick, and the messages are sent in that order; what is left is what is to be delivered later. The task timer, if
      it is set once at the beginning, is reported in every twentieth tick. */
  method RunTimers(tm: TimerManager, ops: seq<TimerOp>, ghost at: nat)
    returns (reported: seq<bool>, ghost delivered: seq<seq<Timer>>)
    requires tm.Valid() && tm.manager.Valid() && tm.tick + TicksIn(ops) + TASK_TIMER_PERIOD < MAX_TICK
    modifies tm, tm.manager
    ensures tm.Valid() && tm.manager.Valid() && tm.tick == old(tm.tick) + TicksIn(ops)
    ensures |reported| == |delivered| == TicksIn(ops)
    ensures DeliveredInTime(Sets(old(tm.timers)) + ops, old(tm.tick), delivered)
    ensures LeftForLater(Sets(old(tm.timers)) + ops, old(tm.tick), tm.timers)
    ensures tm.manager.S() == Notified(old(tm.manager.S()), Joined(delivered))
    ensures TaskTimerAt(old(tm.timers), at) && old(tm.tick) < at && SetsNoTaskTimer(ops) ==> Periodic(reported, old(tm.tick), at)
  {
    hide Inv, WaitInv, Ticked, DueTasks, TaskTimerAt, LeftForLater, DeliveredInTime, NextReport, TicksIn, Notified;
    reported, delivered := [], [];
    ghost var tick0, s0, sets := tm.tick, tm.manager.S(), Sets(tm.timers);
    ghost var regular, next := TaskTimerAt(tm.timers, at) && tm.tick < at && SetsNoTaskTimer(ops), at;
    RunStarts(tm.timers, tick0, s0, at, ops);
    for i := 0 to |ops|
      invariant tm.Valid() && tm.manager.Valid() && tm.tick == tick0 + TicksIn(ops[..i])
      invariant TicksIn(sets + ops[..i]) == TicksIn(ops[..i]) == |reported| == |delivered|
      invariant DeliveredInTime(sets + ops[..i], tick0, delivered) && LeftForLater(sets + ops[..i], tick0, tm.timers)
      invariant tm.manager.S() == Notified(s0, Joined(delivered))
      invariant regular ==> TaskTimerAt(tm.timers, next) && NextReport(tm.tick, at, next) && Periodic(reported, tick0, at)
    {
      ghost var all, before := sets + ops[..i], tm.timers;
      assert sets + ops[..i + 1] == all + [ops[i]];
      TicksSoFar(ops, i);
      match ops[i]
      case Set(t) =>
        tm.AddTimer(t);
        SetKeeps(all, tick0, before, delivered, t);
        if regular {
          AddedTask(before, next, t);
        }
      case Advance =>
        var report;
        ghost var batch, fired;
        report, batch, fired := tm.Tick();
        AdvanceKeeps(all, tick0, before, tm.timers, delivered, batch, fired);
        NotifiedJoin(s0, Joined(delivered), batch);
        assert (delivered + [batch])[..|delivered|] == delivered;
        if regular {
          ReportNext(tm.tick - 1, at, next);
          NextIsLater(tm.tick - 1, at, next);
          TaskTimerPeriod(before, tm.timers, batch, fired, tm.tick, next);
          next := if tm.tick == next then next + TASK_TIMER_PERIOD else next;
        }
        reported := reported + [report];
        delivered := delivered + [batch];
    }
    assert ops[..|ops|] == ops;
  }

  lemma NextIsLater(tick: nat, at: nat, next: nat)
    requires NextReport(tick, at, next)
    ensures tick < next
  {}

  lemma RunStarts(timers: seq<Timer>, tick: nat, s: Sched, at: nat, ops: seq<TimerOp>)
    requires Inv(s) && WaitInv(s)
    ensures TicksIn(ops[..0]) == TicksIn(Sets(timers) + ops[..0]) == 0
    ensures DeliveredInTime(Sets(timers) + ops[..0], tick, []) && LeftForLater(Sets(timers) + ops[..0], tick, timers)
    ensures Notified(s, Joined([])) == s && (tick < at ==> NextReport(tick, at, at))
  {
    NothingDelivered(timers, tick);
    assert Sets(timers) + ops[..0] == Sets(timers);
  }
}
