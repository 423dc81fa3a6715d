/** The task manager (kernel/task.cpp), whose operations run with interrupts disabled. */
module TaskManager {
  import opened Basics
  import opened Scheduler
  import opened SchedulerRuns

  /** Removes every occurrence of a value. */
  method Erase(q: seq<nat>, t: nat) returns (r: seq<nat>)
    ensures r == Without(q, t)
  {
    r := [];
    for i := 0 to |q|
      invariant r == Without(q[..i], t)
    {
      assert q[..i + 1][..i] == q[..i];
      if q[i] != t {
        r := r + [q[i]];
      }
    }
    assert q[..|q|] == q;
  }

  class TaskManager {
    var tasks: map<nat, Task>
    var latestId: nat
    var running: seq<seq<nat>>
    var currentLevel: nat
    var levelChanged: bool
    var finishTasks: map<nat, int>
    var finishWaiter: map<nat, nat>
    /** Which task each task inside `WaitFinish` waits for, and the codes of all tasks that finished. */
    ghost var waits: map<nat, nat>
    ghost var exits: map<nat, int>

    ghost function S(): Sched
      reads this
    {
      Sched(tasks, latestId, running, currentLevel, levelChanged, finishTasks, finishWaiter, waits, exits)
    }

    ghost predicate Valid()
      reads this
    {
      Inv(S()) && WaitInv(S())
    }

    constructor ()
      ensures Valid() && S() == Initial()
    {
      tasks := map[1 := Task(MAX_LEVEL, true, []), IDLE := Task(0, true, [])];
      latestId, currentLevel, levelChanged := 2, MAX_LEVEL, false;
      running := [[IDLE], [], [], [1]];
      finishTasks, finishWaiter, waits, exits := map[], map[], map[], map[];
      new;
    }

    /** The task at the front of the current queue. */
    function CurrentTask(): nat
      requires Shape(S())
      reads this
    {
      running[currentLevel][0]
    }

    method NewTask() returns (id: nat)
      requires Valid()
      modifies this
      ensures Valid() && S() == Step(old(S()), New) && id == latestId && id !in old(tasks)
    {
      StepKeeps(S(), New);
      StepKeepsWaits(S(), New);
      NewIsFresh(S());
      latestId := latestId + 1;
      tasks := tasks[latestId := Task(DEFAULT_LEVEL, false, [])];
      id := latestId;
    }

    /** Takes the current task off the front of its queue and chooses the next level if it must change. */
    method RotateCurrentRunQueue(currentSleep: bool) returns (current: nat)
      requires Shape(S())
      modifies this`running, this`currentLevel, this`levelChanged
      ensures S() == Rotate(old(S()), currentSleep) && current == Current(old(S()))
    {
      var levelQueue := running[currentLevel];
      current := levelQueue[0];
      levelQueue := levelQueue[1..];
      if !currentSleep {
        levelQueue := levelQueue + [current];
      }
      running := running[currentLevel := levelQueue];
      if levelQueue == [] {
        levelChanged := true;
      }
      if levelChanged {
        levelChanged := false;
        var lv := MAX_LEVEL as int;
        while lv >= 0
          invariant -1 <= lv <= MAX_LEVEL
          invariant Highest(running, lv, currentLevel) == Highest(running, MAX_LEVEL, currentLevel)
          modifies {}
        {
          if running[lv] != [] {
            break;
          }
          lv := lv - 1;
        }
        if lv >= 0 {
          currentLevel := lv;
        }
      }
      assert running[old(currentLevel)] == old(running[currentLevel])[1..] + if currentSleep then [] else [current];
    }

    /** The timer's switch: afterwards the current level is the highest one in use. */
    method SwitchTask()
      requires Valid()
      modifies this
      ensures Valid() && S() == Step(old(S()), Tick)
      ensures !levelChanged && forall lv :: currentLevel < lv <= MAX_LEVEL ==> running[lv] == []
    {
      StepKeeps(S(), Tick);
      StepKeepsWaits(S(), Tick);
      RotateKeeps(S());
      var current := RotateCurrentRunQueue(false);
    }

    /** Puts a task to sleep. */
    method Sleep(t: nat)
      requires Shape(S()) && t in tasks && tasks[t].level < |running|
      modifies this`tasks, this`running, this`currentLevel, this`levelChanged
      ensures S() == SleepTask(old(S()), t)
    {
      hide Rotate, Without;
      if !tasks[t].running {
        return;
      }
      tasks := tasks[t := tasks[t].(running := false)];
      if t == running[currentLevel][0] {
        var current := RotateCurrentRunQueue(true);
        return;
      }
      var lv := tasks[t].level;
      var rest := Erase(running[lv], t);
      running := running[lv := rest];
    }

    /** Puts a task to sleep by its number. */
    method SleepById(id: nat) returns (found: bool)
      requires Valid() && Legal(S(), Event.Sleep(id))
      modifies this
      ensures Valid() && S() == Step(old(S()), Event.Sleep(id)) && (found <==> id in old(tasks))
    {
      StepKeeps(S(), Event.Sleep(id));
      StepKeepsWaits(S(), Event.Sleep(id));
      if id !in tasks {
        return false;
      }
      Sleep(id);
      found := true;
    }

    /** Makes a sleeping task runnable, or changes the level of a running one. */
    method Wakeup(t: nat, level: int)
      requires Shape(S()) && t in tasks && tasks[t].level < |running| && level <= MAX_LEVEL
      modifies this`tasks, this`running, this`currentLevel, this`levelChanged
      ensures S() == WakeAt(old(S()), t, level)
    {
      if tasks[t].running {
        ChangeLevelRunning(t, level);
        return;
      }
      var lv := if level < 0 then tasks[t].level else level;
      tasks := tasks[t := tasks[t].(level := lv)];
      tasks := tasks[t := tasks[t].(running := true)];
      running := running[lv := running[lv] + [t]];
      if lv > currentLevel {
        levelChanged := true;
      }
      assert tasks == WakeAt(old(S()), t, level).tasks;
    }

    method ChangeLevelRunning(t: nat, level: int)
      requires Shape(S()) && t in tasks && tasks[t].level < |running| && level <= MAX_LEVEL
      modifies this`tasks, this`running, this`currentLevel, this`levelChanged
      ensures S() == ChangeLevel(old(S()), t, level)
    {
      if level < 0 || level == tasks[t].level {
        return;
      }
      if t != running[currentLevel][0] {
        var lv := tasks[t].level;
        var rest := Erase(running[lv], t);
        running := running[lv := rest];
        running := running[level := running[level] + [t]];
        if level > currentLevel {
          levelChanged := true;
        }
        return;
      }
      running := running[currentLevel := running[currentLevel][1..]];
      running := running[level := [t] + running[level]];
      tasks := tasks[t := tasks[t].(level := level)];
      if level >= currentLevel {
        currentLevel := level;
      } else {
        currentLevel := level;
        levelChanged := true;
      }
    }

    /** Wakes a task by its number, at its own level. */
    method WakeupById(id: nat) returns (found: bool)
      requires Valid()
      modifies this
      ensures Valid() && S() == Step(old(S()), Wake(id)) && (found <==> id in old(tasks))
    {
      StepKeeps(S(), Wake(id));
      StepKeepsWaits(S(), Wake(id));
      CurrentRuns(S());
      if id !in tasks {
        return false;
      }
      WakeDefault(S(), id);
      Wakeup(id, -1);
      found := true;
    }

    /** The task has these messages, runs, and waits for its turn in the queue of its level. */
    ghost predicate Receives(id: nat, msgs: seq<Message>)
      reads this
    {
      && id in tasks && tasks[id].msgs == msgs && tasks[id].running
      && tasks[id].level < |running| && id in running[tasks[id].level]
    }

    /** Appends a message and wakes the task. */
    method SendMessage(id: nat, msg: Message) returns (found: bool)
      requires Valid()
      modifies this
      ensures Valid() && S() == Step(old(S()), Send(id, msg)) && (found <==> id in old(tasks))
      ensures found ==> old(id in tasks) && Receives(id, old(tasks[id].msgs) + [msg])
    {
      ghost var s := S();
      StepKeeps(S(), Send(id, msg));
      StepKeepsWaits(S(), Send(id, msg));
      CurrentRuns(S());
      if id !in tasks {
        return false;
      }
      PushKeeps(S(), id, tasks[id].msgs + [msg]);
      tasks := tasks[id := tasks[id].(msgs := tasks[id].msgs + [msg])];
      WakeDefault(S(), id);
      Wakeup(id, -1);
      Sent(s, id, msg);
      found := true;
    }

    /** The current task takes its first message. */
    method ReceiveMessage() returns (msg: Option<Message>)
      requires Valid() && Legal(S(), Receive)
      modifies this
      ensures Valid() && S() == Step(old(S()), Receive)
      ensures Current(old(S())) in old(tasks)
      ensures var msgs := old(tasks)[Current(old(S()))].msgs; msg == if msgs == [] then None else Some(msgs[0])
    {
      StepKeeps(S(), Receive);
      StepKeepsWaits(S(), Receive);
      CurrentRuns(S());
      var c := CurrentTask();
      if tasks[c].msgs == [] {
        return None;
      }
      msg := Some(tasks[c].msgs[0]);
      tasks := tasks[c := tasks[c].(msgs := tasks[c].msgs[1..])];
    }

    /** The current task finishes: its code is kept, and the task that waits for it can run. */
    method Finish(code: int)
      requires Valid() && Legal(S(), Exit(code))
      modifies this
      ensures Valid() && S() == Step(old(S()), Exit(code))
      ensures forall t :: t in old(waits) && old(waits)[t] == Current(old(S())) ==> t in tasks && tasks[t].running
    {
      ghost var s := S();
      hide Inv, WaitInv, Step, Rotate, WakeTask, FinishTask, Gone;
      StepKeeps(s, Exit(code));
      StepKeepsWaits(s, Exit(code));
      FinishKeepsWaits(s, code);
      FinishIs(s, code);
      FinishStep(s, code);
      CurrentRuns(s);
      var id := RemoveCurrent(code);
      if id in finishWaiter {
        var waiter := finishWaiter[id];
        finishWaiter := finishWaiter - {id};
        WakeDefault(S(), waiter);
        Wakeup(waiter, -1);
      } else {
        assert finishWaiter - {id} == finishWaiter;
      }
    }

    /** The current task leaves the queues and the list of tasks, and its code is kept. */
    method RemoveCurrent(code: int) returns (id: nat)
      requires Shape(S())
      modifies this`tasks, this`running, this`currentLevel, this`levelChanged, this`finishTasks, this`exits
      ensures S().(waiter := finishWaiter - {id}) == Gone(old(S()), code) && id == Current(old(S()))
    {
      RotateBooks(S(), true);
      hide Rotate;
      id := RotateCurrentRunQueue(true);
      tasks := tasks - {id};
      finishTasks := finishTasks[id := code];
      exits := exits[id := code];
    }

    /** One pass of the loop of `WaitFinish` by the current task: it returns the code that task `id` finished with,
        taking it away, or sleeps registered until it is woken. */
    method WaitFinishPass(id: nat) returns (code: Option<int>)
      requires Valid() && Legal(S(), Wait(id))
      modifies this
      ensures Valid() && S() == Step(old(S()), Wait(id))
      ensures code.Some? <==> id in old(finishTasks)
      ensures code.Some? ==> id in exits && code.value == exits[id] && id !in finishTasks
      ensures code.None? ==> Current(old(S())) in tasks && !tasks[Current(old(S()))].running && id in tasks
    {
      ghost var s := S();
      hide WaitInv, Step, SleepTask;
      StepKeeps(s, Wait(id));
      StepKeepsWaits(s, Wait(id));
      CurrentRuns(s);
      WaitKeepsWaits(s, id);
      WaitStep(s, id);
      var current := CurrentTask();
      if id in finishTasks {
        code := Some(finishTasks[id]);
        finishTasks := finishTasks - {id};
        waits := waits - {current};
        return;
      }
      finishWaiter := finishWaiter[id := current];
      waits := waits[current := id];
      FieldsKeep(s, S());
      SleepKeeps(S(), current);
      Sleep(current);
      code := None;
    }
  }

  lemma WakeDefault(s: Sched, t: nat)
    requires Inv(s) && t in s.tasks
    ensures Shape(s) && s.tasks[t].level < |s.queues| && WakeAt(s, t, -1) == WakeTask(s, t)
  {}

  lemma FinishStep(s: Sched, code: int)
    requires Inv(s) && WaitInv(s) && Legal(s, Exit(code))
    ensures (forall t :: t in s.tasks ==> s.tasks[t].level < |s.queues|)
    ensures (forall id :: id in s.waiter ==> s.waiter[id] in s.tasks && s.waiter[id] != Current(s))
    ensures Step(s, Exit(code)) == FinishTask(s, code)
  {
    CurrentRuns(s);
  }

  lemma WaitStep(s: Sched, id: nat)
    requires Inv(s) && WaitInv(s) && Legal(s, Wait(id))
    ensures Current(s) in s.tasks && s.tasks[Current(s)].level < |s.queues|
    ensures Step(s, Wait(id)) == WaitPass(s, id)
  {
    CurrentRuns(s);
  }

  lemma Sent(s: Sched, id: nat, msg: Message)
    requires Inv(s) && WaitInv(s) && id in s.tasks
    ensures var s' := Step(s, Send(id, msg));
      && id in s'.tasks && s'.tasks[id].msgs == s.tasks[id].msgs + [msg] && s'.tasks[id].running
      && s'.tasks[id].level < |s'.queues| && id in s'.queues[s'.tasks[id].level]
  {
    SendKeepsTasks(s, id, msg);
    hide Inv, WaitInv, Step;
    TaskAfter(s, Send(id, msg), id);
    WhoRuns(s, Send(id, msg), id);
  }

  lemma SendKeepsTasks(s: Sched, id: nat, msg: Message)
    requires Inv(s) && WaitInv(s)
    ensures Step(s, Send(id, msg)).tasks.Keys == s.tasks.Keys
  {
    CurrentRuns(s);
    if id in s.tasks {
      WakeTasks(Push(s, id, msg), id);
    }
  }
}
