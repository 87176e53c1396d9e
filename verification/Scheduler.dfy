/** The task manager of kernel/app/task.cpp. Each method is one region in which interrupts
    are off; a context switch is a change of the current task. */
module Scheduler {
  import opened RunQueues

  /** A task waiting for another to finish sleeps only until it has: its own entry is the
      one that will wake it, and no exit code is left lying. Only the overtaken tasks, whose
      entry another waiter has replaced, have no entry. */
  predicate WaitsKept(tasks: map<nat, Task>, finish: map<nat, int>, waiter: map<nat, nat>, waiting: map<nat, nat>, overtaken: set<nat>) {
    && (forall w :: w in waiting ==> w in tasks && waiting[w] != w)
    && (forall w :: w in waiting && !tasks[w].running && w !in overtaken ==>
      waiting[w] !in finish && waiting[w] in waiter && waiter[waiting[w]] == w)
    && (forall id :: id in waiter ==>
      waiter[id] in waiting && waiting[waiter[id]] == id && id !in finish && waiter[id] !in overtaken)
    && overtaken <= waiting.Keys
  }

  /** The overtaken tasks after t goes to sleep waiting for a task: the one that was to be
      woken is, t is not. */
  function Overtaken(overtaken: set<nat>, waiter: map<nat, nat>, t: nat, id: nat): set<nat> {
    (if id in waiter then overtaken + {waiter[id]} else overtaken) - {t}
  }

  /** A task asleep in its receive loop has no message. */
  predicate ReceivesKept(tasks: map<nat, Task>, receiving: set<nat>) {
    forall t :: t in receiving ==> t in tasks && (!tasks[t].running ==> tasks[t].msgs == [])
  }

  /** Waking tasks, or changing their levels and messages, keeps the waits. */
  lemma WaitsAwake(tasks: map<nat, Task>, tasks': map<nat, Task>, finish: map<nat, int>, waiter: map<nat, nat>, waiting: map<nat, nat>, overtaken: set<nat>)
    requires WaitsKept(tasks, finish, waiter, waiting, overtaken)
    requires forall t :: t in tasks ==> t in tasks' && (tasks[t].running ==> tasks'[t].running)
    ensures WaitsKept(tasks', finish, waiter, waiting, overtaken)
  {
  }

  /** So does the sleep of a task that waits for none, or sleeps already. */
  lemma WaitsOther(tasks: map<nat, Task>, finish: map<nat, int>, waiter: map<nat, nat>, waiting: map<nat, nat>, overtaken: set<nat>, t: nat)
    requires WaitsKept(tasks, finish, waiter, waiting, overtaken) && t in tasks && (t in waiting ==> !tasks[t].running)
    ensures WaitsKept(tasks[t := tasks[t].(running := false)], finish, waiter, waiting, overtaken)
  {
  }

  /** A task ends and the last one that went to sleep waiting for it is woken, no other. */
  lemma WaitsFinish(tasks: map<nat, Task>, tasks': map<nat, Task>, finish: map<nat, int>, waiter: map<nat, nat>, waiting: map<nat, nat>, overtaken: set<nat>, t: nat, code: int)
    requires WaitsKept(tasks, finish, waiter, waiting, overtaken) && t !in waiting
    requires forall u :: u in tasks && u != t ==> u in tasks' && (tasks'[u].running <==> tasks[u].running || Wakes(waiter, t, u))
    ensures WaitsKept(tasks', finish[t := code], waiter - {t}, waiting, overtaken)
    ensures LastWoken(tasks, tasks', waiting, overtaken, t)
  {
  }

  /** Of the tasks that wait for t, those asleep are woken that no other has overtaken. */
  predicate LastWoken(before: map<nat, Task>, after: map<nat, Task>, waiting: map<nat, nat>, overtaken: set<nat>, t: nat) {
    forall w :: w in waiting && waiting[w] == t ==>
      w in before && w in after && (after[w].running <==> before[w].running || w !in overtaken)
  }

  /** The end of task t wakes u. */
  predicate Wakes(waiter: map<nat, nat>, t: nat, u: nat) {
    t in waiter && waiter[t] == u
  }

  /** A task goes to sleep waiting for another, overtaking the one that did before. */
  lemma WaitsSleep(tasks: map<nat, Task>, finish: map<nat, int>, waiter: map<nat, nat>, waiting: map<nat, nat>, overtaken: set<nat>, t: nat, id: nat)
    requires WaitsKept(tasks, finish, waiter, waiting, overtaken) && t in tasks && t != id && id !in finish
    requires t in waiting ==> waiting[t] == id
    ensures WaitsKept(tasks[t := tasks[t].(running := false)], finish, waiter[id := t], waiting[t := id], Overtaken(overtaken, waiter, t, id))
  {
  }

  /** It has its exit code. */
  lemma WaitsDone(tasks: map<nat, Task>, finish: map<nat, int>, waiter: map<nat, nat>, waiting: map<nat, nat>, overtaken: set<nat>, t: nat, id: nat)
    requires WaitsKept(tasks, finish, waiter, waiting, overtaken) && id in finish
    requires t in waiting ==> waiting[t] == id
    ensures WaitsKept(tasks, finish - {id}, waiter, waiting - {t}, overtaken - {t})
  {
  }

  predicate IdsKept(tasks: map<nat, Task>, finish: map<nat, int>, latest: nat) {
    && (forall t :: t in tasks ==> t <= latest && t !in finish)
    && (forall t :: t in finish ==> t <= latest)
  }

  lemma SchedFacts(running: seq<seq<nat>>, current: nat, changed: bool)
    requires Scheduled(running, current, changed)
    ensures |running| == MAX_LEVEL + 1 && current <= MAX_LEVEL && running[current] != []
  {
  }

  /** The front of the current queue is an awake task of that level. */
  lemma FrontLevel(tasks: map<nat, Task>, running: seq<seq<nat>>, current: nat)
    requires Queued(tasks, running) && current <= MAX_LEVEL && running[current] != []
    ensures running[current][0] in tasks && tasks[running[current][0]].running && tasks[running[current][0]].level == current
    ensures Distinct(running[current])
  {
    assert QueueOk(tasks, running[current], current);
    assert running[current][0] in running[current];
  }

  /** Another task is left when one that is not the idle task goes. */
  lemma IdleStays(tasks: map<nat, Task>, running: seq<seq<nat>>, current: nat, idle: nat)
    requires Queued(tasks, running) && current <= MAX_LEVEL && running[current] != [] && running[current][0] != idle
    requires idle in tasks && tasks[idle].running
    ensures tasks[idle].level <= MAX_LEVEL && After(running, current, true)[tasks[idle].level] != []
  {
    OnlyInOwnQueue(tasks, running, idle, tasks[idle].level);
    assert idle in After(running, current, true)[tasks[idle].level];
  }

  /** The queues without a current task that is not the idle one. */
  lemma CurrentLeaves(tasks: map<nat, Task>, running: seq<seq<nat>>, current: nat, idle: nat)
    requires Queued(tasks, running) && |running| == MAX_LEVEL + 1 && current <= MAX_LEVEL && running[current] != []
    requires running[current][0] != idle && idle in tasks && tasks[idle].running
    ensures running[current][0] in tasks && Queued(tasks - {running[current][0]}, After(running, current, true))
    ensures exists level: nat :: level <= MAX_LEVEL && After(running, current, true)[level] != []
  {
    FrontLevel(tasks, running, current);
    WithoutFront(running[current]);
    FinishQueued(tasks, running, running[current][0]);
    IdleStays(tasks, running, current, idle);
  }

  /** Task t is gone and has woken the one whose entry was kept for it. */
  predicate Left(before: map<nat, Task>, after: map<nat, Task>, waiter: map<nat, nat>, t: nat) {
    && after.Keys == before.Keys - {t}
    && forall w :: w in after ==>
      && after[w].level == before[w].level && after[w].msgs == before[w].msgs
      && (after[w].running <==> before[w].running || Wakes(waiter, t, w))
  }

  lemma OneLeft(before: map<nat, Task>, after: map<nat, Task>, waiter: map<nat, nat>, t: nat)
    requires t in waiter ==> waiter[t] in before && waiter[t] != t
    requires after == if t in waiter then (before - {t})[waiter[t] := before[waiter[t]].(running := true)] else before - {t}
    ensures Left(before, after, waiter, t)
  {
  }

  lemma LeftKept(before: map<nat, Task>, after: map<nat, Task>, finish: map<nat, int>, waiter: map<nat, nat>, waiting: map<nat, nat>, overtaken: set<nat>,
                 receiving: set<nat>, latest: nat, t: nat, code: int)
    requires Left(before, after, waiter, t) && t in before && t !in waiting
    requires WaitsKept(before, finish, waiter, waiting, overtaken) && ReceivesKept(before, receiving) && IdsKept(before, finish, latest)
    ensures WaitsKept(after, finish[t := code], waiter - {t}, waiting, overtaken)
    ensures ReceivesKept(after, receiving - {t}) && IdsKept(after, finish[t := code], latest)
    ensures LastWoken(before, after, waiting, overtaken, t)
  {
    WaitsFinish(before, after, finish, waiter, waiting, overtaken, t, code);
  }

  lemma WaiterStays(tasks: map<nat, Task>, finish: map<nat, int>, waiter: map<nat, nat>, waiting: map<nat, nat>, overtaken: set<nat>, t: nat)
    requires WaitsKept(tasks, finish, waiter, waiting, overtaken)
    ensures t in waiter ==> waiter[t] in tasks && waiter[t] != t && t !in finish
  {
  }

  /** The exit codes a step gives are of tasks that end, and those it takes were kept. */
  predicate CodesAfter(tasks0: map<nat, Task>, tasks: map<nat, Task>, latest0: nat, latest: nat, finish0: map<nat, int>, finish: map<nat, int>,
                       ended: map<nat, int>, taken: map<nat, int>) {
    && finish == (finish0 + ended) - taken.Keys
    && ended.Keys <= tasks0.Keys && ended.Keys !! tasks.Keys
    && latest0 <= latest && (forall t :: t in tasks ==> t in tasks0 || t > latest0)
    && forall id :: id in taken ==> id in finish0 && taken[id] == finish0[id]
  }

  lemma NoCodes(tasks0: map<nat, Task>, tasks: map<nat, Task>, latest0: nat, latest: nat, finish: map<nat, int>)
    requires latest0 <= latest && forall t :: t in tasks ==> t in tasks0 || t > latest0
    ensures CodesAfter(tasks0, tasks, latest0, latest, finish, finish, map[], map[])
  {
  }

  lemma GaveCode(tasks0: map<nat, Task>, tasks: map<nat, Task>, latest: nat, finish: map<nat, int>, t: nat, code: int)
    requires t in tasks0 && tasks.Keys == tasks0.Keys - {t}
    ensures CodesAfter(tasks0, tasks, latest, latest, finish, finish[t := code], map[t := code], map[])
  {
  }

  lemma TookCode(tasks: map<nat, Task>, latest: nat, finish: map<nat, int>, t: nat)
    requires t in finish
    ensures CodesAfter(tasks, tasks, latest, latest, finish, finish - {t}, map[], map[t := finish[t]])
  {
  }

  /** The codes given and taken by one more step. */
  lemma CodesKept(tasks: map<nat, Task>, finish: map<nat, int>, latest: nat, ended: map<nat, int>, taken: map<nat, int>, gave: map<nat, int>, took: map<nat, int>)
    requires IdsKept(tasks, finish, latest)
    requires taken.Keys !! finish.Keys && ended == taken + finish && forall t :: t in taken ==> t <= latest && t !in tasks
    requires gave.Keys <= tasks.Keys && forall id :: id in took ==> id in finish && took[id] == finish[id]
    ensures (taken + took).Keys !! ((finish + gave) - took.Keys).Keys
    ensures ended + gave == (taken + took) + ((finish + gave) - took.Keys)
    ensures forall t :: t in took ==> t <= latest && t !in tasks
  {
  }

  datatype Step =
    | Tick
    | Create
    | Wake(id: nat, level: int)
    | Send(id: nat, msg: Message)
    | Rest(id: nat)
    | Receive
    | End(code: int)
    | Wait(id: nat)

  lemma LeftMessages(step: Step, current: nat, before: map<nat, Task>, after: map<nat, Task>, waiter: map<nat, nat>)
    requires step.End? && Left(before, after, waiter, current)
    ensures MessagesAfter(step, current, before, after)
    ensures after.Keys == before.Keys - {current}
  {
  }

  /** Each task keeps its messages in order: a step adds one at the end, takes one from the
      front, or leaves them. */
  predicate MessagesAfter(step: Step, current: nat, before: map<nat, Task>, after: map<nat, Task>) {
    forall t :: t in before && !(step.End? && t == current) ==>
      t in after && after[t].msgs ==
        if step.Send? && step.id == t then before[t].msgs + [step.msg]
        else if step.Receive? && t == current && before[t].msgs != [] then before[t].msgs[1..]
        else before[t].msgs
  }

  class TaskManager {
    var tasks: map<nat, Task>
    var latestId: nat
    var running: seq<seq<nat>>
    var currentLevel: nat
    var levelChanged: bool
    var finishTasks: map<nat, int>
    var finishWaiter: map<nat, nat>
    const idle: nat
    /** Where suspended tasks stand: in WaitFinish for which task, or in a receive loop. */
    var waiting: map<nat, nat>
    var receiving: set<nat>
    /** The tasks in WaitFinish whose entry in finishWaiter another one has replaced. */
    var overtaken: set<nat>

    ghost predicate Valid()
      reads this
    {
      && Queued(tasks, running) && Scheduled(running, currentLevel, levelChanged)
      && idle in tasks && tasks[idle].running && idle !in waiting
      && WaitsKept(tasks, finishTasks, finishWaiter, waiting, overtaken)
      && ReceivesKept(tasks, receiving)
      && IdsKept(tasks, finishTasks, latestId)
    }

    constructor ()
      ensures Valid() && CurrentTask() == 1 && idle == 2 && latestId == 2
      ensures tasks == map[1 := Task(MAX_LEVEL, true, []), 2 := Task(0, true, [])] && !levelChanged
      ensures finishTasks == map[] && finishWaiter == waiting == map[] && overtaken == {}
    {
      tasks := map[1 := Task(MAX_LEVEL, true, []), 2 := Task(0, true, [])];
      latestId := 2;
      running := [[2], [], [], [1]];
      currentLevel, levelChanged := MAX_LEVEL, false;
      finishTasks, finishWaiter := map[], map[];
      idle := 2;
      waiting, receiving, overtaken := map[], {}, {};
    }

    function CurrentTask(): nat
      requires |running| == MAX_LEVEL + 1 && currentLevel <= MAX_LEVEL && running[currentLevel] != []
      reads this`running, this`currentLevel
    {
      running[currentLevel][0]
    }

    /** A new task sleeps at the default level. */
    method NewTask() returns (id: nat)
      requires Valid()
      modifies this`tasks, this`latestId
      ensures Valid() && id == latestId == old(latestId) + 1 && id !in old(tasks) && tasks == old(tasks)[id := Task(1, false, [])]
    {
      latestId := latestId + 1;
      id := latestId;
      NewQueued(tasks, running, id, 1);
      tasks := tasks[id := Task(1, false, [])];
    }

    /** Takes the current task off its queue, or moves it to the end; then the current level
        is the highest one with a task. */
    method RotateCurrentRunQueue(currentSleep: bool) returns (task: nat)
      requires Scheduled(running, currentLevel, levelChanged)
      requires exists level: nat :: level <= MAX_LEVEL && After(running, currentLevel, currentSleep)[level] != []
      modifies this`running, this`currentLevel, this`levelChanged
      ensures task == old(CurrentTask()) && running == After(old(running), old(currentLevel), currentSleep)
      ensures Scheduled(running, currentLevel, levelChanged) && !levelChanged && HighestFrom(running, currentLevel)
      ensures !old(levelChanged) && running[old(currentLevel)] != [] ==> currentLevel == old(currentLevel)
    {
      var q := running[currentLevel];
      task := q[0];
      q := q[1..];
      if !currentSleep {
        q := q + [task];
      }
      running := running[currentLevel := q];
      if q == [] {
        levelChanged := true;
      }
      if levelChanged {
        levelChanged := false;
        var level: int := MAX_LEVEL;
        while level >= 0
          invariant level <= MAX_LEVEL
          invariant forall k: nat :: level < k <= MAX_LEVEL ==> running[k] == []
        {
          if running[level] != [] {
            currentLevel := level;
            break;
          }
          level := level - 1;
        }
      }
    }

    /** A timer tick: the current task goes behind the others of its level. */
    method SwitchTask()
      requires Valid()
      modifies this`running, this`currentLevel, this`levelChanged
      ensures Valid() && !levelChanged && HighestFrom(running, currentLevel)
      ensures running == old(running)[old(currentLevel) := old(running[currentLevel][1..]) + [old(CurrentTask())]]
      ensures !old(levelChanged) ==> currentLevel == old(currentLevel)
    {
      TurnQueued(tasks, running, currentLevel);
      OnlyInOwnQueue(tasks, running, idle, tasks[idle].level);
      assert After(running, currentLevel, false)[currentLevel] != [];
      var task := RotateCurrentRunQueue(false);
    }

    /** What SleepTask, Wakeup and ChangeLevelRunning need and keep. */
    ghost predicate Runs()
      reads this`tasks, this`running, this`currentLevel, this`levelChanged
    {
      && Queued(tasks, running) && Scheduled(running, currentLevel, levelChanged)
      && idle in tasks && tasks[idle].running
    }

    /** An awake task leaves its queue; when it is the current one, another takes over. */
    method SleepTask(task: nat)
      requires Runs() && task in tasks && task != idle
      modifies this`tasks, this`running, this`currentLevel, this`levelChanged
      ensures Runs() && tasks == old(tasks)[task := old(tasks[task]).(running := false)]
      ensures old(tasks[task].running) ==>
        && running == old(running)[old(tasks[task].level) := Without(old(running[tasks[task].level]), task)]
        && TakenOut(old(running[tasks[task].level]), running[old(tasks[task].level)], task)
      ensures !old(tasks[task].running) ==> running == old(running)
      ensures old(tasks[task].running) && task == old(CurrentTask()) ==> !levelChanged && HighestFrom(running, currentLevel)
      ensures !old(tasks[task].running) || task != old(CurrentTask()) ==> currentLevel == old(currentLevel) && levelChanged == old(levelChanged)
    {
      if !tasks[task].running {
        assert tasks == tasks[task := tasks[task].(running := false)];
        return;
      }
      hide Queued, Without, HighestFrom, TakenOut;
      SleepQueued(tasks, running, task);
      WithoutTakes(tasks, running, task);
      ghost var l := tasks[task].level;
      OnlyInOwnQueue(tasks, running, task, currentLevel);
      if task == running[currentLevel][0] {
        FrontLevel(tasks, running, currentLevel);
        WithoutFront(running[currentLevel]);
        IdleStays(tasks, running, currentLevel, idle);
        tasks := tasks[task := tasks[task].(running := false)];
        var t := RotateCurrentRunQueue(true);
        return;
      }
      TakeScheduled(running, currentLevel, levelChanged, tasks[task].level, task);
      tasks := tasks[task := tasks[task].(running := false)];
      running := running[tasks[task].level := Without(running[tasks[task].level], task)];
    }

    /** Another task than the current one goes behind all others of its new level. */
    method ChangeLevelOther(task: nat, level: nat)
      requires Runs() && task in tasks && tasks[task].running && level <= MAX_LEVEL
      requires level != tasks[task].level && task != CurrentTask()
      modifies this`tasks, this`running, this`levelChanged
      ensures Runs() && tasks == old(tasks)[task := old(tasks[task]).(level := level)]
      ensures Replaced(old(running), running, old(tasks[task].level), level, task, false)
      ensures levelChanged == (old(levelChanged) || level > currentLevel) && CurrentTask() == old(CurrentTask())
    {
      hide Queued, Scheduled, Without, HighestFrom, Replaced;
      SchedFacts(running, currentLevel, levelChanged);
      MoveQueued(tasks, running, task, level, false);
      MovedReplaces(tasks, running, task, level, false);
      TakeScheduled(running, currentLevel, levelChanged, tasks[task].level, task);
      running := running[tasks[task].level := Without(running[tasks[task].level], task)];
      AddScheduled(running, currentLevel, levelChanged, level, task);
      running := running[level := running[level] + [task]];
      tasks := tasks[task := tasks[task].(level := level)];
      if level > currentLevel {
        levelChanged := true;
      }
    }

    /** Puts an awake task on another level. */
    method ChangeLevelRunning(task: nat, level: int)
      requires Runs() && task in tasks && tasks[task].running && level <= MAX_LEVEL
      modifies this`tasks, this`running, this`currentLevel, this`levelChanged
      ensures Runs()
      ensures level < 0 || level == old(tasks[task].level) ==>
        tasks == old(tasks) && running == old(running) && currentLevel == old(currentLevel) && levelChanged == old(levelChanged)
      ensures level >= 0 ==> tasks == old(tasks)[task := old(tasks[task]).(level := level)]
      ensures level >= 0 && level != old(tasks[task].level) ==>
        && Replaced(old(running), running, old(tasks[task].level), level, task, task == old(CurrentTask()))
        && currentLevel == (if task == old(CurrentTask()) then level else old(currentLevel))
        && levelChanged == (old(levelChanged) || if task == old(CurrentTask()) then level < old(currentLevel) else level > old(currentLevel))
      ensures CurrentTask() == old(CurrentTask())
    {
      if level < 0 || level == tasks[task].level {
        assert tasks == tasks[task := tasks[task].(level := tasks[task].level)];
        return;
      }
      hide Queued, Scheduled, Without, HighestFrom, Replaced;
      SchedFacts(running, currentLevel, levelChanged);
      var current := running[currentLevel][0];
      FrontLevel(tasks, running, currentLevel);
      if task != current {
        ChangeLevelOther(task, level);
        return;
      }
      MoveQueued(tasks, running, task, level, true);
      MovedReplaces(tasks, running, task, level, true);
      WithoutFront(running[currentLevel]);
      CarryScheduled(running, currentLevel, levelChanged, level);
      running := running[currentLevel := running[currentLevel][1..]];
      running := running[level := [task] + running[level]];
      tasks := tasks[task := tasks[task].(level := level)];
      if level >= currentLevel {
        currentLevel := level;
      } else {
        currentLevel := level;
        levelChanged := true;
      }
    }

    /** Wakes a task, at its own level or another; an awake one changes level. */
    method Wake(task: nat, level: int)
      requires Runs() && task in tasks && level <= MAX_LEVEL
      modifies this`tasks, this`running, this`currentLevel, this`levelChanged
      ensures Runs()
      ensures tasks == old(tasks)[task := old(tasks[task]).(running := true, level := if level < 0 then old(tasks[task].level) else level)]
      ensures CurrentTask() == old(CurrentTask())
      ensures !old(tasks[task].running) ==>
        && currentLevel == old(currentLevel)
        && var l := tasks[task].level; running == old(running)[l := old(running)[l] + [task]]
    {
      if tasks[task].running {
        ChangeLevelRunning(task, level);
        return;
      }
      var l := if level < 0 then tasks[task].level else level;
      hide Queued, Scheduled, HighestFrom;
      SchedFacts(running, currentLevel, levelChanged);
      WakeQueued(tasks, running, task, l);
      AddScheduled(running, currentLevel, levelChanged, l, task);
      tasks := tasks[task := tasks[task].(level := l, running := true)];
      running := running[l := running[l] + [task]];
      if l > currentLevel {
        levelChanged := true;
      }
    }

    /** Puts the task with this number to sleep; fails when there is none. An awake task that
        waits for another goes to sleep only in WaitFinish. */
    method Sleep(id: nat) returns (found: bool)
      requires Valid() && id != idle && (id in waiting ==> !tasks[id].running)
      modifies this`tasks, this`running, this`currentLevel, this`levelChanged, this`receiving
      ensures Valid() && found == (id in old(tasks))
      ensures tasks == if found then old(tasks)[id := old(tasks[id]).(running := false)] else old(tasks)
      ensures found && old(tasks[id].running) && id == old(CurrentTask()) ==> !levelChanged && HighestFrom(running, currentLevel)
      ensures !found || !old(tasks[id].running) || id != old(CurrentTask()) ==> CurrentTask() == old(CurrentTask())
    {
      hide Queued, Scheduled, HighestFrom, WaitsKept;
      SchedFacts(running, currentLevel, levelChanged);
      found := id in tasks;
      if found {
        WaitsOther(tasks, finishTasks, finishWaiter, waiting, overtaken, id);
        if tasks[id].running {
          receiving := receiving - {id};
        }
        SleepTask(id);
      }
    }

    /** Wakes the task with this number; fails when there is none. */
    method Wakeup(id: nat, level: int) returns (found: bool)
      requires Valid() && level <= MAX_LEVEL
      modifies this`tasks, this`running, this`currentLevel, this`levelChanged
      ensures Valid() && found == (id in old(tasks)) && CurrentTask() == old(CurrentTask())
      ensures tasks == if !found then old(tasks)
        else old(tasks)[id := old(tasks[id]).(running := true, level := if level < 0 then old(tasks[id].level) else level)]
    {
      hide Queued, Scheduled, HighestFrom;
      found := id in tasks;
      if found {
        Wake(id, level);
      }
    }

    /** Puts a message behind the others of a task and wakes it. */
    method SendMessage(id: nat, msg: Message) returns (found: bool)
      requires Valid()
      modifies this`tasks, this`running, this`currentLevel, this`levelChanged
      ensures Valid() && found == (id in old(tasks)) && CurrentTask() == old(CurrentTask())
      ensures tasks == if !found then old(tasks)
        else old(tasks)[id := old(tasks[id]).(running := true, msgs := old(tasks[id].msgs) + [msg])]
    {
      hide Queued, Scheduled, HighestFrom;
      found := id in tasks;
      if found {
        MessagesQueued(tasks, running, id, tasks[id].msgs + [msg]);
        tasks := tasks[id := tasks[id].(msgs := tasks[id].msgs + [msg])];
        Wake(id, -1);
      }
    }

    /** One round of the current task's receive loop: its first message, or sleep. */
    method ReceiveOrSleep() returns (got: bool, msg: Message)
      requires Valid() && CurrentTask() in tasks && CurrentTask() != idle && CurrentTask() !in waiting
      modifies this`tasks, this`running, this`currentLevel, this`levelChanged, this`receiving
      ensures Valid()
      ensures var t := old(CurrentTask());
        && got == (old(tasks[t].msgs) != [])
        && (got ==> msg == old(tasks[t].msgs)[0] && tasks == old(tasks)[t := old(tasks[t]).(msgs := old(tasks[t].msgs)[1..])])
        && (got ==> CurrentTask() == t && receiving == old(receiving) - {t})
        && (!got ==> tasks == old(tasks)[t := old(tasks[t]).(running := false)] && receiving == old(receiving) + {t})
        && (!got ==> !levelChanged && HighestFrom(running, currentLevel))
    {
      hide Queued, Scheduled, HighestFrom, WaitsKept;
      SchedFacts(running, currentLevel, levelChanged);
      var t := CurrentTask();
      FrontLevel(tasks, running, currentLevel);
      if tasks[t].msgs == [] {
        WaitsOther(tasks, finishTasks, finishWaiter, waiting, overtaken, t);
        receiving := receiving + {t};
        SleepTask(t);
        return false, Other(0);
      }
      msg := tasks[t].msgs[0];
      receiving := receiving - {t};
      MessagesQueued(tasks, running, t, tasks[t].msgs[1..]);
      WaitsAwake(tasks, tasks[t := tasks[t].(msgs := tasks[t].msgs[1..])], finishTasks, finishWaiter, waiting, overtaken);
      tasks := tasks[t := tasks[t].(msgs := tasks[t].msgs[1..])];
      got := true;
    }

    /** The current task leaves its queue and the list of tasks. */
    method Leave() returns (task: nat)
      requires Runs() && CurrentTask() != idle
      modifies this`tasks, this`running, this`currentLevel, this`levelChanged
      ensures Runs() && task == old(CurrentTask()) && tasks == old(tasks) - {task}
    {
      hide Queued, Scheduled, HighestFrom;
      SchedFacts(running, currentLevel, levelChanged);
      CurrentLeaves(tasks, running, currentLevel, idle);
      task := RotateCurrentRunQueue(true);
      tasks := tasks - {task};
    }

    /** The current task ends. Its exit code is kept, and of the tasks that sleep waiting for
        it exactly the last one that went to sleep is woken. */
    method Finish(exitCode: int)
      requires Valid() && CurrentTask() in tasks && CurrentTask() != idle && CurrentTask() !in waiting
      modifies this`tasks, this`running, this`currentLevel, this`levelChanged, this`finishTasks, this`finishWaiter, this`receiving
      ensures Valid() && var t := old(CurrentTask());
        && finishTasks == old(finishTasks)[t := exitCode] && finishWaiter == old(finishWaiter) - {t}
        && Left(old(tasks), tasks, old(finishWaiter), t) && LastWoken(old(tasks), tasks, waiting, overtaken, t)
    {
      hide Queued, Scheduled, HighestFrom, WaitsKept, ReceivesKept, IdsKept, Left, Wakes, LastWoken;
      SchedFacts(running, currentLevel, levelChanged);
      ghost var before, waiters := tasks, finishWaiter;
      WaiterStays(tasks, finishTasks, finishWaiter, waiting, overtaken, CurrentTask());
      var taskId := Leave();
      receiving := receiving - {taskId};
      if taskId in finishWaiter {
        var waiter := finishWaiter[taskId];
        finishWaiter := finishWaiter - {taskId};
        Wake(waiter, -1);
      } else {
        assert finishWaiter == waiters - {taskId};
      }
      OneLeft(before, tasks, waiters, taskId);
      LeftKept(before, tasks, finishTasks, waiters, waiting, overtaken, old(receiving), latestId, taskId, exitCode);
      finishTasks := finishTasks[taskId := exitCode];
    }

    /** A task waits here for a task that another one is to be woken for. */
    predicate SecondWait(step: Step)
      requires Valid()
      reads this
    {
      step.Wait? && step.id in finishWaiter && finishWaiter[step.id] != CurrentTask()
    }

    /** One round of the loop in which the current task waits for another to finish: takes
        its exit code, or sleeps and is now the one that will be woken. */
    method WaitFinish(taskId: nat) returns (done: bool, exitCode: int)
      requires Valid() && CurrentTask() in tasks && CurrentTask() != idle && taskId != CurrentTask()
      requires CurrentTask() in waiting ==> waiting[CurrentTask()] == taskId
      modifies this`tasks, this`running, this`currentLevel, this`levelChanged, this`finishTasks, this`finishWaiter, this`waiting, this`receiving, this`overtaken
      ensures Valid() && var t := old(CurrentTask());
        && done == (taskId in old(finishTasks))
        && (done ==> exitCode == old(finishTasks)[taskId] && finishTasks == old(finishTasks) - {taskId})
        && (done ==> tasks == old(tasks) && waiting == old(waiting) - {t} && CurrentTask() == t)
        && (done ==> finishWaiter == old(finishWaiter) && overtaken == old(overtaken) - {t})
        && (!done ==> tasks == old(tasks)[t := old(tasks[t]).(running := false)])
        && (!done ==> waiting == old(waiting)[t := taskId] && finishTasks == old(finishTasks))
        && (!done ==> finishWaiter == old(finishWaiter)[taskId := t] && overtaken == Overtaken(old(overtaken), old(finishWaiter), t, taskId))
        && (!done ==> !levelChanged && HighestFrom(running, currentLevel))
    {
      hide Queued, Scheduled, HighestFrom, WaitsKept, Overtaken;
      SchedFacts(running, currentLevel, levelChanged);
      var t := CurrentTask();
      FrontLevel(tasks, running, currentLevel);
      if taskId in finishTasks {
        exitCode := finishTasks[taskId];
        WaitsDone(tasks, finishTasks, finishWaiter, waiting, overtaken, t, taskId);
        finishTasks := finishTasks - {taskId};
        waiting := waiting - {t};
        overtaken := overtaken - {t};
        return true, exitCode;
      }
      WaitsSleep(tasks, finishTasks, finishWaiter, waiting, overtaken, t, taskId);
      overtaken := Overtaken(overtaken, finishWaiter, t, taskId);
      finishWaiter := finishWaiter[taskId := t];
      waiting := waiting[t := taskId];
      receiving := receiving - {t};
      SleepTask(t);
      return false, 0;
    }

    /** n undisturbed ticks: the tasks of the current level take turns. */
    method Ticks(n: nat)
      requires Valid() && !levelChanged
      modifies this`running, this`currentLevel, this`levelChanged
      ensures Valid() && !levelChanged && currentLevel == old(currentLevel)
      ensures running == old(running)[currentLevel := Turned(old(running[currentLevel]), n)]
    {
      var k := 0;
      while k < n
        invariant k <= n && Valid() && !levelChanged && currentLevel == old(currentLevel)
        invariant running == old(running)[currentLevel := running[currentLevel]]
        invariant Turned(running[currentLevel], n - k) == Turned(old(running[currentLevel]), n)
      {
        SwitchTask();
        k := k + 1;
      }
    }

    /** A step the kernel may take now: the waiting and the idle task do only what they may. */
    predicate Allowed(step: Step)
      requires Valid()
      reads this
    {
      match step
      case Tick => true
      case Create => true
      case Wake(id, level) => level <= MAX_LEVEL
      case Send(id, msg) => true
      case Rest(id) => id != idle && (id in waiting ==> !tasks[id].running)
      case Receive => CurrentTask() != idle && CurrentTask() !in waiting
      case End(code) => CurrentTask() != idle && CurrentTask() !in waiting
      case Wait(id) =>
        && CurrentTask() != idle && id != CurrentTask()
        && (CurrentTask() in waiting ==> waiting[CurrentTask()] == id)
    }

    /** The steps that neither give nor take an exit code. */
    method DoOther(step: Step)
      requires Valid() && Allowed(step) && !step.End? && !step.Wait?
      modifies this`tasks, this`latestId, this`running, this`currentLevel, this`levelChanged, this`receiving
      ensures Valid() && MessagesAfter(step, old(CurrentTask()), old(tasks), tasks)
      ensures old(latestId) <= latestId && forall t :: t in tasks ==> t in old(tasks) || t > old(latestId)
    {
      hide Queued, Scheduled, HighestFrom, WaitsKept, ReceivesKept, IdsKept;
      SchedFacts(running, currentLevel, levelChanged);
      FrontLevel(tasks, running, currentLevel);
      match step
      case Tick => SwitchTask();
      case Create => var id := NewTask();
      case Wake(id, level) => var found := Wakeup(id, level);
      case Send(id, msg) => var found := SendMessage(id, msg);
      case Rest(id) => var found := Sleep(id);
      case Receive => var got, msg := ReceiveOrSleep();
    }

    /** Finish, as a step. */
    method DoEnd(code: int)
      requires Valid() && CurrentTask() in tasks && CurrentTask() != idle && CurrentTask() !in waiting
      modifies this`tasks, this`running, this`currentLevel, this`levelChanged, this`finishTasks, this`finishWaiter, this`receiving
      ensures Valid() && finishTasks == old(finishTasks)[old(CurrentTask()) := code]
      ensures MessagesAfter(End(code), old(CurrentTask()), old(tasks), tasks) && tasks.Keys == old(tasks).Keys - {old(CurrentTask())}
    {
      hide Queued, Scheduled, HighestFrom, WaitsKept, ReceivesKept, IdsKept, Left, MessagesAfter, LastWoken;
      SchedFacts(running, currentLevel, levelChanged);
      ghost var before, current, waiters := tasks, CurrentTask(), finishWaiter;
      Finish(code);
      LeftMessages(End(code), current, before, tasks, waiters);
    }

    /** One step; ended and taken are the exit codes given and taken by it. */
    method Do(step: Step) returns (ended: map<nat, int>, taken: map<nat, int>)
      requires Valid() && Allowed(step)
      modifies this
      ensures Valid()
      ensures MessagesAfter(step, old(CurrentTask()), old(tasks), tasks)
      ensures CodesAfter(old(tasks), tasks, old(latestId), latestId, old(finishTasks), finishTasks, ended, taken)
      ensures !old(SecondWait(step)) ==> overtaken <= old(overtaken)
      ensures old(SecondWait(step)) ==> overtaken == old(overtaken) + {old(finishWaiter[step.id])} - {old(CurrentTask())}
    {
      hide Queued, Scheduled, HighestFrom, WaitsKept, ReceivesKept, IdsKept, Left, CodesAfter;
      ended, taken := map[], map[];
      SchedFacts(running, currentLevel, levelChanged);
      FrontLevel(tasks, running, currentLevel);
      ghost var before, latest, finish, current := tasks, latestId, finishTasks, CurrentTask();
      match step
      case End(code) =>
        ended := map[CurrentTask() := code];
        DoEnd(code);
        GaveCode(before, tasks, latest, finish, current, code);
      case Wait(id) =>
        WaiterStays(tasks, finishTasks, finishWaiter, waiting, overtaken, id);
        var done, code := WaitFinish(id);
        if done {
          taken := map[id := code];
          TookCode(before, latest, finish, id);
        } else {
          NoCodes(before, tasks, latest, latestId, finish);
        }
      case _ =>
        DoOther(step);
        NoCodes(before, tasks, latest, latestId, finish);
    }

    /** Any run: of the exit codes given, each is kept for its waiter or has been taken once,
        as it was given. */
    method Run(steps: seq<Step>) returns (ended: map<nat, int>, taken: map<nat, int>)
      requires Valid() && finishTasks == map[]
      modifies this
      ensures Valid()
      ensures taken.Keys !! finishTasks.Keys && ended == taken + finishTasks
    {
      hide Queued, Scheduled, HighestFrom, WaitsKept, ReceivesKept, IdsKept, Allowed;
      ended, taken := map[], map[];
      var i := 0;
      while i < |steps|
        invariant i <= |steps| && Valid()
        invariant taken.Keys !! finishTasks.Keys && ended == taken + finishTasks
        invariant forall t :: t in taken ==> t <= latestId && t !in tasks
      {
        if Allowed(steps[i]) {
          ghost var before, finish, latest := tasks, finishTasks, latestId;
          var gave, took := Do(steps[i]);
          CodesKept(before, finish, latest, ended, taken, gave, took);
          ended := ended + gave;
          taken := taken + took;
        }
        i := i + 1;
      }
    }
  }

  /** The queues after the current task is taken off, or moved to the end. */
  function After(running: seq<seq<nat>>, current: nat, sleep: bool): (r: seq<seq<nat>>)
    requires |running| == MAX_LEVEL + 1 && current <= MAX_LEVEL && running[current] != []
    ensures |r| == |running|
  {
    running[current := if sleep then running[current][1..] else running[current][1..] + [running[current][0]]]
  }

  /** With no other awake task on its level or above, a task is the current one. */
  lemma OnlyHighest(m: TaskManager, t: nat)
    requires m.Valid() && t in m.tasks && m.tasks[t].running && !m.levelChanged
    requires forall u :: u in m.tasks && m.tasks[u].running && u != t ==> m.tasks[u].level < m.tasks[t].level
    ensures |m.running| == MAX_LEVEL + 1 && m.currentLevel <= MAX_LEVEL && m.running[m.currentLevel] != []
    ensures m.CurrentTask() == t
  {
    hide WaitsKept, ReceivesKept, IdsKept;
    OnlyInOwnQueue(m.tasks, m.running, t, m.tasks[t].level);
    FrontLevel(m.tasks, m.running, m.currentLevel);
  }

  lemma CurrentFacts(m: TaskManager)
    requires m.Valid()
    ensures |m.running| == MAX_LEVEL + 1 && m.currentLevel <= MAX_LEVEL && m.running[m.currentLevel] != []
  {
  }

  /** Two new tasks are awake beside the first one. */
  method ThreeTasks() returns (m: TaskManager, first: nat, second: nat, ended: nat)
    ensures fresh(m) && m.Valid() && first != second && first != ended && second != ended && m.idle !in {first, second, ended}
    ensures m.tasks == map[first := Task(MAX_LEVEL, true, []), m.idle := Task(0, true, []), ended := Task(1, true, []), second := Task(2, true, [])]
    ensures m.finishTasks == map[] && m.finishWaiter == m.waiting == map[] && m.overtaken == {}
    ensures |m.running| == MAX_LEVEL + 1 && m.currentLevel <= MAX_LEVEL && m.running[m.currentLevel] != [] && m.CurrentTask() == first
  {
    hide Queued, Scheduled, HighestFrom, WaitsKept, ReceivesKept, IdsKept, TaskManager.Valid;
    m := new TaskManager();
    first := 1;
    CurrentFacts(m);
    ended := m.NewTask();
    second := m.NewTask();
    var found := m.Wakeup(ended, 1);
    found := m.Wakeup(second, 2);
    CurrentFacts(m);
  }

  /** Two tasks go to sleep waiting for a third. */
  method TwoWaiters() returns (m: TaskManager, first: nat, second: nat, ended: nat)
    ensures fresh(m) && m.Valid() && !m.levelChanged && m.idle !in {first, second, ended}
    ensures first != second && first != ended && second != ended
    ensures m.tasks == map[first := Task(MAX_LEVEL, false, []), m.idle := Task(0, true, []), ended := Task(1, true, []), second := Task(2, false, [])]
    ensures m.waiting == map[first := ended, second := ended] && m.finishWaiter == map[ended := second] && m.overtaken == {first}
    ensures m.finishTasks == map[]
  {
    hide Queued, Scheduled, HighestFrom, WaitsKept, ReceivesKept, IdsKept, TaskManager.Valid;
    m, first, second, ended := ThreeTasks();
    var done, exitCode := m.WaitFinish(ended);
    OnlyHighest(m, second);
    done, exitCode := m.WaitFinish(ended);
  }

  /** The end of the third task wakes the second waiter, which takes the exit code; the first
      one sleeps on, though the task it waits for and its exit code are gone. */
  method TwoWaitersExample(code: int) returns (m: TaskManager, first: nat, ended: nat, taken: int)
    ensures fresh(m) && m.Valid() && taken == code && first in m.tasks && !m.tasks[first].running
    ensures first in m.waiting && m.waiting[first] == ended && ended !in m.tasks && ended !in m.finishTasks
    ensures ended !in m.finishWaiter && first in m.overtaken
  {
    hide Queued, Scheduled, HighestFrom, WaitsKept, ReceivesKept, IdsKept, TaskManager.Valid;
    var second;
    m, first, second, ended := TwoWaiters();
    OnlyHighest(m, ended);
    m.Finish(code);
    m.SwitchTask();
    OnlyHighest(m, second);
    var done;
    done, taken := m.WaitFinish(ended);
  }
}
