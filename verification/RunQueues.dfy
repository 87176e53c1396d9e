/** The run queues of kernel/app/task.cpp as values: what every step keeps. */
module RunQueues {

  const MAX_LEVEL: nat := 3

  datatype Message =
    | Pipe(data: seq<nat>)
    | Other(kind: nat)

  datatype Task = Task(level: nat, running: bool, msgs: seq<Message>)

  predicate Distinct(q: seq<nat>) {
    forall i, j :: 0 <= i < j < |q| ==> q[i] != q[j]
  }

  /** A queue holds awake tasks of its own level, each once. */
  predicate QueueOk(tasks: map<nat, Task>, q: seq<nat>, level: nat) {
    Distinct(q) && forall t :: t in q ==> t in tasks && tasks[t].running && tasks[t].level == level
  }

  /** Each awake task is in the queue of its level and in no other; sleeping tasks are in none. */
  predicate Queued(tasks: map<nat, Task>, running: seq<seq<nat>>) {
    && |running| == MAX_LEVEL + 1
    && (forall level: nat :: level <= MAX_LEVEL ==> QueueOk(tasks, running[level], level))
    && (forall t :: t in tasks ==> tasks[t].level <= MAX_LEVEL && (tasks[t].running ==> t in running[tasks[t].level]))
  }

  /** The current queue has a task, and a waiting higher level is marked. */
  predicate Scheduled(running: seq<seq<nat>>, current: nat, changed: bool) {
    && |running| == MAX_LEVEL + 1 && current <= MAX_LEVEL && running[current] != []
    && (!changed ==> HighestFrom(running, current))
  }

  /** No level above this one has a task. */
  predicate HighestFrom(running: seq<seq<nat>>, level: nat) {
    forall k: nat :: level < k < |running| ==> running[k] == []
  }

  lemma OnlyInOwnQueue(tasks: map<nat, Task>, running: seq<seq<nat>>, t: nat, level: nat)
    requires Queued(tasks, running) && level <= MAX_LEVEL
    ensures t in running[level] <==> t in tasks && tasks[t].running && tasks[t].level == level
  {
    assert QueueOk(tasks, running[level], level);
  }

  // ---- Taking a task out of a queue

  function Without(q: seq<nat>, t: nat): (r: seq<nat>)
    ensures forall u :: u in r <==> u in q && u != t
  {
    if q == [] then []
    else if q[0] == t then Without(q[1..], t)
    else
      assert forall u :: u in q <==> u == q[0] || u in q[1..];
      [q[0]] + Without(q[1..], t)
  }

  lemma {:induction false} WithoutOther(q: seq<nat>, t: nat)
    requires t !in q
    ensures Without(q, t) == q
  {
    if q != [] {
      WithoutOther(q[1..], t);
    }
  }

  lemma {:induction false} WithoutDistinct(q: seq<nat>, t: nat)
    requires Distinct(q)
    ensures Distinct(Without(q, t))
  {
    if q != [] {
      WithoutDistinct(q[1..], t);
      forall i | 0 <= i < |Without(q[1..], t)|
        ensures Without(q[1..], t)[i] != q[0]
      {
        assert Without(q[1..], t)[i] in q[1..];
      }
    }
  }

  /** Taking out the front is taking the rest. */
  lemma WithoutFront(q: seq<nat>)
    requires q != [] && Distinct(q)
    ensures Without(q, q[0]) == q[1..]
  {
    WithoutOther(q[1..], q[0]);
  }

  /** The second queue is the first without task t, in the same order. */
  ghost predicate TakenOut(q: seq<nat>, r: seq<nat>, t: nat) {
    exists k :: 0 <= k < |q| && q[k] == t && r == q[..k] + q[k + 1..]
  }

  lemma {:induction false} WithoutAt(q: seq<nat>, k: nat)
    requires Distinct(q) && k < |q|
    ensures Without(q, q[k]) == q[..k] + q[k + 1..]
  {
    if k == 0 {
      WithoutFront(q);
    } else {
      WithoutAt(q[1..], k - 1);
      assert [q[0]] + q[1..][..k - 1] == q[..k];
    }
  }

  lemma WithoutTakes(tasks: map<nat, Task>, running: seq<seq<nat>>, t: nat)
    requires Queued(tasks, running) && t in tasks && tasks[t].running
    ensures tasks[t].level <= MAX_LEVEL
    ensures TakenOut(running[tasks[t].level], Without(running[tasks[t].level], t), t)
  {
    var q := running[tasks[t].level];
    assert QueueOk(tasks, q, tasks[t].level);
    var k :| 0 <= k < |q| && q[k] == t;
    WithoutAt(q, k);
  }

  /** Tasks other than the front stay behind it. */
  lemma WithoutKeepsFront(q: seq<nat>, t: nat)
    requires q != [] && q[0] != t
    ensures Without(q, t) != [] && Without(q, t)[0] == q[0]
  {
  }

  // ---- Steps

  /** A task goes to sleep. */
  lemma SleepQueued(tasks: map<nat, Task>, running: seq<seq<nat>>, t: nat)
    requires Queued(tasks, running) && t in tasks && tasks[t].running
    ensures tasks[t].level <= MAX_LEVEL
    ensures Queued(tasks[t := tasks[t].(running := false)], running[tasks[t].level := Without(running[tasks[t].level], t)])
  {
    var l := tasks[t].level;
    var tasks', running' := tasks[t := tasks[t].(running := false)], running[l := Without(running[l], t)];
    forall level: nat | level <= MAX_LEVEL
      ensures QueueOk(tasks', running'[level], level)
    {
      assert QueueOk(tasks, running[level], level);
      WithoutDistinct(running[level], t);
      OnlyInOwnQueue(tasks, running, t, level);
    }
  }

  /** A task leaves for good. */
  lemma FinishQueued(tasks: map<nat, Task>, running: seq<seq<nat>>, t: nat)
    requires Queued(tasks, running) && t in tasks && tasks[t].running
    ensures tasks[t].level <= MAX_LEVEL
    ensures Queued(tasks - {t}, running[tasks[t].level := Without(running[tasks[t].level], t)])
  {
    var l := tasks[t].level;
    var tasks', running' := tasks - {t}, running[l := Without(running[l], t)];
    forall level: nat | level <= MAX_LEVEL
      ensures QueueOk(tasks', running'[level], level)
    {
      assert QueueOk(tasks, running[level], level);
      WithoutDistinct(running[level], t);
      OnlyInOwnQueue(tasks, running, t, level);
    }
  }

  /** A sleeping task wakes at a level, last in its queue. */
  lemma WakeQueued(tasks: map<nat, Task>, running: seq<seq<nat>>, t: nat, level: nat)
    requires Queued(tasks, running) && t in tasks && !tasks[t].running && level <= MAX_LEVEL
    ensures Queued(tasks[t := tasks[t].(level := level, running := true)], running[level := running[level] + [t]])
  {
    var tasks' := tasks[t := tasks[t].(level := level, running := true)];
    var running' := running[level := running[level] + [t]];
    forall k: nat | k <= MAX_LEVEL
      ensures QueueOk(tasks', running'[k], k)
    {
      assert QueueOk(tasks, running[k], k);
    }
    assert t in running'[level];
  }

  /** The queues when task t goes from one to another, to its end or to its front. */
  function Moved(running: seq<seq<nat>>, from: nat, to: nat, t: nat, first: bool): seq<seq<nat>>
    requires |running| == MAX_LEVEL + 1 && from <= MAX_LEVEL && to <= MAX_LEVEL
  {
    var out := running[from := Without(running[from], t)];
    out[to := if first then [t] + out[to] else out[to] + [t]]
  }

  /** Task t has left one queue, whose order stays, and stands behind all others of another, or
      before them; every other queue is as it was. */
  ghost predicate Replaced(running: seq<seq<nat>>, now: seq<seq<nat>>, from: nat, to: nat, t: nat, first: bool) {
    && |now| == |running| == MAX_LEVEL + 1 && from <= MAX_LEVEL && to <= MAX_LEVEL
    && TakenOut(running[from], now[from], t)
    && now[to] == (if first then [t] + running[to] else running[to] + [t])
    && forall k: nat :: k <= MAX_LEVEL && k != from && k != to ==> now[k] == running[k]
  }

  lemma MovedReplaces(tasks: map<nat, Task>, running: seq<seq<nat>>, t: nat, level: nat, first: bool)
    requires Queued(tasks, running) && t in tasks && tasks[t].running && level <= MAX_LEVEL && level != tasks[t].level
    ensures tasks[t].level <= MAX_LEVEL
    ensures Replaced(running, Moved(running, tasks[t].level, level, t, first), tasks[t].level, level, t, first)
  {
    WithoutTakes(tasks, running, t);
  }

  /** An awake task changes level, last or first in the new queue. */
  lemma MoveQueued(tasks: map<nat, Task>, running: seq<seq<nat>>, t: nat, level: nat, first: bool)
    requires Queued(tasks, running) && t in tasks && tasks[t].running && level <= MAX_LEVEL && level != tasks[t].level
    ensures tasks[t].level <= MAX_LEVEL
    ensures Queued(tasks[t := tasks[t].(level := level)], Moved(running, tasks[t].level, level, t, first))
  {
    SleepQueued(tasks, running, t);
    var l := tasks[t].level;
    var asleep, out := tasks[t := tasks[t].(running := false)], running[l := Without(running[l], t)];
    var tasks' := tasks[t := tasks[t].(level := level)];
    var running' := out[level := if first then [t] + out[level] else out[level] + [t]];
    forall k: nat | k <= MAX_LEVEL
      ensures QueueOk(tasks', running'[k], k)
    {
      assert QueueOk(asleep, out[k], k);
    }
    assert t in running'[level];
  }

  /** The front of a queue goes to its end. */
  lemma TurnQueued(tasks: map<nat, Task>, running: seq<seq<nat>>, level: nat)
    requires Queued(tasks, running) && level <= MAX_LEVEL && running[level] != []
    ensures Queued(tasks, running[level := running[level][1..] + [running[level][0]]])
  {
    var q := running[level];
    var q' := q[1..] + [q[0]];
    assert QueueOk(tasks, q, level);
    assert q == [q[0]] + q[1..];
    assert forall t :: t in q' <==> t in q;
    var running' := running[level := q'];
    forall k: nat | k <= MAX_LEVEL
      ensures QueueOk(tasks, running'[k], k)
    {
      assert QueueOk(tasks, running[k], k);
    }
  }

  /** Nothing about the queues depends on messages. */
  lemma MessagesQueued(tasks: map<nat, Task>, running: seq<seq<nat>>, t: nat, msgs: seq<Message>)
    requires Queued(tasks, running) && t in tasks
    ensures Queued(tasks[t := tasks[t].(msgs := msgs)], running)
  {
    forall k: nat | k <= MAX_LEVEL
      ensures QueueOk(tasks[t := tasks[t].(msgs := msgs)], running[k], k)
    {
      assert QueueOk(tasks, running[k], k);
    }
  }

  lemma NewQueued(tasks: map<nat, Task>, running: seq<seq<nat>>, t: nat, level: nat)
    requires Queued(tasks, running) && t !in tasks && level <= MAX_LEVEL
    ensures Queued(tasks[t := Task(level, false, [])], running)
  {
    forall k: nat | k <= MAX_LEVEL
      ensures QueueOk(tasks[t := Task(level, false, [])], running[k], k)
    {
      assert QueueOk(tasks, running[k], k);
    }
  }

  /** Taking out a task that is not current keeps the current one. */
  lemma TakeScheduled(running: seq<seq<nat>>, current: nat, changed: bool, level: nat, t: nat)
    requires Scheduled(running, current, changed) && level <= MAX_LEVEL && running[current][0] != t
    ensures var out := running[level := Without(running[level], t)];
      Scheduled(out, current, changed) && out[current][0] == running[current][0]
  {
    WithoutKeepsFront(running[current], t);
  }

  /** So does adding one at the end of a queue, if a higher level is marked. */
  lemma AddScheduled(running: seq<seq<nat>>, current: nat, changed: bool, level: nat, t: nat)
    requires Scheduled(running, current, changed) && level <= MAX_LEVEL
    ensures var more := running[level := running[level] + [t]];
      Scheduled(more, current, changed || level > current) && more[current][0] == running[current][0]
  {
  }

  /** The current task takes the current level along, up or down. */
  lemma CarryScheduled(running: seq<seq<nat>>, current: nat, changed: bool, level: nat)
    requires Scheduled(running, current, changed) && level <= MAX_LEVEL && level != current
    requires Distinct(running[current])
    ensures var t := running[current][0];
      var moved := Moved(running, current, level, t, true);
      Scheduled(moved, level, changed || level < current) && moved[level][0] == t
  {
    WithoutFront(running[current]);
  }

  // ---- Taking turns

  /** A queue after n undisturbed turns. */
  function Turned(q: seq<nat>, n: nat): (r: seq<nat>)
    ensures |r| == |q|
    decreases n
  {
    if n == 0 || q == [] then q else Turned(q[1..] + [q[0]], n - 1)
  }

  /** Before a full round, the queue has turned by n places. */
  lemma {:induction false} TurnedBy(q: seq<nat>, n: nat)
    requires n <= |q|
    ensures Turned(q, n) == q[n..] + q[..n]
    decreases n
  {
    if n > 0 {
      var r := q[1..] + [q[0]];
      TurnedBy(r, n - 1);
      assert r[n - 1..] + r[..n - 1] == q[n..] + q[..n];
    } else {
      assert q[0..] + q[..0] == q;
    }
  }

  /** In a round every task of the level is in front exactly once, in queue order. */
  lemma EachTakesATurn(q: seq<nat>, k: nat)
    requires Distinct(q) && k < |q|
    ensures Turned(q, k)[0] == q[k]
    ensures Turned(q, |q|) == q
    ensures forall j: nat :: j < |q| && Turned(q, j)[0] == q[k] ==> j == k
  {
    TurnedBy(q, k);
    TurnedBy(q, |q|);
    forall j: nat | j < |q| && Turned(q, j)[0] == q[k]
      ensures j == k
    {
      TurnedBy(q, j);
    }
  }
}
