/** Pipes between tasks (kernel/console/terminal.cpp) over the task manager's messages. */
module PipeStream {
  import opened RunQueues
  import opened Scheduler

  const PIPE_DATA: nat := 16

  /** The bytes of the pipe messages, in order. */
  function Flat(msgs: seq<Message>): seq<nat> {
    if msgs == [] then [] else (if msgs[0].Pipe? then msgs[0].data else []) + Flat(msgs[1..])
  }

  /** Every pipe message carries bytes, at most sixteen. */
  predicate Chunks(msgs: seq<Message>) {
    forall m :: m in msgs && m.Pipe? ==> 0 < |m.data| <= PIPE_DATA
  }

  predicate NoPipe(msgs: seq<Message>) {
    forall m :: m in msgs ==> m.Other?
  }

  /** Chunks, then one empty pipe message, then no more pipe messages. */
  predicate Ends(msgs: seq<Message>) {
    msgs != [] &&
    if msgs[0] == Pipe([]) then NoPipe(msgs[1..])
    else Ends(msgs[1..]) && (msgs[0].Pipe? ==> 0 < |msgs[0].data| <= PIPE_DATA)
  }

  lemma {:induction false} FlatAppend(msgs: seq<Message>, m: Message)
    ensures Flat(msgs + [m]) == Flat(msgs) + if m.Pipe? then m.data else []
  {
    if msgs == [] {
      assert (msgs + [m])[1..] == [];
    } else {
      FlatAppend(msgs[1..], m);
      assert (msgs + [m])[1..] == msgs[1..] + [m];
    }
  }

  lemma {:induction false} EndsAppend(msgs: seq<Message>, m: Message)
    ensures Chunks(msgs) && m == Pipe([]) ==> Ends(msgs + [m])
    ensures Ends(msgs) && m.Other? ==> Ends(msgs + [m])
  {
    if msgs != [] {
      EndsAppend(msgs[1..], m);
      assert (msgs + [m])[1..] == msgs[1..] + [m];
    }
  }

  lemma {:induction false} NoPipeFlat(msgs: seq<Message>)
    requires NoPipe(msgs)
    ensures Flat(msgs) == []
  {
    if msgs != [] {
      assert msgs[0] in msgs;
      NoPipeFlat(msgs[1..]);
    }
  }

  /** Nothing is lost, doubled or reordered: what was read, what is left over in the
      descriptor and what is under way make up what was sent. */
  predicate Fifo(got: seq<nat>, left: seq<nat>, msgs: seq<Message>, sent: seq<nat>, finished: bool, closed: bool) {
    && got + left + Flat(msgs) == sent
    && |left| <= PIPE_DATA
    && (if closed then finished && NoPipe(msgs) else if finished then Ends(msgs) else Chunks(msgs))
  }

  lemma SendStep(got: seq<nat>, left: seq<nat>, msgs: seq<Message>, sent: seq<nat>, finished: bool, closed: bool, m: Message)
    requires Fifo(got, left, msgs, sent, finished, closed)
    requires m.Pipe? ==> !finished && |m.data| <= PIPE_DATA
    ensures Fifo(got, left, msgs + [m], sent + (if m.Pipe? then m.data else []), finished || m == Pipe([]), closed)
  {
    FlatAppend(msgs, m);
    EndsAppend(msgs, m);
    if m.Pipe? {
      assert got + left + (Flat(msgs) + m.data) == (got + left + Flat(msgs)) + m.data;
    }
  }

  /** Taking the first message; a pipe message's first bytes are read, the rest is left over. */
  lemma ReceiveStep(got: seq<nat>, msgs: seq<Message>, sent: seq<nat>, finished: bool, n: nat)
    requires Fifo(got, [], msgs, sent, finished, false) && msgs != []
    requires msgs[0].Pipe? ==> n <= |msgs[0].data|
    ensures msgs[0].Other? ==> Fifo(got, [], msgs[1..], sent, finished, false)
    ensures msgs[0] == Pipe([]) ==> Fifo(got, [], msgs[1..], sent, finished, true) && got == sent
    ensures msgs[0].Pipe? && msgs[0].data != [] ==>
      Fifo(got + msgs[0].data[..n], msgs[0].data[n..], msgs[1..], sent, finished, false)
  {
    var rest := msgs[1..];
    assert msgs == [msgs[0]] + rest;
    if msgs[0] == Pipe([]) {
      NoPipeFlat(rest);
    } else if msgs[0].Pipe? {
      var d := msgs[0].data;
      assert got + [] + (d + Flat(rest)) == (got + d[..n]) + d[n..] + Flat(rest);
    }
  }

  /** The closed pipe has delivered everything but its left-over bytes. */
  lemma ClosedDelivered(got: seq<nat>, left: seq<nat>, msgs: seq<Message>, sent: seq<nat>, finished: bool)
    requires Fifo(got, left, msgs, sent, finished, true)
    ensures got + left == sent && finished
  {
    NoPipeFlat(msgs);
  }

  /** Left-over bytes are handed over. */
  lemma LeftTaken(got: seq<nat>, left: seq<nat>, msgs: seq<Message>, sent: seq<nat>, finished: bool, closed: bool, copied: nat)
    requires Fifo(got, left, msgs, sent, finished, closed) && copied <= |left|
    ensures Fifo(got + left[..copied], left[copied..], msgs, sent, finished, closed)
  {
    hide Flat, Ends, Chunks, NoPipe;
    assert left == left[..copied] + left[copied..];
  }

  /** Steps of the rest of the system: nobody else sends pipe messages to the reader, and the
      reader takes messages only by reading and does not end. */
  predicate Apart(step: Step, task: nat, current: nat) {
    && (step.Send? && step.id == task ==> step.msg.Other?)
    && (step.Receive? || step.End? ==> current != task)
  }

  /** Such steps leave the reader's pipe messages alone. */
  lemma ApartKeeps(step: Step, task: nat, current: nat, before: map<nat, Task>, after: map<nat, Task>,
                   got: seq<nat>, left: seq<nat>, sent: seq<nat>, finished: bool, closed: bool)
    requires Apart(step, task, current) && MessagesAfter(step, current, before, after) && task in before
    requires Fifo(got, left, before[task].msgs, sent, finished, closed)
    ensures task in after && Fifo(got, left, after[task].msgs, sent, finished, closed)
  {
    if step.Send? && step.id == task {
      SendStep(got, left, before[task].msgs, sent, finished, closed, step.msg);
      assert sent + [] == sent;
    }
  }

  class PipeDescriptor {
    const manager: TaskManager
    /** The task that reads. */
    const task: nat
    const data: array<nat>
    var len: nat
    var closed: bool
    /** All bytes sent and read so far, and whether the writer has finished. */
    ghost var sent: seq<nat>
    ghost var got: seq<nat>
    ghost var finished: bool

    ghost predicate Valid()
      reads this, manager, data
    {
      && manager.Valid() && task in manager.tasks && task != manager.idle
      && data.Length == PIPE_DATA && len <= PIPE_DATA
      && Fifo(got, data[..len], manager.tasks[task].msgs, sent, finished, closed)
    }

    constructor (manager: TaskManager, task: nat)
      requires manager.Valid() && task in manager.tasks && task != manager.idle
      requires NoPipe(manager.tasks[task].msgs)
      ensures Valid() && this.manager == manager && this.task == task && fresh(data)
      ensures sent == got == [] && !finished && !closed
    {
      this.manager, this.task := manager, task;
      data := new nat[PIPE_DATA];
      len, closed := 0, false;
      sent, got, finished := [], [], false;
      NoPipeFlat(manager.tasks[task].msgs);
    }

    /** One round of Write's loop: at most sixteen of the remaining bytes go to the reader. */
    method WriteRound(buf: seq<nat>, sentBytes: nat) returns (now: nat)
      requires Valid() && !finished && sentBytes < |buf|
      modifies manager, this`sent
      ensures Valid() && now == (if |buf| - sentBytes < 16 then |buf| else sentBytes + 16)
      ensures sent == old(sent) + buf[sentBytes..now]
      ensures manager.tasks[task].running
    {
      hide Fifo, Queued, Scheduled;
      var n := if |buf| - sentBytes < PIPE_DATA then |buf| - sentBytes else PIPE_DATA;
      now := sentBytes + n;
      var msg := Pipe(buf[sentBytes..now]);
      SendStep(got, data[..len], manager.tasks[task].msgs, sent, finished, closed, msg);
      var found := manager.SendMessage(task, msg);
      sent := sent + msg.data;
    }

    /** The end mark. */
    method FinishWrite()
      requires Valid() && !finished
      modifies manager, this`finished
      ensures Valid() && finished && manager.tasks[task].running
    {
      hide Fifo, Queued, Scheduled;
      SendStep(got, data[..len], manager.tasks[task].msgs, sent, finished, closed, Pipe([]));
      assert sent + [] == sent;
      var found := manager.SendMessage(task, Pipe([]));
      finished := true;
    }

    /** Bytes left over from the last message. */
    method ReadLeft(n: nat) returns (buf: seq<nat>)
      requires Valid() && 0 < len
      modifies this`len, this`got, data
      ensures Valid() && |buf| == (if old(len) < n then old(len) else n) && got == old(got) + buf
    {
      hide Queued, Scheduled, HighestFrom, WaitsKept, IdsKept, ReceivesKept, Fifo;
      ghost var left := data[..len];
      var copied := if len < n then len else n;
      buf := data[..copied];
      LeftTaken(got, left, manager.tasks[task].msgs, sent, finished, closed, copied);
      len := len - copied;
      forall i | 0 <= i < len {
        data[i] := data[copied + i];
      }
      assert data[..len] == left[copied..];
      assert buf == left[..copied];
      got := got + buf;
    }

    /** The next message, or sleep when there is none. */
    method ReadMessage(n: nat) returns (done: bool, buf: seq<nat>)
      requires Valid() && manager.CurrentTask() == task && task !in manager.waiting && len == 0 && !closed
      modifies manager, this`len, this`closed, this`got, data
      ensures Valid() && |buf| <= n && got == old(got) + buf
      ensures !done ==> buf == []
      ensures done && buf == [] && n > 0 ==> closed && got == sent
      ensures !done && !manager.tasks[task].running ==> manager.tasks[task].msgs == []
    {
      hide Queued, Scheduled, Flat, Ends, Chunks, NoPipe, Fifo, WaitsKept, IdsKept, ReceivesKept, HighestFrom;
      assert data[..len] == [];
      ghost var msgs := manager.tasks[task].msgs;
      SchedFacts(manager.running, manager.currentLevel, manager.levelChanged);
      FrontLevel(manager.tasks, manager.running, manager.currentLevel);
      var received, msg := manager.ReceiveOrSleep();
      if !received {
        return false, [];
      }
      var copied := if msg.Other? then 0 else if |msg.data| < n then |msg.data| else n;
      ReceiveStep(got, msgs, sent, finished, copied);
      if msg.Other? {
        return false, [];
      }
      if msg.data == [] {
        closed := true;
        return true, [];
      }
      buf := msg.data[..copied];
      len := |msg.data| - copied;
      ChunkSize(got, msgs, sent, finished);
      forall i | 0 <= i < len {
        data[i] := msg.data[copied + i];
      }
      assert data[..len] == msg.data[copied..];
      got := got + buf;
      done := true;
    }

    /** One round of Read by its task: left-over bytes first, nothing after the end mark, and
        else the next message. What has been read is always a prefix of what was sent. */
    method ReadRound(n: nat) returns (done: bool, buf: seq<nat>)
      requires Valid() && manager.CurrentTask() == task && task !in manager.waiting
      modifies manager, this`len, this`closed, this`got, data
      ensures Valid() && |buf| <= n
      ensures got == old(got) + buf && got <= sent
      ensures !done ==> buf == []
      ensures done && buf == [] && n > 0 ==> closed && finished && got == sent
      ensures old(closed) ==> closed && done && (buf == [] <==> old(len) == 0 || n == 0)
      ensures !done && !manager.tasks[task].running ==> manager.tasks[task].msgs == []
    {
      hide Queued, Scheduled, Fifo;
      if len > 0 {
        buf := ReadLeft(n);
        done := true;
      } else if closed {
        ClosedDelivered(got, data[..len], manager.tasks[task].msgs, sent, finished);
        return true, [];
      } else {
        done, buf := ReadMessage(n);
      }
      GotIsPrefix(got, data[..len], manager.tasks[task].msgs, sent, finished, closed);
    }

    /** A step of the rest of the system. */
    method Elsewhere(step: Step)
      requires Valid() && manager.Allowed(step) && Apart(step, task, manager.CurrentTask())
      modifies manager
      ensures Valid()
    {
      hide Queued, Scheduled, Fifo, WaitsKept, IdsKept, ReceivesKept, MessagesAfter, Apart;
      SchedFacts(manager.running, manager.currentLevel, manager.levelChanged);
      ghost var before, current := manager.tasks, manager.CurrentTask();
      var ended, taken := manager.Do(step);
      ApartKeeps(step, task, current, before, manager.tasks, got, data[..len], sent, finished, closed);
    }
  }

  lemma GotIsPrefix(got: seq<nat>, left: seq<nat>, msgs: seq<Message>, sent: seq<nat>, finished: bool, closed: bool)
    requires Fifo(got, left, msgs, sent, finished, closed)
    ensures got <= sent && (closed ==> finished)
  {
  }

  lemma ChunkSize(got: seq<nat>, msgs: seq<Message>, sent: seq<nat>, finished: bool)
    requires Fifo(got, [], msgs, sent, finished, false) && msgs != [] && msgs[0].Pipe?
    ensures |msgs[0].data| <= PIPE_DATA
  {
  }

  datatype Event =
    | Give(bytes: seq<nat>)
    | WriteSome
    | CloseWrite
    | ReadSome(n: nat)
    | Elsewhere(step: Step)

  /** Any interleaving of a writer, the reader and all other tasks: the bytes read are a
      prefix of the bytes given, in order, and after the writer's end mark the reader gets
      every byte and then nothing. */
  method Run(pipe: PipeDescriptor, events: seq<Event>) returns (given: seq<nat>, read: seq<nat>, atEnd: bool)
    requires pipe.Valid() && pipe.sent == pipe.got == [] && !pipe.finished
    modifies pipe, pipe.manager, pipe.data
    ensures pipe.Valid() && read <= given
    ensures atEnd ==> read == given && pipe.closed
    ensures pipe.task in pipe.manager.receiving && !pipe.manager.tasks[pipe.task].running ==>
      pipe.manager.tasks[pipe.task].msgs == []
  {
    hide Queued, Scheduled, Fifo, WaitsKept, IdsKept, Apart;
    var buf, sentBytes := [], 0;
    given, read, atEnd := [], [], false;
    var finished := false;
    for i := 0 to |events|
      invariant pipe.Valid() && pipe.finished == finished
      invariant sentBytes <= |buf| && given == pipe.sent + buf[sentBytes..] && read == pipe.got
      invariant finished ==> sentBytes == |buf|
      invariant atEnd ==> read == given && pipe.closed
    {
      var event := events[i];
      GotIsPrefix(pipe.got, pipe.data[..pipe.len], pipe.manager.tasks[pipe.task].msgs, pipe.sent, pipe.finished, pipe.closed);
      match event
      case Give(bytes) =>
        if sentBytes == |buf| && !finished {
          buf, sentBytes := bytes, 0;
          given := given + bytes;
        }
      case WriteSome =>
        if sentBytes < |buf| && !finished {
          var now := pipe.WriteRound(buf, sentBytes);
          assert buf[sentBytes..] == buf[sentBytes..now] + buf[now..];
          sentBytes := now;
        }
      case CloseWrite =>
        if sentBytes == |buf| && !finished {
          pipe.FinishWrite();
          finished := true;
        }
      case ReadSome(n) =>
        SchedFacts(pipe.manager.running, pipe.manager.currentLevel, pipe.manager.levelChanged);
        if pipe.manager.CurrentTask() == pipe.task && pipe.task !in pipe.manager.waiting {
          var done, bytes := pipe.ReadRound(n);
          read := read + bytes;
          if done && bytes == [] && n > 0 {
            atEnd := true;
          }
        }
      case Elsewhere(step) =>
        SchedFacts(pipe.manager.running, pipe.manager.currentLevel, pipe.manager.levelChanged);
        if pipe.manager.Allowed(step) && Apart(step, pipe.task, pipe.manager.CurrentTask()) {
          pipe.Elsewhere(step);
        }
    }
    GotIsPrefix(pipe.got, pipe.data[..pipe.len], pipe.manager.tasks[pipe.task].msgs, pipe.sent, pipe.finished, pipe.closed);
  }
}
