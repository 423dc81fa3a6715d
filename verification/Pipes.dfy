/** A pipe into a task's message queue (kernel/terminal.cpp, `PipeDescriptor`). */
module Pipes {
  import opened Basics
  import opened Scheduler
  import opened SchedulerRuns
  import opened TaskManager

  /** The size of a pipe message's data. */
  const PIPE_BYTES: nat := 16

  function Min(a: nat, b: nat): nat {
    if a <= b then a else b
  }

  /** The bytes that the pipe messages of a queue carry. */
  function DataOf(msgs: seq<Message>): seq<Byte> {
    if msgs == [] then []
    else DataOf(msgs[..|msgs| - 1]) + if msgs[|msgs| - 1].Pipe? then msgs[|msgs| - 1].data else []
  }

  /** A message that ends the stream. */
  predicate IsEnd(m: Message) {
    m.Pipe? && m.data == []
  }

  /** Nothing of the stream follows its end, and every message fits. */
  ghost predicate EndsLast(msgs: seq<Message>) {
    && (forall i :: 0 <= i < |msgs| && msgs[i].Pipe? ==> |msgs[i].data| <= PIPE_BYTES)
    && (forall i, j :: 0 <= i < j < |msgs| && IsEnd(msgs[i]) ==> !msgs[j].Pipe?)
  }

  ghost predicate EndQueued(msgs: seq<Message>) {
    exists i :: 0 <= i < |msgs| && IsEnd(msgs[i])
  }

  /** The bytes written are those read, then those left over from the last message, then those still queued; the
      end was read or is queued exactly when writing has finished. */
  ghost predicate Flows(written: seq<Byte>, read: seq<Byte>, finished: bool, rest: seq<Byte>, closed: bool, msgs: seq<Message>) {
    && written == read + rest + DataOf(msgs)
    && |rest| <= PIPE_BYTES && EndsLast(msgs)
    && (finished <==> closed || EndQueued(msgs))
    && (closed ==> rest == [] && forall i :: 0 <= i < |msgs| ==> !msgs[i].Pipe?)
  }

  lemma DataNext(msgs: seq<Message>, m: Message)
    ensures DataOf(msgs + [m]) == DataOf(msgs) + if m.Pipe? then m.data else []
  {
    assert (msgs + [m])[..|msgs|] == msgs;
  }

  lemma DataLast(msgs: seq<Message>)
    requires msgs != []
    ensures DataOf(msgs) == DataOf(msgs[..|msgs| - 1]) + if msgs[|msgs| - 1].Pipe? then msgs[|msgs| - 1].data else []
  {}

  lemma {:induction false} DataFirst(msgs: seq<Message>)
    requires msgs != []
    ensures DataOf(msgs) == (if msgs[0].Pipe? then msgs[0].data else []) + DataOf(msgs[1..])
  {
    var n := |msgs| - 1;
    if n > 0 {
      var front, rest := msgs[..n], msgs[1..];
      DataFirst(front);
      assert front[0] == msgs[0] && rest[|rest| - 1] == msgs[n];
      assert rest[..n - 1] == front[1..];
      DataLast(rest);
      DataLast(msgs);
    } else {
      assert msgs[..0] == [] && msgs[1..] == [];
    }
  }

  lemma {:induction false} NoData(msgs: seq<Message>)
    requires forall i :: 0 <= i < |msgs| ==> !msgs[i].Pipe?
    ensures DataOf(msgs) == []
  {
    if msgs != [] {
      NoData(msgs[..|msgs| - 1]);
    }
  }

  /** A message of another kind may be queued at any time. */
  lemma OtherMessage(written: seq<Byte>, read: seq<Byte>, finished: bool, rest: seq<Byte>, closed: bool, msgs: seq<Message>, m: Message)
    requires Flows(written, read, finished, rest, closed, msgs) && !m.Pipe?
    ensures Flows(written, read, finished, rest, closed, msgs + [m])
  {
    DataNext(msgs, m);
    EndStays(msgs, m);
  }

  lemma EndStays(msgs: seq<Message>, m: Message)
    ensures EndQueued(msgs + [m]) <==> EndQueued(msgs) || IsEnd(m)
  {
    var all := msgs + [m];
    if i :| 0 <= i < |msgs| && IsEnd(msgs[i]) {
      assert IsEnd(all[i]);
    }
    if IsEnd(m) {
      assert IsEnd(all[|msgs|]);
    }
  }

  lemma SendFlows(written: seq<Byte>, read: seq<Byte>, rest: seq<Byte>, closed: bool, msgs: seq<Message>, chunk: seq<Byte>)
    requires Flows(written, read, false, rest, closed, msgs) && |chunk| <= PIPE_BYTES
    ensures Flows(written + chunk, read, chunk == [], rest, closed, msgs + [Pipe(chunk)])
  {
    DataNext(msgs, Pipe(chunk));
    EndStays(msgs, Pipe(chunk));
    forall i | 0 <= i < |msgs|
      ensures !IsEnd(msgs[i])
    {}
  }

  /** Steps of other tasks add messages at most: the stream flows on. */
  lemma OthersKeepFlow(written: seq<Byte>, read: seq<Byte>, finished: bool, rest: seq<Byte>, closed: bool, s: Sched, e: Event, t: nat)
    requires Inv(s) && WaitInv(s) && Legal(s, e) && t in s.tasks && t in Step(s, e).tasks
    requires Flows(written, read, finished, rest, closed, s.tasks[t].msgs)
    requires (e.Send? && e.to == t ==> !e.msg.Pipe?) && !(e.Receive? && Current(s) == t)
    ensures Flows(written, read, finished, rest, closed, Step(s, e).tasks[t].msgs)
  {
    hide Step, Inv, WaitInv, Flows, Legal;
    TaskAfter(s, e, t);
    assert s.tasks[t].msgs + [] == s.tasks[t].msgs;
    if e.Send? && e.to == t {
      OtherMessage(written, read, finished, rest, closed, s.tasks[t].msgs, e.msg);
    }
  }

  /** No step but one that puts the reader to sleep while messages wait changes that it is awake. */
  lemma OthersKeepAwake(s: Sched, e: Event, t: nat)
    requires Inv(s) && WaitInv(s) && Legal(s, e) && Awake(s, t) && (Sleeps(s, e, t) && t in s.tasks ==> s.tasks[t].msgs == [])
    ensures Awake(Step(s, e), t)
  {
    hide Inv, WaitInv, Step, Legal, Awake, Sleeps;
    StepKeepsAwake(s, e, t);
  }

  /** What taking the first message off the queue means. */
  lemma TakeFlows(written: seq<Byte>, read: seq<Byte>, finished: bool, msgs: seq<Message>, len: nat)
    requires Flows(written, read, finished, [], false, msgs) && msgs != []
    ensures var m := msgs[0];
      if !m.Pipe? then Flows(written, read, finished, [], false, msgs[1..])
      else if m.data == [] then finished && Flows(written, read, finished, [], true, msgs[1..]) && written == read
      else
        var n := Min(|m.data|, len);
        |m.data| <= PIPE_BYTES && Flows(written, read + m.data[..n], finished, m.data[n..], false, msgs[1..])
  {
    DataFirst(msgs);
    var m, later := msgs[0], msgs[1..];
    EndFirst(msgs);
    if IsEnd(m) {
      assert forall i :: 0 <= i < |later| ==> later[i] == msgs[i + 1];
      NoData(later);
    } else if m.Pipe? {
      var n := Min(|m.data|, len);
      assert m.data == m.data[..n] + m.data[n..];
      assert read + [] + DataOf(msgs) == read + m.data[..n] + m.data[n..] + DataOf(later);
    }
  }

  lemma EndFirst(msgs: seq<Message>)
    requires msgs != []
    ensures EndQueued(msgs) <==> IsEnd(msgs[0]) || EndQueued(msgs[1..])
    ensures EndsLast(msgs) ==> EndsLast(msgs[1..])
  {
    if i :| 0 <= i < |msgs[1..]| && IsEnd(msgs[1..][i]) {
      assert IsEnd(msgs[i + 1]);
    }
    if i :| 0 <= i < |msgs| && IsEnd(msgs[i]) && i > 0 {
      assert IsEnd(msgs[1..][i - 1]);
    }
  }

  /** The end of a pass of `Read`: bytes, or none because the task went to sleep until a message comes. */
  datatype ReadResult = Bytes(data: seq<Byte>) | Blocked

  class PipeDescriptor {
    const manager: TaskManager
    const task: nat
    var data: seq<Byte>
    var closed: bool
    ghost var written: seq<Byte>
    ghost var read: seq<Byte>
    ghost var finished: bool

    constructor (manager: TaskManager, task: nat)
      requires manager.Valid() && task in manager.tasks && task != IDLE
      requires forall i :: 0 <= i < |manager.tasks[task].msgs| ==> !manager.tasks[task].msgs[i].Pipe?
      ensures Valid() && written == [] && read == [] && !finished
    {
      this.manager, this.task := manager, task;
      data, closed, written, read, finished := [], false, [], [], false;
      new;
      NoData(manager.tasks[task].msgs);
    }

    ghost predicate Valid()
      reads this, manager
    {
      && manager.Valid() && task in manager.tasks && task != IDLE
      && Flows(written, read, finished, data, closed, manager.tasks[task].msgs)
    }

    /** The reading task is not asleep while messages wait for it. */
    ghost predicate ReaderAwake()
      reads this, manager
    {
      Awake(manager.S(), task)
    }

    /** A reader for which bytes or the end are waiting can run. */
    lemma UnreadIsAwake()
      requires Valid() && ReaderAwake() && data == [] && !closed && (read != written || finished)
      ensures manager.tasks[task].running
    {
      hide Inv, WaitInv;
    }

    /** Sends one message to the reading task, which can then run. */
    method Send(chunk: seq<Byte>)
      requires Valid() && !finished && |chunk| <= PIPE_BYTES
      modifies manager, this`written, this`finished
      ensures Valid() && written == old(written) + chunk && (finished <==> chunk == [])
      ensures manager.tasks[task].running && ReaderAwake()
    {
      hide Inv, WaitInv, Flows;
      SendAppends(manager.S(), task, Pipe(chunk));
      SendFlows(written, read, data, closed, manager.tasks[task].msgs, chunk);
      var found := manager.SendMessage(task, Pipe(chunk));
      written, finished := written + chunk, chunk == [];
    }

    /** Sends the bytes in messages; a reader that sleeps is woken. */
    method Write(buf: seq<Byte>) returns (sentBytes: nat)
      requires Valid() && !finished
      modifies manager, this`written, this`finished
      ensures Valid() && written == old(written) + buf && !finished && sentBytes == |buf|
      ensures buf != [] ==> manager.tasks[task].running && ReaderAwake()
    {
      hide Inv, WaitInv, Flows;
      sentBytes := 0;
      while sentBytes < |buf|
        invariant Valid() && !finished && sentBytes <= |buf| && written == old(written) + buf[..sentBytes]
        invariant sentBytes > 0 ==> manager.tasks[task].running && ReaderAwake()
        decreases |buf| - sentBytes
      {
        var n := Min(|buf| - sentBytes, PIPE_BYTES);
        assert buf[..sentBytes + n] == buf[..sentBytes] + buf[sentBytes..sentBytes + n];
        Send(buf[sentBytes..sentBytes + n]);
        sentBytes := sentBytes + n;
      }
    }

    /** Ends the stream; a reader that sleeps is woken. */
    method FinishWrite()
      requires Valid() && !finished
      modifies manager, this`written, this`finished
      ensures Valid() && written == old(written) && finished && manager.tasks[task].running && ReaderAwake()
    {
      Send([]);
    }

    /** Bytes left over from the last message, or those of the next one; messages of other kinds are dropped. No
        bytes are returned for a non-empty request only after the end of writing, when all were read. */
    method Read(len: nat) returns (r: ReadResult)
      requires Valid() && Legal(manager.S(), Receive) && Current(manager.S()) == task
      modifies manager, this`data, this`closed, this`read
      ensures Valid() && read <= written
      ensures r.Bytes? ==> read == old(read) + r.data && |r.data| <= len
      ensures r.Bytes? && len > 0 && r.data == [] ==> finished && read == written
      ensures r.Blocked? ==> read == old(read) == written && !finished && !manager.tasks[task].running
      ensures ReaderAwake() && (r.Bytes? ==> manager.tasks[task].running)
    {
      hide Inv, WaitInv, Flows;
      FlowsPrefix(written, read, finished, data, closed, manager.tasks[task].msgs);
      CurrentRuns(manager.S());
      if data != [] {
        var n := Min(|data|, len);
        TakeRest(written, read, finished, data, manager.tasks[task].msgs, closed, n);
        r := Bytes(data[..n]);
        read := read + data[..n];
        data := data[n..];
        return;
      }
      if closed {
        return Bytes([]);
      }
      while true
        invariant Valid() && manager.tasks[task].running && data == [] && !closed && read == old(read) && read <= written
        invariant Shape(manager.S()) && Legal(manager.S(), Receive) && Current(manager.S()) == task
        decreases |manager.tasks[task].msgs|
      {
        ghost var s, msgs := manager.S(), manager.tasks[task].msgs;
        ReceiveTakes(s);
        var msg := manager.ReceiveMessage();
        if msg.None? {
          NothingQueued(written, read, finished);
          SleepsAlone(manager.S(), task);
          var found := manager.SleepById(task);
          return Blocked;
        }
        TakeFlows(written, read, finished, msgs, len);
        if !msg.value.Pipe? {
          continue;
        }
        if msg.value.data == [] {
          closed := true;
          return Bytes([]);
        }
        var n := Min(|msg.value.data|, len);
        data := msg.value.data[n..];
        read := read + msg.value.data[..n];
        FlowsPrefix(written, read, finished, data, closed, manager.tasks[task].msgs);
        return Bytes(msg.value.data[..n]);
      }
    }
  }

  lemma FlowsPrefix(written: seq<Byte>, read: seq<Byte>, finished: bool, rest: seq<Byte>, closed: bool, msgs: seq<Message>)
    requires Flows(written, read, finished, rest, closed, msgs)
    ensures read <= written
    ensures closed ==> finished && read == written
  {
    if closed {
      NoData(msgs);
    }
  }

  lemma TakeRest(written: seq<Byte>, read: seq<Byte>, finished: bool, rest: seq<Byte>, msgs: seq<Message>, closed: bool, n: nat)
    requires Flows(written, read, finished, rest, closed, msgs) && n <= |rest|
    ensures Flows(written, read + rest[..n], finished, rest[n..], closed, msgs)
    ensures read + rest[..n] <= written
  {
    assert rest == rest[..n] + rest[n..];
    assert read + rest + DataOf(msgs) == read + rest[..n] + rest[n..] + DataOf(msgs);
  }

  lemma NothingQueued(written: seq<Byte>, read: seq<Byte>, finished: bool)
    ensures Flows(written, read, finished, [], false, []) ==> written == read && !finished
  {}

  lemma SendAppends(s: Sched, t: nat, m: Message)
    requires Inv(s) && WaitInv(s) && t in s.tasks
    ensures var s' := Step(s, Event.Send(t, m)); t in s'.tasks && s'.tasks[t].msgs == s.tasks[t].msgs + [m]
  {
    CurrentRuns(s);
  }

  lemma ReceiveTakes(s: Sched)
    requires Inv(s) && WaitInv(s) && Legal(s, Receive)
    ensures var c, s' := Current(s), Step(s, Receive);
      && c in s.tasks && c in s'.tasks && Shape(s') && Current(s') == c && Legal(s', Receive)
      && s'.tasks[c].msgs == (if s.tasks[c].msgs == [] then [] else s.tasks[c].msgs[1..]) && s'.tasks[c].running
  {
    CurrentRuns(s);
  }

  lemma SleepsAlone(s: Sched, t: nat)
    requires Inv(s) && WaitInv(s) && t in s.tasks && t != IDLE && Legal(s, Receive) && Current(s) == t
    ensures Legal(s, Event.Sleep(t))
    ensures var s' := Step(s, Event.Sleep(t)); t in s'.tasks && s'.tasks[t].msgs == s.tasks[t].msgs && !s'.tasks[t].running
  {
    CurrentRuns(s);
    SleepKeeps(s, t);
  }
}
