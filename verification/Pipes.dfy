/**
 A pipe shared by any number of readers and writers. Each round of the read and write loops, with
 interrupts off, is one atomic step; tasks sleep and are woken as the scheduler does it.
 */
module Pipes {
  import opened Bytes

  const SIZE: nat := 4096

  datatype Pipe = Pipe(buf: seq<Byte>, rd: nat, wr: nat, avail: nat, readers: nat, writers: nat)

  datatype ReadResult = Got(b: Byte) | Eof | ReadSleeps
  datatype WriteResult = Stored | Broken | WriteSleeps

  predicate PipeOk(p: Pipe) {
    |p.buf| == SIZE && p.rd < SIZE && p.avail <= SIZE && p.wr == (p.rd + p.avail) % SIZE
  }

  /** One round of the read loop. */
  function TryRead(p: Pipe): (r: (Pipe, ReadResult))
    requires PipeOk(p)
    ensures PipeOk(r.0)
  {
    if p.avail == 0 then (p, if p.writers == 0 then Eof else ReadSleeps)
    else (p.(rd := (p.rd + 1) % SIZE, avail := p.avail - 1), Got(p.buf[p.rd]))
  }

  /** One round of the write loop. */
  function TryWrite(p: Pipe, b: Byte): (r: (Pipe, WriteResult))
    requires PipeOk(p)
    ensures PipeOk(r.0)
  {
    if p.readers == 0 then (p, Broken)
    else if p.avail == SIZE then (p, WriteSleeps)
    else (p.(buf := p.buf[p.wr := b], wr := (p.wr + 1) % SIZE, avail := p.avail + 1), Stored)
  }

  /** The bytes in the ring, oldest first. */
  function Queue(p: Pipe): (q: seq<Byte>)
    requires PipeOk(p)
    ensures |q| == p.avail
  {
    seq<Byte>(p.avail, k requires 0 <= k < p.avail => p.buf[(p.rd + k) % SIZE])
  }

  /** A byte is read from the front of the queue ... */
  lemma ReadTakesFirst(p: Pipe)
    requires PipeOk(p)
    ensures var r := TryRead(p);
      if p.avail == 0 then r.0 == p && !r.1.Got? else r.1.Got? && Queue(p) == [r.1.b] + Queue(r.0)
  {
    hide Queue;
    var q := TryRead(p).0;
    if p.avail > 0 {
      forall k: nat | k < q.avail ensures Queue(q)[k] == Queue(p)[k + 1] {
        QueueAt(q, k);
        QueueAt(p, k + 1);
        Wrap(p.rd, k);
      }
      QueueAt(p, 0);
    }
  }

  lemma QueueAt(p: Pipe, k: nat)
    requires PipeOk(p) && k < p.avail
    ensures Queue(p)[k] == p.buf[(p.rd + k) % SIZE]
  {
  }

  lemma Wrap(rd: nat, k: nat)
    requires rd < SIZE && k < SIZE
    ensures ((rd + 1) % SIZE + k) % SIZE == (rd + (k + 1)) % SIZE
  {
  }

  /** ... and written to its end. */
  lemma WriteAppends(p: Pipe, b: Byte)
    requires PipeOk(p)
    ensures var r := TryWrite(p, b);
      if p.readers > 0 && p.avail < SIZE then r.1 == Stored && Queue(r.0) == Queue(p) + [b] else r.0 == p && r.1 != Stored
  {
    hide Queue;
    var q := TryWrite(p, b).0;
    if p.readers > 0 && p.avail < SIZE {
      forall k: nat | k < p.avail ensures Queue(q)[k] == Queue(p)[k] {
        QueueAt(q, k);
        QueueAt(p, k);
        Distinct(p.rd, k, p.avail);
      }
      QueueAt(q, p.avail);
    }
  }

  lemma Distinct(rd: nat, j: nat, k: nat)
    requires rd < SIZE && j < k < SIZE
    ensures (rd + j) % SIZE != (rd + k) % SIZE
  {
  }

  /** A read ends at an empty pipe without writers, waits at an empty pipe with writers, and otherwise gets a byte. */
  lemma ReadAnswers(p: Pipe)
    requires PipeOk(p)
    ensures TryRead(p).1 == Eof <==> p.avail == 0 && p.writers == 0
    ensures TryRead(p).1 == ReadSleeps <==> p.avail == 0 && p.writers != 0
    ensures TryRead(p).1.Got? <==> p.avail > 0
  {
    hide PipeOk;
  }

  /** A write breaks exactly when no reader is left, waits exactly at a full pipe with readers, and otherwise stores. */
  lemma WriteAnswers(p: Pipe, b: Byte)
    requires PipeOk(p)
    ensures TryWrite(p, b).1 == Broken <==> p.readers == 0
    ensures TryWrite(p, b).1 == WriteSleeps <==> p.readers != 0 && p.avail == SIZE
    ensures TryWrite(p, b).1 == Stored <==> p.readers != 0 && p.avail < SIZE
  {
    hide PipeOk;
    AvailBound(p);
  }

  lemma AvailBound(p: Pipe)
    requires PipeOk(p)
    ensures p.avail <= SIZE
  {
  }

  // ----- tasks -----

  /** A call in progress: bytes still wanted, or the data and how much of it is stored. */
  datatype Call = Idle | Reading(left: nat) | Writing(data: seq<Byte>, done: nat)

  /** A task; got and put are all bytes it ever read from and wrote to the pipe. */
  datatype Task = Task(call: Call, asleep: bool, got: seq<Byte>, put: seq<Byte>)

  datatype Event = Event(task: nat, b: Byte)

  /** The whole system; sent and taken log every byte stored and every byte read, in order. */
  datatype Sys = Sys(pipe: Pipe, tasks: map<nat, Task>, sent: seq<Event>, taken: seq<Event>)

  datatype Step =
    | BeginRead(t: nat, size: nat)
    | BeginWrite(t: nat, data: seq<Byte>)
    | Round(t: nat)
    | Tick(t: nat)
    | CloseReader
    | CloseWriter

  predicate InRead(s: Sys, t: nat) {
    t in s.tasks && s.tasks[t].call.Reading?
  }

  predicate InWrite(s: Sys, t: nat) {
    t in s.tasks && s.tasks[t].call.Writing?
  }

  /** A call runs on an end that its task holds open, so the last end of a kind is not closed under it. */
  ghost predicate Enabled(s: Sys, step: Step) {
    match step
    case BeginRead(t, _) => t in s.tasks && s.tasks[t].call == Idle && s.pipe.readers > 0
    case BeginWrite(t, _) => t in s.tasks && s.tasks[t].call == Idle && s.pipe.writers > 0
    case Round(t) => t in s.tasks && s.tasks[t].call != Idle && !s.tasks[t].asleep
    case Tick(t) => t in s.tasks
    case CloseReader => s.pipe.readers > 1 || (s.pipe.readers == 1 && forall t :: !InRead(s, t))
    case CloseWriter => s.pipe.writers > 1 || (s.pipe.writers == 1 && forall t :: !InWrite(s, t))
  }

  /** wakeup_tasks_waiting_for_io: every task asleep on the pipe becomes ready. */
  function WakeAll(tasks: map<nat, Task>): map<nat, Task> {
    map t | t in tasks :: tasks[t].(asleep := false)
  }

  function ReadRound(s: Sys, t: nat): Sys
    requires PipeOk(s.pipe) && InRead(s, t)
  {
    var k := s.tasks[t];
    if k.call.left == 0 then s.(tasks := s.tasks[t := k.(call := Idle)])
    else
      var r := TryRead(s.pipe);
      match r.1
      case Eof => s.(tasks := s.tasks[t := k.(call := Idle)])
      case ReadSleeps => s.(tasks := s.tasks[t := k.(asleep := true)])
      case Got(b) =>
        Sys(r.0, WakeAll(s.tasks[t := k.(call := Reading(k.call.left - 1), got := k.got + [b])]), s.sent, s.taken + [Event(t, b)])
  }

  function WriteRound(s: Sys, t: nat): Sys
    requires PipeOk(s.pipe) && InWrite(s, t)
  {
    var k := s.tasks[t];
    if k.call.done >= |k.call.data| then s.(tasks := s.tasks[t := k.(call := Idle)])
    else
      var b := k.call.data[k.call.done];
      var r := TryWrite(s.pipe, b);
      match r.1
      case Broken => s.(tasks := s.tasks[t := k.(call := Idle)])
      case WriteSleeps => s.(tasks := s.tasks[t := k.(asleep := true)])
      case Stored =>
        Sys(r.0, WakeAll(s.tasks[t := k.(call := Writing(k.call.data, k.call.done + 1), put := k.put + [b])]), s.sent + [Event(t, b)], s.taken)
  }

  function Next(s: Sys, step: Step): Sys
    requires PipeOk(s.pipe) && Enabled(s, step)
  {
    match step
    case BeginRead(t, size) => s.(tasks := s.tasks[t := s.tasks[t].(call := Reading(size), asleep := false)])
    case BeginWrite(t, data) => s.(tasks := s.tasks[t := s.tasks[t].(call := Writing(data, 0), asleep := false)])
    case Round(t) => if InRead(s, t) then ReadRound(s, t) else WriteRound(s, t)
    // The timer makes every task without a pending tick ready again, also one that sleeps on a pipe.
    case Tick(t) => s.(tasks := s.tasks[t := s.tasks[t].(asleep := false)])
    case CloseReader => s.(pipe := s.pipe.(readers := s.pipe.readers - 1), tasks := WakeAll(s.tasks))
    case CloseWriter => s.(pipe := s.pipe.(writers := s.pipe.writers - 1), tasks := WakeAll(s.tasks))
  }

  // ----- what every step keeps -----

  function BytesOf(es: seq<Event>): (r: seq<Byte>)
    ensures |r| == |es|
  {
    if es == [] then [] else BytesOf(es[..|es| - 1]) + [es[|es| - 1].b]
  }

  /** The bytes of task t among the events. */
  function Of(es: seq<Event>, t: nat): seq<Byte> {
    if es == [] then []
    else Of(es[..|es| - 1], t) + (if es[|es| - 1].task == t then [es[|es| - 1].b] else [])
  }

  /** Everything stored is what was taken, followed by what is in the ring. */
  predicate FlowOk(s: Sys)
    requires PipeOk(s.pipe)
  {
    BytesOf(s.sent) == BytesOf(s.taken) + Queue(s.pipe)
  }

  /** A reader sleeps only on an empty pipe with writers, a writer only on a full one with readers. */
  ghost predicate SleepOk(s: Sys) {
    forall t | t in s.tasks && s.tasks[t].asleep ::
      && (s.tasks[t].call.Reading? || s.tasks[t].call.Writing?)
      && (s.tasks[t].call.Reading? ==> s.pipe.avail == 0 && s.pipe.writers > 0)
      && (s.tasks[t].call.Writing? ==> s.pipe.avail == SIZE && s.pipe.readers > 0)
  }

  /** Calls run only while an end of their kind is open. */
  ghost predicate HeldOk(s: Sys) {
    forall t | t in s.tasks :: (s.tasks[t].call.Reading? ==> s.pipe.readers > 0) && (s.tasks[t].call.Writing? ==> s.pipe.writers > 0)
  }

  /** Each task has read and written exactly its own share of the log. */
  ghost predicate SharesOk(s: Sys) {
    forall t | t in s.tasks :: s.tasks[t].got == Of(s.taken, t) && s.tasks[t].put == Of(s.sent, t)
  }

  ghost predicate Inv(s: Sys) {
    PipeOk(s.pipe) && FlowOk(s) && SleepOk(s) && HeldOk(s) && SharesOk(s)
  }

  lemma OfNext(es: seq<Event>, t: nat, e: Event)
    ensures Of(es + [e], t) == Of(es, t) + (if e.task == t then [e.b] else [])
    ensures BytesOf(es + [e]) == BytesOf(es) + [e.b]
  {
    assert (es + [e])[..|es|] == es;
  }

  lemma ReadKeeps(s: Sys, t: nat)
    requires Inv(s) && Enabled(s, Round(t)) && InRead(s, t)
    ensures Inv(ReadRound(s, t))
  {
    hide BytesOf, Of, Queue;
    ReadTakesFirst(s.pipe);
    if s.tasks[t].call.left > 0 && s.pipe.avail > 0 {
      var b := TryRead(s.pipe).1.b;
      var e := Event(t, b);
      forall u ensures Of(s.taken + [e], u) == Of(s.taken, u) + (if t == u then [b] else []) {
        if u >= 0 {
          OfNext(s.taken, u, e);
        }
      }
      OfNext(s.taken, t, e);
      assert BytesOf(s.taken) + ([b] + Queue(TryRead(s.pipe).0)) == BytesOf(s.taken) + [b] + Queue(TryRead(s.pipe).0);
    }
  }

  lemma WriteKeeps(s: Sys, t: nat)
    requires Inv(s) && Enabled(s, Round(t)) && InWrite(s, t)
    ensures Inv(WriteRound(s, t))
  {
    hide BytesOf, Of, Queue;
    var k := s.tasks[t];
    if k.call.done < |k.call.data| && s.pipe.readers > 0 && s.pipe.avail < SIZE {
      var b := k.call.data[k.call.done];
      WriteAppends(s.pipe, b);
      var e := Event(t, b);
      forall u: nat ensures Of(s.sent + [e], u) == Of(s.sent, u) + (if t == u then [b] else []) {
        OfNext(s.sent, u, e);
      }
      OfNext(s.sent, t, e);
      assert BytesOf(s.taken) + (Queue(s.pipe) + [b]) == BytesOf(s.taken) + Queue(s.pipe) + [b];
    }
  }

  lemma CloseKeeps(s: Sys, step: Step)
    requires Inv(s) && Enabled(s, step) && (step.CloseReader? || step.CloseWriter?)
    ensures Inv(Next(s, step))
  {
    hide BytesOf, Of;
    var r := Next(s, step);
    assert Queue(r.pipe) == Queue(s.pipe);
    forall t | t in r.tasks
      ensures (r.tasks[t].call.Reading? ==> r.pipe.readers > 0) && (r.tasks[t].call.Writing? ==> r.pipe.writers > 0)
    {
      assert InRead(s, t) || !s.tasks[t].call.Reading?;
      assert InWrite(s, t) || !s.tasks[t].call.Writing?;
    }
  }

  lemma StepKeeps(s: Sys, step: Step)
    requires Inv(s) && Enabled(s, step)
    ensures Inv(Next(s, step))
  {
    hide BytesOf, Of, Queue, ReadRound, WriteRound;
    match step
    case Round(t) =>
      if InRead(s, t) {
        ReadKeeps(s, t);
      } else {
        WriteKeeps(s, t);
      }
    case CloseReader => CloseKeeps(s, step);
    case CloseWriter => CloseKeeps(s, step);
    case _ =>
  }

  /**
   A round of a read that wants more ends the call exactly at an empty pipe without writers, puts the
   task to sleep exactly at an empty pipe with writers, and otherwise takes one byte for the task.
   */
  lemma ReadRoundIff(s: Sys, t: nat)
    requires Inv(s) && Enabled(s, Round(t)) && InRead(s, t) && s.tasks[t].call.left > 0
    ensures t in Next(s, Round(t)).tasks
    ensures Next(s, Round(t)).tasks[t].call == Idle <==> s.pipe.avail == 0 && s.pipe.writers == 0
    ensures Next(s, Round(t)).tasks[t].asleep <==> s.pipe.avail == 0 && s.pipe.writers > 0
    ensures s.pipe.avail > 0 ==> Next(s, Round(t)).tasks[t].call == Reading(s.tasks[t].call.left - 1)
    ensures s.pipe.avail > 0 ==> Next(s, Round(t)).tasks[t].got == s.tasks[t].got + [Queue(s.pipe)[0]]
  {
    hide BytesOf, Of, Queue;
    ReadAnswers(s.pipe);
    ReadTakesFirst(s.pipe);
  }

  /** A round of a write with data left: broken, waiting, or exactly the next byte stored. */
  lemma WriteRoundIff(s: Sys, t: nat)
    requires Inv(s) && Enabled(s, Round(t)) && InWrite(s, t) && s.tasks[t].call.done < |s.tasks[t].call.data|
    ensures t in Next(s, Round(t)).tasks && PipeOk(Next(s, Round(t)).pipe)
    ensures Next(s, Round(t)).tasks[t].call == Idle <==> s.pipe.readers == 0
    ensures Next(s, Round(t)).tasks[t].asleep <==> s.pipe.readers > 0 && s.pipe.avail == SIZE
    ensures s.pipe.readers > 0 && s.pipe.avail < SIZE ==>
      Next(s, Round(t)).tasks[t].call == Writing(s.tasks[t].call.data, s.tasks[t].call.done + 1)
    ensures s.pipe.readers > 0 && s.pipe.avail < SIZE ==>
      Queue(Next(s, Round(t)).pipe) == Queue(s.pipe) + [s.tasks[t].call.data[s.tasks[t].call.done]]
  {
    hide BytesOf, Of, Queue;
    var c := s.tasks[t].call;
    WriteAnswers(s.pipe, c.data[c.done]);
    WriteAppends(s.pipe, c.data[c.done]);
  }

  /** A call for no more bytes ends at once. */
  lemma DoneRound(s: Sys, t: nat)
    requires Inv(s) && Enabled(s, Round(t))
    requires s.tasks[t].call == Reading(0) || (InWrite(s, t) && s.tasks[t].call.done >= |s.tasks[t].call.data|)
    ensures t in Next(s, Round(t)).tasks && Next(s, Round(t)).tasks[t].call == Idle && Next(s, Round(t)).pipe == s.pipe
  {
    hide BytesOf, Of, Queue;
  }

  /** A byte taken or stored, and every close, leave no task asleep on the pipe. */
  lemma WakesAll(s: Sys, step: Step, u: nat)
    requires Inv(s) && Enabled(s, step) && u in s.tasks
    requires step.CloseReader? || step.CloseWriter? || (step.Round? && Next(s, step).pipe != s.pipe)
    ensures u in Next(s, step).tasks && !Next(s, step).tasks[u].asleep
  {
    hide BytesOf, Of, Queue;
    if step.Round? && InRead(s, step.t) {
      ReadAnswers(s.pipe);
    }
  }

  // ----- whole runs -----

  /** The states of a run. */
  ghost predicate Run(states: seq<Sys>, steps: seq<Step>) {
    && |states| == |steps| + 1
    && forall i | 0 <= i < |steps| :: PipeOk(states[i].pipe) && Enabled(states[i], steps[i]) && states[i + 1] == Next(states[i], steps[i])
  }

  /** A fresh pipe with one end of each kind and idle tasks. */
  ghost predicate Initial(s: Sys) {
    && PipeOk(s.pipe) && s.pipe.avail == 0 && s.pipe.readers == 1 && s.pipe.writers == 1
    && s.sent == [] && s.taken == []
    && forall t | t in s.tasks :: s.tasks[t] == Task(Idle, false, [], [])
  }

  lemma {:induction false} RunKeeps(states: seq<Sys>, steps: seq<Step>, i: nat)
    requires Run(states, steps) && Initial(states[0]) && i < |states|
    ensures Inv(states[i])
  {
    hide Next, Enabled;
    if i > 0 {
      RunKeeps(states, steps, i - 1);
      StepKeeps(states[i - 1], steps[i - 1]);
    } else {
      assert Queue(states[0].pipe) == [];
    }
  }

  /** In every state of every run: what was taken is a prefix of what was stored, at most 4096 bytes behind. */
  lemma TakenIsPrefix(states: seq<Sys>, steps: seq<Step>, i: nat)
    requires Run(states, steps) && Initial(states[0]) && i < |states|
    ensures BytesOf(states[i].taken) <= BytesOf(states[i].sent) && |states[i].sent| - |states[i].taken| == states[i].pipe.avail <= SIZE
    ensures states[i].pipe.wr == (states[i].pipe.rd + states[i].pipe.avail) % SIZE
  {
    hide Next, Enabled, BytesOf;
    RunKeeps(states, steps, i);
  }

  /** No wakeup is lost, so a reader and a writer never sleep on the pipe together. */
  lemma NeverBothAsleep(states: seq<Sys>, steps: seq<Step>, i: nat, t: nat, u: nat)
    requires Run(states, steps) && Initial(states[0]) && i < |states|
    requires InRead(states[i], t) && InWrite(states[i], u)
    ensures !(states[i].tasks[t].asleep && states[i].tasks[u].asleep)
  {
    hide Next, Enabled;
    RunKeeps(states, steps, i);
  }

  /** The pipe is freed (no end of either kind is left) only when no call on it is in progress. */
  lemma FreedIdle(states: seq<Sys>, steps: seq<Step>, i: nat, t: nat)
    requires Run(states, steps) && Initial(states[0]) && i < |states| && t in states[i].tasks
    requires states[i].pipe.readers == 0 && states[i].pipe.writers == 0
    ensures states[i].tasks[t].call == Idle
  {
    hide Next, Enabled;
    RunKeeps(states, steps, i);
  }

  lemma {:induction false} SoleReader(es: seq<Event>, t: nat)
    requires forall e | e in es :: e.task == t
    ensures Of(es, t) == BytesOf(es)
  {
    if es != [] {
      SoleReader(es[..|es| - 1], t);
    }
  }

  /** With a single reader and a single writer the reader has exactly the first bytes the writer stored. */
  lemma OneToOne(states: seq<Sys>, steps: seq<Step>, i: nat, r: nat, w: nat)
    requires Run(states, steps) && Initial(states[0]) && i < |states| && r in states[i].tasks && w in states[i].tasks
    requires (forall e | e in states[i].taken :: e.task == r) && (forall e | e in states[i].sent :: e.task == w)
    ensures states[i].tasks[r].got <= states[i].tasks[w].put
  {
    hide Next, Enabled;
    RunKeeps(states, steps, i);
    SoleReader(states[i].taken, r);
    SoleReader(states[i].sent, w);
  }

  // ----- the ring buffer itself -----

  class Ring {
    const buffer: array<Byte>
    var readPos: nat
    var writePos: nat
    var available: nat
    var readers: nat
    var writers: nat

    ghost predicate Valid()
      reads this, buffer
    {
      buffer.Length == SIZE && PipeOk(St())
    }

    ghost function St(): Pipe
      reads this, buffer
    {
      Pipe(buffer[..], readPos, writePos, available, readers, writers)
    }

    constructor ()
      ensures Valid() && fresh(buffer) && Queue(St()) == [] && readers == 1 && writers == 1
    {
      buffer := new Byte[SIZE](_ => 0);
      readPos, writePos, available, readers, writers := 0, 0, 0, 1, 1;
    }

    method ReadRound() returns (r: ReadResult)
      requires Valid()
      modifies this
      ensures Valid() && (St(), r) == TryRead(old(St()))
    {
      if available == 0 {
        return if writers == 0 then Eof else ReadSleeps;
      }
      r := Got(buffer[readPos]);
      readPos := (readPos + 1) % SIZE;
      available := available - 1;
    }

    method WriteRound(b: Byte) returns (r: WriteResult)
      requires Valid()
      modifies this, buffer
      ensures Valid() && (St(), r) == TryWrite(old(St()), b)
    {
      if readers == 0 {
        return Broken;
      }
      if available == SIZE {
        return WriteSleeps;
      }
      buffer[writePos] := b;
      writePos := (writePos + 1) % SIZE;
      available := available + 1;
      r := Stored;
    }

    /** Drop one end; true when the pipe's memory is to be freed. */
    method Close(reader: bool) returns (freed: bool)
      requires Valid() && if reader then readers > 0 else writers > 0
      modifies this
      ensures Valid() && St() == if reader then old(St()).(readers := old(readers) - 1) else old(St()).(writers := old(writers) - 1)
      ensures Queue(St()) == old(Queue(St())) && freed == (readers == 0 && writers == 0)
    {
      if reader {
        readers := readers - 1;
      } else {
        writers := writers - 1;
      }
      freed := readers == 0 && writers == 0;
    }
  }
}
