/** The keyboard's ring (kernel/std/ringbuffer.cpp): one reader and one writer, the interrupt handler, without
    a lock. Every interleaving of their steps is a run of a bounded FIFO queue. */
module RingBuffer {

  type Byte = b: int | 0 <= b < 256

  /** The index after i. */
  function Next(i: nat, size: nat): nat { if i + 1 >= size then 0 else i + 1 }

  predicate Indices(buf: seq<Byte>, head: nat, tail: nat) { head < |buf| && tail < |buf| }

  /** What the ring holds, oldest first. */
  function Contents(buf: seq<Byte>, head: nat, tail: nat): seq<Byte>
    requires Indices(buf, head, tail)
  {
    if tail <= head then buf[tail..head] else buf[tail..] + buf[..head]
  }

  /** Its capacity is one less than its size: the two tests of the code tell empty and full apart. */
  lemma EmptyAndFull(buf: seq<Byte>, head: nat, tail: nat)
    requires Indices(buf, head, tail)
    ensures head == tail <==> Contents(buf, head, tail) == []
    ensures Next(head, |buf|) == tail <==> |Contents(buf, head, tail)| == |buf| - 1
    ensures |Contents(buf, head, tail)| <= |buf| - 1
  {
    var n := |Contents(buf, head, tail)|;
    assert n == if tail <= head then head - tail else |buf| - tail + head;
  }

  /** Moving the tail drops the oldest byte. */
  lemma Pop(buf: seq<Byte>, head: nat, tail: nat)
    requires Indices(buf, head, tail) && head != tail
    ensures var next := Next(tail, |buf|);
            next < |buf| && Contents(buf, head, tail) == [buf[tail]] + Contents(buf, head, next)
  {}

  /** A byte stored at the head is not held yet. */
  lemma Store(buf: seq<Byte>, head: nat, tail: nat, v: Byte)
    requires Indices(buf, head, tail)
    ensures Contents(buf[head := v], head, tail) == Contents(buf, head, tail)
  {}

  /** Moving the head adds the byte stored there. */
  lemma Push(buf: seq<Byte>, head: nat, tail: nat)
    requires Indices(buf, head, tail) && Next(head, |buf|) != tail
    ensures var next := Next(head, |buf|);
            next < |buf| && Contents(buf, next, tail) == Contents(buf, head, tail) + [buf[head]]
  {}

  // ---------------------------------------------------------------- the calls, uninterrupted

  class Ring {
    var head: nat
    var tail: nat
    const buffer: array<Byte>

    ghost predicate Valid()
      reads this, buffer
    {
      Indices(buffer[..], head, tail)
    }

    ghost function Held(): seq<Byte>
      requires Valid()
      reads this, buffer
    {
      Contents(buffer[..], head, tail)
    }

    /** The ring as it is set up, over storage of its own. */
    constructor (storage: array<Byte>)
      requires storage.Length > 0
      ensures Valid() && Held() == [] && buffer == storage
    {
      head, tail, buffer := 0, 0, storage;
    }

    /** The oldest byte, or -1 when none is held. */
    method BufferRead() returns (r: int)
      requires Valid()
      modifies this`tail
      ensures Valid()
      ensures if old(Held()) == [] then r == -1 && Held() == [] else old(Held()) == [r] + Held()
    {
      EmptyAndFull(buffer[..], head, tail);
      if head == tail { return -1; }
      Pop(buffer[..], head, tail);
      var data := buffer[tail];
      var next := tail + 1;
      if next >= buffer.Length { next := 0; }
      tail := next;
      return data;
    }

    /** Adds a byte and returns 0, or returns -1 when one less than the size are held. */
    method BufferWrite(v: Byte) returns (r: int)
      requires Valid()
      modifies this`head, buffer
      ensures Valid()
      ensures if |old(Held())| == buffer.Length - 1 then r == -1 && Held() == old(Held())
              else r == 0 && Held() == old(Held()) + [v]
    {
      EmptyAndFull(buffer[..], head, tail);
      var next := head + 1;
      if next >= buffer.Length { next := 0; }
      if next == tail { return -1; }
      Store(buffer[..], head, tail, v);
      ghost var stored := buffer[..][head := v];
      buffer[head] := v;
      assert buffer[..] == stored;
      Push(buffer[..], head, tail);
      head := next;
      return 0;
    }
  }

  // ---------------------------------------------------------------- the calls, step by step

  /** Where the reader is: outside, past the test for empty, with the byte loaded. */
  datatype Reader = Outside | Tested | Loaded(data: Byte)

  /** Where the writer is: outside, past the test for full with the next head, with the byte stored. */
  datatype Writer = Idle | Admitted(v: Byte, next: nat) | Stored(v: Byte, next: nat)

  /** What a call returned. */
  datatype Event = Empty | Read(v: Byte) | Full | Written(v: Byte)

  datatype State = State(head: nat, tail: nat, buf: seq<Byte>, reader: Reader, writer: Writer, log: seq<Event>)

  /** Either side takes its next step; an idle writer starts on byte v. */
  datatype Action = ReaderStep | WriterStep(v: Byte)

  function Step(s: State, a: Action): State
    requires Indices(s.buf, s.head, s.tail)
  {
    match a
    case ReaderStep => (
      match s.reader
      case Outside =>
        if s.head == s.tail then s.(log := s.log + [Empty]) else s.(reader := Tested)
      case Tested => s.(reader := Loaded(s.buf[s.tail]))
      case Loaded(data) => s.(tail := Next(s.tail, |s.buf|), reader := Outside, log := s.log + [Read(data)])
    )
    case WriterStep(v) => (
      match s.writer
      case Idle =>
        var next := Next(s.head, |s.buf|);
        if next == s.tail then s.(log := s.log + [Full]) else s.(writer := Admitted(v, next))
      case Admitted(w, next) => s.(buf := s.buf[s.head := w], writer := Stored(w, next))
      case Stored(w, next) => s.(head := next, writer := Idle, log := s.log + [Written(w)])
    )
  }

  /** What holds between steps. What either side tested stays true: only the reader takes bytes out, only the
      writer puts bytes in. */
  predicate Inv(s: State) {
    && Indices(s.buf, s.head, s.tail)
    && (s.reader.Tested? ==> s.head != s.tail)
    && (s.reader.Loaded? ==> s.head != s.tail && s.buf[s.tail] == s.reader.data)
    && (!s.writer.Idle? ==> s.writer.next == Next(s.head, |s.buf|) != s.tail)
    && (s.writer.Stored? ==> s.buf[s.head] == s.writer.v)
  }

  function Queue(s: State): seq<Byte>
    requires Indices(s.buf, s.head, s.tail)
  {
    Contents(s.buf, s.head, s.tail)
  }

  /** Where every run may start: both sides outside, whatever the ring holds. */
  lemma StartIsSound(head: nat, tail: nat, buf: seq<Byte>)
    requires head < |buf| && tail < |buf|
    ensures Inv(State(head, tail, buf, Outside, Idle, []))
  {}

  datatype Option<T> = None | Some(value: T)

  /** One call on a bounded queue, None when it could not have returned that. */
  function Apply(q: seq<Byte>, capacity: nat, e: Event): Option<seq<Byte>> {
    match e
    case Empty => if q == [] then Some(q) else None
    case Read(v) => if q != [] && q[0] == v then Some(q[1..]) else None
    case Full => if |q| == capacity then Some(q) else None
    case Written(v) => if |q| < capacity then Some(q + [v]) else None
  }

  /** The calls of a log, one after the other. */
  function Replay(q: seq<Byte>, capacity: nat, log: seq<Event>): Option<seq<Byte>> {
    if log == [] then Some(q)
    else match Replay(q, capacity, log[..|log| - 1])
      case None => None
      case Some(r) => Apply(r, capacity, log[|log| - 1])
  }

  /** A step keeps the invariant, and either leaves the queue alone or returns from a call that the queue allows. */
  lemma StepRefines(s: State, a: Action)
    requires Inv(s)
    ensures var t := Step(s, a);
            && Inv(t) && |t.buf| == |s.buf|
            && if t.log == s.log then Queue(t) == Queue(s)
               else |t.log| == |s.log| + 1 && t.log[..|s.log|] == s.log
                    && Apply(Queue(s), |s.buf| - 1, t.log[|s.log|]) == Some(Queue(t))
  {
    hide Contents;
    EmptyAndFull(s.buf, s.head, s.tail);
    match a
    case ReaderStep =>
      if s.reader.Loaded? { Pop(s.buf, s.head, s.tail); }
    case WriterStep(_) =>
      if s.writer.Admitted? { Store(s.buf, s.head, s.tail, s.writer.v); }
      if s.writer.Stored? { Push(s.buf, s.head, s.tail); EmptyAndFull(s.buf, s.writer.next, s.tail); }
  }

  function Run(s: State, actions: seq<Action>): (t: State)
    requires Inv(s)
    ensures Inv(t) && |t.buf| == |s.buf|
  {
    if actions == [] then s
    else
      var m := Run(s, actions[..|actions| - 1]);
      StepRefines(m, actions[|actions| - 1]);
      Step(m, actions[|actions| - 1])
  }

  /** On every run, whatever the interleaving: the returns, in the order of the steps they happen at, are those
      of calls made one after the other on a queue of one byte less than the size. */
  lemma {:induction false} RunIsQueue(s: State, actions: seq<Action>)
    requires Inv(s) && s.log == []
    ensures Replay(Queue(s), |s.buf| - 1, Run(s, actions).log) == Some(Queue(Run(s, actions)))
  {
    if actions != [] {
      var m, a := Run(s, actions[..|actions| - 1]), actions[|actions| - 1];
      RunIsQueue(s, actions[..|actions| - 1]);
      hide Step, Inv, Apply, Contents, Queue;
      StepRefines(m, a);
      var log := Step(m, a).log;
      if log != m.log { assert log[..|log| - 1] == m.log; }
    }
  }

  function BytesRead(log: seq<Event>): seq<Byte> {
    if log == [] then []
    else
      var e := log[|log| - 1];
      BytesRead(log[..|log| - 1]) + if e.Read? then [e.v] else []
  }

  function BytesWritten(log: seq<Event>): seq<Byte> {
    if log == [] then []
    else
      var e := log[|log| - 1];
      BytesWritten(log[..|log| - 1]) + if e.Written? then [e.v] else []
  }

  /** A queue loses, adds and reorders nothing. */
  lemma {:induction false} ReplayKeepsOrder(q: seq<Byte>, capacity: nat, log: seq<Event>)
    ensures match Replay(q, capacity, log)
            case None => true
            case Some(r) => q + BytesWritten(log) == BytesRead(log) + r
  {
    if log != [] {
      var front, e := log[..|log| - 1], log[|log| - 1];
      ReplayKeepsOrder(q, capacity, front);
      match Replay(q, capacity, front)
      case None =>
      case Some(r) =>
        var written, read := BytesWritten(front), BytesRead(front);
        assert written + [] == written && read + [] == read;
        match e
        case Written(v) => Regroup(q, written, read, r, [v]);
        case Read(v) => if r != [] && r[0] == v { Take(read, r); }
        case Empty =>
        case Full =>
    }
  }

  lemma Take(read: seq<Byte>, r: seq<Byte>)
    requires r != []
    ensures read + r == (read + [r[0]]) + r[1..]
  {}

  lemma Regroup(q: seq<Byte>, written: seq<Byte>, read: seq<Byte>, r: seq<Byte>, v: seq<Byte>)
    requires q + written == read + r
    ensures q + (written + v) == read + (r + v)
  {
    assert q + (written + v) == (q + written) + v;
  }

  /** What was read is a prefix of what was held at first and accepted since; the rest is held. */
  lemma ReadsArePrefix(s: State, actions: seq<Action>)
    requires Inv(s) && s.log == []
    ensures var t := Run(s, actions);
            Queue(s) + BytesWritten(t.log) == BytesRead(t.log) + Queue(t)
  {
    hide Run, Replay, BytesRead, BytesWritten, Contents;
    RunIsQueue(s, actions);
    ReplayKeepsOrder(Queue(s), |s.buf| - 1, Run(s, actions).log);
  }

  /** A read whose steps come without any of the writer's between them, wherever the writer stands: it does
      what the contract of BufferRead says, in at most three steps. */
  lemma ReadAlone(s: State)
    requires Inv(s) && s.reader.Outside?
    ensures var q := Queue(s); var t := Run(s, if q == [] then [ReaderStep] else [ReaderStep, ReaderStep, ReaderStep]);
            && t.reader.Outside? && t.writer == s.writer
            && t.log == s.log + [if q == [] then Empty else Read(q[0])] && Queue(t) == if q == [] then q else q[1..]
  {
    hide Contents;
    EmptyAndFull(s.buf, s.head, s.tail);
    RunThree(s, ReaderStep);
    if s.head != s.tail { Pop(s.buf, s.head, s.tail); }
  }

  /** A write that comes all at once, as from the interrupt handler, also in the middle of a read: it does what
      the contract of BufferWrite says, in at most three steps. */
  lemma WriteAlone(s: State, v: Byte)
    requires Inv(s) && s.writer.Idle?
    ensures var q := Queue(s); var w := WriterStep(v); var t := Run(s, if |q| == |s.buf| - 1 then [w] else [w, w, w]);
            && t.writer.Idle? && t.reader == s.reader
            && if |q| == |s.buf| - 1 then t.log == s.log + [Full] && Queue(t) == q
               else t.log == s.log + [Written(v)] && Queue(t) == q + [v]
  {
    hide Contents;
    EmptyAndFull(s.buf, s.head, s.tail);
    RunThree(s, WriterStep(v));
    if Next(s.head, |s.buf|) != s.tail {
      Store(s.buf, s.head, s.tail, v);
      Push(s.buf[s.head := v], s.head, s.tail);
    }
  }

  /** A call under way ends in two more steps of its own, whatever came between, with what it began for: a
      read with the oldest byte, a write with the byte it was given. */
  lemma CallFinishes(s: State, v: Byte)
    requires Inv(s)
    ensures !s.reader.Outside? ==>
              var t := Run(s, if s.reader.Tested? then [ReaderStep, ReaderStep] else [ReaderStep]);
              && Queue(s) != [] && t.reader.Outside? && t.log == s.log + [Read(Queue(s)[0])] && Queue(t) == Queue(s)[1..]
    ensures !s.writer.Idle? ==>
              var w := WriterStep(v);
              var t := Run(s, if s.writer.Admitted? then [w, w] else [w]);
              && t.writer.Idle? && t.log == s.log + [Written(s.writer.v)] && Queue(t) == Queue(s) + [s.writer.v]
  {
    hide Contents;
    EmptyAndFull(s.buf, s.head, s.tail);
    RunThree(s, ReaderStep);
    RunThree(s, WriterStep(v));
    if !s.reader.Outside? { Pop(s.buf, s.head, s.tail); }
    if !s.writer.Idle? {
      Store(s.buf, s.head, s.tail, s.writer.v);
      Push(s.buf, s.head, s.tail);
      Push(s.buf[s.head := s.writer.v], s.head, s.tail);
    }
  }

  lemma RunThree(s: State, a: Action)
    requires Inv(s)
    ensures Run(s, [a]) == Step(s, a)
    ensures Inv(Step(s, a)) && Inv(Step(Step(s, a), a))
    ensures Run(s, [a, a]) == Step(Step(s, a), a)
    ensures Run(s, [a, a, a]) == Step(Step(Step(s, a), a), a)
  {
    hide Run, Step, Queue, Apply;
    StepRefines(s, a);
    StepRefines(Step(s, a), a);
    RunNone(s);
    RunSnoc(s, [], a);
    RunSnoc(s, [a], a);
    RunSnoc(s, [a, a], a);
    assert [] + [a] == [a] && [a] + [a] == [a, a] && [a, a] + [a] == [a, a, a];
  }

  lemma RunNone(s: State)
    requires Inv(s)
    ensures Run(s, []) == s
  {}

  lemma RunSnoc(s: State, actions: seq<Action>, a: Action)
    requires Inv(s)
    ensures Run(s, actions + [a]) == Step(Run(s, actions), a)
  {
    assert (actions + [a])[..|actions|] == actions;
  }
}
