/** The in-memory pipe: one reader and one writer that share a bounded buffer behind a lock. */
module Pipes {
  import opened Base

  /** What the lock protects. */
  datatype Shared = Shared(buffer: seq<byte>, capacity: nat, writerClosed: bool, readerClosed: bool)

  /** What a thread does: nothing with the pipe, or a call, asleep on the condition variable or awake
      and about to take the lock again. */
  datatype Thread<Call> = Idle | Asleep(call: Call) | Awake(call: Call)

  function Notify<Call>(t: Thread<Call>): Thread<Call> {
    if t.Asleep? then Awake(t.call) else t
  }

  datatype WriterCall = Write(bytes: seq<byte>) | Flush

  /** The bytes a reader gets when it has the lock, or nothing if it has to wait. */
  function TryRead(p: Shared, want: nat): Option<seq<byte>> {
    if p.buffer == [] && !p.writerClosed then None else Some(p.buffer[..Min(want, |p.buffer|)])
  }

  /** How many bytes a writer can hand over when it has the lock, or nothing if it has to wait. */
  function TryWrite(p: Shared, bytes: seq<byte>): Option<Result<nat>> {
    if p.readerClosed then Some(Err)
    else if |p.buffer| < p.capacity then Some(Ok(Min(|bytes|, p.capacity - |p.buffer|)))
    else None
  }

  /** The result of a flush, or nothing if it has to wait. */
  function TryFlush(p: Shared): Option<Result<()>> {
    if p.buffer == [] then Some(Ok(())) else if p.readerClosed then Some(Err) else None
  }

  /** The pipe, both threads, and all bytes accepted from the writer and delivered to the reader. */
  datatype State = State(
    pipe: Shared, reader: Thread<nat>, writer: Thread<WriterCall>, accepted: seq<byte>, delivered: seq<byte>)

  function Initial(capacity: nat): State {
    State(Shared([], capacity, false, false), Idle, Idle, [], [])
  }

  /** One step of one thread. Between two steps, the lock is free. A sleeping thread may also wake up
      without having been notified. */
  datatype Step =
    | StartRead(want: nat) | ResumeRead | CloseReader | WakeReader
    | StartWriter(call: WriterCall) | ResumeWriter | CloseWriter | WakeWriter

  predicate Enabled(s: State, step: Step) {
    match step
    case StartRead(_) => s.reader == Idle && !s.pipe.readerClosed
    case CloseReader => s.reader == Idle && !s.pipe.readerClosed
    case ResumeRead => s.reader.Awake?
    case WakeReader => s.reader.Asleep?
    case StartWriter(_) => s.writer == Idle && !s.pipe.writerClosed
    case CloseWriter => s.writer == Idle && !s.pipe.writerClosed
    case ResumeWriter => s.writer.Awake?
    case WakeWriter => s.writer.Asleep?
  }

  /** The reader has the lock: it takes bytes, or falls asleep. */
  function Reading(s: State, want: nat): State {
    match TryRead(s.pipe, want)
    case None => s.(reader := Asleep(want))
    case Some(bytes) =>
      s.(pipe := s.pipe.(buffer := s.pipe.buffer[|bytes|..]), delivered := s.delivered + bytes,
         reader := Idle, writer := Notify(s.writer))
  }

  /** The writer has the lock. */
  function Writing(s: State, call: WriterCall): State {
    match call
    case Write(bytes) => (
      match TryWrite(s.pipe, bytes)
      case None => s.(writer := Asleep(call))
      case Some(Err) => s.(writer := Idle)
      case Some(Ok(n)) =>
        s.(pipe := s.pipe.(buffer := s.pipe.buffer + bytes[..n]), accepted := s.accepted + bytes[..n],
           writer := Idle, reader := Notify(s.reader)))
    case Flush =>
      if TryFlush(s.pipe) == None then s.(writer := Asleep(call)) else s.(writer := Idle)
  }

  function Apply(s: State, step: Step): State
    requires Enabled(s, step)
  {
    match step
    case StartRead(want) => Reading(s, want)
    case ResumeRead => Reading(s, s.reader.call)
    case CloseReader => s.(pipe := s.pipe.(readerClosed := true), writer := Notify(s.writer))
    case WakeReader => s.(reader := Awake(s.reader.call))
    case StartWriter(call) => Writing(s, call)
    case ResumeWriter => Writing(s, s.writer.call)
    case CloseWriter => s.(pipe := s.pipe.(writerClosed := true), reader := Notify(s.reader))
    case WakeWriter => s.(writer := Awake(s.writer.call))
  }

  /** The given steps, in some interleaving of the threads, lead from one state to another. */
  predicate Leads(s: State, steps: seq<Step>, t: State)
    decreases |steps|
  {
    if steps == [] then s == t else Enabled(s, steps[0]) && Leads(Apply(s, steps[0]), steps[1..], t)
  }

  /** What holds in every state. Bytes are neither lost, made up, nor reordered; and no thread sleeps
      while it could go on, so that no wakeup is lost. */
  ghost predicate Invariant(s: State, capacity: nat) {
    Conserved(s) && s.pipe.capacity == capacity && |s.pipe.buffer| <= capacity &&
    (s.reader.Asleep? ==> TryRead(s.pipe, s.reader.call) == None) &&
    (s.writer.Asleep? ==> MustWait(s.pipe, s.writer.call)) &&
    (s.pipe.readerClosed ==> s.reader == Idle) && (s.pipe.writerClosed ==> s.writer == Idle)
  }

  ghost predicate Conserved(s: State) {
    s.accepted == s.delivered + s.pipe.buffer
  }

  ghost predicate MustWait(p: Shared, call: WriterCall) {
    match call
    case Write(bytes) => TryWrite(p, bytes) == None
    case Flush => TryFlush(p) == None
  }

  lemma ReadingKeeps(s: State, capacity: nat, want: nat)
    requires Invariant(s, capacity) && !s.pipe.readerClosed
    ensures Invariant(Reading(s, want), capacity)
  {
    if TryRead(s.pipe, want).Some? {
      var n := Min(want, |s.pipe.buffer|);
      assert s.pipe.buffer == s.pipe.buffer[..n] + s.pipe.buffer[n..];
    }
  }

  lemma WritingKeeps(s: State, capacity: nat, call: WriterCall)
    requires Invariant(s, capacity) && !s.pipe.writerClosed
    ensures Invariant(Writing(s, call), capacity)
  {
  }

  lemma StepKeeps(s: State, capacity: nat, step: Step)
    requires Invariant(s, capacity) && Enabled(s, step)
    ensures Invariant(Apply(s, step), capacity)
  {
    match step
    case StartRead(want) => ReadingKeeps(s, capacity, want);
    case ResumeRead => ReadingKeeps(s, capacity, s.reader.call);
    case StartWriter(call) => WritingKeeps(s, capacity, call);
    case ResumeWriter => WritingKeeps(s, capacity, s.writer.call);
    case _ =>
  }

  lemma {:induction false} LeadsKeeps(s: State, capacity: nat, steps: seq<Step>, t: State)
    requires Invariant(s, capacity) && Leads(s, steps, t)
    ensures Invariant(t, capacity)
    decreases |steps|
  {
    if steps != [] {
      StepKeeps(s, capacity, steps[0]);
      LeadsKeeps(Apply(s, steps[0]), capacity, steps[1..], t);
    }
  }

  /** Over every interleaving, the bytes delivered are the first of the bytes accepted, and the rest
      of them is in the buffer, which stays within its capacity. */
  lemma PipeIsFifo(capacity: nat, steps: seq<Step>, s: State)
    requires Leads(Initial(capacity), steps, s)
    ensures s.delivered <= s.accepted && s.accepted[|s.delivered|..] == s.pipe.buffer && |s.pipe.buffer| <= capacity
    ensures Invariant(s, capacity)
  {
    LeadsKeeps(Initial(capacity), capacity, steps, s);
  }

  ghost predicate NeverStuck(capacity: nat) {
    forall steps, s: State :: Leads(Initial(capacity), steps, s) ==> !(s.reader.Asleep? && s.writer.Asleep?)
  }

  /** No state with both threads asleep is ever reached if and only if the pipe has some capacity. */
  lemma NoDeadlock(capacity: nat)
    ensures 0 < capacity <==> NeverStuck(capacity)
  {
    if 0 < capacity {
      forall steps, s: State | Leads(Initial(capacity), steps, s)
        ensures !(s.reader.Asleep? && s.writer.Asleep?)
      {
        PipeIsFifo(capacity, steps, s);
      }
    } else {
      var s := Deadlock();
      assert capacity == 0;
    }
  }

  /** Without capacity, the reader waits for the writer, and the writer for the reader. */
  lemma Deadlock() returns (s: State)
    ensures Leads(Initial(0), [StartRead(1), StartWriter(Write([]))], s)
    ensures s.reader.Asleep? && s.writer.Asleep?
  {
    var steps := [StartRead(1), StartWriter(Write([]))];
    var waiting := Apply(Initial(0), steps[0]);
    s := Apply(waiting, steps[1]);
    assert steps[1..] == [steps[1]] && steps[1..][1..] == [];
    assert Leads(s, [], s) && Leads(waiting, steps[1..], s);
  }

  /** Once the writer has closed its end, no byte is accepted any more. */
  lemma {:induction false} NothingAfterClose(s: State, steps: seq<Step>, t: State)
    requires Leads(s, steps, t) && s.pipe.writerClosed && s.writer == Idle
    ensures t.accepted == s.accepted
    decreases |steps|
  {
    if steps != [] {
      NothingAfterClose(Apply(s, steps[0]), steps[1..], t);
    }
  }

  /** A reader that asks for bytes and gets none has got all bytes there will ever be, and the writer
      has closed its end. */
  lemma EndOfStream(capacity: nat, steps: seq<Step>, s: State, want: nat, later: seq<Step>, t: State)
    requires Leads(Initial(capacity), steps, s) && Leads(s, later, t)
    requires TryRead(s.pipe, want) == Some([]) && 0 < want
    ensures s.pipe.writerClosed && s.delivered == t.accepted == t.delivered
  {
    PipeIsFifo(capacity, steps, s);
    NothingAfterClose(s, later, t);
    LeadsKeeps(s, capacity, later, t);
    DeliveredGrows(s, later, t);
  }

  /** What has been delivered and accepted is never taken back. */
  lemma {:induction false} DeliveredGrows(s: State, steps: seq<Step>, t: State)
    requires Leads(s, steps, t)
    ensures s.delivered <= t.delivered && s.accepted <= t.accepted
    decreases |steps|
  {
    if steps != [] {
      DeliveredGrows(Apply(s, steps[0]), steps[1..], t);
    }
  }

  /** A flush succeeds only when everything accepted has been delivered; it fails only when the reader
      has gone and left something behind. */
  lemma FlushMeansDrained(capacity: nat, steps: seq<Step>, s: State)
    requires Leads(Initial(capacity), steps, s)
    ensures TryFlush(s.pipe) == Some(Ok(())) <==> s.delivered == s.accepted
    ensures TryFlush(s.pipe) == Some(Err) <==> s.pipe.readerClosed && s.delivered != s.accepted
  {
    PipeIsFifo(capacity, steps, s);
    assert s.delivered == s.accepted ==> |s.pipe.buffer| == 0;
  }

  /** A sleeping thread can be helped: the other end is open, and the other thread is awake or free to
      make a call. Whatever the other thread then hands over, takes, or closes wakes it. */
  lemma SleeperIsHelped(capacity: nat, steps: seq<Step>, s: State, step: Step)
    requires Leads(Initial(capacity), steps, s) && 0 < capacity && Enabled(s, step)
    ensures s.reader.Asleep? ==> !s.pipe.writerClosed && !s.writer.Asleep?
    ensures s.writer.Asleep? ==> !s.pipe.readerClosed && !s.reader.Asleep?
    ensures var t := Apply(s, step);
      (s.reader.Asleep? && (t.accepted != s.accepted || t.pipe.writerClosed) ==> t.reader.Awake?) &&
      (s.writer.Asleep? && (t.delivered != s.delivered || t.pipe.readerClosed) ==> t.writer.Awake?)
  {
    PipeIsFifo(capacity, steps, s);
  }

  /** In this step the writer has the lock for a call. */
  predicate Writes(s: State, step: Step, call: WriterCall) {
    step == StartWriter(call) || (step.ResumeWriter? && s.writer == Awake(call))
  }

  predicate Reads(s: State, step: Step, want: nat) {
    step == StartRead(want) || (step.ResumeRead? && s.reader == Awake(want))
  }

  /** A write that is not put to sleep makes progress: it hands over all of its bytes, or as many of the first
      of them as fill the buffer, and says how many. It sleeps exactly while the buffer is full and the reader
      is there, and fails exactly if the reader has gone; and then nothing is handed over. */
  lemma WriteProgress(capacity: nat, steps: seq<Step>, s: State, step: Step, bytes: seq<byte>)
    requires Leads(Initial(capacity), steps, s) && Enabled(s, step) && Writes(s, step, Write(bytes))
    ensures var t, n := Apply(s, step), |Apply(s, step).accepted| - |s.accepted|;
      (t.writer.Asleep? <==> !s.pipe.readerClosed && |s.pipe.buffer| == capacity) &&
      (TryWrite(s.pipe, bytes) == Some(Err) <==> s.pipe.readerClosed) &&
      (t.writer.Asleep? || s.pipe.readerClosed ==> t.accepted == s.accepted && t.pipe == s.pipe) &&
      (t.writer == Idle && !s.pipe.readerClosed ==>
         0 <= n <= |bytes| && t.accepted == s.accepted + bytes[..n] && TryWrite(s.pipe, bytes) == Some(Ok(n)) &&
         (n == |bytes| || |t.pipe.buffer| == capacity))
  {
    PipeIsFifo(capacity, steps, s);
  }

  /** A read that is not put to sleep gets as many bytes as it wants, or empties the buffer. It sleeps exactly
      while the buffer is empty and the writer is there. */
  lemma ReadProgress(capacity: nat, steps: seq<Step>, s: State, step: Step, want: nat)
    requires Leads(Initial(capacity), steps, s) && Enabled(s, step) && Reads(s, step, want)
    ensures var t, n := Apply(s, step), |Apply(s, step).delivered| - |s.delivered|;
      (t.reader.Asleep? <==> s.delivered == s.accepted && !s.pipe.writerClosed) &&
      (t.reader.Asleep? ==> t.delivered == s.delivered && t.pipe == s.pipe) &&
      (t.reader == Idle ==>
         0 <= n <= want && |s.delivered| + n <= |s.accepted| && t.delivered == s.accepted[..|s.delivered| + n] &&
         TryRead(s.pipe, want) == Some(t.delivered[|s.delivered|..]) && (n == want || t.delivered == t.accepted))
  {
    PipeIsFifo(capacity, steps, s);
    assert s.delivered == s.accepted ==> |s.pipe.buffer| == 0;
  }

  /** The shared state with its critical sections. `None` is returned where the thread has to wait. */
  class PipeState {
    const capacity: nat
    var buffer: seq<byte>
    var writerClosed: bool
    var readerClosed: bool

    ghost function View(): Shared
      reads this
    {
      Shared(buffer, capacity, writerClosed, readerClosed)
    }

    constructor (capacity: nat)
      ensures View() == Initial(capacity).pipe
    {
      this.capacity := capacity;
      buffer, writerClosed, readerClosed := [], false, false;
    }

    /** Read under the lock, byte by byte. */
    method Read(want: nat) returns (r: Option<seq<byte>>)
      modifies this`buffer
      ensures r == TryRead(old(View()), want)
      ensures buffer == if r == None then old(buffer) else old(buffer)[|r.value|..]
    {
      if buffer == [] && !writerClosed {
        return None;
      }
      var size := Min(want, |buffer|);
      var bytes: seq<byte> := [];
      for i := 0 to size
        invariant |bytes| == i && bytes + buffer == old(buffer)
      {
        bytes, buffer := bytes + [buffer[0]], buffer[1..];
      }
      return Some(bytes);
    }

    /** Write under the lock. */
    method Write(bytes: seq<byte>) returns (r: Option<Result<nat>>)
      requires |buffer| <= capacity
      modifies this`buffer
      ensures r == TryWrite(old(View()), bytes) && |buffer| <= capacity
      ensures buffer == old(buffer) + (if r.Some? && r.value.Ok? then bytes[..r.value.value] else [])
    {
      if readerClosed {
        return Some(Err);
      }
      var freeSpace := capacity - |buffer|;
      if freeSpace == 0 {
        return None;
      }
      var size := Min(|bytes|, freeSpace);
      buffer := buffer + bytes[..size];
      return Some(Ok(size));
    }

    /** Flush under the lock. */
    method Flush() returns (r: Option<Result<()>>)
      ensures r == TryFlush(View())
    {
      if buffer != [] {
        if readerClosed {
          return Some(Err);
        }
        return None;
      }
      return Some(Ok(()));
    }
  }
}
