/**
 * kernel/ipc/pipe.c: readers, writers and closers of one pipe as interleaved steps.  A step is one critical
 * section under the pipe's lock, or one wake-up of a wait queue.  A sleeper is on its queue before the lock is
 * dropped, so testing and going to sleep is one step.
 */
module PipeProtocol {
  import opened Bytes
  import opened PipeRing

  const EINTR: int := 4
  const EAGAIN: int := 11
  const EPIPE: int := 32

  /** Where a thread stands: what is left of its buffer and how much of it the pipe has taken, for a writer. */
  datatype Local =
    | Idle
    | Reading(want: nat, nonblock: bool)          // about to take the lock and look for bytes
    | ReadAsleep(want: nat)                       // on the readers' queue
    | ReadWake                                    // has its bytes; about to wake the writers
    | Writing(rest: seq<byte>, done: nat, nonblock: bool)   // about to take the lock at the top of the loop
    | WriteWake(rest: seq<byte>, done: nat)       // filled the ring; about to wake the readers
    | WriteCheck(rest: seq<byte>, done: nat)      // about to retake the lock and see whether the ring is still full
    | WriteAsleep(rest: seq<byte>, done: nat)     // on the writers' queue
    | WriteDone(rest: seq<byte>, done: nat)       // about to wake the readers and return
    | Closing(noReaders: bool, noWriters: bool)   // closed an end; about to make the wake-ups it found due

  /**
   * What a call returned: bytes; 0 for the end of the file, noted with how much had been accepted by then; an
   * error of a read; or the result of a write, noted with whether it sent SIGPIPE.
   */
  datatype Event =
    | Got(thread: nat, want: nat, bytes: seq<byte>)
    | Eof(thread: nat, accepted: nat, writers: nat)
    | NoRead(thread: nat, error: int)
    | Wrote(thread: nat, result: int, sigpipe: bool)

  datatype State = State(ring: seq<byte>, readers: nat, writers: nat, freed: bool, threads: map<nat, Local>,
                         accepted: seq<byte>, taken: seq<byte>, log: seq<Event>)

  datatype Step =
    | StartRead(want: nat, nonblock: bool)
    | StartWrite(bytes: seq<byte>, nonblock: bool)
    | Look                            // pipe_read_ep under the lock
    | WakeWriters                     // after a read
    | Push                            // pipe_write_ep under the lock
    | WakeReaders                     // after a write
    | Recheck                         // pipe_write_ep after it woke the readers
    | Interrupt
    | Dup(reader: bool)
    | Close(reader: bool)
    | Notify                          // one of a closer's wake-ups

  function Min(a: nat, b: nat): nat { if a < b then a else b }

  /** The cast to 32 bits that lengths go through on their way to the ring. */
  function Cut(n: nat): nat { n % 0x1_0000_0000 }

  function Space(ring: seq<byte>): nat { if |ring| < PIPE_CAPACITY then PIPE_CAPACITY - |ring| else 0 }

  /** A write that ends early reports what it managed, and the error only if that is nothing. */
  function Result(done: nat, error: int): int { if done > 0 then done else -error }

  ghost function Put(s: State, t: nat, l: Local): State { s.(threads := s.threads[t := l]) }

  /** Thread t returns, and this is what its caller sees. */
  ghost function Return(s: State, t: nat, e: Event): State { Put(s, t, Idle).(log := s.log + [e]) }

  /** waitq_wake_all on either queue. */
  function Woken(l: Local, readers: bool): Local {
    if readers && l.ReadAsleep? then Reading(l.want, false)
    else if !readers && l.WriteAsleep? then Writing(l.rest, l.done, false)
    else l
  }

  ghost function WakeAll(ts: map<nat, Local>, readers: bool): map<nat, Local> {
    map u | u in ts :: Woken(ts[u], readers)
  }

  ghost predicate LookNext(s: State, t: nat, l: Local, s': State)
    requires l.Reading?
  {
    if s.ring != [] then
      var n := Min(Cut(l.want), |s.ring|);
      s' == Put(s, t, ReadWake).(ring := s.ring[n..], taken := s.taken + s.ring[..n],
        log := s.log + [Got(t, l.want, s.ring[..n])])
    else if s.writers == 0 then s' == Return(s, t, Eof(t, |s.accepted|, s.writers))
    else if l.nonblock then s' == Return(s, t, NoRead(t, -EAGAIN))
    else s' == Put(s, t, ReadAsleep(l.want))
  }

  ghost predicate PushNext(s: State, t: nat, l: Local, s': State)
    requires l.Writing?
  {
    if s.readers == 0 then s' == Return(s, t, Wrote(t, Result(l.done, EPIPE), true))
    else
      var n := Min(Cut(|l.rest|), Space(s.ring));
      s' == Put(s, t, if n == |l.rest| || l.nonblock then WriteDone(l.rest[n..], l.done + n)
        else WriteWake(l.rest[n..], l.done + n)).(ring := s.ring + l.rest[..n], accepted := s.accepted + l.rest[..n])
  }

  /** Thread t takes the step. */
  ghost predicate Next(s: State, t: nat, step: Step, s': State) {
    && !s.freed && t in s.threads
    && var l := s.threads[t];
    match step
    case StartRead(want, nonblock) => l.Idle? && want > 0 && s' == Put(s, t, Reading(want, nonblock))
    case StartWrite(bytes, nonblock) => l.Idle? && bytes != [] && s' == Put(s, t, Writing(bytes, 0, nonblock))
    case Look => l.Reading? && LookNext(s, t, l, s')
    case WakeWriters => l.ReadWake? && s' == s.(threads := WakeAll(s.threads, false)[t := Idle])
    case Push => l.Writing? && PushNext(s, t, l, s')
    case WakeReaders =>
      || (l.WriteWake? && s' == s.(threads := WakeAll(s.threads, true)[t := WriteCheck(l.rest, l.done)]))
      || (l.WriteDone? && s' == s.(threads := WakeAll(s.threads, true)[t := Idle],
            log := s.log + [Wrote(t, Result(l.done, EAGAIN), false)]))
    case Recheck => l.WriteCheck? &&
      s' == Put(s, t, if |s.ring| == PIPE_CAPACITY then WriteAsleep(l.rest, l.done) else Writing(l.rest, l.done, false))
    case Interrupt =>
      || (l.ReadAsleep? && s' == Return(s, t, NoRead(t, -EINTR)))
      || (l.WriteAsleep? && s' == Return(s, t, Wrote(t, Result(l.done, EINTR), false)))
    case Dup(reader) =>
      && l.Idle?
      && (if reader then s.readers > 0 && s' == s.(readers := s.readers + 1)
          else s.writers > 0 && s' == s.(writers := s.writers + 1))
    case Close(reader) =>
      && l.Idle? && (if reader then s.readers > 0 else s.writers > 0)
      && var r, w := if reader then s.readers - 1 else s.readers, if reader then s.writers else s.writers - 1;
      s' == if r + w == 0 then s.(readers := r, writers := w, freed := true)
            else Put(s, t, Closing(r == 0, w == 0)).(readers := r, writers := w)
    case Notify =>
      && l.Closing?
      && if l.noWriters then s' == s.(threads := WakeAll(s.threads, true)[t := Closing(l.noReaders, false)])
         else if l.noReaders then s' == s.(threads := WakeAll(s.threads, false)[t := Idle])
         else s' == Put(s, t, Idle)
  }

  // ------------------------------------------------- order

  /** What was read, followed by what is in the ring, is what was accepted. */
  ghost predicate Ordered(s: State) { |s.ring| <= PIPE_CAPACITY && s.accepted == s.taken + s.ring }

  lemma OrderedNext(s: State, t: nat, step: Step, s': State)
    requires Ordered(s) && Next(s, t, step, s')
    ensures Ordered(s') && s.taken <= s'.taken && s.accepted <= s'.accepted
  {
    var l := s.threads[t];
    if step.Look? && s.ring != [] {
      var n := Min(Cut(l.want), |s.ring|);
      Regroup(s.taken, s.ring[..n], s.ring[n..]);
      assert s.ring == s.ring[..n] + s.ring[n..];
    }
    if step.Push? && s.readers > 0 {
      var n := Min(Cut(|l.rest|), Space(s.ring));
      Regroup(s.taken, s.ring, l.rest[..n]);
    }
  }

  /** What the reads of a log returned, in order. */
  ghost function Delivered(log: seq<Event>): seq<byte> {
    if log == [] then [] else
      var rest, last := log[..|log| - 1], log[|log| - 1];
      if last.Got? then Delivered(rest) + last.bytes else Delivered(rest)
  }

  /**
   * The reads returned what was taken from the ring.  One comes back empty, which its caller takes for the end of
   * the file, exactly if its length is a multiple of 2^32.  Each true end of file came when no writer was open and
   * every byte accepted until then had been read.
   */
  ghost predicate Truthful(s: State) {
    && Delivered(s.log) == s.taken
    && forall i :: 0 <= i < |s.log| ==> TruthfulAt(s.log, i, s.accepted)
  }

  ghost predicate TruthfulAt(log: seq<Event>, i: int, accepted: seq<byte>)
    requires 0 <= i < |log|
  {
    match log[i]
    case Got(_, want, bytes) => want > 0 && (bytes == [] <==> Cut(want) == 0)
    case Eof(_, n, writers) => writers == 0 && n <= |accepted| && Delivered(log[..i]) == accepted[..n]
    case _ => true
  }

  lemma TruthfulMore(log: seq<Event>, e: Event, i: int, accepted: seq<byte>, accepted': seq<byte>)
    requires 0 <= i < |log| && TruthfulAt(log, i, accepted) && accepted <= accepted'
    ensures TruthfulAt(log + [e], i, accepted') && TruthfulAt(log, i, accepted')
  {
    assert (log + [e])[..i] == log[..i];
    assert forall n :: 0 <= n <= |accepted| ==> accepted'[..n] == accepted[..n];
  }

  /** A read of no bytes returns before it takes the lock. */
  ghost predicate Asking(s: State) {
    forall u :: u in s.threads && (s.threads[u].Reading? || s.threads[u].ReadAsleep?) ==> s.threads[u].want > 0
  }

  lemma AskingNext(s: State, t: nat, step: Step, s': State)
    requires Asking(s) && Next(s, t, step, s')
    ensures Asking(s')
  {
  }

  /** A step that ends no read leaves its log true. */
  lemma TruthfulStill(log: seq<Event>, e: Event, accepted: seq<byte>, accepted': seq<byte>)
    requires accepted <= accepted' && forall i :: 0 <= i < |log| ==> TruthfulAt(log, i, accepted)
    ensures forall i :: 0 <= i < |log| ==> TruthfulAt(log, i, accepted') && TruthfulAt(log + [e], i, accepted')
  {
    forall i | 0 <= i < |log| ensures TruthfulAt(log, i, accepted') && TruthfulAt(log + [e], i, accepted') {
      TruthfulMore(log, e, i, accepted, accepted');
    }
  }

  lemma TruthfulNext(s: State, t: nat, step: Step, s': State)
    requires Ordered(s) && Truthful(s) && Asking(s) && Next(s, t, step, s')
    ensures Truthful(s')
  {
    OrderedNext(s, t, step, s');
    if s'.log == s.log {
      TruthfulStill(s.log, NoRead(0, 0), s.accepted, s'.accepted);
    } else {
      var k := |s.log|;
      var e := s'.log[k];
      assert s'.log == s.log + [e] && s'.log[..k] == s.log && s'.accepted == s.accepted;
      TruthfulStill(s.log, e, s.accepted, s'.accepted);
      assert TruthfulAt(s'.log, k, s'.accepted) by {
        assert s.ring == [] ==> s.accepted == s.taken && s.accepted[..|s.accepted|] == s.accepted;
      }
    }
  }

  // ------------------------------------------------- wake-ups

  ghost predicate OwesReaders(l: Local) { l.WriteWake? || l.WriteDone? || (l.Closing? && l.noWriters) }

  ghost predicate OwesWriters(l: Local) { l.ReadWake? || (l.Closing? && l.noReaders) }

  ghost predicate SomeOwes(s: State, readers: bool) {
    exists u :: u in s.threads && if readers then OwesReaders(s.threads[u]) else OwesWriters(s.threads[u])
  }

  /** No reader sleeps while there are bytes, or no writer is left, unless a wake-up is on its way. */
  ghost predicate ReadersServed(s: State) {
    !s.freed && (s.ring != [] || s.writers == 0) && !SomeOwes(s, true) ==>
      forall u :: u in s.threads ==> !s.threads[u].ReadAsleep?
  }

  /** The same for writers while there is space, or no reader is left. */
  ghost predicate WritersServed(s: State) {
    !s.freed && (|s.ring| < PIPE_CAPACITY || s.readers == 0) && !SomeOwes(s, false) ==>
      forall u :: u in s.threads ==> !s.threads[u].WriteAsleep?
  }

  /** A wake-up that is owed stays owed until its thread makes it. */
  lemma StillOwed(s: State, t: nat, step: Step, s': State, readers: bool)
    requires Next(s, t, step, s') && SomeOwes(s, readers)
    requires !(if readers then OwesReaders(s.threads[t]) else OwesWriters(s.threads[t]))
    ensures SomeOwes(s', readers)
  {
    var u :| u in s.threads && if readers then OwesReaders(s.threads[u]) else OwesWriters(s.threads[u]);
    assert u != t && u in s'.threads && s'.threads[u] == s.threads[u];
  }

  lemma ReadersNext(s: State, t: nat, step: Step, s': State)
    requires ReadersServed(s) && Next(s, t, step, s')
    ensures ReadersServed(s')
  {
    if !s'.freed && (s'.ring != [] || s'.writers == 0) && !SomeOwes(s', true) {
      var l := s.threads[t];
      assert !OwesReaders(s'.threads[t]);
      if !OwesReaders(l) && SomeOwes(s, true) { StillOwed(s, t, step, s', true); }
      forall u | u in s'.threads ensures !s'.threads[u].ReadAsleep? {
        assert u in s.threads;
      }
    }
  }

  /** A writer about to sleep on a full ring that no reader is left to empty. */
  ghost predicate LateSleep(s: State, t: nat, step: Step) {
    step.Recheck? && |s.ring| == PIPE_CAPACITY && s.readers == 0
  }

  lemma WritersNext(s: State, t: nat, step: Step, s': State)
    requires Ordered(s) && WritersServed(s) && Next(s, t, step, s') && (LateSleep(s, t, step) ==> SomeOwes(s, false))
    ensures WritersServed(s')
  {
    if !s'.freed && (|s'.ring| < PIPE_CAPACITY || s'.readers == 0) && !SomeOwes(s', false) {
      var l := s.threads[t];
      assert !OwesWriters(s'.threads[t]);
      if !OwesWriters(l) && SomeOwes(s, false) { StillOwed(s, t, step, s', false); }
      forall u | u in s'.threads ensures !s'.threads[u].WriteAsleep? {
        assert u in s.threads;
      }
    }
  }

  /**
   * Writers are served after every step but one: going to sleep on a full ring, with no reader left and no
   * wake-up on its way, as the last reader may have closed between the test at the top of the loop and this one.
   */
  lemma WritersExactly(s: State, t: nat, step: Step, s': State)
    requires Ordered(s) && WritersServed(s) && Next(s, t, step, s')
    ensures WritersServed(s') <==> !(LateSleep(s, t, step) && !SomeOwes(s, false))
  {
    if LateSleep(s, t, step) && !SomeOwes(s, false) {
      assert s'.threads[t].WriteAsleep?;
      forall u | u in s'.threads
        ensures !OwesWriters(s'.threads[u]) { assert u != t ==> s'.threads[u] == s.threads[u]; }
    } else {
      WritersNext(s, t, step, s');
    }
  }

  // ------------------------------------------------- runs

  /** pipe_create: an empty pipe with one end of each kind, and threads that have not used it yet. */
  ghost predicate Init(s: State) {
    && s.ring == s.accepted == s.taken == [] && s.log == [] && s.readers == 1 && s.writers == 1 && !s.freed
    && forall u :: u in s.threads ==> s.threads[u].Idle?
  }

  datatype Move = Move(thread: nat, step: Step)

  ghost predicate Run(ss: seq<State>, ms: seq<Move>) {
    |ss| == |ms| + 1 && Init(ss[0]) && forall i :: 0 <= i < |ms| ==> Taken(ss, ms, i)
  }

  /** Move i of the run. */
  ghost predicate Taken(ss: seq<State>, ms: seq<Move>, i: nat)
    requires i < |ms| && |ss| == |ms| + 1
  {
    Next(ss[i], ms[i].thread, ms[i].step, ss[i + 1])
  }

  /** Over every run: reads return the accepted bytes in order, the end of the file only after the last of them,
      and no reader misses a wake-up. */
  lemma {:induction false} RunServed(ss: seq<State>, ms: seq<Move>, i: nat)
    requires Run(ss, ms) && i <= |ms|
    ensures Ordered(ss[i]) && Delivered(ss[i].log) <= ss[i].accepted && Truthful(ss[i]) && Asking(ss[i]) &&
      ReadersServed(ss[i])
    ensures (forall j :: 0 <= j < i ==> !LateSleep(ss[j], ms[j].thread, ms[j].step)) ==> WritersServed(ss[i])
  {
    if i > 0 {
      var s, m := ss[i - 1], ms[i - 1];
      RunServed(ss, ms, i - 1);
      assert Taken(ss, ms, i - 1);
      OrderedNext(s, m.thread, m.step, ss[i]);
      TruthfulNext(s, m.thread, m.step, ss[i]);
      AskingNext(s, m.thread, m.step, ss[i]);
      ReadersNext(s, m.thread, m.step, ss[i]);
      if WritersServed(s) { WritersExactly(s, m.thread, m.step, ss[i]); }
    }
  }

  /** Threads 1 and 2 of a pipe in this state. */
  ghost function Two(ring: seq<byte>, readers: nat, one: Local, two: Local): State {
    State(ring, readers, 1, false, map[1 := one, 2 := two], ring, [], [])
  }

  lemma Filled(bytes: seq<byte>)
    requires PIPE_CAPACITY < |bytes| < 0x1_0000_0000
    ensures var full, rest := bytes[..PIPE_CAPACITY], bytes[PIPE_CAPACITY..];
            Next(Two([], 1, Writing(bytes, 0, false), Idle), 1, Push,
              Two(full, 1, WriteWake(rest, PIPE_CAPACITY), Idle))
  {
    var full, rest := bytes[..PIPE_CAPACITY], bytes[PIPE_CAPACITY..];
    assert [] + full == full;
    assert map[1 := Writing(bytes, 0, false), 2 := Idle][1 := WriteWake(rest, PIPE_CAPACITY)] ==
      map[1 := WriteWake(rest, PIPE_CAPACITY), 2 := Idle];
  }

  lemma Rewoken(ring: seq<byte>, rest: seq<byte>, n: nat)
    ensures Next(Two(ring, 1, WriteWake(rest, n), Idle), 1, WakeReaders, Two(ring, 1, WriteCheck(rest, n), Idle))
  {
    var ts: map<nat, Local> := map[1 := WriteWake(rest, n), 2 := Idle];
    assert WakeAll(ts, true)[1 := WriteCheck(rest, n)] == map[1 := WriteCheck(rest, n), 2 := Idle];
  }

  lemma LastReaderGone(ring: seq<byte>, rest: seq<byte>, n: nat)
    ensures Next(Two(ring, 1, WriteCheck(rest, n), Idle), 2, Close(true),
      Two(ring, 0, WriteCheck(rest, n), Closing(true, false)))
    ensures Next(Two(ring, 0, WriteCheck(rest, n), Closing(true, false)), 2, Notify,
      Two(ring, 0, WriteCheck(rest, n), Idle))
  {
    var ts: map<nat, Local> := map[1 := WriteCheck(rest, n), 2 := Closing(true, false)];
    assert map[1 := WriteCheck(rest, n), 2 := Idle][2 := Closing(true, false)] == ts;
    assert WakeAll(ts, false)[2 := Idle] == map[1 := WriteCheck(rest, n), 2 := Idle];
  }

  lemma Opened(bytes: seq<byte>)
    requires bytes != []
    ensures Next(Two([], 1, Idle, Idle), 1, StartWrite(bytes, false), Two([], 1, Writing(bytes, 0, false), Idle))
  {
    assert map[1 := Idle, 2 := Idle][1 := Writing(bytes, 0, false)] == map[1 := Writing(bytes, 0, false), 2 := Idle];
  }

  lemma FellAsleep(ring: seq<byte>, rest: seq<byte>, n: nat)
    requires |ring| == PIPE_CAPACITY
    ensures Next(Two(ring, 0, WriteCheck(rest, n), Idle), 1, Recheck, Two(ring, 0, WriteAsleep(rest, n), Idle))
  {
    assert map[1 := WriteCheck(rest, n), 2 := Idle][1 := WriteAsleep(rest, n)] ==
      map[1 := WriteAsleep(rest, n), 2 := Idle];
  }

  /** A run in which a writer is left asleep: no reader is left, and nobody owes it a wake-up. */
  lemma WriterLeftAsleep(bytes: seq<byte>) returns (ss: seq<State>, ms: seq<Move>)
    requires PIPE_CAPACITY < |bytes| < 0x1_0000_0000
    ensures Run(ss, ms)
    ensures
      var s := ss[|ms|];
      !s.freed && s.readers == 0 && 1 in s.threads && s.threads[1].WriteAsleep? && !SomeOwes(s, false)
  {
    var full, rest, n := bytes[..PIPE_CAPACITY], bytes[PIPE_CAPACITY..], PIPE_CAPACITY;
    ss := [Two([], 1, Idle, Idle), Two([], 1, Writing(bytes, 0, false), Idle), Two(full, 1, WriteWake(rest, n), Idle),
           Two(full, 1, WriteCheck(rest, n), Idle), Two(full, 0, WriteCheck(rest, n), Closing(true, false)),
           Two(full, 0, WriteCheck(rest, n), Idle), Two(full, 0, WriteAsleep(rest, n), Idle)];
    ms := [Move(1, StartWrite(bytes, false)), Move(1, Push), Move(1, WakeReaders), Move(2, Close(true)),
      Move(2, Notify), Move(1, Recheck)];
    Opened(bytes);
    Filled(bytes);
    Rewoken(full, rest, n);
    LastReaderGone(full, rest, n);
    FellAsleep(full, rest, n);
  }
}
