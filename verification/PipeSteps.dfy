/** kernel/ipc/pipe.c: the critical sections of pipe_read_ep, pipe_write_ep, pipe_dup_ep and pipe_close_ep on the pipe
    itself; each is a step of the protocol. */
module PipeSteps {
  import opened Bytes
  import opened PipeRing
  import opened PipeProtocol

  /** What a thread does next: return bytes, 0 or an error, go to sleep, or wake the other side and go on. */
  datatype Outcome = Data(bytes: seq<byte>) | Return(value: int) | Sleep | Wake(moved: nat, last: bool)

  class Pipe {
    const ring: Ring
    var refs: nat
    var readersOpen: nat
    var writersOpen: nat

    ghost predicate Valid()
      reads this, ring, ring.buf
    {
      ring.Valid() && refs == readersOpen + writersOpen
    }

    /** The pipe is the one of a state of the protocol. */
    ghost predicate Mirrors(s: State)
      reads this, ring, ring.buf
    {
      Valid() && s.ring == ring.Contents() && s.readers == readersOpen && s.writers == writersOpen && !s.freed
    }

    /** pipe_alloc and pipe_init_ends. */
    constructor ()
      ensures Mirrors(State([], 1, 1, false, map[], [], [], [])) && fresh(ring) && fresh(ring.buf)
    {
      ring := new Ring();
      refs, readersOpen, writersOpen := 2, 1, 1;
    }

    /** The loop of pipe_read_ep, up to its sleep or its end. */
    method ReadLocked(want: nat, nonblock: bool, ghost s: State, ghost t: nat) returns (o: Outcome, ghost s': State)
      requires Mirrors(s) && t in s.threads && s.threads[t] == Reading(want, nonblock)
      modifies ring`head, ring`count
      ensures Next(s, t, Look, s') && Mirrors(s')
      ensures match o
        case Data(bytes) => s'.log == s.log + [Got(t, want, bytes)] && s'.threads[t].ReadWake?
        case Return(value) => s'.threads[t].Idle? &&
          s'.log == s.log + [if value == 0 then Eof(t, |s.accepted|, 0) else NoRead(t, value)]
        case Sleep => s'.threads[t].ReadAsleep? && s'.log == s.log
        case Wake(_, _) => false
    {
      if ring.count > 0 {
        var bytes := ring.RingRead(Cut(want));
        s' := Put(s, t, ReadWake).(ring := s.ring[|bytes|..], taken := s.taken + bytes,
          log := s.log + [Got(t, want, bytes)]);
        return Data(bytes), s';
      }
      if writersOpen == 0 { return Return(0), PipeProtocol.Return(s, t, Eof(t, |s.accepted|, 0)); }
      if nonblock { return Return(-EAGAIN), PipeProtocol.Return(s, t, NoRead(t, -EAGAIN)); }
      return Sleep, Put(s, t, ReadAsleep(want));
    }

    /** One turn of the loop of pipe_write_ep, up to the wake-up that follows it. */
    method WriteLocked(rest: seq<byte>, written: nat, nonblock: bool, ghost s: State, ghost t: nat)
        returns (o: Outcome, ghost s': State)
      requires Mirrors(s) && t in s.threads && s.threads[t] == Writing(rest, written, nonblock)
      modifies ring`count, ring.buf
      ensures Next(s, t, Push, s') && Mirrors(s')
      ensures match o
        case Return(value) => s'.threads[t].Idle? && s'.log == s.log + [Wrote(t, value, true)]
        case Wake(n, last) => n <= |rest| && s'.log == s.log && s'.threads[t] ==
          if last then WriteDone(rest[n..], written + n) else WriteWake(rest[n..], written + n)
        case _ => false
    {
      if readersOpen == 0 {
        var value := if written > 0 then written else -EPIPE;
        return Return(value), PipeProtocol.Return(s, t, Wrote(t, value, true));
      }
      var n := ring.RingWrite(rest[..Cut(|rest|)]);
      assert rest[..Cut(|rest|)][..n] == rest[..n];
      var last := n == |rest| || nonblock;
      o := Wake(n, last);
      s' := Put(s, t, if last then WriteDone(rest[n..], written + n) else WriteWake(rest[n..], written + n))
            .(ring := s.ring + rest[..n], accepted := s.accepted + rest[..n]);
    }

    /** What pipe_write_ep looks at before it sleeps. */
    method Recheck(rest: seq<byte>, written: nat, ghost s: State, ghost t: nat) returns (asleep: bool, ghost s': State)
      requires Mirrors(s) && t in s.threads && s.threads[t] == WriteCheck(rest, written)
      ensures Next(s, t, PipeProtocol.Recheck, s') && Mirrors(s') && (asleep <==> s'.threads[t].WriteAsleep?)
    {
      asleep := ring.count == PIPE_CAPACITY;
      s' := Put(s, t, if asleep then WriteAsleep(rest, written) else Writing(rest, written, false));
    }

    /** pipe_dup_ep of an end that is open. */
    method Dup(asReader: bool, ghost s: State, ghost t: nat) returns (ghost s': State)
      requires Mirrors(s) && t in s.threads && s.threads[t].Idle? && (if asReader then s.readers > 0 else s.writers > 0)
      modifies this`refs, this`readersOpen, this`writersOpen
      ensures Next(s, t, PipeProtocol.Dup(asReader), s') && Mirrors(s')
    {
      refs := refs + 1;
      if asReader { readersOpen := readersOpen + 1; } else { writersOpen := writersOpen + 1; }
      s' := s.(readers := readersOpen, writers := writersOpen);
    }

    /** pipe_close_ep under the lock: whether the pipe is to be freed, and if not, whom to wake. */
    method CloseEnd(asReader: bool, ghost s: State, ghost t: nat)
        returns (last: bool, noWriters: bool, noReaders: bool, ghost s': State)
      requires Mirrors(s) && t in s.threads && s.threads[t].Idle? && (if asReader then s.readers > 0 else s.writers > 0)
      modifies this`refs, this`readersOpen, this`writersOpen
      ensures Next(s, t, Close(asReader), s') && last == s'.freed
      ensures !last ==> Mirrors(s') && s'.threads[t] == Closing(noReaders, noWriters)
    {
      if asReader { readersOpen := readersOpen - 1; } else { writersOpen := writersOpen - 1; }
      refs := refs - 1;
      last, noWriters, noReaders := refs == 0, writersOpen == 0, readersOpen == 0;
      s' := s.(readers := readersOpen, writers := writersOpen);
      s' := if last then s'.(freed := true) else Put(s', t, Closing(noReaders, noWriters));
    }
  }
}
