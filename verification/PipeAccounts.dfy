/**
 * kernel/ipc/pipe.c, call by call: what became of the bytes a write was asked to write and of the length a read
 * asked for, over every run of the protocol.  Nothing here looks at what a writer believes it has written: the
 * pieces are what the pipe accepted at each step.
 */
module PipeAccounts {
  import opened Bytes
  import opened PipeRing
  import opened PipeProtocol

  ghost predicate InWrite(l: Local) { l.Writing? || l.WriteWake? || l.WriteCheck? || l.WriteAsleep? || l.WriteDone? }

  ghost predicate InRead(l: Local) { l.Reading? || l.ReadAsleep? }

  /** What the pipe accepted in step k of a run. */
  ghost function Piece(ss: seq<State>, k: nat): seq<byte>
    requires k + 1 < |ss|
  {
    if |ss[k].accepted| <= |ss[k + 1].accepted| then ss[k + 1].accepted[|ss[k].accepted|..] else []
  }

  /** What it accepted from thread u in steps b to i. */
  ghost function Given(ss: seq<State>, ms: seq<Move>, u: nat, b: nat, i: nat): seq<byte>
    requires |ss| == |ms| + 1 && i <= |ms|
    decreases i
  {
    if i <= b then []
    else Given(ss, ms, u, b, i - 1) + if ms[i - 1].thread == u then Piece(ss, i - 1) else []
  }

  /** What it accepted from anybody in the first i steps. */
  ghost function AllGiven(ss: seq<State>, i: nat): seq<byte>
    requires i < |ss|
  {
    if i == 0 then [] else AllGiven(ss, i - 1) + Piece(ss, i - 1)
  }

  // ------------------------------------------------- one step

  /** A thread's part of a write after a step in which the pipe accepted piece from it. */
  ghost predicate Carried(l: Local, piece: seq<byte>, l': Local)
    requires InWrite(l)
  {
    && InWrite(l') && l.rest == piece + l'.rest && l'.done == l.done + |piece|
    && |piece| <= Cut(|l.rest|)
    && (l'.WriteDone? ==> l.WriteDone? || l'.rest == [] || (l.Writing? && l.nonblock))
    && (l'.WriteWake? || l'.WriteCheck? || l'.WriteAsleep? || (l'.Writing? && !l'.nonblock) ==>
          !l.WriteDone? && !(l.Writing? && l.nonblock))
    && !(l'.Writing? && l'.nonblock)
  }

  /** The step accepts bytes of a writer only, and from it the front of what it has left. */
  lemma PieceOwn(s: State, t: nat, step: Step, s': State)
    requires Ordered(s) && Next(s, t, step, s')
    ensures s.accepted <= s'.accepted
    ensures
      var piece := s'.accepted[|s.accepted|..];
      piece != [] ==> s.threads[t].Writing? && s.readers > 0 && piece <= s.threads[t].rest && InWrite(s'.threads[t])
  {
    OrderedNext(s, t, step, s');
  }

  /** A thread that does not take the step stays where it was, unless it is woken. */
  lemma OthersKeep(s: State, t: nat, step: Step, s': State, u: nat)
    requires Next(s, t, step, s') && u in s.threads && u != t
    ensures u in s'.threads
    ensures s'.threads[u] == s.threads[u] || s'.threads[u] == Woken(s.threads[u], true) ||
      s'.threads[u] == Woken(s.threads[u], false)
  {
  }

  lemma OwnCarried(s: State, t: nat, step: Step, s': State)
    requires Ordered(s) && Next(s, t, step, s') && InWrite(s.threads[t]) && InWrite(s'.threads[t])
    ensures s.accepted <= s'.accepted && Carried(s.threads[t], s'.accepted[|s.accepted|..], s'.threads[t])
  {
    OrderedNext(s, t, step, s');
    var l, piece := s.threads[t], s'.accepted[|s.accepted|..];
    if step.Push? && s.readers > 0 {
      var n := Min(Cut(|l.rest|), Space(s.ring));
      assert piece == l.rest[..n];
    } else {
      assert piece == [] && [] + l.rest == l.rest;
    }
  }

  /** A step of the pipe fills it, or takes all the writer has left, unless the cast of what is left cut it short. */
  lemma PushFills(s: State, t: nat, s': State)
    requires Ordered(s) && Next(s, t, Push, s') && s.readers > 0
    ensures
      var rest, rest' := s.threads[t].rest, s'.threads[t].rest;
      (|s'.ring| == PIPE_CAPACITY || rest' == [] <==> Cut(|rest|) == |rest| || Cut(|rest|) >= Space(s.ring))
  {
  }

  /** A thread goes to sleep exactly when it may wait and has nothing to do. */
  lemma SleepsExactly(s: State, t: nat, step: Step, s': State, u: nat)
    requires Next(s, t, step, s') && u in s.threads
    ensures u in s'.threads
    ensures !s.threads[u].ReadAsleep? ==>
      (s'.threads[u].ReadAsleep? <==>
        u == t && step.Look? && !s.threads[t].nonblock && s.ring == [] && s.writers > 0)
    ensures !s.threads[u].WriteAsleep? ==>
      (s'.threads[u].WriteAsleep? <==> u == t && step.Recheck? && |s.ring| == PIPE_CAPACITY)
  {
    if u != t { OthersKeep(s, t, step, s', u); }
  }

  // ------------------------------------------------- writes

  /** Thread u began a write of bytes at step b and is still in it after i steps. */
  ghost predicate Since(ss: seq<State>, ms: seq<Move>, u: nat, b: nat, bytes: seq<byte>, nonblock: bool, i: nat) {
    && |ss| == |ms| + 1 && b < i <= |ms| && ms[b] == Move(u, StartWrite(bytes, nonblock))
    && StillIn(ss[i], u) && forall j :: b < j <= i ==> WritesAt(ss, u, j)
  }

  ghost predicate WritesAt(ss: seq<State>, u: nat, j: nat)
    requires j < |ss|
  {
    StillIn(ss[j], u)
  }

  ghost predicate StillIn(s: State, u: nat) { u in s.threads && InWrite(s.threads[u]) }

  /** Where it stands: what was accepted from it is the front of its buffer, and what is left the rest. */
  ghost predicate Accounted(l: Local, bytes: seq<byte>, nonblock: bool, given: seq<byte>) {
    ( && InWrite(l) && bytes == given + l.rest && l.done == |given| && l.done + Cut(|l.rest|) == Cut(|bytes|)
      && (l.Writing? ==> l.nonblock == nonblock)
      && (l.WriteWake? || l.WriteCheck? || l.WriteAsleep? ==> !nonblock)
      && (l.WriteDone? ==> l.rest == [] || nonblock)) == true
  }

  lemma AccountedCarried(l: Local, bytes: seq<byte>, nonblock: bool, given: seq<byte>, piece: seq<byte>, l': Local)
    requires Accounted(l, bytes, nonblock, given) && Carried(l, piece, l')
    ensures Accounted(l', bytes, nonblock, given + piece)
  {
    Regroup(given, piece, l'.rest);
    var n, m := |l.rest|, |piece|;
    assert Cut(n - m) == Cut(n) - m;
  }

  /** The state a step starts from is in order. */
  lemma InOrder(ss: seq<State>, ms: seq<Move>, i: nat)
    requires Run(ss, ms) && i < |ms|
    ensures Ordered(ss[i]) && Next(ss[i], ms[i].thread, ms[i].step, ss[i + 1])
  {
    RunServed(ss, ms, i);
    assert Taken(ss, ms, i);
  }

  lemma AccountedNext(s: State, t: nat, step: Step, s': State, u: nat, bytes: seq<byte>, nonblock: bool,
                      given: seq<byte>)
    requires Ordered(s) && Next(s, t, step, s') && StillIn(s, u) && StillIn(s', u)
    requires Accounted(s.threads[u], bytes, nonblock, given)
    ensures s.accepted <= s'.accepted
    ensures Accounted(s'.threads[u], bytes, nonblock, given + if t == u then s'.accepted[|s.accepted|..] else [])
  {
    if t == u {
      OwnCarried(s, u, step, s');
      AccountedCarried(s.threads[u], bytes, nonblock, given, s'.accepted[|s.accepted|..], s'.threads[u]);
    } else {
      OrderedNext(s, t, step, s');
      assert given + [] == given;
      OthersKeep(s, t, step, s', u);
    }
  }

  lemma AccountedStep(ss: seq<State>, ms: seq<Move>, k: nat, u: nat, bytes: seq<byte>, nonblock: bool,
                      b: nat)
    requires Run(ss, ms) && b < k < |ms| && StillIn(ss[k], u) && StillIn(ss[k + 1], u)
    requires Accounted(ss[k].threads[u], bytes, nonblock, Given(ss, ms, u, b + 1, k))
    ensures Accounted(ss[k + 1].threads[u], bytes, nonblock, Given(ss, ms, u, b + 1, k + 1))
  {
    InOrder(ss, ms, k);
    AccountedNext(ss[k], ms[k].thread, ms[k].step, ss[k + 1], u, bytes, nonblock, Given(ss, ms, u, b + 1, k));
  }

  lemma AccountedFirst(ss: seq<State>, ms: seq<Move>, k: nat, u: nat, bytes: seq<byte>, nonblock: bool)
    requires Run(ss, ms) && k < |ms| && ms[k] == Move(u, StartWrite(bytes, nonblock))
    ensures StillIn(ss[k + 1], u)
    ensures Accounted(ss[k + 1].threads[u], bytes, nonblock, Given(ss, ms, u, k + 1, k + 1))
  {
    InOrder(ss, ms, k);
    assert [] + bytes == bytes;
  }

  /** In every run, what a write has still to write is its buffer less what the pipe accepted from it. */
  lemma {:induction false} WriteKept(ss: seq<State>, ms: seq<Move>, u: nat, b: nat, bytes: seq<byte>, nonblock: bool,
                                     i: nat)
    requires Run(ss, ms) && Since(ss, ms, u, b, bytes, nonblock, i)
    ensures Accounted(ss[i].threads[u], bytes, nonblock, Given(ss, ms, u, b + 1, i))
    decreases i
  {
    if i == b + 1 {
      AccountedFirst(ss, ms, b, u, bytes, nonblock);
    } else {
      var k := i - 1;
      assert WritesAt(ss, u, k) && WritesAt(ss, u, i);
      WriteKept(ss, ms, u, b, bytes, nonblock, k);
      AccountedStep(ss, ms, k, u, bytes, nonblock, b);
    }
  }

  /** A thread in the middle of a write began it. */
  lemma {:induction false} WriteBegan(ss: seq<State>, ms: seq<Move>, u: nat, i: nat)
      returns (b: nat, bytes: seq<byte>, nonblock: bool)
    requires Run(ss, ms) && i <= |ms| && StillIn(ss[i], u)
    ensures Since(ss, ms, u, b, bytes, nonblock, i)
    decreases i
  {
    assert i > 0;
    var s, m := ss[i - 1], ms[i - 1];
    assert Taken(ss, ms, i - 1);
    if StillIn(s, u) {
      b, bytes, nonblock := WriteBegan(ss, ms, u, i - 1);
    } else {
      assert m.thread == u && m.step.StartWrite?;
      b, bytes, nonblock := i - 1, m.step.bytes, m.step.nonblock;
    }
  }

  /** Why a write ended, and what it reports for it. */
  ghost predicate Ended(s: State, l: Local, step: Step, bytes: seq<byte>, nonblock: bool, given: seq<byte>,
                        result: int, sigpipe: bool) {
    && given <= bytes
    && (given != [] ==> result == |given|)
    && if sigpipe then step.Push? && s.readers == 0 && (given == [] ==> result == -EPIPE)
       else if step.Interrupt? then l.WriteAsleep? && !nonblock && (given == [] ==> result == -EINTR)
       else given == bytes || (nonblock && (given == [] ==> result == -EAGAIN))
  }

  /**
   * In every run a write ends by a step of its own: with all of its buffer accepted, or because it may not wait,
   * no reader is open, or it was interrupted in its sleep.  It reports how many bytes were accepted from it, and
   * an error only if there were none; SIGPIPE goes with the missing reader.
   */
  lemma WriteEnds(ss: seq<State>, ms: seq<Move>, u: nat, b: nat, bytes: seq<byte>, nonblock: bool, i: nat)
      returns (result: int, sigpipe: bool)
    requires Run(ss, ms) && Since(ss, ms, u, b, bytes, nonblock, i) && i < |ms| && !StillIn(ss[i + 1], u)
    ensures ms[i].thread == u && ss[i + 1].log == ss[i].log + [Wrote(u, result, sigpipe)]
    ensures Ended(ss[i], ss[i].threads[u], ms[i].step, bytes, nonblock, Given(ss, ms, u, b + 1, i + 1), result, sigpipe)
  {
    var s, m, s' := ss[i], ms[i], ss[i + 1];
    assert WritesAt(ss, u, i) && Taken(ss, ms, i);
    WriteKept(ss, ms, u, b, bytes, nonblock, i);
    if m.thread != u { OthersKeep(s, m.thread, m.step, s', u); assert false; }
    assert Piece(ss, i) == [];
    var given := Given(ss, ms, u, b + 1, i);
    assert Given(ss, ms, u, b + 1, i + 1) == given + [] == given;
    var e := s'.log[|s.log|];
    result, sigpipe := e.result, e.sigpipe;
    assert given == bytes[..|given|];
  }

  /** A write whose length is a multiple of 2^32 gives nothing, and a longer one no more than the cast length. */
  lemma CastBounds(ss: seq<State>, ms: seq<Move>, u: nat, b: nat, bytes: seq<byte>, nonblock: bool, i: nat)
    requires Run(ss, ms) && Since(ss, ms, u, b, bytes, nonblock, i)
    ensures |Given(ss, ms, u, b + 1, i)| <= Cut(|bytes|)
    ensures ss[i].threads[u].rest == [] ==> |bytes| < 0x1_0000_0000
  {
    WriteKept(ss, ms, u, b, bytes, nonblock, i);
  }

  /** A writer is behind every piece. */
  lemma PieceOfRun(ss: seq<State>, ms: seq<Move>, k: nat)
    requires Run(ss, ms) && k < |ms|
    ensures ss[k + 1].accepted == ss[k].accepted + Piece(ss, k)
    ensures Piece(ss, k) != [] ==> StillIn(ss[k], ms[k].thread)
  {
    InOrder(ss, ms, k);
    PieceOwn(ss[k], ms[k].thread, ms[k].step, ss[k + 1]);
  }

  /** What the pipe has accepted is the pieces, in the order they were given. */
  lemma {:induction false} AcceptedIsGiven(ss: seq<State>, ms: seq<Move>, i: nat)
    requires Run(ss, ms) && i <= |ms|
    ensures ss[i].accepted == AllGiven(ss, i)
  {
    if i > 0 {
      var k := i - 1;
      AcceptedIsGiven(ss, ms, k);
      PieceOfRun(ss, ms, k);
      assert AllGiven(ss, k + 1) == AllGiven(ss, k) + Piece(ss, k);
    }
  }

  // ------------------------------------------------- reads

  ghost predicate StillReads(s: State, u: nat) { u in s.threads && InRead(s.threads[u]) }

  /** Thread u asked for want bytes at step b and has not got an answer after i steps. */
  ghost predicate Waits(ss: seq<State>, ms: seq<Move>, u: nat, b: nat, want: nat, nonblock: bool, i: nat) {
    && |ss| == |ms| + 1 && b < i <= |ms| && ms[b] == Move(u, StartRead(want, nonblock))
    && StillReads(ss[i], u) && forall j :: b < j <= i ==> ReadsAt(ss, u, j)
  }

  ghost predicate ReadsAt(ss: seq<State>, u: nat, j: nat)
    requires j < |ss|
  {
    StillReads(ss[j], u)
  }

  lemma {:induction false} ReadKept(ss: seq<State>, ms: seq<Move>, u: nat, b: nat, want: nat, nonblock: bool, i: nat)
    requires Run(ss, ms) && Waits(ss, ms, u, b, want, nonblock, i)
    ensures
      var l := ss[i].threads[u];
      l.want == want && (l.Reading? ==> l.nonblock == nonblock) && (l.ReadAsleep? ==> !nonblock)
    decreases i
  {
    var s, m, s' := ss[i - 1], ms[i - 1], ss[i];
    assert Taken(ss, ms, i - 1);
    assert ReadsAt(ss, u, i);
    if i > b + 1 {
      assert ReadsAt(ss, u, i - 1);
      ReadKept(ss, ms, u, b, want, nonblock, i - 1);
      if m.thread != u { OthersKeep(s, m.thread, m.step, s', u); }
    }
  }

  lemma {:induction false} ReadBegan(ss: seq<State>, ms: seq<Move>, u: nat, i: nat)
      returns (b: nat, want: nat, nonblock: bool)
    requires Run(ss, ms) && i <= |ms| && StillReads(ss[i], u)
    ensures Waits(ss, ms, u, b, want, nonblock, i)
    decreases i
  {
    assert i > 0;
    var s, m := ss[i - 1], ms[i - 1];
    assert Taken(ss, ms, i - 1);
    if StillReads(s, u) {
      b, want, nonblock := ReadBegan(ss, ms, u, i - 1);
    } else {
      assert m.thread == u && m.step.StartRead?;
      b, want, nonblock := i - 1, m.step.want, m.step.nonblock;
    }
  }

  /** The answer to a read of want bytes from a pipe in state s, and what it leaves in the ring. */
  ghost predicate Answered(s: State, l: Local, step: Step, u: nat, want: nat, nonblock: bool, e: Event,
                           ring: seq<byte>) {
    match e
    case Got(v, w, bytes) => v == u && w == want && s.ring != [] && s.ring == bytes + ring &&
      |bytes| <= Cut(want) && (|bytes| == Cut(want) || ring == [])
    case Eof(v, n, writers) => v == u && s.ring == ring == [] && s.writers == writers == 0 && n == |s.accepted|
    case NoRead(v, error) => v == u && ring == s.ring &&
      if nonblock then s.ring == [] && s.writers > 0 && error == -EAGAIN
      else step.Interrupt? && l.ReadAsleep? && error == -EINTR
    case Wrote(_, _, _) => false
  }

  /**
   * In every run a read ends by a step of its own: with all the bytes there are up to its length, with 0 if there
   * are none and no writer is open, with EAGAIN if it may not wait for them, or interrupted in its sleep.
   */
  lemma ReadEnds(ss: seq<State>, ms: seq<Move>, u: nat, b: nat, want: nat, nonblock: bool, i: nat) returns (e: Event)
    requires Run(ss, ms) && Waits(ss, ms, u, b, want, nonblock, i) && i < |ms| && !StillReads(ss[i + 1], u)
    ensures ms[i].thread == u && ss[i + 1].log == ss[i].log + [e]
    ensures Answered(ss[i], ss[i].threads[u], ms[i].step, u, want, nonblock, e, ss[i + 1].ring)
  {
    var s, m, s' := ss[i], ms[i], ss[i + 1];
    assert ReadsAt(ss, u, i) && Taken(ss, ms, i);
    ReadKept(ss, ms, u, b, want, nonblock, i);
    if m.thread != u { OthersKeep(s, m.thread, m.step, s', u); assert false; }
    e := s'.log[|s.log|];
    if e.Got? {
      var n := Min(Cut(want), |s.ring|);
      assert s.ring == s.ring[..n] + s.ring[n..];
    }
  }

  // ------------------------------------------------- ends

  /** How often step was taken in the first i moves. */
  ghost function Times(ms: seq<Move>, step: Step, i: nat): nat
    requires i <= |ms|
  {
    if i == 0 then 0 else Times(ms, step, i - 1) + if ms[i - 1].step == step then 1 else 0
  }

  lemma EndsNext(s: State, t: nat, step: Step, s': State)
    requires Next(s, t, step, s')
    ensures s'.readers + (if step == Close(true) then 1 else 0) == s.readers + if step == Dup(true) then 1 else 0
    ensures s'.writers + (if step == Close(false) then 1 else 0) == s.writers + if step == Dup(false) then 1 else 0
    ensures !s.freed && (step.Close? || s'.freed == s.freed)
    ensures step.Close? ==> (s'.freed <==> s'.readers == s'.writers == 0)
    ensures step.Dup? ==> s'.readers + s'.writers > 0
  {
  }

  /** The ends that are open are the two of the creation and the copies, less those closed; the pipe is freed with
      the last of them. */
  lemma {:induction false} EndsCounted(ss: seq<State>, ms: seq<Move>, i: nat)
    requires Run(ss, ms) && i <= |ms|
    ensures ss[i].readers + Times(ms, Close(true), i) == 1 + Times(ms, Dup(true), i)
    ensures ss[i].writers + Times(ms, Close(false), i) == 1 + Times(ms, Dup(false), i)
    ensures ss[i].freed <==> ss[i].readers == ss[i].writers == 0
  {
    if i > 0 {
      EndsCounted(ss, ms, i - 1);
      assert Taken(ss, ms, i - 1);
      EndsNext(ss[i - 1], ms[i - 1].thread, ms[i - 1].step, ss[i]);
    }
  }
}
