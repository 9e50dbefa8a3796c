/**
 * kernel/ipc/signal.c: stopping and continuing the threads of a process.  A thread chooses a pending stop signal
 * without the process lock, takes it, passes through three critical sections of signal_do_stop and parks; a continue
 * may come in between any two of them.
 */
module Signal {
  const SIGSTOP: nat := 19
  const SIGTSTP: nat := 20
  const SIGTTIN: nat := 21
  const SIGTTOU: nat := 22

  /** Signals whose default action is to stop. */
  predicate Stops(sig: nat) { sig == SIGSTOP || sig == SIGTSTP || sig == SIGTTIN || sig == SIGTTOU }

  lemma StopsExactly(sig: nat)
    ensures Stops(sig) <==> 19 <= sig <= 22
  {
  }

  /** Where a thread stands: before taking the signal it chose, before which critical section of signal_do_stop, or
      parked after the last. */
  datatype Pc = User | Chosen | Broadcast | Count | Commit | Parked

  /** A pending signal, by how many continues had completed when the stop it stands for was sent, and when it was put
      into the pending set. */
  datatype Stamp = Stamp(sent: nat, posted: nat)

  /**
   * `stopped` is THREAD_STOPPED.  Of the last stop signal it chose, a thread notes which one it was, its stamp, and how
   * many continues had completed when it last saw it pending and when it took it.
   */
  datatype Thread = Thread(pc: Pc, stopped: bool, stopping: bool, pending: map<nat, Stamp>, sig: nat, stamp: Stamp,
                           seen: nat, took: nat)

  datatype State = State(threads: map<nat, Thread>, pending: map<nat, Stamp>, count: nat, continues: nat)

  datatype Step =
    | Send(sig: nat)                              // to the process
    | SendThread(t: nat, sig: nat)
    | Choose(t: nat, sig: nat)                    // signal_next_deliverable, which holds no lock
    | Take(t: nat, handled: bool)                 // signal_take_pending; all but SIGSTOP may have a handler
    | Tell(t: nat)                                // signal_do_stop: the siblings
    | CountIn(t: nat)                             // signal_do_stop: the stop is counted
    | Park(t: nat)                                // signal_do_stop: the stop is committed
    | Continue                                    // signal_do_continue
    | Resume(t: nat)

  ghost function Put(s: State, t: nat, th: Thread): State { s.(threads := s.threads[t := th]) }

  /** A signal added to a pending set: of two stops it stands for the later one. */
  function Post(pending: map<nat, Stamp>, sig: nat, stamp: Stamp): map<nat, Stamp> {
    pending[sig := if sig in pending && pending[sig].sent > stamp.sent then pending[sig] else stamp]
  }

  /** What signal_do_continue does to a thread: both flags go, and a stopped thread is woken. */
  function Continued(th: Thread): Thread {
    th.(pending := th.pending - {SIGSTOP}, stopping := false, stopped := false)
  }

  /** The sibling loop: every other thread that is not stopped has SIGSTOP pending, for the same stop. */
  function Told(th: Thread, self: bool, stamp: Stamp): Thread {
    if self then th.(pc := Count) else if th.stopped then th else th.(pending := Post(th.pending, SIGSTOP, stamp))
  }

  /** The thread has seen the signal pending. */
  function Noted(th: Thread, sig: nat, stamp: Stamp, now: nat): Thread {
    th.(sig := sig, stamp := stamp, seen := now)
  }

  /** signal_take_pending: the flag is set whether or not the signal is still there. */
  function Taken(th: Thread, handled: bool, now: nat): Thread {
    th.(stopping := true, took := now, pc := if handled then User else Broadcast)
  }

  ghost predicate Next(s: State, step: Step, s': State) {
    match step
    case Send(sig) => s' == s.(pending := Post(s.pending, sig, Stamp(s.continues, s.continues)))
    case SendThread(t, sig) =>
      && t in s.threads
      && var th := s.threads[t];
      s' == Put(s, t, th.(pending := Post(th.pending, sig, Stamp(s.continues, s.continues))))
    case Choose(t, sig) =>
      && t in s.threads && Stops(sig) && s.threads[t].pc.User?
      && var th := s.threads[t].(pc := Chosen);
      if sig in th.pending then s' == Put(s, t, Noted(th, sig, th.pending[sig], s.continues))
      else sig in s.pending && s' == Put(s, t, Noted(th, sig, s.pending[sig], s.continues))
    case Take(t, handled) =>
      && t in s.threads && s.threads[t].pc.Chosen? && (handled ==> s.threads[t].sig != SIGSTOP)
      && var th := Taken(s.threads[t], handled, s.continues);
      var sig := th.sig;
      if sig in th.pending then
        s' == Put(s, t, Noted(th, sig, th.pending[sig], s.continues).(pending := th.pending - {sig}))
      else if sig in s.pending then
        s' == Put(s, t, Noted(th, sig, s.pending[sig], s.continues)).(pending := s.pending - {sig})
      else s' == Put(s, t, th)
    case Tell(t) =>
      && t in s.threads && s.threads[t].pc.Broadcast?
      && var stamp := Stamp(s.threads[t].stamp.sent, s.continues);
      s' == s.(threads := (map u | u in s.threads :: Told(s.threads[u], u == t, stamp)))
    case CountIn(t) =>
      && t in s.threads && s.threads[t].pc.Count?
      && s' == if s.threads[t].stopping then Put(s, t, s.threads[t].(pc := Commit)).(count := s.count + 1)
               else Put(s, t, s.threads[t].(pc := User))
    case Park(t) =>
      && t in s.threads && s.threads[t].pc.Commit?
      && s' == Put(s, t, if s.threads[t].stopping then s.threads[t].(pc := Parked, stopping := false, stopped := true)
                         else s.threads[t].(pc := User))
    case Continue =>
      && s'.threads == (map u | u in s.threads :: Continued(s.threads[u])) && s'.pending == s.pending - {SIGSTOP}
      && s'.count == 0 && s'.continues == s.continues + 1
    case Resume(t) =>
      && t in s.threads && s.threads[t].pc.Parked? && !s.threads[t].stopped
      && s' == Put(s, t, s.threads[t].(pc := User))
  }

  // ------------------------------------------------- the invariant

  /** A thread that is stopped or about to be took its signal since the last continue. */
  ghost predicate Fresh(s: State, t: nat)
    requires t in s.threads
  {
    var th := s.threads[t];
    && (th.stopped || th.stopping ==> th.took == s.continues)
    && (th.stopped ==> th.pc.Parked? && !th.stopping)
  }

  /** Stamps are in order; a continue leaves no SIGSTOP pending, so one that is was posted since the last. */
  ghost predicate Dated(pending: map<nat, Stamp>, now: nat) {
    forall sig :: sig in pending ==>
      pending[sig].sent <= pending[sig].posted <= now && (sig == SIGSTOP ==> pending[sig].posted == now)
  }

  /** What a thread noted is in order, and it saw a SIGSTOP before the next continue. */
  ghost predicate Orderly(th: Thread, now: nat) {
    && Dated(th.pending, now)
    && (!th.pc.User? || th.stopped ==>
          && th.stamp.sent <= th.stamp.posted <= th.seen <= now
          && (th.sig == SIGSTOP ==> th.stamp.posted == th.seen)
          && (!th.pc.Chosen? ==> th.seen <= th.took <= now))
  }

  /** A stop that has been counted: committed, or to be committed if no continue comes first. */
  ghost predicate Counted(th: Thread) { th.stopped || (th.pc.Commit? && th.stopping) }

  ghost function Stopping(s: State): set<nat> { set t | t in s.threads && Counted(s.threads[t]) }

  ghost predicate Inv(s: State) {
    && (forall t :: t in s.threads ==> Fresh(s, t)) && s.count == |Stopping(s)|
    && Dated(s.pending, s.continues) && (forall t :: t in s.threads ==> Orderly(s.threads[t], s.continues))
  }

  /** No signal pending, every thread in user mode. */
  ghost predicate Init(s: State) {
    && s.count == 0 && s.continues == 0 && s.pending == map[]
    && forall t :: t in s.threads ==> AtRest(s.threads[t])
  }

  ghost predicate AtRest(th: Thread) { th.pc.User? && !th.stopped && !th.stopping && th.pending == map[] }

  lemma InvInit(s: State)
    requires Init(s)
    ensures Inv(s)
  {
    assert Stopping(s) == {};
  }

  lemma FreshNext(s: State, step: Step, s': State)
    requires Inv(s) && Next(s, step, s')
    ensures forall t :: t in s'.threads ==> Fresh(s', t)
  {
    forall t | t in s'.threads ensures Fresh(s', t) { assert t in s.threads && Fresh(s, t); }
  }

  lemma PostDated(pending: map<nat, Stamp>, sig: nat, stamp: Stamp, now: nat)
    requires Dated(pending, now) && stamp.sent <= stamp.posted == now
    ensures Dated(Post(pending, sig, stamp), now)
  {}

  lemma PendingNext(s: State, step: Step, s': State)
    requires Inv(s) && Next(s, step, s')
    ensures Dated(s'.pending, s'.continues)
  {
    if step.Send? { PostDated(s.pending, step.sig, Stamp(s.continues, s.continues), s.continues); }
  }

  lemma OrderlyTake(s: State, step: Step, s': State, t: nat)
    requires Inv(s) && Next(s, step, s') && t in s.threads && (step.Choose? || step.Take?)
    ensures t in s'.threads && Orderly(s'.threads[t], s'.continues)
  {
    assert Orderly(s.threads[t], s.continues) && Fresh(s, t);
  }

  lemma OrderlyTell(s: State, step: Step, s': State, t: nat)
    requires Inv(s) && Next(s, step, s') && t in s.threads && step.Tell?
    ensures t in s'.threads && Orderly(s'.threads[t], s'.continues)
  {
    var now := s.continues;
    assert Orderly(s.threads[t], now) && Orderly(s.threads[step.t], now) && Fresh(s, t);
    PostDated(s.threads[t].pending, SIGSTOP, Stamp(s.threads[step.t].stamp.sent, now), now);
  }

  lemma OrderlyNext(s: State, step: Step, s': State, t: nat)
    requires Inv(s) && Next(s, step, s') && t in s.threads
    ensures t in s'.threads && Orderly(s'.threads[t], s'.continues)
  {
    if step.Choose? || step.Take? {
      OrderlyTake(s, step, s', t);
    } else if step.Tell? {
      OrderlyTell(s, step, s', t);
    } else {
      var th, now := s.threads[t], s.continues;
      assert Orderly(th, now) && Fresh(s, t);
      if step.SendThread? { PostDated(th.pending, step.sig, Stamp(now, now), now); }
    }
  }

  /** A step that leaves every thread counted or not as it was. */
  lemma CountKept(s: State, s': State)
    requires s'.threads.Keys == s.threads.Keys
    requires forall t :: t in s.threads ==> (Counted(s'.threads[t]) <==> Counted(s.threads[t]))
    ensures Stopping(s') == Stopping(s)
  {
  }

  lemma CountedSame(s: State, step: Step, s': State, t: nat)
    requires Next(s, step, s') && t in s.threads && Fresh(s, t) && !step.Continue?
    requires step.CountIn? && step.t == t ==> !s.threads[t].stopping
    ensures t in s'.threads && (Counted(s'.threads[t]) <==> Counted(s.threads[t]))
  {
  }

  lemma CountNext(s: State, step: Step, s': State)
    requires Inv(s) && Next(s, step, s')
    ensures s'.count == |Stopping(s')|
  {
    if step.Continue? {
      assert Stopping(s') == {};
    } else if step.CountIn? && s.threads[step.t].stopping {
      CountMore(s, step.t, s');
    } else {
      assert s'.threads.Keys == s.threads.Keys && s'.count == s.count;
      forall t | t in s.threads ensures t in s'.threads && (Counted(s'.threads[t]) <==> Counted(s.threads[t])) {
        assert Fresh(s, t);
        CountedSame(s, step, s', t);
      }
      CountKept(s, s');
    }
  }

  lemma CountMore(s: State, t: nat, s': State)
    requires t in s.threads && s.threads[t].stopping && Fresh(s, t) && Next(s, CountIn(t), s')
    ensures |Stopping(s')| == |Stopping(s)| + 1
  {
    assert Stopping(s') == Stopping(s) + {t} && t !in Stopping(s);
  }

  // ------------------------------------------------- runs

  ghost predicate Run(ss: seq<State>, steps: seq<Step>) {
    |ss| == |steps| + 1 && Init(ss[0]) && forall i :: 0 <= i < |steps| ==> Next(ss[i], steps[i], ss[i + 1])
  }

  /**
   * In every reachable state a stopped thread took its signal after the last continue completed, and the
   * process counts exactly the stops that no continue has undone.
   */
  lemma {:induction false} RunInv(ss: seq<State>, steps: seq<Step>, i: nat)
    requires Run(ss, steps) && i <= |steps|
    ensures Inv(ss[i])
    ensures forall t :: t in ss[i].threads && ss[i].threads[t].stopped ==> ss[i].threads[t].took == ss[i].continues
  {
    if i == 0 {
      InvInit(ss[0]);
    } else {
      RunInv(ss, steps, i - 1);
      assert Next(ss[i - 1], steps[i - 1], ss[i - 1 + 1]);
      FreshNext(ss[i - 1], steps[i - 1], ss[i]);
      PendingNext(ss[i - 1], steps[i - 1], ss[i]);
      forall t | t in ss[i].threads { OrderlyNext(ss[i - 1], steps[i - 1], ss[i], t); }
      CountNext(ss[i - 1], steps[i - 1], ss[i]);
    }
    forall t | t in ss[i].threads && ss[i].threads[t].stopped ensures ss[i].threads[t].took == ss[i].continues {
      assert Fresh(ss[i], t);
    }
  }

  /** After a continue a thread is not stopped again until it takes another stop signal, wherever the continue met
      it. */
  lemma {:induction false} ContinueHolds(ss: seq<State>, steps: seq<Step>, i: nat, j: nat, t: nat)
    requires Run(ss, steps) && i < j <= |steps| && steps[i].Continue? && t in ss[i].threads
    requires forall k :: i < k < j ==> !(steps[k].Take? && steps[k].t == t)
    ensures t in ss[j].threads && !ss[j].threads[t].stopped && !ss[j].threads[t].stopping
    decreases j
  {
    assert Next(ss[j - 1], steps[j - 1], ss[j - 1 + 1]);
    if i + 1 < j { ContinueHolds(ss, steps, i, j - 1, t); }
  }

  // ------------------------------------------------- the stop of a whole process

  /** A thread that has told its siblings and has not been continued since. */
  ghost predicate Stopper(th: Thread) { th.stopped || ((th.pc.Count? || th.pc.Commit?) && th.stopping) }

  /** A thread that is stopped, on its way into the stop, or has SIGSTOP waiting for it. */
  ghost predicate Caught(th: Thread) {
    th.stopped || SIGSTOP in th.pending || ((th.pc.Broadcast? || th.pc.Count? || th.pc.Commit?) && th.stopping)
  }

  /** A thread that is not on its way into a stop and has no SIGSTOP waiting for it. */
  ghost predicate Settled(th: Thread) {
    SIGSTOP !in th.pending && (th.pc.User? || th.pc.Chosen? || th.pc.Parked?)
  }

  ghost predicate AllCaught(s: State) { forall t :: t in s.threads ==> Caught(s.threads[t]) }

  ghost predicate SomeStopper(s: State) { exists t :: t in s.threads && Stopper(s.threads[t]) }

  /** A thread is let go by a continue only. */
  lemma CaughtNext(s: State, step: Step, s': State, u: nat)
    requires Next(s, step, s') && u in s.threads && Caught(s.threads[u]) && !step.Continue? && Fresh(s, u)
    ensures u in s'.threads && Caught(s'.threads[u])
  {
  }

  /** Telling the siblings catches every thread. */
  lemma TellCatches(s: State, t: nat, s': State)
    requires Next(s, Tell(t), s') && s.threads[t].stopping
    ensures AllCaught(s')
  {
    forall u | u in s'.threads ensures Caught(s'.threads[u]) { assert u in s.threads; }
  }

  lemma StopperNext(s: State, step: Step, s': State)
    requires Next(s, step, s') && SomeStopper(s') && forall t :: t in s.threads ==> Fresh(s, t)
    ensures !step.Continue? && (SomeStopper(s) || (step.Tell? && s.threads[step.t].stopping))
  {
    var t :| t in s'.threads && Stopper(s'.threads[t]);
    assert t in s.threads && Fresh(s, t);
  }

  /**
   * In every reachable state: once a thread has told its siblings of the stop, and until the next continue, no thread
   * of the process escapes it.  So when none is left on its way and no SIGSTOP is left pending, all are stopped.
   */
  lemma {:induction false} GroupStop(ss: seq<State>, steps: seq<Step>, i: nat)
    requires Run(ss, steps) && i <= |steps| && SomeStopper(ss[i])
    ensures AllCaught(ss[i])
    ensures (forall t :: t in ss[i].threads ==> Settled(ss[i].threads[t])) ==>
      forall t :: t in ss[i].threads ==> ss[i].threads[t].stopped
  {
    if i > 0 {
      var s, step := ss[i - 1], steps[i - 1];
      RunInv(ss, steps, i - 1);
      assert Next(s, step, ss[i - 1 + 1]);
      StopperNext(s, step, ss[i]);
      if SomeStopper(s) {
        GroupStop(ss, steps, i - 1);
        forall u | u in ss[i].threads ensures Caught(ss[i].threads[u]) {
          assert u in s.threads && Fresh(s, u);
          CaughtNext(s, step, ss[i], u);
        }
      } else {
        TellCatches(s, step.t, ss[i]);
      }
    }
  }

  // ------------------------------------------------- stops that outlive a continue

  /** A continue came between the thread seeing its signal pending for the last time and taking it. */
  ghost predicate TakenLate(th: Thread) { th.seen < th.took }

  /** A continue came between the stop being sent and a sibling passing it on. */
  ghost predicate ToldLate(th: Thread) { th.stamp.sent < th.stamp.posted }

  /** A continue, which removes only SIGSTOP, left the signal pending. */
  ghost predicate LeftPending(th: Thread) { th.sig != SIGSTOP && th.stamp.posted < th.seen }

  /**
   * In every run a thread is stopped for a stop sent before the last continue exactly if a continue fell into one of
   * three gaps: between choosing the signal and taking it, between sending the stop and telling the siblings of it, or
   * between posting and choosing a signal that is not SIGSTOP.
   */
  lemma OutlivesExactly(ss: seq<State>, steps: seq<Step>, i: nat, t: nat)
    requires Run(ss, steps) && i <= |steps| && t in ss[i].threads && ss[i].threads[t].stopped
    ensures
      var th := ss[i].threads[t];
      th.stamp.sent < ss[i].continues <==> TakenLate(th) || ToldLate(th) || LeftPending(th)
  {
    RunInv(ss, steps, i);
    assert Fresh(ss[i], t) && Orderly(ss[i].threads[t], ss[i].continues);
  }

  // ------------------------------------------------- the first gap, in the steps of the run

  ghost predicate IsChoose(step: Step, t: nat) { step.Choose? && step.t == t }

  ghost predicate Pending(s: State, t: nat, sig: nat) {
    t in s.threads && (sig in s.threads[t].pending || sig in s.pending)
  }

  /** Step a chose the signal thread t is at in state i, and step c, if it has got that far, took it. */
  ghost predicate Traced(ss: seq<State>, steps: seq<Step>, i: nat, t: nat, a: nat, c: nat)
    requires |ss| == |steps| + 1 && i <= |steps| && t in ss[i].threads
  {
    var th := ss[i].threads[t];
    && a < i && steps[a] == Choose(t, th.sig) && (forall k :: a < k < i ==> !IsChoose(steps[k], t))
    && if th.pc.Chosen? then th.seen == ss[a].continues
       else
         && a < c < i && steps[c].Take? && steps[c].t == t && th.took == ss[c].continues
         && th.seen == if Pending(ss[c], t, th.sig) then ss[c].continues else ss[a].continues
  }

  /** Every thread between choosing a signal and running again has chosen it, and taken it if it has got that far. */
  lemma {:induction false} Trace(ss: seq<State>, steps: seq<Step>, i: nat, t: nat) returns (a: nat, c: nat)
    requires Run(ss, steps) && i <= |steps| && t in ss[i].threads && !ss[i].threads[t].pc.User?
    ensures Traced(ss, steps, i, t, a, c)
  {
    var j := i - 1;
    assert Next(ss[j], steps[j], ss[j + 1]);
    a, c := j, 0;
    if !IsChoose(steps[j], t) {
      a, c := Trace(ss, steps, j, t);
      TraceOn(ss, steps, j, t, a, c);
      if steps[j].Take? && steps[j].t == t { c := j; }
    }
  }

  lemma TraceOn(ss: seq<State>, steps: seq<Step>, j: nat, t: nat, a: nat, c: nat)
    requires |ss| == |steps| + 1 && j < |steps| && t in ss[j].threads && Next(ss[j], steps[j], ss[j + 1])
    requires Traced(ss, steps, j, t, a, c) && !ss[j].threads[t].pc.User? && !IsChoose(steps[j], t)
    ensures t in ss[j + 1].threads && (!ss[j + 1].threads[t].pc.User? ==>
      Traced(ss, steps, j + 1, t, a, if steps[j].Take? && steps[j].t == t then j else c))
  {
  }

  lemma {:induction false} ContinuesGrow(ss: seq<State>, steps: seq<Step>, i: nat, j: nat)
    requires Run(ss, steps) && i <= j <= |steps|
    ensures ss[i].continues <= ss[j].continues
    ensures ss[i].continues < ss[j].continues <==> exists k :: i <= k < j && steps[k].Continue?
    decreases j
  {
    if i < j {
      ContinuesGrow(ss, steps, i, j - 1);
      assert Next(ss[j - 1], steps[j - 1], ss[j - 1 + 1]);
      assert steps[j - 1].Continue? ==> exists k :: i <= k < j && steps[k].Continue?;
    }
  }

  /**
   * A stopped thread chose its signal at step a of the run and took it at step c.  It is stopped by the first gap
   * exactly if a continue lies between the two steps and the signal was not pending when it was taken.
   */
  lemma TakenLateExactly(ss: seq<State>, steps: seq<Step>, i: nat, t: nat) returns (a: nat, c: nat)
    requires Run(ss, steps) && i <= |steps| && t in ss[i].threads && ss[i].threads[t].stopped
    ensures Traced(ss, steps, i, t, a, c) && a < c < i
    ensures
      var th := ss[i].threads[t];
      TakenLate(th) <==> !Pending(ss[c], t, th.sig) && exists b :: a < b < c && steps[b].Continue?
  {
    RunInv(ss, steps, i);
    assert Fresh(ss[i], t);
    a, c := Trace(ss, steps, i, t);
    ContinuesGrow(ss, steps, a, c);
    assert steps[a].Choose?;
  }

  // ------------------------------------------------- runs that lose a continue

  /** One thread: `left` swaps the continue and the choosing of the signal. */
  ghost function LostStep(i: nat, left: bool): Step {
    var sig := if left then SIGTSTP else SIGSTOP;
    if i == 0 then SendThread(7, sig) else if i == (if left then 2 else 1) then Choose(7, sig)
    else if i < 3 then Continue else if i == 3 then Take(7, false) else if i == 4 then Tell(7)
    else if i == 5 then CountIn(7) else Park(7)
  }

  ghost function LostState(i: nat, left: bool): State {
    var sig := if left then SIGTSTP else SIGSTOP;
    var pc := if i < 2 || (left && i < 3) then User else if i < 4 then Chosen else if i == 4 then Broadcast
              else if i == 5 then Count else if i == 6 then Commit else Parked;
    var pending := if i == 1 || i == 2 || (left && i == 3) then map[sig := Stamp(0, 0)] else map[];
    var seen := if left && i >= 3 then 1 else 0;
    var th := Thread(pc, i > 6, 4 <= i <= 6, pending, sig, Stamp(0, 0), seen, if i < 4 then 0 else 1);
    State(map[7 := th], map[], if i < 6 then 0 else 1, if i < 2 || (!left && i < 3) then 0 else 1)
  }

  lemma LostNext(i: nat, left: bool)
    requires i < 7
    ensures Next(LostState(i, left), LostStep(i, left), LostState(i + 1, left))
  {
    var s, s' := LostState(i, left), LostState(i + 1, left);
    if LostStep(i, left).Continue? {
      var before := s.threads[7].pending;
      assert before - {SIGSTOP} == if left then before else map[];
      assert s'.threads[7] == Continued(s.threads[7]);
      assert s'.threads == (map u | u in s.threads :: Continued(s.threads[u]));
    } else if i == 4 {
      assert s'.threads == (map u | u in s.threads :: Told(s.threads[u], u == 7, Stamp(0, 1)));
    } else if i < 4 {
      assert s'.threads == s.threads[7 := s'.threads[7]];
    } else {
      assert s'.threads == s.threads[7 := s'.threads[7]];
    }
  }

  /** Two runs in which a continue is lost: the thread ends stopped for a stop sent before it, with nothing pending. */
  lemma ContinueLost(left: bool) returns (ss: seq<State>, steps: seq<Step>)
    ensures Run(ss, steps) && |steps| == 7 && (steps[1] == Continue || steps[2] == Continue)
    ensures forall k :: 0 <= k < |steps| ==> !steps[k].Send? && (steps[k].SendThread? ==> k < 1)
    ensures
      var s := ss[7];
      && 7 in s.threads && s.threads[7].stopped && s.pending == s.threads[7].pending == map[]
      && if left then LeftPending(s.threads[7]) else TakenLate(s.threads[7]) && s.threads[7].sig == SIGSTOP
  {
    ss, steps := seq(8, i requires 0 <= i => LostState(i, left)), seq(7, i requires 0 <= i => LostStep(i, left));
    forall i | 0 <= i < 7 { LostNext(i, left); }
  }

  /** Two threads: the first is undone by the continue, but tells the second, which stops. */
  ghost function EchoStep(i: nat): Step {
    if i == 0 then SendThread(7, SIGSTOP) else if i == 1 then Choose(7, SIGSTOP) else if i == 2 then Take(7, false)
    else if i == 3 then Continue else if i == 4 then Tell(7) else if i == 5 then Choose(8, SIGSTOP)
    else if i == 6 then Take(8, false) else if i == 7 then Tell(8) else if i == 8 then CountIn(8) else Park(8)
  }

  ghost function EchoFirst(i: nat): Thread {
    var pc := if i < 2 then User else if i == 2 then Chosen else if i < 5 then Broadcast else Count;
    var pending := if i == 1 || i == 2 then map[SIGSTOP := Stamp(0, 0)]
                   else if i > 7 then map[SIGSTOP := Stamp(0, 1)] else map[];
    Thread(pc, false, i == 3, pending, SIGSTOP, Stamp(0, 0), 0, 0)
  }

  ghost function EchoSecond(i: nat): Thread {
    var pc := if i < 6 then User else if i == 6 then Chosen else if i == 7 then Broadcast else if i == 8 then Count
              else if i == 9 then Commit else Parked;
    var pending := if i == 5 || i == 6 then map[SIGSTOP := Stamp(0, 1)] else map[];
    var noted := if i < 6 then 0 else 1;
    Thread(pc, i > 9, 7 <= i <= 9, pending, SIGSTOP, Stamp(0, noted), noted, if i < 7 then 0 else 1)
  }

  ghost function EchoState(i: nat): State {
    State(map[7 := EchoFirst(i), 8 := EchoSecond(i)], map[], if i < 9 then 0 else 1, if i < 4 then 0 else 1)
  }

  lemma EchoNext(i: nat)
    requires i < 10
    ensures Next(EchoState(i), EchoStep(i), EchoState(i + 1))
  {
    var s, s' := EchoState(i), EchoState(i + 1);
    if i < 3 {
      assert s'.threads == s.threads[7 := EchoFirst(i + 1)];
    } else if i == 3 {
      assert s'.threads == (map u | u in s.threads :: Continued(s.threads[u]));
    } else if i == 4 || i == 7 {
      EchoTold(i);
    } else {
      EchoOwn(i);
    }
  }

  lemma EchoOwn(i: nat)
    requires 5 <= i < 10 && i != 7
    ensures Next(EchoState(i), EchoStep(i), EchoState(i + 1))
  {
    assert EchoState(i + 1).threads == EchoState(i).threads[8 := EchoSecond(i + 1)];
  }

  lemma EchoTold(i: nat)
    requires i == 4 || i == 7
    ensures Next(EchoState(i), EchoStep(i), EchoState(i + 1))
  {
    var s, s', t := EchoState(i), EchoState(i + 1), EchoStep(i).t;
    assert EchoFirst(i + 1) == Told(EchoFirst(i), t == 7, Stamp(0, 1));
    assert EchoSecond(i + 1) == Told(EchoSecond(i), t == 8, Stamp(0, 1));
    assert s'.threads == (map u | u in s.threads :: Told(s.threads[u], u == t, Stamp(0, 1)));
  }

  /** A run in which a stop already undone by a continue stops a sibling. */
  lemma SiblingStopsLater() returns (ss: seq<State>, steps: seq<Step>)
    ensures Run(ss, steps) && |steps| == 10 && steps[3] == Continue
    ensures forall k :: 0 <= k < |steps| ==> !steps[k].Send? && (steps[k].SendThread? ==> k < 1)
    ensures
      var s := ss[10];
      8 in s.threads && s.threads[8].stopped && ToldLate(s.threads[8]) && !TakenLate(s.threads[8])
  {
    ss, steps := seq(11, i requires 0 <= i => EchoState(i)), seq(10, i requires 0 <= i => EchoStep(i));
    forall i | 0 <= i < 10 { EchoNext(i); }
  }
}
