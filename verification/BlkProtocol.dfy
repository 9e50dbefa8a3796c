/** The sector cache under concurrency.  Device transfers run with cache_lock dropped, so reads and
    writes of blkcache.c interleave; each step below is one critical section or one device access,
    and critical sections have exactly the effects proved of class BlkCache.Cache. */
module BlkProtocol {
  import opened BlkTable
  import opened BlkCache

  /** A thread inside blkcache_read, after a miss: before and after its device read. */
  datatype Reader = Noted(key: Key, gen: nat) | Loaded(key: Key, gen: nat, data: Sector)

  /** A thread inside blkcache_write_multi, between the two generation bumps.  `held` collects, per
      sector of the range, what the disk has held there since the first bump. */
  datatype Writer = Writer(range: Range, data: seq<Sector>, held: seq<set<Sector>>)

  datatype State = State(
    disk: Key -> Sector,
    cache: map<Key, Sector>,
    gen: nat,
    readers: map<nat, Reader>,
    writers: map<nat, Writer>)

  datatype Step =
    | Hit(tid: nat, key: Key)
    | Miss(tid: nat, key: Key)
    | DeviceRead(tid: nat)
    | DeviceReadFails(tid: nat)
    | Install(tid: nat)
    | BeginWrite(tid: nat, range: Range, data: seq<Sector>)
    | DeviceWrite(tid: nat, key: Key, bytes: Sector)
    | EndWrite(tid: nat)
    | EndFailedWrite(tid: nat)
    | Invalidate(dev: nat)

  ghost predicate Overlap(a: Range, b: Range) { exists k :: Covers(a, k) && Covers(b, k) }

  /** A write covering k is between its two bumps. */
  ghost predicate InFlight(s: State, k: Key) {
    exists w :: w in s.writers && Covers(s.writers[w].range, k)
  }

  ghost predicate Init(s: State) {
    s.cache == map[] && s.readers == map[] && s.writers == map[]
  }

  ghost predicate DiskWrite(s: State, s': State, k: Key, bytes: Sector) {
    s'.disk(k) == bytes && forall x :: x != k ==> s'.disk(x) == s.disk(x)
  }

  ghost predicate SameDisk(s: State, s': State) { forall x :: s'.disk(x) == s.disk(x) }

  /** One step of one thread.  A device write may leave any bytes in a sector of its range, any
      number of times and in any order; it succeeds only once every sector holds the new bytes. */
  ghost predicate Next(s: State, step: Step, s': State) {
    match step
    case Hit(tid, k) =>
      k in s.cache && SameDisk(s, s') && s' == s.(disk := s'.disk)
    case Miss(tid, k) =>
      k !in s.cache && tid !in s.readers && SameDisk(s, s') &&
      s' == s.(disk := s'.disk, readers := s.readers[tid := Noted(k, s.gen)])
    case DeviceRead(tid) =>
      tid in s.readers && s.readers[tid].Noted? && SameDisk(s, s') &&
      (var r := s.readers[tid];
       s' == s.(disk := s'.disk, readers := s.readers[tid := Loaded(r.key, r.gen, s.disk(r.key))]))
    case DeviceReadFails(tid) =>
      tid in s.readers && s.readers[tid].Noted? && SameDisk(s, s') &&
      s' == s.(disk := s'.disk, readers := s.readers - {tid})
    case Install(tid) =>
      tid in s.readers && s.readers[tid].Loaded? && SameDisk(s, s') &&
      (var r := s.readers[tid];
       && s' == s.(disk := s'.disk, cache := s'.cache, readers := s.readers - {tid})
       && (r.gen != s.gen ==> s'.cache == s.cache)
       && (r.gen == s.gen ==> r.key in s'.cache && s'.cache[r.key] == r.data && Recycled(s.cache, s'.cache, r.key)))
    case BeginWrite(tid, range, data) =>
      tid !in s.writers && |data| == range.count && SameDisk(s, s') &&
      (forall w :: w in s.writers ==> !Overlap(s.writers[w].range, range)) &&
      s' == s.(disk := s'.disk, gen := s.gen + 1, writers := s.writers[tid := Writer(range, data,
        seq(range.count, (i: nat) => {s.disk(Key(range.dev, range.lba + i))}))])
    case DeviceWrite(tid, k, bytes) =>
      tid in s.writers && Covers(s.writers[tid].range, k) && |s.writers[tid].held| == s.writers[tid].range.count &&
      DiskWrite(s, s', k, bytes) &&
      (var w := s.writers[tid];
       var i := k.lba - w.range.lba;
       s' == s.(disk := s'.disk, writers := s.writers[tid := w.(held := w.held[i := w.held[i] + {bytes}])]))
    case EndWrite(tid) =>
      tid in s.writers && SameDisk(s, s') && |s.writers[tid].data| == s.writers[tid].range.count &&
      (var w := s.writers[tid];
       && (forall k :: Covers(w.range, k) ==> s.disk(k) == w.data[k.lba - w.range.lba])
       && s' == s.(disk := s'.disk, cache := s'.cache, gen := s.gen + 1, writers := s.writers - {tid})
       && (if w.range.count == 1 then
             var k := Key(w.range.dev, w.range.lba);
             k in s'.cache && s'.cache[k] == w.data[0] && Recycled(s.cache, s'.cache, k)
           else Refreshed(s.cache, s'.cache, w.range, w.data)))
    case EndFailedWrite(tid) =>
      tid in s.writers && SameDisk(s, s') &&
      s' == s.(disk := s'.disk, cache := s'.cache, gen := s.gen + 1, writers := s.writers - {tid}) &&
      Dropped(s.cache, s'.cache, (k: Key) => Covers(s.writers[tid].range, k))
    case Invalidate(dev) =>
      SameDisk(s, s') && s' == s.(disk := s'.disk, cache := s'.cache, gen := s.gen + 1) &&
      Dropped(s.cache, s'.cache, (k: Key) => k.dev == dev)
  }

  // ------------------------------------------------- the invariant

  /** `bytes` is the sector's content, or content it has had during a write in flight over it. */
  ghost predicate Plausible(s: State, k: Key, bytes: Sector) {
    && (!InFlight(s, k) ==> bytes == s.disk(k))
    && (forall w :: w in s.writers && Covers(s.writers[w].range, k) ==> HeldBy(s.writers[w], k, bytes))
  }

  ghost predicate HeldBy(w: Writer, k: Key, bytes: Sector)
    requires Covers(w.range, k)
  {
    |w.held| == w.range.count && bytes in w.held[k.lba - w.range.lba]
  }

  ghost predicate WritersOk(s: State) {
    && (forall w :: w in s.writers ==> |s.writers[w].data| == |s.writers[w].held| == s.writers[w].range.count)
    && (forall w, k :: w in s.writers && Covers(s.writers[w].range, k) ==> HeldBy(s.writers[w], k, s.disk(k)))
    && (forall v, w, k :: v in s.writers && w in s.writers ==>
          Covers(s.writers[v].range, k) && Covers(s.writers[w].range, k) ==> v == w)
  }

  ghost predicate Inv(s: State) {
    && WritersOk(s)
    && (forall k :: k in s.cache ==> Plausible(s, k, s.cache[k]))
    && (forall r :: r in s.readers ==> s.readers[r].gen <= s.gen)
    && (forall r :: r in s.readers && s.readers[r].Loaded? && s.readers[r].gen == s.gen ==>
          Plausible(s, s.readers[r].key, s.readers[r].data))
  }

  lemma InvInit(s: State)
    requires Init(s)
    ensures Inv(s)
  {
  }

  /** Nothing changes for k when disk and writers stay. */
  lemma PlausibleFrame(s: State, s': State, k: Key, bytes: Sector)
    requires SameDisk(s, s') && s'.writers == s.writers && Plausible(s, k, bytes)
    ensures Plausible(s', k, bytes)
  {
    assert InFlight(s, k) <==> InFlight(s', k);
  }

  /** Reader steps, and Hit: disk, writers and generation stay. */
  lemma InvQuiet(s: State, step: Step, s': State)
    requires Inv(s) && Next(s, step, s')
    requires step.Hit? || step.Miss? || step.DeviceReadFails? || step.Install?
    ensures Inv(s')
  {
    forall k, b | Plausible(s, k, b) ensures Plausible(s', k, b) { PlausibleFrame(s, s', k, b); }
  }

  lemma InvDeviceRead(s: State, step: Step, s': State)
    requires Inv(s) && Next(s, step, s') && step.DeviceRead?
    ensures Inv(s')
  {
    forall k, b | Plausible(s, k, b) ensures Plausible(s', k, b) { PlausibleFrame(s, s', k, b); }
    var k := s.readers[step.tid].key;
    assert Plausible(s, k, s.disk(k));
  }

  lemma InvBeginWrite(s: State, step: Step, s': State)
    requires Inv(s) && Next(s, step, s') && step.BeginWrite?
    ensures Inv(s')
  {
    var w := s'.writers[step.tid];
    forall k | Covers(w.range, k) ensures !InFlight(s, k) && HeldBy(w, k, s.disk(k)) {
      if v :| v in s.writers && Covers(s.writers[v].range, k) { assert Overlap(s.writers[v].range, w.range); }
      assert Key(w.range.dev, w.range.lba + (k.lba - w.range.lba)) == k;
    }
    assert WritersOk(s');
    forall k | k in s.cache ensures Plausible(s', k, s.cache[k]) {
      if v :| v in s.writers && Covers(s.writers[v].range, k) {
        assert v in s'.writers && s'.writers[v] == s.writers[v];
      }
      assert Covers(w.range, k) ==> InFlight(s', k);
      if InFlight(s', k) && !InFlight(s, k) { assert Covers(w.range, k); }
    }
  }

  lemma InvDeviceWrite(s: State, step: Step, s': State)
    requires Inv(s) && Next(s, step, s') && step.DeviceWrite?
    ensures Inv(s')
  {
    WriteHolds(s, step, s');
    forall k, b | Plausible(s, k, b) ensures Plausible(s', k, b) { WritePlausible(s, step, s', k, b); }
  }

  /** A device write adds to what its own writer holds, and takes nothing away. */
  lemma WriteHolds(s: State, step: Step, s': State)
    requires WritersOk(s) && Next(s, step, s') && step.DeviceWrite?
    ensures WritersOk(s')
    ensures
      var w, w' := s.writers[step.tid], s'.writers[step.tid];
      w'.range == w.range && forall k, b :: Covers(w.range, k) && HeldBy(w, k, b) ==> HeldBy(w', k, b)
  {
  }

  lemma WritePlausible(s: State, step: Step, s': State, k: Key, b: Sector)
    requires WritersOk(s) && Next(s, step, s') && step.DeviceWrite? && Plausible(s, k, b)
    ensures Plausible(s', k, b)
  {
    WriteHolds(s, step, s');
    var w := s.writers[step.tid];
    assert Covers(w.range, k) ==> InFlight(s, k);
    if v :| v in s.writers && Covers(s.writers[v].range, k) {
      assert v in s'.writers && Covers(s'.writers[v].range, k);
    }
  }

  lemma InvEndWrite(s: State, step: Step, s': State)
    requires Inv(s) && Next(s, step, s') && (step.EndWrite? || step.EndFailedWrite?)
    ensures Inv(s')
  {
    var w := s.writers[step.tid];
    forall k | !Covers(w.range, k) ensures InFlight(s', k) <==> InFlight(s, k) {
      if v :| v in s.writers && Covers(s.writers[v].range, k) { assert v in s'.writers; }
    }
    forall k | Covers(w.range, k) ensures !InFlight(s', k) {}
    forall k | k in s'.cache ensures Plausible(s', k, s'.cache[k]) {
      if Covers(w.range, k) {
        if step.EndWrite? && w.range.count == 1 { assert k == Key(w.range.dev, w.range.lba); }
        assert step.EndWrite? ==> s'.cache[k] == s.disk(k);
      } else {
        assert k in s.cache && s'.cache[k] == s.cache[k];
      }
    }
  }

  lemma InvInvalidate(s: State, step: Step, s': State)
    requires Inv(s) && Next(s, step, s') && step.Invalidate?
    ensures Inv(s')
  {
    forall k, b | Plausible(s, k, b) ensures Plausible(s', k, b) { PlausibleFrame(s, s', k, b); }
  }

  lemma InvNext(s: State, step: Step, s': State)
    requires Inv(s) && Next(s, step, s')
    ensures Inv(s')
  {
    match step
    case Hit(_, _) => InvQuiet(s, step, s');
    case Miss(_, _) => InvQuiet(s, step, s');
    case DeviceReadFails(_) => InvQuiet(s, step, s');
    case Install(_) => InvQuiet(s, step, s');
    case DeviceRead(_) => InvDeviceRead(s, step, s');
    case BeginWrite(_, _, _) => InvBeginWrite(s, step, s');
    case DeviceWrite(_, _, _) => InvDeviceWrite(s, step, s');
    case EndWrite(_) => InvEndWrite(s, step, s');
    case EndFailedWrite(_) => InvEndWrite(s, step, s');
    case Invalidate(_) => InvInvalidate(s, step, s');
  }

  // ------------------------------------------------- whole runs

  /** States s[0], s[1], ... joined by steps. */
  ghost predicate Run(states: seq<State>, steps: seq<Step>) {
    && |states| == |steps| + 1 && Init(states[0])
    && forall i :: 0 <= i < |steps| ==> Next(states[i], steps[i], states[i + 1])
  }

  lemma {:induction false} RunInv(states: seq<State>, steps: seq<Step>, n: nat)
    requires Run(states, steps) && n < |states|
    ensures Inv(states[n])
  {
    if n == 0 {
      InvInit(states[0]);
    } else {
      RunInv(states, steps, n - 1);
      InvNext(states[n - 1], steps[n - 1], states[n]);
    }
  }

  /** In every state of every run: a cached sector is the disk's sector, unless a write over it is
      between its two bumps, and then it is something the disk has held there during that write. */
  lemma Coherent(states: seq<State>, steps: seq<Step>, n: nat, k: Key)
    requires Run(states, steps) && n < |states| && k in states[n].cache
    ensures !InFlight(states[n], k) ==> states[n].cache[k] == states[n].disk(k)
    ensures forall w :: w in states[n].writers && Covers(states[n].writers[w].range, k) ==>
              HeldBy(states[n].writers[w], k, states[n].cache[k])
  {
    RunInv(states, steps, n);
  }

  // ------------------------------------------------- what a read returns

  /** The write of thread w begun at step b is still between its bumps after n steps. */
  ghost predicate Open(states: seq<State>, steps: seq<Step>, b: nat, w: nat, n: nat) {
    && |states| == |steps| + 1 && b < n < |states| && steps[b].BeginWrite? && steps[b].tid == w
    && w in states[n].writers && states[n].writers[w].range == steps[b].range
  }

  /** A content collected by a step is the disk's. */
  lemma HeldNext(s: State, step: Step, s': State, w: nat, k: Key, bytes: Sector)
    requires Inv(s) && Next(s, step, s') && w in s'.writers && Covers(s'.writers[w].range, k)
    requires HeldBy(s'.writers[w], k, bytes)
    ensures
      if step.BeginWrite? && step.tid == w then step.range == s'.writers[w].range && s'.disk(k) == bytes
      else
        && w in s.writers && s.writers[w].range == s'.writers[w].range && HeldBy(s.writers[w], k, s.disk(k))
        && (HeldBy(s.writers[w], k, bytes) || s'.disk(k) == bytes)
  {
  }

  /** Every content a write has collected of a sector, the disk has held since it began. */
  lemma {:induction false} HeldSince(states: seq<State>, steps: seq<Step>, n: nat, w: nat, k: Key, bytes: Sector)
      returns (b: nat, j: nat)
    requires Run(states, steps) && n < |states| && w in states[n].writers && Covers(states[n].writers[w].range, k)
    requires HeldBy(states[n].writers[w], k, bytes)
    ensures Open(states, steps, b, w, n) && b < j <= n && states[j].disk(k) == bytes
    decreases n
  {
    assert n > 0;
    var s, step := states[n - 1], steps[n - 1];
    RunInv(states, steps, n - 1);
    HeldNext(s, step, states[n], w, k, bytes);
    if step.BeginWrite? && step.tid == w {
      b, j := n - 1, n;
    } else if HeldBy(s.writers[w], k, bytes) {
      b, j := HeldSince(states, steps, n - 1, w, k, bytes);
    } else {
      b, j := HeldSince(states, steps, n - 1, w, k, s.disk(k));
      j := n;
    }
  }

  /** The read of thread r begun at step a is still under way after n steps. */
  ghost predicate Under(states: seq<State>, steps: seq<Step>, a: nat, r: nat, n: nat) {
    && |states| == |steps| + 1 && a < n < |states| && r in states[n].readers
    && steps[a] == Miss(r, states[n].readers[r].key) && states[n].readers[r].gen == states[a].gen
  }

  /** What a reader has loaded, the disk held after it began. */
  lemma {:induction false} LoadedSince(states: seq<State>, steps: seq<Step>, n: nat, r: nat) returns (a: nat, j: nat)
    requires Run(states, steps) && n < |states| && r in states[n].readers
    ensures Under(states, steps, a, r, n) && a < j <= n
    ensures var l := states[n].readers[r]; l.Loaded? ==> states[j].disk(l.key) == l.data
    decreases n
  {
    assert n > 0;
    var s, step := states[n - 1], steps[n - 1];
    assert Next(s, step, states[n - 1 + 1]);
    if step.Miss? && step.tid == r {
      a, j := n - 1, n;
    } else {
      a, j := LoadedSince(states, steps, n - 1, r);
      if step.DeviceRead? && step.tid == r { j := n; }
    }
  }

  /** Step i ends a read of k with these bytes. */
  ghost predicate Returns(s: State, step: Step, k: Key, bytes: Sector) {
    || (step.Hit? && step.key == k && k in s.cache && bytes == s.cache[k])
    || (step.Install? && step.tid in s.readers && s.readers[step.tid].Loaded? && s.readers[step.tid].key == k &&
        bytes == s.readers[step.tid].data)
  }

  /**
   * In every run a read returns what the disk holds when it returns, or what it held after the read began, or after
   * the beginning of a write over the sector that is still in flight.
   */
  lemma ReadTrue(states: seq<State>, steps: seq<Step>, i: nat, k: Key, bytes: Sector) returns (b: nat, j: nat)
    requires Run(states, steps) && i < |steps| && Returns(states[i], steps[i], k, bytes)
    ensures j <= i && states[j].disk(k) == bytes
    ensures j == i || (b < j && ((Under(states, steps, b, steps[i].tid, i) && steps[i].Install?) ||
                                 (steps[b].BeginWrite? && Covers(steps[b].range, k) &&
                                  Open(states, steps, b, steps[b].tid, i))))
  {
    RunInv(states, steps, i);
    if steps[i].Install? {
      b, j := LoadedSince(states, steps, i, steps[i].tid);
    } else {
      b, j := 0, i;
      if w :| w in states[i].writers && Covers(states[i].writers[w].range, k) {
        Coherent(states, steps, i, k);
        b, j := HeldSince(states, steps, i, w, k, bytes);
      } else {
        assert !InFlight(states[i], k);
      }
    }
  }
}
