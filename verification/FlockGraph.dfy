/** kernel/fs/flock.c: who waits for whom, and the walk that looks for a cycle before a process sleeps. */
module FlockGraph {
  import opened FlockTable

  const FLOCK_WAITERS: nat := 64

  /** The locks held and the locks wanted by sleeping processes. */
  datatype Table = Table(recs: seq<Rec>, waiters: seq<Rec>)

  ghost predicate Waiting(ws: seq<Rec>, p: int) { exists i :: 0 <= i < |ws| && ws[i].inUse && ws[i].pid == p }

  /** Sleeper i is kept waiting by lock j. */
  ghost predicate Blocks(t: Table, i: int, j: int) {
    0 <= i < |t.waiters| && 0 <= j < |t.recs| && t.waiters[i].inUse && Forbids(t.recs[j], t.waiters[i])
  }

  /** p sleeps for something q holds. */
  ghost predicate Edge(t: Table, p: int, q: int) {
    exists i, j :: Blocks(t, i, j) && t.waiters[i].pid == p && t.recs[j].pid == q
  }

  /** On the lock map: p waits for q exactly if it sleeps for a range of which q holds a byte that it may not have. */
  lemma EdgeExactly(t: Table, p: int, q: int)
    requires Tidy(t.recs) && forall i :: 0 <= i < |t.waiters| ==> Proper(t.waiters[i])
    ensures Edge(t, p, q) <==> p != q && exists i :: 0 <= i < |t.waiters| && WaitsFor(t, i, p, q)
  {
    if Edge(t, p, q) {
      var i, j :| Blocks(t, i, j) && t.waiters[i].pid == p && t.recs[j].pid == q;
      ForbidsByte(t.recs, j, t.waiters[i]);
      var r, w := t.recs[j], t.waiters[i];
      var x :| w.start <= x <= w.end && HoldsAt(r, w.vn, r.pid, r.kind, x);
      assert Holds(t.recs, w.vn, q, r.kind, x);
      assert WaitsFor(t, i, p, q);
    }
    forall i | 0 <= i < |t.waiters| && WaitsFor(t, i, p, q) && p != q ensures Edge(t, p, q) {
      var w := t.waiters[i];
      var k, x :| w.start <= x <= w.end && Holds(t.recs, w.vn, q, k, x) && (k.Write? || w.kind.Write?);
      var j :| 0 <= j < |t.recs| && HoldsAt(t.recs[j], w.vn, q, k, x);
      ForbidsByte(t.recs, j, w);
      assert Blocks(t, i, j);
    }
  }

  ghost predicate WaitsFor(t: Table, i: nat, p: int, q: int)
    requires i < |t.waiters|
  {
    var w := t.waiters[i];
    && w.inUse && w.pid == p
    && exists k, x :: w.start <= x <= w.end && Holds(t.recs, w.vn, q, k, x) && (k.Write? || w.kind.Write?)
  }

  ghost predicate Path(t: Table, ps: seq<int>) {
    |ps| > 0 && forall i :: 0 <= i < |ps| - 1 ==> Edge(t, ps[i], ps[i + 1])
  }

  ghost predicate Acyclic(t: Table) {
    forall ps :: Path(t, ps) && |ps| >= 2 ==> ps[0] != ps[|ps| - 1]
  }

  /** Every process waits for at most one other. */
  ghost predicate Lone(t: Table) {
    forall p, q, r :: Edge(t, p, q) && Edge(t, p, r) ==> q == r
  }

  // ------------------------------------------------- the walk of deadlock_locked

  /** The first lock from i on that forbids w. */
  ghost function First(recs: seq<Rec>, w: Rec, i: nat): (f: nat)
    requires i <= |recs|
    ensures i <= f <= |recs|
    decreases |recs| - i
  {
    if i == |recs| || Forbids(recs[i], w) then i else First(recs, w, i + 1)
  }

  /** The slot in which p sleeps. */
  ghost function Slot(ws: seq<Rec>, p: int, i: nat): (f: nat)
    requires i <= |ws|
    ensures i <= f <= |ws|
    decreases |ws| - i
  {
    if i == |ws| || (ws[i].inUse && ws[i].pid == p) then i else Slot(ws, p, i + 1)
  }

  ghost predicate Walk(t: Table, pid: int, holder: int, hops: nat)
    requires hops <= FLOCK_WAITERS
    decreases FLOCK_WAITERS - hops
  {
    if hops == FLOCK_WAITERS then false
    else if holder == pid then true
    else
      var i := Slot(t.waiters, holder, 0);
      if i == |t.waiters| then false
      else
        var j := First(t.recs, t.waiters[i], 0);
        j < |t.recs| && Walk(t, pid, t.recs[j].pid, hops + 1)
  }

  lemma {:induction false} FirstIs(recs: seq<Rec>, w: Rec, i: nat)
    requires i <= |recs|
    ensures var f := First(recs, w, i); f < |recs| ==> Forbids(recs[f], w)
    ensures forall k :: i <= k < First(recs, w, i) ==> !Forbids(recs[k], w)
    decreases |recs| - i
  {
    if i < |recs| && !Forbids(recs[i], w) { FirstIs(recs, w, i + 1); }
  }

  lemma {:induction false} SlotIs(ws: seq<Rec>, p: int, i: nat)
    requires i <= |ws|
    ensures var f := Slot(ws, p, i); f < |ws| ==> ws[f].inUse && ws[f].pid == p
    ensures forall k :: i <= k < Slot(ws, p, i) ==> !(ws[k].inUse && ws[k].pid == p)
    decreases |ws| - i
  {
    if i < |ws| && !(ws[i].inUse && ws[i].pid == p) { SlotIs(ws, p, i + 1); }
  }

  /** A reported deadlock is real: the holder already waits, at some remove, for pid. */
  lemma {:induction false} WalkSound(t: Table, pid: int, holder: int, hops: nat) returns (ps: seq<int>)
    requires hops <= FLOCK_WAITERS && Walk(t, pid, holder, hops)
    ensures Path(t, ps) && ps[0] == holder && ps[|ps| - 1] == pid
    decreases FLOCK_WAITERS - hops
  {
    if holder == pid { return [pid]; }
    var i := Slot(t.waiters, holder, 0);
    SlotIs(t.waiters, holder, 0);
    var j := First(t.recs, t.waiters[i], 0);
    FirstIs(t.recs, t.waiters[i], 0);
    var rest := WalkSound(t, pid, t.recs[j].pid, hops + 1);
    assert Blocks(t, i, j);
    ps := [holder] + rest;
    assert forall k :: 0 < k < |ps| - 1 ==> Edge(t, rest[k - 1], rest[k]);
  }

  /** Where every process waits for at most one other, the walk follows every path there is. */
  lemma {:induction false} WalkComplete(t: Table, pid: int, ps: seq<int>, hops: nat)
    requires OneSlot(t.waiters) && Lone(t) && Path(t, ps) && ps[|ps| - 1] == pid && hops + |ps| <= FLOCK_WAITERS
    ensures Walk(t, pid, ps[0], hops)
    decreases |ps|
  {
    if ps[0] != pid {
      assert Edge(t, ps[0], ps[1]);
      var i, j :| Blocks(t, i, j) && t.waiters[i].pid == ps[0] && t.recs[j].pid == ps[1];
      SlotIs(t.waiters, ps[0], 0);
      assert Slot(t.waiters, ps[0], 0) == i;
      var f := First(t.recs, t.waiters[i], 0);
      FirstIs(t.recs, t.waiters[i], 0);
      assert Blocks(t, i, f);
      assert Edge(t, ps[0], t.recs[f].pid);
      PathTail(t, ps);
      WalkComplete(t, pid, ps[1..], hops + 1);
    }
  }

  ghost predicate OneSlot(ws: seq<Rec>) {
    forall i, j :: 0 <= i < |ws| && 0 <= j < |ws| && ws[i].inUse && ws[j].inUse && ws[i].pid == ws[j].pid ==> i == j
  }

  lemma PathTail(t: Table, ps: seq<int>)
    requires Path(t, ps) && |ps| >= 2
    ensures Path(t, ps[1..])
  {
    forall i | 0 <= i < |ps| - 2 ensures Edge(t, ps[1..][i], ps[1..][i + 1]) { assert Edge(t, ps[i + 1], ps[i + 2]); }
  }

  // ------------------------------------------------- 64 hops are enough

  ghost predicate Distinct(ps: seq<int>) { forall i, j :: 0 <= i < j < |ps| ==> ps[i] != ps[j] }

  lemma AcyclicDistinct(t: Table, ps: seq<int>)
    requires Acyclic(t) && Path(t, ps)
    ensures Distinct(ps)
  {
    forall i, j | 0 <= i < j < |ps| ensures ps[i] != ps[j] {
      var mid := ps[i..j + 1];
      forall k | 0 <= k < |mid| - 1 ensures Edge(t, mid[k], mid[k + 1]) { assert Edge(t, ps[i + k], ps[i + k + 1]); }
      assert Path(t, mid);
    }
  }

  /** Different sleepers sleep in different slots. */
  lemma {:induction false} SleepersFit(ps: seq<int>, ws: seq<Rec>)
    requires Distinct(ps) && forall i :: 0 <= i < |ps| ==> Waiting(ws, ps[i])
    ensures |ps| <= Used(ws)
    decreases |ws|
  {
    if ps == [] { return; }
    assert Waiting(ws, ps[0]);
    var n := |ws| - 1;
    var rest := ps;
    if ws[n].inUse && ws[n].pid in ps {
      var k :| 0 <= k < |ps| && ps[k] == ws[n].pid;
      rest := ps[..k] + ps[k + 1..];
      assert forall i :: 0 <= i < |rest| ==> rest[i] == ps[if i < k then i else i + 1];
    }
    forall i | 0 <= i < |rest| ensures Waiting(ws[..n], rest[i]) {
      assert rest[i] in ps && Waiting(ws, rest[i]);
      var m :| 0 <= m < |ws| && ws[m].inUse && ws[m].pid == rest[i];
      assert ws[..n][m] == ws[m];
    }
    SleepersFit(rest, ws[..n]);
  }

  /** With a slot left to sleep in, no path is too long for the walk. */
  lemma PathShort(t: Table, ps: seq<int>)
    requires Acyclic(t) && Path(t, ps) && Used(t.waiters) < |t.waiters| <= FLOCK_WAITERS
    ensures |ps| <= FLOCK_WAITERS
  {
    AcyclicDistinct(t, ps);
    var front := ps[..|ps| - 1];
    forall i | 0 <= i < |front| ensures Waiting(t.waiters, front[i]) { assert Edge(t, ps[i], ps[i + 1]); }
    SleepersFit(front, t.waiters);
  }

  // ------------------------------------------------- what the steps do to the graph

  /** Only pid's records were touched. */
  ghost predicate PidOnly(before: seq<Rec>, after: seq<Rec>, pid: int) {
    |after| == |before| && forall i :: 0 <= i < |after| ==>
      after[i] == before[i] || !after[i].inUse || after[i].pid == pid
  }

  lemma NobodySleeps(t: Table)
    requires forall i :: 0 <= i < |t.waiters| ==> !t.waiters[i].inUse
    ensures Acyclic(t)
  {
    assert forall ps :: Path(t, ps) && |ps| >= 2 ==> Edge(t, ps[0], ps[0 + 1]);
  }

  /** A process that is awake may take and drop locks: nobody can wait for a cycle through it. */
  lemma AwakeAcyclic(t: Table, recs': seq<Rec>, pid: int)
    requires Acyclic(t) && !Waiting(t.waiters, pid) && PidOnly(t.recs, recs', pid)
    ensures Acyclic(Table(recs', t.waiters))
  {
    var t' := Table(recs', t.waiters);
    forall ps | Path(t', ps) && |ps| >= 2 ensures ps[0] != ps[|ps| - 1] {
      if ps[0] == ps[|ps| - 1] {
        forall i | 0 <= i < |ps| - 1 ensures Edge(t, ps[i], ps[i + 1]) {
          assert Edge(t', ps[i], ps[i + 1]);
          assert ps[i + 1] == pid ==> Waiting(t.waiters, pid) by {
            if i + 1 < |ps| - 1 { assert Edge(t', ps[i + 1], ps[i + 2]); } else { assert Edge(t', ps[0], ps[1]); }
          }
          AwakeEdge(t, recs', pid, ps[i], ps[i + 1]);
        }
        assert Path(t, ps);
        assert false;
      }
    }
  }

  lemma AwakeEdge(t: Table, recs': seq<Rec>, pid: int, p: int, q: int)
    requires PidOnly(t.recs, recs', pid) && q != pid && Edge(Table(recs', t.waiters), p, q)
    ensures Edge(t, p, q)
  {
    var t' := Table(recs', t.waiters);
    var i, j :| Blocks(t', i, j) && t'.waiters[i].pid == p && t'.recs[j].pid == q;
    assert Blocks(t, i, j);
  }

  /** A sleeper that wakes takes its edges with it. */
  lemma WokenAcyclic(t: Table, k: nat)
    requires Acyclic(t) && k < |t.waiters|
    ensures Acyclic(t.(waiters := t.waiters[k := t.waiters[k].(inUse := false)]))
  {
    var t' := t.(waiters := t.waiters[k := t.waiters[k].(inUse := false)]);
    forall ps | Path(t', ps) && |ps| >= 2 ensures ps[0] != ps[|ps| - 1] {
      forall i | 0 <= i < |ps| - 1 ensures Edge(t, ps[i], ps[i + 1]) {
        assert Edge(t', ps[i], ps[i + 1]);
        var a, b :| Blocks(t', a, b) && t'.waiters[a].pid == ps[i] && t'.recs[b].pid == ps[i + 1];
        assert Blocks(t, a, b);
      }
      assert Path(t, ps);
    }
  }

  lemma SleepEdge(t: Table, k: nat, w: Rec, p: int, q: int)
    requires k < |t.waiters| && !t.waiters[k].inUse && w.inUse && p != w.pid
    requires Edge(t.(waiters := t.waiters[k := w]), p, q)
    ensures Edge(t, p, q)
  {
    var t' := t.(waiters := t.waiters[k := w]);
    var i, j :| Blocks(t', i, j) && t'.waiters[i].pid == p && t'.recs[j].pid == q;
    assert Blocks(t, i, j);
  }

  /** A closed path through p can be read from p on. */
  lemma Rotate(t: Table, ps: seq<int>, p: int) returns (rs: seq<int>)
    requires Path(t, ps) && |ps| >= 2 && ps[0] == ps[|ps| - 1] && p in ps
    ensures Path(t, rs) && |rs| >= 2 && rs[0] == rs[|rs| - 1] == p
  {
    var k :| 0 <= k < |ps| && ps[k] == p;
    rs := ps[k..] + ps[1..k + 1];
    forall i | 0 <= i < |rs| - 1 ensures Edge(t, rs[i], rs[i + 1]) {
      if i < |ps| - 1 - k { assert Edge(t, ps[k + i], ps[k + i + 1]); }
      else {
        var j := i - (|ps| - 1 - k);
        assert Edge(t, ps[j], ps[j + 1]);
      }
    }
  }

  /** Cuts a path back to p where it first meets p again. */
  lemma {:induction false} FirstReturn(t: Table, rs: seq<int>, p: int) returns (qs: seq<int>)
    requires Path(t, rs) && |rs| >= 2 && rs[|rs| - 1] == p
    ensures Path(t, qs) && |qs| >= 2 && qs[0] == rs[0] && qs[|qs| - 1] == p && forall i :: 0 < i < |qs| - 1 ==>
      qs[i] != p
    decreases |rs|
  {
    if k :| 0 < k < |rs| - 1 && rs[k] == p {
      assert Path(t, rs[..k + 1]) by { assert forall i :: 0 <= i < k ==> Edge(t, rs[i], rs[i + 1]); }
      qs := FirstReturn(t, rs[..k + 1], p);
    } else {
      qs := rs;
    }
  }

  lemma LoneBefore(t: Table, k: nat, w: Rec)
    requires k < |t.waiters| && !t.waiters[k].inUse && Lone(t.(waiters := t.waiters[k := w]))
    ensures Lone(t)
  {
    var t' := t.(waiters := t.waiters[k := w]);
    forall p, q | Edge(t, p, q) ensures Edge(t', p, q) {
      var i, j :| Blocks(t, i, j) && t.waiters[i].pid == p && t.recs[j].pid == q;
      assert Blocks(t', i, j);
    }
  }

  /** Some holder of a lock that keeps w waiting already waits, at some remove, for w's process. */
  ghost predicate Closes(t: Table, w: Rec) {
    exists c, ps :: 0 <= c < |t.recs| && Forbids(t.recs[c], w) && Leads(t, ps, t.recs[c].pid, w.pid)
  }

  ghost predicate Leads(t: Table, ps: seq<int>, p: int, q: int) { Path(t, ps) && ps[0] == p && ps[|ps| - 1] == q }

  /** Going to sleep closes a cycle exactly if a holder already waits for the process, seen from before the sleep. */
  lemma SleepExact(t: Table, k: nat, w: Rec)
    requires Acyclic(t) && k < |t.waiters| && !t.waiters[k].inUse && w.inUse
    ensures Acyclic(t.(waiters := t.waiters[k := w])) <==> !Closes(t, w)
  {
    var t' := t.(waiters := t.waiters[k := w]);
    if Closes(t, w) { CycleClosed(t, k, w); }
    else {
      forall ps | Path(t', ps) && |ps| >= 2 ensures ps[0] != ps[|ps| - 1] {
        if ps[0] == ps[|ps| - 1] {
          CycleFound(t, k, w, ps);
          assert false;
        }
      }
    }
  }

  lemma CycleClosed(t: Table, k: nat, w: Rec)
    requires k < |t.waiters| && !t.waiters[k].inUse && w.inUse && Closes(t, w)
    ensures !Acyclic(t.(waiters := t.waiters[k := w]))
  {
    var t' := t.(waiters := t.waiters[k := w]);
    var c, ps :| 0 <= c < |t.recs| && Forbids(t.recs[c], w) && Leads(t, ps, t.recs[c].pid, w.pid);
    var qs := [w.pid] + ps;
    forall i | 0 <= i < |qs| - 1 ensures Edge(t', qs[i], qs[i + 1]) {
      if i == 0 {
        assert Blocks(t', k, c);
      } else {
        assert Edge(t, ps[i - 1], ps[i - 1 + 1]);
        var a, b :| Blocks(t, a, b) && t.waiters[a].pid == qs[i] && t.recs[b].pid == qs[i + 1];
        assert Blocks(t', a, b);
      }
    }
    assert Path(t', qs);
  }

  lemma CycleFound(t: Table, k: nat, w: Rec, ps: seq<int>)
    requires Acyclic(t) && k < |t.waiters| && !t.waiters[k].inUse && w.inUse
    requires Path(t.(waiters := t.waiters[k := w]), ps) && |ps| >= 2 && ps[0] == ps[|ps| - 1]
    ensures Closes(t, w)
  {
    var t' := t.(waiters := t.waiters[k := w]);
    if w.pid !in ps {
      forall i | 0 <= i < |ps| - 1 ensures Edge(t, ps[i], ps[i + 1]) {
        assert Edge(t', ps[i], ps[i + 1]);
        SleepEdge(t, k, w, ps[i], ps[i + 1]);
      }
      assert Path(t, ps);
      assert false;
    }
    var rs := Rotate(t', ps, w.pid);
    var qs := FirstReturn(t', rs, w.pid);
    var rest := qs[1..];
    forall i | 0 <= i < |rest| - 1 ensures Edge(t, rest[i], rest[i + 1]) {
      assert Edge(t', qs[i + 1], qs[i + 2]);
      SleepEdge(t, k, w, rest[i], rest[i + 1]);
    }
    assert Edge(t', qs[0], qs[0 + 1]);
    var a, b :| Blocks(t', a, b) && t'.waiters[a].pid == w.pid && t'.recs[b].pid == qs[1];
    assert a != k ==> Edge(t, w.pid, qs[1]) by { assert a != k ==> Blocks(t, a, b); }
    assert a != k ==> Path(t, qs) by { OldPath(t, qs); }
    assert Leads(t, rest, t.recs[b].pid, w.pid);
  }

  /** A path with one more step in front. */
  lemma OldPath(t: Table, qs: seq<int>)
    requires |qs| >= 2 && Path(t, qs[1..])
    ensures Edge(t, qs[0], qs[1]) ==> Path(t, qs)
  {
    forall i | 0 < i < |qs| - 1 ensures Edge(t, qs[i], qs[i + 1]) {
      assert Edge(t, qs[1..][i - 1], qs[1..][i - 1 + 1]);
    }
  }

  /** Where every sleeper waits for one process, the walk from the first holder finds every cycle there would be. */
  lemma WalkFinds(t: Table, k: nat, w: Rec, c: nat)
    requires Acyclic(t) && OneSlot(t.waiters) && |t.waiters| <= FLOCK_WAITERS
    requires k < |t.waiters| && !t.waiters[k].inUse && w.inUse && c < |t.recs| && Forbids(t.recs[c], w)
    requires Lone(t.(waiters := t.waiters[k := w]))
    ensures Walk(t, w.pid, t.recs[c].pid, 0) <==> Closes(t, w)
  {
    if Walk(t, w.pid, t.recs[c].pid, 0) {
      var ps := WalkSound(t, w.pid, t.recs[c].pid, 0);
      assert Leads(t, ps, t.recs[c].pid, w.pid);
    } else if Closes(t, w) {
      var d, ps :| 0 <= d < |t.recs| && Forbids(t.recs[d], w) && Leads(t, ps, t.recs[d].pid, w.pid);
      var t' := t.(waiters := t.waiters[k := w]);
      assert Blocks(t', k, c) && Blocks(t', k, d);
      assert Edge(t', w.pid, t.recs[c].pid) && Edge(t', w.pid, t.recs[d].pid);
      LoneBefore(t, k, w);
      UsedOff(t.waiters, k);
      PathShort(t, ps);
      WalkComplete(t, w.pid, ps, 0);
    }
  }

  /** Going to sleep after a walk that found nothing closes no cycle, when every sleeper waits for one process. */
  lemma SleepAcyclic(t: Table, k: nat, w: Rec, c: nat)
    requires Acyclic(t) && OneSlot(t.waiters) && |t.waiters| <= FLOCK_WAITERS
    requires k < |t.waiters| && !t.waiters[k].inUse && w.inUse
    requires c < |t.recs| && Forbids(t.recs[c], w) && !Walk(t, w.pid, t.recs[c].pid, 0)
    requires Lone(t.(waiters := t.waiters[k := w]))
    ensures Acyclic(t.(waiters := t.waiters[k := w]))
  {
    WalkFinds(t, k, w, c);
    SleepExact(t, k, w);
  }

  /**
   * Where a sleeper waits for two processes the walk follows only one of them.  Processes 1 and 2 read byte 0,
   * process 3 writes byte 1 and sleeps for byte 0; process 2 may then go to sleep for byte 1, and 2 and 3 wait
   * for each other.
   */
  lemma TwoBlockersMissed() returns (t: Table, w: Rec)
    ensures Acyclic(t) && OneSlot(t.waiters) && !Waiting(t.waiters, w.pid) && w.inUse
    ensures |t.waiters| == 2 && !t.waiters[1].inUse
    ensures var c := First(t.recs, w, 0); c < |t.recs| && !Walk(t, w.pid, t.recs[c].pid, 0)
    ensures !Acyclic(t.(waiters := t.waiters[1 := w]))
  {
    var none := Rec(false, 0, 0, Read, 0, 0);
    t := Table([Rec(true, 0, 1, Read, 0, 0), Rec(true, 0, 2, Read, 0, 0), Rec(true, 0, 3, Write, 1, 1)],
               [Rec(true, 0, 3, Write, 0, 0), none]);
    w := Rec(true, 0, 2, Write, 1, 1);
    forall p, q | Edge(t, p, q) ensures p == 3 && q != 3 {
      var i, j :| Blocks(t, i, j) && t.waiters[i].pid == p && t.recs[j].pid == q;
    }
    forall ps | Path(t, ps) && |ps| >= 2 ensures ps[0] != ps[|ps| - 1] {
      assert Edge(t, ps[0], ps[1]) && Edge(t, ps[|ps| - 2], ps[|ps| - 2 + 1]);
    }
    assert First(t.recs, w, 2) == 2 == First(t.recs, w, 1) == First(t.recs, w, 0);
    assert First(t.recs, t.waiters[0], 0) == 0;
    assert Slot(t.waiters, 1, 2) == 2 == Slot(t.waiters, 1, 1) == Slot(t.waiters, 1, 0);
    assert Slot(t.waiters, 3, 0) == 0;
    assert !Walk(t, 2, 1, 1);
    var t' := t.(waiters := t.waiters[1 := w]);
    assert Blocks(t', 1, 2) && Blocks(t', 0, 1);
    assert Edge(t', 2, 3) && Edge(t', 3, 2);
    assert Path(t', [2, 3, 2]);
  }
}
