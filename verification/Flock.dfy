/** kernel/fs/flock.c: POSIX record locks over a fixed table of records. */
module Flock {
  import opened Bytes
  import opened FlockGraph
  import opened FlockTable

  const I64: int := 0x8000_0000_0000_0000

  predicate Covers(r: (nat, nat), x: int) { r.0 <= x <= r.1 }

  /**
   * range_of, for a base the whence gives: the bytes a lock of `len` from `start` covers, from its first byte to its
   * last.  A length of 0 reaches to the end of any file, a negative one covers the bytes before `start`.
   */
  function RangeOf(base: int, start: int, len: int): (r: Option<(nat, nat)>)
    requires -I64 <= base + start < I64 && -I64 < len < I64 && base + start + len >= -I64
    ensures r.None? <==> (if len < 0 then base + start + len else base + start) < 0
    ensures r.Some? ==> r.value.0 <= r.value.1 <= END_OF_FILE
    ensures r.Some? && len > 0 ==> forall x :: Covers(r.value, x) <==> base + start <= x < base + start + len
    ensures r.Some? && len < 0 ==> forall x :: Covers(r.value, x) <==> base + start + len <= x < base + start
    ensures r.Some? && len == 0 ==> r.value == (base + start, END_OF_FILE)
  {
    var first := if len < 0 then base + start + len else base + start;
    if first < 0 then None
    else Some((first, if len == 0 then END_OF_FILE else first + (if len < 0 then -len else len) - 1))
  }

  datatype Rc = Ok | NoLocks | Again | Deadlock | Asleep(slot: nat)

  class Locks {
    var recs: seq<Rec>
    var waiters: seq<Rec>
    /** So far no process acted while it slept, and none went to sleep for a lock whose holder waited for it. */
    ghost var orderly: bool

    ghost function State(): Table
      reads this
    {
      Table(recs, waiters)
    }

    ghost predicate Valid()
      reads this
    {
      && |recs| == FLOCK_MAX && |waiters| == FLOCK_WAITERS && Tidy(recs) == true && AllProper(waiters)
      && (orderly ==> OneSlot(waiters) && Acyclic(State()))
    }

    ghost predicate AllProper(ws: seq<Rec>) { forall i :: 0 <= i < |ws| ==> Proper(ws[i]) }

    constructor ()
      ensures Valid() && orderly && forall v: nat, p, k, x :: !Holds(recs, v, p, k, x)
      ensures forall i :: 0 <= i < |recs| ==> !recs[i].inUse
      ensures forall i :: 0 <= i < |waiters| ==> !waiters[i].inUse
    {
      recs := seq(FLOCK_MAX, _ => Rec(false, 0, 0, Read, 0, 0));
      waiters := seq(FLOCK_WAITERS, _ => Rec(false, 0, 0, Read, 0, 0));
      orderly := true;
      new;
      NobodySleeps(State());
    }

    // ----------------------------------------------- searching

    /** The first lock that keeps its owner's rivals from `w`, or -1. */
    method Conflict(w: Rec) returns (c: int)
      ensures c < 0 ==> Free(recs, w)
      ensures c >= 0 ==> c < |recs| && Forbids(recs[c], w) && forall i :: 0 <= i < c ==> !Forbids(recs[i], w)
    {
      for i := 0 to |recs|
        invariant forall j :: 0 <= j < i ==> !Forbids(recs[j], w)
      {
        if Forbids(recs[i], w) { return i; }
      }
      return -1;
    }

    method RecAlloc() returns (k: int)
      ensures k < 0 <==> Used(recs) == |recs|
      ensures k >= 0 ==> k < |recs| && !recs[k].inUse && forall i :: 0 <= i < k ==> recs[i].inUse
    {
      for i := 0 to |recs|
        invariant Used(recs[..i]) == i && forall j :: 0 <= j < i ==> recs[j].inUse
      {
        if !recs[i].inUse {
          UsedOff(recs, i);
          return i;
        }
        assert recs[..i + 1][..i] == recs[..i];
      }
      assert recs[..|recs|] == recs;
      return -1;
    }

    method FreeRecs() returns (n: nat)
      ensures n == |recs| - Used(recs)
    {
      n := 0;
      for i := 0 to |recs|
        invariant n == i - Used(recs[..i])
      {
        assert recs[..i + 1][..i] == recs[..i];
        if !recs[i].inUse { n := n + 1; }
      }
      assert recs[..|recs|] == recs;
    }

    // ----------------------------------------------- carving

    /** pid holds nothing in vn. */
    ghost predicate Stranger(rs: seq<Rec>, vn: nat, pid: int) {
      forall i :: 0 <= i < |rs| ==> !Mine(rs[i], vn, pid)
    }

    /** One step of the loop in carve_locked. */
    method CarveAt(i: nat, vn: nat, pid: int, s: nat, e: nat)
      requires Tidy(recs) && i < |recs| && s <= e <= END_OF_FILE
      requires Spans(recs[i], vn, pid, s, e) ==> Used(recs) < |recs|
      modifies this`recs
      ensures Tidy(recs) && LostOnly(old(recs), recs, vn, pid, s, e) && OthersKept(old(recs), recs, vn, pid)
      ensures forall j :: 0 <= j < |recs| && j != i ==> recs[j] == old(recs)[j] || Clear(recs[j], vn, pid, s, e)
      ensures Clear(recs[i], vn, pid, s, e) && (Clear(old(recs)[i], vn, pid, s, e) ==> recs == old(recs))
      ensures if Spans(old(recs)[i], vn, pid, s, e) then Used(recs) == Used(old(recs)) + 1
        else Used(recs) <= Used(old(recs))
    {
      var r := recs[i];
      if Clear(r, vn, pid, s, e) { return; }
      if r.start >= s && r.end <= e {
        Store(i, r.(inUse := false), vn, pid, s, e);
        return;
      }
      if r.start < s && r.end > e {
        SplitRec(i, vn, pid, s, e);
        return;
      }
      if r.start < s {
        Store(i, r.(end := s - 1), vn, pid, s, e);
      } else {
        Store(i, r.(start := e + 1), vn, pid, s, e);
      }
    }

    /** A lock around the range becomes two. */
    method SplitRec(i: nat, vn: nat, pid: int, s: nat, e: nat)
      requires Tidy(recs) && i < |recs| && s <= e <= END_OF_FILE && Spans(recs[i], vn, pid, s, e)
      requires Used(recs) < |recs|
      modifies this`recs
      ensures Tidy(recs) && LostOnly(old(recs), recs, vn, pid, s, e) && OthersKept(old(recs), recs, vn, pid)
      ensures forall j :: 0 <= j < |recs| && j != i ==> recs[j] == old(recs)[j] || Clear(recs[j], vn, pid, s, e)
      ensures Clear(recs[i], vn, pid, s, e) && Used(recs) == Used(old(recs)) + 1
    {
      var r := recs[i];
      var k := RecAlloc();
      SplitTidy(recs, i, k, s, e);
      var tail, head := r.(start := e + 1), r.(end := s - 1);
      CarveLost(recs, recs[k := tail][i := head], i, k, vn, pid, s, e);
      UsedStore(recs, k, tail);
      UsedStore(recs[k := tail], i, head);
      recs := recs[k := tail][i := head];
    }

    /** A lock is deleted or trimmed. */
    method Store(i: nat, r: Rec, vn: nat, pid: int, s: nat, e: nat)
      requires Tidy(recs) && i < |recs| && Mine(recs[i], vn, pid) && PartOf(r, recs[i])
      requires forall x :: recs[i].start <= x <= recs[i].end && !(s <= x <= e) ==> HoldsAt(r, vn, pid, recs[i].kind, x)
      modifies this`recs
      ensures recs == old(recs)[i := r] && Tidy(recs)
      ensures LostOnly(old(recs), recs, vn, pid, s, e) && Used(recs) <= Used(old(recs))
    {
      ShrinkTidy(recs, i, r);
      CarveLost(recs, recs[i := r], i, i, vn, pid, s, e);
      UsedStore(recs, i, r);
      recs := recs[i := r];
    }

    /** The locks carve_locked would have to split. */
    method Splits(vn: nat, pid: int, s: nat, e: nat) returns (n: nat, ghost at: nat)
      requires Tidy(recs) && s <= e
      ensures n == 0 ==> forall j :: 0 <= j < |recs| ==> !Spans(recs[j], vn, pid, s, e)
      ensures n > 0 ==> n == 1 && at < |recs| && Spans(recs[at], vn, pid, s, e)
    {
      n, at := 0, 0;
      for i := 0 to |recs|
        invariant n == 0 ==> forall j :: 0 <= j < i ==> !Spans(recs[j], vn, pid, s, e)
        invariant n > 0 ==> n == 1 && at < i && Spans(recs[at], vn, pid, s, e)
      {
        if Spans(recs[i], vn, pid, s, e) {
          if n > 0 { OneSpans(recs, i, at, vn, pid, s, e); }
          n, at := n + 1, i;
        }
      }
    }

    /**
     * carve_locked: pid loses exactly [s, e] of vn.  It fails, changing nothing, just when a lock has to be
     * split and no record is free.
     */
    method Carve(vn: nat, pid: int, s: nat, e: nat) returns (ok: bool)
      requires Tidy(recs) && s <= e <= END_OF_FILE
      modifies this`recs
      ensures !ok ==> recs == old(recs)
      ensures ok <==> !(AnySpans(old(recs), vn, pid, s, e) && Used(old(recs)) == |old(recs)|)
      ensures ok ==> Tidy(recs) && Unlocked(old(recs), recs, vn, pid, s, e) && OthersKept(old(recs), recs, vn, pid)
      ensures ok ==> forall j :: 0 <= j < |recs| ==> Clear(recs[j], vn, pid, s, e)
      ensures Stranger(old(recs), vn, pid) ==> recs == old(recs)
      ensures ok ==> if AnySpans(old(recs), vn, pid, s, e) then Used(recs) == Used(old(recs)) + 1
        else Used(recs) <= Used(old(recs))
    {
      var n, at := Splits(vn, pid, s, e);
      UsedBound(recs);
      var room := FreeRecs();
      if n > room { return false; }
      CarveLoop(vn, pid, s, e, n > 0, at);
      return true;
    }

    method CarveLoop(vn: nat, pid: int, s: nat, e: nat, ghost split: bool, ghost at: nat)
      requires Tidy(recs) && s <= e <= END_OF_FILE
      requires if split then at < |recs| && Spans(recs[at], vn, pid, s, e) && Used(recs) < |recs|
               else forall j :: 0 <= j < |recs| ==> !Spans(recs[j], vn, pid, s, e)
      modifies this`recs
      ensures Tidy(recs) && Unlocked(old(recs), recs, vn, pid, s, e) && OthersKept(old(recs), recs, vn, pid)
      ensures forall j :: 0 <= j < |recs| ==> Clear(recs[j], vn, pid, s, e)
      ensures Stranger(old(recs), vn, pid) ==> recs == old(recs)
      ensures if split then Used(recs) == Used(old(recs)) + 1 else Used(recs) <= Used(old(recs))
    {
      for i := 0 to |recs|
        invariant Tidy(recs) && LostOnly(old(recs), recs, vn, pid, s, e) && OthersKept(old(recs), recs, vn, pid)
        invariant forall j :: 0 <= j < i ==> Clear(recs[j], vn, pid, s, e)
        invariant forall j :: i <= j < |recs| ==> recs[j] == old(recs)[j] || Clear(recs[j], vn, pid, s, e)
        invariant split && i <= at ==> recs == old(recs)
        invariant split && i > at ==> Used(recs) == Used(old(recs)) + 1
        invariant !split ==> Used(recs) <= Used(old(recs))
        invariant Stranger(old(recs), vn, pid) ==> recs == old(recs)
      {
        if split { SpansAlone(old(recs), at, i, vn, pid, s, e); }
        label Before:
        CarveAt(i, vn, pid, s, e);
        LostMore(old(recs), old@Before(recs), recs, vn, pid, s, e);
      }
      LostAll(old(recs), recs, vn, pid, s, e);
    }

    // ----------------------------------------------- merging

    /** Nothing is left to merge. */
    ghost predicate Apart(rs: seq<Rec>, vn: nat, pid: int) {
      forall i, j :: 0 <= i < |rs| && 0 <= j < |rs| && i != j ==> !Joins(rs[i], rs[j], vn, pid)
    }

    /** The first record after which the inner loop of merge_locked stops, or -1. */
    method Partner(i: nat, vn: nat, pid: int) returns (j: int)
      requires i < |recs|
      ensures j >= 0 ==> j < |recs| && j != i && Joins(recs[i], recs[j], vn, pid)
      ensures j < 0 ==> forall k :: 0 <= k < |recs| && k != i ==> !Joins(recs[i], recs[k], vn, pid)
    {
      for k := 0 to |recs|
        invariant forall m :: 0 <= m < k && m != i ==> !Joins(recs[i], recs[m], vn, pid)
      {
        if k != i && Joins(recs[i], recs[k], vn, pid) { return k; }
      }
      return -1;
    }

    /** One pass of merge_locked: joins one pair, or finds there is none. */
    method MergeOnce(vn: nat, pid: int) returns (changed: bool)
      requires TidyBut(recs, vn, pid)
      modifies this`recs
      ensures TidyBut(recs, vn, pid) && SameMap(old(recs), recs) && OthersKept(old(recs), recs, vn, pid)
      ensures changed ==> Used(recs) < Used(old(recs))
      ensures !changed ==> recs == old(recs) && Apart(recs, vn, pid)
      ensures Apart(old(recs), vn, pid) ==> !changed
    {
      for i := 0 to |recs|
        invariant recs == old(recs)
        invariant forall a, b :: 0 <= a < i && 0 <= b < |recs| && a != b ==> !Joins(recs[a], recs[b], vn, pid)
      {
        var j := Partner(i, vn, pid);
        if j >= 0 {
          JoinTidy(recs, i, j, vn, pid);
          JoinHolds(recs, i, j, vn, pid);
          var hull, off := Hull(recs[i], recs[j]), recs[j].(inUse := false);
          UsedStore(recs, i, hull);
          UsedStore(recs[i := hull], j, off);
          recs := recs[i := hull][j := off];
          return true;
        }
      }
      return false;
    }

    /** merge_locked: no byte changes, and one owner's neighbours of one kind end up as one record. */
    method Merge(vn: nat, pid: int)
      requires TidyBut(recs, vn, pid)
      modifies this`recs
      ensures Tidy(recs) && SameMap(old(recs), recs) && OthersKept(old(recs), recs, vn, pid)
      ensures Apart(old(recs), vn, pid) ==> recs == old(recs)
    {
      var changed := true;
      while changed
        invariant TidyBut(recs, vn, pid) && SameMap(old(recs), recs) && OthersKept(old(recs), recs, vn, pid)
        invariant !changed ==> Apart(recs, vn, pid)
        invariant Apart(old(recs), vn, pid) ==> recs == old(recs)
        decreases changed, Used(recs)
      {
        changed := MergeOnce(vn, pid);
      }
      MergedTidy(recs, vn, pid);
    }

    // ----------------------------------------------- taking and dropping

    /** The lock is in the first record that was free, and no other record changed. */
    ghost predicate Placed(before: seq<Rec>, after: seq<Rec>, w: Rec) {
      exists k :: PlacedAt(before, after, w, k)
    }

    ghost predicate PlacedAt(before: seq<Rec>, after: seq<Rec>, w: Rec, k: nat) {
      && k < |before| && !before[k].inUse && (forall i :: 0 <= i < k ==> before[i].inUse)
      && after == before[k := w]
    }

    lemma PlacedApart(before: seq<Rec>, w: Rec, k: nat)
      requires k < |before| && !before[k].inUse && forall i :: 0 <= i < k ==> before[i].inUse
      ensures Stranger(before, w.vn, w.pid) ==>
        Placed(before, before[k := w], w) && Apart(before[k := w], w.vn, w.pid)
    {
      assert PlacedAt(before, before[k := w], w, k);
    }

    /** A split would need the last free record, and leave none for the lock itself. */
    ghost predicate Squeezed(w: Rec)
      reads this
    {
      Used(recs) == |recs| - 1 && AnySpans(recs, w.vn, w.pid, w.start, w.end)
    }

    /** The range is clear: the lock goes into a free record and is joined to its neighbours. */
    method Insert(k: nat, w: Rec, ghost before: seq<Rec>)
      requires Tidy(recs) && Free(before, w) && w.inUse && Proper(w)
      requires Unlocked(before, recs, w.vn, w.pid, w.start, w.end) && OthersKept(before, recs, w.vn, w.pid)
      requires forall j :: 0 <= j < |recs| ==> Clear(recs[j], w.vn, w.pid, w.start, w.end)
      requires Stranger(before, w.vn, w.pid) ==> recs == before
      requires k < |recs| && !recs[k].inUse && forall i :: 0 <= i < k ==> recs[i].inUse
      modifies this`recs
      ensures Tidy(recs) && OthersKept(before, recs, w.vn, w.pid) && Locked(before, recs, w)
      ensures Stranger(before, w.vn, w.pid) ==> Placed(before, recs, w)
    {
      StillFree(before, recs, w);
      InsertTidy(before, recs, k, w);
      PlacedApart(recs, w, k);
      recs := recs[k := w];
      Merge(w.vn, w.pid);
    }

    /**
     * The end of flock_fcntl: takes a lock nobody forbids.  With no free record nothing changes; with one,
     * where a lock has to be split for it, the range is lost and the lock is not taken.
     */
    method Take(w: Rec) returns (ok: bool)
      requires Tidy(recs) && Free(recs, w) && w.inUse && Proper(w)
      modifies this`recs
      ensures Tidy(recs) && OthersKept(old(recs), recs, w.vn, w.pid)
      ensures ok <==> !(Used(old(recs)) == |old(recs)| || old(Squeezed(w)))
      ensures ok ==> Locked(old(recs), recs, w)
      ensures !ok && !old(Squeezed(w)) ==> recs == old(recs)
      ensures !ok && old(Squeezed(w)) ==> Unlocked(old(recs), recs, w.vn, w.pid, w.start, w.end)
      ensures ok && Stranger(old(recs), w.vn, w.pid) ==> Placed(old(recs), recs, w)
    {
      UsedBound(recs);
      var room := FreeRecs();
      if room < 1 { return false; }
      ok := Carve(w.vn, w.pid, w.start, w.end);
      if ok {
        var k := RecAlloc();
        if k < 0 {
          ok := false;
        } else {
          Insert(k, w, old(recs));
        }
      }
    }

    /** A process that only touches its own locks, awake, keeps the waits free of cycles. */
    ghost method Acted(pid: int, before: seq<Rec>)
      requires |recs| == FLOCK_MAX && |waiters| == FLOCK_WAITERS && Tidy(recs) && PidOnly(before, recs, pid)
      requires AllProper(waiters) && (orderly ==> OneSlot(waiters) && Acyclic(Table(before, waiters)))
      modifies this`orderly
      ensures Valid() && orderly == (old(orderly) && !Waiting(waiters, pid))
    {
      orderly := orderly && !Waiting(waiters, pid);
      if orderly { AwakeAcyclic(Table(before, waiters), recs, pid); }
    }

    /** F_GETLK: the first lock in the way, if any; it holds a byte of the range that w may not have. */
    method GetLock(w: Rec) returns (c: int)
      requires Valid() && w.inUse && Proper(w)
      ensures c < 0 <==> !Contested(recs, w)
      ensures c >= 0 ==>
        c == First(recs, w, 0) < |recs| && recs[c].pid != w.pid && (recs[c].kind.Write? || w.kind.Write?)
      ensures c >= 0 ==> exists x :: w.start <= x <= w.end && HoldsAt(recs[c], w.vn, recs[c].pid, recs[c].kind, x)
    {
      c := Conflict(w);
      FreeExactly(recs, w);
      if c >= 0 {
        FirstIs(recs, w, 0);
        ForbidsByte(recs, c, w);
      }
    }

    /** F_SETLK with F_UNLCK. */
    method Unlock(vn: nat, pid: int, s: nat, e: nat) returns (rc: Rc)
      requires Valid() && s <= e <= END_OF_FILE
      modifies this`recs, this`orderly
      ensures Valid() && orderly == (old(orderly) && !Waiting(waiters, pid))
      ensures rc == (if AnySpans(old(recs), vn, pid, s, e) && Used(old(recs)) == FLOCK_MAX then NoLocks else Ok)
      ensures rc.Ok? ==> Unlocked(old(recs), recs, vn, pid, s, e)
      ensures rc.NoLocks? ==> recs == old(recs)
    {
      var ok := Carve(vn, pid, s, e);
      Acted(pid, old(recs));
      return if ok then Ok else NoLocks;
    }

    /** F_SETLK with a lock. */
    method SetLock(w: Rec) returns (rc: Rc)
      requires Valid() && w.inUse && Proper(w)
      modifies this`recs, this`orderly
      ensures Valid() && orderly == (old(orderly) && !Waiting(waiters, w.pid))
      ensures rc.Again? <==> Contested(old(recs), w)
      ensures rc.Ok? <==> !Contested(old(recs), w) && Used(old(recs)) < FLOCK_MAX && !old(Squeezed(w))
      ensures !rc.Deadlock? && !rc.Asleep?
      ensures rc.Ok? ==> Locked(old(recs), recs, w)
      ensures !rc.Ok? && !(rc.NoLocks? && old(Squeezed(w))) ==> recs == old(recs)
      ensures rc.NoLocks? && old(Squeezed(w)) ==> Unlocked(old(recs), recs, w.vn, w.pid, w.start, w.end)
      ensures rc.Ok? && Stranger(old(recs), w.vn, w.pid) ==> Placed(old(recs), recs, w)
    {
      UsedBound(recs);
      FreeExactly(recs, w);
      var c := Conflict(w);
      if c >= 0 {
        Acted(w.pid, recs);
        return Again;
      }
      var ok := Take(w);
      Acted(w.pid, old(recs));
      return if ok then Ok else NoLocks;
    }

    // ----------------------------------------------- waiting

    method FindSlot(p: int) returns (i: nat)
      ensures i == Slot(waiters, p, 0)
    {
      i := 0;
      while i < |waiters| && !(waiters[i].inUse && waiters[i].pid == p)
        invariant i <= |waiters| && Slot(waiters, p, 0) == Slot(waiters, p, i)
      {
        i := i + 1;
      }
    }

    /** deadlock_locked. */
    method WouldDeadlock(pid: int, holder: int) returns (dead: bool)
      ensures dead == Walk(State(), pid, holder, 0)
    {
      var h := holder;
      for hops := 0 to FLOCK_WAITERS
        invariant Walk(State(), pid, holder, 0) == Walk(State(), pid, h, hops)
      {
        if h == pid { return true; }
        var i := FindSlot(h);
        if i == |waiters| { return false; }
        var j := Conflict(waiters[i]);
        FirstIs(recs, waiters[i], 0);
        if j < 0 { return false; }
        h := recs[j].pid;
      }
      return false;
    }

    /** Every slot has its sleeper. */
    ghost predicate Crowded(ws: seq<Rec>) { forall i :: 0 <= i < |ws| ==> ws[i].inUse }

    method FreeSlot() returns (k: int)
      ensures k < 0 ==> Crowded(waiters)
      ensures k >= 0 ==> k < |waiters| && !waiters[k].inUse
    {
      for i := 0 to |waiters|
        invariant forall j :: 0 <= j < i ==> waiters[j].inUse
      {
        if !waiters[i].inUse { return i; }
      }
      return -1;
    }

    /** One turn of the F_SETLKW loop: take the lock, or go to sleep for it unless that would close a cycle. */
    method WaitLock(w: Rec) returns (rc: Rc)
      requires Valid() && w.inUse && Proper(w)
      modifies this
      ensures Valid() && !rc.Again?
      ensures !Contested(old(recs), w) ==> (rc.Ok? || rc.NoLocks?) && waiters == old(waiters)
      ensures rc.Ok? <==> !Contested(old(recs), w) && Used(old(recs)) < FLOCK_MAX && !old(Squeezed(w))
      ensures rc.Ok? ==> Locked(old(recs), recs, w)
      ensures Contested(old(recs), w) ==> recs == old(recs)
      ensures rc.Deadlock? <==> var f := First(old(recs), w, 0);
                                f < |old(recs)| && Walk(old(State()), w.pid, old(recs)[f].pid, 0)
      ensures rc.Asleep? ==>
        rc.slot < |waiters| && !old(waiters)[rc.slot].inUse && waiters == old(waiters)[rc.slot := w]
      ensures !rc.Asleep? ==> waiters == old(waiters)
      ensures rc.Asleep? <==> Contested(old(recs), w) && !rc.Deadlock? && !Crowded(old(waiters))
      ensures orderly == (old(orderly) && !Waiting(old(waiters), w.pid) && (rc.Asleep? ==> !Closes(old(State()), w)))
      ensures old(orderly) && !Waiting(old(waiters), w.pid) ==>
        (orderly <==> Acyclic(State())) && (rc.Asleep? && Lone(State()) ==> orderly)
    {
      FreeExactly(recs, w);
      var c := Conflict(w);
      FirstIs(recs, w, 0);
      if c < 0 {
        UsedBound(recs);
        var ok := Take(w);
        Acted(w.pid, old(recs));
        return if ok then Ok else NoLocks;
      }
      Acted(w.pid, recs);
      var dead := WouldDeadlock(w.pid, recs[c].pid);
      if dead { return Deadlock; }
      var k := FreeSlot();
      if k < 0 { return NoLocks; }
      if orderly {
        SleepExact(State(), k, w);
        if Lone(Table(recs, waiters[k := w])) { SleepAcyclic(State(), k, w, c); }
      }
      orderly := orderly && !Closes(State(), w);
      waiters := waiters[k := w];
      return Asleep(k);
    }

    /** waitq_sleep has returned: the waiter is no longer in the table. */
    method Wake(k: nat)
      requires Valid() && k < FLOCK_WAITERS
      modifies this`waiters
      ensures Valid() && waiters == old(waiters)[k := old(waiters)[k].(inUse := false)]
    {
      if orderly { WokenAcyclic(State(), k); }
      waiters := waiters[k := waiters[k].(inUse := false)];
    }

    // ----------------------------------------------- close and exit

    /** flock_release_vnode: pid keeps nothing in vn, and all it has elsewhere. */
    method ReleaseVnode(vn: nat, pid: int)
      requires Valid()
      modifies this`recs, this`orderly
      ensures Valid() && orderly == (old(orderly) && !Waiting(waiters, pid))
      ensures forall v: nat, p, k, x :: Holds(recs, v, p, k, x) <==>
        Holds(old(recs), v, p, k, x) && !(v == vn && p == pid)
    {
      for i := 0 to |recs|
        invariant |recs| == |old(recs)| && orderly == old(orderly)
        invariant forall j :: 0 <= j < |recs| ==>
          recs[j] == if j < i then Off(old(recs)[j], Mine(old(recs)[j], vn, pid)) else old(recs)[j]
      {
        if Mine(recs[i], vn, pid) { recs := recs[i := recs[i].(inUse := false)]; }
      }
      OffTidy(old(recs), recs);
      OffHolds(old(recs), recs);
      Acted(pid, old(recs));
    }

    /** flock_release_pid: pid keeps nothing anywhere. */
    method ReleasePid(pid: int)
      requires Valid()
      modifies this`recs, this`orderly
      ensures Valid() && orderly == (old(orderly) && !Waiting(waiters, pid))
      ensures forall v: nat, p, k, x :: Holds(recs, v, p, k, x) <==> Holds(old(recs), v, p, k, x) && p != pid
    {
      for i := 0 to |recs|
        invariant |recs| == |old(recs)| && orderly == old(orderly)
        invariant forall j :: 0 <= j < |recs| ==>
          recs[j] == if j < i then Off(old(recs)[j], old(recs)[j].pid == pid) else old(recs)[j]
      {
        if recs[i].inUse && recs[i].pid == pid { recs := recs[i := recs[i].(inUse := false)]; }
      }
      OffTidy(old(recs), recs);
      OffHolds(old(recs), recs);
      Acted(pid, old(recs));
    }
  }

  // ------------------------------------------------- a cycle the walk misses

  /** The byte `at` of file 0. */
  function One(pid: int, kind: Kind, at: nat): Rec { Rec(true, 0, pid, kind, at, at) }

  /** The lock goes into the first free record of a table that has one. */
  method Grant(l: Locks, w: Rec, k: nat)
    requires l.Valid() && l.orderly && w.inUse && Proper(w) && Free(l.recs, w) && l.Stranger(l.recs, w.vn, w.pid)
    requires k < FLOCK_MAX && !l.recs[k].inUse && forall i :: 0 <= i < k ==> l.recs[i].inUse
    requires !Waiting(l.waiters, w.pid)
    modifies l`recs, l`orderly
    ensures l.Valid() && l.orderly && l.recs == old(l.recs)[k := w]
  {
    UsedOff(l.recs, k);
    var rc := l.SetLock(w);
    assert forall m :: l.PlacedAt(old(l.recs), l.recs, w, m) ==> m == k;
  }

  /** Processes 1 and 2 read byte 0, and process 3 writes byte 1. */
  ghost predicate Staged(recs: seq<Rec>) {
    && |recs| == FLOCK_MAX && recs[0] == One(1, Read, 0) && recs[1] == One(2, Read, 0) && recs[2] == One(3, Write, 1)
    && forall i :: 3 <= i < |recs| ==> !recs[i].inUse
  }

  /** Process 3 may sleep for byte 0: nobody waits yet. */
  lemma FirstSleep(t: Table)
    requires Staged(t.recs) && |t.waiters| == FLOCK_WAITERS
    requires forall i :: 0 <= i < |t.waiters| ==> !t.waiters[i].inUse
    ensures
      var w := One(3, Write, 0);
      Contested(t.recs, w) && First(t.recs, w, 0) == 0 && !Walk(t, 3, 1, 0) && !Closes(t, w)
  {
    var w := One(3, Write, 0);
    ForbidsByte(t.recs, 0, w);
    SlotIs(t.waiters, 1, 0);
    forall c, ps | 0 <= c < |t.recs| && Forbids(t.recs[c], w) ensures !Leads(t, ps, t.recs[c].pid, 3) {
      assert Leads(t, ps, t.recs[c].pid, 3) && |ps| >= 2 ==> Edge(t, ps[0], ps[0 + 1]);
    }
  }

  /** Process 2 may then sleep for byte 1: the walk follows process 1, the first of the two that keep 3 waiting. */
  lemma SecondSleep(t: Table, k: nat)
    requires Staged(t.recs) && |t.waiters| == FLOCK_WAITERS && k < |t.waiters| && t.waiters[k] == One(3, Write, 0)
    requires forall i :: 0 <= i < |t.waiters| && i != k ==> !t.waiters[i].inUse
    ensures
      var w := One(2, Write, 1);
      Contested(t.recs, w) && First(t.recs, w, 0) == 2 && !Walk(t, 2, 3, 0) && Closes(t, w)
  {
    var w := One(2, Write, 1);
    ForbidsByte(t.recs, 2, w);
    FirstIs(t.recs, w, 0);
    SlotIs(t.waiters, 3, 0);
    SlotIs(t.waiters, 1, 0);
    assert First(t.recs, t.waiters[k], 0) == 0;
    assert !Walk(t, 2, 1, 1);
    assert Blocks(t, k, 1);
    assert Edge(t, 3, 2);
    assert Leads(t, [3, 2], t.recs[2].pid, 2);
  }

  method Stage() returns (l: Locks)
    ensures fresh(l) && l.Valid() && l.orderly && Staged(l.recs)
    ensures forall i :: 0 <= i < |l.waiters| ==> !l.waiters[i].inUse
  {
    l := new Locks();
    Grant(l, One(1, Read, 0), 0);
    Grant(l, One(2, Read, 0), 1);
    Grant(l, One(3, Write, 1), 2);
  }

  /** The calls that lead to a cycle: process 3 sleeps for byte 0, then process 2 for byte 1. */
  method TwoBlockersReached() returns (l: Locks)
    ensures fresh(l) && l.Valid() && !Acyclic(l.State())
  {
    l := Stage();
    FirstSleep(l.State());
    assert !l.Crowded(l.waiters) by { assert !l.waiters[0].inUse; }
    var rc := l.WaitLock(One(3, Write, 0));
    ghost var k := rc.slot;
    SecondSleep(l.State(), k);
    assert !l.Crowded(l.waiters) by { assert !l.waiters[if k == 0 then 1 else 0].inUse; }
    rc := l.WaitLock(One(2, Write, 1));
    assert rc.Asleep?;
    assert !l.orderly;
  }

  // ------------------------------------------------- a lock lost for want of a record

  /** Process 1 writes bytes 0 to 2 of file 0; process 2 reads every second byte of file 1; one record is free. */
  function Full(): seq<Rec> {
    seq(FLOCK_MAX, i requires 0 <= i => if i == 0 then Rec(true, 0, 1, Write, 0, 2)
                                        else Rec(i < FLOCK_MAX - 1, 1, 2, Read, 2 * i, 2 * i))
  }

  lemma {:induction false} UsedAll(recs: seq<Rec>)
    requires forall i :: 0 <= i < |recs| ==> recs[i].inUse
    ensures Used(recs) == |recs|
    decreases |recs|
  {
    if recs != [] { UsedAll(recs[..|recs| - 1]); }
  }

  lemma FullUsed()
    ensures Used(Full()) == FLOCK_MAX - 1 && Tidy(Full())
  {
    UsedAll(Full()[..FLOCK_MAX - 1]);
  }

  /** Asking to read the middle byte fails, and the process has lost its write lock there. */
  method LockLost(l: Locks) returns (rc: Rc)
    requires l.Valid() && l.recs == Full()
    modifies l
    ensures rc.NoLocks? && Holds(old(l.recs), 0, 1, Write, 1) && forall k :: !Holds(l.recs, 0, 1, k, 1)
  {
    FullUsed();
    var w := One(1, Read, 1);
    assert Spans(l.recs[0], 0, 1, 1, 1) && HoldsAt(l.recs[0], 0, 1, Write, 1);
    rc := l.SetLock(w);
  }
}
