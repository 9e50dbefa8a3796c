/** kernel/fs/flock.c: the table of record locks as a value, and the per-byte lock map it stands for. */
module FlockTable {

  const FLOCK_MAX: nat := 512
  const END_OF_FILE: nat := 0xFFFF_FFFF_FFFF_FFFF

  datatype Kind = Read | Write

  /** A lock held, or (in the table of waiters) a lock wanted; `end` is inclusive. */
  datatype Rec = Rec(inUse: bool, vn: nat, pid: int, kind: Kind, start: nat, end: nat)

  predicate Overlaps(s1: nat, e1: nat, s2: nat, e2: nat) { s1 <= e2 && s2 <= e1 }

  predicate Mine(r: Rec, vn: nat, pid: int) { r.inUse && r.vn == vn && r.pid == pid }

  /** Lock r keeps another process from taking `w`. */
  predicate Forbids(r: Rec, w: Rec) {
    && r.inUse && r.vn == w.vn && r.pid != w.pid && Overlaps(r.start, r.end, w.start, w.end)
    && (r.kind.Write? || w.kind.Write?)
  }

  /** Two ranges that overlap, or meet without a gap. */
  predicate Touch(a: Rec, b: Rec) {
    || Overlaps(a.start, a.end, b.start, b.end)
    || (a.end != END_OF_FILE && a.end + 1 == b.start)
    || (b.end != END_OF_FILE && b.end + 1 == a.start)
  }

  // ------------------------------------------------- what the table stands for

  ghost predicate HoldsAt(r: Rec, vn: nat, pid: int, kind: Kind, x: int) {
    Mine(r, vn, pid) && r.kind == kind && r.start <= x <= r.end
  }

  /** Process pid has byte x of file vn locked in this way. */
  ghost predicate Holds(recs: seq<Rec>, vn: nat, pid: int, kind: Kind, x: int) {
    exists i :: 0 <= i < |recs| && HoldsAt(recs[i], vn, pid, kind, x)
  }

  // ------------------------------------------------- the invariant

  ghost predicate Proper(r: Rec) { r.inUse ==> r.start <= r.end <= END_OF_FILE }

  /** Two locks that may stand side by side; `loose` leaves out that one owner's neighbours are joined. */
  ghost predicate Fits(a: Rec, b: Rec, loose: bool) {
    a.inUse && b.inUse && a.vn == b.vn ==>
      if a.pid == b.pid then
        !Overlaps(a.start, a.end, b.start, b.end) && (!loose && a.kind == b.kind ==> !Touch(a, b))
      else
        Overlaps(a.start, a.end, b.start, b.end) ==> a.kind.Read? && b.kind.Read?
  }

  /** Locks are proper ranges; one owner's are disjoint, and joined where they meet; nobody shares a written byte. */
  ghost predicate Tidy(recs: seq<Rec>) {
    && (forall i :: 0 <= i < |recs| ==> Proper(recs[i]))
    && (forall i, j :: 0 <= i < |recs| && 0 <= j < |recs| && i != j ==> Fits(recs[i], recs[j], false))
  }

  /** Tidy but for neighbours of one owner in one file not joined yet. */
  ghost predicate TidyBut(recs: seq<Rec>, vn: nat, pid: int) {
    && (forall i :: 0 <= i < |recs| ==> Proper(recs[i]))
    && (forall i, j :: 0 <= i < |recs| && 0 <= j < |recs| && i != j ==> Fits(recs[i], recs[j], Mine(recs[i], vn, pid)))
  }

  /** Mutual exclusion: a byte somebody writes is nobody else's, and one owner's lock on a byte has one kind. */
  lemma Exclusive(recs: seq<Rec>, vn: nat, p: int, q: int, k: Kind, x: int)
    requires Tidy(recs) && Holds(recs, vn, p, Write, x) && Holds(recs, vn, q, k, x)
    ensures p == q && k == Write
  {
    var i :| 0 <= i < |recs| && HoldsAt(recs[i], vn, p, Write, x);
    var j :| 0 <= j < |recs| && HoldsAt(recs[j], vn, q, k, x);
    assert i != j ==> Fits(recs[i], recs[j], false);
  }

  // ------------------------------------------------- carving

  /** r is gone, or r is a part of r0. */
  ghost predicate PartOf(r: Rec, r0: Rec) {
    r.inUse ==> (r0.inUse && r.vn == r0.vn && r.pid == r0.pid && r.kind == r0.kind
                 && r0.start <= r.start <= r.end <= r0.end)
  }

  lemma ShrinkTidy(recs: seq<Rec>, i: nat, r: Rec)
    requires Tidy(recs) && i < |recs| && PartOf(r, recs[i])
    ensures Tidy(recs[i := r])
  {
    var recs' := recs[i := r];
    forall a, b | 0 <= a < |recs| && 0 <= b < |recs| && a != b ensures Fits(recs'[a], recs'[b], false) {
      assert Fits(recs[a], recs[b], false);
    }
  }

  lemma AddTidy(recs: seq<Rec>, k: nat, r: Rec, vn: nat, pid: int)
    requires TidyBut(recs, vn, pid) && k < |recs| && !recs[k].inUse && Proper(r) && Mine(r, vn, pid)
    requires forall j :: 0 <= j < |recs| ==> Fits(r, recs[j], true)
    ensures TidyBut(recs[k := r], vn, pid)
  {
    var recs' := recs[k := r];
    forall a, b | 0 <= a < |recs| && 0 <= b < |recs| && a != b
      ensures Fits(recs'[a], recs'[b], Mine(recs'[a], vn, pid)) {
      if a == k { assert Fits(r, recs[b], true); }
      if b == k { assert Fits(r, recs[a], true); }
      if a != k && b != k { assert Fits(recs[a], recs[b], Mine(recs[a], vn, pid)); }
    }
  }

  /** Putting the two ends of a carved lock back: the hole keeps them apart. */
  lemma SplitTidy(recs: seq<Rec>, i: nat, k: nat, s: nat, e: nat)
    requires Tidy(recs) && i < |recs| && k < |recs| && recs[i].inUse && !recs[k].inUse
    requires recs[i].start < s <= e < recs[i].end
    ensures Tidy(recs[k := recs[i].(start := e + 1)][i := recs[i].(end := s - 1)])
  {
    var head, tail := recs[i].(end := s - 1), recs[i].(start := e + 1);
    var recs' := recs[k := tail][i := head];
    assert Proper(recs[i]);
    forall a, b | 0 <= a < |recs| && 0 <= b < |recs| && a != b ensures Fits(recs'[a], recs'[b], false) {
      var a0, b0 := if a == k then i else a, if b == k then i else b;
      if a0 != b0 { assert Fits(recs[a0], recs[b0], false); }
    }
  }

  /** The lock map of `after` is that of `before`, but for bytes [s, e] pid may have lost in vn. */
  ghost predicate LostOnly(before: seq<Rec>, after: seq<Rec>, vn: nat, pid: int, s: nat, e: nat) {
    && (forall v: nat, p, k, x :: Holds(after, v, p, k, x) ==> Holds(before, v, p, k, x))
    && (forall v: nat, p, k, x :: Holds(before, v, p, k, x) ==>
      Holds(after, v, p, k, x) || (v == vn && p == pid && s <= x <= e))
  }

  lemma LostMore(a: seq<Rec>, b: seq<Rec>, c: seq<Rec>, vn: nat, pid: int, s: nat, e: nat)
    requires LostOnly(a, b, vn, pid, s, e) && LostOnly(b, c, vn, pid, s, e)
    ensures LostOnly(a, c, vn, pid, s, e)
  {
  }

  /** Replacing lock i by pieces that cover it but for [s, e]. */
  lemma CarveLost(recs: seq<Rec>, recs': seq<Rec>, i: nat, k: nat, vn: nat, pid: int, s: nat, e: nat)
    requires i < |recs| == |recs'| && k < |recs| && Mine(recs[i], vn, pid) && (k == i || !recs[k].inUse)
    requires forall j :: 0 <= j < |recs| && j != i && j != k ==> recs'[j] == recs[j]
    requires PartOf(recs'[i], recs[i]) && PartOf(recs'[k], recs[i])
    requires forall x :: recs[i].start <= x <= recs[i].end && !(s <= x <= e) ==>
               HoldsAt(recs'[i], vn, pid, recs[i].kind, x) || HoldsAt(recs'[k], vn, pid, recs[i].kind, x)
    ensures LostOnly(recs, recs', vn, pid, s, e)
  {
    forall v: nat, p, t, x | Holds(recs', v, p, t, x) ensures Holds(recs, v, p, t, x) {
      var j :| 0 <= j < |recs'| && HoldsAt(recs'[j], v, p, t, x);
      assert HoldsAt(recs[if j == k then i else j], v, p, t, x);
    }
    forall v: nat, p, t, x | Holds(recs, v, p, t, x)
      ensures Holds(recs', v, p, t, x) || (v == vn && p == pid && s <= x <= e) {
      var j :| 0 <= j < |recs| && HoldsAt(recs[j], v, p, t, x);
      if j != i { assert HoldsAt(recs'[j], v, p, t, x); }
    }
  }

  /** What F_UNLCK promises: pid loses exactly [s, e] of vn. */
  ghost predicate Unlocked(before: seq<Rec>, after: seq<Rec>, vn: nat, pid: int, s: nat, e: nat) {
    forall v: nat, p, k, x :: Holds(after, v, p, k, x) <==>
      Holds(before, v, p, k, x) && !(v == vn && p == pid && s <= x <= e)
  }

  lemma LostAll(before: seq<Rec>, after: seq<Rec>, vn: nat, pid: int, s: nat, e: nat)
    requires LostOnly(before, after, vn, pid, s, e)
    requires forall i :: 0 <= i < |after| ==> Clear(after[i], vn, pid, s, e)
    ensures Unlocked(before, after, vn, pid, s, e)
  {
    forall k, x | Holds(after, vn, pid, k, x) ensures !(s <= x <= e) {
      var i :| 0 <= i < |after| && HoldsAt(after[i], vn, pid, k, x);
      assert Clear(after[i], vn, pid, s, e);
    }
  }

  predicate Clear(r: Rec, vn: nat, pid: int, s: nat, e: nat) {
    Mine(r, vn, pid) ==> !Overlaps(r.start, r.end, s, e)
  }

  /** A lock that reaches past [s, e] on both sides. */
  predicate Spans(r: Rec, vn: nat, pid: int, s: nat, e: nat) {
    Mine(r, vn, pid) && r.start < s && r.end > e
  }

  lemma OneSpans(recs: seq<Rec>, i: nat, j: nat, vn: nat, pid: int, s: nat, e: nat)
    requires Tidy(recs) && i < |recs| && j < |recs| && s <= e
    requires Spans(recs[i], vn, pid, s, e) && Spans(recs[j], vn, pid, s, e)
    ensures i == j
  {
    assert i != j ==> Fits(recs[i], recs[j], false);
  }

  ghost predicate AnySpans(recs: seq<Rec>, vn: nat, pid: int, s: nat, e: nat) {
    exists i :: 0 <= i < |recs| && Spans(recs[i], vn, pid, s, e)
  }

  ghost predicate HoldsAround(recs: seq<Rec>, vn: nat, pid: int, k: Kind, s: nat, e: nat) {
    forall x :: s - 1 <= x <= e + 1 ==> Holds(recs, vn, pid, k, x)
  }

  /** On the lock map: a lock has to be split exactly if its owner has one kind of lock on the whole range and on the
      bytes on both sides of it. */
  lemma SpansExactly(recs: seq<Rec>, vn: nat, pid: int, s: nat, e: nat)
    requires Tidy(recs) && s <= e
    ensures AnySpans(recs, vn, pid, s, e) <==>
      s > 0 && exists k :: HoldsAround(recs, vn, pid, k, s, e)
  {
    if AnySpans(recs, vn, pid, s, e) {
      var i :| 0 <= i < |recs| && Spans(recs[i], vn, pid, s, e);
      assert forall x :: s - 1 <= x <= e + 1 ==> HoldsAt(recs[i], vn, pid, recs[i].kind, x);
      assert HoldsAround(recs, vn, pid, recs[i].kind, s, e);
    }
    if s > 0 {
      forall k | HoldsAround(recs, vn, pid, k, s, e) ensures AnySpans(recs, vn, pid, s, e) {
        assert Holds(recs, vn, pid, k, s - 1);
        var i :| 0 <= i < |recs| && HoldsAt(recs[i], vn, pid, k, s - 1);
        if recs[i].end <= e {
          assert Holds(recs, vn, pid, k, recs[i].end + 1);
          Maximal(recs, i);
          assert false;
        }
        assert Spans(recs[i], vn, pid, s, e);
      }
    }
  }

  /** Every record is as long as it can be: its owner does not hold the byte before it or behind it in the same way. */
  lemma Maximal(recs: seq<Rec>, i: nat)
    requires Tidy(recs) && i < |recs| && recs[i].inUse
    ensures !Holds(recs, recs[i].vn, recs[i].pid, recs[i].kind, recs[i].start - 1)
    ensures !Holds(recs, recs[i].vn, recs[i].pid, recs[i].kind, recs[i].end + 1)
  {
    var r := recs[i];
    forall j, x | 0 <= j < |recs| && (x == r.start - 1 || x == r.end + 1)
      ensures !HoldsAt(recs[j], r.vn, r.pid, r.kind, x)
    {
      if j != i { assert Fits(r, recs[j], false); }
    }
  }

  /** A lock around [s, e] is the only one of its owner there. */
  lemma SpansAlone(recs: seq<Rec>, at: nat, i: nat, vn: nat, pid: int, s: nat, e: nat)
    requires Tidy(recs) && at < |recs| && i < |recs| && s <= e && Spans(recs[at], vn, pid, s, e)
    ensures i == at || Clear(recs[i], vn, pid, s, e)
  {
    assert i != at ==> Fits(recs[at], recs[i], false);
  }

  // ------------------------------------------------- taking a lock

  /** Only records of pid in vn were touched. */
  ghost predicate OthersKept(before: seq<Rec>, after: seq<Rec>, vn: nat, pid: int) {
    |after| == |before| && forall i :: 0 <= i < |after| ==> KeptAt(before[i], after[i], vn, pid)
  }

  ghost predicate KeptAt(r0: Rec, r: Rec, vn: nat, pid: int) {
    r == r0 || !r.inUse || Mine(r, vn, pid)
  }

  ghost predicate Free(recs: seq<Rec>, w: Rec) {
    forall i :: 0 <= i < |recs| ==> !Forbids(recs[i], w)
  }

  /** Another process holds a byte of the range, and one of the two locks is a write lock. */
  ghost predicate Contested(recs: seq<Rec>, w: Rec) {
    exists p, k, x :: p != w.pid && w.start <= x <= w.end && Holds(recs, w.vn, p, k, x) && (k.Write? || w.kind.Write?)
  }

  /** On the lock map: a lock is free to be taken exactly if no byte of it is contested. */
  lemma FreeExactly(recs: seq<Rec>, w: Rec)
    requires Tidy(recs) && w.inUse && Proper(w)
    ensures Free(recs, w) <==> !Contested(recs, w)
  {
    if Contested(recs, w) {
      var p, k, x :| p != w.pid && w.start <= x <= w.end && Holds(recs, w.vn, p, k, x) && (k.Write? || w.kind.Write?);
      var i :| 0 <= i < |recs| && HoldsAt(recs[i], w.vn, p, k, x);
      assert Forbids(recs[i], w);
    }
    forall i | 0 <= i < |recs| && Forbids(recs[i], w) ensures Contested(recs, w) { ForbidsByte(recs, i, w); }
  }

  /** A record in the way holds a contested byte. */
  lemma ForbidsByte(recs: seq<Rec>, i: nat, w: Rec)
    requires i < |recs| && Proper(recs[i]) && w.inUse && Proper(w)
    ensures Forbids(recs[i], w) <==>
      && recs[i].pid != w.pid && (recs[i].kind.Write? || w.kind.Write?)
      && exists x :: w.start <= x <= w.end && HoldsAt(recs[i], w.vn, recs[i].pid, recs[i].kind, x)
    ensures Forbids(recs[i], w) ==> Contested(recs, w)
  {
    var r := recs[i];
    var x := if r.start < w.start then w.start else r.start;
    if Forbids(r, w) {
      assert HoldsAt(r, w.vn, r.pid, r.kind, x);
      assert Holds(recs, w.vn, r.pid, r.kind, x);
    }
  }

  lemma StillFree(before: seq<Rec>, after: seq<Rec>, w: Rec)
    requires Free(before, w) && OthersKept(before, after, w.vn, w.pid)
    ensures Free(after, w)
  {
    forall i | 0 <= i < |after| ensures !Forbids(after[i], w) { assert KeptAt(before[i], after[i], w.vn, w.pid); }
  }

  /** What a granted lock promises: pid's bytes [s, e] of vn have the new kind; nothing else changes. */
  ghost predicate Locked(before: seq<Rec>, after: seq<Rec>, w: Rec) {
    forall v: nat, p, k, x :: Holds(after, v, p, k, x) <==>
      if v == w.vn && p == w.pid && w.start <= x <= w.end then k == w.kind else Holds(before, v, p, k, x)
  }

  /** A lock nobody forbids goes into the place carved out for it. */
  lemma InsertTidy(before: seq<Rec>, recs: seq<Rec>, k: nat, w: Rec)
    requires Tidy(recs) && k < |recs| && !recs[k].inUse && w.inUse && Proper(w) && Free(recs, w)
    requires Unlocked(before, recs, w.vn, w.pid, w.start, w.end)
    requires forall i :: 0 <= i < |recs| ==> Clear(recs[i], w.vn, w.pid, w.start, w.end)
    ensures TidyBut(recs[k := w], w.vn, w.pid) && Locked(before, recs[k := w], w)
  {
    var recs' := recs[k := w];
    forall i, j | 0 <= i < |recs| && 0 <= j < |recs| && i != j
      ensures Fits(recs[i], recs[j], Mine(recs[i], w.vn, w.pid)) {
      assert Fits(recs[i], recs[j], false);
    }
    forall j | 0 <= j < |recs| ensures Fits(w, recs[j], true) {
      assert !Forbids(recs[j], w) && Clear(recs[j], w.vn, w.pid, w.start, w.end);
    }
    AddTidy(recs, k, w, w.vn, w.pid);
    InsertHolds(recs, k, w);
    forall v: nat, p, t, x
      ensures Holds(recs', v, p, t, x) <==>
        if v == w.vn && p == w.pid && w.start <= x <= w.end then t == w.kind else Holds(before, v, p, t, x)
    {
      assert Holds(recs', v, p, t, x) <==> Holds(recs, v, p, t, x) || HoldsAt(w, v, p, t, x);
    }
  }

  lemma InsertHolds(recs: seq<Rec>, k: nat, w: Rec)
    requires k < |recs| && !recs[k].inUse && w.inUse
    ensures forall v: nat, p, t, x :: Holds(recs[k := w], v, p, t, x) <==>
      Holds(recs, v, p, t, x) || HoldsAt(w, v, p, t, x)
  {
    var recs' := recs[k := w];
    forall v: nat, p, t, x ensures Holds(recs', v, p, t, x) <==> Holds(recs, v, p, t, x) || HoldsAt(w, v, p, t, x) {
      if Holds(recs, v, p, t, x) {
        var j :| 0 <= j < |recs| && HoldsAt(recs[j], v, p, t, x);
        assert HoldsAt(recs'[j], v, p, t, x);
      }
      if HoldsAt(w, v, p, t, x) { assert HoldsAt(recs'[k], v, p, t, x); }
    }
  }

  // ------------------------------------------------- merging

  /** Two locks merge_locked joins. */
  predicate Joins(a: Rec, b: Rec, vn: nat, pid: int) {
    Mine(a, vn, pid) && Mine(b, vn, pid) && a.kind == b.kind && Touch(a, b)
  }

  function Hull(a: Rec, b: Rec): Rec {
    a.(start := if b.start < a.start then b.start else a.start, end := if b.end > a.end then b.end else a.end)
  }

  ghost predicate SameMap(before: seq<Rec>, after: seq<Rec>) {
    forall v: nat, p, k, x :: Holds(after, v, p, k, x) <==> Holds(before, v, p, k, x)
  }

  /** Joining two touching locks of one owner changes no byte. */
  lemma JoinHolds(recs: seq<Rec>, i: nat, j: nat, vn: nat, pid: int)
    requires i < |recs| && j < |recs| && i != j && Joins(recs[i], recs[j], vn, pid)
    requires Proper(recs[i]) && Proper(recs[j])
    ensures SameMap(recs, recs[i := Hull(recs[i], recs[j])][j := recs[j].(inUse := false)])
  {
    var recs' := recs[i := Hull(recs[i], recs[j])][j := recs[j].(inUse := false)];
    forall v: nat, p, k, x ensures Holds(recs', v, p, k, x) <==> Holds(recs, v, p, k, x) {
      if Holds(recs, v, p, k, x) {
        var m :| 0 <= m < |recs| && HoldsAt(recs[m], v, p, k, x);
        assert HoldsAt(recs'[if m == j then i else m], v, p, k, x);
      }
      if Holds(recs', v, p, k, x) {
        var m :| 0 <= m < |recs| && HoldsAt(recs'[m], v, p, k, x);
        assert HoldsAt(recs[m], v, p, k, x) || (m == i && HoldsAt(recs[j], v, p, k, x));
      }
    }
  }

  lemma JoinFits(a: Rec, b: Rec, c: Rec, vn: nat, pid: int)
    requires Joins(a, b, vn, pid) && Proper(a) && Proper(b) && Proper(c)
    requires Fits(a, c, true) && Fits(b, c, true)
    ensures Fits(Hull(a, b), c, true) && Proper(Hull(a, b))
  {
  }

  lemma JoinTidy(recs: seq<Rec>, i: nat, j: nat, vn: nat, pid: int)
    requires TidyBut(recs, vn, pid) && i < |recs| && j < |recs| && i != j && Joins(recs[i], recs[j], vn, pid)
    ensures TidyBut(recs[i := Hull(recs[i], recs[j])][j := recs[j].(inUse := false)], vn, pid)
  {
    var off := recs[j := recs[j].(inUse := false)];
    var recs' := off[i := Hull(recs[i], recs[j])];
    forall a, b | 0 <= a < |recs| && 0 <= b < |recs| && a != b && a != i && b != i
      ensures Fits(off[a], off[b], Mine(off[a], vn, pid))
    {
      assert Fits(recs[a], recs[b], Mine(recs[a], vn, pid));
    }
    forall c | 0 <= c < |recs| && c != i ensures Fits(recs'[i], recs'[c], true) {
      if c != j {
        assert Fits(recs[i], recs[c], true) && Fits(recs[j], recs[c], true);
        JoinFits(recs[i], recs[j], recs[c], vn, pid);
      }
    }
    assert Proper(recs'[i]);
    assert recs' == recs[i := Hull(recs[i], recs[j])][j := recs[j].(inUse := false)];
    forall a, b | 0 <= a < |recs| && 0 <= b < |recs| && a != b
      ensures Fits(recs'[a], recs'[b], Mine(recs'[a], vn, pid)) {
      if a == i { assert Fits(recs'[i], recs'[b], true); }
      if b == i { assert Fits(recs'[i], recs'[a], true); }
      if a != i && b != i { assert Fits(off[a], off[b], Mine(off[a], vn, pid)); }
    }
  }

  /** Once nothing more joins, the table is tidy. */
  lemma MergedTidy(recs: seq<Rec>, vn: nat, pid: int)
    requires TidyBut(recs, vn, pid)
    requires forall i, j :: 0 <= i < |recs| && 0 <= j < |recs| && i != j ==> !Joins(recs[i], recs[j], vn, pid)
    ensures Tidy(recs)
  {
    forall i, j | 0 <= i < |recs| && 0 <= j < |recs| && i != j ensures Fits(recs[i], recs[j], false) {
      assert Fits(recs[i], recs[j], Mine(recs[i], vn, pid)) && !Joins(recs[i], recs[j], vn, pid);
    }
  }

  /** How many records are in use. */
  ghost function Used(recs: seq<Rec>): nat {
    if recs == [] then 0 else Used(recs[..|recs| - 1]) + (if recs[|recs| - 1].inUse then 1 else 0)
  }

  lemma {:induction false} UsedStore(recs: seq<Rec>, i: nat, r: Rec)
    requires i < |recs|
    ensures Used(recs[i := r]) == Used(recs) + (if r.inUse then 1 else 0) - (if recs[i].inUse then 1 else 0)
  {
    var n := |recs| - 1;
    if i < n {
      UsedStore(recs[..n], i, r);
      assert recs[i := r][..n] == recs[..n][i := r];
    } else {
      assert recs[i := r][..n] == recs[..n];
    }
  }

  lemma {:induction false} UsedBound(recs: seq<Rec>)
    ensures Used(recs) <= |recs|
  {
    if recs != [] { UsedBound(recs[..|recs| - 1]); }
  }

  /** A free record shows the table is not full. */
  lemma {:induction false} UsedOff(recs: seq<Rec>, i: nat)
    requires i < |recs| && !recs[i].inUse
    ensures Used(recs) < |recs|
  {
    var n := |recs| - 1;
    if i < n { UsedOff(recs[..n], i); } else { UsedBound(recs[..n]); }
  }

  // ------------------------------------------------- releasing whole records

  function Off(r: Rec, drop: bool): Rec { if r.inUse && drop then r.(inUse := false) else r }

  ghost predicate OnlyOff(before: seq<Rec>, after: seq<Rec>) {
    |after| == |before| && forall i :: 0 <= i < |before| ==> after[i] == Off(before[i], true) || after[i] == before[i]
  }

  lemma OffTidy(before: seq<Rec>, after: seq<Rec>)
    requires Tidy(before) && OnlyOff(before, after)
    ensures Tidy(after)
  {
    forall i, j | 0 <= i < |after| && 0 <= j < |after| && i != j ensures Fits(after[i], after[j], false) {
      assert Fits(before[i], before[j], false);
    }
  }

  /** Of the old map only what the remaining records hold is left. */
  lemma OffHolds(before: seq<Rec>, after: seq<Rec>)
    requires OnlyOff(before, after)
    ensures forall v: nat, p, k, x :: Holds(after, v, p, k, x) ==> Holds(before, v, p, k, x)
    ensures forall v: nat, p, k, x :: Holds(before, v, p, k, x) ==>
      || Holds(after, v, p, k, x)
      || exists i :: 0 <= i < |before| && HoldsAt(before[i], v, p, k, x) && after[i] != before[i]
  {
    forall v: nat, p, k, x | Holds(after, v, p, k, x) ensures Holds(before, v, p, k, x) {
      var i :| 0 <= i < |after| && HoldsAt(after[i], v, p, k, x);
      assert HoldsAt(before[i], v, p, k, x);
    }
    forall v: nat, p, k, x | Holds(before, v, p, k, x)
      ensures
        || Holds(after, v, p, k, x)
        || exists i :: 0 <= i < |before| && HoldsAt(before[i], v, p, k, x) && after[i] != before[i]
    {
      var i :| 0 <= i < |before| && HoldsAt(before[i], v, p, k, x);
      if after[i] == before[i] { assert HoldsAt(after[i], v, p, k, x); }
    }
  }
}
