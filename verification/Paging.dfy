/** kernel/mm/paging.c: mapping, unmapping, re-protecting and splitting pages, and copy-on-write, over the frame
    allocator. */
module Paging {
  import opened Bytes
  import opened Buddy
  import opened PageTree
  import Pmm

  type Positions = map<nat, seq<nat>>
  type Levels = map<nat, nat>

  /** Every table of the tree is a referenced frame. */
  ghost predicate Backed<T>(pos: map<nat, T>, refs: seq<nat>) {
    forall t :: t in pos ==> t < |refs| && refs[t] > 0
  }

  /** New empty tables may have been hung into the tree; referenced frames outside it are as they were. */
  ghost predicate Grew(root: nat, mem: Memory, refs: seq<nat>, pos: Positions, mem': Memory, refs': seq<nat>,
                       pos': Positions) {
    ( && |mem'| == |mem| == |refs'| == |refs| && Tree(mem', root, pos') && Backed(pos', refs')
      && (forall t :: t in pos ==> t in pos' && pos'[t] == pos[t])
      && (forall t :: t in pos' && t !in pos ==> refs[t] == 0)
      && (forall f :: 0 <= f < |refs| && refs[f] > 0 ==> refs'[f] == refs[f] && (f !in pos ==> mem'[f] == mem[f]))
      && Same(mem, mem', root)) == true
  }

  lemma GrewSelf(root: nat, mem: Memory, refs: seq<nat>, pos: Positions)
    requires |mem| == |refs| && Tree(mem, root, pos) && Backed(pos, refs)
    ensures Grew(root, mem, refs, pos, mem, refs, pos)
  {
  }

  lemma GrewMore(root: nat, m0: Memory, r0: seq<nat>, p0: Positions, m1: Memory, r1: seq<nat>, p1: Positions,
                 m2: Memory, r2: seq<nat>, p2: Positions)
    requires Grew(root, m0, r0, p0, m1, r1, p1) && Grew(root, m1, r1, p1, m2, r2, p2)
    ensures Grew(root, m0, r0, p0, m2, r2, p2)
  {
    SameThen(m0, m1, m2, root, None);
  }

  /** Hanging a fresh empty table below an absent entry. */
  lemma GrewTable(root: nat, mem: Memory, refs: seq<nat>, pos: Positions, t: nat, i: nat, n: nat, refs': seq<nat>)
    requires |mem| == |refs| && Tree(mem, root, pos) && Backed(pos, refs) && t in pos && |pos[t]| < 3 && i < ENTRIES
    requires !Get(mem, t, i).flags.present && n < |refs| && refs[n] == 0 && refs' == refs[n := 1]
    ensures Grew(root, mem, refs, pos, Hang(mem, t, i, n, ZEROED, TABLE_FLAGS), refs', pos[n := pos[t] + [i]])
  {
    HangTree(mem, root, pos, t, i, n, ZEROED, TABLE_FLAGS);
    forall q ensures Alike(mem, Hang(mem, t, i, n, ZEROED, TABLE_FLAGS), root, None, q) {
      HangEmpty(mem, root, pos, t, i, n, q);
    }
  }

  /** table_entry has come from table t by entry i to table c, which may be new. */
  ghost predicate Entered(root: nat, mem: Memory, refs: seq<nat>, pos: Positions, mem': Memory, refs': seq<nat>,
                          pos': Positions,
                          t: nat, i: nat, c: nat) {
    ( && Grew(root, mem, refs, pos, mem', refs', pos') && t in pos
      && Leads(mem', t, i, |pos[t]|) && c == Get(mem', t, i).frame && At(pos', c, pos[t] + [i])
      && OnlyAt(mem, mem', pos, t, i) && KeptBut(mem, refs, mem', t)
      && (mem' == mem || (!Get(mem, t, i).flags.present && c !in pos && Bare(mem', c)))) == true
  }

  lemma EnterOld(root: nat, mem: Memory, refs: seq<nat>, pos: Positions, t: nat, i: nat)
    requires |mem| == |refs| && Tree(mem, root, pos) && Backed(pos, refs) && t in pos && |pos[t]| < 3 && i < ENTRIES
    requires Get(mem, t, i).flags.present && (|pos[t]| > 0 ==> !Large(Get(mem, t, i)))
    ensures Entered(root, mem, refs, pos, mem, refs, pos, t, i, Get(mem, t, i).frame)
  {
    assert ChildAt(mem, pos, t, i);
  }

  lemma EnterNew(root: nat, mem: Memory, refs: seq<nat>, pos: Positions, t: nat, i: nat, n: nat)
    requires |mem| == |refs| && Tree(mem, root, pos) && Backed(pos, refs) && t in pos && |pos[t]| < 3 && i < ENTRIES
    requires !Get(mem, t, i).flags.present && n < |refs| && refs[n] == 0
    ensures Entered(root, mem, refs, pos, Hang(mem, t, i, n, ZEROED, TABLE_FLAGS), refs[n := 1],
      pos[n := pos[t] + [i]], t, i, n)
  {
    GrewTable(root, mem, refs, pos, t, i, n, refs[n := 1]);
    HangTree(mem, root, pos, t, i, n, ZEROED, TABLE_FLAGS);
  }

  /** One, two and three such steps from the root. */
  lemma EnterThird(root: nat, m0: Memory, r0: seq<nat>, p0: Positions, m1: Memory, r1: seq<nat>, p1: Positions,
                   p: Page, t: nat)
    requires Tree(m0, root, p0) && Upper(m0, root, p) && Entered(root, m0, r0, p0, m1, r1, p1, root, p.i4, t)
    ensures Grew(root, m0, r0, p0, m1, r1, p1) && Third(m1, root, p, t) && Upper(m1, root, p) && At(p1, t, [p.i4])
    ensures Small(m0, root, p) ==> Small(m1, root, p)
  {
  }

  lemma EnterSecond(root: nat, m1: Memory, r1: seq<nat>, p1: Positions, m2: Memory, r2: seq<nat>, p2: Positions,
                    p: Page, t3: nat, t: nat)
    requires Tree(m1, root, p1) && Third(m1, root, p, t3) && Upper(m1, root, p) && At(p1, t3, [p.i4])
    requires Entered(root, m1, r1, p1, m2, r2, p2, t3, p.i3, t)
    ensures Second(m2, root, p, t) && At(p2, t, [p.i4, p.i3])
    ensures Small(m1, root, p) ==> Small(m2, root, p)
  {
    ThirdStays(m1, m2, root, p1, p, t3, t3, p.i3);
  }

  lemma EnterLeaf(root: nat, m2: Memory, r2: seq<nat>, p2: Positions, m3: Memory, r3: seq<nat>, p3: Positions,
                  p: Page, t2: nat, t: nat)
    requires Tree(m2, root, p2) && Second(m2, root, p, t2) && At(p2, t2, [p.i4, p.i3])
    requires Entered(root, m2, r2, p2, m3, r3, p3, t2, p.i2, t)
    ensures LeafTable(m3, root, p, t) && At(p3, t, [p.i4, p.i3, p.i2])
  {
    SecondStays(m2, m3, root, p2, p, t2, t2, p.i2);
  }

  lemma StopsShort(mem: Memory, root: nat, p: Page, t2: nat)
    requires Second(mem, root, p, t2) && !Get(mem, t2, p.i2).flags.present
    ensures forall u :: !LeafTable(mem, root, p, u)
  {
  }

  // ------------------------------------------------- what other address spaces see

  /** The last table on the way to p: the one that lacks the next, or the page table. */
  ghost predicate WalkEnds(mem: Memory, root: nat, p: Page, u: nat) {
    || (u == root && !Get(mem, u, p.i4).flags.present)
    || (Third(mem, root, p, u) && !Get(mem, u, p.i3).flags.present)
    || (Second(mem, root, p, u) && !Get(mem, u, p.i2).flags.present)
    || LeafTable(mem, root, p, u)
  }

  /** Every address space without that table translates as before, whatever else it shares. */
  ghost predicate Elsewhere(mem: Memory, refs: seq<nat>, root: nat, p: Page, mem': Memory) {
    ( && (forall r, ps: Positions :: Tree(mem, r, ps) && Backed(ps, refs) && Lacks(ps, mem, root, p) ==>
            Tree(mem', r, ps) && Same(mem, mem', r))
      && (forall r, level: Levels :: Leveled(mem, r, level) && Backed(level, refs) && Lacks(level, mem, root, p) ==>
            Leveled(mem', r, level) && Same(mem, mem', r))) == true
  }

  ghost predicate Lacks<T>(tables: map<nat, T>, mem: Memory, root: nat, p: Page) {
    forall u :: u in tables ==> !WalkEnds(mem, root, p, u)
  }

  /** Of the referenced frames only u may have changed. */
  ghost predicate KeptBut(mem: Memory, refs: seq<nat>, mem': Memory, u: nat) {
    |mem'| == |mem| == |refs| && forall f :: 0 <= f < |mem| && refs[f] > 0 && f != u ==> mem'[f] == mem[f]
  }

  lemma ElsewhereKept(mem: Memory, refs: seq<nat>, root: nat, p: Page, mem': Memory, u: nat)
    requires KeptBut(mem, refs, mem', u) && (WalkEnds(mem, root, p, u) || (u < |mem| && mem'[u] == mem[u]))
    ensures Elsewhere(mem, refs, root, p, mem')
  {
    forall r, ps: Positions | Tree(mem, r, ps) && Backed(ps, refs) && Lacks(ps, mem, root, p)
      ensures Tree(mem', r, ps) && Same(mem, mem', r)
    {
      TranslateSame(mem, mem', r, ps);
    }
    forall r, level: Levels | Leveled(mem, r, level) && Backed(level, refs) && Lacks(level, mem, root, p)
      ensures Leveled(mem', r, level) && Same(mem, mem', r)
    {
      LevelsSame(mem, mem', r, level);
    }
  }

  /**
   * The walk to p has come to table c, which was on the way before (`known`) or is new and bare.  A table that was
   * there before has changed only if the walk ended at it.
   */
  ghost predicate Came(mem: Memory, refs: seq<nat>, mem': Memory, root: nat, p: Page, c: nat, known: bool) {
    ( && c < |refs|
      && if refs[c] > 0 then known && KeptBut(mem, refs, mem', c) && mem'[c] == mem[c]
         else Bare(mem', c) && exists u :: WalkEnds(mem, root, p, u) && KeptBut(mem, refs, mem', u)) == true
  }

  lemma CameElsewhere(mem: Memory, refs: seq<nat>, mem': Memory, root: nat, p: Page, c: nat, known: bool)
    requires Came(mem, refs, mem', root, p, c, known)
    ensures Elsewhere(mem, refs, root, p, mem')
  {
    if refs[c] > 0 {
      ElsewhereKept(mem, refs, root, p, mem', c);
    } else {
      var u :| WalkEnds(mem, root, p, u) && KeptBut(mem, refs, mem', u);
      ElsewhereKept(mem, refs, root, p, mem', u);
    }
  }

  /** One step further, from c to d. */
  lemma CameFurther(root: nat, m0: Memory, r0: seq<nat>, p0: Positions, m1: Memory, r1: seq<nat>, p1: Positions,
                    m2: Memory, r2: seq<nat>, p2: Positions, p: Page, c: nat, i: nat, d: nat, known: bool)
    requires Tree(m0, root, p0) && Backed(p0, r0) && Grew(root, m0, r0, p0, m1, r1, p1)
    requires Entered(root, m1, r1, p1, m2, r2, p2, c, i, d) && i < ENTRIES
    requires Came(m0, r0, m1, root, p, c, known)
    requires known ==> c in p0 && p0[c] == p1[c] && (!Get(m0, c, i).flags.present ==> WalkEnds(m0, root, p, c))
    ensures Came(m0, r0, m2, root, p, d, known && Leads(m0, c, i, |p1[c]|) && d == Get(m0, c, i).frame)
  {
    if r0[c] > 0 {
      assert Get(m1, c, i) == Get(m0, c, i);
      if m2 == m1 {
        assert ChildAt(m0, p0, c, i);
      }
    }
  }

  /** The first, second and third step from the root. */
  lemma CameThird(root: nat, m0: Memory, r0: seq<nat>, p0: Positions, m1: Memory, r1: seq<nat>, p1: Positions, p: Page,
                  t: nat)
    requires Tree(m0, root, p0) && Backed(p0, r0) && Entered(root, m0, r0, p0, m1, r1, p1, root, p.i4, t)
    ensures Came(m0, r0, m1, root, p, t, Third(m0, root, p, t))
  {
    GrewSelf(root, m0, r0, p0);
    assert KeptBut(m0, r0, m0, root);
    CameFurther(root, m0, r0, p0, m0, r0, p0, m1, r1, p1, p, root, p.i4, t, true);
  }

  lemma CameSecond(root: nat, m0: Memory, r0: seq<nat>, p0: Positions, m1: Memory, r1: seq<nat>, p1: Positions,
                   m2: Memory, r2: seq<nat>, p2: Positions, p: Page, t3: nat, t: nat)
    requires Tree(m0, root, p0) && Backed(p0, r0) && Grew(root, m0, r0, p0, m1, r1, p1) && At(p1, t3, [p.i4])
    requires Came(m0, r0, m1, root, p, t3, Third(m0, root, p, t3))
    requires Entered(root, m1, r1, p1, m2, r2, p2, t3, p.i3, t)
    ensures Came(m0, r0, m2, root, p, t, Second(m0, root, p, t))
  {
    OnPath(m0, root, p0, p);
    CameFurther(root, m0, r0, p0, m1, r1, p1, m2, r2, p2, p, t3, p.i3, t, Third(m0, root, p, t3));
  }

  lemma CameLeaf(root: nat, m0: Memory, r0: seq<nat>, p0: Positions, m1: Memory, r1: seq<nat>, p1: Positions,
                 m2: Memory, r2: seq<nat>, p2: Positions, p: Page, t2: nat, t: nat)
    requires Tree(m0, root, p0) && Backed(p0, r0) && Grew(root, m0, r0, p0, m1, r1, p1) && At(p1, t2, [p.i4, p.i3])
    requires Came(m0, r0, m1, root, p, t2, Second(m0, root, p, t2))
    requires Entered(root, m1, r1, p1, m2, r2, p2, t2, p.i2, t)
    ensures Came(m0, r0, m2, root, p, t, LeafTable(m0, root, p, t))
  {
    OnPath(m0, root, p0, p);
    CameFurther(root, m0, r0, p0, m1, r1, p1, m2, r2, p2, p, t2, p.i2, t, Second(m0, root, p, t2));
  }

  /** The leaf is written at the end of the walk. */
  lemma CameStore(m0: Memory, r0: seq<nat>, m1: Memory, root: nat, p: Page, t: nat, e: Pte)
    requires Came(m0, r0, m1, root, p, t, LeafTable(m0, root, p, t)) && IsTable(m1, t)
    ensures Elsewhere(m0, r0, root, p, Set(m1, t, p.i1, e))
  {
    var m2 := Set(m1, t, p.i1, e);
    if r0[t] > 0 {
      ElsewhereKept(m0, r0, root, p, m2, t);
    } else {
      var u :| WalkEnds(m0, root, p, u) && KeptBut(m0, r0, m1, u);
      assert KeptBut(m0, r0, m2, u);
      ElsewhereKept(m0, r0, root, p, m2, u);
    }
  }

  /** What paging_map_into promises, once its walk has grown the tree and the leaf is written. */
  lemma MapDone(root: nat, m0: Memory, r0: seq<nat>, p0: Positions, m1: Memory, r1: seq<nat>, p1: Positions,
                p: Page, t: nat, e: Pte)
    requires Grew(root, m0, r0, p0, m1, r1, p1) && LeafTable(m1, root, p, t)
    requires Came(m0, r0, m1, root, p, t, LeafTable(m0, root, p, t))
    ensures IsTable(m1, t) && Tree(Set(m1, t, p.i1, e), root, p1) && Backed(p1, r1)
    ensures Translate(Set(m1, t, p.i1, e), root, p) == if e.flags.present then Map(e.frame, e.flags) else NoMap
    ensures SameButFor(m0, Set(m1, t, p.i1, e), root, p)
    ensures Elsewhere(m0, r0, root, p, Set(m1, t, p.i1, e))
  {
    LeafStore(m1, root, p1, p, t, e);
    SameThen(m0, m1, Set(m1, t, p.i1, e), root, Some(p));
    CameStore(m0, r0, m1, root, p, t, e);
  }

  /** The walk found no page table, or one whose entry for p has no frame. */
  lemma FoundNone(mem: Memory, root: nat, p: Page, t: int)
    requires Small(mem, root, p)
    requires if t < 0 then forall u :: !LeafTable(mem, root, p, u)
             else LeafTable(mem, root, p, t) && !HasFrame(Get(mem, t, p.i1))
    ensures forall u :: LeafTable(mem, root, p, u) ==> !HasFrame(Get(mem, u, p.i1))
    ensures Translate(mem, root, p) == NoMap
  {
    if t < 0 { NoLeaf(mem, root, p); } else { LeafLook(mem, root, p, t); }
  }

  /** The leaf of p keeps its frame under the new access bits: mapped so, or parked and translating to nothing. */
  ghost predicate Reprotected(mem: Memory, mem': Memory, root: nat, p: Page, flags: Flags) {
    exists t, e' :: Rewrote(mem, mem', root, p, t, e') && NewAccess(Get(mem, t, p.i1).flags, flags, e'.flags)
                    && Translate(mem', root, p) == if flags.present then Map(e'.frame, e'.flags) else NoMap
  }

  /** The leaf of p, in page table t, has a frame; entry e' on the same frame is all that changed. */
  ghost predicate Rewrote(mem: Memory, mem': Memory, root: nat, p: Page, t: nat, e': Pte) {
    && LeafTable(mem, root, p, t) && IsTable(mem, t) && HasFrame(Get(mem, t, p.i1))
    && e'.frame == Get(mem, t, p.i1).frame && mem' == Set(mem, t, p.i1, e')
  }

  // ------------------------------------------------- splitting

  /** Under root everything translates as before, and its tables let it do what they did, but for user access to the
      page of entry i of page directory t. */
  ghost predicate Split(mem: Memory, mem': Memory, root: nat, t: nat, i: nat) {
    (forall q :: SplitAlike(mem, mem', root, t, i, TABLE_FLAGS.(user := false), q)) == true
  }

  /** Under every root that reaches t as a page directory, or not at all, that is so. */
  ghost predicate Unseen(mem: Memory, refs: seq<nat>, t: nat, i: nat, mem': Memory) {
    (forall r, level: Levels :: Leveled(mem, r, level) && Backed(level, refs) && (t in level ==> level[t] == 2) ==>
       Split(mem, mem', r, t, i)) == true
  }

  /** A tree without tables in two places stays one. */
  ghost predicate StillTree(mem: Memory, refs: seq<nat>, root: nat, mem': Memory) {
    (forall pos: Positions :: Tree(mem, root, pos) && Backed(pos, refs) ==>
       exists pos' :: Tree(mem', root, pos')) == true
  }

  ghost function SplitMemory(mem: Memory, t: nat, i: nat, n: nat): Memory
    requires IsTable(mem, t) && i < ENTRIES && n < |mem| && n != t
  {
    Hang(mem, t, i, n, Leaves(Get(mem, t, i)), TABLE_FLAGS.(user := false))
  }

  lemma SplitUnseen(mem: Memory, refs: seq<nat>, t: nat, i: nat, n: nat)
    requires IsTable(mem, t) && i < ENTRIES && Large(Get(mem, t, i)) && n < |mem| == |refs| && refs[n] == 0 && n != t
    ensures Unseen(mem, refs, t, i, SplitMemory(mem, t, i, n))
  {
    var mem' := SplitMemory(mem, t, i, n);
    forall r, level: Levels | Leveled(mem, r, level) && Backed(level, refs) && (t in level ==> level[t] == 2)
      ensures Split(mem, mem', r, t, i)
    {
      forall q ensures SplitAlike(mem, mem', r, t, i, TABLE_FLAGS.(user := false), q) {
        SplitStore(mem, r, level, t, i, n, TABLE_FLAGS.(user := false), q);
      }
    }
  }

  lemma SplitTree(root: nat, mem: Memory, refs: seq<nat>, p: Page, t: nat, n: nat)
    requires Second(mem, root, p, t) && IsTable(mem, t) && n < |mem| == |refs| && refs[n] == 0 && n != t
    ensures StillTree(mem, refs, root, SplitMemory(mem, t, p.i2, n))
  {
    var mem' := SplitMemory(mem, t, p.i2, n);
    forall pos: Positions | Tree(mem, root, pos) && Backed(pos, refs) ensures exists pos' :: Tree(mem', root, pos') {
      OnPath(mem, root, pos, p);
      HangTree(mem, root, pos, t, p.i2, n, Leaves(Get(mem, t, p.i2)), TABLE_FLAGS.(user := false));
    }
  }

  lemma SplitSmall(root: nat, mem: Memory, level: Levels, p: Page, t: nat, n: nat)
    requires Leveled(mem, root, level) && Second(mem, root, p, t) && Upper(mem, root, p) && n < |mem| && n !in level
    ensures IsTable(mem, t) && n != t && t in level && level[t] == 2 && Small(SplitMemory(mem, t, p.i2, n), root, p)
  {
    OnLevels(mem, root, level, p);
    var mem' := SplitMemory(mem, t, p.i2, n);
    assert forall u, j: nat :: u in level && u != t ==> Get(mem', u, j) == Get(mem, u, j);
    assert Get(mem', t, p.i2) == Pte(n, TABLE_FLAGS.(user := false));
    var t3 :| Third(mem, root, p, t3) && Leads(mem, t3, p.i3, 1) && t == Get(mem, t3, p.i3).frame;
    assert Third(mem', root, p, t3);
    assert Second(mem', root, p, t);
    SecondOnly(mem', root, p, t);
  }

  // ------------------------------------------------- copy on write

  /**
   * pts are all the page tables there are.  A frame that leaves own is a data frame with one reference for each
   * of them, in the hands of whoever allocated it; copy-on-write leaves own their frames.
   */
  ghost predicate Accounted(mem: Memory, refs: seq<nat>, live: set<Pmm.Block>, pts: seq<nat>) {
    ( && |mem| == |refs| && Distinct(pts)
      && (forall k :: 0 <= k < |pts| ==> IsTable(mem, pts[k]) && refs[pts[k]] > 0)
      && (forall f :: Owners(mem, pts, f) > 0 ==> Paid(mem, refs, live, f, Owners(mem, pts, f)))
      && (forall k, i: nat :: 0 <= k < |pts| && i < ENTRIES ==> CowOwns(Get(mem, pts[k], i)))) == true
  }

  ghost predicate Paid(mem: Memory, refs: seq<nat>, live: set<Pmm.Block>, f: nat, owners: nat) {
    0 < f < |refs| && f < |mem| && refs[f] == owners && Pmm.Block(f, 0) in live && mem[f].Data?
  }

  ghost predicate CowOwns(e: Pte) { HasFrame(e) && e.flags.cow ==> !e.flags.nofree }

  /** The leaf after the fault: writable and no longer copy-on-write. */
  function Granted(e: Pte, frame: nat): Pte { Pte(frame, e.flags.(present := true, cow := false, writable := true)) }

  /** Rewriting a leaf that keeps its frame changes nobody's account. */
  lemma KeepAccounted(mem: Memory, refs: seq<nat>, live: set<Pmm.Block>, pts: seq<nat>, k: nat, i: nat, e': Pte)
    requires Accounted(mem, refs, live, pts) && k < |pts| && i < ENTRIES && CowOwns(e')
    requires forall f :: Owns(e', f) <==> Owns(Get(mem, pts[k], i), f)
    ensures IsTable(mem, pts[k]) && Accounted(Set(mem, pts[k], i, e'), refs, live, pts)
    ensures forall f :: Owners(Set(mem, pts[k], i, e'), pts, f) == Owners(mem, pts, f)
  {
    var mem' := Set(mem, pts[k], i, e');
    forall f ensures Owners(mem', pts, f) == Owners(mem, pts, f) { OwnersStore(mem, pts, k, i, e', f); }
    forall f | Owners(mem', pts, f) > 0 ensures Paid(mem', refs, live, f, Owners(mem', pts, f)) {
      assert Paid(mem, refs, live, f, Owners(mem, pts, f));
    }
    forall j, m: nat | 0 <= j < |pts| && m < ENTRIES ensures CowOwns(Get(mem', pts[j], m)) {
      assert CowOwns(Get(mem, pts[j], m));
    }
  }

  /** mprotect changes no account, and a copy-on-write page stays read-only on its frame. */
  lemma ReprotectAccounted(mem: Memory, refs: seq<nat>, live: set<Pmm.Block>, pts: seq<nat>, k: nat, i: nat,
                           flags: Flags)
    requires Accounted(mem, refs, live, pts) && k < |pts| && i < ENTRIES && !flags.nofree && !flags.cow
    requires HasFrame(Get(mem, pts[k], i))
    ensures IsTable(mem, pts[k])
    ensures Accounted(Set(mem, pts[k], i, Reprotect(Get(mem, pts[k], i), flags)), refs, live, pts)
  {
    assert CowOwns(Get(mem, pts[k], i));
    KeepAccounted(mem, refs, live, pts, k, i, Reprotect(Get(mem, pts[k], i), flags));
  }

  /** The last owner gets write access back: nothing changes hands. */
  lemma GrantAccounted(mem: Memory, refs: seq<nat>, live: set<Pmm.Block>, pts: seq<nat>, k: nat, i: nat)
    requires Accounted(mem, refs, live, pts) && k < |pts| && i < ENTRIES
    requires var e := Get(mem, pts[k], i); e.flags.present && e.flags.cow
    ensures var e := Get(mem, pts[k], i); IsTable(mem, pts[k]) && Owners(mem, pts, e.frame) > 0
    ensures var e := Get(mem, pts[k], i); Accounted(Set(mem, pts[k], i, Granted(e, e.frame)), refs, live, pts)
    ensures var e := Get(mem, pts[k], i);
      Owners(Set(mem, pts[k], i, Granted(e, e.frame)), pts, e.frame) == Owners(mem, pts, e.frame)
  {
    var e := Get(mem, pts[k], i);
    assert CowOwns(e);
    OwnersAt(mem, pts, k, i, e.frame);
    KeepAccounted(mem, refs, live, pts, k, i, Granted(e, e.frame));
  }

  /** Memory after the copy: frame n holds what e's frame holds, and the leaf maps n. */
  function Copied(mem: Memory, t: nat, i: nat, n: nat): Memory
    requires t < |mem| && mem[t].Table? && i < |mem[t].entries| && n < |mem| && n != t &&
      mem[t].entries[i].frame < |mem|
  {
    Set(mem[n := mem[mem[t].entries[i].frame]], t, i, Granted(mem[t].entries[i], n))
  }

  lemma FreshUnowned(mem: Memory, refs: seq<nat>, live: set<Pmm.Block>, pts: seq<nat>, n: nat)
    requires Accounted(mem, refs, live, pts) && n < |refs| && refs[n] == 0
    ensures Owners(mem, pts, n) == 0 && forall k :: 0 <= k < |pts| ==> pts[k] != n
  {
    assert Owners(mem, pts, n) > 0 ==> Paid(mem, refs, live, n, Owners(mem, pts, n));
  }

  lemma CopyOwners(mem: Memory, pts: seq<nat>, k: nat, i: nat, n: nat, f: nat)
    requires Distinct(pts) && k < |pts| && IsTable(mem, pts[k]) && i < ENTRIES && n < |mem|
    requires forall j :: 0 <= j < |pts| ==> pts[j] != n
    requires var e := Get(mem, pts[k], i); HasFrame(e) && !e.flags.nofree && e.frame < |mem| && e.frame != n
    ensures Owners(Copied(mem, pts[k], i, n), pts, f) ==
            Owners(mem, pts, f) + (if f == n then 1 else 0) - (if f == Get(mem, pts[k], i).frame then 1 else 0)
  {
    var e := Get(mem, pts[k], i);
    OwnersSame(mem, mem[n := mem[e.frame]], pts, f);
    OwnersStore(mem[n := mem[e.frame]], pts, k, i, Granted(e, n), f);
  }

  /** A private copy: the leaf moves from the shared frame to the new one, and the counts follow. */
  lemma CopyAccounted(mem: Memory, refs: seq<nat>, live: set<Pmm.Block>, pts: seq<nat>, k: nat, i: nat, n: nat)
    requires Accounted(mem, refs, live, pts) && k < |pts| && i < ENTRIES && 0 < n < |refs| && refs[n] == 0
    requires var e := Get(mem, pts[k], i); e.flags.present && e.flags.cow && (e.frame < |refs| ==> refs[e.frame] != 1)
    ensures IsTable(mem, pts[k]) && n != pts[k]
    ensures
      var e := Get(mem, pts[k], i);
      n != e.frame < |refs| && refs[e.frame] > 1 && Paid(mem, refs, live, e.frame, refs[e.frame])
    ensures
      var e := Get(mem, pts[k], i);
      var mem', refs' := Copied(mem, pts[k], i, n), refs[n := 1][e.frame := refs[e.frame] - 1];
      Owners(mem', pts, n) == 1 && Accounted(mem', refs', live + {Pmm.Block(n, 0)}, pts)
  {
    var e := Get(mem, pts[k], i);
    assert CowOwns(e);
    OwnersAt(mem, pts, k, i, e.frame);
    FreshUnowned(mem, refs, live, pts, n);
    assert Paid(mem, refs, live, e.frame, Owners(mem, pts, e.frame));
    var mem', refs', live' := Copied(mem, pts[k], i, n), refs[n := 1][e.frame := refs[e.frame] - 1],
      live + {Pmm.Block(n, 0)};
    forall f
      ensures Owners(mem', pts, f) ==
        Owners(mem, pts, f) + (if f == n then 1 else 0) - (if f == e.frame then 1 else 0)
    {
      CopyOwners(mem, pts, k, i, n, f);
    }
    forall f | Owners(mem', pts, f) > 0 ensures Paid(mem', refs', live', f, Owners(mem', pts, f)) {
      if f != n { assert Paid(mem, refs, live, f, Owners(mem, pts, f)); }
    }
    forall j, m: nat | 0 <= j < |pts| && m < ENTRIES ensures CowOwns(Get(mem', pts[j], m)) {
      assert CowOwns(Get(mem, pts[j], m));
    }
  }

  /** A present leaf that is read-only because it is copy-on-write. */
  ghost predicate CowLeaf(l: Look) { l.Map? && l.flags.cow && !l.flags.writable }

  /** The page is writable and private now, and holds what it held. */
  ghost predicate Private(mem: Memory, was: Look, mem': Memory, now: Look, refs': seq<nat>, pts: seq<nat>) {
    && was.Map? && now.Map? && now.flags == was.flags.(cow := false, writable := true)
    && was.frame < |mem| && now.frame < |mem'| == |refs'| && mem'[now.frame] == mem[was.frame]
    && Owners(mem', pts, now.frame) == 1 == refs'[now.frame]
  }

  /** Data frames that were referenced hold what they held. */
  ghost predicate DataKept(mem: Memory, refs: seq<nat>, mem': Memory) {
    |mem'| == |mem| == |refs| && forall f :: 0 <= f < |mem| && refs[f] > 0 && mem[f].Data? ==> mem'[f] == mem[f]
  }

  /** What a handled fault on page p does. */
  ghost predicate Settled(root: nat, pos: Positions, p: Page, pts: seq<nat>, mem: Memory, refs: seq<nat>,
                          mem': Memory, refs': seq<nat>) {
    (var was, now := Translate(mem, root, p), Translate(mem', root, p);
     && CowLeaf(was) && Private(mem, was, mem', now, refs', pts)
     && Tree(mem', root, pos) && SameButFor(mem, mem', root, p) && Elsewhere(mem, refs, root, p, mem') &&
       DataKept(mem, refs, mem')) == true
  }

  /** The leaf is granted write access on the frame it has. */
  lemma GrantDone(root: nat, mem: Memory, refs: seq<nat>, pos: Positions, p: Page, t: nat, pts: seq<nat>)
    requires |mem| == |refs| && Tree(mem, root, pos) && LeafTable(mem, root, p, t)
    requires var e := Get(mem, t, p.i1);
             e.flags.present && e.flags.cow && !e.flags.writable && e.frame < |mem| && mem[e.frame].Data? &&
               refs[e.frame] == 1
    ensures IsTable(mem, t)
    ensures
      var e := Get(mem, t, p.i1);
      var mem' := Set(mem, t, p.i1, Granted(e, e.frame));
      Owners(mem', pts, e.frame) == 1 ==> Settled(root, pos, p, pts, mem, refs, mem', refs)
  {
    var e := Get(mem, t, p.i1);
    LeafLook(mem, root, p, t);
    LeafStore(mem, root, pos, p, t, Granted(e, e.frame));
    ElsewhereKept(mem, refs, root, p, Set(mem, t, p.i1, Granted(e, e.frame)), t);
  }

  /** The leaf is moved to a private copy. */
  lemma CopyDone(root: nat, mem: Memory, refs: seq<nat>, pos: Positions, p: Page, t: nat, n: nat, pts: seq<nat>,
                 refs': seq<nat>)
    requires |mem| == |refs| == |refs'| && Tree(mem, root, pos) && Backed(pos, refs) && LeafTable(mem, root, p, t)
    requires n < |refs| && refs[n] == 0 && refs'[n] == 1
    requires var e := Get(mem, t, p.i1); e.flags.present && e.flags.cow && !e.flags.writable && e.frame < |mem|
    ensures IsTable(mem, t) && n != t
    ensures
      var mem' := Copied(mem, t, p.i1, n);
      Owners(mem', pts, n) == 1 ==> Settled(root, pos, p, pts, mem, refs, mem', refs')
  {
    var e := Get(mem, t, p.i1);
    LeafLook(mem, root, p, t);
    OnPath(mem, root, pos, p);
    var mid := mem[n := mem[e.frame]];
    TranslateSame(mem, mid, root, pos);
    LeafTableSame(mem, n, mem[e.frame], root, pos, p, t);
    LeafStore(mid, root, pos, p, t, Granted(e, n));
    SameThen(mem, mid, Copied(mem, t, p.i1, n), root, Some(p));
    ElsewhereKept(mem, refs, root, p, Copied(mem, t, p.i1, n), t);
  }

  /** No frame is free. */
  ghost predicate Exhausted(refs: seq<nat>) { forall f :: 0 <= f < |refs| ==> refs[f] > 0 }

  class Paging {
    const pmm: Pmm.Pmm
    var mem: Memory

    ghost predicate Valid()
      reads this, pmm
    {
      pmm.Valid() == true && |mem| == |pmm.refs|
    }

    constructor (pmm: Pmm.Pmm, mem: Memory)
      requires pmm.Valid() && |mem| == |pmm.refs|
      ensures Valid() && this.pmm == pmm && this.mem == mem
    {
      this.pmm, this.mem := pmm, mem;
    }

    /** alloc_table_frame's frame, before it is written. */
    method AllocFrame() returns (n: nat)
      requires Valid()
      modifies pmm
      ensures Valid()
      ensures n == 0 ==> pmm.refs == old(pmm.refs) && pmm.live == old(pmm.live) && Exhausted(pmm.refs)
      ensures n > 0 ==> n < |mem| && old(pmm.refs)[n] == 0 && pmm.refs == old(pmm.refs)[n := 1]
      ensures n > 0 ==> pmm.live == old(pmm.live) + {Pmm.Block(n, 0)}
    {
      n := pmm.AllocFrames(0);
      assert forall k :: Within(n, 0, k) <==> k == n;
      if n == 0 {
        forall f | 0 <= f < |pmm.refs| ensures pmm.refs[f] > 0 {
          assert Aligned(f, 0) && !Pmm.Idle(pmm.refs, f, 0) && Within(f, 0, f);
        }
      }
    }

    /** alloc_table_frame: a zeroed frame that nobody referred to. */
    method AllocTable() returns (n: nat)
      requires Valid()
      modifies this`mem, pmm
      ensures Valid()
      ensures n == 0 ==>
        mem == old(mem) && pmm.refs == old(pmm.refs) && pmm.live == old(pmm.live) && Exhausted(pmm.refs)
      ensures n > 0 ==> n < |old(mem)| == |old(pmm.refs)| && old(pmm.refs)[n] == 0 && pmm.refs == old(pmm.refs)[n := 1]
      ensures n > 0 ==> mem == old(mem)[n := Table(ZEROED)]
    {
      n := AllocFrame();
      if n > 0 { mem := mem[n := Table(ZEROED)]; }
    }

    /** table_entry where it may not make a table. */
    method Follow(t: nat, i: nat) returns (c: int)
      ensures c == if Get(mem, t, i).flags.present then Get(mem, t, i).frame else -1
    {
      return if Get(mem, t, i).flags.present then Get(mem, t, i).frame else -1;
    }

    /** table_entry: the table that entry i of t leads to, made on the way if need be; -1 if there is none. */
    method TableEntry(ghost root: nat, t: nat, i: nat, create: bool, ghost pos: Positions)
      returns (c: int, ghost pos': Positions)
      requires Valid() && Tree(mem, root, pos) && Backed(pos, pmm.refs) && t in pos && |pos[t]| < 3 && i < ENTRIES
      requires |pos[t]| > 0 ==> !Large(Get(mem, t, i))
      modifies this`mem, pmm
      ensures Valid()
      ensures c >= 0 ==> Entered(root, old(mem), old(pmm.refs), pos, mem, pmm.refs, pos', t, i, c)
      ensures c < 0 ==>
        mem == old(mem) && pos' == pos && !Get(mem, t, i).flags.present && (create ==> Exhausted(pmm.refs))
      ensures !create || c < 0 ==>
        mem == old(mem) && pos' == pos && pmm.refs == old(pmm.refs) && pmm.live == old(pmm.live)
    {
      pos' := pos;
      c := Follow(t, i);
      if c >= 0 {
        EnterOld(root, mem, pmm.refs, pos, t, i);
        return;
      }
      if !create { return -1, pos; }
      var n := AllocTable();
      if n == 0 { return -1, pos; }
      EnterNew(root, old(mem), old(pmm.refs), pos, t, i, n);
      assert IsTable(old(mem), t) && n != t;
      mem := Set(mem, t, i, Pte(n, TABLE_FLAGS));
      return n, pos[n := pos[t] + [i]];
    }

    /** The first of the table_entry calls every operation starts with; WalkSecond and Walk add the others. */
    method WalkThird(root: nat, p: Page, create: bool, ghost pos: Positions) returns (t: int, ghost pos': Positions)
      requires Valid() && Tree(mem, root, pos) && Backed(pos, pmm.refs) && Upper(mem, root, p)
      modifies this`mem, pmm
      ensures Valid() && Grew(root, old(mem), old(pmm.refs), pos, mem, pmm.refs, pos')
      ensures !create ==> mem == old(mem) && pos' == pos && pmm.refs == old(pmm.refs) && pmm.live == old(pmm.live)
      ensures t >= 0 ==> Third(mem, root, p, t) && Upper(mem, root, p) && At(pos', t, [p.i4])
      ensures t >= 0 && Small(old(mem), root, p) ==> Small(mem, root, p)
      ensures t < 0 ==> mem == old(mem) && !Get(mem, root, p.i4).flags.present && (create ==> Exhausted(pmm.refs))
      ensures t >= 0 ==> Came(old(mem), old(pmm.refs), mem, root, p, t, Third(old(mem), root, p, t))
    {
      t, pos' := TableEntry(root, root, p.i4, create, pos);
      if t >= 0 {
        CameThird(root, old(mem), old(pmm.refs), pos, mem, pmm.refs, pos', p, t);
        EnterThird(root, old(mem), old(pmm.refs), pos, mem, pmm.refs, pos', p, t);
      } else {
        GrewSelf(root, mem, pmm.refs, pos);
      }
    }

    method WalkSecond(root: nat, p: Page, create: bool, ghost pos: Positions) returns (t: int, ghost pos': Positions)
      requires Valid() && Tree(mem, root, pos) && Backed(pos, pmm.refs) && Upper(mem, root, p)
      modifies this`mem, pmm
      ensures Valid() && Grew(root, old(mem), old(pmm.refs), pos, mem, pmm.refs, pos')
      ensures !create ==> mem == old(mem) && pos' == pos && pmm.refs == old(pmm.refs) && pmm.live == old(pmm.live)
      ensures t >= 0 ==> Second(mem, root, p, t) && At(pos', t, [p.i4, p.i3])
      ensures t >= 0 && Small(old(mem), root, p) ==> Small(mem, root, p)
      ensures t < 0 ==> (create ==> Exhausted(pmm.refs)) && forall u :: !Second(mem, root, p, u)
      ensures if t < 0 then Elsewhere(old(mem), old(pmm.refs), root, p, mem)
              else Came(old(mem), old(pmm.refs), mem, root, p, t, Second(old(mem), root, p, t))
    {
      var t3: int;
      ghost var pos1;
      t3, pos1 := WalkThird(root, p, create, pos);
      if t3 < 0 {
        ElsewhereKept(mem, old(pmm.refs), root, p, mem, root);
        return -1, pos1;
      }
      label L:
      t, pos' := TableEntry(root, t3, p.i3, create, pos1);
      if t >= 0 {
        EnterSecond(root, old@L(mem), old@L(pmm.refs), pos1, mem, pmm.refs, pos', p, t3, t);
        CameSecond(root, old(mem), old(pmm.refs), pos, old@L(mem), old@L(pmm.refs), pos1, mem, pmm.refs, pos', p, t3,
                   t);
        GrewMore(root, old(mem), old(pmm.refs), pos, old@L(mem), old@L(pmm.refs), pos1, mem, pmm.refs, pos');
      } else {
        CameElsewhere(old(mem), old(pmm.refs), mem, root, p, t3, Third(old(mem), root, p, t3));
      }
    }

    method Walk(root: nat, p: Page, create: bool, ghost pos: Positions) returns (t: int, ghost pos': Positions)
      requires Valid() && Tree(mem, root, pos) && Backed(pos, pmm.refs) && Small(mem, root, p)
      modifies this`mem, pmm
      ensures Valid() && Grew(root, old(mem), old(pmm.refs), pos, mem, pmm.refs, pos')
      ensures !create ==> mem == old(mem) && pos' == pos && pmm.refs == old(pmm.refs) && pmm.live == old(pmm.live)
      ensures t >= 0 ==> LeafTable(mem, root, p, t) && At(pos', t, [p.i4, p.i3, p.i2])
      ensures t < 0 ==> (create ==> Exhausted(pmm.refs)) && forall u :: !LeafTable(mem, root, p, u)
      ensures if t < 0 then Elsewhere(old(mem), old(pmm.refs), root, p, mem)
              else Came(old(mem), old(pmm.refs), mem, root, p, t, LeafTable(old(mem), root, p, t))
    {
      var t2: int;
      ghost var pos1;
      t2, pos1 := WalkSecond(root, p, create, pos);
      if t2 < 0 { return -1, pos1; }
      label L:
      t, pos' := TableEntry(root, t2, p.i2, create, pos1);
      if t >= 0 {
        EnterLeaf(root, old@L(mem), old@L(pmm.refs), pos1, mem, pmm.refs, pos', p, t2, t);
        CameLeaf(root, old(mem), old(pmm.refs), pos, old@L(mem), old@L(pmm.refs), pos1, mem, pmm.refs, pos', p, t2, t);
        GrewMore(root, old(mem), old(pmm.refs), pos, old@L(mem), old@L(pmm.refs), pos1, mem, pmm.refs, pos');
      } else {
        StopsShort(mem, root, p, t2);
        CameElsewhere(old(mem), old(pmm.refs), mem, root, p, t2, Second(old(mem), root, p, t2));
      }
    }

    /** Writes a leaf entry at the end of a walk. */
    method StoreLeaf(ghost root: nat, p: Page, t: nat, e: Pte, ghost m0: Memory, ghost r0: seq<nat>,
                     ghost p0: Positions, ghost p1: Positions)
      requires Valid() && Grew(root, m0, r0, p0, mem, pmm.refs, p1) && LeafTable(mem, root, p, t)
      requires Came(m0, r0, mem, root, p, t, LeafTable(m0, root, p, t))
      modifies this`mem
      ensures Valid() && IsTable(old(mem), t) && mem == Set(old(mem), t, p.i1, e)
      ensures Tree(mem, root, p1) && Backed(p1, pmm.refs) && SameButFor(m0, mem, root, p)
      ensures Elsewhere(m0, r0, root, p, mem)
      ensures Translate(mem, root, p) == if e.flags.present then Map(e.frame, e.flags) else NoMap
    {
      MapDone(root, m0, r0, p0, mem, pmm.refs, p1, p, t, e);
      mem := Set(mem, t, p.i1, e);
    }

    /**
     * paging_map_into: exactly page p comes to translate to the frame; a failure, which takes an exhausted
     * allocator, changes no translation at all.
     */
    method MapInto(root: nat, p: Page, frame: nat, flags: Flags, ghost pos: Positions)
      returns (ok: bool, ghost pos': Positions)
      requires Valid() && Tree(mem, root, pos) && Backed(pos, pmm.refs) && Small(mem, root, p)
      modifies this`mem, pmm
      ensures Valid() && Tree(mem, root, pos') && Backed(pos', pmm.refs)
      ensures ok ==> Translate(mem, root, p) == Map(frame, flags.(present := true))
      ensures ok ==> SameButFor(old(mem), mem, root, p)
      ensures !ok ==> Same(old(mem), mem, root) && Exhausted(pmm.refs)
      ensures Elsewhere(old(mem), old(pmm.refs), root, p, mem)
    {
      var t: int;
      t, pos' := Walk(root, p, true, pos);
      if t < 0 { return false, pos'; }
      var e := Pte(frame, flags.(present := true));
      StoreLeaf(root, p, t, e, old(mem), old(pmm.refs), pos, pos');
      return true, pos';
    }

    /** paging_unmap_from: the frame the page owned, for its owner to release, or nothing. */
    method UnmapFrom(root: nat, p: Page, ghost pos: Positions) returns (was: Option<nat>)
      requires Valid() && Tree(mem, root, pos) && Backed(pos, pmm.refs) && Small(mem, root, p)
      modifies this`mem, pmm
      ensures Valid() && Tree(mem, root, pos) && pmm.refs == old(pmm.refs)
      ensures was.None? ==> mem == old(mem) && forall t :: LeafTable(mem, root, p, t) ==> !HasFrame(Get(mem, t, p.i1))
      ensures was.Some? ==> Translate(mem, root, p) == NoMap && Owned(old(mem), root, p, was.value)
      ensures Translate(old(mem), root, p).Map? ==> was == Some(Translate(old(mem), root, p).frame)
      ensures SameButFor(old(mem), mem, root, p)
      ensures Elsewhere(old(mem), pmm.refs, root, p, mem)
    {
      var t: int;
      ghost var pos';
      t, pos' := Walk(root, p, false, pos);
      assert mem == old(mem) && pmm.refs == old(pmm.refs) && pos' == pos;
      ElsewhereKept(mem, pmm.refs, root, p, mem, root);
      if t < 0 || !HasFrame(Get(mem, t, p.i1)) {
        FoundNone(mem, root, p, t);
        SameSelf(mem, root, Some(p));
        return None;
      }
      LeafLook(mem, root, p, t);
      was := Some(Get(mem, t, p.i1).frame);
      assert Owned(old(mem), root, p, was.value);
      StoreLeaf(root, p, t, EMPTY, old(mem), old(pmm.refs), pos, pos);
    }

    /** paging_setprot_from: new access bits for one leaf that owns a frame. */
    method SetProt(root: nat, p: Page, flags: Flags, ghost pos: Positions) returns (ok: bool)
      requires Valid() && Tree(mem, root, pos) && Backed(pos, pmm.refs) && Small(mem, root, p)
      modifies this`mem, pmm
      ensures Valid() && Tree(mem, root, pos) && pmm.refs == old(pmm.refs)
      ensures !ok ==> mem == old(mem) && forall t :: LeafTable(mem, root, p, t) ==> !HasFrame(Get(mem, t, p.i1))
      ensures ok ==> Reprotected(old(mem), mem, root, p, flags)
      ensures SameButFor(old(mem), mem, root, p) && Elsewhere(old(mem), pmm.refs, root, p, mem)
    {
      var t: int;
      ghost var pos';
      t, pos' := Walk(root, p, false, pos);
      assert mem == old(mem) && pmm.refs == old(pmm.refs) && pos' == pos;
      ElsewhereKept(mem, pmm.refs, root, p, mem, root);
      if t < 0 || !HasFrame(Get(mem, t, p.i1)) {
        FoundNone(mem, root, p, t);
        SameSelf(mem, root, Some(p));
        return false;
      }
      var e := Reprotect(Get(mem, t, p.i1), flags);
      StoreLeaf(root, p, t, e, old(mem), old(pmm.refs), pos, pos);
      assert Rewrote(old(mem), mem, root, p, t, e) && NewAccess(Get(old(mem), t, p.i1).flags, flags, e.flags);
      assert Reprotected(old(mem), mem, root, p, flags);
      return true;
    }

    /** Fills the new page table with the small pages of a 2 MiB page. */
    method FillLeaves(n: nat, e: Pte)
      requires n < |mem| && mem[n] == Table(ZEROED)
      modifies this`mem
      ensures mem == old(mem)[n := Table(Leaves(e))]
    {
      var pt := ZEROED;
      for i := 0 to ENTRIES
        invariant |pt| == ENTRIES && forall k :: 0 <= k < i ==> pt[k] == Pte(e.frame + k, e.flags.(huge := false))
      {
        pt := pt[i := Pte(e.frame + i, e.flags.(huge := false))];
      }
      assert pt == Leaves(e);
      mem := mem[n := Table(pt)];
    }

    method SplitAt(ghost root: nat, p: Page, t: nat, ghost level: Levels) returns (ok: bool, ghost level': Levels)
      requires Valid() && Leveled(mem, root, level) && Backed(level, pmm.refs) && Upper(mem, root, p)
      requires Second(mem, root, p, t) && Large(Get(mem, t, p.i2))
      modifies this`mem, pmm
      ensures Valid() && Leveled(mem, root, level') && StillTree(old(mem), old(pmm.refs), root, mem)
      ensures ok ==> Unseen(old(mem), old(pmm.refs), t, p.i2, mem) && Split(old(mem), mem, root, t, p.i2)
      ensures ok ==> Small(mem, root, p)
      ensures !ok ==> mem == old(mem) && Exhausted(pmm.refs)
    {
      var e := Get(mem, t, p.i2);
      var n := AllocTable();
      if n == 0 { return false, level; }
      SplitSmall(root, old(mem), level, p, t, n);
      SplitUnseen(old(mem), old(pmm.refs), t, p.i2, n);
      SplitTree(root, old(mem), old(pmm.refs), p, t, n);
      HangLevel(old(mem), root, level, t, p.i2, n, Leaves(e), TABLE_FLAGS.(user := false));
      FillLeaves(n, e);
      assert mem == old(mem)[n := Table(Leaves(e))];
      mem := Set(mem, t, p.i2, Pte(n, TABLE_FLAGS.(user := false)));
      return true, level[n := 3];
    }

    /** paging_split_huge: no translation changes, and where it succeeds no 2 MiB page is left over p. */
    method SplitHuge(root: nat, p: Page, ghost level: Levels) returns (ok: bool, ghost level': Levels)
      requires Valid() && Leveled(mem, root, level) && Backed(level, pmm.refs) && Upper(mem, root, p)
      modifies this`mem, pmm
      ensures Valid() && Leveled(mem, root, level') && StillTree(old(mem), old(pmm.refs), root, mem)
      ensures ok ==> Small(mem, root, p)
      ensures ok ==> forall t :: Second(old(mem), root, p, t) && Large(Get(old(mem), t, p.i2)) ==>
        Split(old(mem), mem, root, t, p.i2) && Unseen(old(mem), old(pmm.refs), t, p.i2, mem)
      ensures (forall t :: Second(old(mem), root, p, t) ==> !Large(Get(old(mem), t, p.i2))) ==> mem == old(mem)
      ensures !ok ==> mem == old(mem) && Exhausted(pmm.refs)
    {
      level' := level;
      var t3 := Follow(root, p.i4);
      if t3 < 0 { return true, level; }
      var t := Follow(t3, p.i3);
      if t < 0 { return true, level; }
      assert Third(mem, root, p, t3);
      assert Second(mem, root, p, t);
      SecondOnly(mem, root, p, t);
      var e := Get(mem, t, p.i2);
      if e.flags.present && e.flags.huge {
        ok, level' := SplitAt(root, p, t, level);
        return;
      }
      return true, level;
    }

    // ----------------------------------------------- copy on write

    method CopyFrame(src: nat, dst: nat)
      requires src < |mem| && dst < |mem| && mem[src].Data?
      modifies this`mem
      ensures mem == old(mem)[dst := old(mem)[src]]
    {
      var copy: seq<byte> := [];
      for i := 0 to |mem[src].bytes|
        invariant copy == mem[src].bytes[..i] && mem == old(mem)
      {
        copy := copy + [mem[src].bytes[i]];
      }
      assert copy == mem[src].bytes;
      mem := mem[dst := Data(copy)];
    }

    /** Gives up one reference to a frame that has others. */
    method DropShare(f: nat)
      requires Valid() && 0 < f < |pmm.refs| && pmm.refs[f] > 1 && Pmm.Block(f, 0) in pmm.live
      modifies pmm
      ensures Valid() && pmm.refs == old(pmm.refs)[f := old(pmm.refs)[f] - 1] && pmm.live == old(pmm.live)
    {
      assert forall k :: Within(f, 0, k) <==> k == f;
      pmm.FreeFrames(f, 0);
    }

    /** The copying branch of paging_handle_cow_fault: false when memory is exhausted. */
    method CopyLeaf(t: nat, i: nat, ghost pts: seq<nat>, ghost k: nat) returns (n: nat)
      requires Valid() && Accounted(mem, pmm.refs, pmm.live, pts) && k < |pts| && pts[k] == t && i < ENTRIES
      requires
        var e := Get(mem, t, i);
        e.flags.present && e.flags.cow && (e.frame < |pmm.refs| ==> pmm.refs[e.frame] != 1)
      modifies this`mem, pmm
      ensures Valid() && Accounted(mem, pmm.refs, pmm.live, pts) && IsTable(old(mem), t)
      ensures n == 0 ==> mem == old(mem) && pmm.refs == old(pmm.refs) && Exhausted(pmm.refs)
      ensures n > 0 ==>
        n < |old(mem)| == |old(pmm.refs)| && old(pmm.refs)[n] == 0 && n != t && Get(old(mem), t, i).frame < |old(mem)|
      ensures n > 0 ==> mem == Copied(old(mem), t, i, n) && Owners(mem, pts, n) == 1 == pmm.refs[n]
    {
      n := AllocFrame();
      if n == 0 {
        assert IsTable(mem, pts[k]);
        return;
      }
      CopyInto(t, i, n, pts, k, old(pmm.refs), old(pmm.live));
    }

    /** The copy, once there is a frame for it. */
    method CopyInto(t: nat, i: nat, n: nat, ghost pts: seq<nat>, ghost k: nat, ghost refs: seq<nat>,
                    ghost live: set<Pmm.Block>)
      requires Valid() && Accounted(mem, refs, live, pts) && k < |pts| && pts[k] == t && i < ENTRIES
      requires 0 < n < |refs| && refs[n] == 0 && pmm.refs == refs[n := 1] && pmm.live == live + {Pmm.Block(n, 0)}
      requires var e := Get(mem, t, i); e.flags.present && e.flags.cow && (e.frame < |refs| ==> refs[e.frame] != 1)
      modifies this`mem, pmm
      ensures Valid() && Accounted(mem, pmm.refs, pmm.live, pts)
      ensures IsTable(old(mem), t) && n < |old(mem)| && n != t && Get(old(mem), t, i).frame < |old(mem)|
      ensures mem == Copied(old(mem), t, i, n) && Owners(mem, pts, n) == 1 == pmm.refs[n]
    {
      CopyAccounted(mem, refs, live, pts, k, i, n);
      var f := Get(mem, t, i).frame;
      Repoint(t, i, n);
      DropShare(f);
      assert pmm.refs == refs[n := 1][f := refs[f] - 1];
    }

    /** Copies the frame entry i of t maps to frame n, and maps that instead. */
    method Repoint(t: nat, i: nat, n: nat)
      requires IsTable(mem, t) && i < ENTRIES && t != n < |mem|
      requires Get(mem, t, i).frame < |mem| && mem[Get(mem, t, i).frame].Data?
      modifies this`mem
      ensures mem == Copied(old(mem), t, i, n)
    {
      var e := Get(mem, t, i);
      CopyFrame(e.frame, n);
      mem := Set(mem, t, i, Granted(e, n));
    }

    /** The re-granting branch. */
    method GrantLeaf(t: nat, i: nat, ghost pts: seq<nat>, ghost k: nat)
      requires Valid() && Accounted(mem, pmm.refs, pmm.live, pts) && k < |pts| && pts[k] == t && i < ENTRIES
      requires var e := Get(mem, t, i); e.flags.present && e.flags.cow && e.frame < |pmm.refs| && pmm.refs[e.frame] == 1
      modifies this`mem
      ensures Valid() && Accounted(mem, pmm.refs, pmm.live, pts) && IsTable(old(mem), t)
      ensures
        var e := Get(old(mem), t, i);
        mem == Set(old(mem), t, i, Granted(e, e.frame)) && Owners(mem, pts, e.frame) == 1
    {
      GrantAccounted(mem, pmm.refs, pmm.live, pts, k, i);
      var e := Get(mem, t, i);
      assert Paid(mem, pmm.refs, pmm.live, e.frame, Owners(mem, pts, e.frame));
      mem := Set(mem, t, i, Granted(e, e.frame));
    }

    /** The fault on a leaf entry that was found. */
    method CowAt(ghost root: nat, p: Page, t: nat, ghost pos: Positions, ghost pts: seq<nat>) returns (handled: bool)
      requires Valid() && Tree(mem, root, pos) && Backed(pos, pmm.refs) && LeafTable(mem, root, p, t)
      requires Accounted(mem, pmm.refs, pmm.live, pts) && t in pts
      modifies this`mem, pmm
      ensures Valid() && Accounted(mem, pmm.refs, pmm.live, pts)
      ensures !handled ==> mem == old(mem) && pmm.refs == old(pmm.refs)
      ensures !handled ==> !CowLeaf(Translate(mem, root, p)) || Exhausted(pmm.refs)
      ensures handled ==> Settled(root, pos, p, pts, old(mem), old(pmm.refs), mem, pmm.refs)
    {
      ghost var k :| 0 <= k < |pts| && pts[k] == t;
      var e := Get(mem, t, p.i1);
      LeafLook(mem, root, p, t);
      if !e.flags.present || e.flags.writable || !e.flags.cow { return false; }
      GrantAccounted(mem, pmm.refs, pmm.live, pts, k, p.i1);
      assert Paid(mem, pmm.refs, pmm.live, e.frame, Owners(mem, pts, e.frame));
      if pmm.refs[e.frame] == 1 {
        GrantDone(root, mem, pmm.refs, pos, p, t, pts);
        GrantLeaf(t, p.i1, pts, k);
        return true;
      }
      var n := CopyLeaf(t, p.i1, pts, k);
      if n == 0 { return false; }
      CopyDone(root, old(mem), old(pmm.refs), pos, p, t, n, pts, pmm.refs);
      return true;
    }

    /**
     * paging_handle_cow_fault.  A handled fault leaves the page writable, with the same bytes, in a frame that
     * this leaf alone owns; every other page translates as before and every data frame keeps its bytes.
     */
    method CowFault(root: nat, p: Page, ghost pos: Positions, ghost pts: seq<nat>) returns (handled: bool)
      requires Valid() && Tree(mem, root, pos) && Backed(pos, pmm.refs) && Small(mem, root, p)
      requires Accounted(mem, pmm.refs, pmm.live, pts) && forall t :: LeafTable(mem, root, p, t) ==> t in pts
      modifies this`mem, pmm
      ensures Valid() && Accounted(mem, pmm.refs, pmm.live, pts)
      ensures !handled ==> mem == old(mem) && pmm.refs == old(pmm.refs)
      ensures !handled ==> !CowLeaf(Translate(mem, root, p)) || Exhausted(pmm.refs)
      ensures handled ==> Settled(root, pos, p, pts, old(mem), old(pmm.refs), mem, pmm.refs)
    {
      var t: int;
      ghost var pos';
      t, pos' := Walk(root, p, false, pos);
      if t < 0 {
        NoLeaf(mem, root, p);
        return false;
      }
      handled := CowAt(root, p, t, pos, pts);
    }
  }
}
