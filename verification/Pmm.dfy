/** kernel/mm/pmm.c: the physical frame allocator, a buddy system with a reference count per frame. */
module Pmm {
  import opened Buddy
  import opened Dll

  const FRAME_SIZE: nat := 4096
  const REF_LIMIT: nat := 0xFFFF

  /** 2^order frames from `start` on, in a caller's hands. */
  datatype Block = Block(start: nat, order: nat)

  ghost predicate Apart(a: Block, b: Block) {
    a.start + P(a.order) <= b.start || b.start + P(b.order) <= a.start
  }

  // ------------------------------------------------- the lists against frame_order

  /** List o holds exactly the free blocks of order o. */
  ghost predicate Listed(heads: seq<int>, next: seq<int>, prev: seq<int>, order: seq<int>, lists: seq<seq<int>>) {
    && |heads| == |lists| == MAX_ORDER + 1 && |next| == |prev| == |order|
    && (forall o :: 0 <= o <= MAX_ORDER ==> Threaded(next, prev, heads[o], lists[o]))
    && (forall o, i :: 0 <= o <= MAX_ORDER && 0 <= i < |lists[o]| ==>
      0 <= lists[o][i] < |order| && order[lists[o][i]] == o)
    && (forall f :: 0 <= f < |order| && 0 <= order[f] <= MAX_ORDER ==> f in lists[order[f]])
  }

  lemma PushListed(heads: seq<int>, next: seq<int>, prev: seq<int>, order: seq<int>, lists: seq<seq<int>>, o: nat,
                   f: int)
    requires Listed(heads, next, prev, order, lists) && o <= MAX_ORDER && 0 <= f < |order| && order[f] == ORDER_NONE
    ensures heads[o] == NONE || 0 <= heads[o] < |prev|
    ensures Listed(heads[o := f], PushNext(next, heads[o], f), PushPrev(prev, heads[o], f), order[f := o],
      lists[o := [f] + lists[o]])
  {
    var next', prev' := next, prev;
    PushThreaded(next, prev, heads[o], lists[o], f);
    next', prev' := PushNext(next, heads[o], f), PushPrev(prev, heads[o], f);
    forall p | 0 <= p <= MAX_ORDER && p != o ensures Threaded(next', prev', heads[p], lists[p]) {
      ThreadedFrame(next, prev, next', prev', heads[p], lists[p]);
    }
  }

  lemma RemoveThreads(heads: seq<int>, next: seq<int>, prev: seq<int>, order: seq<int>, lists: seq<seq<int>>,
                      o: nat, i: int)
    requires Listed(heads, next, prev, order, lists) && o <= MAX_ORDER && 0 <= i < |lists[o]|
    ensures var x := lists[o][i]; 0 <= x < |order| && -1 <= prev[x] < |next| && -1 <= next[x] < |next|
    ensures
      var x := lists[o][i];
      var heads', lists' := heads[o := if prev[x] >= 0 then heads[o] else next[x]], lists[o := Cut(lists[o], i)];
      forall p :: 0 <= p <= MAX_ORDER ==>
        Threaded(RemoveNext(next, prev, x), RemovePrev(next, prev, x), heads'[p], lists'[p])
  {
    var x := lists[o][i];
    RemoveBounds(next, prev, heads[o], lists[o], i);
    RemoveThreaded(next, prev, heads[o], lists[o], i);
    var next', prev' := RemoveNext(next, prev, x), RemovePrev(next, prev, x);
    forall p | 0 <= p <= MAX_ORDER && p != o ensures Threaded(next', prev', heads[p], lists[p]) {
      ThreadedFrame(next, prev, next', prev', heads[p], lists[p]);
    }
  }

  lemma RemoveListed(heads: seq<int>, next: seq<int>, prev: seq<int>, order: seq<int>, lists: seq<seq<int>>, o: nat,
                     i: int)
    requires Listed(heads, next, prev, order, lists) && o <= MAX_ORDER && 0 <= i < |lists[o]|
    ensures var x := lists[o][i]; 0 <= x < |order| && -1 <= prev[x] < |next| && -1 <= next[x] < |next|
    ensures
      var x := lists[o][i];
      Listed(heads[o := if prev[x] >= 0 then heads[o] else next[x]], RemoveNext(next, prev, x),
        RemovePrev(next, prev, x),
             order[x := ORDER_NONE], lists[o := Cut(lists[o], i)])
  {
    RemoveThreads(heads, next, prev, order, lists, o, i);
    assert Threaded(next, prev, heads[o], lists[o]);
    CutMembers(lists[o], i);
    RemoveMembers(order, lists, o, i);
  }

  lemma RemoveMembers(order: seq<int>, lists: seq<seq<int>>, o: nat, i: int)
    requires |lists| == MAX_ORDER + 1 && o <= MAX_ORDER && 0 <= i < |lists[o]|
    requires forall p, j :: 0 <= p <= MAX_ORDER && 0 <= j < |lists[p]| ==>
      0 <= lists[p][j] < |order| && order[lists[p][j]] == p
    requires lists[o][i] !in Cut(lists[o], i)
    ensures
      var lists', order' := lists[o := Cut(lists[o], i)], order[lists[o][i] := ORDER_NONE];
      forall p, j :: 0 <= p <= MAX_ORDER && 0 <= j < |lists'[p]| ==>
        0 <= lists'[p][j] < |order'| && order'[lists'[p][j]] == p
  {
    var x, cut := lists[o][i], Cut(lists[o], i);
    var lists', order' := lists[o := cut], order[x := ORDER_NONE];
    forall p, j | 0 <= p <= MAX_ORDER && 0 <= j < |lists'[p]|
      ensures 0 <= lists'[p][j] < |order| && order'[lists'[p][j]] == p
    {
      if p == o { assert cut[j] == lists[o][if j < i then j else j + 1]; }
    }
  }

  /** The head of list o is a free block of that order; there is none when the list is empty. */
  lemma ListHead(heads: seq<int>, next: seq<int>, prev: seq<int>, order: seq<int>, lists: seq<seq<int>>, o: nat)
    requires Listed(heads, next, prev, order, lists) && o <= MAX_ORDER
    ensures heads[o] == NONE ==> forall f :: 0 <= f < |order| ==> order[f] != o
    ensures heads[o] != NONE ==> 0 <= heads[o] < |order| && order[heads[o]] == o
  {
    assert Threaded(next, prev, heads[o], lists[o]);
    assert lists[o] != [] ==> heads[o] == lists[o][0];
  }

  // ------------------------------------------------- reference counts

  /** How many frames nobody refers to. */
  ghost function Zeros(refs: seq<nat>): nat {
    if refs == [] then 0 else Zeros(refs[..|refs| - 1]) + (if refs[|refs| - 1] == 0 then 1 else 0)
  }

  lemma {:induction false} ZerosStore(refs: seq<nat>, i: nat, v: nat)
    requires i < |refs|
    ensures Zeros(refs[i := v]) == Zeros(refs) + (if v == 0 then 1 else 0) - (if refs[i] == 0 then 1 else 0)
  {
    var n := |refs| - 1;
    if i < n {
      ZerosStore(refs[..n], i, v);
      assert refs[i := v][..n] == refs[..n][i := v];
    } else {
      assert refs[i := v][..n] == refs[..n];
    }
  }

  // ------------------------------------------------- blocks in callers' hands

  /** Every frame of b is in memory and referenced. */
  ghost predicate Solid(b: Block, refs: seq<nat>) {
    b.start + P(b.order) <= |refs| && forall k :: Within(b.start, b.order, k) ==> refs[k] > 0
  }

  /** Live blocks are referenced throughout and do not overlap. */
  ghost predicate Owned(live: set<Block>, refs: seq<nat>) {
    && (forall b :: b in live ==> Solid(b, refs))
    && (forall a, b :: a in live && b in live && a != b ==> Apart(a, b))
  }

  /** 2^o frames from f on that nobody refers to. */
  ghost predicate Idle(refs: seq<nat>, f: int, o: nat) {
    0 <= f && f + P(o) <= |refs| && forall k :: Within(f, o, k) ==> refs[k] == 0
  }

  /** refs with every frame of the block at f set to v. */
  ghost predicate Stored(refs: seq<nat>, refs': seq<nat>, f: int, o: nat, v: nat) {
    && |refs'| == |refs|
    && forall k :: 0 <= k < |refs| ==> refs'[k] == if Within(f, o, k) then v else refs[k]
  }

  lemma SolidNotIdle(b: Block, refs: seq<nat>, refs': seq<nat>, f: nat, o: nat)
    requires Solid(b, refs) && Idle(refs, f, o) && Stored(refs, refs', f, o, 1)
    ensures Solid(b, refs') && Apart(b, Block(f, o)) && b != Block(f, o)
  {
    if !Apart(b, Block(f, o)) {
      var k := if b.start < f then f else b.start;
      assert Within(f, o, k) && Within(b.start, b.order, k);
      assert false;
    }
    assert Within(f, o, f);
  }

  lemma OwnIdle(live: set<Block>, refs: seq<nat>, refs': seq<nat>, f: nat, o: nat)
    requires Owned(live, refs) && Idle(refs, f, o) && Stored(refs, refs', f, o, 1)
    ensures Block(f, o) !in live && Owned(live + {Block(f, o)}, refs')
  {
    var n := Block(f, o);
    forall b | b in live ensures Solid(b, refs') && Apart(b, n) && Apart(n, b) && b != n {
      SolidNotIdle(b, refs, refs', f, o);
    }
    assert Solid(n, refs');
  }

  /** Every frame of the block has exactly one reference / has more than one. */
  ghost predicate Sole(refs: seq<nat>, f: int, o: nat) {
    0 <= f && f + P(o) <= |refs| && forall k :: Within(f, o, k) ==> refs[k] == 1
  }

  ghost predicate Shared(refs: seq<nat>, f: int, o: nat) {
    0 <= f && f + P(o) <= |refs| && forall k :: Within(f, o, k) ==> refs[k] > 1
  }

  /** refs with one reference less to every frame of the block at f. */
  ghost predicate Dropped(refs: seq<nat>, refs': seq<nat>, f: int, o: nat) {
    && |refs'| == |refs|
    && forall k :: 0 <= k < |refs| ==> refs[k] == refs'[k] + if Within(f, o, k) then 1 else 0
  }

  lemma SolidDropped(b: Block, refs: seq<nat>, refs': seq<nat>, f: nat, o: nat)
    requires Solid(b, refs) && Dropped(refs, refs', f, o) && (Apart(b, Block(f, o)) || Shared(refs, f, o))
    ensures Solid(b, refs')
  {
    forall k | Within(b.start, b.order, k) ensures refs'[k] > 0 { assert refs[k] > 0; }
  }

  /** Dropping one reference to a block keeps every block that still has references. */
  lemma OwnDropped(live: set<Block>, refs: seq<nat>, refs': seq<nat>, f: nat, o: nat)
    requires Owned(live, refs) && Dropped(refs, refs', f, o)
    requires forall b :: b in live ==> b == Block(f, o) || Apart(b, Block(f, o))
    ensures Owned(live - {Block(f, o)}, refs')
    ensures Shared(refs, f, o) ==> Owned(live, refs')
  {
    forall b | b in live && (b != Block(f, o) || Shared(refs, f, o)) ensures Solid(b, refs') {
      SolidDropped(b, refs, refs', f, o);
    }
  }

  /** A frame is unreferenced just when it lies in a free block. */
  ghost predicate Matched(order: seq<int>, refs: seq<nat>)
    requires Shaped(order)
  {
    |refs| == |order| && forall k :: 0 <= k < |refs| ==> (refs[k] == 0 <==> Covered(order, k))
  }

  lemma SharedMore(order: seq<int>, live: set<Block>, refs: seq<nat>, f: nat)
    requires Shaped(order) && Matched(order, refs) && Owned(live, refs) && f < |refs| && refs[f] > 0
    ensures var refs' := refs[f := refs[f] + 1]; Matched(order, refs') && Owned(live, refs')
  {
    var refs' := refs[f := refs[f] + 1];
    forall b | b in live ensures Solid(b, refs') { assert Solid(b, refs); }
  }

  /** The same while the allocator has a block of its own in hand. */
  ghost predicate MatchedBut(order: seq<int>, refs: seq<nat>, f: int, o: nat)
    requires Shaped(order)
  {
    && |refs| == |order|
    && forall k :: 0 <= k < |refs| ==> (refs[k] == 0 <==> Covered(order, k) || Within(f, o, k))
  }

  /** With the block at f in hand, every other frame is accounted for; frame 0 is never free. */
  ghost predicate HeldCount(order: seq<int>, refs: seq<nat>, f: int, o: nat) {
    Held(order, f, o) && MatchedBut(order, refs, f, o) && |refs| > 0 && refs[0] > 0
  }

  lemma TakeCount(order: seq<int>, refs: seq<nat>, h: int)
    requires Inv(order) && Matched(order, refs) && Head(order, h) && |refs| > 0 && refs[0] > 0
    ensures HeldCount(order[h := ORDER_NONE], refs, h, order[h])
  {
    TakeBlock(order, h);
  }

  lemma SplitCount(order: seq<int>, refs: seq<nat>, h: int, k: nat, b: int)
    requires HeldCount(order, refs, h, k) && k > 0 && b == h + P(k - 1)
    ensures 0 <= b < |order| && order[b] == ORDER_NONE && k <= MAX_ORDER
    ensures HeldCount(order[b := k - 1], refs, h, k - 1) == true
  {
    SplitBlock(order, h, k);
  }

  lemma MergeCount(order: seq<int>, refs: seq<nat>, f: nat, o: nat)
    requires HeldCount(order, refs, f, o) && o < MAX_ORDER && BuddyFree(order, f, o)
    ensures var b := Flip(f, o);
            b < |order| && order[b] == o && HeldCount(order[b := ORDER_NONE], refs, if f < b then f else b, o + 1)
  {
    MergeBlock(order, f, o);
  }

  lemma PutCount(order: seq<int>, refs: seq<nat>, f: nat, o: nat)
    requires HeldCount(order, refs, f, o) && (o == MAX_ORDER || !BuddyFree(order, f, o))
    ensures f < |order| && order[f] == ORDER_NONE && Inv(order[f := o]) && Matched(order[f := o], refs)
  {
    PutBlock(order, f, o);
  }

  /** Dropping a last reference leaves the block in the allocator's hands. */
  lemma DropSole(order: seq<int>, refs: seq<nat>, refs': seq<nat>, f: nat, o: nat)
    requires Inv(order) && Matched(order, refs) && o <= MAX_ORDER && Aligned(f, o)
    requires Sole(refs, f, o) && Dropped(refs, refs', f, o)
    ensures Held(order, f, o) && MatchedBut(order, refs', f, o) && Idle(refs', f, o)
  {
    forall k | Within(f, o, k) ensures !Covered(order, k) { assert refs[k] == 1; }
    UncoveredHeld(order, f, o);
  }

  lemma DropShared(order: seq<int>, refs: seq<nat>, refs': seq<nat>, f: nat, o: nat)
    requires Inv(order) && Matched(order, refs) && Shared(refs, f, o) && Dropped(refs, refs', f, o)
    ensures Matched(order, refs') && !Idle(refs', f, o)
  {
    assert Within(f, o, f) && refs[f] > 1;
  }

  lemma {:induction false} ZerosNone(refs: seq<nat>)
    requires forall k :: 0 <= k < |refs| ==> refs[k] > 0
    ensures Zeros(refs) == 0
  {
    if refs != [] { ZerosNone(refs[..|refs| - 1]); }
  }

  /**
   * The caller's obligation is exact: when some frames of the block are shared and others are not, the
   * call stops early and leaves the unshared ones referenced by nobody and in no free block.
   */
  lemma DropMixed(order: seq<int>, refs: seq<nat>, refs': seq<nat>, f: nat, o: nat)
    requires Inv(order) && Matched(order, refs) && Dropped(refs, refs', f, o) && f + P(o) <= |refs|
    requires forall k :: Within(f, o, k) ==> refs[k] > 0
    requires !Sole(refs, f, o)
    ensures !Idle(refs', f, o)
    ensures Matched(order, refs') <==> Shared(refs, f, o)
  {
    var j :| Within(f, o, j) && refs[j] != 1;
    assert refs'[j] != 0;
    if !Shared(refs, f, o) {
      var k :| Within(f, o, k) && refs[k] <= 1;
      assert refs'[k] == 0 && !Covered(order, k);
    }
  }

  /** Two frames, one of them shared: freed together, the other one is lost. */
  lemma DropMixedLoses() returns (order: seq<int>, refs: seq<nat>, refs': seq<nat>)
    ensures Inv(order) && Matched(order, refs) && Dropped(refs, refs', 2, 1) && Aligned(2, 1)
    ensures !Sole(refs, 2, 1) && !Shared(refs, 2, 1) && |refs'| == 4 && refs'[3] == 0 && !Covered(order, 3)
  {
    order, refs, refs' := [ORDER_NONE, ORDER_NONE, ORDER_NONE, ORDER_NONE], [1, 1, 2, 1], [1, 1, 1, 0];
    assert forall f :: !Head(order, f);
    assert P(1) == 2 && Within(2, 1, 2) && Within(2, 1, 3);
  }

  lemma SoleHalves(refs: seq<nat>, f: nat, o: nat)
    requires Sole(refs, f, o + 1) && Aligned(f, o + 1)
    ensures Sole(refs, f, o) && Sole(refs, f + P(o), o) && Aligned(f, o) && Aligned(f + P(o), o)
  {
    AlignedHalves(f, o);
    forall k ensures Within(f, o, k) || Within(f + P(o), o, k) ==> Within(f, o + 1, k) { HalfWithin(f, o, k); }
  }

  lemma SoleAfter(refs: seq<nat>, refs': seq<nat>, f: nat, b: nat, o: nat)
    requires Sole(refs, b, o) && Dropped(refs, refs', f, o) && b == f + P(o)
    ensures Sole(refs', b, o)
  {
    forall k | Within(b, o, k) ensures refs'[k] == 1 { assert refs[k] == 1 && !Within(f, o, k); }
  }

  lemma DroppedHalves(r0: seq<nat>, r1: seq<nat>, r2: seq<nat>, f: nat, o: nat)
    requires Dropped(r0, r1, f, o) && Dropped(r1, r2, f + P(o), o)
    ensures Dropped(r0, r2, f, o + 1)
  {
    assert P(o + 1) == P(o) + P(o);
  }

  lemma OwnOthers(live: set<Block>, refs: seq<nat>, f: nat, o: nat)
    requires Owned(live, refs) && Block(f, o) in live
    ensures forall b :: b in live ==> b == Block(f, o) || Apart(b, Block(f, o))
  {
  }

  lemma HalvesGone(live: set<Block>, refs: seq<nat>, f: nat, o: nat)
    requires Owned(live, refs) && Block(f, o + 1) in live
    ensures
      var halves := {Block(f, o), Block(f + P(o), o)};
      live - {Block(f, o + 1)} + halves - {Block(f, o)} - {Block(f + P(o), o)} == live - {Block(f, o + 1)}
  {
    var whole := Block(f, o + 1);
    assert P(o + 1) == P(o) + P(o);
    assert forall b :: b in live && b != whole ==> Apart(b, whole);
  }

  /** A live block may be given up in two halves. */
  lemma OwnHalves(live: set<Block>, refs: seq<nat>, f: nat, o: nat)
    requires Owned(live, refs) && Block(f, o + 1) in live
    ensures Owned(live - {Block(f, o + 1)} + {Block(f, o), Block(f + P(o), o)}, refs)
  {
    var whole, low, high := Block(f, o + 1), Block(f, o), Block(f + P(o), o);
    assert P(o + 1) == P(o) + P(o) && Solid(whole, refs);
    forall k ensures Within(f, o, k) || Within(f + P(o), o, k) ==> Within(f, o + 1, k) { HalfWithin(f, o, k); }
    forall b | b in live && b != whole ensures Apart(b, low) && Apart(b, high) && Apart(low, b) && Apart(high, b) {
      assert Apart(b, whole);
    }
  }

  /** A frame that only boot refers to. */
  ghost predicate Unclaimed(live: set<Block>, refs: seq<nat>, k: nat) {
    0 < k < |refs| && refs[k] == 1 && forall b :: b in live ==> Apart(b, Block(k, 0))
  }

  /** refs with the frames of [lo, hi) set to nothing. */
  ghost predicate Cleared(refs: seq<nat>, refs': seq<nat>, lo: nat, hi: nat) {
    && |refs'| == |refs|
    && forall k :: 0 <= k < |refs| ==> refs'[k] == if lo <= k < hi then 0 else refs[k]
  }

  class Pmm {
    var heads: seq<int>
    var next: seq<int>
    var prev: seq<int>
    var order: seq<int>
    var refs: seq<nat>
    var free: nat
    ghost var lists: seq<seq<int>>
    ghost var live: set<Block>

    // ----------------------------------------------- the invariant

    ghost predicate Lists()
      reads this
    {
      Listed(heads, next, prev, order, lists) == true
    }

    ghost predicate Counted()
      reads this
    {
      Inv(order) && Matched(order, refs) && |refs| > 0 && refs[0] > 0 && free == Zeros(refs)
    }

    ghost predicate CountedBut(f: int, o: nat)
      reads this
    {
      HeldCount(order, refs, f, o) == true
    }

    ghost predicate Lives()
      reads this
    {
      Owned(live, refs) == true
    }

    ghost predicate Valid()
      reads this
    {
      Lists() && Counted() && Lives()
    }

    // ----------------------------------------------- lists

    method ListPush(o: nat, f: int)
      requires Lists() && o <= MAX_ORDER && 0 <= f < |order| && order[f] == ORDER_NONE
      modifies this`heads, this`next, this`prev, this`order, this`lists
      ensures Lists() && order == old(order)[f := o]
    {
      PushListed(heads, next, prev, order, lists, o, f);
      prev := prev[f := NONE];
      next := next[f := heads[o]];
      if heads[o] != NONE { prev := prev[heads[o] := f]; }
      heads := heads[o := f];
      order := order[f := o];
      lists := lists[o := [f] + lists[o]];
    }

    method ListRemove(o: nat, f: int)
      requires Lists() && o <= MAX_ORDER && 0 <= f < |order| && order[f] == o
      modifies this`heads, this`next, this`prev, this`order, this`lists
      ensures Lists() && order == old(order)[f := ORDER_NONE]
    {
      ghost var i :| 0 <= i < |lists[o]| && lists[o][i] == f;
      RemoveListed(heads, next, prev, order, lists, o, i);
      ghost var next', prev' := RemoveNext(next, prev, f), RemovePrev(next, prev, f);
      ghost var heads' := heads[o := if prev[f] >= 0 then heads[o] else next[f]];
      var p, n := prev[f], next[f];
      if p != NONE {
        next := next[p := n];
      } else {
        heads := heads[o := n];
      }
      if n != NONE { prev := prev[n := p]; }
      order := order[f := ORDER_NONE];
      lists := lists[o := Cut(lists[o], i)];
      assert next == next' && prev == prev' && heads == heads';
    }

    // ----------------------------------------------- allocation

    /** The search of pmm_alloc_locked: the smallest order from `o` on with a free block. */
    method FirstOrder(o: nat) returns (found: nat)
      requires Lists() && Inv(order) && o <= MAX_ORDER
      ensures o <= found <= MAX_ORDER + 1
      ensures found <= MAX_ORDER ==> 0 <= heads[found] < |order| && order[heads[found]] == found
      ensures found > MAX_ORDER ==> forall f :: Head(order, f) ==> order[f] < o
      ensures forall f :: Head(order, f) && o <= order[f] ==> found <= order[f]
    {
      found := o;
      while found <= MAX_ORDER && heads[found] == NONE
        invariant o <= found <= MAX_ORDER + 1
        invariant forall f :: Head(order, f) && o <= order[f] ==> found <= order[f]
      {
        ListHead(heads, next, prev, order, lists, found);
        found := found + 1;
      }
      if found <= MAX_ORDER { ListHead(heads, next, prev, order, lists, found); }
    }

    /** One turn of the split: the upper half goes on its list. */
    method SplitTurn(h: int, k: nat)
      requires Lists() && CountedBut(h, k) && k > 0
      modifies this`heads, this`next, this`prev, this`order, this`lists
      ensures Lists() && CountedBut(h, k - 1)
    {
      var b := h + P(k - 1);
      SplitCount(order, refs, h, k, b);
      ghost var after := order[b := k - 1];
      ListPush(k - 1, b);
      assert order == after && refs == old(refs);
      assert HeldCount(after, refs, h, k - 1) == true;
    }

    /** Splits the block in hand down to order `o`, returning each upper half to its list. */
    method SplitTo(h: int, k0: nat, o: nat)
      requires Lists() && CountedBut(h, k0) && o <= k0
      modifies this`heads, this`next, this`prev, this`order, this`lists
      ensures Lists() && CountedBut(h, o)
    {
      var k := k0;
      while k > o
        invariant o <= k <= k0 && Lists() && CountedBut(h, k)
      {
        SplitTurn(h, k);
        k := k - 1;
      }
    }

    /** Marks the frames of the block in hand as referenced once. */
    method Reference(h: int, o: nat)
      requires CountedBut(h, o) && free == Zeros(refs)
      modifies this`refs, this`free
      ensures Counted() && free == old(free) - P(o) && Stored(old(refs), refs, h, o, 1)
    {
      ghost var was := refs;
      for i := 0 to P(o)
        invariant |refs| == |was| && free == old(free) && Zeros(refs) == free - i
        invariant forall k :: 0 <= k < |refs| ==> refs[k] == if h <= k < h + i then 1 else was[k]
      {
        assert Within(h, o, h + i);
        ZerosStore(refs, h + i, 1);
        refs := refs[h + i := 1];
      }
      assert forall k :: Within(h, o, k) ==> !Covered(order, k);
      free := free - P(o);
    }

    /** Takes the first block of the smallest order that will do and splits it. */
    method TakeFrom(k: nat, o: nat) returns (h: int)
      requires Lists() && Counted() && o <= k <= MAX_ORDER && 0 <= heads[k] < |order| && order[heads[k]] == k
      modifies this`heads, this`next, this`prev, this`order, this`lists
      ensures Lists() && CountedBut(h, o)
    {
      h := heads[k];
      TakeCount(order, refs, h);
      ListRemove(k, h);
      SplitTo(h, k, o);
    }

    /** A block in the allocator's hands is idle, and never frame 0. */
    lemma HeldIdle(h: int, o: nat)
      requires CountedBut(h, o)
      ensures Idle(refs, h, o) && h > 0
    {
      assert h == 0 ==> Within(h, o, 0);
    }

    /** With no free block of order o or more, every aligned run of that order has a frame in use. */
    lemma NoneFree(o: nat)
      requires Counted() && o <= MAX_ORDER && forall f :: Head(order, f) ==> order[f] < o
      ensures forall f: nat :: Aligned(f, o) ==> !Idle(refs, f, o)
    {
      forall f: nat | Aligned(f, o) ensures !Idle(refs, f, o) {
        if Idle(refs, f, o) {
          var h := RunInOneBlock(order, f, o);
          PMono(order[h] + 1, o);
          assert false;
        }
      }
    }

    /** What a successful allocation does: an idle aligned block becomes the caller's. */
    twostate predicate Taken(f: int, o: nat)
      reads this
    {
      && f > 0 && Aligned(f, o) && Idle(old(refs), f, o) && Stored(old(refs), refs, f, o, 1)
      && free == old(free) - P(o) && Block(f, o) !in old(live) && live == old(live) + {Block(f, o)}
    }

    /** pmm_alloc in frame numbers. */
    method AllocFrames(o: nat) returns (h: nat)
      requires Valid()
      modifies this
      ensures Valid()
      ensures h == 0 ==> refs == old(refs) && free == old(free) && live == old(live)
      ensures h == 0 ==> o > MAX_ORDER || forall f: nat :: Aligned(f, o) ==> !Idle(refs, f, o)
      ensures h > 0 ==> o <= MAX_ORDER && Taken(h, o)
    {
      if o > MAX_ORDER { return 0; }
      var k := FirstOrder(o);
      if k > MAX_ORDER {
        NoneFree(o);
        return 0;
      }
      h := TakeFrom(k, o);
      HeldIdle(h, o);
      Reference(h, o);
      OwnIdle(live, old(refs), refs, h, o);
      live := live + {Block(h, o)};
    }

    /**
     * pmm_alloc: the physical address of 2^o free, aligned frames, or 0.  It gives up only when no
     * aligned run of 2^o unreferenced frames exists.
     */
    method Alloc(o: nat) returns (phys: nat)
      requires Valid()
      modifies this
      ensures Valid() && phys % FRAME_SIZE == 0
      ensures phys == 0 ==> refs == old(refs) && free == old(free) && live == old(live)
      ensures phys == 0 ==> o > MAX_ORDER || forall f: nat :: Aligned(f, o) ==> !Idle(refs, f, o)
      ensures phys != 0 ==> o <= MAX_ORDER && Taken(phys / FRAME_SIZE, o)
    {
      var h := AllocFrames(o);
      phys := h * FRAME_SIZE;
      assert phys / FRAME_SIZE == h;
    }

    // ----------------------------------------------- release

    /** Drops one reference to each frame of the block. */
    method Drop(f: nat, o: nat)
      requires f + P(o) <= |refs| && (Sole(refs, f, o) || Shared(refs, f, o))
      modifies this`refs
      ensures Dropped(old(refs), refs, f, o)
      ensures Zeros(refs) == Zeros(old(refs)) + if Sole(old(refs), f, o) then P(o) else 0
    {
      ghost var was, sole := refs, Sole(refs, f, o);
      for i := 0 to P(o)
        invariant |refs| == |was| && Zeros(refs) == Zeros(was) + if sole then i else 0
        invariant forall k :: 0 <= k < |refs| ==> refs[k] == if f <= k < f + i then was[k] - 1 else was[k]
      {
        assert Within(f, o, f + i);
        ZerosStore(refs, f + i, refs[f + i] - 1);
        refs := refs[f + i := refs[f + i] - 1];
      }
    }

    /** Whether the block has no references left. */
    method AllZero(f: nat, o: nat) returns (zero: bool)
      requires f + P(o) <= |refs|
      ensures zero <==> Idle(refs, f, o)
    {
      for i := 0 to P(o)
        invariant forall k :: f <= k < f + i ==> refs[k] == 0
      {
        if refs[f + i] != 0 {
          assert Within(f, o, f + i);
          return false;
        }
      }
      return true;
    }

    /** Takes the free buddy off its list; the block in hand is now both. */
    method MergeTurn(f: nat, o: nat) returns (g: nat)
      requires Lists() && CountedBut(f, o) && o < MAX_ORDER && BuddyFree(order, f, o)
      modifies this`heads, this`next, this`prev, this`order, this`lists
      ensures Lists() && CountedBut(g, o + 1)
    {
      MergeCount(order, refs, f, o);
      var b := Flip(f, o);
      ListRemove(o, b);
      g := if f < b then f else b;
    }

    /** Merges the block in hand with its free buddies and puts it on its list. */
    method Coalesce(f0: nat, o0: nat)
      requires Lists() && CountedBut(f0, o0) && free == Zeros(refs)
      modifies this`heads, this`next, this`prev, this`order, this`lists
      ensures Lists() && Counted()
    {
      var f, o := f0, o0;
      while o < MAX_ORDER && Flip(f, o) < |order| && order[Flip(f, o)] == o
        invariant Lists() && CountedBut(f, o)
        decreases MAX_ORDER - o
      {
        f := MergeTurn(f, o);
        o := o + 1;
      }
      PutCount(order, refs, f, o);
      ListPush(o, f);
    }

    /** The arguments pmm_free turns away. */
    predicate Bad(phys: nat, o: nat)
      reads this
    {
      phys % FRAME_SIZE != 0 || phys / FRAME_SIZE >= |refs| || P(o) > |refs| - phys / FRAME_SIZE
    }

    /** What pmm_free asks of its callers: a block they hold, no frame of it shared while another is not. */
    ghost predicate Freeable(f: nat, o: nat)
      reads this
    {
      && f > 0 && o <= MAX_ORDER && Aligned(f, o) && (Sole(refs, f, o) || Shared(refs, f, o))
      && forall b :: b in live ==> b == Block(f, o) || Apart(b, Block(f, o))
    }

    /** One reference less to the block; with the last reference it is free and nobody's. */
    twostate predicate Released(f: nat, o: nat)
      reads this
    {
      && Dropped(old(refs), refs, f, o)
      && free == old(free) + (if Sole(old(refs), f, o) then P(o) else 0)
      && live == if Sole(old(refs), f, o) then old(live) - {Block(f, o)} else old(live)
    }

    method FreeFrames(f: nat, o: nat)
      requires Valid() && Freeable(f, o)
      modifies this
      ensures Valid() && Released(f, o)
    {
      Drop(f, o);
      if Sole(old(refs), f, o) { DropSole(order, old(refs), refs, f, o); }
      if Shared(old(refs), f, o) { DropShared(order, old(refs), refs, f, o); }
      OwnDropped(live, old(refs), refs, f, o);
      var zero := AllZero(f, o);
      if !zero { return; }
      free := free + P(o);
      live := live - {Block(f, o)};
      Coalesce(f, o);
    }

    /** pmm_free. */
    method Free(phys: nat, o: nat)
      requires Valid()
      requires phys % FRAME_SIZE == 0 && phys / FRAME_SIZE + P(o) <= |refs| ==> Freeable(phys / FRAME_SIZE, o)
      modifies this
      ensures Valid()
      ensures if phys % FRAME_SIZE == 0 && phys / FRAME_SIZE + P(o) <= |old(refs)| then Released(phys / FRAME_SIZE, o)
              else refs == old(refs) && order == old(order) && free == old(free) && live == old(live)
    {
      if Bad(phys, o) { return; }
      FreeFrames(phys / FRAME_SIZE, o);
    }

    /** Allocating and freeing again restores every reference count and the number of free frames. */
    method AllocThenFree(o: nat)
      requires Valid()
      modifies this
      ensures Valid() && refs == old(refs) && free == old(free) && live == old(live)
    {
      var h := AllocFrames(o);
      if h > 0 {
        FreeFrames(h, o);
      }
    }

    /** The owner of a block may look at it as two blocks of half the size. */
    ghost method Halve(f: nat, o: nat)
      requires Valid() && Block(f, o + 1) in live
      modifies this`live
      ensures Valid() && live == old(live) - {Block(f, o + 1)} + {Block(f, o), Block(f + P(o), o)}
    {
      OwnHalves(live, refs, f, o);
      live := live - {Block(f, o + 1)} + {Block(f, o), Block(f + P(o), o)};
    }

    /** Freeing a block in two halves is freeing it, as pmm_selftest does. */
    method FreeHalves(f: nat, o: nat)
      requires Valid() && Block(f, o + 1) in live && o < MAX_ORDER && Freeable(f, o + 1) && Sole(refs, f, o + 1)
      modifies this
      ensures Valid() && Released(f, o + 1)
    {
      SoleHalves(refs, f, o);
      Halve(f, o);
      ghost var b, was := f + P(o), refs;
      OwnOthers(live, refs, f, o);
      OwnOthers(live, refs, b, o);
      FreeFrames(f, o);
      ghost var mid := refs;
      SoleAfter(was, mid, f, b, o);
      FreeFrames(f + P(o), o);
      DroppedHalves(was, mid, refs, f, o);
      HalvesGone(old(live), old(refs), f, o);
    }

    // ----------------------------------------------- sharing

    /** One more reference in the frame's 16-bit counter. */
    method ShareFrame(f: nat)
      requires Valid() && f < |refs| && refs[f] <= REF_LIMIT
      modifies this`refs
      ensures refs == old(refs)[f := if old(refs)[f] == REF_LIMIT then 0 else old(refs)[f] + 1]
      ensures Valid() <==> 0 < old(refs)[f] < REF_LIMIT
    {
      var n := if refs[f] == REF_LIMIT then 0 else refs[f] + 1;
      ZerosStore(refs, f, n);
      if 0 < refs[f] < REF_LIMIT { SharedMore(order, live, refs, f); }
      refs := refs[f := n];
      assert Counted() ==> free == Zeros(refs);
    }

    /** pmm_frame_share: right for a frame in use with room in its counter, and for no other. */
    method Share(phys: nat)
      requires Valid() && phys / FRAME_SIZE < |refs| && refs[phys / FRAME_SIZE] <= REF_LIMIT
      modifies this`refs
      ensures
        var f, was := phys / FRAME_SIZE, old(refs)[phys / FRAME_SIZE];
        && refs == old(refs)[f := if was == REF_LIMIT then 0 else was + 1]
        && (Valid() <==> 0 < was < REF_LIMIT)
    {
      ShareFrame(phys / FRAME_SIZE);
    }

    // ----------------------------------------------- boot

    /** pmm_init before any region is added: every frame of memory is spoken for. */
    constructor (n: nat)
      requires n > 0
      ensures Valid() && |refs| == n && free == 0 && live == {} && forall k :: 0 <= k < n ==> refs[k] == 1
    {
      heads := seq(MAX_ORDER + 1, _ => NONE);
      next := seq(n, _ => NONE);
      prev := seq(n, _ => NONE);
      order := seq(n, _ => ORDER_NONE);
      refs := seq(n, _ => 1);
      free := 0;
      lists := seq(MAX_ORDER + 1, _ => []);
      live := {};
      new;
      ZerosNone(refs);
    }

    /** add_region in frame numbers. */
    method AddFrames(lo: nat, hi: nat)
      requires Valid() && forall k :: lo <= k < hi && k < |refs| ==> Unclaimed(live, refs, k)
      modifies this
      ensures Valid() && live == old(live) && Cleared(old(refs), refs, lo, hi)
    {
      var f := lo;
      while f < hi && f < |refs|
        invariant lo <= f && (f <= hi || f == lo) && Valid() && live == old(live)
        invariant Cleared(old(refs), refs, lo, f)
      {
        assert Unclaimed(live, old(refs), f);
        AddFrame(f);
        f := f + 1;
      }
    }

    method AddFrame(f: nat)
      requires Valid() && Unclaimed(live, refs, f)
      modifies this
      ensures Valid() && live == old(live) && refs == old(refs)[f := 0]
    {
      assert Sole(refs, f, 0) by { assert forall k :: Within(f, 0, k) <==> k == f; }
      assert Block(f, 0) !in live by { assert !Apart(Block(f, 0), Block(f, 0)); }
      FreeFrames(f, 0);
      assert forall k :: Within(f, 0, k) <==> k == f;
    }

    /** add_region: exactly the whole frames of [start, end) become free. */
    method AddRegion(start: nat, end: nat)
      requires Valid()
      requires forall k: nat :: start <= k * FRAME_SIZE && (k + 1) * FRAME_SIZE <= end && k < |refs| ==>
        Unclaimed(live, refs, k)
      modifies this
      ensures Valid() && live == old(live) && |refs| == old(|refs|)
      ensures forall k: nat :: k < |refs| && start <= k * FRAME_SIZE && (k + 1) * FRAME_SIZE <= end ==> refs[k] == 0
      ensures forall k: nat :: k < |refs| && !(start <= k * FRAME_SIZE && (k + 1) * FRAME_SIZE <= end) ==>
        refs[k] == old(refs)[k]
    {
      AddFrames((start + FRAME_SIZE - 1) / FRAME_SIZE, end / FRAME_SIZE);
    }
  }
}