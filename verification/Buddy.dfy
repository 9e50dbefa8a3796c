/** The buddy system of kernel/mm/pmm.c as a value: order[f] is the order of the free block that
    starts at frame f, or ORDER_NONE. */
module Buddy {

  const MAX_ORDER: nat := 14
  const ORDER_NONE: int := 0xFF

  /** 1 << o */
  function P(o: nat): (r: nat)
    ensures r > 0
  {
    if o == 0 then 1 else 2 * P(o - 1)
  }

  /** The low o bits of f are clear. */
  ghost predicate Aligned(f: int, o: nat)
    decreases o
  {
    o == 0 || (f % 2 == 0 && Aligned(f / 2, o - 1))
  }

  /** f ^ (1 << o) */
  function Flip(f: nat, o: nat): (r: nat) {
    if o == 0 then (if f % 2 == 0 then f + 1 else f - 1) else 2 * Flip(f / 2, o - 1) + f % 2
  }

  // ------------------------------------------------- arithmetic of aligned blocks

  lemma {:induction false} AlignedLess(f: int, o: nat, p: nat)
    requires Aligned(f, p) && o <= p
    ensures Aligned(f, o)
    decreases o
  {
    if o > 0 { AlignedLess(f / 2, o - 1, p - 1); }
  }

  lemma {:induction false} AlignedAdd(f: int, o: nat)
    requires Aligned(f, o + 1)
    ensures Aligned(f + P(o), o)
    decreases o
  {
    if o > 0 {
      AlignedAdd(f / 2, o - 1);
      assert (f + P(o)) / 2 == f / 2 + P(o - 1);
    }
  }

  /** Multiples of the same power of two are that far apart, or equal. */
  lemma {:induction false} AlignedGap(a: int, b: int, o: nat)
    requires Aligned(a, o) && Aligned(b, o) && a < b + P(o)
    ensures a <= b
    decreases o
  {
    if o > 0 { AlignedGap(a / 2, b / 2, o - 1); }
  }

  lemma {:induction false} PMono(o: nat, p: nat)
    requires o <= p
    ensures P(o) <= P(p)
  {
    if o < p { PMono(o, p - 1); }
  }

  /** Two aligned blocks are nested or apart. */
  lemma Laminar(f: int, o: nat, g: int, p: nat)
    requires Aligned(f, o) && Aligned(g, p) && o <= p
    ensures f + P(o) <= g || g + P(p) <= f || (g <= f && f + P(o) <= g + P(p))
  {
    AlignedLess(g, o, p);
    AlignedEnd(g, o, p);
    if g < f + P(o) && f < g + P(p) {
      AlignedGap(g, f, o);
      AlignedGap(f + P(o), g + P(p), o) by {
        AlignedShift(f, o);
      }
    }
  }

  lemma {:induction false} AlignedShift(f: int, o: nat)
    requires Aligned(f, o)
    ensures Aligned(f + P(o), o)
    decreases o
  {
    if o > 0 {
      AlignedShift(f / 2, o - 1);
      assert (f + P(o)) / 2 == f / 2 + P(o - 1);
    }
  }

  lemma {:induction false} AlignedEnd(g: int, o: nat, p: nat)
    requires Aligned(g, p) && o <= p
    ensures Aligned(g + P(p), o)
    decreases o
  {
    if o > 0 {
      AlignedEnd(g / 2, o - 1, p - 1);
      assert (g + P(p)) / 2 == g / 2 + P(p - 1);
    }
  }

  /** The buddy: the other half of the block of twice the size. */
  lemma {:induction false} FlipBuddy(f: nat, o: nat)
    requires Aligned(f, o)
    ensures var b := Flip(f, o); Aligned(b, o) && Flip(b, o) == f && (b == f + P(o) || f == b + P(o))
    ensures Aligned(if f < Flip(f, o) then f else Flip(f, o), o + 1)
    decreases o
  {
    if o > 0 { FlipBuddy(f / 2, o - 1); }
  }

  lemma {:induction false} FlipLow(f: nat, o: nat)
    requires Aligned(f, o + 1)
    ensures Flip(f, o) == f + P(o)
    decreases o
  {
    if o > 0 { FlipLow(f / 2, o - 1); }
  }

  // ------------------------------------------------- the free blocks

  /** A free block starts at f. */
  ghost predicate Head(order: seq<int>, f: int) { 0 <= f < |order| && order[f] != ORDER_NONE }

  ghost predicate Shaped(order: seq<int>) {
    forall f :: Head(order, f) ==> 0 <= order[f] <= MAX_ORDER && Aligned(f, order[f]) && f + P(order[f]) <= |order|
  }

  ghost predicate Disjoint(order: seq<int>)
    requires Shaped(order)
  {
    forall f, g :: Head(order, f) && Head(order, g) && f < g ==> f + P(order[f]) <= g
  }

  /** No free block has its buddy free at the same order. */
  ghost predicate Coalesced(order: seq<int>)
    requires Shaped(order)
  {
    forall f :: Head(order, f) && order[f] < MAX_ORDER ==> !BuddyFree(order, f, order[f])
  }

  ghost predicate BuddyFree(order: seq<int>, f: nat, o: nat) {
    Flip(f, o) < |order| && order[Flip(f, o)] == o
  }

  ghost predicate Inv(order: seq<int>) { Shaped(order) && Disjoint(order) && Coalesced(order) }

  /** Frame k lies in a free block. */
  ghost predicate Covered(order: seq<int>, k: int)
    requires Shaped(order)
  {
    exists h :: Head(order, h) && h <= k < h + P(order[h])
  }

  ghost predicate Within(f: int, o: nat, k: int) { f <= k < f + P(o) }

  /** The block at f is in no free block's way: it is in the allocator's hands. */
  ghost predicate Held(order: seq<int>, f: int, o: nat) {
    && Inv(order) && o <= MAX_ORDER && 0 <= f && f + P(o) <= |order| && Aligned(f, o)
    && forall g :: Head(order, g) ==> g + P(order[g]) <= f || f + P(o) <= g
  }

  /** A block none of whose frames is free is in no free block's way. */
  lemma UncoveredHeld(order: seq<int>, f: int, o: nat)
    requires Inv(order) && o <= MAX_ORDER && 0 <= f && f + P(o) <= |order| && Aligned(f, o)
    requires forall k :: Within(f, o, k) ==> !Covered(order, k)
    ensures Held(order, f, o)
  {
    forall g | Head(order, g) ensures g + P(order[g]) <= f || f + P(o) <= g {
      var k := if f < g then g else f;
      if Within(f, o, k) { assert !Covered(order, k); }
    }
  }

  /** One more free block covers just its own frames more. */
  lemma CoverAdd(order: seq<int>, b: int, o: nat)
    requires Shaped(order) && 0 <= b < |order| && order[b] == ORDER_NONE
    requires o <= MAX_ORDER && Aligned(b, o) && b + P(o) <= |order|
    ensures Shaped(order[b := o])
    ensures forall k :: Covered(order[b := o], k) <==> Covered(order, k) || Within(b, o, k)
  {
    var order' := order[b := o];
    assert forall g :: Head(order', g) <==> Head(order, g) || g == b;
    forall k | Covered(order', k) ensures Covered(order, k) || Within(b, o, k) {
      var g :| Head(order', g) && g <= k < g + P(order'[g]);
      if g != b { assert Head(order, g); }
    }
    forall k | Covered(order, k) ensures Covered(order', k) {
      var g :| Head(order, g) && g <= k < g + P(order[g]);
      assert Head(order', g);
    }
    forall k | Within(b, o, k) ensures Covered(order', k) { assert Head(order', b); }
  }

  /** Taking a free block off its list. */
  lemma TakeBlock(order: seq<int>, h: int)
    requires Inv(order) && Head(order, h)
    ensures Held(order[h := ORDER_NONE], h, order[h])
    ensures forall k :: Covered(order, k) <==> Covered(order[h := ORDER_NONE], k) || Within(h, order[h], k)
  {
    TakeHeld(order, h);
    var order' := order[h := ORDER_NONE];
    assert order'[h := order[h]] == order;
    CoverAdd(order', h, order[h]);
  }

  lemma TakeHeld(order: seq<int>, h: int)
    requires Inv(order) && Head(order, h)
    ensures Held(order[h := ORDER_NONE], h, order[h])
  {
    var order' := order[h := ORDER_NONE];
    assert forall g :: Head(order', g) <==> Head(order, g) && g != h;
    TakeCoalesced(order, order', h);
  }

  lemma TakeCoalesced(order: seq<int>, order': seq<int>, h: int)
    requires Shaped(order) && Shaped(order') && Coalesced(order) && Head(order, h) && order' == order[h := ORDER_NONE]
    ensures Coalesced(order')
  {
    forall f | Head(order', f) && order'[f] < MAX_ORDER ensures !BuddyFree(order', f, order'[f]) {
      assert Head(order, f) && !BuddyFree(order, f, order[f]);
    }
  }

  /** The upper half of the block in hand, as a block of its own. */
  lemma UpperHalf(order: seq<int>, h: int, k: nat)
    requires Held(order, h, k) && k > 0
    ensures var b := h + P(k - 1); 0 <= b && b + P(k - 1) <= |order| && order[b] == ORDER_NONE && Aligned(b, k - 1)
    ensures order[h] == ORDER_NONE && Aligned(h, k - 1) && P(k) == 2 * P(k - 1)
    ensures Flip(h + P(k - 1), k - 1) == h
  {
    AlignedAdd(h, k - 1);
    AlignedLess(h, k - 1, k);
    FlipLow(h, k - 1);
    FlipBuddy(h, k - 1);
    assert !Head(order, h + P(k - 1)) && !Head(order, h);
  }

  lemma SplitHeld(order: seq<int>, h: int, k: nat)
    requires Held(order, h, k) && k > 0
    ensures h + P(k - 1) < |order| && Held(order[h + P(k - 1) := k - 1], h, k - 1)
  {
    UpperHalf(order, h, k);
    var b, o := h + P(k - 1), k - 1;
    AddInv(order, b, o);
    ClearOf(order, order[b := o], h, o);
  }

  /** One more free block, clear of the others, with no free buddy of its order. */
  lemma AddInv(order: seq<int>, b: nat, o: nat)
    requires Inv(order) && o <= MAX_ORDER && Aligned(b, o) && b + P(o) <= |order| && order[b] == ORDER_NONE
    requires forall g :: Head(order, g) ==> g + P(order[g]) <= b || b + P(o) <= g
    requires o == MAX_ORDER || !BuddyFree(order, b, o)
    ensures Inv(order[b := o])
  {
    CoverAdd(order, b, o);
    AddDisjoint(order, b, o);
    AddCoalesced(order, b, o);
  }

  /** The other free blocks are as clear of the lower half as they were of the whole. */
  lemma ClearOf(order: seq<int>, order': seq<int>, h: int, o: nat)
    requires Held(order, h, o + 1) && h + P(o) < |order| && order' == order[h + P(o) := o]
    ensures forall g :: Head(order', g) ==> g + P(order'[g]) <= h || h + P(o) <= g
  {
    assert P(o + 1) == P(o) + P(o);
    forall g | Head(order', g) ensures g + P(order'[g]) <= h || h + P(o) <= g {
      assert g == h + P(o) || Head(order, g);
    }
  }

  /** Giving the upper half of the block in hand back. */
  lemma SplitBlock(order: seq<int>, h: int, k: nat)
    requires Held(order, h, k) && k > 0
    ensures 0 <= h + P(k - 1) < |order| && order[h + P(k - 1)] == ORDER_NONE
    ensures Held(order[h + P(k - 1) := k - 1], h, k - 1)
    ensures forall x :: Covered(order, x) || Within(h, k, x) <==>
                        Covered(order[h + P(k - 1) := k - 1], x) || Within(h, k - 1, x)
  {
    var b, o := h + P(k - 1), k - 1;
    UpperHalf(order, h, k);
    SplitHeld(order, h, k);
    CoverAdd(order, b, o);
    assert forall x :: Within(h, k, x) <==> Within(h, o, x) || Within(b, o, x);
  }

  lemma AddDisjoint(order: seq<int>, b: nat, o: nat)
    requires Shaped(order) && Disjoint(order) && b < |order| && order[b] == ORDER_NONE && Shaped(order[b := o])
    requires forall g :: Head(order, g) ==> g + P(order[g]) <= b || b + P(o) <= g
    ensures Disjoint(order[b := o])
  {
    var order' := order[b := o];
    forall f, g | Head(order', f) && Head(order', g) && f < g ensures f + P(order'[f]) <= g {
      assert f == b || Head(order, f);
      assert g == b || Head(order, g);
    }
  }

  /** A new free block whose buddy is not free at the same order completes no pair. */
  lemma AddCoalesced(order: seq<int>, b: nat, o: nat)
    requires Inv(order) && b < |order| && order[b] == ORDER_NONE && Aligned(b, o) && Shaped(order[b := o])
    requires o == MAX_ORDER || !BuddyFree(order, b, o)
    ensures Coalesced(order[b := o])
  {
    var order' := order[b := o];
    FlipBuddy(b, o);
    forall f | Head(order', f) && order'[f] < MAX_ORDER ensures !BuddyFree(order', f, order'[f]) {
      if f != b { assert Head(order, f); }
      FlipBuddy(f, order'[f]);
    }
  }

  /** Joining the block in hand with its free buddy. */
  lemma MergeBlock(order: seq<int>, f: nat, o: nat)
    requires Held(order, f, o) && o < MAX_ORDER && BuddyFree(order, f, o)
    ensures
      var b := Flip(f, o);
      var order' := order[b := ORDER_NONE];
      && Head(order, b) && Held(order', if f < b then f else b, o + 1)
      && (forall k :: Covered(order, k) || Within(f, o, k) <==>
        Covered(order', k) || Within(if f < b then f else b, o + 1, k))
  {
    FlipBuddy(f, o);
    TakeBlock(order, Flip(f, o));
  }

  /** Putting the block in hand on its list, once its buddy cannot join it. */
  lemma PutBlock(order: seq<int>, f: nat, o: nat)
    requires Held(order, f, o) && (o == MAX_ORDER || !BuddyFree(order, f, o))
    ensures Inv(order[f := o]) && order[f] == ORDER_NONE
    ensures forall k :: Covered(order[f := o], k) <==> Covered(order, k) || Within(f, o, k)
  {
    assert !Head(order, f);
    CoverAdd(order, f, o);
    AddInv(order, f, o);
  }

  lemma BlockOver(order: seq<int>, k: int) returns (h: int)
    requires Shaped(order) && Covered(order, k)
    ensures Head(order, h) && h <= k && k + P(0) <= h + P(order[h])
  {
    h :| Head(order, h) && h <= k < h + P(order[h]);
  }

  /** Every frame of the run is free. */
  ghost predicate FreeRun(order: seq<int>, f: nat, o: nat)
    requires Shaped(order)
  {
    (forall k :: Within(f, o, k) ==> Covered(order, k)) == true
  }

  lemma HalvesFree(order: seq<int>, f: nat, o: nat)
    requires Shaped(order) && FreeRun(order, f, o + 1)
    ensures FreeRun(order, f, o) && FreeRun(order, f + P(o), o)
  {
    forall k ensures Within(f, o, k) || Within(f + P(o), o, k) ==> Within(f, o + 1, k) { HalfWithin(f, o, k); }
  }

  lemma HalfWithin(f: nat, o: nat, k: int)
    ensures Within(f, o, k) || Within(f + P(o), o, k) ==> Within(f, o + 1, k)
  {
    assert P(o + 1) == P(o) + P(o);
  }

  /** Coalescing leaves nothing behind: an aligned run that is free throughout lies in one free block. */
  lemma RunInOneBlock(order: seq<int>, f: nat, o: nat) returns (h: int)
    requires Inv(order) && o <= MAX_ORDER && Aligned(f, o)
    requires forall k :: Within(f, o, k) ==> Covered(order, k)
    ensures Head(order, h) && h <= f && f + P(o) <= h + P(order[h])
  {
    h := BlockAround(order, f, o);
  }

  /** The free block at h is around the run. */
  ghost predicate Around(order: seq<int>, h: int, f: nat, o: nat)
    requires Shaped(order)
  {
    (Head(order, h) && h <= f && f + P(o) <= h + P(order[h])) == true
  }

  lemma {:induction false} BlockAround(order: seq<int>, f: nat, o: nat) returns (h: int)
    requires Inv(order) && o <= MAX_ORDER && Aligned(f, o) && FreeRun(order, f, o)
    ensures Around(order, h, f, o)
    decreases o
  {
    if o == 0 {
      assert Within(f, 0, f);
      h := BlockOver(order, f);
    } else {
      var q := o - 1;
      HalvesFree(order, f, q);
      AlignedHalves(f, q);
      h := BlockAround(order, f, q);
      var g := BlockAround(order, f + P(q), q);
      h := JoinAround(order, f, q, h, g);
    }
  }

  lemma AlignedHalves(f: nat, o: nat)
    requires Aligned(f, o + 1)
    ensures Aligned(f, o) && Aligned(f + P(o), o)
  {
    AlignedLess(f, o, o + 1);
    AlignedAdd(f, o);
  }

  /** The free blocks around the halves of a run are one block around the run. */
  lemma JoinAround(order: seq<int>, f: nat, o: nat, h: int, g: int) returns (r: int)
    requires Inv(order) && o < MAX_ORDER && Aligned(f, o + 1) && Around(order, h, f, o) && Around(order, g, f + P(o), o)
    ensures Around(order, r, f, o + 1)
  {
    HalvesJoin(order, f, o, h, g);
    var first := RunBlock(f, o, h, order[h], g, order[g]);
    r := if first then h else g;
  }

  /** Of two blocks around the halves of a run, one of them of a greater order, one is around the run. */
  lemma RunBlock(f: nat, o: nat, h: int, k: nat, g: int, p: nat) returns (first: bool)
    requires Aligned(f, o + 1) && Aligned(h, k) && Aligned(g, p) && (k > o || p > o)
    requires h <= f && f + P(o) <= h + P(k) && g <= f + P(o) && f + P(o) + P(o) <= g + P(p)
    ensures if first then h <= f && f + P(o + 1) <= h + P(k) else g <= f && f + P(o + 1) <= g + P(p)
  {
    first := k > o;
    if first { Laminar(f, o + 1, h, k); } else { Laminar(f, o + 1, g, p); }
  }

  /** Free blocks around the two halves of a run are not both as small as the halves: those would be joined. */
  lemma HalvesJoin(order: seq<int>, f: nat, o: nat, h: int, g: int)
    requires Inv(order) && o < MAX_ORDER && Aligned(f, o + 1) && Head(order, h) && Head(order, g)
    requires h <= f && f + P(o) <= h + P(order[h])
    requires g <= f + P(o) && f + P(o) + P(o) <= g + P(order[g])
    ensures order[h] > o || order[g] > o
  {
    PairJoined(order, f, o);
    SnugPair(order, f, o, h, g);
  }

  lemma PairJoined(order: seq<int>, f: nat, o: nat)
    requires Inv(order) && o < MAX_ORDER && Aligned(f, o + 1)
    ensures f + P(o) < |order| && order[f] == o ==> order[f + P(o)] != o
  {
    if f + P(o) < |order| && order[f] == o {
      FlipLow(f, o);
      assert !BuddyFree(order, f, o);
    }
  }

  lemma SnugPair(order: seq<int>, f: nat, o: nat, h: int, g: int)
    requires 0 <= h < |order| && order[h] >= 0 && 0 <= g < |order| && order[g] >= 0
    requires h <= f && f + P(o) <= h + P(order[h]) && g <= f + P(o) && f + P(o) + P(o) <= g + P(order[g])
    requires f + P(o) < |order| && order[f] == o ==> order[f + P(o)] != o
    ensures order[h] > o || order[g] > o
  {
    if order[h] <= o { Snug(f, o, h, order[h]); }
    if order[g] <= o { Snug(f + P(o), o, g, order[g]); }
  }

  /** A block that holds one at least as large is that block. */
  lemma Snug(f: int, o: nat, h: int, k: nat)
    requires k <= o && h <= f && f + P(o) <= h + P(k)
    ensures h == f && k == o
  {
    PExact(k, o);
  }

  lemma {:induction false} PExact(o: nat, p: nat)
    requires o <= p && P(p) <= P(o)
    ensures o == p
    decreases p
  {
    if o < p {
      PMono(o, p - 1);
    }
  }
}
