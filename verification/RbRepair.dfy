/** kernel/lib/rbtree.c: the erase fix-up as a function of the tree, and when its rotations happen to repair the slot
    that a propagate callback which stops early left with the erased node's aggregate. */
module RbRepair {
  import opened Bytes
  import opened RbShape
  import opened RbMem
  import opened RbFixup
  import opened RbWalk

  // ------------------------------------------------- the fix-up on trees

  /** A path of one step. */
  ghost function Alone(c: Ctx): Ctx
    requires !c.Top?
  {
    if c.InL? then InL(Top, c.n, c.black, c.agg, c.r) else InR(c.l, c.n, c.black, c.agg, Top)
  }

  /** Case 1, if the sibling is red. */
  ghost function Sibbed(aug: Aug, c: Ctx, t: Tree): Ctx {
    if c.Top? || !Sib(c).Bin? || Sib(c).black then c
    else if c.InL? then RedSibLeft(aug, c, t) else RedSibRight(aug, c, t)
  }

  /** Case 3, if the sibling's outer child is black. */
  ghost function Straight(aug: Aug, c: Ctx): Ctx
    requires !c.Top? && Sib(c).Bin?
    ensures !Straight(aug, c).Top? && Sib(Straight(aug, c)).Bin?
  {
    if c.InL? then
      if IsBlack(c.r.r) && c.r.l.Bin? then WithSib(c, AugRotR(aug, Bin(Black(c.r.l), c.r.n, false, c.r.agg, c.r.r)))
      else c
    else
      if IsBlack(c.l.l) && c.l.r.Bin? then WithSib(c, AugRotL(aug, Bin(c.l.l, c.l.n, false, c.l.agg, Black(c.l.r))))
      else c
  }

  /** Cases 3 and 4: what stands in the parent's place. */
  ghost function Ended(aug: Aug, c: Ctx, t: Tree): Tree
    requires !c.Top? && Sib(c).Bin?
  {
    var c1 := Straight(aug, c);
    if c.InL? then AugRotL(aug, Borrowed(c1, t)) else AugRotR(aug, Borrowed(c1, t))
  }

  lemma EndedIs(aug: Aug, c0: Ctx, c: Ctx, t: Tree)
    requires !c0.Top? && Sib(c0).Bin? && c == Straight(aug, c0)
    ensures c.up == c0.up && (c.InL? <==> c0.InL?)
    ensures Ended(aug, c0, t) == if c.InL? then AugRotL(aug, Borrowed(c, t)) else AugRotR(aug, Borrowed(c, t))
  {
  }

  /** The sibling and its children are black. */
  ghost predicate AllBlack(w: Tree) { w.Bin? && w.black && IsBlack(w.l) && IsBlack(w.r) }

  /** A turn that ends the loop, at the parent: what stands in the parent's place. */
  ghost function Done(aug: Aug, c: Ctx, t: Tree): Tree
    requires !c.Top? && c.up.Top? && Sib(c).Bin?
  {
    var c1 := Sibbed(aug, c, t);
    if !Sib(c1).Bin? then UpTree(c, t)
    else if AllBlack(Sib(c1)) then Plug(c1.up, Black(UpTree(RedSib(c1), t)))
    else Plug(c1.up, Ended(aug, c1, t))
  }

  /** __rb_erase_fixup for a short subtree t. */
  ghost function FixUp(aug: Aug, c: Ctx, t: Tree): Tree
    decreases c
  {
    if c.Top? || !IsBlack(t) || !Sib(c).Bin? then Plug(c, Black(t))
    else if AllBlack(Sib(c)) then FixUp(aug, c.up, UpTree(RedSib(c), t))
    else Plug(c.up, Done(aug, Alone(c), t))
  }

  /** One turn of the loop, on the path it really works on. */
  lemma FixUpTurn(aug: Aug, c: Ctx, t: Tree)
    requires !c.Top? && IsBlack(t) && Sib(c).Bin? && !Sibbed(aug, c, t).Top? && Sib(Sibbed(aug, c, t)).Bin?
    ensures
      var c1 := Sibbed(aug, c, t);
      FixUp(aug, c, t) ==
        if AllBlack(Sib(c1)) then FixUp(aug, c1.up, UpTree(RedSib(c1), t)) else Plug(c1.up, Ended(aug, c1, t))
  {
    if !Sib(c).black {
      var c1, k1 := Sibbed(aug, c, t), Sibbed(aug, Alone(c), t);
      assert c1.up == Over(k1.up, c.up) && Sib(c1) == Sib(k1);
      if AllBlack(Sib(c1)) {
        var u := UpTree(RedSib(c1), t);
        assert UpTree(RedSib(k1), t) == u && !IsBlack(u);
        OverPlug(k1.up, c.up, Black(u));
      } else {
        assert Ended(aug, k1, t) == Ended(aug, c1, t);
        OverPlug(k1.up, c.up, Ended(aug, c1, t));
      }
    } else if !AllBlack(Sib(c)) {
      assert Ended(aug, Alone(c), t) == Ended(aug, c, t);
    }
  }

  // ------------------------------------------------- where it ends

  /** The fix-up leaves the short subtree as it is, but for the colour of its root. */
  lemma {:induction false} Stays(aug: Aug, c: Ctx, t: Tree) returns (e: Ctx, v: Tree)
    ensures FixUp(aug, c, t) == Plug(e, v) && (v == t || v == Black(t))
    decreases c
  {
    if c.Top? || !IsBlack(t) || !Sib(c).Bin? {
      e, v := c, Black(t);
    } else if AllBlack(Sib(c)) {
      var e1, u := Stays(aug, c.up, UpTree(RedSib(c), t));
      e, v := if c.InL? then InL(e1, u.n, u.black, u.agg, u.r) else InR(u.l, u.n, u.black, u.agg, e1), t;
    } else {
      e, v := StaysDone(aug, Alone(c), t);
      OverPlug(e, c.up, v);
      e := Over(e, c.up);
    }
  }

  lemma StaysDone(aug: Aug, c: Ctx, t: Tree) returns (e: Ctx, v: Tree)
    requires !c.Top? && c.up.Top? && Sib(c).Bin?
    ensures Done(aug, c, t) == Plug(e, v) && v == t
  {
    var c1 := Sibbed(aug, c, t);
    v := t;
    if !Sib(c1).Bin? {
      e := c;
    } else if AllBlack(Sib(c1)) {
      var u := Black(UpTree(RedSib(c1), t));
      e := if c.InL? then InL(c1.up, u.n, u.black, u.agg, u.r) else InR(u.l, u.n, u.black, u.agg, c1.up);
    } else {
      var u := Ended(aug, c1, t);
      if c.InL? {
        e := InL(InL(c1.up, u.n, u.black, u.agg, u.r), u.l.n, u.l.black, u.l.agg, u.l.r);
      } else {
        e := InR(u.r.l, u.r.n, u.r.black, u.r.agg, InR(u.l, u.n, u.black, u.agg, c1.up));
      }
    }
  }

  // ------------------------------------------------- its aggregates

  /** A rotation computes both aggregates anew. */
  lemma RotSound(aug: Aug, h: Tree)
    requires aug.Aug? && h.Bin?
    ensures h.r.Bin? && AggSound(aug, h.l) && AggSound(aug, h.r.l) && AggSound(aug, h.r.r) ==>
      AggSound(aug, AugRotL(aug, h)) && InOrder(AugRotL(aug, h)) == InOrder(h)
    ensures h.l.Bin? && AggSound(aug, h.r) && AggSound(aug, h.l.l) && AggSound(aug, h.l.r) ==>
      AggSound(aug, AugRotR(aug, h)) && InOrder(AugRotR(aug, h)) == InOrder(h)
  {
    if h.r.Bin? { FiveParts(InOrder(h.l), h.n, InOrder(h.r.l), h.r.n, InOrder(h.r.r)); }
    if h.l.Bin? { FiveParts(InOrder(h.l.l), h.l.n, InOrder(h.l.r), h.n, InOrder(h.r)); }
  }

  lemma BlackSame(aug: Aug, t: Tree)
    ensures AggSound(aug, Black(t)) == AggSound(aug, t) && InOrder(Black(t)) == InOrder(t)
    ensures aug.Aug? ==> AggOf(aug, Black(t)) == AggOf(aug, t)
  {
  }

  /** Two trees with right aggregates and the same order have the same one. */
  lemma SameAgg(aug: Aug, t: Tree, u: Tree)
    requires aug.Aug? && Lawful(aug) && AggSound(aug, t) && AggSound(aug, u) && InOrder(t) == InOrder(u)
    ensures AggOf(aug, t) == AggOf(aug, u)
  {
    AggIsFold(aug, t);
    AggIsFold(aug, u);
  }

  lemma StraightSound(aug: Aug, c: Ctx)
    requires aug.Aug? && !c.Top? && Sib(c).Bin? && AggSound(aug, Sib(c))
    ensures var w := Sib(Straight(aug, c)); AggSound(aug, w) && InOrder(w) == InOrder(Sib(c))
  {
    var w := Sib(c);
    BlackSame(aug, w.l);
    BlackSame(aug, w.r);
    if c.InL? && w.l.Bin? {
      RotSound(aug, Bin(Black(w.l), w.n, false, w.agg, w.r));
    }
    if c.InR? && w.r.Bin? {
      RotSound(aug, Bin(w.l, w.n, false, w.agg, Black(w.r)));
    }
  }

  lemma EndedSound(aug: Aug, c: Ctx, t: Tree)
    requires aug.Aug? && !c.Top? && Sib(c).Bin? && AggSound(aug, Sib(c)) && AggSound(aug, t)
    ensures AggSound(aug, Ended(aug, c, t)) && InOrder(Ended(aug, c, t)) == InOrder(UpTree(c, t))
  {
    var c1 := Straight(aug, c);
    StraightSound(aug, c);
    var b := Borrowed(c1, t);
    BlackSame(aug, Sib(c1).l);
    BlackSame(aug, Sib(c1).r);
    RotSound(aug, b);
  }

  /** After case 1 the sibling and the new top are right, whatever the parent held. */
  lemma SibbedSound(aug: Aug, c: Ctx, t: Tree)
    requires aug.Aug? && !c.Top? && c.up.Top? && Sib(c).Bin? && AggSound(aug, Sib(c)) && AggSound(aug, t)
    requires !Sib(c).black
    ensures var c1 := Sibbed(aug, c, t);
      && !c1.Top? && !c1.up.Top? && c1.up.up.Top? && (c1.InL? <==> c.InL?)
      && AggSound(aug, Plug(c1, t)) && InOrder(Plug(c1, t)) == InOrder(UpTree(c, t))
      && AggSound(aug, Sib(c1)) && AggSound(aug, UpTree(c1, t)) && CtxAggSound(aug, c1.up, UpTree(c1, t))
  {
    BlackSame(aug, Sib(c));
    var h := if c.InL? then Bin(t, c.n, false, c.agg, Black(c.r)) else Bin(Black(c.l), c.n, false, c.agg, t);
    RotSound(aug, h);
    var c1 := Sibbed(aug, c, t);
    var u := UpTree(c1.up, UpTree(c1, t));
    assert u == if c.InL? then AugRotL(aug, h) else AugRotR(aug, h);
    assert Plug(c1, t) == Plug(c1.up, UpTree(c1, t)) == Plug(Top, u) == u;
    PlugAgg(aug, c1, t);
  }

  lemma ReddenedSound(aug: Aug, c: Ctx, t: Tree)
    requires aug.Aug? && !c.Top? && Sib(c).Bin? && AggSound(aug, UpTree(c, t))
    ensures var v := Black(UpTree(RedSib(c), t)); AggSound(aug, v) && InOrder(v) == InOrder(UpTree(c, t))
  {
    var w, w' := Sib(c), Sib(RedSib(c));
    assert AggSound(aug, w') && InOrder(w') == InOrder(w) && AggOf(aug, w') == AggOf(aug, w);
    BlackSame(aug, UpTree(RedSib(c), t));
  }

  /** What stands in the parent's place has right aggregates, whatever the parent held. */
  lemma DoneSound(aug: Aug, c: Ctx, t: Tree)
    requires aug.Aug? && Lawful(aug) && !c.Top? && c.up.Top? && Sib(c).Bin? && !AllBlack(Sib(c))
    requires AggSound(aug, Sib(c)) && AggSound(aug, t) && (!Sib(c).black ==> Sib(Sibbed(aug, c, t)).Bin?)
    ensures AggSound(aug, Done(aug, c, t)) && InOrder(Done(aug, c, t)) == InOrder(UpTree(c, t))
  {
    if Sib(c).black {
      EndedSound(aug, c, t);
    } else {
      SibbedSound(aug, c, t);
      var c1 := Sibbed(aug, c, t);
      var u := UpTree(c1, t);
      var v := if AllBlack(Sib(c1)) then Black(UpTree(RedSib(c1), t)) else Ended(aug, c1, t);
      if AllBlack(Sib(c1)) { ReddenedSound(aug, c1, t); } else { EndedSound(aug, c1, t); }
      SameAgg(aug, u, v);
      CtxAggFrame(aug, c1.up, u, v);
      PlugAgg(aug, c1.up, v);
      WholeIsPlug(c1.up, v);
      WholeIsPlug(c1.up, u);
    }
  }

  // ------------------------------------------------- the way up to the slot

  /** The fix-up of x reaches the end of the path: every step of it finds all black. */
  ghost predicate Arrives(inner: Ctx, x: Tree) {
    IsBlack(x) && (inner.Top? || (AllBlack(Sib(inner)) && Arrives(inner.up, UpTree(RedSib(inner), x))))
  }

  /** What it arrives with. */
  ghost function Arrival(inner: Ctx, x: Tree): Tree
    requires Arrives(inner, x)
    decreases inner
  {
    if inner.Top? then x else Arrival(inner.up, UpTree(RedSib(inner), x))
  }

  /** Case 1 has a sibling of its own to look at, as in every balanced tree. */
  ghost predicate Sided(aug: Aug, c: Ctx, t: Tree) {
    !c.Top? && Sib(c).Bin? && !Sib(c).black ==> Sib(Sibbed(aug, Alone(c), t)).Bin?
  }

  ghost predicate AllSided(aug: Aug, c: Ctx, t: Tree) {
    c.Top? || !IsBlack(t) ||
    (Sided(aug, c, t) && (AllBlack(Sib(c)) ==> AllSided(aug, c.up, UpTree(RedSib(c), t))))
  }

  lemma InnerStops(aug: Aug, inner: Ctx, x: Tree)
    requires aug.Aug? && AggSound(aug, x) && CtxAggSound(aug, inner, x)
    ensures var r := Plug(inner, Black(x)); AggSound(aug, r) && InOrder(r) == Whole(inner, x)
  {
    BlackSame(aug, x);
    CtxAggFrame(aug, inner, x, Black(x));
    PlugAgg(aug, inner, Black(x));
    WholeIsPlug(inner, Black(x));
  }

  lemma InnerMoves(aug: Aug, inner: Ctx, x: Tree)
    requires aug.Aug? && AggSound(aug, x) && CtxAggSound(aug, inner, x) && !inner.Top? && Sib(inner).Bin?
    ensures
      var x' := UpTree(RedSib(inner), x);
      AggSound(aug, x') && CtxAggSound(aug, inner.up, x') && Whole(inner.up, x') == Whole(inner, x)
  {
    var x' := UpTree(RedSib(inner), x);
    CtxAggFrame(aug, inner.up, UpTree(inner, x), x');
    WholeUp(inner, x);
    assert InOrder(Sib(RedSib(inner))) == InOrder(Sib(inner));
    assert InOrder(x') == InOrder(UpTree(inner, x));
    assert AggSound(aug, Sib(RedSib(inner)));
  }

  lemma InnerDone(aug: Aug, inner: Ctx, x: Tree)
    requires aug.Aug? && Lawful(aug) && AggSound(aug, x) && CtxAggSound(aug, inner, x) && !inner.Top?
    requires Sib(inner).Bin? && !AllBlack(Sib(inner)) && Sided(aug, inner, x)
    ensures
      var r := Plug(inner.up, Done(aug, Alone(inner), x));
      AggSound(aug, r) && InOrder(r) == Whole(inner, x)
  {
    var g := Done(aug, Alone(inner), x);
    DoneSound(aug, Alone(inner), x);
    assert InOrder(g) == InOrder(UpTree(inner, x));
    SameAgg(aug, UpTree(inner, x), g);
    CtxAggFrame(aug, inner.up, UpTree(inner, x), g);
    PlugAgg(aug, inner.up, g);
    WholeIsPlug(inner.up, g);
    WholeUp(inner, x);
  }

  /** Within a path whose aggregates are right the fix-up either ends, with right aggregates, or arrives with them. */
  lemma {:induction false} Inner(aug: Aug, inner: Ctx, o: Ctx, x: Tree) returns (r: Tree)
    requires aug.Aug? && Lawful(aug) && AggSound(aug, x) && CtxAggSound(aug, inner, x) && AllSided(aug, inner, x)
    ensures AggSound(aug, r) && InOrder(r) == Whole(inner, x)
    ensures FixUp(aug, Over(inner, o), x) == if Arrives(inner, x) then FixUp(aug, o, r) else Plug(o, r)
    ensures Arrives(inner, x) ==> IsBlack(r) && r == Arrival(inner, x)
    decreases inner
  {
    if inner.Top? && IsBlack(x) {
      r := x;
      assert Whole(Top, x) == [] + InOrder(x) + [] == InOrder(x);
    } else if inner.Top? || !IsBlack(x) || !Sib(inner).Bin? {
      r := Plug(inner, Black(x));
      InnerStops(aug, inner, x);
      OverPlug(inner, o, Black(x));
      FixUpStops(aug, Over(inner, o), x);
    } else if AllBlack(Sib(inner)) {
      InnerMoves(aug, inner, x);
      OverStep(inner, o, x);
      r := Inner(aug, inner.up, o, UpTree(RedSib(inner), x));
    } else {
      InnerDone(aug, inner, x);
      OverStep(inner, o, x);
      r := Plug(inner.up, Done(aug, Alone(inner), x));
      OverPlug(inner.up, o, Done(aug, Alone(inner), x));
    }
  }

  lemma OverStep(inner: Ctx, o: Ctx, x: Tree)
    requires !inner.Top? && Sib(inner).Bin?
    ensures
      var c := Over(inner, o);
      && !c.Top? && Sib(c) == Sib(inner) && c.up == Over(inner.up, o) && Alone(c) == Alone(inner)
      && UpTree(RedSib(c), x) == UpTree(RedSib(inner), x)
  {
  }

  lemma FixUpStops(aug: Aug, c: Ctx, t: Tree)
    requires !IsBlack(t) || c.Top? || !Sib(c).Bin?
    ensures FixUp(aug, c, t) == Plug(c, Black(t))
  {
  }

  lemma {:induction false} ShortSided(aug: Aug, law: Aug, inner: Ctx, o: Ctx, x: Tree, s: seq<Ptr>)
    requires Short(law, Over(inner, o), x, s)
    ensures AllSided(aug, inner, x)
    decreases inner
  {
    if !inner.Top? && IsBlack(x) {
      var c := Over(inner, o);
      EraseSibling(law, c, x, s);
      OverStep(inner, o, x);
      if AllBlack(Sib(inner)) {
        EraseCase2(law, c, x, s);
        ShortSided(aug, law, inner.up, o, UpTree(RedSib(inner), x), s);
      }
    }
  }

  lemma {:induction false} ArrivesShort(aug: Aug, law: Aug, inner: Ctx, o: Ctx, x: Tree, s: seq<Ptr>)
    requires Short(law, Over(inner, o), x, s) && Arrives(inner, x) && !o.Top?
    ensures Sided(aug, o, Arrival(inner, x)) && IsBlack(Arrival(inner, x))
    decreases inner
  {
    var c := Over(inner, o);
    if inner.Top? {
      EraseSibling(law, o, x, s);
    } else {
      OverStep(inner, o, x);
      EraseCase2(law, c, x, s);
      ArrivesShort(aug, law, inner.up, o, UpTree(RedSib(inner), x), s);
    }
  }

  // ------------------------------------------------- the slot

  /** The order of the parent's subtree with s in place of one of its children. */
  ghost function Around(c: Ctx, s: seq<Ptr>): seq<Ptr>
    requires !c.Top?
  {
    if c.InL? then s + [c.n] + InOrder(c.r) else InOrder(c.l) + [c.n] + s
  }

  /** Above the slot all is right exactly if nothing is above it, or the parent's aggregate is to stay what it was. */
  lemma ParentExact(aug: Aug, c: Ctx, t: Tree, g: Tree)
    requires aug.Aug? && Lawful(aug) && AggSound(aug, t) && CtxAggSound(aug, c, t) && AggSound(aug, g)
    ensures CtxAggSound(aug, c, g) <==>
      c.Top? || Fold(aug, Around(c, InOrder(g))) == Fold(aug, Around(c, InOrder(t)))
  {
    if !c.Top? {
      var u, v := UpTree(c, t), Refreshed(aug, UpTree(c, g));
      AggIsFold(aug, u);
      AggIsFold(aug, v);
      assert InOrder(u) == Around(c, InOrder(t)) && InOrder(v) == Around(c, InOrder(g));
      if c.agg == v.agg { CtxAggFrame(aug, c.up, u, UpTree(c, g)); }
    }
  }

  /** Taking the root of t out of it does not change the aggregate of the parent, if there is one. */
  ghost predicate ParentSame(aug: Aug, c: Ctx, t: Tree)
    requires aug.Aug? && t.Bin?
  {
    c.Top? || Fold(aug, Around(c, InOrder(t.l) + InOrder(t.r))) == Fold(aug, Around(c, InOrder(t)))
  }

  /** The successor's slot, holding the aggregate of the erased node t, over x. */
  ghost predicate Slot(aug: Aug, c: Ctx, t: Tree, y: Ptr, x: Tree) {
    ( && aug.Aug? && Lawful(aug) && t.Bin? && t.l.Bin? && AggSound(aug, t) && CtxAggSound(aug, c, t)
      && AggSound(aug, x) && InOrder(t.r) == [y] + InOrder(x)
      && t.agg != Recalc(aug, t.l, y, t.agg, x)) == true
  }

  /** Where the fix-up arrives at it and finds all black, it stays wrong. */
  lemma SlotPassed(aug: Aug, c: Ctx, t: Tree, y: Ptr, x: Tree)
    requires Slot(aug, c, t, y, x) && AllBlack(t.l) && IsBlack(x)
    ensures !AggSound(aug, FixUp(aug, InR(t.l, y, t.black, t.agg, c), x))
  {
    var o := InR(t.l, y, t.black, t.agg, c);
    var u := UpTree(RedSib(o), x);
    var e, v := Stays(aug, c, u);
    PlugAgg(aug, e, v);
    assert !AggSound(aug, v);
  }

  /** Where it turns there, the slot is recomputed, and all is right if the parent's aggregate is. */
  lemma SlotTurned(aug: Aug, c: Ctx, t: Tree, y: Ptr, x: Tree)
    requires Slot(aug, c, t, y, x) && !AllBlack(t.l) && IsBlack(x)
    requires Sided(aug, InR(t.l, y, t.black, t.agg, c), x)
    ensures AggSound(aug, FixUp(aug, InR(t.l, y, t.black, t.agg, c), x)) <==> ParentSame(aug, c, t)
  {
    var o := InR(t.l, y, t.black, t.agg, c);
    var g := Done(aug, Alone(o), x);
    DoneSound(aug, Alone(o), x);
    assert InOrder(g) == InOrder(t.l) + [y] + InOrder(x) == InOrder(t.l) + InOrder(t.r);
    PlugAgg(aug, c, g);
    ParentExact(aug, c, t, g);
  }

  /** Where it ends before, the slot stays wrong. */
  lemma SlotMissed(aug: Aug, c: Ctx, t: Tree, y: Ptr, x: Tree)
    requires Slot(aug, c, t, y, x)
    ensures !AggSound(aug, Plug(InR(t.l, y, t.black, t.agg, c), x))
  {
    PlugAgg(aug, InR(t.l, y, t.black, t.agg, c), x);
  }

  // ------------------------------------------------- the whole erase

  /** The way from the successor's old place up the left edge of s is all black. */
  ghost predicate Climbs(s: Tree) {
    s.Bin? && if s.l.Nil? then IsBlack(s.r) else s.black && AllBlack(s.r) && Climbs(s.l)
  }

  ghost predicate PathBlack(inner: Ctx) { inner.Top? || (inner.black && AllBlack(Sib(inner)) && PathBlack(inner.up)) }

  lemma {:induction false} ArrivesIs(inner: Ctx, x: Tree)
    ensures Arrives(inner, x) <==> IsBlack(x) && PathBlack(inner)
    decreases inner
  {
    if !inner.Top? && Sib(inner).Bin? { ArrivesIs(inner.up, UpTree(RedSib(inner), x)); }
  }

  lemma {:induction false} ClimbsIs(inner: Ctx, u: Tree)
    requires AllLeft(inner) && u.Bin?
    ensures Climbs(Plug(inner, u)) <==> Climbs(u) && PathBlack(inner)
    decreases inner
  {
    if !inner.Top? { ClimbsIs(inner.up, UpTree(inner, u)); }
  }

  lemma {:induction false} PathSame(c: Ctx, d: Ctx)
    requires SameButAgg(c, d)
    ensures PathBlack(c) <==> PathBlack(d)
    decreases c
  {
    if !c.Top? { PathSame(c.up, d.up); }
  }

  /** The fix-up turns at the slot, and nothing above it was to change. */
  ghost predicate Repairs(aug: Aug, c: Ctx, t: Tree)
    requires aug.Aug? && t.Bin?
  {
    Climbs(t.r) && !AllBlack(t.l) && ParentSame(aug, c, t)
  }

  /** The state of a two-child erase after its first walk. */
  ghost predicate Far(aug: Aug, c: Ctx, t: Tree, d: Ctx, u: Tree) {
    exists inner, y :: Scene(aug, c, t, inner, y) && d == Moved(c, t, inner, y.n) && u == y.r
  }

  lemma StaleSlot(aug: Aug, c: Ctx, t: Tree, inner: Ctx, y: Tree, r: Tree)
    requires Scene(aug, c, t, inner, y) && Stale(aug, t) && AggSound(aug, r)
    requires InOrder(r) == Whole(FreshCtx(aug, inner, y.r), y.r)
    ensures Slot(aug, c, t, y.n, r)
  {
    var f := FreshCtx(aug, inner, y.r);
    StaleIs(aug, c, t, inner, y);
    RenewedFold(aug, c, t, inner, y);
    WholeIsPlug(f, y.r);
    SameAgg(aug, Renewed(aug, inner, y.r), r);
  }

  lemma StaleWalk(aug: Aug, c: Ctx, t: Tree, inner: Ctx, y: Tree)
    requires Scene(aug, c, t, inner, y) && Stale(aug, t)
    ensures
      var f := FreshCtx(aug, inner, y.r);
      && Walked(aug, Moved(c, t, inner, y.n), y.r) == Over(f, InR(t.l, y.n, t.black, t.agg, c))
      && CtxAggSound(aug, f, y.r) && AggSound(aug, y.r) && SameButAgg(inner, f)
  {
    StaleIs(aug, c, t, inner, y);
    StopInner(aug, inner, InR(t.l, y.n, t.black, t.agg, c), y, y.r);
    FreshCtxSound(aug, inner, y.r);
    FreshSame(aug, inner, y.r);
  }

  /** A stale slot is repaired by the fix-up exactly if it turns there and nothing above was to change. */
  lemma RepairExact(aug: Aug, c: Ctx, t: Tree, d: Ctx, u: Tree, s: seq<Ptr>)
    requires aug.Aug? && t.Bin? && Stale(aug, t) && Far(aug, c, t, d, u)
    requires Short(NoAug, Walked(aug, d, u), u, s)
    ensures AggSound(aug, FixUp(aug, Walked(aug, d, u), u)) <==> Repairs(aug, c, t)
  {
    var inner, y :| Scene(aug, c, t, inner, y) && d == Moved(c, t, inner, y.n) && u == y.r;
    var f, o := FreshCtx(aug, inner, u), InR(t.l, y.n, t.black, t.agg, c);
    StaleWalk(aug, c, t, inner, y);
    ShortSided(aug, NoAug, f, o, u, s);
    var r := Inner(aug, f, o, u);
    StaleSlot(aug, c, t, inner, y, r);
    ArrivesIs(f, u);
    PathSame(inner, f);
    ClimbsIs(inner, y);
    if Arrives(f, u) {
      if AllBlack(t.l) {
        SlotPassed(aug, c, t, y.n, r);
      } else {
        ArrivesShort(aug, NoAug, f, o, u, s);
        SlotTurned(aug, c, t, y.n, r);
      }
    } else {
      SlotMissed(aug, c, t, y.n, r);
    }
  }

  // ------------------------------------------------- an input

  function Leaf(n: Ptr, v: int): Tree { Bin(Nil, n, true, Some(v), Nil) }

  /** Nine nodes: 4, the successor of the root, is black, its sibling 9 and its parent 3 too, and 5, on the other side,
      is red. */
  function TurningTree(): Tree {
    Bin(Bin(Bin(Leaf(6, 5), 5, false, Some(5), Leaf(7, 5)), 2, true, Some(5), Leaf(8, 5)), 1, true, Some(1),
        Bin(Leaf(4, 7), 3, true, Some(5), Leaf(9, 5)))
  }

  lemma LeafSound(n: Ptr, v: int)
    requires Sample(n) == Some(v)
    ensures AggSound(Minimum(Sample), Leaf(n, v)) && InOrder(Leaf(n, v)) == [n]
    ensures Sound(Leaf(n, v)) && BH(Leaf(n, v)) == 1
  {
    var t := Leaf(n, v);
    assert Recalc(Minimum(Sample), Nil, n, t.agg, Nil) == Least(Least(None, Sample(n)), None);
  }

  lemma TurningLeft()
    ensures
      var l, aug := TurningTree().l, Minimum(Sample);
      Sound(l) && BH(l) == 2 && AggSound(aug, l) && AggOf(aug, l) == Some(5) && !AllBlack(l)
  {
    var l, aug := TurningTree().l, Minimum(Sample);
    LeafSound(6, 5);
    LeafSound(7, 5);
    LeafSound(8, 5);
    assert AggSound(aug, l.l) && Sound(l.l) && BH(l.l) == 1;
  }

  lemma TurningRight()
    ensures
      var r, aug := TurningTree().r, Minimum(Sample);
      && Sound(r) && BH(r) == 2 && AggSound(aug, r) && Climbs(r) && FirstBlack(r)
      && InOrder(r) == [4, 3, 9] && Fold(aug, [4, 3, 9]) == Fold(aug, [3, 9]) == Some(5)
  {
    var r, aug := TurningTree().r, Minimum(Sample);
    LeafSound(4, 7);
    LeafSound(9, 5);
    assert AggSound(aug, r);
    LeastLawful(Sample);
    AggIsFold(aug, r);
    var q := Bin(Nil, 3, true, Some(5), Leaf(9, 5));
    assert AggSound(aug, q) && InOrder(q) == [3, 9];
    AggIsFold(aug, q);
  }

  /** Erasing its root leaves the slot stale after the first walk, and the fix-up turns there. */
  lemma TurningRepairs()
    ensures
      var t, aug := TurningTree(), Minimum(Sample);
      RedBlack(t) && AggSound(aug, t) && Stale(aug, t) && FirstBlack(t.r) && Repairs(aug, Top, t)
  {
    var t, aug := TurningTree(), Minimum(Sample);
    TurningLeft();
    TurningRight();
    LeastLawful(Sample);
    AggIsFold(aug, t);
    AggIsFold(aug, t.l);
    FoldConcat(aug, InOrder(t.l), InOrder(t.r));
    assert [4, 3, 9][1..] == [3, 9];
  }
}
