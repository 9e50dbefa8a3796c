/** Propagate callbacks that stop at the first node they leave unchanged, as kernel/lib/rbtree.h allows and as both
    callback sets of the kernel do: when __rb_erase still ends with the right aggregates, and when it does not. */
module RbWalk {
  import opened Bytes
  import opened RbShape
  import opened RbFixup

  // ------------------------------------------------- paths joined end to end

  lemma {:induction false} FreshOver(aug: Aug, inner: Ctx, o: Ctx, x: Tree)
    ensures
      var f := FreshCtx(aug, inner, x);
      FreshCtx(aug, Over(inner, o), x) == Over(f, FreshCtx(aug, o, Plug(f, x)))
    decreases inner
  {
    if !inner.Top? { FreshOver(aug, inner.up, o, Refreshed(aug, UpTree(inner, x))); }
  }

  lemma {:induction false} CtxAggOver(aug: Aug, inner: Ctx, o: Ctx, x: Tree)
    ensures CtxAggSound(aug, Over(inner, o), x) <==> CtxAggSound(aug, inner, x) && CtxAggSound(aug, o, Plug(inner, x))
    decreases inner
  {
    if !inner.Top? { CtxAggOver(aug, inner.up, o, UpTree(inner, x)); }
  }

  /** The aggregate stored at the top of a path does not depend on what fills its hole. */
  lemma {:induction false} PlugTop(c: Ctx, t: Tree, u: Tree)
    requires !c.Top?
    ensures Plug(c, t).Bin? && Plug(c, u).Bin? && Plug(c, t).agg == Plug(c, u).agg
    decreases c
  {
    if !c.up.Top? { PlugTop(c.up, UpTree(c, t), UpTree(c, u)); }
  }

  // ------------------------------------------------- where the walk stops

  /** The subtree that ends where the path does, once every aggregate along the path is right. */
  ghost function Renewed(aug: Aug, inner: Ctx, x: Tree): Tree { Plug(FreshCtx(aug, inner, x), x) }

  /** The walk stops within the path exactly when the aggregate at the top of it stays. */
  lemma {:induction false} StopInner(aug: Aug, inner: Ctx, o: Ctx, was: Tree, x: Tree)
    requires aug.Aug? && CtxAggSound(aug, inner, was)
    ensures
      var f, r := FreshCtx(aug, inner, x), Renewed(aug, inner, x);
      StopCtx(aug, Over(inner, o), x) ==
        if !inner.Top? && AggOf(aug, r) == AggOf(aug, Plug(inner, was)) then Over(f, o) else Over(f, StopCtx(aug, o, r))
    decreases inner
  {
    if !inner.Top? {
      var u := UpTree(inner, x);
      var u' := Refreshed(aug, u);
      if u'.agg == u.agg {
        CtxAggFrame(aug, inner.up, UpTree(inner, was), u);
        FreshCtxIdle(aug, inner.up, u);
        PlugTop(inner, was, x);
      } else {
        StopInner(aug, inner.up, o, UpTree(inner, was), u');
        if !inner.up.Top? { PlugTop(inner.up, UpTree(inner, was), u); }
      }
    }
  }

  // ------------------------------------------------- the successor's slot

  /** Taking the successor out leaves the right child's aggregate as it was, while taking out the erased node changes
      its subtree's: a walk that stops early does not get as far as the slot the successor moved to. */
  ghost predicate Stale(aug: Aug, t: Tree)
    requires t.Bin?
  {
    && aug.Aug? && aug.early && t.l.Bin? && t.r.Bin? && t.r.l.Bin?
    && InOrder(t.r) != []
    && Fold(aug, InOrder(t.r)[1..]) == Fold(aug, InOrder(t.r))
    && Fold(aug, InOrder(t.l) + InOrder(t.r)) != Fold(aug, InOrder(t))
  }

  /** The path to the successor's old slot, with the successor in the erased node's place and aggregate. */
  ghost function Moved(c: Ctx, t: Tree, inner: Ctx, y: Ptr): Ctx
    requires t.Bin?
  {
    Over(inner, InR(t.l, y, t.black, t.agg, c))
  }

  /** A tree with the right aggregates, seen from a node with two children and from its successor y. */
  ghost predicate Scene(aug: Aug, c: Ctx, t: Tree, inner: Ctx, y: Tree) {
    ( && aug.Aug? && Lawful(aug) && t.Bin? && t.l.Bin? && AggSound(aug, t) && CtxAggSound(aug, c, t)
      && AllLeft(inner) && Plug(inner, y) == t.r && y.Bin? && y.l.Nil?
      && AggSound(aug, y) && CtxAggSound(aug, inner, y) && SibsAggSound(aug, inner)) == true
  }

  lemma SceneSet(aug: Aug, c: Ctx, t: Tree, inner: Ctx, y: Tree)
    requires aug.Aug? && Lawful(aug) && AggSound(aug, Plug(c, t)) && t.Bin? && t.l.Bin?
    requires AllLeft(inner) && Plug(inner, y) == t.r && y.Bin? && y.l.Nil?
    ensures Scene(aug, c, t, inner, y)
  {
    PlugAgg(aug, c, t);
    PlugAgg(aug, inner, y);
    CtxAggIsSibs(aug, inner, y);
  }

  /** The right subtree without the successor: its order, and its aggregate as a fold. */
  lemma RenewedOrder(aug: Aug, inner: Ctx, y: Tree)
    requires AllLeft(inner) && y.Bin? && y.l.Nil?
    ensures InOrder(Plug(inner, y)) == [y.n] + InOrder(Renewed(aug, inner, y.r))
  {
    var f := FreshCtx(aug, inner, y.r);
    FreshSame(aug, inner, y.r);
    SameButAggKeeps(inner, f, 0);
    WholeIsPlug(f, y.r);
    WholeIsPlug(inner, y);
    OverOrder(inner, Top);
    assert InOrder(y) == [] + [y.n] + InOrder(y.r);
    FirstOut(InOrder(y.r), After(inner), y.n);
  }

  lemma FirstOut(p: seq<Ptr>, q: seq<Ptr>, n: Ptr)
    ensures [] + ([] + [n] + p) + q == [n] + ([] + p + q)
  {
  }

  lemma RenewedFold(aug: Aug, c: Ctx, t: Tree, inner: Ctx, y: Tree)
    requires Scene(aug, c, t, inner, y)
    ensures var r := Renewed(aug, inner, y.r); AggSound(aug, r) && InOrder(t.r) == [y.n] + InOrder(r)
    ensures AggOf(aug, Renewed(aug, inner, y.r)) == Fold(aug, InOrder(t.r)[1..])
  {
    var f := FreshCtx(aug, inner, y.r);
    FreshCtxSound(aug, inner, y.r);
    PlugAgg(aug, f, y.r);
    AggIsFold(aug, Plug(f, y.r));
    RenewedOrder(aug, inner, y);
    assert ([y.n] + InOrder(Plug(f, y.r)))[1..] == InOrder(Plug(f, y.r));
  }

  /** The walk ends below the slot. */
  ghost predicate StopsBelow(aug: Aug, t: Tree, inner: Ctx, y: Tree)
    requires aug.Aug? && t.Bin? && y.Bin?
  {
    !inner.Top? && AggOf(aug, Renewed(aug, inner, y.r)) == AggOf(aug, t.r)
  }

  /** What the slot took over is what it should hold. */
  ghost predicate SlotRight(aug: Aug, t: Tree, inner: Ctx, y: Tree)
    requires t.Bin? && y.Bin?
  {
    t.agg == Recalc(aug, t.l, y.n, t.agg, Renewed(aug, inner, y.r))
  }

  lemma SlotFold(aug: Aug, c: Ctx, t: Tree, inner: Ctx, y: Tree)
    requires Scene(aug, c, t, inner, y)
    ensures SlotRight(aug, t, inner, y) <==> Fold(aug, InOrder(t)) == Fold(aug, InOrder(t.l) + InOrder(t.r))
  {
    var r := Renewed(aug, inner, y.r);
    RenewedFold(aug, c, t, inner, y);
    AggIsFold(aug, t);
    SlotSum(aug, t.l, y.n, r);
    assert InOrder(t.l) + InOrder(t.r) == InOrder(t.l) + ([y.n] + InOrder(r));
  }

  lemma SlotSum(aug: Aug, l: Tree, y: Ptr, r: Tree)
    requires aug.Aug? && Lawful(aug) && AggSound(aug, l) && AggSound(aug, r)
    ensures aug.op(aug.op(AggOf(aug, l), aug.val(y)), AggOf(aug, r)) == Fold(aug, InOrder(l) + ([y] + InOrder(r)))
  {
    AggIsFold(aug, l);
    AggIsFold(aug, r);
    FoldConcat(aug, InOrder(l), [y] + InOrder(r));
    FoldConcat(aug, [y], InOrder(r));
    assert Fold(aug, [y]) == aug.op(aug.val(y), Fold(aug, [y][1..])) == aug.val(y);
    assert Associates(aug, AggOf(aug, l), aug.val(y), AggOf(aug, r));
  }

  /** Staleness in terms of what the tree stores. */
  lemma StaleIs(aug: Aug, c: Ctx, t: Tree, inner: Ctx, y: Tree)
    requires Scene(aug, c, t, inner, y)
    ensures Stale(aug, t) <==> aug.early && StopsBelow(aug, t, inner, y) && !SlotRight(aug, t, inner, y)
  {
    RenewedFold(aug, c, t, inner, y);
    SlotFold(aug, c, t, inner, y);
    RightSound(aug, t);
    AggIsFold(aug, t.r);
    DeepIs(inner, y);
  }

  lemma RightSound(aug: Aug, t: Tree)
    requires t.Bin? && AggSound(aug, t)
    ensures AggSound(aug, t.r)
  {
  }

  /** The slot's own level: everything above it is right for the aggregate it took over. */
  lemma SlotAbove(aug: Aug, c: Ctx, t: Tree, y: Ptr, r: Tree)
    requires aug.Aug? && t.Bin? && AggSound(aug, t) && CtxAggSound(aug, c, t)
    ensures var o := InR(t.l, y, t.black, t.agg, c);
            && StopCtx(aug, o, r) == FreshCtx(aug, o, r)
            && (CtxAggSound(aug, o, r) <==> t.agg == Recalc(aug, t.l, y, t.agg, r))
  {
    var o := InR(t.l, y, t.black, t.agg, c);
    CtxAggFrame(aug, c, t, UpTree(o, r));
    StopIsFresh(aug, o, r);
  }

  /** A walk to the root gets everything right. */
  lemma FreshAll(aug: Aug, c: Ctx, t: Tree, inner: Ctx, y: Tree)
    requires Scene(aug, c, t, inner, y)
    ensures CtxAggSound(aug, FreshCtx(aug, Moved(c, t, inner, y.n), y.r), y.r)
  {
    var o := InR(t.l, y.n, t.black, t.agg, c);
    CtxAggIsSibs(aug, c, t);
    OverSibs(aug, inner, o);
    FreshCtxSound(aug, Moved(c, t, inner, y.n), y.r);
  }

  lemma StopShort(aug: Aug, c: Ctx, t: Tree, inner: Ctx, y: Tree)
    requires Scene(aug, c, t, inner, y) && StopsBelow(aug, t, inner, y)
    ensures CtxAggSound(aug, StopCtx(aug, Moved(c, t, inner, y.n), y.r), y.r) <==> SlotRight(aug, t, inner, y)
  {
    var o, f := InR(t.l, y.n, t.black, t.agg, c), FreshCtx(aug, inner, y.r);
    StopInner(aug, inner, o, y, y.r);
    SlotAbove(aug, c, t, y.n, Plug(f, y.r));
    FreshCtxSound(aug, inner, y.r);
    CtxAggOver(aug, f, o, y.r);
  }

  lemma StopFar(aug: Aug, c: Ctx, t: Tree, inner: Ctx, y: Tree)
    requires Scene(aug, c, t, inner, y) && !StopsBelow(aug, t, inner, y)
    ensures CtxAggSound(aug, StopCtx(aug, Moved(c, t, inner, y.n), y.r), y.r)
  {
    var o := InR(t.l, y.n, t.black, t.agg, c);
    StopInner(aug, inner, o, y, y.r);
    SlotAbove(aug, c, t, y.n, Renewed(aug, inner, y.r));
    FreshOver(aug, inner, o, y.r);
    FreshAll(aug, c, t, inner, y);
  }

  /** After the first walk of a two-child erase every aggregate is right, unless the slot is stale. */
  lemma WalkExact(aug: Aug, c: Ctx, t: Tree, inner: Ctx, y: Tree)
    requires Scene(aug, c, t, inner, y)
    ensures CtxAggSound(aug, Walked(aug, Moved(c, t, inner, y.n), y.r), y.r) <==> !Stale(aug, t)
  {
    StaleIs(aug, c, t, inner, y);
    if !aug.early {
      FreshAll(aug, c, t, inner, y);
    } else if StopsBelow(aug, t, inner, y) {
      StopShort(aug, c, t, inner, y);
    } else {
      StopFar(aug, c, t, inner, y);
    }
  }

  /** A node with at most one child: the walk, early or not, gets everything right. */
  lemma OneChildWalk(aug: Aug, c: Ctx, t: Tree, child: Tree)
    requires AggSound(aug, Plug(c, t)) && t.Bin? && (t.l.Nil? || t.r.Nil?)
    ensures CtxAggSound(aug, Walked(aug, c, child), child) && !Stale(aug, t)
  {
    PlugAgg(aug, c, t);
    CtxAggIsSibs(aug, c, t);
    FreshCtxSound(aug, c, child);
    if aug.Aug? {
      if !c.Top? { CtxAggFrame(aug, c.up, UpTree(c, t), UpTree(c, child)); }
      StopIsFresh(aug, c, child);
    }
  }

  /** What the first walk of an erase leaves: a tree to repair or a finished one, and which aggregates it can vouch
      for. */
  lemma FirstWalk(aug: Aug, t: Tree, c: Ctx, u: Tree, black: bool, s: seq<Ptr>) returns (law: Aug)
    requires Lawful(aug) && Unlinked(aug, c, u, black, s) && t.Bin?
    requires CtxAggSound(aug, Walked(aug, c, u), u) <==> !Stale(aug, t)
    ensures Keeps(law, aug) && law == if Stale(aug, t) then NoAug else aug
    ensures black ==> Short(law, Walked(aug, c, u), u, s)
    ensures !black ==> Proper(law, Plug(Walked(aug, c, u), u), s)
    ensures AggSound(aug, Plug(Walked(aug, c, u), u)) <==> !Stale(aug, t)
  {
    law := if Stale(aug, t) then NoAug else aug;
    WalkedSame(aug, c, u);
    EraseReady(aug, law, c, Walked(aug, c, u), u, black, s);
    PlugAgg(aug, Walked(aug, c, u), u);
  }

  /** Without callbacks, or from the root's parent, there is no walk. */
  lemma WalkedNowhere(aug: Aug, c: Ctx, t: Tree)
    requires aug.NoAug? || c.Top?
    ensures Walked(aug, c, t) == c
  {
    if aug.NoAug? { FreshCtxIdle(aug, c, t); }
  }

  /** The successor is the right child itself exactly when that has no left child. */
  lemma {:induction false} DeepIs(inner: Ctx, y: Tree)
    requires AllLeft(inner) && y.Bin? && y.l.Nil?
    ensures var r := Plug(inner, y); r.Bin? && (r.l.Bin? <==> !inner.Top?)
    decreases inner
  {
    if !inner.Top? { LeftEdge(inner.up, UpTree(inner, y)); }
  }

  lemma {:induction false} LeftEdge(inner: Ctx, u: Tree)
    requires AllLeft(inner) && u.Bin? && u.l.Bin?
    ensures Plug(inner, u).Bin? && Plug(inner, u).l.Bin?
    decreases inner
  {
    if !inner.Top? { LeftEdge(inner.up, UpTree(inner, u)); }
  }

  /** Whether the first node of a tree, the successor in the right subtree of an erased node, is black. */
  ghost predicate FirstBlack(t: Tree) { t.Bin? && if t.l.Nil? then t.black else FirstBlack(t.l) }

  lemma {:induction false} FirstBlackIs(inner: Ctx, y: Tree)
    requires AllLeft(inner) && y.Bin?
    ensures FirstBlack(Plug(inner, y)) <==> FirstBlack(y)
    decreases inner
  {
    if !inner.Top? { FirstBlackIs(inner.up, UpTree(inner, y)); }
  }

  // ------------------------------------------------- an input

  function Least(x: Val, y: Val): Val {
    if x.None? then y else if y.None? then x else if x.value < y.value then x else y
  }

  /** A subtree minimum with the kernel's own way of propagating it. */
  function Minimum(val: Ptr -> Val): Aug { Aug(Least, None, val, true) }

  /** Four nodes: 1 holds 1, 2 and 3 hold 5, and 4, red and left of 3, holds 7. */
  function Sample(n: Ptr): Val { Some(if n == 1 then 1 else if n == 4 then 7 else 5) }

  lemma LeastLawful(val: Ptr -> Val)
    ensures Lawful(Minimum(val))
  {
    var aug := Minimum(val);
    forall x, y, z ensures Associates(aug, x, y, z) {
      assert Least(Least(x, y), z) == Least(x, Least(y, z));
    }
    forall x ensures aug.op(aug.unit, x) == x && aug.op(x, aug.unit) == x {
      assert Least(None, x) == Least(x, None) == x;
    }
  }

  lemma SampleFolds()
    ensures
      var aug := Minimum(Sample);
      Fold(aug, [3]) == Fold(aug, [4, 3]) == Fold(aug, [2, 4, 3]) == Some(5) && Fold(aug, [2, 1, 4, 3]) == Some(1)
  {
    var aug := Minimum(Sample);
    assert [3][1..] == [] && [4, 3][1..] == [3] && [2, 4, 3][1..] == [4, 3] && [1, 4, 3][1..] == [4, 3];
    assert Fold(aug, [3]) == Some(5);
    assert Fold(aug, [4, 3]) == Some(5);
    assert Fold(aug, [1, 4, 3]) == Some(1);
    assert [2, 1, 4, 3][1..] == [1, 4, 3];
  }

  /** A black root with black children, of which the right one has a red left child. */
  function SampleTree(): Tree {
    Bin(Bin(Nil, 2, true, Some(5), Nil), 1, true, Some(1), Bin(Bin(Nil, 4, false, Some(7), Nil), 3, true, Some(5), Nil))
  }

  lemma SampleSound()
    ensures var t := SampleTree(); RedBlack(t) && AggSound(Minimum(Sample), t) && Stale(Minimum(Sample), t)
  {
    var t := SampleTree();
    assert AggSound(Minimum(Sample), t.r.l) && AggSound(Minimum(Sample), t.r) && AggSound(Minimum(Sample), t.l);
    assert Sound(t.r.l) && Sound(t.r) && Sound(t.l);
    assert InOrder(t.r.l) == [4] && InOrder(t.r) == [4, 3] && InOrder(t.l) == [2];
    assert InOrder(t) == [2, 1, 4, 3] && InOrder(t.l) + InOrder(t.r) == [2, 4, 3] && [4, 3][1..] == [3];
    SampleFolds();
  }

  /** The path once the root is gone: node 4 in its place, with its minimum. */
  function SamplePath(): Ctx { InL(InR(Bin(Nil, 2, true, Some(5), Nil), 4, true, Some(1), Top), 3, true, Some(5), Nil) }

  lemma SampleOrder()
    ensures InOrder(Plug(SamplePath(), Nil)) == [2, 4, 3]
  {
    var d := SamplePath();
    var r := Bin(Nil, 3, true, Some(5), Nil);
    assert Plug(d, Nil) == Plug(d.up, r) == Bin(d.up.l, 4, true, Some(1), r);
    assert InOrder(r) == [3] && InOrder(d.up.l) == [2];
  }

  /** Erasing the root copies its minimum to node 4; both walks start at node 3, which keeps its 5, and end there. */
  lemma StaleMinimum()
    ensures RedBlack(SampleTree()) && AggSound(Minimum(Sample), SampleTree()) && Stale(Minimum(Sample), SampleTree())
    ensures Moved(Top, SampleTree(), InL(Top, 3, true, Some(5), Nil), 4) == SamplePath()
    ensures Walked(Minimum(Sample), SamplePath(), Nil) == SamplePath()
    ensures Fold(Minimum(Sample), InOrder(Plug(SamplePath(), Nil))) == Some(5) != Plug(SamplePath(), Nil).agg
  {
    SampleSound();
    SampleFolds();
    SampleOrder();
    var d := SamplePath();
    assert Plug(d, Nil) == Plug(d.up, Bin(Nil, 3, true, Some(5), Nil));
    assert Moved(Top, SampleTree(), InL(Top, 3, true, Some(5), Nil), 4) == InL(Over(Top, d.up), 3, true, Some(5), Nil);
  }
}
