/** kernel/lib/rbtree.c: what the erase fix-up does to the aggregate of one node, in a tree whose other aggregates may
    be wrong. */
module RbLocal {
  import opened RbShape
  import opened RbMem
  import opened RbFixup

  /** Where n stands in t, its aggregate is what the callback computes from its children's. */
  ghost predicate LocalAt(aug: Aug, t: Tree, n: Ptr) {
    t.Bin? ==>
      && LocalAt(aug, t.l, n) && LocalAt(aug, t.r, n)
      && (t.n == n ==> t.agg == Recalc(aug, t.l, t.n, t.agg, t.r))
  }

  lemma {:induction false} LocalNone(aug: Aug, t: Tree, n: Ptr)
    requires n !in Nodes(t)
    ensures LocalAt(aug, t, n)
  {
    if t.Bin? {
      LocalNone(aug, t.l, n);
      LocalNone(aug, t.r, n);
    }
  }

  lemma {:induction false} LocalPlug(aug: Aug, c: Ctx, t: Tree, n: Ptr)
    requires LocalAt(aug, t, n) && n !in CtxNodes(c)
    ensures LocalAt(aug, Plug(c, t), n)
    decreases c
  {
    if !c.Top? {
      LocalNone(aug, Sib(c), n);
      LocalPlug(aug, c.up, UpTree(c, t), n);
    }
  }

  /** The fix-up has come to t: n is in it, or above it, and its aggregate is right for its children's. */
  ghost predicate Minds(aug: Aug, c: Ctx, t: Tree, n: Ptr) {
    || (n in Nodes(t) && LocalAt(aug, t, n))
    || (!c.Top? && n == c.n && c.agg == Recalc(aug, UpTree(c, t).l, c.n, c.agg, UpTree(c, t).r))
  }

  lemma MindsUp(aug: Aug, c: Ctx, t: Tree, n: Ptr)
    requires Minds(aug, c, t, n) && Apart(c, t) && !c.Top?
    ensures n in Nodes(UpTree(c, t)) && LocalAt(aug, UpTree(c, t), n) && n !in CtxNodes(c.up)
  {
    LocalNone(aug, Sib(c), n);
    if n !in Nodes(t) { LocalNone(aug, t, n); }
    ApartUp(c, t);
  }

  /** Case 2. */
  lemma MindsCase2(aug: Aug, c: Ctx, t: Tree, n: Ptr)
    requires Minds(aug, c, t, n) && Apart(c, t) && !c.Top? && Sib(c).Bin?
    ensures Minds(aug, c.up, UpTree(RedSib(c), t), n)
  {
    MindsUp(aug, c, t, n);
    LocalNone(aug, Sib(RedSib(c)), n);
  }

  /** Case 1. */
  lemma MindsCase1(aug: Aug, c: Ctx, t: Tree, n: Ptr)
    requires Minds(aug, c, t, n)
    ensures c.InL? && c.r.Bin? ==> Minds(aug, RedSibLeft(aug, c, t), t, n)
    ensures c.InR? && c.l.Bin? ==> Minds(aug, RedSibRight(aug, c, t), t, n)
  {
  }

  /** Case 4, whatever case 3 made of the sibling. */
  lemma MindsEndLeft(aug: Aug, c0: Ctx, c: Ctx, t: Tree, n: Ptr)
    requires Minds(aug, c0, t, n) && Apart(c, t) && c.InL? && c.r.Bin? && !c0.Top? && c.n == c0.n && c.up == c0.up
    ensures LocalAt(aug, Plug(c.up, AugRotL(aug, Borrowed(c, t))), n)
  {
    var f := AugRotL(aug, Borrowed(c, t));
    LocalNone(aug, c.r.l, n);
    LocalNone(aug, Black(c.r.r), n);
    if n !in Nodes(t) { LocalNone(aug, t, n); }
    assert LocalAt(aug, f.l, n);
    LocalPlug(aug, c.up, f, n);
  }

  lemma MindsEndRight(aug: Aug, c0: Ctx, c: Ctx, t: Tree, n: Ptr)
    requires Minds(aug, c0, t, n) && Apart(c, t) && c.InR? && c.l.Bin? && !c0.Top? && c.n == c0.n && c.up == c0.up
    ensures LocalAt(aug, Plug(c.up, AugRotR(aug, Borrowed(c, t))), n)
  {
    var f := AugRotR(aug, Borrowed(c, t));
    LocalNone(aug, c.l.r, n);
    LocalNone(aug, Black(c.l.l), n);
    if n !in Nodes(t) { LocalNone(aug, t, n); }
    assert LocalAt(aug, f.r, n);
    LocalPlug(aug, c.up, f, n);
  }

  /** Colours do not matter. */
  lemma LocalBlack(aug: Aug, c: Ctx, t: Tree, n: Ptr)
    ensures LocalAt(aug, t, n) ==> LocalAt(aug, Black(t), n)
    ensures !c.Top? && LocalAt(aug, UpTree(c, t), n) ==> LocalAt(aug, UpTree(c, Black(t)), n)
  {
    if t.Bin? {
      var b := Black(t);
      assert b.l == t.l && b.r == t.r && b.n == t.n && b.agg == t.agg;
    }
    if !c.Top? {
      var u, v := UpTree(c, t), UpTree(c, Black(t));
      assert u.n == v.n && u.agg == v.agg;
      assert Recalc(aug, u.l, u.n, u.agg, u.r) == Recalc(aug, v.l, v.n, v.agg, v.r);
    }
  }

  /** The end of the loop, and its last store. */
  lemma MindsStop(aug: Aug, c: Ctx, t: Tree, n: Ptr)
    requires Minds(aug, c, t, n) && Apart(c, t)
    ensures LocalAt(aug, Plug(c, Black(t)), n)
  {
    LocalBlack(aug, c, t, n);
    if !c.Top? {
      MindsUp(aug, c, t, n);
      LocalPlug(aug, c.up, UpTree(c, Black(t)), n);
    }
  }

  /** After a walk, the node it started at is right for its children's aggregates. */
  lemma WalkMinds(aug: Aug, d: Ctx, u: Tree)
    requires Walked(aug, d, u) == d && !d.Top?
    ensures Minds(aug, d, u, d.n)
  {
  }

  lemma WalkLocal(aug: Aug, d: Ctx, u: Tree)
    requires Walked(aug, d, u) == d && Apart(d, u)
    ensures !d.Top? ==> LocalAt(aug, Plug(d, u), d.n)
  {
    if !d.Top? {
      WalkMinds(aug, d, u);
      MindsUp(aug, d, u, d.n);
      LocalPlug(aug, d.up, UpTree(d, u), d.n);
    }
  }

  lemma {:induction false} LocalUnplug(aug: Aug, d: Ctx, u: Tree, n: Ptr)
    requires LocalAt(aug, Plug(d, u), n)
    ensures LocalAt(aug, u, n) && (!d.Top? ==> LocalAt(aug, UpTree(d, u), n))
    decreases d
  {
    if !d.Top? { LocalUnplug(aug, d.up, UpTree(d, u), n); }
  }

  /** A walk from a node that is right for its children's aggregates changes nothing, if it stops early. */
  lemma SecondWalk(aug: Aug, d: Ctx, u: Tree)
    requires aug.Aug? && aug.early && !d.Top? && LocalAt(aug, Plug(d, u), d.n)
    ensures Walked(aug, d, u) == d
  {
    LocalUnplug(aug, d, u, d.n);
  }

  // ------------------------------------------------- the loop

  /** From (c0, t0) the fix-up has come to (c, t), or, when it is done, to the whole tree t: every node that was minded
      is. */
  ghost predicate Carries(aug: Aug, c0: Ctx, t0: Tree, c: Ctx, t: Tree, done: bool) {
    (forall n :: Minds(aug, c0, t0, n) ==> if done then LocalAt(aug, t, n) else Minds(aug, c, t, n)) == true
  }

  lemma CarriesSelf(aug: Aug, c: Ctx, t: Tree)
    ensures Carries(aug, c, t, c, t, false)
  {
  }

  lemma CarriesThen(aug: Aug, c0: Ctx, t0: Tree, c1: Ctx, t1: Tree, c2: Ctx, t2: Tree, done: bool)
    requires Carries(aug, c0, t0, c1, t1, false) && Carries(aug, c1, t1, c2, t2, done)
    ensures Carries(aug, c0, t0, c2, t2, done)
  {
  }

  lemma CarriesCase1(aug: Aug, c: Ctx, t: Tree)
    ensures c.InL? && c.r.Bin? ==> Carries(aug, c, t, RedSibLeft(aug, c, t), t, false)
    ensures c.InR? && c.l.Bin? ==> Carries(aug, c, t, RedSibRight(aug, c, t), t, false)
  {
    forall n | Minds(aug, c, t, n)
      ensures c.InL? && c.r.Bin? ==> Minds(aug, RedSibLeft(aug, c, t), t, n)
      ensures c.InR? && c.l.Bin? ==> Minds(aug, RedSibRight(aug, c, t), t, n)
    {
      MindsCase1(aug, c, t, n);
    }
  }

  lemma CarriesCase2(aug: Aug, c: Ctx, t: Tree)
    requires Apart(c, t) && !c.Top? && Sib(c).Bin?
    ensures Carries(aug, c, t, c.up, UpTree(RedSib(c), t), false)
  {
    forall n | Minds(aug, c, t, n) ensures Minds(aug, c.up, UpTree(RedSib(c), t), n) { MindsCase2(aug, c, t, n); }
  }

  lemma CarriesEndLeft(aug: Aug, c0: Ctx, c: Ctx, t: Tree)
    requires Apart(c, t) && c.InL? && c.r.Bin? && !c0.Top? && c.n == c0.n && c.up == c0.up
    ensures Carries(aug, c0, t, Top, Plug(c.up, AugRotL(aug, Borrowed(c, t))), true)
  {
    forall n | Minds(aug, c0, t, n) ensures LocalAt(aug, Plug(c.up, AugRotL(aug, Borrowed(c, t))), n) {
      MindsEndLeft(aug, c0, c, t, n);
    }
  }

  lemma CarriesEndRight(aug: Aug, c0: Ctx, c: Ctx, t: Tree)
    requires Apart(c, t) && c.InR? && c.l.Bin? && !c0.Top? && c.n == c0.n && c.up == c0.up
    ensures Carries(aug, c0, t, Top, Plug(c.up, AugRotR(aug, Borrowed(c, t))), true)
  {
    forall n | Minds(aug, c0, t, n) ensures LocalAt(aug, Plug(c.up, AugRotR(aug, Borrowed(c, t))), n) {
      MindsEndRight(aug, c0, c, t, n);
    }
  }

  lemma CarriesStop(aug: Aug, c0: Ctx, t0: Tree, c: Ctx, t: Tree, done: bool)
    requires Carries(aug, c0, t0, c, t, done) && Apart(c, t) && (done ==> c.Top?)
    ensures Carries(aug, c0, t0, Top, Plug(c, Black(t)), true)
  {
    forall n | Minds(aug, c0, t0, n) ensures LocalAt(aug, Plug(c, Black(t)), n) {
      if done {
        LocalBlack(aug, Top, t, n);
      } else {
        MindsStop(aug, c, t, n);
      }
    }
  }
}
