/** What the pointer code of rbtree.c finds when it reads around a node of a tree that memory holds. */
module RbRead {
  import opened RbShape
  import opened RbMem

  /** What the code reads above a node. */
  lemma ReadAbove(m: Mem, c: Ctx, t: Tree)
    requires Rep(m, c, t) && t.Bin?
    ensures 0 < t.n < |m.cells| && m.cells[t.n].parent == CtxNode(c)
    ensures !c.Top? ==> 0 < c.n < |m.cells| && m.cells[c.n] == CtxCell(c, t.n)
  {
  }

  /** What the code reads below a node. */
  lemma ReadBelow(m: Mem, c: Ctx, t: Tree)
    requires Rep(m, c, t) && t.Bin?
    ensures 0 < t.n < |m.cells| && m.cells[t.n] == Cell(RootOf(t.l), RootOf(t.r), CtxNode(c), t.black, t.agg)
    ensures t.l.Bin? ==> 0 < t.l.n < |m.cells|
    ensures t.r.Bin? ==> 0 < t.r.n < |m.cells|
    ensures CtxNode(c) < |m.cells|
  {
    assert Hold(m.cells, t.l, t.n) && Hold(m.cells, t.r, t.n);
  }

  lemma ReadUncle(m: Mem, c: Ctx, t: Tree)
    requires Rep(m, c, t) && t.Bin? && !c.Top? && !c.up.Top?
    ensures 0 < c.n < |m.cells| && 0 < c.up.n < |m.cells| && m.cells[c.up.n] == CtxCell(c.up, c.n)
    ensures
      var u := Sib(c.up);
      if u.Nil? then RootOf(u) == NULL else 0 < u.n < |m.cells| && m.cells[u.n].black == u.black
    ensures RootOf(Sib(c.up)) != c.n
  {
    assert CtxHold(m.cells, c.up, c.n);
    var u := Sib(c.up);
    assert u.Bin? ==> u.n in Nodes(u);
  }

  /** The path to the sibling of the subtree at hand. */
  ghost function Across(c: Ctx, t: Tree): Ctx
    requires !c.Top?
  {
    if c.InL? then InR(t, c.n, c.black, c.agg, c.up) else InL(c.up, c.n, c.black, c.agg, t)
  }

  lemma RepAcross(m: Mem, c: Ctx, t: Tree)
    requires !c.Top?
    ensures Rep(m, c, t) <==> Rep(m, Across(c, t), Sib(c))
    ensures UpTree(Across(c, t), Sib(c)) == UpTree(c, t) && AllNodes(Across(c, t), Sib(c)) == AllNodes(c, t)
  {
    RepUp(m, c, t);
    RepUp(m, Across(c, t), Sib(c));
  }

  /** What the code reads around a short subtree, possibly absent. */
  lemma ReadBeside(m: Mem, c: Ctx, t: Tree)
    requires Rep(m, c, t)
    ensures !c.Top? ==> 0 < c.n < |m.cells| && m.cells[c.n] == CtxCell(c, RootOf(t))
    ensures t.Bin? ==> 0 < t.n < |m.cells| && m.cells[t.n].black == t.black
    ensures !c.Top? && Sib(c).Bin? ==> RootOf(t) != Sib(c).n
  {
    assert t.Bin? ==> t.n in Nodes(t);
    assert !c.Top? && Sib(c).Bin? ==> Sib(c).n in Nodes(Sib(c));
  }

  lemma ReadSibling(m: Mem, c: Ctx, t: Tree)
    requires Rep(m, c, t) && !c.Top? && Sib(c).Bin?
    ensures 0 < c.n < |m.cells| && m.cells[c.n] == CtxCell(c, RootOf(t))
    ensures
      var w := Sib(c);
      && 0 < w.n < |m.cells| && m.cells[w.n].black == w.black
      && m.cells[w.n].left == RootOf(w.l) && m.cells[w.n].right == RootOf(w.r)
      && RootOf(w.l) < |m.cells| && RootOf(w.r) < |m.cells|
      && (w.l.Bin? ==> RootOf(w.l) != NULL && m.cells[RootOf(w.l)].black == w.l.black)
      && (w.r.Bin? ==> RootOf(w.r) != NULL && m.cells[RootOf(w.r)].black == w.r.black)
  {
    var w := Sib(c);
    assert Hold(m.cells, w, c.n);
    assert Hold(m.cells, w.l, w.n) && Hold(m.cells, w.r, w.n);
  }

  /** The root pointer names the subtree at hand only when nothing is above it. */
  lemma {:induction false} TopApart(m: Mem, c: Ctx, t: Tree)
    requires Rep(m, c, t)
    ensures m.root == RootOf(t) <==> c.Top?
    decreases c
  {
    if !c.Top? {
      RepUp(m, c, t);
      TopIn(c, RootOf(t), m.cells);
      assert t.Bin? ==> t.n in Nodes(t);
    }
  }

  lemma {:induction false} TopIn(c: Ctx, hole: Ptr, m: seq<Cell>)
    requires !c.Top? && CtxHold(m, c, hole)
    ensures TopOf(c, hole) in CtxNodes(c) && 0 < TopOf(c, hole)
    decreases c
  {
    if !c.up.Top? { TopIn(c.up, c.n, m); }
  }

  lemma SuccessorParent(m: Mem, inner: Ctx, o: Ctx, y: Tree)
    requires Rep(m, Over(inner, o), y) && !o.Top?
    ensures CtxNode(Over(inner, o)) == o.n <==> inner.Top?
  {
    if !inner.Top? { OverHas(inner.up, o); }
  }

  lemma {:induction false} PlugBin(c: Ctx, t: Tree)
    requires !c.Top?
    ensures Plug(c, t).Bin?
    decreases c
  {
    if !c.up.Top? { PlugBin(c.up, UpTree(c, t)); }
  }

  /** Which node stands at the top of a path does not depend on what fills its hole. */
  lemma {:induction false} PlugRoot(c: Ctx, t: Tree, u: Tree)
    requires !c.Top?
    ensures RootOf(Plug(c, t)) == RootOf(Plug(c, u))
    decreases c
  {
    if !c.up.Top? { PlugRoot(c.up, UpTree(c, t), UpTree(c, u)); }
  }

  /** Every node of a tree is above one of its subtrees, possibly an absent one. */
  lemma BelowNode(t: Tree, n: Ptr) returns (d: Ctx, u: Tree)
    requires n in InOrder(t)
    ensures Plug(d, u) == t && CtxNode(d) == n
  {
    NodesInOrder(t, n);
    var d0, v := FindNode(Top, t, n);
    d, u := InL(d0, v.n, v.black, v.agg, v.r), v.l;
  }

  /** Once spliced out, the successor is nowhere in the tree. */
  lemma SuccessorApart(c: Ctx, t: Tree, inner: Ctx, y: Tree)
    requires Apart(c, t) && t.Bin? && Plug(inner, y) == t.r && y.Bin?
    requires Apart(Over(inner, InR(t.l, t.n, t.black, t.agg, c)), y)
    ensures y.n !in AllNodes(c, t.(r := Plug(inner, y.r)))
  {
    var o := InR(t.l, t.n, t.black, t.agg, c);
    var d := Over(inner, o);
    OverPlug(inner, o, y.r);
    RepPlug(Mem(0, []), d, y.r);
    RepPlug(Mem(0, []), c, t.(r := Plug(inner, y.r)));
    assert Plug(d, y.r) == Plug(c, t.(r := Plug(inner, y.r)));
  }

  /** The node above a subtree is one of the tree's. */
  lemma AboveListed(c: Ctx, t: Tree)
    ensures !c.Top? ==> c.n in Whole(c, t)
  {
    if !c.Top? { WholeUp(c, t); }
  }

  ghost function FirstOf(s: seq<Ptr>): Ptr { if s == [] then NULL else s[0] }

  /** The child pointer above a subtree tells on which side it hangs. */
  lemma BesideApart(c: Ctx, t: Tree)
    requires Apart(c, t) && t.Bin? && t.n != NULL && !c.Top?
    ensures t.n != RootOf(Sib(c))
  {
    assert t.n in Nodes(t);
    assert Sib(c).Bin? ==> Sib(c).n in Nodes(Sib(c));
  }

  /** The cached minimum is the node itself exactly when nothing comes before it. */
  lemma FirstIsOnce(m: Mem, c: Ctx, t: Tree)
    requires Rep(m, c, t) && t.Bin?
    ensures m.cells[t.n].parent != t.n
    ensures FirstOf(Whole(c, t)) == t.n <==> Before(c) + InOrder(t.l) == []
  {
    assert !c.Top? ==> c.n in CtxNodes(c);
    assert t.n in Nodes(t);
    var p := Before(c) + InOrder(t.l);
    assert Whole(c, t) == p + [t.n] + (InOrder(t.r) + After(c));
    if p != [] {
      if p[0] in Before(c) { BeforeListed(c, p[0]); } else { NodesInOrder(t.l, p[0]); }
    }
  }

  lemma {:induction false} BeforeListed(c: Ctx, n: Ptr)
    requires n in Before(c)
    ensures n in CtxNodes(c)
    decreases c
  {
    if c.InR? && n !in Before(c.up) { NodesInOrder(c.l, n); }
    else { BeforeListed(c.up, n); }
  }

  lemma NodeOnOneSide(p: Tree)
    requires p.Bin? && Distinct(p)
    ensures p.l.Bin? && p.r.Bin? ==> p.l.n != p.r.n
  {
    assert p.l.Bin? ==> p.l.n in Nodes(p.l);
    assert p.r.Bin? ==> p.r.n in Nodes(p.r);
  }

  /** The walk to the left has come from t to u, whose root is n. */
  ghost predicate Leftmost(m: Mem, c: Ctx, t: Tree, inner: Ctx, u: Tree, n: Ptr) {
    ( && AllLeft(inner) && Plug(inner, u) == t && u.Bin? && u.n == n && Rep(m, Over(inner, c), u)
      && n < |m.cells| && m.cells[n].left == RootOf(u.l) && (u.l.Bin? ==> u.l.n != NULL)) == true
  }

  lemma StartLeft(m: Mem, c: Ctx, t: Tree)
    requires Rep(m, c, t) && t.Bin?
    ensures Leftmost(m, c, t, Top, t, t.n)
  {
    ReadBelow(m, c, t);
  }

  lemma EndLeft(m: Mem, c: Ctx, t: Tree, inner: Ctx, u: Tree, n: Ptr)
    requires Leftmost(m, c, t, inner, u, n) && m.cells[n].left == NULL
    ensures AllLeft(inner) && Plug(inner, u) == t && u.Bin? && u.l.Nil? && u.n == n
    ensures InOrder(t) != [] && n == InOrder(t)[0]
  {
    OverOrder(inner, Top);
    WholeIsPlug(inner, u);
    assert InOrder(u) == [n] + InOrder(u.r);
  }

  lemma StepLeft(m: Mem, c: Ctx, t: Tree, inner: Ctx, u: Tree, n: Ptr)
    requires Leftmost(m, c, t, inner, u, n) && m.cells[n].left != NULL
    ensures u.l.Bin? && Leftmost(m, c, t, InL(inner, u.n, u.black, u.agg, u.r), u.l, m.cells[n].left)
  {
    RepUp(m, InL(Over(inner, c), u.n, u.black, u.agg, u.r), u.l);
    ReadBelow(m, Over(InL(inner, u.n, u.black, u.agg, u.r), c), u.l);
  }
}
