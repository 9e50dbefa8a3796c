/** The two fix-ups of rbtree.c on trees as values: what each case of the insert and erase loops
    turns the tree into, and why the loops end in a red-black tree with the right contents. */
module RbFixup {
  import opened RbShape
  import opened RbMem
  import opened RbRead

  // ------------------------------------------------- what rotations do to a tree

  ghost function Refreshed(aug: Aug, t: Tree): Tree
    requires t.Bin?
  {
    t.(agg := Recalc(aug, t.l, t.n, t.agg, t.r))
  }

  /** A left rotation followed by the rotate callback: lower node first. */
  ghost function AugRotL(aug: Aug, t: Tree): Tree
    requires t.Bin? && t.r.Bin?
  {
    var u := RotatedLeft(t);
    Refreshed(aug, u.(l := Refreshed(aug, u.l)))
  }

  ghost function AugRotR(aug: Aug, t: Tree): Tree
    requires t.Bin? && t.l.Bin?
  {
    var u := RotatedRight(t);
    Refreshed(aug, u.(r := Refreshed(aug, u.r)))
  }

  lemma FiveParts(a: seq<Ptr>, x: Ptr, b: seq<Ptr>, y: Ptr, c: seq<Ptr>)
    ensures a + [x] + (b + [y] + c) == (a + [x] + b) + [y] + c
  {
  }

  /** What may be relied on about aggregates: that they are aug's, or nothing. */
  ghost predicate Keeps(law: Aug, aug: Aug) { Lawful(law) && (law == aug || law.NoAug?) }

  /** Rotations keep the order and, for an associative operation, every aggregate. */
  lemma AugRotLKeeps(aug: Aug, law: Aug, t: Tree)
    requires t.Bin? && t.r.Bin? && Keeps(law, aug) && AggSound(law, t)
    ensures InOrder(AugRotL(aug, t)) == InOrder(t)
    ensures AggSound(law, AugRotL(aug, t))
    ensures law.Aug? ==> AugRotL(aug, t).agg == t.agg
  {
    AugRotLOrder(aug, t);
    AugRotLAgg(law, t);
  }

  lemma AugRotLOrder(aug: Aug, t: Tree)
    requires t.Bin? && t.r.Bin?
    ensures InOrder(AugRotL(aug, t)) == InOrder(t)
  {
    FiveParts(InOrder(t.l), t.n, InOrder(t.r.l), t.r.n, InOrder(t.r.r));
  }

  lemma AugRotLAgg(aug: Aug, t: Tree)
    requires t.Bin? && t.r.Bin? && Lawful(aug) && AggSound(aug, t)
    ensures AggSound(aug, AugRotL(aug, t))
    ensures aug.Aug? ==> AugRotL(aug, t).agg == t.agg
  {
    assert AggSound(aug, t.r);
    if aug.Aug? { Regrouped(aug, AggOf(aug, t.l), aug.val(t.n), AggOf(aug, t.r.l), aug.val(t.r.n), AggOf(aug, t.r.r)); }
  }

  lemma Regrouped(aug: Aug, a: Val, x: Val, b: Val, y: Val, c: Val)
    requires aug.Aug? && Lawful(aug)
    ensures
      var op := aug.op;
      op(op(a, x), op(op(b, y), c)) == op(op(op(op(a, x), b), y), c)
  {
    var ax := aug.op(a, x);
    assert Associates(aug, ax, aug.op(b, y), c);
    assert Associates(aug, ax, b, y);
  }

  lemma AugRotRKeeps(aug: Aug, law: Aug, t: Tree)
    requires t.Bin? && t.l.Bin? && Keeps(law, aug) && AggSound(law, t)
    ensures InOrder(AugRotR(aug, t)) == InOrder(t)
    ensures AggSound(law, AugRotR(aug, t))
    ensures law.Aug? ==> AugRotR(aug, t).agg == t.agg
  {
    AugRotROrder(aug, t);
    AugRotRAgg(law, t);
  }

  lemma AugRotROrder(aug: Aug, t: Tree)
    requires t.Bin? && t.l.Bin?
    ensures InOrder(AugRotR(aug, t)) == InOrder(t)
  {
    FiveParts(InOrder(t.l.l), t.l.n, InOrder(t.l.r), t.n, InOrder(t.r));
  }

  lemma AugRotRAgg(aug: Aug, t: Tree)
    requires t.Bin? && t.l.Bin? && Lawful(aug) && AggSound(aug, t)
    ensures AggSound(aug, AugRotR(aug, t))
    ensures aug.Aug? ==> AugRotR(aug, t).agg == t.agg
  {
    assert AggSound(aug, t.l);
    if aug.Aug? {
      Regrouped(aug, AggOf(aug, t.l.l), aug.val(t.l.n), AggOf(aug, t.l.r), aug.val(t.n), AggOf(aug, t.r));
    }
  }

  // ------------------------------------------------- insert fix-up, on trees

  ghost function Black(t: Tree): Tree { if t.Nil? then Nil else t.(black := true) }

  /** The loop invariant of __rb_insert: the subtree at hand has a red root, and the edge above it
      is the only one that may join two red nodes. */
  ghost predicate Inserting(aug: Aug, c: Ctx, t: Tree, s: seq<Ptr>) {
    && t.Bin? && !t.black && Sound(t) && CtxSound(c, BH(t))
    && Whole(c, t) == s
    && AggSound(aug, t) && CtxAggSound(aug, c, t)
  }

  /** What every operation ends with. */
  ghost predicate Proper(aug: Aug, t: Tree, s: seq<Ptr>) {
    RedBlack(t) && InOrder(t) == s && AggSound(aug, t)
  }

  /** A turn of the insertion loop leaves a finished tree or a red node further up. */
  ghost predicate Turned(aug: Aug, m: Mem, c: Ctx, t: Tree, s: seq<Ptr>, n: Ptr, done: bool) {
    (if done then Rep(m, Top, t) && Proper(aug, t, s) else Rep(m, c, t) && Inserting(aug, c, t, s) && t.n == n) == true
  }

  lemma InsertStops(aug: Aug, c: Ctx, t: Tree, s: seq<Ptr>)
    requires Inserting(aug, c, t, s)
    ensures c.Top? ==> Proper(aug, Black(t), s)
    ensures CtxBlack(c) ==> Proper(aug, Plug(c, t), s)
  {
    WholeIsPlug(c, t);
    PlugAgg(aug, c, t);
    if CtxBlack(c) { PlugRedBlack(c, t); }
  }

  /** The grandparent's subtree after case 1. */
  ghost function Recoloured(g: Tree): Tree
    requires g.Bin?
  {
    Bin(Black(g.l), g.n, false, g.agg, Black(g.r))
  }

  lemma InsertCase1(aug: Aug, c: Ctx, t: Tree, s: seq<Ptr>)
    requires Inserting(aug, c, t, s) && !c.Top? && !c.black
    requires !IsBlack(Sib(c.up))
    ensures Inserting(aug, c.up.up, Recoloured(UpTree(c.up, UpTree(c, t))), s)
  {
    var p := UpTree(c, t);
    var g := UpTree(c.up, p);
    WholeUp(c, t);
    WholeUp(c.up, p);
    assert CtxSound(c.up, BH(t)) && CtxSound(c.up.up, BH(t) + 1);
    assert CtxAggSound(aug, c.up, p) && CtxAggSound(aug, c.up.up, g);
    assert Sound(Black(p)) && Sound(Black(Sib(c.up)));
    assert AggSound(aug, Black(p)) && AggSound(aug, Black(Sib(c.up)));
    assert InOrder(Black(p)) == InOrder(p) && InOrder(Black(Sib(c.up))) == InOrder(Sib(c.up));
    assert BH(Black(p)) == BH(t) + 1 == BH(Black(Sib(c.up)));
    CtxAggFrame(aug, c.up.up, g, Recoloured(g));
  }

  /** A red node whose outer child is red too: what case 3 straightens with one rotation. */
  ghost predicate OuterRed(p: Tree, outer: Tree, inner: Tree, uncle: Tree) {
    && p.Bin? && !p.black && Sound(outer) && Sound(inner) && Sound(uncle)
    && !IsBlack(outer) && IsBlack(inner) && IsBlack(uncle)
    && BH(outer) == BH(inner) == BH(uncle)
  }

  /** `node` is a red child of the red p, whose sibling is the black uncle. */
  ghost predicate RedChild(p: Tree, node: Ptr, uncle: Tree) {
    || (p.Bin? && p.l.Bin? && node == p.l.n && OuterRed(p, p.l, p.r, uncle))
    || (p.Bin? && p.r.Bin? && node == p.r.n && OuterRed(p, p.r, p.l, uncle))
  }

  /** A subtree that may stand where `g` stood: same order, same aggregate, black height as given. */
  ghost predicate Replaces(aug: Aug, g: Tree, f: Tree, h: nat) {
    && Sound(f) && IsBlack(f) && BH(f) == h && AggSound(aug, f) && InOrder(f) == InOrder(g)
    && (aug.Aug? ==> AggOf(aug, f) == AggOf(aug, g))
  }

  lemma InsertCase3L(aug: Aug, g: Tree)
    requires g.Bin? && Lawful(aug) && AggSound(aug, g) && g.l.Bin? && OuterRed(g.l, g.l.l, g.l.r, g.r)
    ensures Replaces(aug, g, AugRotR(aug, Bin(Black(g.l), g.n, false, g.agg, g.r)), BH(g.r) + 1)
  {
    assert AggSound(aug, Black(g.l)) && InOrder(Black(g.l)) == InOrder(g.l);
    var h := Bin(Black(g.l), g.n, false, g.agg, g.r);
    AugRotRKeeps(aug, aug, h);
    assert InOrder(h) == InOrder(g);
    assert Sound(AugRotR(aug, h).l) && Sound(AugRotR(aug, h).r);
  }

  lemma InsertCase3R(aug: Aug, g: Tree)
    requires g.Bin? && Lawful(aug) && AggSound(aug, g) && g.r.Bin? && OuterRed(g.r, g.r.r, g.r.l, g.l)
    ensures Replaces(aug, g, AugRotL(aug, Bin(g.l, g.n, false, g.agg, Black(g.r))), BH(g.l) + 1)
  {
    assert AggSound(aug, Black(g.r)) && InOrder(Black(g.r)) == InOrder(g.r);
    var h := Bin(g.l, g.n, false, g.agg, Black(g.r));
    AugRotLKeeps(aug, aug, h);
    assert InOrder(h) == InOrder(g);
    assert Sound(AugRotL(aug, h).l) && Sound(AugRotL(aug, h).r);
  }

  /** Case 2 turns an inner red grandchild into an outer one. */
  lemma InsertCase2L(aug: Aug, p: Tree, uncle: Tree)
    requires Lawful(aug) && AggSound(aug, p) && p.Bin? && OuterRed(p, p.r, p.l, uncle) && Sound(p.r)
    ensures var q := AugRotL(aug, p); OuterRed(q, q.l, q.r, uncle)
  {
    assert IsBlack(p.r.l) && IsBlack(p.r.r) && BH(p.r.l) == BH(p.r);
  }

  lemma InsertCase2R(aug: Aug, p: Tree, uncle: Tree)
    requires Lawful(aug) && AggSound(aug, p) && p.Bin? && OuterRed(p, p.l, p.r, uncle) && Sound(p.l)
    ensures var q := AugRotR(aug, p); OuterRed(q, q.r, q.l, uncle)
  {
    assert IsBlack(p.l.l) && IsBlack(p.l.r) && BH(p.l.l) == BH(p.l);
  }

  /** Replacing a subtree by an equal sound one, black or under a black node, ends a walk. */
  lemma ReplaceEnds(law: Aug, c: Ctx, g: Tree, f: Tree, s: seq<Ptr>)
    requires CtxSound(c, BH(f)) && CtxAggSound(law, c, g) && Whole(c, g) == s
    requires Sound(f) && (IsBlack(f) || CtxBlack(c)) && AggSound(law, f) && InOrder(f) == InOrder(g)
    requires law.Aug? ==> AggOf(law, f) == AggOf(law, g)
    ensures Proper(law, Plug(c, f), s)
  {
    CtxAggFrame(law, c, g, f);
    WholeIsPlug(c, f);
    PlugAgg(law, c, f);
    PlugRedBlack(c, f);
  }

  lemma EndTurn(aug: Aug, m: Mem, c: Ctx, g: Tree, f: Tree, s: seq<Ptr>, n: Ptr)
    requires Rep(m, c, f) && CtxSound(c, BH(f)) && CtxAggSound(aug, c, g) && Whole(c, g) == s
    requires Replaces(aug, g, f, BH(f))
    ensures Turned(aug, m, c, Plug(c, f), s, n, true)
  {
    ReplaceEnds(aug, c, g, f, s);
    RepPlug(m, c, f);
  }

  lemma ClimbTurn(aug: Aug, m: Mem, c: Ctx, t: Tree, s: seq<Ptr>)
    requires Inserting(aug, c, t, s) && !c.Top? && !c.black && !IsBlack(Sib(c.up))
    requires Rep(m, c.up.up, Recoloured(UpTree(c.up, UpTree(c, t))))
    ensures Turned(aug, m, c.up.up, Recoloured(UpTree(c.up, UpTree(c, t))), s, c.up.n, false)
  {
    InsertCase1(aug, c, t, s);
  }

  /** Under a red parent: a black grandparent, with the black heights that cases 2 and 3 need. */
  lemma InsertFacts(aug: Aug, c: Ctx, t: Tree, s: seq<Ptr>)
    requires Inserting(aug, c, t, s) && !c.Top? && !c.black
    ensures CtxBlack(c.up)
    ensures
      var p := UpTree(c, t);
      var g := UpTree(c.up, p);
      && AggSound(aug, g) && CtxAggSound(aug, c.up.up, g) && Whole(c.up.up, g) == s
      && CtxSound(c.up.up, BH(Sib(c.up)) + 1)
      && (IsBlack(Sib(c.up)) ==> RedChild(p, t.n, Sib(c.up)))
  {
    var p := UpTree(c, t);
    WholeUp(c, t);
    WholeUp(c.up, p);
    assert CtxSound(c.up, BH(t)) && CtxAggSound(aug, c.up, p);
  }

  /** Under a red parent, from the grandparent: what the code reads there, and what cases 1 to 3 start from. */
  ghost predicate AtGrand(aug: Aug, m: Mem, c: Ctx, t: Tree, s: seq<Ptr>) {
    ( && Inserting(aug, c, t, s) && !c.Top? && !c.up.Top? && !c.black
      && var p, u := UpTree(c, t), Sib(c.up);
      var g := UpTree(c.up, p);
      && Rep(m, c.up.up, g) && AggSound(aug, g) && CtxAggSound(aug, c.up.up, g) && Whole(c.up.up, g) == s
      && CtxSound(c.up.up, BH(u) + 1) && (IsBlack(u) ==> RedChild(p, t.n, u))
      && 0 < c.up.n < |m.cells| && m.cells[c.up.n] == CtxCell(c.up, c.n)
      && (u.Bin? ==> 0 < u.n < |m.cells| && m.cells[u.n].black == u.black)) == true
  }

  lemma ToGrand(aug: Aug, m: Mem, c: Ctx, t: Tree, s: seq<Ptr>)
    requires Rep(m, c, t) && Inserting(aug, c, t, s) && !c.Top? && !c.black
    ensures AtGrand(aug, m, c, t, s)
  {
    InsertFacts(aug, c, t, s);
    ReadUncle(m, c, t);
    assert Rep(m, c.up.up, UpTree(c.up, UpTree(c, t))) by {
      RepUp(m, c, t);
      RepUp(m, c.up, UpTree(c, t));
    }
  }

  // ------------------------------------------------- erase fix-up, on trees

  /** The loop invariant of __rb_erase_fixup: the subtree at hand is one black node short of what
      its surroundings expect.  Its root may be red under a red parent or over red children. */
  ghost predicate Short(law: Aug, c: Ctx, t: Tree, s: seq<Ptr>) {
    && Sound(Black(t)) && CtxSound(c, BH(t) + 1)
    && Whole(c, t) == s
    && AggSound(law, t) && CtxAggSound(law, c, t)
  }

  ghost function Height(c: Ctx): nat { if c.Top? then 0 else 1 + Height(c.up) }

  lemma EraseStops(law: Aug, c: Ctx, t: Tree, s: seq<Ptr>)
    requires Short(law, c, t, s)
    ensures c.Top? || !IsBlack(t) ==> Proper(law, Plug(c, Black(t)), s)
  {
    WholeIsPlug(c, Black(t));
    CtxAggFrame(law, c, t, Black(t));
    PlugAgg(law, c, Black(t));
    if c.Top? || !IsBlack(t) { PlugRedBlack(c, Black(t)); }
  }

  /** A short subtree has a sibling, and a red sibling has black children. */
  lemma EraseSibling(law: Aug, c: Ctx, t: Tree, s: seq<Ptr>)
    requires Short(law, c, t, s) && !c.Top? && IsBlack(t)
    ensures var w := Sib(c); w.Bin? && (!w.black ==> c.black && w.l.Bin? && w.r.Bin? && w.l.black && w.r.black)
  {
  }

  /** Case 1 on the left: the path to the short subtree after rotating a red sibling up. */
  ghost function RedSibLeft(aug: Aug, c: Ctx, t: Tree): Ctx
    requires c.InL? && c.r.Bin?
  {
    var f := AugRotL(aug, Bin(t, c.n, false, c.agg, Black(c.r)));
    InL(InL(c.up, f.n, f.black, f.agg, f.r), f.l.n, f.l.black, f.l.agg, f.l.r)
  }

  lemma EraseCase1L(aug: Aug, law: Aug, c: Ctx, t: Tree, s: seq<Ptr>)
    requires Keeps(law, aug) && Short(law, c, t, s) && IsBlack(t) && c.InL? && !IsBlack(c.r)
    ensures var c' := RedSibLeft(aug, c, t); Short(law, c', t, s) && !c'.black && IsBlack(Sib(c'))
    ensures
      var c' := RedSibLeft(aug, c, t);
      UpTree(c'.up, UpTree(c', t)) == AugRotL(aug, Bin(t, c.n, false, c.agg, Black(c.r)))
  {
    EraseSibling(law, c, t, s);
    var c' := RedSibLeft(aug, c, t);
    var h := Bin(t, c.n, false, c.agg, Black(c.r));
    assert AggSound(law, h);
    AugRotLKeeps(aug, law, h);
    WholeUp(c, t);
    WholeUp(c', t);
    WholeUp(c'.up, UpTree(c', t));
    assert InOrder(h) == InOrder(UpTree(c, t));
    CtxAggFrame(law, c.up, UpTree(c, t), AugRotL(aug, h));
    assert CtxSound(c'.up, BH(t) + 1);
  }

  ghost function RedSibRight(aug: Aug, c: Ctx, t: Tree): Ctx
    requires c.InR? && c.l.Bin?
  {
    var f := AugRotR(aug, Bin(Black(c.l), c.n, false, c.agg, t));
    InR(f.r.l, f.r.n, f.r.black, f.r.agg, InR(f.l, f.n, f.black, f.agg, c.up))
  }

  lemma EraseCase1R(aug: Aug, law: Aug, c: Ctx, t: Tree, s: seq<Ptr>)
    requires Keeps(law, aug) && Short(law, c, t, s) && IsBlack(t) && c.InR? && !IsBlack(c.l)
    ensures var c' := RedSibRight(aug, c, t); Short(law, c', t, s) && !c'.black && IsBlack(Sib(c'))
    ensures
      var c' := RedSibRight(aug, c, t);
      UpTree(c'.up, UpTree(c', t)) == AugRotR(aug, Bin(Black(c.l), c.n, false, c.agg, t))
  {
    EraseSibling(law, c, t, s);
    var c' := RedSibRight(aug, c, t);
    var h := Bin(Black(c.l), c.n, false, c.agg, t);
    assert AggSound(law, h);
    AugRotRKeeps(aug, law, h);
    WholeUp(c, t);
    WholeUp(c', t);
    WholeUp(c'.up, UpTree(c', t));
    assert InOrder(h) == InOrder(UpTree(c, t));
    CtxAggFrame(law, c.up, UpTree(c, t), AugRotR(aug, h));
    assert CtxSound(c'.up, BH(t) + 1);
  }

  /** The sibling, and with it the whole of the parent's subtree, gives up one black node. */
  ghost function RedSib(c: Ctx): Ctx
    requires !c.Top? && Sib(c).Bin?
  {
    if c.InL? then c.(r := c.r.(black := false)) else c.(l := c.l.(black := false))
  }

  lemma EraseCase2(law: Aug, c: Ctx, t: Tree, s: seq<Ptr>)
    requires Short(law, c, t, s) && IsBlack(t) && !c.Top? && Sib(c).Bin? && Sib(c).black
    requires IsBlack(Sib(c).l) && IsBlack(Sib(c).r)
    ensures Short(law, c.up, UpTree(RedSib(c), t), s)
  {
    var u := UpTree(RedSib(c), t);
    WholeUp(c, t);
    assert InOrder(Sib(RedSib(c))) == InOrder(Sib(c));
    CtxAggFrame(law, c.up, UpTree(c, t), u);
    assert AggSound(law, Sib(RedSib(c)));
    assert Sound(Sib(RedSib(c)));
  }

  /** Case 3 turns a red inner child of the sibling into a red outer one. */
  lemma EraseCase3L(aug: Aug, law: Aug, w: Tree)
    requires Keeps(law, aug) && AggSound(law, w) && Sound(w) && w.Bin? && w.black && IsBlack(w.r) && !IsBlack(w.l)
    ensures
      var w' := AugRotR(aug, Bin(Black(w.l), w.n, false, w.agg, w.r));
      Replaces(law, w, w', BH(w)) && w'.black && !IsBlack(w'.r)
  {
    assert AggSound(law, Black(w.l)) && InOrder(Black(w.l)) == InOrder(w.l);
    var h := Bin(Black(w.l), w.n, false, w.agg, w.r);
    AugRotRKeeps(aug, law, h);
    assert InOrder(h) == InOrder(w);
    assert Sound(w.l) && Sound(w.l.l) && Sound(w.l.r) && IsBlack(w.l.r) && BH(w.l.r) == BH(w.l.l) == BH(w.r);
    assert Sound(AugRotR(aug, h).r);
  }

  lemma EraseCase3R(aug: Aug, law: Aug, w: Tree)
    requires Keeps(law, aug) && AggSound(law, w) && Sound(w) && w.Bin? && w.black && IsBlack(w.l) && !IsBlack(w.r)
    ensures
      var w' := AugRotL(aug, Bin(w.l, w.n, false, w.agg, Black(w.r)));
      Replaces(law, w, w', BH(w)) && w'.black && !IsBlack(w'.l)
  {
    assert AggSound(law, Black(w.r)) && InOrder(Black(w.r)) == InOrder(w.r);
    var h := Bin(w.l, w.n, false, w.agg, Black(w.r));
    AugRotLKeeps(aug, law, h);
    assert InOrder(h) == InOrder(w);
    assert Sound(w.r) && Sound(w.r.r) && Sound(w.r.l) && IsBlack(w.r.l) && BH(w.r.l) == BH(w.r.r) == BH(w.l);
    assert Sound(AugRotL(aug, h).l);
  }

  ghost function WithSib(c: Ctx, w: Tree): Ctx
    requires !c.Top?
  {
    if c.InL? then c.(r := w) else c.(l := w)
  }

  lemma EraseSibReplaced(law: Aug, c: Ctx, t: Tree, w: Tree, s: seq<Ptr>)
    requires Short(law, c, t, s) && !c.Top? && Replaces(law, Sib(c), w, BH(Sib(c)))
    ensures Short(law, WithSib(c, w), t, s)
  {
    var c' := WithSib(c, w);
    WholeUp(c, t);
    WholeUp(c', t);
    CtxAggFrame(law, c.up, UpTree(c, t), UpTree(c', t));
  }

  /** The parent's subtree just before the last rotation: the sibling takes the parent's colour. */
  ghost function Borrowed(c: Ctx, t: Tree): Tree
    requires !c.Top? && Sib(c).Bin?
  {
    if c.InL?
    then Bin(t, c.n, true, c.agg, c.r.(black := c.black, r := Black(c.r.r)))
    else Bin(c.l.(black := c.black, l := Black(c.l.l)), c.n, true, c.agg, t)
  }

  lemma EraseCase4L(aug: Aug, law: Aug, c: Ctx, t: Tree, s: seq<Ptr>)
    requires Keeps(law, aug) && Short(law, c, t, s) && IsBlack(t) && c.InL?
    requires c.r.Bin? && c.r.black && !IsBlack(c.r.r)
    ensures Proper(law, Plug(c.up, AugRotL(aug, Borrowed(c, t))), s)
  {
    var b := Borrowed(c, t);
    assert Sound(c.r) && AggSound(law, c.r);
    assert Sound(c.r.r) && AggSound(law, c.r.r);
    assert AggSound(law, Black(c.r.r)) && Sound(Black(c.r.r));
    assert InOrder(Black(c.r.r)) == InOrder(c.r.r);
    assert InOrder(b.r) == InOrder(c.r);
    AugRotLKeeps(aug, law, b);
    WholeUp(c, t);
    var f := AugRotL(aug, b);
    assert Sound(f.l) && Sound(f.r) && BH(f.l) == BH(f.r) == BH(t) + 1;
    ReplaceEnds(law, c.up, UpTree(c, t), f, s);
  }

  lemma EraseCase4R(aug: Aug, law: Aug, c: Ctx, t: Tree, s: seq<Ptr>)
    requires Keeps(law, aug) && Short(law, c, t, s) && IsBlack(t) && c.InR?
    requires c.l.Bin? && c.l.black && !IsBlack(c.l.l)
    ensures Proper(law, Plug(c.up, AugRotR(aug, Borrowed(c, t))), s)
  {
    var b := Borrowed(c, t);
    assert Sound(c.l) && AggSound(law, c.l);
    assert Sound(c.l.l) && AggSound(law, c.l.l);
    assert AggSound(law, Black(c.l.l)) && Sound(Black(c.l.l));
    assert InOrder(Black(c.l.l)) == InOrder(c.l.l);
    assert InOrder(b.l) == InOrder(c.l);
    AugRotRKeeps(aug, law, b);
    WholeUp(c, t);
    var f := AugRotR(aug, b);
    assert Sound(f.l) && Sound(f.r) && BH(f.l) == BH(f.r) == BH(t) + 1;
    ReplaceEnds(law, c.up, UpTree(c, t), f, s);
  }

  // ------------------------------------------------- insert and erase, on trees

  /** The tree just after rb_link_node, once aggregates have been propagated. */
  lemma InsertReady(aug: Aug, c: Ctx, leaf: Tree)
    requires RedBlack(Plug(c, Nil)) && AggSound(aug, Plug(c, Nil)) && Lawful(aug)
    requires leaf.Bin? && leaf.l.Nil? && leaf.r.Nil? && !leaf.black && (aug.Aug? ==> leaf.agg == aug.val(leaf.n))
    ensures Inserting(aug, Walked(aug, c, leaf), leaf, Before(c) + [leaf.n] + After(c))
  {
    UnplugRedBlack(c, Nil);
    PlugAgg(aug, c, Nil);
    CtxAggIsSibs(aug, c, Nil);
    FreshCtxSound(aug, c, leaf);
    WalkedSame(aug, c, leaf);
    SameButAggKeeps(c, Walked(aug, c, leaf), 0);
    if aug.Aug? {
      if !c.Top? { CtxAggFrame(aug, c.up, UpTree(c, Nil), UpTree(c, leaf)); }
      StopIsFresh(aug, c, leaf);
    }
    assert InOrder(leaf) == [leaf.n];
  }

  /** After a node of colour `black` has been taken out above x. */
  ghost predicate Unlinked(aug: Aug, c: Ctx, x: Tree, black: bool, s: seq<Ptr>) {
    && Sound(x) && CtxSound(c, BH(x) + (if black then 1 else 0)) && (!black ==> IsBlack(x))
    && AggSound(aug, x) && SibsAggSound(aug, c)
    && Whole(c, x) == s
  }

  /** Once aggregates have been propagated, along the path d now. */
  lemma EraseReady(aug: Aug, law: Aug, c: Ctx, d: Ctx, x: Tree, black: bool, s: seq<Ptr>)
    requires Unlinked(aug, c, x, black, s) && SameButAgg(c, d) && Keeps(law, aug) && CtxAggSound(law, d, x)
    ensures black ==> Short(law, d, x, s)
    ensures !black ==> Proper(law, Plug(d, x), s)
  {
    SameButAggKeeps(c, d, BH(x) + (if black then 1 else 0));
    if !black {
      WholeIsPlug(d, x);
      PlugAgg(law, d, x);
      PlugRedBlack(d, x);
    }
  }

  /** What is left when a node goes. */
  ghost function Without(c: Ctx, t: Tree): seq<Ptr>
    requires t.Bin?
  {
    Before(c) + InOrder(t.l) + InOrder(t.r) + After(c)
  }

  lemma EraseOneChild(aug: Aug, c: Ctx, t: Tree, child: Tree)
    requires RedBlack(Plug(c, t)) && AggSound(aug, Plug(c, t)) && t.Bin?
    requires (t.l.Nil? && child == t.r) || (t.r.Nil? && child == t.l)
    ensures Unlinked(aug, c, child, t.black, Without(c, t))
  {
    UnplugRedBlack(c, t);
    PlugAgg(aug, c, t);
    CtxAggIsSibs(aug, c, t);
    OneChildOrder(c, t, child);
  }

  lemma OneChildOrder(c: Ctx, t: Tree, child: Tree)
    requires t.Bin? && ((t.l.Nil? && child == t.r) || (t.r.Nil? && child == t.l))
    ensures Whole(c, child) == Without(c, t)
  {
    assert InOrder(child) == InOrder(t.l) + InOrder(t.r);
    assert Before(c) + (InOrder(t.l) + InOrder(t.r)) == Before(c) + InOrder(t.l) + InOrder(t.r);
  }

  lemma Reassociate(p: seq<Ptr>, q: seq<Ptr>, y: Ptr, r: seq<Ptr>, u: seq<Ptr>, v: seq<Ptr>)
    ensures (p + q + [y]) + r + (u + v) == p + q + ([] + ([] + [y] + r) + u) + v
  {
  }

  lemma EraseTwoOrder(c: Ctx, t: Tree, inner: Ctx, y: Tree, a: Val)
    requires t.Bin? && AllLeft(inner) && Plug(inner, y) == t.r && y.Bin? && y.l.Nil?
    ensures Whole(Over(inner, InR(t.l, y.n, t.black, a, c)), y.r) == Without(c, t)
  {
    var o := InR(t.l, y.n, t.black, a, c);
    OverOrder(inner, o);
    WholeIsPlug(inner, y);
    assert Before(o) == Before(c) + InOrder(t.l) + [y.n] && After(o) == After(c);
    assert InOrder(y) == [] + [y.n] + InOrder(y.r);
    assert InOrder(t.r) == [] + InOrder(y) + After(inner);
    Reassociate(Before(c), InOrder(t.l), y.n, InOrder(y.r), After(inner), After(c));
  }

  lemma EraseTwoBalance(c: Ctx, t: Tree, inner: Ctx, y: Tree, a: Val)
    requires RedBlack(Plug(c, t)) && t.Bin? && Plug(inner, y) == t.r && y.Bin? && y.l.Nil?
    ensures Sound(y) && CtxSound(Over(inner, InR(t.l, y.n, t.black, a, c)), BH(y))
    ensures Sound(y.r) && BH(y) == BH(y.r) + (if y.black then 1 else 0) && (!y.black ==> IsBlack(y.r))
  {
    var o := InR(t.l, t.n, t.black, t.agg, c);
    OverPlug(inner, o, y);
    assert UpTree(o, t.r) == t;
    UnplugRedBlack(Over(inner, o), y);
    OverSwap(inner, o, InR(t.l, y.n, t.black, a, c), BH(y));
    RightOf(y);
  }

  lemma RightOf(y: Tree)
    requires y.Bin? && y.l.Nil? && Sound(y)
    ensures Sound(y.r) && BH(y) == BH(y.r) + (if y.black then 1 else 0) && (!y.black ==> IsBlack(y.r))
  {
  }

  lemma EraseTwoAgg(aug: Aug, c: Ctx, t: Tree, inner: Ctx, y: Tree, a: Val)
    requires AggSound(aug, Plug(c, t)) && t.Bin? && Plug(inner, y) == t.r && y.Bin? && y.l.Nil?
    ensures AggSound(aug, y.r) && SibsAggSound(aug, Over(inner, InR(t.l, y.n, t.black, a, c)))
  {
    var o, o' := InR(t.l, t.n, t.black, t.agg, c), InR(t.l, y.n, t.black, a, c);
    OverPlug(inner, o, y);
    assert UpTree(o, t.r) == t;
    PlugAgg(aug, Over(inner, o), y);
    CtxAggIsSibs(aug, Over(inner, o), y);
    OverSibs(aug, inner, o);
    OverSibs(aug, inner, o');
  }

  /** Two children: the successor y, deep down the right subtree's left edge, has moved up. */
  lemma EraseTwoChildren(aug: Aug, c: Ctx, t: Tree, inner: Ctx, y: Tree, a: Val)
    requires RedBlack(Plug(c, t)) && AggSound(aug, Plug(c, t)) && t.Bin?
    requires AllLeft(inner) && Plug(inner, y) == t.r && y.Bin? && y.l.Nil?
    ensures Unlinked(aug, Over(inner, InR(t.l, y.n, t.black, a, c)), y.r, y.black, Without(c, t))
  {
    EraseTwoOrder(c, t, inner, y, a);
    EraseTwoBalance(c, t, inner, y, a);
    EraseTwoAgg(aug, c, t, inner, y, a);
  }
}
