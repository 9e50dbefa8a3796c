/** Red-black trees as values.

    `Tree` mirrors, node for node, the intrusive tree that rbtree.c keeps in memory, and `Ctx` is
    the path from one of its subtrees back up to the root.  Balance, order and aggregates are
    properties of these values; module RbTree shows that the pointer code moves between them. */
module RbShape {
  import opened Bytes

  /** A node's address; 0 is the null pointer. */
  type Ptr = nat

  const NULL: Ptr := 0

  /** What an augmented caller aggregates: a number, or nothing where there is no node. */
  type Val = Option<int>

  datatype Tree = Nil | Bin(l: Tree, n: Ptr, black: bool, agg: Val, r: Tree)

  /** A tree with one subtree cut out; `up` leads to the root. */
  datatype Ctx =
    | Top
    | InL(up: Ctx, n: Ptr, black: bool, agg: Val, r: Tree)
    | InR(l: Tree, n: Ptr, black: bool, agg: Val, up: Ctx)

  /** The augment callbacks: none, or an operation folded over each subtree.  `val` is what the
      structure around a node contributes; `early` says that propagate stops at a node it leaves unchanged. */
  datatype Aug = NoAug | Aug(op: (Val, Val) -> Val, unit: Val, val: Ptr -> Val, early: bool)

  /** The operation is associative, and an absent child adds nothing. */
  ghost predicate Lawful(aug: Aug) {
    aug.Aug? ==>
      && (forall x, y, z :: Associates(aug, x, y, z))
      && (forall x :: aug.op(aug.unit, x) == x && aug.op(x, aug.unit) == x)
  }

  ghost predicate Associates(aug: Aug, x: Val, y: Val, z: Val)
    requires aug.Aug?
  {
    aug.op(aug.op(x, y), z) == aug.op(x, aug.op(y, z))
  }

  // ---------------------------------------------------------------- structure

  ghost function Nodes(t: Tree): set<Ptr> {
    match t
    case Nil => {}
    case Bin(l, n, _, _, r) => Nodes(l) + {n} + Nodes(r)
  }

  ghost function CtxNodes(c: Ctx): set<Ptr> {
    match c
    case Top => {}
    case InL(up, n, _, _, r) => {n} + Nodes(r) + CtxNodes(up)
    case InR(l, n, _, _, up) => {n} + Nodes(l) + CtxNodes(up)
  }

  /** The subtree one level further up. */
  ghost function UpTree(c: Ctx, t: Tree): Tree
    requires !c.Top?
  {
    match c
    case InL(up, n, b, a, r) => Bin(t, n, b, a, r)
    case InR(l, n, b, a, up) => Bin(l, n, b, a, t)
  }

  ghost function Sib(c: Ctx): Tree
    requires !c.Top?
  {
    if c.InL? then c.r else c.l
  }

  ghost function Plug(c: Ctx, t: Tree): Tree {
    if c.Top? then t else Plug(c.up, UpTree(c, t))
  }

  // ---------------------------------------------------------------- order

  ghost function InOrder(t: Tree): seq<Ptr> {
    match t
    case Nil => []
    case Bin(l, n, _, _, r) => InOrder(l) + [n] + InOrder(r)
  }

  ghost function Before(c: Ctx): seq<Ptr> {
    match c
    case Top => []
    case InL(up, _, _, _, _) => Before(up)
    case InR(l, n, _, _, up) => Before(up) + InOrder(l) + [n]
  }

  ghost function After(c: Ctx): seq<Ptr> {
    match c
    case Top => []
    case InL(up, n, _, _, r) => [n] + InOrder(r) + After(up)
    case InR(_, _, _, _, up) => After(up)
  }

  /** The in-order sequence of the whole tree, seen from a subtree. */
  ghost function Whole(c: Ctx, t: Tree): seq<Ptr> {
    Before(c) + InOrder(t) + After(c)
  }

  lemma WholeUp(c: Ctx, t: Tree)
    requires !c.Top?
    ensures Whole(c, t) == Whole(c.up, UpTree(c, t))
  {
  }

  lemma {:induction false} WholeIsPlug(c: Ctx, t: Tree)
    ensures InOrder(Plug(c, t)) == Whole(c, t)
    decreases c
  {
    if c.Top? {
    } else {
      WholeUp(c, t);
      WholeIsPlug(c.up, UpTree(c, t));
    }
  }

  // ---------------------------------------------------------------- balance

  /** An absent child counts as black. */
  ghost predicate IsBlack(t: Tree) { t.Nil? || t.black }

  /** Black nodes on the leftmost path; on every path once `Balanced` holds. */
  ghost function BH(t: Tree): nat {
    match t
    case Nil => 0
    case Bin(l, _, b, _, _) => BH(l) + (if b then 1 else 0)
  }

  ghost predicate Balanced(t: Tree) {
    match t
    case Nil => true
    case Bin(l, _, _, _, r) => Balanced(l) && Balanced(r) && BH(l) == BH(r)
  }

  ghost predicate NoRedRed(t: Tree) {
    match t
    case Nil => true
    case Bin(l, _, b, _, r) => NoRedRed(l) && NoRedRed(r) && (!b ==> IsBlack(l) && IsBlack(r))
  }

  ghost predicate Sound(t: Tree) { Balanced(t) && NoRedRed(t) }

  ghost predicate RedBlack(t: Tree) { Sound(t) && IsBlack(t) }

  /** The node above the hole exists and is black. */
  ghost predicate CtxBlack(c: Ctx) { !c.Top? && c.black }

  /** Everything outside the hole obeys the rules, for a filling of black height `h`. */
  ghost predicate CtxSound(c: Ctx, h: nat) {
    c.Top? ||
    (Sound(Sib(c)) && BH(Sib(c)) == h &&
     (!c.black ==> IsBlack(Sib(c)) && CtxBlack(c.up)) &&
     CtxSound(c.up, h + (if c.black then 1 else 0)))
  }

  lemma {:induction false} PlugRedBlack(c: Ctx, t: Tree)
    requires Sound(t) && CtxSound(c, BH(t))
    requires IsBlack(t) || CtxBlack(c)
    ensures RedBlack(Plug(c, t))
    decreases c
  {
    if !c.Top? {
      PlugRedBlack(c.up, UpTree(c, t));
    }
  }

  lemma {:induction false} UnplugRedBlack(c: Ctx, t: Tree)
    requires RedBlack(Plug(c, t))
    ensures Sound(t) && CtxSound(c, BH(t))
    ensures IsBlack(t) || CtxBlack(c)
    decreases c
  {
    if !c.Top? {
      UnplugRedBlack(c.up, UpTree(c, t));
    }
  }

  // ---------------------------------------------------------------- aggregates

  ghost function AggOf(aug: Aug, t: Tree): Val
    requires aug.Aug?
  {
    if t.Nil? then aug.unit else t.agg
  }

  /** What a callback computes for a node from its children; without callbacks nothing changes. */
  ghost function Recalc(aug: Aug, l: Tree, n: Ptr, old_: Val, r: Tree): Val {
    if aug.NoAug? then old_ else aug.op(aug.op(AggOf(aug, l), aug.val(n)), AggOf(aug, r))
  }

  /** Every stored aggregate agrees with the stored aggregates of the children. */
  ghost predicate AggSound(aug: Aug, t: Tree) {
    aug.NoAug? || t.Nil? ||
    (t.agg == Recalc(aug, t.l, t.n, t.agg, t.r) && AggSound(aug, t.l) && AggSound(aug, t.r))
  }

  ghost predicate CtxAggSound(aug: Aug, c: Ctx, t: Tree)
    decreases c
  {
    aug.NoAug? || c.Top? ||
    (AggSound(aug, Sib(c)) &&
     c.agg == Recalc(aug, UpTree(c, t).l, c.n, c.agg, UpTree(c, t).r) &&
     CtxAggSound(aug, c.up, UpTree(c, t)))
  }

  /** The siblings along the path are right; the nodes on it may be stale. */
  ghost predicate SibsAggSound(aug: Aug, c: Ctx) {
    aug.NoAug? || c.Top? || (AggSound(aug, Sib(c)) && SibsAggSound(aug, c.up))
  }

  ghost function Fold(aug: Aug, s: seq<Ptr>): Val
    requires aug.Aug?
  {
    if s == [] then aug.unit else aug.op(aug.val(s[0]), Fold(aug, s[1..]))
  }

  lemma {:induction false} FoldConcat(aug: Aug, s: seq<Ptr>, u: seq<Ptr>)
    requires aug.Aug? && Lawful(aug)
    ensures Fold(aug, s + u) == aug.op(Fold(aug, s), Fold(aug, u))
  {
    if s == [] {
      assert s + u == u;
    } else {
      assert (s + u)[1..] == s[1..] + u;
      FoldConcat(aug, s[1..], u);
      assert Associates(aug, aug.val(s[0]), Fold(aug, s[1..]), Fold(aug, u));
    }
  }

  /** A sound aggregate is the fold of the subtree's own nodes, in order. */
  lemma {:induction false} AggIsFold(aug: Aug, t: Tree)
    requires aug.Aug? && Lawful(aug) && AggSound(aug, t)
    ensures AggOf(aug, t) == Fold(aug, InOrder(t))
  {
    if t.Bin? {
      AggIsFold(aug, t.l);
      AggIsFold(aug, t.r);
      assert InOrder(t) == InOrder(t.l) + ([t.n] + InOrder(t.r));
      FoldConcat(aug, InOrder(t.l), [t.n] + InOrder(t.r));
      FoldConcat(aug, [t.n], InOrder(t.r));
      assert Associates(aug, AggOf(aug, t.l), aug.val(t.n), AggOf(aug, t.r));
    }
  }

  /** In a tree with sound aggregates, every node holds the fold of its own subtree. */
  lemma AggAtEveryNode(aug: Aug, c: Ctx, t: Tree)
    requires aug.Aug? && Lawful(aug) && AggSound(aug, Plug(c, t)) && t.Bin?
    ensures t.agg == Fold(aug, InOrder(t))
  {
    PlugAgg(aug, c, t);
    AggIsFold(aug, t);
  }

  /** A path does not notice which tree fills its hole, only that tree's aggregate. */
  lemma {:induction false} CtxAggFrame(aug: Aug, c: Ctx, t: Tree, u: Tree)
    requires CtxAggSound(aug, c, t)
    requires aug.Aug? ==> AggOf(aug, t) == AggOf(aug, u)
    ensures CtxAggSound(aug, c, u)
    decreases c
  {
    if !c.Top? {
      CtxAggFrame(aug, c.up, UpTree(c, t), UpTree(c, u));
    }
  }

  lemma {:induction false} PlugAgg(aug: Aug, c: Ctx, t: Tree)
    ensures AggSound(aug, Plug(c, t)) <==> AggSound(aug, t) && CtxAggSound(aug, c, t)
    decreases c
  {
    if !c.Top? {
      PlugAgg(aug, c.up, UpTree(c, t));
    }
  }

  // ---------------------------------------------------------------- propagation

  /** The path after a walk from its hole to the root that recomputes every aggregate on it. */
  ghost function FreshCtx(aug: Aug, c: Ctx, t: Tree): Ctx
    decreases c
  {
    match c
    case Top => Top
    case InL(up, n, b, a, r) =>
      var a' := Recalc(aug, t, n, a, r);
      InL(FreshCtx(aug, up, Bin(t, n, b, a', r)), n, b, a', r)
    case InR(l, n, b, a, up) =>
      var a' := Recalc(aug, l, n, a, t);
      InR(l, n, b, a', FreshCtx(aug, up, Bin(l, n, b, a', t)))
  }

  lemma {:induction false} FreshCtxSound(aug: Aug, c: Ctx, t: Tree)
    requires SibsAggSound(aug, c)
    ensures CtxAggSound(aug, FreshCtx(aug, c, t), t)
    decreases c
  {
    match c
    case Top =>
    case InL(up, n, b, a, r) => FreshCtxSound(aug, up, Bin(t, n, b, Recalc(aug, t, n, a, r), r));
    case InR(l, n, b, a, up) => FreshCtxSound(aug, up, Bin(l, n, b, Recalc(aug, l, n, a, t), t));
  }

  /** The path after a walk that goes no further than a node whose aggregate it finds unchanged. */
  ghost function StopCtx(aug: Aug, c: Ctx, t: Tree): Ctx
    decreases c
  {
    match c
    case Top => Top
    case InL(up, n, b, a, r) =>
      var a' := Recalc(aug, t, n, a, r);
      if a' == a then c else InL(StopCtx(aug, up, Bin(t, n, b, a', r)), n, b, a', r)
    case InR(l, n, b, a, up) =>
      var a' := Recalc(aug, l, n, a, t);
      if a' == a then c else InR(l, n, b, a', StopCtx(aug, up, Bin(l, n, b, a', t)))
  }

  /** The path after the propagate callback. */
  ghost function Walked(aug: Aug, c: Ctx, t: Tree): Ctx {
    if aug.Aug? && aug.early then StopCtx(aug, c, t) else FreshCtx(aug, c, t)
  }

  /** Two paths that differ only in the aggregates stored along them. */
  ghost predicate SameButAgg(c: Ctx, d: Ctx) {
    match c
    case Top => d.Top?
    case InL(up, n, b, _, r) => d.InL? && d.n == n && d.black == b && d.r == r && SameButAgg(up, d.up)
    case InR(l, n, b, _, up) => d.InR? && d.n == n && d.black == b && d.l == l && SameButAgg(up, d.up)
  }

  lemma {:induction false} SameButAggKeeps(c: Ctx, d: Ctx, h: nat)
    requires SameButAgg(c, d)
    ensures Before(c) == Before(d) && After(c) == After(d) && CtxNodes(c) == CtxNodes(d)
    ensures CtxSound(c, h) <==> CtxSound(d, h)
    ensures CtxBlack(c) <==> CtxBlack(d)
    decreases c
  {
    if !c.Top? {
      SameButAggKeeps(c.up, d.up, h + (if c.black then 1 else 0));
    }
  }

  lemma {:induction false} CtxAggIsSibs(aug: Aug, c: Ctx, t: Tree)
    requires CtxAggSound(aug, c, t)
    ensures SibsAggSound(aug, c)
    decreases c
  {
    if !c.Top? { CtxAggIsSibs(aug, c.up, UpTree(c, t)); }
  }

  /** So neither the order nor the colours of the whole tree change. */
  lemma SamePlug(c: Ctx, d: Ctx, t: Tree)
    requires SameButAgg(c, d)
    ensures InOrder(Plug(d, t)) == InOrder(Plug(c, t)) && (RedBlack(Plug(c, t)) ==> RedBlack(Plug(d, t)))
  {
    WholeIsPlug(c, t);
    WholeIsPlug(d, t);
    SameButAggKeeps(c, d, BH(t));
    if RedBlack(Plug(c, t)) {
      UnplugRedBlack(c, t);
      PlugRedBlack(d, t);
    }
  }

  // ---------------------------------------------------------------- paths within paths

  /** The path `inner` continued by `outer` where it ends. */
  ghost function Over(inner: Ctx, outer: Ctx): Ctx {
    match inner
    case Top => outer
    case InL(up, n, b, a, r) => InL(Over(up, outer), n, b, a, r)
    case InR(l, n, b, a, up) => InR(l, n, b, a, Over(up, outer))
  }

  ghost predicate AllLeft(c: Ctx) { c.Top? || (c.InL? && AllLeft(c.up)) }

  lemma {:induction false} OverPlug(inner: Ctx, outer: Ctx, t: Tree)
    ensures Plug(Over(inner, outer), t) == Plug(outer, Plug(inner, t))
    decreases inner
  {
    if !inner.Top? { OverPlug(inner.up, outer, UpTree(inner, t)); }
  }

  lemma {:induction false} OverSibs(aug: Aug, inner: Ctx, outer: Ctx)
    ensures SibsAggSound(aug, Over(inner, outer)) <==> SibsAggSound(aug, inner) && SibsAggSound(aug, outer)
    decreases inner
  {
    if !inner.Top? { OverSibs(aug, inner.up, outer); }
  }

  /** Recomputing what is right already changes nothing; nor does a walk without callbacks. */
  lemma {:induction false} FreshCtxIdle(aug: Aug, c: Ctx, t: Tree)
    requires CtxAggSound(aug, c, t)
    ensures FreshCtx(aug, c, t) == c
    decreases c
  {
    if !c.Top? { FreshCtxIdle(aug, c.up, UpTree(c, t)); }
  }

  /** Stopping early loses nothing where everything above the first node was right for its old aggregate. */
  lemma {:induction false} StopIsFresh(aug: Aug, c: Ctx, t: Tree)
    requires aug.Aug? && (!c.Top? ==> CtxAggSound(aug, c.up, UpTree(c, t)))
    ensures StopCtx(aug, c, t) == FreshCtx(aug, c, t)
    decreases c
  {
    if !c.Top? {
      var u := UpTree(c, t);
      var u' := u.(agg := Recalc(aug, u.l, u.n, u.agg, u.r));
      if u'.agg == u.agg {
        FreshCtxIdle(aug, c.up, u);
      } else {
        if !c.up.Top? { CtxAggFrame(aug, c.up.up, UpTree(c.up, u), UpTree(c.up, u')); }
        StopIsFresh(aug, c.up, u');
      }
    }
  }

  /** A walk changes nothing but aggregates. */
  lemma {:induction false} StopSame(aug: Aug, c: Ctx, t: Tree)
    ensures SameButAgg(c, StopCtx(aug, c, t))
    decreases c
  {
    match c
    case Top =>
    case InL(up, n, b, a, r) =>
      SameSelf(up);
      StopSame(aug, up, Bin(t, n, b, Recalc(aug, t, n, a, r), r));
    case InR(l, n, b, a, up) =>
      SameSelf(up);
      StopSame(aug, up, Bin(l, n, b, Recalc(aug, l, n, a, t), t));
  }

  lemma {:induction false} SameSelf(c: Ctx)
    ensures SameButAgg(c, c)
    decreases c
  {
    if !c.Top? { SameSelf(c.up); }
  }

  lemma {:induction false} FreshSame(aug: Aug, c: Ctx, t: Tree)
    ensures SameButAgg(c, FreshCtx(aug, c, t))
    decreases c
  {
    match c
    case Top =>
    case InL(up, n, b, a, r) => FreshSame(aug, up, Bin(t, n, b, Recalc(aug, t, n, a, r), r));
    case InR(l, n, b, a, up) => FreshSame(aug, up, Bin(l, n, b, Recalc(aug, l, n, a, t), t));
  }

  lemma WalkedSame(aug: Aug, c: Ctx, t: Tree)
    ensures SameButAgg(c, Walked(aug, c, t))
  {
    StopSame(aug, c, t);
    FreshSame(aug, c, t);
  }

  lemma {:induction false} StopTwice(aug: Aug, c: Ctx, t: Tree)
    ensures StopCtx(aug, StopCtx(aug, c, t), t) == StopCtx(aug, c, t)
    decreases c
  {
    match c
    case Top =>
    case InL(up, n, b, a, r) => StopTwice(aug, up, Bin(t, n, b, Recalc(aug, t, n, a, r), r));
    case InR(l, n, b, a, up) => StopTwice(aug, up, Bin(l, n, b, Recalc(aug, l, n, a, t), t));
  }

  lemma {:induction false} FreshTwice(aug: Aug, c: Ctx, t: Tree)
    ensures FreshCtx(aug, FreshCtx(aug, c, t), t) == FreshCtx(aug, c, t)
    decreases c
  {
    match c
    case Top =>
    case InL(up, n, b, a, r) => FreshTwice(aug, up, Bin(t, n, b, Recalc(aug, t, n, a, r), r));
    case InR(l, n, b, a, up) => FreshTwice(aug, up, Bin(l, n, b, Recalc(aug, l, n, a, t), t));
  }

  /** The same walk a second time changes nothing. */
  lemma WalkedTwice(aug: Aug, c: Ctx, t: Tree)
    ensures Walked(aug, Walked(aug, c, t), t) == Walked(aug, c, t)
  {
    StopTwice(aug, c, t);
    FreshTwice(aug, c, t);
  }

  /** A walk, early or not, changes nothing where everything is right already. */
  lemma WalkedIdle(aug: Aug, c: Ctx, t: Tree)
    requires CtxAggSound(aug, c, t)
    ensures Walked(aug, c, t) == c
  {
    FreshCtxIdle(aug, c, t);
    if aug.Aug? { StopIsFresh(aug, c, t); }
  }

  lemma {:induction false} OverOrder(inner: Ctx, outer: Ctx)
    requires AllLeft(inner)
    ensures Before(inner) == [] && Before(Over(inner, outer)) == Before(outer)
    ensures After(Over(inner, outer)) == After(inner) + After(outer)
    decreases inner
  {
    if !inner.Top? { OverOrder(inner.up, outer); }
  }

  /** Balance does not see which node stands on the path, only its colour. */
  lemma {:induction false} OverSwap(inner: Ctx, o: Ctx, o': Ctx, h: nat)
    requires o.InR? && o'.InR? && o.l == o'.l && o.black == o'.black && o.up == o'.up
    ensures CtxSound(Over(inner, o), h) <==> CtxSound(Over(inner, o'), h)
    ensures CtxBlack(Over(inner, o)) <==> CtxBlack(Over(inner, o'))
    decreases inner
  {
    if !inner.Top? { OverSwap(inner.up, o, o', h + (if inner.black then 1 else 0)); }
  }

  lemma {:induction false} NodesInOrder(t: Tree, n: Ptr)
    ensures n in Nodes(t) <==> n in InOrder(t)
  {
    if t.Bin? {
      NodesInOrder(t.l, n);
      NodesInOrder(t.r, n);
    }
  }

  /** Every node of a tree is the root of one of its subtrees. */
  lemma {:induction false} FindNode(c: Ctx, t: Tree, n: Ptr) returns (d: Ctx, u: Tree)
    requires n in Nodes(t)
    ensures u.Bin? && u.n == n && Plug(d, u) == Plug(c, t)
    decreases t
  {
    if t.n == n {
      d, u := c, t;
    } else if n in Nodes(t.l) {
      d, u := FindNode(InL(c, t.n, t.black, t.agg, t.r), t.l, n);
    } else {
      d, u := FindNode(InR(t.l, t.n, t.black, t.agg, c), t.r, n);
    }
  }

  lemma {:induction false} OverHas(inner: Ctx, o: Ctx)
    requires !o.Top?
    ensures o.n in CtxNodes(Over(inner, o))
    decreases inner
  {
    if !inner.Top? { OverHas(inner.up, o); }
  }
}
