/** kernel/lib/rbtree.c: an intrusive red-black tree with parent links, colours and subtree
    aggregates, rebalanced in place. */
module RbTree {
  import opened RbShape
  import opened RbMem
  import opened RbRead
  import opened RbFixup
  import opened RbLocal
  import opened RbRepair
  import opened RbWalk

  class RbTree {
    var root: Ptr
    var cells: seq<Cell>

    /** RB_ROOT: an empty tree over the memory its nodes will come from. */
    constructor (memory: seq<Cell>)
      ensures M() == Mem(NULL, memory) && Rep(M(), Top, Nil)
    {
      root, cells := NULL, memory;
    }

    ghost function M(): Mem
      reads this
    {
      Mem(root, cells)
    }

    // ----------------------------------------------- stores

    method SetColor(n: Ptr, black: bool, ghost c: Ctx, ghost t: Tree)
      requires Rep(M(), c, t) && t.Bin? && t.n == n
      modifies this
      ensures Rep(M(), c, t.(black := black)) && Kept(old(cells), cells, AllNodes(c, t))
    {
      StoreRep(M(), c, t, black, t.agg);
      cells := cells[n := cells[n].(black := black)];
    }

    /** What a callback does for one node: recompute its aggregate from its children. */
    method Recompute(n: Ptr, aug: Aug, ghost c: Ctx, ghost t: Tree)
      requires Rep(M(), c, t) && t.Bin? && t.n == n
      modifies this
      ensures Rep(M(), c, Refreshed(aug, t)) && Kept(old(cells), cells, AllNodes(c, t))
    {
      StoreRep(M(), c, t, t.black, Refreshed(aug, t).agg);
      assert Hold(cells, t.l, n) && Hold(cells, t.r, n);
      if aug.Aug? {
        var l := if cells[n].left == NULL then aug.unit else cells[cells[n].left].agg;
        var r := if cells[n].right == NULL then aug.unit else cells[cells[n].right].agg;
        cells := cells[n := cells[n].(agg := aug.op(aug.op(l, aug.val(n)), r))];
      } else {
        assert cells[n := cells[n]] == cells;
      }
    }

    // ----------------------------------------------- rotations

    method LinksLeft(node: Ptr)
      requires CanRotL(M(), node)
      modifies this
      ensures M() == RotL(old(M()), node) && |cells| == old(|cells|)
    {
      var pivot := cells[node].right;
      var parent := cells[node].parent;
      var inner := cells[pivot].left;

      cells := cells[node := cells[node].(right := inner)];
      if inner != NULL { cells := cells[inner := cells[inner].(parent := node)]; }

      cells := cells[pivot := cells[pivot].(left := node)];
      cells := cells[node := cells[node].(parent := pivot)];

      cells := cells[pivot := cells[pivot].(parent := parent)];
      if parent != NULL {
        if cells[parent].left == node {
          cells := cells[parent := cells[parent].(left := pivot)];
        } else {
          cells := cells[parent := cells[parent].(right := pivot)];
        }
      } else {
        root := pivot;
      }
    }

    method LinksRight(node: Ptr)
      requires CanRotR(M(), node)
      modifies this
      ensures M() == RotR(old(M()), node) && |cells| == old(|cells|)
    {
      var pivot := cells[node].left;
      var parent := cells[node].parent;
      var inner := cells[pivot].right;

      cells := cells[node := cells[node].(left := inner)];
      if inner != NULL { cells := cells[inner := cells[inner].(parent := node)]; }

      cells := cells[pivot := cells[pivot].(right := node)];
      cells := cells[node := cells[node].(parent := pivot)];

      cells := cells[pivot := cells[pivot].(parent := parent)];
      if parent != NULL {
        if cells[parent].left == node {
          cells := cells[parent := cells[parent].(left := pivot)];
        } else {
          cells := cells[parent := cells[parent].(right := pivot)];
        }
      } else {
        root := pivot;
      }
    }

    method RotateLeft(node: Ptr, aug: Aug, ghost c: Ctx, ghost t: Tree) returns (ghost t': Tree)
      requires Rep(M(), c, t) && t.Bin? && t.n == node && t.r.Bin?
      modifies this
      ensures t' == AugRotL(aug, t) && Nodes(t') == Nodes(t)
      ensures Rep(M(), c, t') && Kept(old(cells), cells, AllNodes(c, t))
    {
      var pivot := cells[node].right;
      RotLRep(M(), c, t);
      RotLKept(M(), c, t);
      LinksLeft(node);
      ghost var u := RotatedLeft(t);
      t' := AugRotL(aug, t);
      ghost var below := InL(c, u.n, u.black, u.agg, u.r);
      RepUp(M(), below, u.l);
      Recompute(node, aug, below, u.l);
      RepUp(M(), below, Refreshed(aug, u.l));
      Recompute(pivot, aug, c, u.(l := Refreshed(aug, u.l)));
    }

    method RotateRight(node: Ptr, aug: Aug, ghost c: Ctx, ghost t: Tree) returns (ghost t': Tree)
      requires Rep(M(), c, t) && t.Bin? && t.n == node && t.l.Bin?
      modifies this
      ensures t' == AugRotR(aug, t) && Nodes(t') == Nodes(t)
      ensures Rep(M(), c, t') && Kept(old(cells), cells, AllNodes(c, t))
    {
      var pivot := cells[node].left;
      RotRRep(M(), c, t);
      RotRKept(M(), c, t);
      LinksRight(node);
      ghost var u := RotatedRight(t);
      t' := AugRotR(aug, t);
      ghost var below := InR(u.l, u.n, u.black, u.agg, c);
      RepUp(M(), below, u.r);
      Recompute(node, aug, below, u.r);
      RepUp(M(), below, Refreshed(aug, u.r));
      Recompute(pivot, aug, c, u.(r := Refreshed(aug, u.r)));
    }

    // ----------------------------------------------- insert

    /** Case 1: parent and uncle turn black, the grandparent red. */
    method Recolour(parent: Ptr, uncle: Ptr, g: Ptr, onLeft: bool, ghost c: Ctx, ghost t: Tree)
      requires Rep(M(), c, t) && t.Bin? && t.n == g && t.l.Bin? && t.r.Bin?
      requires if onLeft then parent == t.l.n && uncle == t.r.n else parent == t.r.n && uncle == t.l.n
      modifies this
      ensures Rep(M(), c, Recoloured(t)) && Kept(old(cells), cells, AllNodes(c, t))
    {
      ghost var t1 := t.(r := Black(t.r));
      ghost var t2 := t.(l := Black(t.l));
      ghost var t3 := t1.(l := Black(t.l));
      if onLeft {
        RepUp(M(), InR(t.l, t.n, t.black, t.agg, c), t.r);
        SetColor(uncle, true, InR(t.l, t.n, t.black, t.agg, c), t.r);
        RepUp(M(), InR(t.l, t.n, t.black, t.agg, c), Black(t.r));
        RepUp(M(), InL(c, t.n, t.black, t.agg, t1.r), t.l);
        SetColor(parent, true, InL(c, t.n, t.black, t.agg, t1.r), t.l);
        RepUp(M(), InL(c, t.n, t.black, t.agg, t1.r), Black(t.l));
      } else {
        RepUp(M(), InL(c, t.n, t.black, t.agg, t.r), t.l);
        SetColor(uncle, true, InL(c, t.n, t.black, t.agg, t.r), t.l);
        RepUp(M(), InL(c, t.n, t.black, t.agg, t.r), Black(t.l));
        RepUp(M(), InR(t2.l, t.n, t.black, t.agg, c), t.r);
        SetColor(parent, true, InR(t2.l, t.n, t.black, t.agg, c), t.r);
        RepUp(M(), InR(t2.l, t.n, t.black, t.agg, c), Black(t.r));
      }
      SetColor(g, false, c, t3);
    }

    /** Case 2 with the parent on the left: a red inner child is rotated above its red parent. */
    method AlignLeft(node: Ptr, parent0: Ptr, aug: Aug, ghost c: Ctx, ghost p: Tree, ghost uncle: Tree)
      returns (parent: Ptr, ghost p': Tree)
      requires Rep(M(), c, p) && p.Bin? && p.n == parent0 && Lawful(aug) && AggSound(aug, p) && RedChild(p, node, uncle)
      modifies this
      ensures Rep(M(), c, p') && p'.Bin? && p'.n == parent && OuterRed(p', p'.l, p'.r, uncle) && AggSound(aug, p')
      ensures InOrder(p') == InOrder(p) && (aug.Aug? ==> p'.agg == p.agg) && Nodes(p') == Nodes(p)
      ensures Kept(old(cells), cells, AllNodes(c, p))
    {
      parent, p' := parent0, p;
      NodeOnOneSide(p);
      assert Hold(cells, p.l, p.n);
      if node == cells[parent].right {
        InsertCase2L(aug, p, uncle);
        AugRotLKeeps(aug, aug, p);
        p' := RotateLeft(parent, aug, c, p);
        parent := node;
      }
    }

    /** Case 3 with the parent on the left: it turns black, the grandparent red, and rises above it. */
    method LiftLeft(parent: Ptr, gparent: Ptr, aug: Aug, ghost c: Ctx, ghost g: Tree) returns (ghost f: Tree)
      requires Rep(M(), c, g) && g.Bin? && g.n == gparent && g.l.Bin? && g.l.n == parent
      requires Lawful(aug) && AggSound(aug, g) && OuterRed(g.l, g.l.l, g.l.r, g.r)
      modifies this
      ensures Rep(M(), c, f) && Replaces(aug, g, f, BH(g.r) + 1) && Kept(old(cells), cells, AllNodes(c, g))
    {
      ghost var below := InL(c, g.n, g.black, g.agg, g.r);
      InsertCase3L(aug, g);
      RepUp(M(), below, g.l);
      SetColor(parent, true, below, g.l);
      RepUp(M(), below, Black(g.l));
      SetColor(gparent, false, c, g.(l := Black(g.l)));
      f := RotateRight(gparent, aug, c, g.(black := false, l := Black(g.l)));
    }

    /** Cases 2 and 3 with the parent on the left: `node` is a red child of the red `parent`. */
    method StraightenLeft(node: Ptr, parent0: Ptr, gparent: Ptr, aug: Aug, ghost c: Ctx, ghost g: Tree)
      returns (ghost f: Tree)
      requires Rep(M(), c, g) && g.Bin? && g.n == gparent && g.l.Bin? && g.l.n == parent0
      requires Lawful(aug) && AggSound(aug, g) && RedChild(g.l, node, g.r)
      modifies this
      ensures Rep(M(), c, f) && Replaces(aug, g, f, BH(g.r) + 1) && Kept(old(cells), cells, AllNodes(c, g))
    {
      ghost var below := InL(c, g.n, g.black, g.agg, g.r);
      RepUp(M(), below, g.l);
      var parent;
      ghost var p;
      parent, p := AlignLeft(node, parent0, aug, below, g.l, g.r);
      RepUp(M(), below, p);
      f := LiftLeft(parent, gparent, aug, c, g.(l := p));
    }

    /** Case 2 with the parent on the right: a red inner child is rotated above its red parent. */
    method AlignRight(node: Ptr, parent0: Ptr, aug: Aug, ghost c: Ctx, ghost p: Tree, ghost uncle: Tree)
      returns (parent: Ptr, ghost p': Tree)
      requires Rep(M(), c, p) && p.Bin? && p.n == parent0 && Lawful(aug) && AggSound(aug, p) && RedChild(p, node, uncle)
      modifies this
      ensures Rep(M(), c, p') && p'.Bin? && p'.n == parent && OuterRed(p', p'.r, p'.l, uncle) && AggSound(aug, p')
      ensures InOrder(p') == InOrder(p) && (aug.Aug? ==> p'.agg == p.agg) && Nodes(p') == Nodes(p)
      ensures Kept(old(cells), cells, AllNodes(c, p))
    {
      parent, p' := parent0, p;
      NodeOnOneSide(p);
      assert Hold(cells, p.r, p.n);
      if node == cells[parent].left {
        InsertCase2R(aug, p, uncle);
        AugRotRKeeps(aug, aug, p);
        p' := RotateRight(parent, aug, c, p);
        parent := node;
      }
    }

    /** Case 3 with the parent on the right: it turns black, the grandparent red, and rises above it. */
    method LiftRight(parent: Ptr, gparent: Ptr, aug: Aug, ghost c: Ctx, ghost g: Tree) returns (ghost f: Tree)
      requires Rep(M(), c, g) && g.Bin? && g.n == gparent && g.r.Bin? && g.r.n == parent
      requires Lawful(aug) && AggSound(aug, g) && OuterRed(g.r, g.r.r, g.r.l, g.l)
      modifies this
      ensures Rep(M(), c, f) && Replaces(aug, g, f, BH(g.l) + 1) && Kept(old(cells), cells, AllNodes(c, g))
    {
      ghost var below := InR(g.l, g.n, g.black, g.agg, c);
      InsertCase3R(aug, g);
      RepUp(M(), below, g.r);
      SetColor(parent, true, below, g.r);
      RepUp(M(), below, Black(g.r));
      SetColor(gparent, false, c, g.(r := Black(g.r)));
      f := RotateLeft(gparent, aug, c, g.(black := false, r := Black(g.r)));
    }

    /** Cases 2 and 3 with the parent on the right: `node` is a red child of the red `parent`. */
    method StraightenRight(node: Ptr, parent0: Ptr, gparent: Ptr, aug: Aug, ghost c: Ctx, ghost g: Tree)
      returns (ghost f: Tree)
      requires Rep(M(), c, g) && g.Bin? && g.n == gparent && g.r.Bin? && g.r.n == parent0
      requires Lawful(aug) && AggSound(aug, g) && RedChild(g.r, node, g.l)
      modifies this
      ensures Rep(M(), c, f) && Replaces(aug, g, f, BH(g.l) + 1) && Kept(old(cells), cells, AllNodes(c, g))
    {
      ghost var below := InR(g.l, g.n, g.black, g.agg, c);
      RepUp(M(), below, g.r);
      var parent;
      ghost var p;
      parent, p := AlignRight(node, parent0, aug, below, g.r, g.l);
      RepUp(M(), below, p);
      f := LiftRight(parent, gparent, aug, c, g.(r := p));
    }

    /** Cases 2 and 3 end the loop. */
    method FinishLeft(node: Ptr, parent: Ptr, gparent: Ptr, aug: Aug, ghost c: Ctx, ghost g: Tree, ghost s: seq<Ptr>)
      returns (ghost t': Tree)
      requires Rep(M(), c, g) && g.Bin? && g.n == gparent && g.l.Bin? && g.l.n == parent
      requires Lawful(aug) && AggSound(aug, g) && RedChild(g.l, node, g.r)
      requires CtxSound(c, BH(g.r) + 1) && CtxAggSound(aug, c, g) && Whole(c, g) == s
      modifies this
      ensures Turned(aug, M(), c, t', s, gparent, true) && Kept(old(cells), cells, Elems(s))
    {
      WholeNodes(c, g);
      ghost var f := StraightenLeft(node, parent, gparent, aug, c, g);
      EndTurn(aug, M(), c, g, f, s, gparent);
      t' := Plug(c, f);
    }

    /** Case 1: the grandparent's subtree is recoloured, and the fault is two levels up. */
    method Climb(parent: Ptr, uncle: Ptr, gparent: Ptr, onLeft: bool, ghost aug: Aug, ghost c: Ctx, ghost t: Tree,
                 ghost s: seq<Ptr>)
      requires AtGrand(aug, M(), c, t, s) && onLeft == c.up.InL? && c.n == parent && c.up.n == gparent
      requires Sib(c.up).Bin? && Sib(c.up).n == uncle && !Sib(c.up).black
      modifies this
      ensures Turned(aug, M(), c.up.up, Recoloured(UpTree(c.up, UpTree(c, t))), s, gparent, false)
      ensures Kept(old(cells), cells, Elems(s))
    {
      ghost var g := UpTree(c.up, UpTree(c, t));
      WholeNodes(c.up.up, g);
      Recolour(parent, uncle, gparent, onLeft, c.up.up, g);
      ClimbTurn(aug, M(), c, t, s);
    }

    /** One turn of the loop with a red parent that is a left child. */
    method InsertTurnLeft(node: Ptr, parent: Ptr, gparent: Ptr, aug: Aug, ghost c: Ctx, ghost t: Tree,
                          ghost s: seq<Ptr>)
      returns (done: bool, ghost t': Tree)
      requires AtGrand(aug, M(), c, t, s) && t.n == node && Lawful(aug)
      requires c.up.InL? && c.n == parent && c.up.n == gparent
      modifies this
      ensures Turned(aug, M(), c.up.up, t', s, gparent, done) && Kept(old(cells), cells, Elems(s))
    {
      ghost var g := UpTree(c.up, UpTree(c, t));
      var uncle := cells[gparent].right;
      if uncle != NULL && !cells[uncle].black {
        Climb(parent, uncle, gparent, true, aug, c, t, s);
        return false, Recoloured(g);
      }
      t' := FinishLeft(node, parent, gparent, aug, c.up.up, g, s);
      return true, t';
    }

    method FinishRight(node: Ptr, parent: Ptr, gparent: Ptr, aug: Aug, ghost c: Ctx, ghost g: Tree, ghost s: seq<Ptr>)
      returns (ghost t': Tree)
      requires Rep(M(), c, g) && g.Bin? && g.n == gparent && g.r.Bin? && g.r.n == parent
      requires Lawful(aug) && AggSound(aug, g) && RedChild(g.r, node, g.l)
      requires CtxSound(c, BH(g.l) + 1) && CtxAggSound(aug, c, g) && Whole(c, g) == s
      modifies this
      ensures Turned(aug, M(), c, t', s, gparent, true) && Kept(old(cells), cells, Elems(s))
    {
      WholeNodes(c, g);
      ghost var f := StraightenRight(node, parent, gparent, aug, c, g);
      EndTurn(aug, M(), c, g, f, s, gparent);
      t' := Plug(c, f);
    }

    /** One turn of the loop with a red parent that is a right child. */
    method InsertTurnRight(node: Ptr, parent: Ptr, gparent: Ptr, aug: Aug, ghost c: Ctx, ghost t: Tree,
                           ghost s: seq<Ptr>)
      returns (done: bool, ghost t': Tree)
      requires AtGrand(aug, M(), c, t, s) && t.n == node && Lawful(aug)
      requires c.up.InR? && c.n == parent && c.up.n == gparent
      modifies this
      ensures Turned(aug, M(), c.up.up, t', s, gparent, done) && Kept(old(cells), cells, Elems(s))
    {
      ghost var g := UpTree(c.up, UpTree(c, t));
      var uncle := cells[gparent].left;
      if uncle != NULL && !cells[uncle].black {
        Climb(parent, uncle, gparent, false, aug, c, t, s);
        return false, Recoloured(g);
      }
      t' := FinishRight(node, parent, gparent, aug, c.up.up, g, s);
      return true, t';
    }

    /** One turn of the loop. */
    method InsertTurn(node: Ptr, aug: Aug, ghost c: Ctx, ghost t: Tree, ghost s: seq<Ptr>)
      returns (done: bool, next: Ptr, ghost t': Tree)
      requires Rep(M(), c, t) && Inserting(aug, c, t, s) && t.n == node && Lawful(aug)
      modifies this
      ensures if done then Rep(M(), Top, t') && Proper(aug, t', s)
              else !c.Top? && !c.up.Top? && Rep(M(), c.up.up, t') && Inserting(aug, c.up.up, t', s) && t'.n == next
      ensures Kept(old(cells), cells, Elems(s))
    {
      WholeNodes(c, t);
      InsertStops(aug, c, t, s);
      ReadAbove(M(), c, t);
      var parent := cells[node].parent;
      if parent == NULL {
        SetColor(node, true, c, t);
        return true, node, Black(t);
      }
      if cells[parent].black {
        RepPlug(M(), c, t);
        return true, node, Plug(c, t);
      }
      next := cells[parent].parent;
      ToGrand(aug, M(), c, t, s);
      ReadUncle(M(), c, t);
      if parent == cells[next].left {
        done, t' := InsertTurnLeft(node, parent, next, aug, c, t, s);
      } else {
        done, t' := InsertTurnRight(node, parent, next, aug, c, t, s);
      }
    }

    /** __rb_insert: `node` is linked as a red leaf; every rule is restored on the way up. */
    method InsertFixup(node0: Ptr, aug: Aug, ghost c0: Ctx, ghost t0: Tree, ghost s: seq<Ptr>) returns (ghost t: Tree)
      requires Rep(M(), c0, t0) && Inserting(aug, c0, t0, s) && t0.n == node0 && Lawful(aug)
      modifies this
      ensures Rep(M(), Top, t) && Proper(aug, t, s) && Kept(old(cells), cells, Elems(s))
    {
      var node, done := node0, false;
      ghost var c := c0;
      t := t0;
      while !done
        invariant if done then Rep(M(), Top, t) && Proper(aug, t, s)
                  else Rep(M(), c, t) && Inserting(aug, c, t, s) && t.n == node
        invariant Kept(old(cells), cells, Elems(s))
        decreases !done, c
      {
        done, node, t := InsertTurn(node, aug, c, t, s);
        c := if done then Top else c.up.up;
      }
    }

    // ----------------------------------------------- erase fix-up

    predicate NodeIsBlack(n: Ptr)
      requires n < |cells|
      reads this
    {
      n == NULL || cells[n].black
    }

    /** Case 1 on the left: a red sibling is rotated above the parent. */
    method RedSiblingLeft(parent: Ptr, w: Ptr, aug: Aug, ghost c: Ctx, ghost t: Tree)
      requires Rep(M(), c, t) && c.InL? && c.n == parent && c.r.Bin? && c.r.n == w
      modifies this
      ensures Rep(M(), RedSibLeft(aug, c, t), t) && Kept(old(cells), cells, AllNodes(c, t))
    {
      RepAcross(M(), c, t);
      SetColor(w, true, Across(c, t), c.r);
      RepUp(M(), Across(c, t), Black(c.r));
      SetColor(parent, false, c.up, Bin(t, c.n, c.black, c.agg, Black(c.r)));
      ghost var f := RotateLeft(parent, aug, c.up, Bin(t, c.n, false, c.agg, Black(c.r)));
      ghost var c' := RedSibLeft(aug, c, t);
      RepUp(M(), c'.up, UpTree(c', t));
      RepUp(M(), c', t);
    }

    method RedSiblingRight(parent: Ptr, w: Ptr, aug: Aug, ghost c: Ctx, ghost t: Tree)
      requires Rep(M(), c, t) && c.InR? && c.n == parent && c.l.Bin? && c.l.n == w
      modifies this
      ensures Rep(M(), RedSibRight(aug, c, t), t) && Kept(old(cells), cells, AllNodes(c, t))
    {
      RepAcross(M(), c, t);
      SetColor(w, true, Across(c, t), c.l);
      RepUp(M(), Across(c, t), Black(c.l));
      SetColor(parent, false, c.up, Bin(Black(c.l), c.n, c.black, c.agg, t));
      ghost var f := RotateRight(parent, aug, c.up, Bin(Black(c.l), c.n, false, c.agg, t));
      ghost var c' := RedSibRight(aug, c, t);
      RepUp(M(), c'.up, UpTree(c', t));
      RepUp(M(), c', t);
    }

    /** Case 3 on the left: the sibling's red left child is rotated above the sibling. */
    method TurnSiblingLeft(w: Ptr, aug: Aug, ghost c: Ctx, ghost t: Tree) returns (ghost t': Tree)
      requires Rep(M(), c, t) && t.Bin? && t.n == w && t.l.Bin?
      modifies this
      ensures Rep(M(), c, t') && Kept(old(cells), cells, AllNodes(c, t))
      ensures t' == AugRotR(aug, Bin(Black(t.l), t.n, false, t.agg, t.r))
    {
      ghost var below := InL(c, t.n, t.black, t.agg, t.r);
      RepUp(M(), below, t.l);
      if cells[w].left != NULL { SetColor(cells[w].left, true, below, t.l); }
      RepUp(M(), below, Black(t.l));
      SetColor(w, false, c, t.(l := Black(t.l)));
      t' := RotateRight(w, aug, c, Bin(Black(t.l), t.n, false, t.agg, t.r));
    }

    method TurnSiblingRight(w: Ptr, aug: Aug, ghost c: Ctx, ghost t: Tree) returns (ghost t': Tree)
      requires Rep(M(), c, t) && t.Bin? && t.n == w && t.r.Bin?
      modifies this
      ensures Rep(M(), c, t') && Kept(old(cells), cells, AllNodes(c, t))
      ensures t' == AugRotL(aug, Bin(t.l, t.n, false, t.agg, Black(t.r)))
    {
      ghost var below := InR(t.l, t.n, t.black, t.agg, c);
      RepUp(M(), below, t.r);
      if cells[w].right != NULL { SetColor(cells[w].right, true, below, t.r); }
      RepUp(M(), below, Black(t.r));
      SetColor(w, false, c, t.(r := Black(t.r)));
      t' := RotateLeft(w, aug, c, Bin(t.l, t.n, false, t.agg, Black(t.r)));
    }

    /** Case 4 on the left: the sibling takes the parent's colour, and its red right child pays. */
    method BorrowLeft(parent: Ptr, w: Ptr, aug: Aug, ghost c: Ctx, ghost t: Tree) returns (ghost f: Tree)
      requires Rep(M(), c, t) && c.InL? && c.n == parent && c.r.Bin? && c.r.n == w && c.r.r.Bin?
      modifies this
      ensures f == AugRotL(aug, Borrowed(c, t))
      ensures Rep(M(), c.up, f) && Kept(old(cells), cells, AllNodes(c, t))
    {
      ReadBeside(M(), c, t);
      RepAcross(M(), c, t);
      ghost var cw := Across(c, t);
      SetColor(w, cells[parent].black, cw, c.r);
      ghost var w1 := c.r.(black := c.black);
      RepUp(M(), cw, w1);
      SetColor(parent, true, c.up, Bin(t, c.n, c.black, c.agg, w1));
      ghost var cw1 := InR(t, c.n, true, c.agg, c.up);
      RepUp(M(), cw1, w1);
      ghost var cr := InR(w1.l, w1.n, w1.black, w1.agg, cw1);
      RepUp(M(), cr, w1.r);
      if cells[w].right != NULL { SetColor(cells[w].right, true, cr, w1.r); }
      RepUp(M(), cr, Black(w1.r));
      RepUp(M(), cw1, w1.(r := Black(w1.r)));
      f := RotateLeft(parent, aug, c.up, Borrowed(c, t));
    }

    /** Cases 3 and 4 on the left: a black sibling with a red child ends the walk. */
    method EraseEndLeft(parent: Ptr, w0: Ptr, aug: Aug, ghost law: Aug, ghost c0: Ctx, ghost t: Tree, ghost s: seq<Ptr>)
      returns (ghost whole: Tree)
      requires Rep(M(), c0, t) && Short(law, c0, t, s) && IsBlack(t) && c0.InL? && c0.n == parent && Keeps(law, aug)
      requires c0.r.Bin? && c0.r.n == w0 && c0.r.black && !(IsBlack(c0.r.l) && IsBlack(c0.r.r))
      modifies this
      ensures Rep(M(), Top, whole) && Proper(law, whole, s) && Kept(old(cells), cells, Elems(s))
      ensures Carries(aug, c0, t, Top, whole, true) && whole == Plug(c0.up, Ended(aug, c0, t))
    {
      var w := w0;
      ghost var c := c0;
      WholeNodes(c, t);
      ReadSibling(M(), c, t);
      if NodeIsBlack(cells[w].right) {
        assert Sound(c.r) && AggSound(law, c.r);
        EraseCase3L(aug, law, c.r);
        RepAcross(M(), c, t);
        ghost var w' := TurnSiblingLeft(w, aug, Across(c, t), c.r);
        EraseSibReplaced(law, c, t, w', s);
        c := WithSib(c, w');
        WholeNodes(c, t);
        RepAcross(M(), c, t);
        ReadSibling(M(), c, t);
        w := cells[parent].right;
      }
      EraseCase4L(aug, law, c, t, s);
      CarriesEndLeft(aug, c0, c, t);
      assert c == Straight(aug, c0);
      EndedIs(aug, c0, c, t);
      ghost var f := BorrowLeft(parent, w, aug, c, t);
      RepPlug(M(), c.up, f);
      whole := Plug(c.up, f);
    }

    /** Case 2: the sibling turns red, and the parent's subtree becomes the short one. */
    method ReddenSibling(w: Ptr, ghost c: Ctx, ghost t: Tree)
      requires Rep(M(), c, t) && !c.Top? && Sib(c).Bin? && Sib(c).n == w
      modifies this
      ensures Rep(M(), c.up, UpTree(RedSib(c), t)) && Kept(old(cells), cells, AllNodes(c, t))
    {
      RepAcross(M(), c, t);
      SetColor(w, false, Across(c, t), Sib(c));
      RepUp(M(), Across(c, t), Sib(c).(black := false));
    }

    /** Makes sure that the sibling is black, by case 1 if need be. */
    method BlackSiblingLeft(parent: Ptr, aug: Aug, ghost law: Aug, ghost c0: Ctx, ghost t: Tree, ghost s: seq<Ptr>)
      returns (w: Ptr, ghost c: Ctx)
      requires Rep(M(), c0, t) && Short(law, c0, t, s) && IsBlack(t) && c0.InL? && c0.n == parent && Keeps(law, aug)
      modifies this
      ensures Kept(old(cells), cells, Elems(s)) && Carries(aug, c0, t, c, t, false) && c == Sibbed(aug, c0, t)
      ensures Rep(M(), c, t) && Short(law, c, t, s) && c.InL? && c.n == parent
      ensures c.r.Bin? && c.r.black && c.r.n == w && (c == c0 || !c.black)
    {
      c := c0;
      CarriesSelf(aug, c, t);
      WholeNodes(c, t);
      EraseSibling(law, c, t, s);
      ReadSibling(M(), c, t);
      w := cells[parent].right;
      if !cells[w].black {
        EraseCase1L(aug, law, c, t, s);
        CarriesCase1(aug, c, t);
        RedSiblingLeft(parent, w, aug, c, t);
        c := RedSibLeft(aug, c, t);
        EraseSibling(law, c, t, s);
        ReadSibling(M(), c, t);
        w := cells[parent].right;
      }
    }

    /** One turn of the loop for a short left subtree. */
    method EraseTurnLeft(parent: Ptr, aug: Aug, ghost law: Aug, ghost c0: Ctx, ghost t: Tree, ghost s: seq<Ptr>)
      returns (done: bool, ghost c': Ctx, ghost t': Tree)
      requires Rep(M(), c0, t) && Short(law, c0, t, s) && IsBlack(t) && c0.InL? && c0.n == parent && Keeps(law, aug)
      modifies this
      ensures Kept(old(cells), cells, Elems(s)) && Carries(aug, c0, t, c', t', done)
      ensures FixUp(aug, c0, t) == if done then t' else FixUp(aug, c', t')
      ensures if done then c' == Top && Rep(M(), Top, t') && Proper(law, t', s)
              else Rep(M(), c', t') && Short(law, c', t', s) && t'.Bin? && t'.n == parent
      ensures !done && IsBlack(t') ==> c' == c0.up
    {
      var w;
      ghost var c;
      EraseSibling(law, c0, t, s);
      w, c := BlackSiblingLeft(parent, aug, law, c0, t, s);
      FixUpTurn(aug, c0, t);
      ReadSibling(M(), c, t);
      if NodeIsBlack(cells[w].left) && NodeIsBlack(cells[w].right) {
        EraseCase2(law, c, t, s);
        CarriesCase2(aug, c, t);
        CarriesThen(aug, c0, t, c, t, c.up, UpTree(RedSib(c), t), false);
        WholeNodes(c, t);
        ReddenSibling(w, c, t);
        return false, c.up, UpTree(RedSib(c), t);
      }
      t' := EraseEndLeft(parent, w, aug, law, c, t, s);
      CarriesThen(aug, c0, t, c, t, Top, t', true);
      return true, Top, t';
    }

    /** Case 4 on the right: the sibling takes the parent's colour, and its red left child pays. */
    method BorrowRight(parent: Ptr, w: Ptr, aug: Aug, ghost c: Ctx, ghost t: Tree) returns (ghost f: Tree)
      requires Rep(M(), c, t) && c.InR? && c.n == parent && c.l.Bin? && c.l.n == w && c.l.l.Bin?
      modifies this
      ensures f == AugRotR(aug, Borrowed(c, t))
      ensures Rep(M(), c.up, f) && Kept(old(cells), cells, AllNodes(c, t))
    {
      ReadBeside(M(), c, t);
      RepAcross(M(), c, t);
      ghost var cw := Across(c, t);
      SetColor(w, cells[parent].black, cw, c.l);
      ghost var w1 := c.l.(black := c.black);
      RepUp(M(), cw, w1);
      SetColor(parent, true, c.up, Bin(w1, c.n, c.black, c.agg, t));
      ghost var cw1 := InL(c.up, c.n, true, c.agg, t);
      RepUp(M(), cw1, w1);
      ghost var cr := InL(cw1, w1.n, w1.black, w1.agg, w1.r);
      RepUp(M(), cr, w1.l);
      if cells[w].left != NULL { SetColor(cells[w].left, true, cr, w1.l); }
      RepUp(M(), cr, Black(w1.l));
      RepUp(M(), cw1, w1.(l := Black(w1.l)));
      f := RotateRight(parent, aug, c.up, Borrowed(c, t));
    }

    /** Cases 3 and 4 on the right: a black sibling with a red child ends the walk. */
    method EraseEndRight(parent: Ptr, w0: Ptr, aug: Aug, ghost law: Aug, ghost c0: Ctx, ghost t: Tree,
                         ghost s: seq<Ptr>)
      returns (ghost whole: Tree)
      requires Rep(M(), c0, t) && Short(law, c0, t, s) && IsBlack(t) && c0.InR? && c0.n == parent && Keeps(law, aug)
      requires c0.l.Bin? && c0.l.n == w0 && c0.l.black && !(IsBlack(c0.l.r) && IsBlack(c0.l.l))
      modifies this
      ensures Rep(M(), Top, whole) && Proper(law, whole, s) && Kept(old(cells), cells, Elems(s))
      ensures Carries(aug, c0, t, Top, whole, true) && whole == Plug(c0.up, Ended(aug, c0, t))
    {
      var w := w0;
      ghost var c := c0;
      WholeNodes(c, t);
      ReadSibling(M(), c, t);
      if NodeIsBlack(cells[w].left) {
        assert Sound(c.l) && AggSound(law, c.l);
        EraseCase3R(aug, law, c.l);
        RepAcross(M(), c, t);
        ghost var w' := TurnSiblingRight(w, aug, Across(c, t), c.l);
        EraseSibReplaced(law, c, t, w', s);
        c := WithSib(c, w');
        WholeNodes(c, t);
        RepAcross(M(), c, t);
        ReadSibling(M(), c, t);
        w := cells[parent].left;
      }
      EraseCase4R(aug, law, c, t, s);
      CarriesEndRight(aug, c0, c, t);
      assert c == Straight(aug, c0);
      EndedIs(aug, c0, c, t);
      ghost var f := BorrowRight(parent, w, aug, c, t);
      RepPlug(M(), c.up, f);
      whole := Plug(c.up, f);
    }

    /** Makes sure that the sibling is black, by case 1 if need be. */
    method BlackSiblingRight(parent: Ptr, aug: Aug, ghost law: Aug, ghost c0: Ctx, ghost t: Tree, ghost s: seq<Ptr>)
      returns (w: Ptr, ghost c: Ctx)
      requires Rep(M(), c0, t) && Short(law, c0, t, s) && IsBlack(t) && c0.InR? && c0.n == parent && Keeps(law, aug)
      modifies this
      ensures Kept(old(cells), cells, Elems(s)) && Carries(aug, c0, t, c, t, false) && c == Sibbed(aug, c0, t)
      ensures Rep(M(), c, t) && Short(law, c, t, s) && c.InR? && c.n == parent
      ensures c.l.Bin? && c.l.black && c.l.n == w && (c == c0 || !c.black)
    {
      c := c0;
      CarriesSelf(aug, c, t);
      WholeNodes(c, t);
      EraseSibling(law, c, t, s);
      ReadSibling(M(), c, t);
      w := cells[parent].left;
      if !cells[w].black {
        EraseCase1R(aug, law, c, t, s);
        CarriesCase1(aug, c, t);
        RedSiblingRight(parent, w, aug, c, t);
        c := RedSibRight(aug, c, t);
        EraseSibling(law, c, t, s);
        ReadSibling(M(), c, t);
        w := cells[parent].left;
      }
    }

    /** One turn of the loop for a short right subtree. */
    method EraseTurnRight(parent: Ptr, aug: Aug, ghost law: Aug, ghost c0: Ctx, ghost t: Tree, ghost s: seq<Ptr>)
      returns (done: bool, ghost c': Ctx, ghost t': Tree)
      requires Rep(M(), c0, t) && Short(law, c0, t, s) && IsBlack(t) && c0.InR? && c0.n == parent && Keeps(law, aug)
      modifies this
      ensures Kept(old(cells), cells, Elems(s)) && Carries(aug, c0, t, c', t', done)
      ensures FixUp(aug, c0, t) == if done then t' else FixUp(aug, c', t')
      ensures if done then c' == Top && Rep(M(), Top, t') && Proper(law, t', s)
              else Rep(M(), c', t') && Short(law, c', t', s) && t'.Bin? && t'.n == parent
      ensures !done && IsBlack(t') ==> c' == c0.up
    {
      var w;
      ghost var c;
      EraseSibling(law, c0, t, s);
      w, c := BlackSiblingRight(parent, aug, law, c0, t, s);
      FixUpTurn(aug, c0, t);
      ReadSibling(M(), c, t);
      if NodeIsBlack(cells[w].left) && NodeIsBlack(cells[w].right) {
        EraseCase2(law, c, t, s);
        CarriesCase2(aug, c, t);
        CarriesThen(aug, c0, t, c, t, c.up, UpTree(RedSib(c), t), false);
        WholeNodes(c, t);
        ReddenSibling(w, c, t);
        return false, c.up, UpTree(RedSib(c), t);
      }
      t' := EraseEndRight(parent, w, aug, law, c, t, s);
      CarriesThen(aug, c0, t, c, t, Top, t', true);
      return true, Top, t';
    }

    /** What the loop condition reads about x. */
    ghost predicate Seen(x: Ptr, c: Ctx, t: Tree)
      reads this
    {
      (x != NULL ==> x < |cells| && t.Bin? && cells[x].black == t.black) && (x == root <==> c.Top?)
    }

    /** One turn of the loop: the short subtree is repaired, or its parent's becomes the short one. */
    method EraseTurn(x: Ptr, parent: Ptr, aug: Aug, ghost law: Aug, ghost c: Ctx, ghost t: Tree, ghost s: seq<Ptr>)
      returns (done: bool, x': Ptr, parent': Ptr, ghost c': Ctx, ghost t': Tree)
      requires Rep(M(), c, t) && Short(law, c, t, s) && IsBlack(t) && !c.Top? && Keeps(law, aug)
      requires x == RootOf(t) && parent == CtxNode(c)
      modifies this
      ensures Kept(old(cells), cells, Elems(s)) && Carries(aug, c, t, c', t', done)
      ensures FixUp(aug, c, t) == if done then t' else FixUp(aug, c', t')
      ensures Rep(M(), c', t') && x' == RootOf(t') && (!done ==> parent' == CtxNode(c'))
      ensures if done then c'.Top? && Proper(law, t', s)
              else Short(law, c', t', s) && (IsBlack(t') ==> c' == c.up)
      ensures Seen(x', c', t')
    {
      ReadBeside(M(), c, t);
      EraseSibling(law, c, t, s);
      if x == cells[parent].left {
        done, c', t' := EraseTurnLeft(parent, aug, law, c, t, s);
      } else {
        done, c', t' := EraseTurnRight(parent, aug, law, c, t, s);
      }
      if done {
        x', parent' := root, NULL;
      } else {
        x' := parent;
        ReadAbove(M(), c', t');
        parent' := cells[x'].parent;
      }
      ReadBeside(M(), c', t');
      TopApart(M(), c', t');
    }

    /** The last store of the fix-up. */
    method BlackenTop(x: Ptr, ghost law: Aug, ghost c: Ctx, ghost t: Tree, ghost s: seq<Ptr>)
      returns (ghost whole: Tree)
      requires Rep(M(), c, t) && x == RootOf(t)
      requires (c.Top? && Proper(law, t, s)) || (Short(law, c, t, s) && (c.Top? || !IsBlack(t)))
      modifies this
      ensures Rep(M(), Top, whole) && Proper(law, whole, s) && Kept(old(cells), cells, Elems(s))
      ensures whole == Plug(c, Black(t))
    {
      if Short(law, c, t, s) { EraseStops(law, c, t, s); }
      WholeNodes(c, t);
      ReadBeside(M(), c, t);
      if x != NULL { SetColor(x, true, c, t); }
      RepPlug(M(), c, Black(t));
      whole := Plug(c, Black(t));
    }

    /** __rb_erase_fixup: `x`, possibly absent, is one black node short; `parent` is above it. */
    method EraseFixup(x0: Ptr, parent0: Ptr, aug: Aug, ghost law: Aug, ghost c0: Ctx, ghost t0: Tree, ghost s: seq<Ptr>)
      returns (ghost whole: Tree)
      requires Rep(M(), c0, t0) && Short(law, c0, t0, s) && x0 == RootOf(t0) && parent0 == CtxNode(c0) &&
        Keeps(law, aug)
      modifies this
      ensures Rep(M(), Top, whole) && Proper(law, whole, s) && Kept(old(cells), cells, Elems(s))
      ensures Carries(aug, c0, t0, Top, whole, true) && whole == FixUp(aug, c0, t0)
    {
      var x, parent, done := x0, parent0, false;
      ghost var c, t := c0, t0;
      ReadBeside(M(), c, t);
      TopApart(M(), c, t);
      CarriesSelf(aug, c, t);
      while !done && x != root && NodeIsBlack(x)
        invariant Kept(old(cells), cells, Elems(s))
        invariant Rep(M(), c, t) && x == RootOf(t) && (!done ==> parent == CtxNode(c))
        invariant if done then c.Top? && Proper(law, t, s) else Short(law, c, t, s)
        invariant Seen(x, c, t) && Carries(aug, c0, t0, c, t, done)
        invariant FixUp(aug, c0, t0) == if done then t else FixUp(aug, c, t)
        decreases if done || !IsBlack(t) then 0 else 1 + Height(c)
      {
        ghost var c1, t1 := c, t;
        done, x, parent, c, t := EraseTurn(x, parent, aug, law, c, t, s);
        CarriesThen(aug, c0, t0, c1, t1, c, t, done);
      }
      CarriesStop(aug, c0, t0, c, t, done);
      if done {
        assert Plug(Top, Black(t)) == t;
      } else {
        FixUpStops(aug, c, t);
      }
      whole := BlackenTop(x, law, c, t, s);
    }

    // ----------------------------------------------- propagation

    /** The propagate callback, from the node above t to the root or, if it stops early, to a node it leaves as it
        is. */
    method Propagate(from: Ptr, aug: Aug, ghost c0: Ctx, ghost t0: Tree)
      requires Rep(M(), c0, t0) && from == CtxNode(c0)
      modifies this
      ensures Rep(M(), Walked(aug, c0, t0), t0) && Kept(old(cells), cells, AllNodes(c0, t0))
    {
      var n, stop := from, false;
      ghost var c, t := c0, t0;
      ReadBeside(M(), c, t);
      while n != NULL && !stop
        invariant Rep(M(), c, t) && n == CtxNode(c)
        invariant AllNodes(c, t) == AllNodes(c0, t0) && Kept(old(cells), cells, AllNodes(c0, t0))
        invariant Plug(if stop then c else Walked(aug, c, t), t) == Plug(Walked(aug, c0, t0), t0)
        decreases Height(c)
      {
        RepUp(M(), c, t);
        ReadAbove(M(), c.up, UpTree(c, t));
        var was := cells[n].agg;
        Recompute(n, aug, c.up, UpTree(c, t));
        c, t := c.up, Refreshed(aug, UpTree(c, t));
        ReadAbove(M(), c, t);
        stop := aug.Aug? && aug.early && cells[n].agg == was;
        n := cells[n].parent;
        ReadBeside(M(), c, t);
      }
      RepPlug(M(), c, t);
      RepPlug(M(), Walked(aug, c0, t0), t0);
    }

    /** The second walk of __rb_erase, from the node above u: it changes aggregates only, and no right one. */
    method PropagateAgain(n: Ptr, aug: Aug, ghost d: Ctx, ghost u: Tree) returns (ghost t': Tree)
      requires Rep(M(), d, u) && n == CtxNode(d)
      modifies this
      ensures Rep(M(), Top, t') && t' == Plug(Walked(aug, d, u), u) && Kept(old(cells), cells, Elems(Whole(d, u)))
      ensures InOrder(t') == Whole(d, u) && (RedBlack(Plug(d, u)) ==> RedBlack(t'))
      ensures AggSound(aug, Plug(d, u)) ==> t' == Plug(d, u)
    {
      WholeNodes(d, u);
      WholeIsPlug(d, u);
      Propagate(n, aug, d, u);
      t' := Plug(Walked(aug, d, u), u);
      RepPlug(M(), Walked(aug, d, u), u);
      WalkedSame(aug, d, u);
      SamePlug(d, Walked(aug, d, u), u);
      if AggSound(aug, Plug(d, u)) {
        PlugAgg(aug, d, u);
        WalkedIdle(aug, d, u);
      }
    }

    // ----------------------------------------------- insert

    /** rb_link_node into the slot below `parent`, or into an empty tree. */
    method LinkNode(node: Ptr, parent: Ptr, left: bool, ghost c: Ctx) returns (ghost leaf: Tree)
      requires Rep(M(), c, Nil) && parent == CtxNode(c) && (parent != NULL ==> left == c.InL?)
      requires 0 < node < |cells| && node !in CtxNodes(c)
      modifies this
      ensures leaf == Bin(Nil, node, false, old(cells[node].agg), Nil)
      ensures Rep(M(), c, leaf) && Kept(old(cells), cells, AllNodes(c, leaf))
    {
      LinkedRep(M(), c, node);
      leaf := Bin(Nil, node, false, cells[node].agg, Nil);
      assert node in Nodes(leaf) && (!c.Top? ==> c.n in CtxNodes(c));
      cells := cells[node := Cell(NULL, NULL, parent, false, cells[node].agg)];
      if parent == NULL {
        root := node;
      } else if left {
        cells := cells[parent := cells[parent].(left := node)];
      } else {
        cells := cells[parent := cells[parent].(right := node)];
      }
    }

    /** rb_insert_augmented; with no callbacks, rb_insert_color. */
    method Insert(node: Ptr, aug: Aug, ghost c: Ctx, ghost leaf: Tree) returns (ghost t: Tree)
      requires Rep(M(), c, leaf) && leaf.Bin? && leaf.n == node && leaf.l.Nil? && leaf.r.Nil? && !leaf.black
      requires RedBlack(Plug(c, Nil)) && AggSound(aug, Plug(c, Nil)) && Lawful(aug)
      requires aug.Aug? ==> leaf.agg == aug.val(node)
      modifies this
      ensures Rep(M(), Top, t) && Kept(old(cells), cells, AllNodes(c, leaf))
      ensures RedBlack(t) && InOrder(t) == Before(c) + [node] + After(c) && AggSound(aug, t)
    {
      ReadAbove(M(), c, leaf);
      WholeNodes(c, leaf);
      assert InOrder(leaf) == [node];
      if aug.Aug? {
        Propagate(cells[node].parent, aug, c, leaf);
      } else {
        WalkedIdle(aug, c, leaf);
      }
      InsertReady(aug, c, leaf);
      t := InsertFixup(node, aug, Walked(aug, c, leaf), leaf, Before(c) + [node] + After(c));
    }

    // ----------------------------------------------- erase

    method Transplant(u: Ptr, v: Ptr)
      requires u < |cells| && v < |cells| && cells[u].parent < |cells|
      modifies this
      ensures M() == Transplanted(old(M()), u, v)
    {
      var up := cells[u].parent;
      if up == NULL {
        root := v;
      } else if cells[up].left == u {
        cells := cells[up := cells[up].(left := v)];
      } else {
        cells := cells[up := cells[up].(right := v)];
      }
      if v != NULL { cells := cells[v := cells[v].(parent := up)]; }
    }

    /** The leftmost node of a subtree: the first one in order, without a left child. */
    method SubtreeMin(n0: Ptr, ghost c: Ctx, ghost t: Tree) returns (n: Ptr, ghost inner: Ctx, ghost u: Tree)
      requires Rep(M(), c, t) && t.Bin? && t.n == n0
      ensures AllLeft(inner) && Plug(inner, u) == t && u.Bin? && u.l.Nil? && u.n == n
      ensures n == InOrder(t)[0]
    {
      n, inner, u := n0, Top, t;
      StartLeft(M(), c, t);
      while cells[n].left != NULL
        invariant Leftmost(M(), c, t, inner, u, n)
        decreases u
      {
        StepLeft(M(), c, t, inner, u, n);
        inner, u := InL(inner, u.n, u.black, u.agg, u.r), u.l;
        n := cells[n].left;
      }
      EndLeft(M(), c, t, inner, u, n);
    }

    /** transplant of a node by its only child, or by nothing: the child stands in its slot, and the node's own cell
        is not written. */
    method SpliceOut(z: Ptr, v: Ptr, ghost c: Ctx, ghost t: Tree, ghost child: Tree)
      requires Rep(M(), c, t) && t.Bin? && t.n == z && v == RootOf(child)
      requires (t.l.Nil? && child == t.r) || (t.r.Nil? && child == t.l)
      modifies this
      ensures Rep(M(), c, child) && Kept(old(cells), cells, AllNodes(c, child)) && z !in AllNodes(c, child)
    {
      SpliceRep(M(), c, t, child);
      SpliceKept(M(), c, t, child);
      Transplant(z, v);
    }

    /** y takes z's place, left subtree, colour and, with callbacks, aggregate. */
    method Supersede(z: Ptr, y: Ptr, aug: Aug, ghost c: Ctx, ghost l: Tree, ghost r: Tree) returns (ghost t: Tree)
      requires Ready(M(), c, z, l, y, r)
      modifies this
      ensures t.Bin? && t.l == l && t.r == r && t.n == y && t.black == old(cells[z].black)
      ensures aug.Aug? ==> t.agg == old(cells[z].agg)
      ensures Rep(M(), c, t) && Kept(old(cells), cells, AllNodes(c, t)) && z !in AllNodes(c, t)
    {
      t := Bin(l, y, cells[z].black, if aug.Aug? then cells[z].agg else cells[y].agg, r);
      TakeOverRep(M(), c, z, l, y, r, aug);
      TakeOverKept(M(), c, z, l, y, r, t.black, t.agg, aug);
      ReadyFacts(M(), c, z, l, y, r, t.black, t.agg);
      TakePlace(z, y, aug);
    }

    method TakePlace(z: Ptr, y: Ptr, aug: Aug)
      requires z < |cells| && y < |cells| && cells[z].parent < |cells| && cells[z].left < |cells|
      requires z != y && cells[z].parent != z
      modifies this
      ensures M() == TakeOver(old(M()), z, y, aug)
    {
      Transplant(z, y);
      var left := cells[z].left;
      cells := cells[y := cells[y].(left := left)];
      cells := cells[left := cells[left].(parent := y)];
      cells := cells[y := cells[y].(black := cells[z].black)];
      if aug.Aug? { cells := cells[y := cells[y].(agg := cells[z].agg)]; }
    }

    method AdoptRight(z: Ptr, y: Ptr)
      requires z < |cells| && y < |cells| && cells[z].right < |cells| && z != y
      modifies this
      ensures M() == Adopt(old(M()), z, y)
    {
      cells := cells[y := cells[y].(right := cells[z].right)];
      cells := cells[cells[y].right := cells[cells[y].right].(parent := y)];
    }

    /** The successor is z's right child. */
    method SupersedeNear(z: Ptr, y: Ptr, aug: Aug, ghost c: Ctx, ghost t: Tree) returns (ghost t': Tree)
      requires Rep(M(), c, t) && t.Bin? && t.n == z && t.l.Bin? && t.r.Bin? && t.r.l.Nil? && t.r.n == y
      modifies this
      ensures t'.Bin? && t' == Bin(t.l, y, t.black, t'.agg, t.r.r) && (aug.Aug? ==> t'.agg == t.agg)
      ensures Rep(M(), c, t') && Kept(old(cells), cells, AllNodes(c, t'))
    {
      ReadBelow(M(), c, t);
      ReadyNear(M(), c, t);
      t' := Supersede(z, y, aug, c, t.l, t.r.r);
    }

    /** A successor further down leaves its slot; z is not touched by that. */
    method DetachFar(y: Ptr, x: Ptr, ghost c: Ctx, ghost t: Tree, ghost inner: Ctx, ghost yt: Tree)
      requires Rep(M(), c, t) && t.Bin?
      requires !inner.Top? && Plug(inner, yt) == t.r && yt.Bin? && yt.l.Nil? && yt.n == y && x == RootOf(yt.r)
      modifies this
      ensures Rep(M(), c, t.(r := Plug(inner, yt.r))) && 0 < y < |cells| &&
        y !in AllNodes(c, t.(r := Plug(inner, yt.r)))
      ensures Kept(old(cells), cells, AllNodes(c, t.(r := Plug(inner, yt.r))) - {t.n})
    {
      ghost var o := InR(t.l, t.n, t.black, t.agg, c);
      RepUp(M(), o, t.r);
      RepOver(M(), inner, o, yt);
      SuccessorApart(c, t, inner, yt);
      ReadBelow(M(), Over(inner, o), yt);
      ReadBelow(M(), c, t);
      SpliceOut(y, x, Over(inner, o), yt, yt.r);
      RepOver(M(), inner, o, yt.r);
      RepUp(M(), o, Plug(inner, yt.r));
      ReadBelow(M(), c, t.(r := Plug(inner, yt.r)));
      PlugRoot(inner, yt, yt.r);
    }

    /** The successor lies deeper: it is spliced out and adopts z's right subtree. */
    method SupersedeFar(z: Ptr, y: Ptr, x: Ptr, aug: Aug, ghost c: Ctx, ghost t: Tree, ghost inner: Ctx, ghost yt: Tree)
      returns (ghost t': Tree)
      requires Rep(M(), c, t) && t.Bin? && t.n == z && t.l.Bin?
      requires !inner.Top? && Plug(inner, yt) == t.r && yt.Bin? && yt.l.Nil? && yt.n == y && x == RootOf(yt.r)
      modifies this
      ensures t'.Bin? && t' == Bin(t.l, y, t.black, t'.agg, Plug(inner, yt.r)) && (aug.Aug? ==> t'.agg == t.agg)
      ensures Rep(M(), c, t') && Kept(old(cells), cells, AllNodes(c, t'))
    {
      ghost var t1 := t.(r := Plug(inner, yt.r));
      DetachFar(y, x, c, t, inner, yt);
      PlugBin(inner, yt.r);
      ReadBelow(M(), c, t1);
      ReadyFar(M(), c, t1, y);
      AdoptRight(z, y);
      t' := Supersede(z, y, aug, c, t.l, Plug(inner, yt.r));
    }

    /** The two-child case: the successor leaves its slot and supersedes z. */
    method MoveSuccessor(z: Ptr, aug: Aug, ghost c: Ctx, ghost t: Tree)
      returns (x: Ptr, above: Ptr, black: bool, ghost d: Ctx, ghost u: Tree)
      requires Rep(M(), c, t) && t.Bin? && t.n == z && t.l.Bin? && t.r.Bin?
      requires RedBlack(Plug(c, t)) && AggSound(aug, Plug(c, t)) && Lawful(aug)
      modifies this
      ensures Rep(M(), d, u) && x == RootOf(u) && above == CtxNode(d)
      ensures Unlinked(aug, d, u, black, Without(c, t)) && Kept(old(cells), cells, Elems(Without(c, t)))
      ensures CtxAggSound(aug, Walked(aug, d, u), u) <==> !Stale(aug, t)
      ensures Stale(aug, t) ==> black == FirstBlack(t.r) && Far(aug, c, t, d, u)
    {
      ReadBelow(M(), c, t);
      ghost var o := InR(t.l, t.n, t.black, t.agg, c);
      RepUp(M(), o, t.r);
      var y;
      ghost var inner, yt;
      y, inner, yt := SubtreeMin(cells[z].right, o, t.r);
      RepOver(M(), inner, o, yt);
      ReadBelow(M(), Over(inner, o), yt);
      black := cells[y].black;
      x := cells[y].right;
      u := yt.r;
      ghost var t': Tree;
      SuccessorParent(M(), inner, o, yt);
      if cells[y].parent == z {
        above := y;
        t' := SupersedeNear(z, y, aug, c, t);
      } else {
        above := cells[y].parent;
        t' := SupersedeFar(z, y, x, aug, c, t, inner, yt);
      }
      d := Over(inner, InR(t'.l, t'.n, t'.black, t'.agg, c));
      EraseTwoChildren(aug, c, t, inner, yt, t'.agg);
      RepOver(M(), inner, InR(t'.l, t'.n, t'.black, t'.agg, c), u);
      RepUp(M(), InR(t'.l, t'.n, t'.black, t'.agg, c), Plug(inner, u));
      WholeNodes(d, u);
      FirstBlackIs(inner, yt);
      if aug.Aug? {
        SceneSet(aug, c, t, inner, yt);
        WalkExact(aug, c, t, inner, yt);
        assert d == Moved(c, t, inner, yt.n);
      }
    }

    /** The unlinking half of __rb_erase. */
    method Unlink(z: Ptr, aug: Aug, ghost c: Ctx, ghost t: Tree)
      returns (x: Ptr, above: Ptr, black: bool, ghost d: Ctx, ghost u: Tree)
      requires Rep(M(), c, t) && t.Bin? && t.n == z
      requires RedBlack(Plug(c, t)) && AggSound(aug, Plug(c, t)) && Lawful(aug)
      modifies this
      ensures Rep(M(), d, u) && x == RootOf(u) && above == CtxNode(d)
      ensures Unlinked(aug, d, u, black, Without(c, t)) && Kept(old(cells), cells, Elems(Without(c, t)))
      ensures CtxAggSound(aug, Walked(aug, d, u), u) <==> !Stale(aug, t)
      ensures Stale(aug, t) ==> black == FirstBlack(t.r) && Far(aug, c, t, d, u)
    {
      ReadBelow(M(), c, t);
      black := cells[z].black;
      if cells[z].left == NULL {
        x, above, d, u := cells[z].right, cells[z].parent, c, t.r;
        EraseOneChild(aug, c, t, t.r);
        OneChildWalk(aug, c, t, t.r);
        SpliceOut(z, x, c, t, t.r);
        WholeNodes(d, u);
      } else if cells[z].right == NULL {
        x, above, d, u := cells[z].left, cells[z].parent, c, t.l;
        EraseOneChild(aug, c, t, t.l);
        OneChildWalk(aug, c, t, t.l);
        SpliceOut(z, x, c, t, t.l);
        WholeNodes(d, u);
      } else {
        x, above, black, d, u := MoveSuccessor(z, aug, c, t);
      }
    }

    /** The first walk of __rb_erase: along the path d the aggregates are right exactly if none is stale. */
    method UnlinkWalk(z: Ptr, aug: Aug, ghost c: Ctx, ghost t: Tree)
      returns (x: Ptr, above: Ptr, black: bool, ghost d: Ctx, ghost u: Tree, ghost law: Aug)
      requires Rep(M(), c, t) && t.Bin? && t.n == z
      requires RedBlack(Plug(c, t)) && AggSound(aug, Plug(c, t)) && Lawful(aug)
      modifies this
      ensures Rep(M(), d, u) && x == RootOf(u) && above == CtxNode(d)
      ensures Keeps(law, aug) && law == (if Stale(aug, t) then NoAug else aug)
      ensures black ==> Short(law, d, u, Without(c, t))
      ensures !black ==> Proper(law, Plug(d, u), Without(c, t))
      ensures (AggSound(aug, Plug(d, u)) <==> !Stale(aug, t)) && (Stale(aug, t) ==> black == FirstBlack(t.r))
      ensures Stale(aug, t) && black ==> (AggSound(aug, FixUp(aug, d, u)) <==> Repairs(aug, c, t))
      ensures Walked(aug, d, u) == d
      ensures Kept(old(cells), cells, Elems(Without(c, t))) && (above != NULL ==> above in Without(c, t))
    {
      ghost var d0;
      x, above, black, d0, u := Unlink(z, aug, c, t);
      AboveListed(d0, u);
      WholeNodes(d0, u);
      if aug.Aug? && above != NULL {
        Propagate(above, aug, d0, u);
      } else {
        WalkedNowhere(aug, d0, u);
      }
      d := Walked(aug, d0, u);
      WalkedSame(aug, d0, u);
      assert CtxNode(d) == CtxNode(d0) == above;
      law := FirstWalk(aug, t, d0, u, black, Without(c, t));
      if Stale(aug, t) && black { RepairExact(aug, c, t, d0, u, Without(c, t)); }
      WalkedTwice(aug, d0, u);
    }

    /**
     * The second walk of __rb_erase, wherever the node above the gap now stands: it changes nothing, as that node's
     * aggregate is right for its children's, and a walk that does not stop early finds every aggregate right.
     */
    method WalkAgain(above: Ptr, aug: Aug, ghost whole: Tree)
      requires Rep(M(), Top, whole) && above in InOrder(whole)
      requires if aug.Aug? && aug.early then LocalAt(aug, whole, above) else AggSound(aug, whole)
      modifies this
      ensures Rep(M(), Top, whole) && Kept(old(cells), cells, Elems(InOrder(whole)))
    {
      ghost var d, u := BelowNode(whole, above);
      RepPlug(M(), d, u);
      WholeIsPlug(d, u);
      ghost var after := PropagateAgain(above, aug, d, u);
      if aug.Aug? && aug.early && !d.Top? { SecondWalk(aug, d, u); }
      assert after == whole;
    }

    /**
     * rb_erase_augmented; with no callbacks, rb_erase.  With callbacks that walk to the root every aggregate is right
     * again; with ones that stop early, unless that leaves the successor's new slot stale and no rotation repairs it.
     */
    method Erase(z: Ptr, aug: Aug, ghost c: Ctx, ghost t: Tree) returns (ghost whole: Tree)
      requires Rep(M(), c, t) && t.Bin? && t.n == z
      requires RedBlack(Plug(c, t)) && AggSound(aug, Plug(c, t)) && Lawful(aug)
      modifies this
      ensures Rep(M(), Top, whole) && Kept(old(cells), cells, Elems(Without(c, t)))
      ensures RedBlack(whole) && InOrder(whole) == Without(c, t)
      ensures AggSound(aug, whole) <==> !Stale(aug, t) || (FirstBlack(t.r) && Repairs(aug, c, t))
    {
      var x, above, black;
      ghost var d, u, law;
      x, above, black, d, u, law := UnlinkWalk(z, aug, c, t);
      if !d.Top? { WalkMinds(aug, d, u); }
      if black {
        whole := EraseFixup(x, above, aug, law, d, u, Without(c, t));
      } else {
        RepPlug(M(), d, u);
        whole := Plug(d, u);
        WalkLocal(aug, d, u);
      }
      if aug.Aug? && above != NULL { WalkAgain(above, aug, whole); }
    }

    // ----------------------------------------------- iteration

    /** rb_first: the first node in order, or null. */
    method First(ghost t: Tree) returns (n: Ptr)
      requires Rep(M(), Top, t)
      ensures n == FirstOf(InOrder(t))
    {
      n := root;
      if n != NULL {
        ghost var inner, u;
        n, inner, u := SubtreeMin(n, Top, t);
      }
    }

    /** rb_next: the in-order successor, or null at the end or for a detached node. */
    method Next(node0: Ptr, ghost c0: Ctx, ghost t0: Tree) returns (n: Ptr)
      requires node0 < |cells|
      requires cells[node0].parent != node0 ==> Rep(M(), c0, t0) && t0.Bin? && t0.n == node0
      ensures cells[node0].parent == node0 ==> n == NULL
      ensures cells[node0].parent != node0 ==> n == FirstOf(InOrder(t0.r) + After(c0))
    {
      if cells[node0].parent == node0 { return NULL; }
      ReadBelow(M(), c0, t0);
      if cells[node0].right != NULL {
        ghost var d := InR(t0.l, t0.n, t0.black, t0.agg, c0);
        RepUp(M(), d, t0.r);
        ghost var inner, u;
        n, inner, u := SubtreeMin(cells[node0].right, d, t0.r);
        return;
      }
      var node := node0;
      ghost var c, t := c0, t0;
      n := cells[node].parent;
      ReadBeside(M(), c, t);
      while n != NULL && node == cells[n].right
        invariant Rep(M(), c, t) && t.Bin? && t.n == node != NULL && n == CtxNode(c) && After(c) == After(c0)
        invariant n < |cells| && (n != NULL ==> cells[n] == CtxCell(c, node))
        decreases Height(c)
      {
        BesideApart(c, t);
        RepUp(M(), c, t);
        c, t := c.up, UpTree(c, t);
        node := n;
        ReadBelow(M(), c, t);
        n := cells[node].parent;
        ReadBeside(M(), c, t);
      }
      if n != NULL { BesideApart(c, t); }
    }
  }

  /** struct rb_root_cached. */
  class RbCached {
    const tree: RbTree
    var leftmost: Ptr

    constructor (memory: seq<Cell>)
      ensures tree.M() == Mem(NULL, memory) && leftmost == NULL && fresh(tree)
      ensures Rep(tree.M(), Top, Nil)
    {
      tree := new RbTree(memory);
      leftmost := NULL;
    }

    /** rb_insert_augmented_cached: `first` says that the descent went left at every step. */
    method InsertCached(node: Ptr, first: bool, aug: Aug, ghost c: Ctx, ghost leaf: Tree) returns (ghost t: Tree)
      requires Rep(tree.M(), c, leaf) && leaf.Bin? && leaf.n == node && leaf.l.Nil? && leaf.r.Nil? && !leaf.black
      requires RedBlack(Plug(c, Nil)) && AggSound(aug, Plug(c, Nil)) && Lawful(aug)
      requires aug.Aug? ==> leaf.agg == aug.val(node)
      requires leftmost == FirstOf(Before(c) + After(c)) && (first <==> Before(c) == [])
      modifies this, tree
      ensures Rep(tree.M(), Top, t) && RedBlack(t) && AggSound(aug, t)
      ensures InOrder(t) == Before(c) + [node] + After(c) && leftmost == FirstOf(InOrder(t))
      ensures Kept(old(tree.cells), tree.cells, AllNodes(c, leaf))
    {
      if first { leftmost := node; }
      t := tree.Insert(node, aug, c, leaf);
    }

    /** rb_erase_augmented_cached. */
    method EraseCached(node: Ptr, aug: Aug, ghost c: Ctx, ghost t: Tree) returns (ghost whole: Tree)
      requires Rep(tree.M(), c, t) && t.Bin? && t.n == node
      requires RedBlack(Plug(c, t)) && AggSound(aug, Plug(c, t)) && Lawful(aug)
      requires leftmost == FirstOf(Whole(c, t))
      modifies this, tree
      ensures Rep(tree.M(), Top, whole) && RedBlack(whole)
      ensures AggSound(aug, whole) <==> !Stale(aug, t) || (FirstBlack(t.r) && Repairs(aug, c, t))
      ensures InOrder(whole) == Without(c, t) && leftmost == FirstOf(InOrder(whole))
      ensures Kept(old(tree.cells), tree.cells, Elems(Without(c, t)))
    {
      ReadBelow(tree.M(), c, t);
      FirstIsOnce(tree.M(), c, t);
      if leftmost == node { leftmost := tree.Next(node, c, t); }
      whole := tree.Erase(node, aug, c, t);
    }
  }
}
