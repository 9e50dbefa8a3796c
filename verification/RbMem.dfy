/** Node memory: a pointer is an index, a cell is one struct rb_node.  `Rep` says that memory is
    the tree Plug(c, t); each lemma below says what a group of stores of rbtree.c makes of it. */
module RbMem {
  import opened RbShape

  datatype Cell = Cell(left: Ptr, right: Ptr, parent: Ptr, black: bool, agg: Val)

  /** The root pointer and the node memory. */
  datatype Mem = Mem(root: Ptr, cells: seq<Cell>)

  ghost function RootOf(t: Tree): Ptr { if t.Nil? then NULL else t.n }

  ghost function CtxNode(c: Ctx): Ptr { if c.Top? then NULL else c.n }

  ghost function TopOf(c: Ctx, hole: Ptr): Ptr
    decreases c
  {
    if c.Top? then hole else TopOf(c.up, c.n)
  }

  // ------------------------------------------------- memory holds a given tree

  /** Every node of t, and its links up to `parent`, is in memory. */
  ghost predicate Hold(m: seq<Cell>, t: Tree, parent: Ptr) {
    t.Nil? ||
    (0 < t.n < |m| && m[t.n] == Cell(RootOf(t.l), RootOf(t.r), parent, t.black, t.agg) &&
     Hold(m, t.l, t.n) && Hold(m, t.r, t.n))
  }

  ghost function CtxCell(c: Ctx, hole: Ptr): Cell
    requires !c.Top?
  {
    if c.InL? then Cell(hole, RootOf(c.r), CtxNode(c.up), c.black, c.agg)
    else Cell(RootOf(c.l), hole, CtxNode(c.up), c.black, c.agg)
  }

  ghost predicate CtxHold(m: seq<Cell>, c: Ctx, hole: Ptr)
    decreases c
  {
    c.Top? ||
    (0 < c.n < |m| && m[c.n] == CtxCell(c, hole) && Hold(m, Sib(c), c.n) && CtxHold(m, c.up, c.n))
  }

  ghost predicate Distinct(t: Tree) {
    t.Nil? ||
    (t.n !in Nodes(t.l) && t.n !in Nodes(t.r) && Nodes(t.l) !! Nodes(t.r) &&
     Distinct(t.l) && Distinct(t.r))
  }

  ghost predicate CtxDistinct(c: Ctx) {
    c.Top? ||
    (Distinct(Sib(c)) && c.n !in Nodes(Sib(c)) && c.n !in CtxNodes(c.up) && Nodes(Sib(c)) !! CtxNodes(c.up) &&
     CtxDistinct(c.up))
  }

  ghost predicate Apart(c: Ctx, t: Tree) {
    CtxDistinct(c) && Distinct(t) && Nodes(t) !! CtxNodes(c)
  }

  /** Memory is the tree Plug(c, t), all nodes different. */
  ghost predicate Rep(m: Mem, c: Ctx, t: Tree) {
    ( && Apart(c, t)
      && m.root == TopOf(c, RootOf(t))
      && CtxHold(m.cells, c, RootOf(t))
      && Hold(m.cells, t, CtxNode(c))) == true
  }

  ghost function AllNodes(c: Ctx, t: Tree): set<Ptr> { CtxNodes(c) + Nodes(t) }

  lemma ApartUp(c: Ctx, t: Tree)
    requires !c.Top?
    ensures Apart(c, t) <==> Apart(c.up, UpTree(c, t))
    ensures AllNodes(c, t) == AllNodes(c.up, UpTree(c, t))
  {
  }

  /** The same memory seen from one level further up. */
  lemma RepUp(m: Mem, c: Ctx, t: Tree)
    requires !c.Top?
    ensures Rep(m, c, t) <==> Rep(m, c.up, UpTree(c, t))
    ensures AllNodes(c, t) == AllNodes(c.up, UpTree(c, t))
  {
    ApartUp(c, t);
  }

  // ------------------------------------------------- frames

  ghost predicate Same(m: seq<Cell>, m': seq<Cell>, s: set<Ptr>) {
    |m| == |m'| && forall n :: n in s && 0 < n < |m| ==> m[n] == m'[n]
  }

  /** Cells other than those of s, and how many there are, stay as they were. */
  ghost predicate Kept(m: seq<Cell>, m': seq<Cell>, s: set<Ptr>) {
    |m'| == |m| && forall k :: 0 < k < |m| && k !in s ==> m'[k] == m[k]
  }

  ghost function Elems(s: seq<Ptr>): set<Ptr> { set x | x in s }

  /** The nodes of a tree are those of its in-order sequence. */
  lemma WholeNodes(c: Ctx, t: Tree)
    ensures AllNodes(c, t) == Elems(Whole(c, t))
  {
    RepPlug(Mem(NULL, []), c, t);
    WholeIsPlug(c, t);
    forall n ensures n in AllNodes(c, t) <==> n in Elems(Whole(c, t)) { NodesInOrder(Plug(c, t), n); }
  }

  lemma {:induction false} HoldFrame(m: seq<Cell>, m': seq<Cell>, t: Tree, parent: Ptr)
    requires Hold(m, t, parent) && Same(m, m', Nodes(t))
    ensures Hold(m', t, parent)
  {
    if t.Bin? {
      HoldFrame(m, m', t.l, t.n);
      HoldFrame(m, m', t.r, t.n);
      assert t.n in Nodes(t);
    }
  }

  lemma {:induction false} CtxHoldFrame(m: seq<Cell>, m': seq<Cell>, c: Ctx, hole: Ptr)
    requires CtxHold(m, c, hole) && Same(m, m', CtxNodes(c))
    ensures CtxHold(m', c, hole)
    decreases c
  {
    if !c.Top? {
      HoldFrame(m, m', Sib(c), c.n);
      CtxHoldFrame(m, m', c.up, c.n);
      assert c.n in CtxNodes(c);
    }
  }

  // ------------------------------------------------- single stores

  ghost function SetLeft(m: Mem, n: Ptr, v: Ptr): Mem
    requires n < |m.cells|
  {
    m.(cells := m.cells[n := m.cells[n].(left := v)])
  }

  ghost function SetRight(m: Mem, n: Ptr, v: Ptr): Mem
    requires n < |m.cells|
  {
    m.(cells := m.cells[n := m.cells[n].(right := v)])
  }

  ghost function SetParent(m: Mem, n: Ptr, v: Ptr): Mem
    requires n < |m.cells|
  {
    m.(cells := m.cells[n := m.cells[n].(parent := v)])
  }

  ghost function SetBlack(m: Mem, n: Ptr, v: bool): Mem
    requires n < |m.cells|
  {
    m.(cells := m.cells[n := m.cells[n].(black := v)])
  }

  ghost function SetAgg(m: Mem, n: Ptr, v: Val): Mem
    requires n < |m.cells|
  {
    m.(cells := m.cells[n := m.cells[n].(agg := v)])
  }

  /** The slot that holds `was`, a child link or the root pointer, now holds `now`. */
  ghost function Attach(m: Mem, parent: Ptr, was: Ptr, now: Ptr): Mem
    requires parent < |m.cells|
  {
    if parent == NULL then m.(root := now)
    else if m.cells[parent].left == was then SetLeft(m, parent, now)
    else SetRight(m, parent, now)
  }

  lemma AttachHold(m: Mem, c: Ctx, was: Ptr, now: Ptr)
    requires CtxHold(m.cells, c, was) && CtxDistinct(c) && m.root == TopOf(c, was) && |m.cells| > 0
    requires was != NULL && was !in CtxNodes(c)
    ensures CtxNode(c) < |m.cells|
    ensures CtxHold(Attach(m, CtxNode(c), was, now).cells, c, now)
    ensures Attach(m, CtxNode(c), was, now).root == TopOf(c, now)
    ensures forall k :: 0 < k < |m.cells| && k != CtxNode(c) ==> Attach(m, CtxNode(c), was, now).cells[k] == m.cells[k]
  {
    if !c.Top? {
      var m' := Attach(m, c.n, was, now).cells;
      assert Sib(c).Bin? ==> Sib(c).n in Nodes(Sib(c));
      HoldFrame(m.cells, m', Sib(c), c.n);
      CtxHoldFrame(m.cells, m', c.up, c.n);
    }
  }

  lemma Reparent(m: Mem, t: Tree, p: Ptr, q: Ptr)
    requires Hold(m.cells, t, p) && t.Bin? && Distinct(t)
    ensures Hold(SetParent(m, t.n, q).cells, t, q)
  {
    HoldFrame(m.cells, SetParent(m, t.n, q).cells, t.l, t.n);
    HoldFrame(m.cells, SetParent(m, t.n, q).cells, t.r, t.n);
  }

  // ------------------------------------------------- rotations

  ghost predicate CanRotL(m: Mem, n: Ptr) {
    && 0 < n < |m.cells| && m.cells[n].parent < |m.cells|
    && 0 < m.cells[n].right < |m.cells| && m.cells[m.cells[n].right].left < |m.cells|
  }

  /** The stores of __rb_rotate_left, in order. */
  ghost function RotL(m: Mem, n: Ptr): Mem
    requires CanRotL(m, n)
  {
    Attach(RotLStores(m, n), m.cells[n].parent, n, m.cells[n].right)
  }

  ghost function RotLStores(m: Mem, n: Ptr): (m': Mem)
    requires CanRotL(m, n)
    ensures |m'.cells| == |m.cells|
  {
    var pivot := m.cells[n].right;
    var inner := m.cells[pivot].left;
    var m1 := SetRight(m, n, inner);
    var m2 := if inner != NULL then SetParent(m1, inner, n) else m1;
    SetParent(SetParent(SetLeft(m2, pivot, n), n, pivot), pivot, m.cells[n].parent)
  }

  lemma RotLCells(m: Mem, n: Ptr)
    requires CanRotL(m, n)
    requires var pivot := m.cells[n].right; n != pivot && m.cells[pivot].left !in {n, pivot}
    ensures
      var pivot, m' := m.cells[n].right, RotLStores(m, n);
      var inner := m.cells[pivot].left;
      && m'.root == m.root
      && m'.cells[n] == m.cells[n].(right := inner, parent := pivot)
      && m'.cells[pivot] == m.cells[pivot].(left := n, parent := m.cells[n].parent)
      && (inner != NULL ==> m'.cells[inner] == m.cells[inner].(parent := n))
      && (forall k :: 0 < k < |m.cells| && k !in {n, pivot, inner} ==> m'.cells[k] == m.cells[k])
  {
  }

  ghost function RotatedLeft(t: Tree): Tree
    requires t.Bin? && t.r.Bin?
  {
    Bin(Bin(t.l, t.n, t.black, t.agg, t.r.l), t.r.n, t.r.black, t.r.agg, t.r.r)
  }

  lemma RotatedLeftApart(c: Ctx, t: Tree)
    requires t.Bin? && t.r.Bin? && Apart(c, t)
    ensures Apart(c, RotatedLeft(t)) && Nodes(RotatedLeft(t)) == Nodes(t)
  {
    var low := RotatedLeft(t).l;
    assert Distinct(t.r) && Nodes(t) == Nodes(t.l) + {t.n} + Nodes(t.r);
    assert Nodes(t.r) == Nodes(t.r.l) + {t.r.n} + Nodes(t.r.r);
    assert Nodes(low) == Nodes(t.l) + {t.n} + Nodes(t.r.l);
    assert Distinct(low);
  }

  /** Two nodes and three subtrees, none of them sharing a node, rearranged. */
  lemma HoldRotated(m: seq<Cell>, m': seq<Cell>, t: Tree, p: Ptr)
    requires t.Bin? && t.r.Bin? && Hold(m, t, p) && Hold(m, t.r, t.n) && |m| == |m'|
    requires m'[t.n] == Cell(RootOf(t.l), RootOf(t.r.l), t.r.n, t.black, t.agg)
    requires m'[t.r.n] == Cell(t.n, RootOf(t.r.r), p, t.r.black, t.r.agg)
    requires Same(m, m', Nodes(t.l)) && Same(m, m', Nodes(t.r.r)) && Hold(m', t.r.l, t.n)
    ensures Hold(m', RotatedLeft(t), p)
  {
    HoldFrame(m, m', t.l, t.n);
    HoldFrame(m, m', t.r.r, t.r.n);
    assert Hold(m', RotatedLeft(t).l, t.r.n);
  }

  lemma HoldInner(m: seq<Cell>, m': seq<Cell>, t: Tree, p: Ptr, q: Ptr)
    requires Hold(m, t, p) && Distinct(t) && |m| == |m'|
    requires t.Bin? ==> m'[t.n] == m[t.n].(parent := q)
    requires Same(m, m', Nodes(t) - {RootOf(t)})
    ensures Hold(m', t, q)
  {
    if t.Bin? {
      HoldFrame(m, m', t.l, t.n);
      HoldFrame(m, m', t.r, t.n);
    }
  }

  lemma RotLStoresHold(m: Mem, t: Tree, p: Ptr)
    requires t.Bin? && t.r.Bin? && Distinct(t) && Hold(m.cells, t, p) && p < |m.cells|
    ensures CanRotL(m, t.n) && m.cells[t.n].right == t.r.n
    ensures Hold(RotLStores(m, t.n).cells, RotatedLeft(t), p)
    ensures forall n :: 0 < n < |m.cells| && n !in Nodes(t) ==> RotLStores(m, t.n).cells[n] == m.cells[n]
    ensures RotLStores(m, t.n).root == m.root
  {
    var b := t.r.l;
    assert Hold(m.cells, t.r, t.n) && t.r.n in Nodes(t.r) && Nodes(b) <= Nodes(t.r) && Distinct(t.r);
    assert b.Bin? ==> b.n in Nodes(b) && Hold(m.cells, b, t.r.n);
    RotLCells(m, t.n);
    var m' := RotLStores(m, t.n).cells;
    HoldInner(m.cells, m', b, t.r.n, t.n);
    HoldRotated(m.cells, m', t, p);
  }

  lemma RotLRep(m: Mem, c: Ctx, t: Tree)
    requires t.Bin? && t.r.Bin? && Rep(m, c, t)
    ensures CanRotL(m, t.n) && Rep(RotL(m, t.n), c, RotatedLeft(t))
    ensures Nodes(RotatedLeft(t)) == Nodes(t)
  {
    RotatedLeftApart(c, t);
    assert CtxNode(c) < |m.cells|;
    RotLStoresHold(m, t, CtxNode(c));
    var m1 := RotLStores(m, t.n);
    CtxHoldFrame(m.cells, m1.cells, c, t.n);
    AttachHold(m1, c, t.n, t.r.n);
    HoldFrame(m1.cells, RotL(m, t.n).cells, RotatedLeft(t), CtxNode(c));
  }

  lemma AttachCells(m: Mem, parent: Ptr, was: Ptr, now: Ptr)
    requires parent < |m.cells|
    ensures forall k :: 0 < k < |m.cells| && k != parent ==> Attach(m, parent, was, now).cells[k] == m.cells[k]
  {
  }

  lemma RotLKept(m: Mem, c: Ctx, t: Tree)
    requires t.Bin? && t.r.Bin? && Rep(m, c, t)
    ensures CanRotL(m, t.n) && Kept(m.cells, RotL(m, t.n).cells, AllNodes(c, t))
  {
    RotLStoresHold(m, t, CtxNode(c));
    assert !c.Top? ==> c.n in CtxNodes(c);
    AttachCells(RotLStores(m, t.n), m.cells[t.n].parent, t.n, m.cells[t.n].right);
  }

  // ------------------------------------------------- the mirror image

  ghost function MirT(t: Tree): Tree {
    if t.Nil? then Nil else Bin(MirT(t.r), t.n, t.black, t.agg, MirT(t.l))
  }

  ghost function MirC(c: Ctx): Ctx {
    match c
    case Top => Top
    case InL(up, n, b, a, r) => InR(MirT(r), n, b, a, MirC(up))
    case InR(l, n, b, a, up) => InL(MirC(up), n, b, a, MirT(l))
  }

  ghost function MirS(m: seq<Cell>): seq<Cell> {
    seq(|m|, i requires 0 <= i < |m| => m[i].(left := m[i].right, right := m[i].left))
  }

  ghost function MirM(m: Mem): Mem { m.(cells := MirS(m.cells)) }

  lemma {:induction false} MirTree(m: seq<Cell>, t: Tree, p: Ptr)
    ensures Nodes(MirT(t)) == Nodes(t) && MirT(MirT(t)) == t
    ensures Distinct(MirT(t)) <==> Distinct(t)
    ensures Hold(MirS(m), MirT(t), p) <==> Hold(m, t, p)
  {
    if t.Bin? {
      MirTree(m, t.l, t.n);
      MirTree(m, t.r, t.n);
    }
  }

  lemma {:induction false} MirCtx(m: seq<Cell>, c: Ctx, hole: Ptr)
    ensures CtxNodes(MirC(c)) == CtxNodes(c) && MirC(MirC(c)) == c && TopOf(MirC(c), hole) == TopOf(c, hole)
    ensures CtxDistinct(MirC(c)) <==> CtxDistinct(c)
    ensures CtxHold(MirS(m), MirC(c), hole) <==> CtxHold(m, c, hole)
    decreases c
  {
    if !c.Top? {
      MirTree(m, Sib(c), c.n);
      MirCtx(m, c.up, c.n);
    }
  }

  lemma MirRep(m: Mem, c: Ctx, t: Tree)
    ensures Rep(MirM(m), MirC(c), MirT(t)) <==> Rep(m, c, t)
    ensures AllNodes(MirC(c), MirT(t)) == AllNodes(c, t)
  {
    MirTree(m.cells, t, CtxNode(c));
    MirCtx(m.cells, c, RootOf(t));
  }

  ghost predicate CanRotR(m: Mem, n: Ptr) {
    && 0 < n < |m.cells| && m.cells[n].parent < |m.cells|
    && 0 < m.cells[n].left < |m.cells| && m.cells[m.cells[n].left].right < |m.cells|
  }

  /** The stores of __rb_rotate_right, in order. */
  ghost function RotR(m: Mem, n: Ptr): Mem
    requires CanRotR(m, n)
  {
    var pivot := m.cells[n].left;
    var inner := m.cells[pivot].right;
    var m1 := SetLeft(m, n, inner);
    var m2 := if inner != NULL then SetParent(m1, inner, n) else m1;
    var m3 := SetParent(SetParent(SetRight(m2, pivot, n), n, pivot), pivot, m.cells[n].parent);
    Attach(m3, m.cells[n].parent, n, pivot)
  }

  ghost function RotatedRight(t: Tree): Tree
    requires t.Bin? && t.l.Bin?
  {
    Bin(t.l.l, t.l.n, t.l.black, t.l.agg, Bin(t.l.r, t.n, t.black, t.agg, t.r))
  }

  lemma MirStore(m: Mem, n: Ptr, v: Ptr)
    requires n < |m.cells|
    ensures MirM(SetLeft(m, n, v)) == SetRight(MirM(m), n, v)
    ensures MirM(SetRight(m, n, v)) == SetLeft(MirM(m), n, v)
    ensures MirM(SetParent(m, n, v)) == SetParent(MirM(m), n, v)
  {
  }

  lemma RotRMirror(m: Mem, n: Ptr)
    requires CanRotR(m, n)
    requires var p := m.cells[n].parent; p != NULL ==>
      p !in {n, m.cells[n].left} && (m.cells[p].left == n <==> m.cells[p].right != n)
    ensures CanRotL(MirM(m), n) && MirM(RotR(m, n)) == RotL(MirM(m), n)
  {
    var pivot := m.cells[n].left;
    var inner := m.cells[pivot].right;
    var parent := m.cells[n].parent;
    MirStore(m, n, inner);
    var m1 := SetLeft(m, n, inner);
    if inner != NULL { MirStore(m1, inner, n); }
    var m2 := if inner != NULL then SetParent(m1, inner, n) else m1;
    MirTurn(m2, n, pivot, parent);
    var m3 := SetParent(SetParent(SetRight(m2, pivot, n), n, pivot), pivot, parent);
    if parent != NULL { MirStore(m3, parent, pivot); }
  }

  /** The three stores that put the pivot over n. */
  lemma MirTurn(m: Mem, n: Ptr, pivot: Ptr, parent: Ptr)
    requires 0 < n < |m.cells| && 0 < pivot < |m.cells|
    ensures MirM(SetParent(SetParent(SetRight(m, pivot, n), n, pivot), pivot, parent)) ==
            SetParent(SetParent(SetLeft(MirM(m), pivot, n), n, pivot), pivot, parent)
  {
    MirStore(m, pivot, n);
    var m1 := SetRight(m, pivot, n);
    MirStore(m1, n, pivot);
    MirStore(SetParent(m1, n, pivot), pivot, parent);
  }

  lemma MirKept(m: seq<Cell>, m': seq<Cell>, s: set<Ptr>)
    requires Kept(MirS(m), MirS(m'), s)
    ensures Kept(m, m', s)
  {
    forall k | 0 < k < |m| && k !in s ensures m'[k] == m[k] { assert MirS(m')[k] == MirS(m)[k]; }
  }

  lemma RotRRep(m: Mem, c: Ctx, t: Tree)
    requires t.Bin? && t.l.Bin? && Rep(m, c, t)
    ensures CanRotR(m, t.n) && Rep(RotR(m, t.n), c, RotatedRight(t))
    ensures Nodes(RotatedRight(t)) == Nodes(t)
  {
    MirRep(m, c, t);
    RotLRep(MirM(m), MirC(c), MirT(t));
    assert Hold(m.cells, t.l, t.n);
    assert CtxNode(c) < |m.cells|;
    assert !c.Top? ==> Sib(c).Bin? ==> Sib(c).n in Nodes(Sib(c));
    RotRMirror(m, t.n);
    assert MirT(RotatedRight(t)) == RotatedLeft(MirT(t));
    MirRep(RotR(m, t.n), c, RotatedRight(t));
    MirTree([], t, NULL);
    MirTree([], RotatedRight(t), NULL);
  }

  lemma RotRKept(m: Mem, c: Ctx, t: Tree)
    requires t.Bin? && t.l.Bin? && Rep(m, c, t)
    ensures CanRotR(m, t.n) && Kept(m.cells, RotR(m, t.n).cells, AllNodes(c, t))
  {
    MirRep(m, c, t);
    RotLKept(MirM(m), MirC(c), MirT(t));
    assert Hold(m.cells, t.l, t.n);
    assert !c.Top? ==> Sib(c).Bin? ==> Sib(c).n in Nodes(Sib(c));
    RotRMirror(m, t.n);
    MirKept(m.cells, RotR(m, t.n).cells, AllNodes(c, t));
  }

  // ------------------------------------------------- colours and aggregates

  /** Storing a colour or an aggregate in the root of the subtree at hand. */
  lemma StoreRep(m: Mem, c: Ctx, t: Tree, b: bool, a: Val)
    requires Rep(m, c, t) && t.Bin?
    ensures t.n < |m.cells|
    ensures Rep(m.(cells := m.cells[t.n := m.cells[t.n].(black := b, agg := a)]), c, t.(black := b, agg := a))
    ensures Nodes(t.(black := b, agg := a)) == Nodes(t)
  {
    var m' := m.cells[t.n := m.cells[t.n].(black := b, agg := a)];
    assert t.n in Nodes(t);
    HoldFrame(m.cells, m', t.l, t.n);
    HoldFrame(m.cells, m', t.r, t.n);
    CtxHoldFrame(m.cells, m', c, t.n);
  }

  lemma {:induction false} RepPlug(m: Mem, c: Ctx, t: Tree)
    ensures Rep(m, c, t) <==> Rep(m, Top, Plug(c, t))
    ensures AllNodes(c, t) == Nodes(Plug(c, t))
    decreases c
  {
    if !c.Top? {
      RepUp(m, c, t);
      RepPlug(m, c.up, UpTree(c, t));
    }
  }

  lemma RepOver(m: Mem, inner: Ctx, outer: Ctx, t: Tree)
    ensures Rep(m, Over(inner, outer), t) <==> Rep(m, outer, Plug(inner, t))
    ensures AllNodes(Over(inner, outer), t) == AllNodes(outer, Plug(inner, t))
  {
    OverPlug(inner, outer, t);
    RepPlug(m, Over(inner, outer), t);
    RepPlug(m, outer, Plug(inner, t));
  }

  // ------------------------------------------------- linking and unlinking

  /** rb_link_node: a detached cell becomes a red leaf in an empty slot. */
  ghost function Linked(m: Mem, node: Ptr, parent: Ptr, left: bool): Mem
    requires node < |m.cells| && parent < |m.cells|
  {
    var m1 := m.(cells := m.cells[node := Cell(NULL, NULL, parent, false, m.cells[node].agg)]);
    if parent == NULL then m1.(root := node)
    else if left then SetLeft(m1, parent, node)
    else SetRight(m1, parent, node)
  }

  lemma LinkedRep(m: Mem, c: Ctx, node: Ptr)
    requires Rep(m, c, Nil) && 0 < node < |m.cells| && node !in CtxNodes(c)
    ensures CtxNode(c) < |m.cells|
    ensures Rep(Linked(m, node, CtxNode(c), c.InL?), c, Bin(Nil, node, false, m.cells[node].agg, Nil))
  {
    if !c.Top? {
      var m' := Linked(m, node, c.n, c.InL?).cells;
      HoldFrame(m.cells, m', Sib(c), c.n);
      CtxHoldFrame(m.cells, m', c.up, c.n);
    }
  }

  /** transplant: the slot of u takes v. */
  ghost function Transplanted(m: Mem, u: Ptr, v: Ptr): Mem
    requires u < |m.cells| && v < |m.cells| && m.cells[u].parent < |m.cells|
  {
    var up := m.cells[u].parent;
    var m1 := Attach(m, up, u, v);
    if v != NULL then SetParent(m1, v, up) else m1
  }

  lemma SpliceFacts(m: Mem, c: Ctx, t: Tree, child: Tree)
    requires Rep(m, c, t) && t.Bin? && ((t.l.Nil? && child == t.r) || (t.r.Nil? && child == t.l))
    ensures Nodes(child) <= Nodes(t) && t.n in Nodes(t) && t.n !in Nodes(child) && Distinct(child)
    ensures Hold(m.cells, child, t.n) && (child.Bin? ==> 0 < child.n < |m.cells| && child.n in Nodes(child))
    ensures 0 < t.n < |m.cells| && m.cells[t.n].parent == CtxNode(c) < |m.cells|
    ensures CtxNode(c) !in Nodes(t)
  {
    assert !c.Top? ==> c.n in CtxNodes(c);
    HoldPositive(m.cells, t, CtxNode(c));
  }

  /** A node with at most one child is replaced by that child. */
  lemma SpliceRep(m: Mem, c: Ctx, t: Tree, child: Tree)
    requires Rep(m, c, t) && t.Bin?
    requires (t.l.Nil? && child == t.r) || (t.r.Nil? && child == t.l)
    ensures 0 < t.n < |m.cells| && RootOf(child) < |m.cells| && m.cells[t.n].parent == CtxNode(c) < |m.cells|
    ensures Rep(Transplanted(m, t.n, RootOf(child)), c, child)
  {
    SpliceFacts(m, c, t, child);
    AttachHold(m, c, t.n, RootOf(child));
    var m1 := Attach(m, CtxNode(c), t.n, RootOf(child));
    HoldFrame(m.cells, m1.cells, child, t.n);
    if child.Bin? {
      Reparent(m1, child, t.n, CtxNode(c));
      CtxHoldFrame(m1.cells, SetParent(m1, child.n, CtxNode(c)).cells, c, child.n);
    }
  }

  /** Apart from that, only the parent's cell changes: the spliced node's own does not. */
  lemma SpliceKept(m: Mem, c: Ctx, t: Tree, child: Tree)
    requires Rep(m, c, t) && t.Bin? && ((t.l.Nil? && child == t.r) || (t.r.Nil? && child == t.l))
    ensures 0 < t.n < |m.cells| && RootOf(child) < |m.cells| && m.cells[t.n].parent < |m.cells|
    ensures Kept(m.cells, Transplanted(m, t.n, RootOf(child)).cells, AllNodes(c, child)) && t.n !in AllNodes(c, child)
  {
    SpliceFacts(m, c, t, child);
    AttachCells(m, m.cells[t.n].parent, t.n, RootOf(child));
    assert !c.Top? ==> c.n in CtxNodes(c);
  }

  /** The end of __rb_erase's two-child case: y moves into z's slot, with z's left subtree and colour. */
  ghost function TakeOver(m: Mem, z: Ptr, y: Ptr, aug: Aug): Mem
    requires z < |m.cells| && y < |m.cells| && m.cells[z].parent < |m.cells| && m.cells[z].left < |m.cells|
  {
    Inherit(Transplanted(m, z, y), z, y, m.cells[z].left, aug)
  }

  /** y, already in z's slot, takes z's left subtree l, its colour and, with callbacks, its aggregate. */
  ghost function Inherit(m: Mem, z: Ptr, y: Ptr, l: Ptr, aug: Aug): Mem
    requires z < |m.cells| && y < |m.cells| && l < |m.cells|
  {
    var m1 := SetParent(SetLeft(m, y, l), l, y);
    var m2 := SetBlack(m1, y, m1.cells[z].black);
    if aug.Aug? then SetAgg(m2, y, m2.cells[z].agg) else m2
  }

  lemma InheritCells(m: Mem, z: Ptr, y: Ptr, l: Ptr, aug: Aug)
    requires z < |m.cells| && 0 < y < |m.cells| && 0 < l < |m.cells| && z != y && l !in {z, y}
    ensures
      var m', from := Inherit(m, z, y, l, aug), m.cells[z];
      && m'.root == m.root && |m'.cells| == |m.cells|
      && m'.cells[y] == m.cells[y].(left := l, black := from.black, agg := if aug.Aug? then from.agg
        else m.cells[y].agg)
      && m'.cells[l] == m.cells[l].(parent := y)
      && (forall k :: 0 < k < |m.cells| && k !in {y, l} ==> m'.cells[k] == m.cells[k])
  {
  }

  lemma TransplantCells(m: Mem, z: Ptr, y: Ptr)
    requires 0 < z < |m.cells| && 0 < y < |m.cells| && m.cells[z].parent < |m.cells| && m.cells[z].parent != y
    ensures
      var p, m', m1 := m.cells[z].parent, Transplanted(m, z, y), Attach(m, m.cells[z].parent, z, y);
      && m'.root == m1.root && |m'.cells| == |m.cells| && m'.cells[y] == m.cells[y].(parent := p)
      && (p != NULL ==> m'.cells[p] == m1.cells[p])
      && (forall k :: 0 < k < |m.cells| && k !in {y, p} ==> m'.cells[k] == m.cells[k])
  {
  }

  lemma TakeOverCells(m: Mem, z: Ptr, y: Ptr, aug: Aug)
    requires 0 < z < |m.cells| && 0 < y < |m.cells| && z != y
    requires m.cells[z].parent < |m.cells| && m.cells[z].parent !in {z, y}
    requires 0 < m.cells[z].left < |m.cells| && m.cells[z].left !in {z, y, m.cells[z].parent}
    ensures
      var l, p, m', m1 := m.cells[z].left, m.cells[z].parent, TakeOver(m, z, y, aug),
        Attach(m, m.cells[z].parent, z, y);
      && m'.root == m1.root && |m'.cells| == |m.cells|
      && m'.cells[y] == Cell(l, m.cells[y].right, p, m.cells[z].black, if aug.Aug? then m.cells[z].agg
        else m.cells[y].agg)
      && m'.cells[l] == m.cells[l].(parent := y)
      && (p != NULL ==> m'.cells[p] == m1.cells[p])
      && (forall k :: 0 < k < |m.cells| && k !in {y, l, p} ==> m'.cells[k] == m.cells[k])
  {
    TransplantCells(m, z, y);
    InheritCells(Transplanted(m, z, y), z, y, m.cells[z].left, aug);
  }

  /** What TakeOver needs to find: z in its slot, y with its right subtree ready. */
  ghost predicate Ready(m: Mem, c: Ctx, z: Ptr, l: Tree, y: Ptr, r: Tree) {
    && CtxHold(m.cells, c, z) && m.root == TopOf(c, z) && CtxDistinct(c)
    && Distinct(l) && Distinct(r) && Nodes(l) !! Nodes(r) && Nodes(l) + Nodes(r) !! CtxNodes(c)
    && {z, y} !! CtxNodes(c) + Nodes(l) + Nodes(r) && z != y
    && 0 < z < |m.cells| && 0 < y < |m.cells|
    && m.cells[z].left == RootOf(l) && m.cells[z].parent == CtxNode(c) && m.cells[y].right == RootOf(r)
    && l.Bin? && Hold(m.cells, l, z) && Hold(m.cells, r, y)
  }

  lemma ReadyFacts(m: Mem, c: Ctx, z: Ptr, l: Tree, y: Ptr, r: Tree, b: bool, a: Val)
    requires Ready(m, c, z, l, y, r)
    ensures Apart(c, Bin(l, y, b, a, r))
    ensures m.cells[z].parent < |m.cells| && m.cells[z].parent !in {z, y}
    ensures 0 < m.cells[z].left < |m.cells| && m.cells[z].left !in {z, y, m.cells[z].parent}
    ensures l.n !in CtxNodes(c) + Nodes(r) && CtxNode(c) !in Nodes(l) && CtxNode(c) !in Nodes(r) - {NULL}
  {
    assert l.n in Nodes(l);
    assert !c.Top? ==> c.n in CtxNodes(c);
    HoldPositive(m.cells, l, z);
  }

  lemma {:induction false} HoldPositive(m: seq<Cell>, t: Tree, p: Ptr)
    requires Hold(m, t, p)
    ensures NULL !in Nodes(t)
  {
    if t.Bin? {
      HoldPositive(m, t.l, t.n);
      HoldPositive(m, t.r, t.n);
    }
  }

  lemma TakeOverRep(m: Mem, c: Ctx, z: Ptr, l: Tree, y: Ptr, r: Tree, aug: Aug)
    requires Ready(m, c, z, l, y, r)
    ensures m.cells[z].parent < |m.cells| && m.cells[z].left < |m.cells|
    ensures Rep(TakeOver(m, z, y, aug), c,
      Bin(l, y, m.cells[z].black, if aug.Aug? then m.cells[z].agg else m.cells[y].agg, r))
  {
    ReadyFacts(m, c, z, l, y, r, m.cells[z].black, if aug.Aug? then m.cells[z].agg else m.cells[y].agg);
    TakeOverCells(m, z, y, aug);
    AttachHold(m, c, z, y);
    TakeOverParts(m, Attach(m, CtxNode(c), z, y).cells, TakeOver(m, z, y, aug).cells, c, z, l, y, r);
  }

  /** It writes the cells of the tree it leaves, so not z's. */
  lemma TakeOverKept(m: Mem, c: Ctx, z: Ptr, l: Tree, y: Ptr, r: Tree, b: bool, a: Val, aug: Aug)
    requires Ready(m, c, z, l, y, r)
    ensures m.cells[z].parent < |m.cells| && m.cells[z].left < |m.cells|
    ensures Kept(m.cells, TakeOver(m, z, y, aug).cells, AllNodes(c, Bin(l, y, b, a, r)))
  {
    ReadyFacts(m, c, z, l, y, r, b, a);
    TakeOverCells(m, z, y, aug);
    assert l.n in Nodes(l) && (!c.Top? ==> c.n in CtxNodes(c));
  }

  lemma TakeOverParts(m: Mem, m1: seq<Cell>, m': seq<Cell>, c: Ctx, z: Ptr, l: Tree, y: Ptr, r: Tree)
    requires Ready(m, c, z, l, y, r) && CtxHold(m1, c, y) && |m'| == |m1| == |m.cells|
    requires CtxNode(c) !in Nodes(l) && CtxNode(c) !in Nodes(r) - {NULL} && l.n !in CtxNodes(c) + Nodes(r)
    requires m'[l.n] == m.cells[l.n].(parent := y)
    requires !c.Top? ==> m'[c.n] == m1[c.n]
    requires forall k :: 0 < k < |m'| && k !in {y, l.n, CtxNode(c)} ==> m'[k] == m.cells[k]
    requires forall k :: 0 < k < |m'| && k != CtxNode(c) ==> m1[k] == m.cells[k]
    ensures CtxHold(m', c, y) && Hold(m', l, y) && Hold(m', r, y)
  {
    assert forall k :: k in CtxNodes(c) && 0 < k < |m'| ==> k != y && k != l.n;
    CtxHoldFrame(m1, m', c, y);
    HoldInner(m.cells, m', l, z, y);
    HoldFrame(m.cells, m', r, y);
  }

  /** The successor is z's own right child: nothing to prepare. */
  lemma ReadyNear(m: Mem, c: Ctx, t: Tree)
    requires Rep(m, c, t) && t.Bin? && t.l.Bin? && t.r.Bin? && t.r.l.Nil?
    ensures Ready(m, c, t.n, t.l, t.r.n, t.r.r)
  {
    assert Hold(m.cells, t.r, t.n) && Distinct(t.r);
    assert Nodes(t) == Nodes(t.l) + {t.n} + Nodes(t.r) && Nodes(t.r) == {t.r.n} + Nodes(t.r.r);
  }

  /** The successor has been taken out below: it adopts z's right subtree first. */
  ghost function Adopt(m: Mem, z: Ptr, y: Ptr): Mem
    requires z < |m.cells| && y < |m.cells| && m.cells[z].right < |m.cells|
  {
    SetParent(SetRight(m, y, m.cells[z].right), m.cells[z].right, y)
  }

  lemma ReadyFar(m: Mem, c: Ctx, t: Tree, y: Ptr)
    requires Rep(m, c, t) && t.Bin? && t.l.Bin? && t.r.Bin?
    requires 0 < y < |m.cells| && y !in AllNodes(c, t)
    ensures 0 < t.n < |m.cells| && 0 < m.cells[t.n].right < |m.cells|
    ensures Ready(Adopt(m, t.n, y), c, t.n, t.l, y, t.r)
    ensures var m' := Adopt(m, t.n, y); m'.cells[t.n] == m.cells[t.n] && m'.cells[y].agg == m.cells[y].agg
    ensures Kept(m.cells, Adopt(m, t.n, y).cells, Nodes(t.r) + {y})
  {
    assert t.r.n in Nodes(t.r) && Hold(m.cells, t.r, t.n);
    var m' := Adopt(m, t.n, y).cells;
    assert Nodes(t) == Nodes(t.l) + {t.n} + Nodes(t.r);
    CtxHoldFrame(m.cells, m', c, t.n);
    HoldFrame(m.cells, m', t.l, t.n);
    HoldInner(m.cells, m', t.r, t.n, y);
  }
}
