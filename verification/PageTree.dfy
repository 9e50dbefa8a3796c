/** kernel/mm/paging.c: 4-level page tables in physical memory, and what they translate. */
module PageTree {
  import opened Bytes

  const ENTRIES: nat := 512

  /** The bits of an entry other than the frame address; `rest` holds those the kernel only carries along. */
  datatype Flags = Flags(present: bool, writable: bool, user: bool, huge: bool, cow: bool, nofree: bool, protnone: bool,
                         nx: bool, rest: nat)

  datatype Pte = Pte(frame: nat, flags: Flags)

  const NO_FLAGS := Flags(false, false, false, false, false, false, false, false, 0)
  const EMPTY := Pte(0, NO_FLAGS)
  /** PAGE_PRESENT | PAGE_WRITABLE | PAGE_USER, as table_entry installs new tables. */
  const TABLE_FLAGS := NO_FLAGS.(present := true, writable := true, user := true)

  /** What a physical frame holds. */
  datatype Frame = Table(entries: seq<Pte>) | Data(bytes: seq<byte>)

  type Memory = seq<Frame>

  type Index = i: nat | i < ENTRIES

  /** A virtual page, by the four indexes its address is made of. */
  datatype Page = Page(i4: Index, i3: Index, i2: Index, i1: Index)

  /** Entry i of the table in frame t; empty if there is no such table. */
  function Get(mem: Memory, t: nat, i: nat): Pte {
    if t < |mem| && mem[t].Table? && i < |mem[t].entries| then mem[t].entries[i] else EMPTY
  }

  /** Stores an entry. */
  function Set(mem: Memory, t: nat, i: nat, e: Pte): Memory
    requires t < |mem| && mem[t].Table? && i < |mem[t].entries|
  {
    mem[t := Table(mem[t].entries[i := e])]
  }

  // ------------------------------------------------- translation

  datatype Look = NoMap | Map(frame: nat, flags: Flags)

  /** paging_translate_in, with the leaf's flags: 1 GiB and 2 MiB pages are read as the 4 KiB pages they consist of. */
  function Translate(mem: Memory, root: nat, p: Page): Look {
    var e4 := Get(mem, root, p.i4);
    if !e4.flags.present then NoMap else
    var e3 := Get(mem, e4.frame, p.i3);
    if !e3.flags.present then NoMap else
    if e3.flags.huge then Map(e3.frame + p.i2 * ENTRIES + p.i1, e3.flags.(huge := false)) else
    var e2 := Get(mem, e3.frame, p.i2);
    if !e2.flags.present then NoMap else
    if e2.flags.huge then Map(e2.frame + p.i1, e2.flags.(huge := false)) else
    var e1 := Get(mem, e2.frame, p.i1);
    if !e1.flags.present then NoMap else Map(e1.frame, e1.flags)
  }

  const PAGE_SIZE: nat := 4096
  const LARGE_SIZE: nat := ENTRIES * PAGE_SIZE
  const GIANT_SIZE: nat := ENTRIES * LARGE_SIZE

  /** The indexes of an address: PML4_INDEX, PDPT_INDEX, PD_INDEX and PT_INDEX. */
  function PageOf(v: nat): Page {
    var i4 := v / GIANT_SIZE / ENTRIES % ENTRIES;
    Page(i4, v / GIANT_SIZE % ENTRIES, v / LARGE_SIZE % ENTRIES, v / PAGE_SIZE % ENTRIES)
  }

  /** paging_translate_in on addresses: an entry's frame, and the offset within a page of the entry's size. */
  function Physical(mem: Memory, root: nat, v: nat): Option<nat> {
    var e4 := Get(mem, root, PageOf(v).i4);
    if !e4.flags.present then None else
    var e3 := Get(mem, e4.frame, PageOf(v).i3);
    if !e3.flags.present then None else
    if e3.flags.huge then Some(e3.frame * PAGE_SIZE + v % GIANT_SIZE) else
    var e2 := Get(mem, e3.frame, PageOf(v).i2);
    if !e2.flags.present then None else
    if e2.flags.huge then Some(e2.frame * PAGE_SIZE + v % LARGE_SIZE) else
    var e1 := Get(mem, e2.frame, PageOf(v).i1);
    if !e1.flags.present then None else Some(e1.frame * PAGE_SIZE + v % PAGE_SIZE)
  }

  /** An offset in a larger page, by the smaller pages it consists of. */
  lemma Offsets(v: nat)
    ensures v % LARGE_SIZE == v / PAGE_SIZE % ENTRIES * PAGE_SIZE + v % PAGE_SIZE
    ensures v % GIANT_SIZE == v / LARGE_SIZE % ENTRIES * LARGE_SIZE + v % LARGE_SIZE
  {
    var a, b := v / PAGE_SIZE, v / LARGE_SIZE;
    assert a / ENTRIES == b;
    assert b / ENTRIES == v / GIANT_SIZE;
  }

  /** Pages of every size lead to the same address as the 4 KiB pages they are read as. */
  lemma PhysicalPage(mem: Memory, root: nat, v: nat)
    ensures var m := Translate(mem, root, PageOf(v));
      Physical(mem, root, v) == if m.NoMap? then None else Some(m.frame * PAGE_SIZE + v % PAGE_SIZE)
  {
    Offsets(v);
  }

  /** What the tables on the way to a page let it do: the processor ands the permissions of all levels, and ors the
      bits that forbid execution. */
  datatype Right = Right(writable: bool, user: bool, nx: bool)

  function Limit(r: Right, e: Pte): Right {
    Right(r.writable && e.flags.writable, r.user && e.flags.user, r.nx || e.flags.nx)
  }

  function Rights(mem: Memory, root: nat, p: Page): Right {
    var e4 := Get(mem, root, p.i4);
    if !e4.flags.present then Right(true, true, false) else
    var r4 := Limit(Right(true, true, false), e4);
    var e3 := Get(mem, e4.frame, p.i3);
    if !e3.flags.present || e3.flags.huge then r4 else
    var e2 := Get(mem, e3.frame, p.i2);
    if !e2.flags.present || e2.flags.huge then Limit(r4, e3) else Limit(Limit(r4, e3), e2)
  }

  function Path(p: Page): seq<nat> { [p.i4, p.i3, p.i2, p.i1] }

  lemma PathOwn(p: Page, q: Page)
    ensures Path(p) <= Path(q) ==> p == q
  {
    assert Path(p) <= Path(q) ==> forall k :: 0 <= k < 4 ==> Path(p)[k] == Path(q)[k];
    assert Path(p)[0] == p.i4 && Path(p)[1] == p.i3 && Path(p)[2] == p.i2 && Path(p)[3] == p.i1;
  }

  /** Every page under root translates as before, and its tables let it do what they did; every page but p does. */
  ghost predicate Same(mem: Memory, mem': Memory, root: nat) { SameBut(mem, mem', root, None) }

  ghost predicate SameButFor(mem: Memory, mem': Memory, root: nat, p: Page) { SameBut(mem, mem', root, Some(p)) }

  ghost predicate Alike(mem: Memory, mem': Memory, root: nat, p: Option<Page>, q: Page) {
    && (p != Some(q) ==> Translate(mem', root, q) == Translate(mem, root, q))
    && Rights(mem', root, q) == Rights(mem, root, q)
  }

  ghost predicate SameBut(mem: Memory, mem': Memory, root: nat, p: Option<Page>) {
    (forall q :: Alike(mem, mem', root, p, q)) == true
  }

  lemma SameSelf(mem: Memory, root: nat, p: Option<Page>)
    ensures SameBut(mem, mem, root, p)
  {
  }

  lemma SameThen(m0: Memory, m1: Memory, m2: Memory, root: nat, p: Option<Page>)
    requires Same(m0, m1, root) && SameBut(m1, m2, root, p)
    ensures SameBut(m0, m2, root, p)
  {
    forall q ensures Alike(m0, m2, root, p, q) { assert Alike(m0, m1, root, None, q) && Alike(m1, m2, root, p, q); }
  }

  // ------------------------------------------------- trees

  /** Entry i of table t leads to another table; `depth` is how far t is from the root. */
  ghost predicate Leads(mem: Memory, t: nat, i: nat, depth: nat) {
    depth < 3 && Get(mem, t, i).flags.present && (depth == 0 || !Get(mem, t, i).flags.huge)
  }

  ghost predicate IsTable(mem: Memory, t: nat) { t < |mem| && mem[t].Table? && |mem[t].entries| == ENTRIES }

  ghost predicate ChildAt(mem: Memory, pos: map<nat, seq<nat>>, t: nat, i: nat)
    requires t in pos
  {
    Leads(mem, t, i, |pos[t]|) ==> var c := Get(mem, t, i).frame; c in pos && pos[c] == pos[t] + [i]
  }

  /**
   * The tables under root: each one's place in the tree, given by the indexes that lead to it, is its own.
   * So no two entries lead to the same table.
   */
  ghost predicate Tree(mem: Memory, root: nat, pos: map<nat, seq<nat>>) {
    ( && root in pos && pos[root] == []
      && (forall t :: t in pos ==> IsTable(mem, t) && |pos[t]| <= 3)
      && (forall t, i: nat :: t in pos && i < ENTRIES ==> ChildAt(mem, pos, t, i))) == true
  }

  /** The tables the walk to p passes: the page directory pointer table, the page directory, the page table. */
  ghost predicate Third(mem: Memory, root: nat, p: Page, t: nat) {
    Leads(mem, root, p.i4, 0) && t == Get(mem, root, p.i4).frame
  }

  ghost predicate Second(mem: Memory, root: nat, p: Page, t: nat) {
    exists t3 :: Third(mem, root, p, t3) && Leads(mem, t3, p.i3, 1) && t == Get(mem, t3, p.i3).frame
  }

  ghost predicate LeafTable(mem: Memory, root: nat, p: Page, t: nat) {
    exists t2 :: Second(mem, root, p, t2) && Leads(mem, t2, p.i2, 2) && t == Get(mem, t2, p.i2).frame
  }

  /** A table without a present entry. */
  ghost predicate Bare(mem: Memory, t: nat) { forall i: nat :: !Get(mem, t, i).flags.present }

  ghost predicate Large(e: Pte) { e.flags.present && e.flags.huge }

  /** No 1 GiB page lies on the way to p; no 2 MiB page either, which is what the 4 KiB walkers assume. */
  ghost predicate Upper(mem: Memory, root: nat, p: Page) {
    forall t :: Third(mem, root, p, t) ==> !Large(Get(mem, t, p.i3))
  }

  ghost predicate Small(mem: Memory, root: nat, p: Page) {
    Upper(mem, root, p) && forall t :: Second(mem, root, p, t) ==> !Large(Get(mem, t, p.i2))
  }

  /** mem' is mem but for entry i of table t and for frames the tree does not use. */
  ghost predicate OnlyAt(mem: Memory, mem': Memory, pos: map<nat, seq<nat>>, t: nat, i: nat) {
    && |mem'| == |mem|
    && forall u, j: nat :: u in pos && j < ENTRIES && !(u == t && j == i) ==> Get(mem', u, j) == Get(mem, u, j)
  }

  /** A page whose path does not run through the changed entry translates as before. */
  lemma TranslateOff(mem: Memory, mem': Memory, root: nat, pos: map<nat, seq<nat>>, t: nat, i: nat, q: Page)
    requires Tree(mem, root, pos) && t in pos && OnlyAt(mem, mem', pos, t, i)
    requires !(pos[t] + [i] <= Path(q))
    ensures Alike(mem, mem', root, None, q)
  {
    assert ChildAt(mem, pos, root, q.i4);
    if t == root { assert [q.i4] <= Path(q); }
    if Leads(mem, root, q.i4, 0) {
      var t3 := Get(mem, root, q.i4).frame;
      assert ChildAt(mem, pos, t3, q.i3);
      if t == t3 { assert [q.i4, q.i3] <= Path(q); }
      if Leads(mem, t3, q.i3, 1) {
        var t2 := Get(mem, t3, q.i3).frame;
        assert ChildAt(mem, pos, t2, q.i2);
        if t == t2 { assert [q.i4, q.i3, q.i2] <= Path(q); }
        if Leads(mem, t2, q.i2, 2) {
          var t1 := Get(mem, t2, q.i2).frame;
          if t == t1 { assert [q.i4, q.i3, q.i2, q.i1] <= Path(q); }
        }
      }
    }
  }

  /** Nothing in the tree changed. */
  lemma TranslateSame(mem: Memory, mem': Memory, root: nat, pos: map<nat, seq<nat>>)
    requires Tree(mem, root, pos) && |mem'| == |mem| && forall t :: t in pos ==> mem'[t] == mem[t]
    ensures Tree(mem', root, pos) && Same(mem, mem', root)
  {
    forall t, i: nat | t in pos && i < ENTRIES ensures ChildAt(mem', pos, t, i) { assert ChildAt(mem, pos, t, i); }
    forall q ensures Alike(mem, mem', root, None, q) {
      assert ChildAt(mem, pos, root, q.i4);
      if Leads(mem, root, q.i4, 0) {
        var t3 := Get(mem, root, q.i4).frame;
        assert ChildAt(mem, pos, t3, q.i3);
        if Leads(mem, t3, q.i3, 1) {
          assert ChildAt(mem, pos, Get(mem, t3, q.i3).frame, q.i2);
        }
      }
    }
  }

  // ------------------------------------------------- stores

  const ZEROED: seq<Pte> := seq(ENTRIES, _ => EMPTY)

  /** mem with a table written to frame n, then entry i of table t made to lead to it. */
  function Hang(mem: Memory, t: nat, i: nat, n: nat, entries: seq<Pte>, flags: Flags): Memory
    requires t < |mem| && mem[t].Table? && i < |mem[t].entries| && n < |mem| && n != t
  {
    Set(mem[n := Table(entries)], t, i, Pte(n, flags))
  }

  /** A table of leaves, or an empty one, hung below t in place of an entry that led to no table. */
  lemma HangTree(mem: Memory, root: nat, pos: map<nat, seq<nat>>, t: nat, i: nat, n: nat, entries: seq<Pte>,
                 flags: Flags)
    requires Tree(mem, root, pos) && t in pos && |pos[t]| < 3 && i < ENTRIES && n < |mem| && n !in pos
    requires |entries| == ENTRIES && (entries == ZEROED || |pos[t]| == 2)
    ensures OnlyAt(mem, Hang(mem, t, i, n, entries, flags), pos, t, i)
    ensures Tree(Hang(mem, t, i, n, entries, flags), root, pos[n := pos[t] + [i]])
  {
    var mem', pos' := Hang(mem, t, i, n, entries, flags), pos[n := pos[t] + [i]];
    forall u, j: nat | u in pos' && j < ENTRIES ensures ChildAt(mem', pos', u, j) {
      if u == n {
        assert Get(mem', n, j) == entries[j];
      } else {
        assert ChildAt(mem, pos, u, j);
        assert !(u == t && j == i) ==> Get(mem', u, j) == Get(mem, u, j);
      }
    }
  }

  ghost predicate At(pos: map<nat, seq<nat>>, t: nat, path: seq<nat>) { t in pos && pos[t] == path }

  ghost predicate Placed(mem: Memory, root: nat, pos: map<nat, seq<nat>>, q: Page) {
    var t3 := Get(mem, root, q.i4).frame;
    var t2 := Get(mem, t3, q.i3).frame;
    var t1 := Get(mem, t2, q.i2).frame;
    && (Leads(mem, root, q.i4, 0) ==> At(pos, t3, [q.i4]))
    && (Leads(mem, root, q.i4, 0) && Leads(mem, t3, q.i3, 1) ==> At(pos, t2, [q.i4, q.i3]))
    && (LeafTable(mem, root, q, t1) ==> At(pos, t1, [q.i4, q.i3, q.i2]))
  }

  /** The tables on the way to q are where q's indexes say. */
  lemma OnPath(mem: Memory, root: nat, pos: map<nat, seq<nat>>, q: Page)
    requires Tree(mem, root, pos)
    ensures Placed(mem, root, pos, q)
  {
    assert ChildAt(mem, pos, root, q.i4);
    if Leads(mem, root, q.i4, 0) {
      var t3 := Get(mem, root, q.i4).frame;
      assert ChildAt(mem, pos, t3, q.i3);
      if Leads(mem, t3, q.i3, 1) {
        assert ChildAt(mem, pos, Get(mem, t3, q.i3).frame, q.i2);
      }
    }
  }

  /** An empty table below an absent entry translates nothing, as before. */
  lemma HangEmpty(mem: Memory, root: nat, pos: map<nat, seq<nat>>, t: nat, i: nat, n: nat, q: Page)
    requires Tree(mem, root, pos) && t in pos && |pos[t]| < 3 && i < ENTRIES && n < |mem| && n !in pos
    requires !Get(mem, t, i).flags.present
    ensures Bare(Hang(mem, t, i, n, ZEROED, TABLE_FLAGS), n)
    ensures Alike(mem, Hang(mem, t, i, n, ZEROED, TABLE_FLAGS), root, None, q)
  {
    var mem' := Hang(mem, t, i, n, ZEROED, TABLE_FLAGS);
    HangTree(mem, root, pos, t, i, n, ZEROED, TABLE_FLAGS);
    assert Bare(mem', n);
    if pos[t] + [i] <= Path(q) {
      OnPath(mem, root, pos, q);
      OnPath(mem', root, pos[n := pos[t] + [i]], q);
    } else {
      TranslateOff(mem, mem', root, pos, t, i, q);
    }
  }

  /** A change further down the path leaves the tables above it in place. */
  lemma ThirdStays(mem: Memory, mem': Memory, root: nat, pos: map<nat, seq<nat>>, p: Page, t: nat, u: nat, i: nat)
    requires Tree(mem, root, pos) && Third(mem, root, p, t) && u in pos && |pos[u]| > 0 && OnlyAt(mem, mem', pos, u, i)
    ensures Third(mem', root, p, t)
  {
  }

  lemma SecondStays(mem: Memory, mem': Memory, root: nat, pos: map<nat, seq<nat>>, p: Page, t: nat, u: nat, i: nat)
    requires Tree(mem, root, pos) && Second(mem, root, p, t) && u in pos && |pos[u]| > 1 && OnlyAt(mem, mem', pos, u, i)
    ensures Second(mem', root, p, t)
  {
    var t3 :| Third(mem, root, p, t3) && Leads(mem, t3, p.i3, 1) && t == Get(mem, t3, p.i3).frame;
    ThirdStays(mem, mem', root, pos, p, t3, u, i);
    assert ChildAt(mem, pos, root, p.i4);
  }

  lemma SecondOnly(mem: Memory, root: nat, p: Page, t: nat)
    requires Second(mem, root, p, t)
    ensures forall u :: Second(mem, root, p, u) ==> u == t
  {
  }

  /** Storing a leaf entry changes the translation of its own page only. */
  lemma LeafStore(mem: Memory, root: nat, pos: map<nat, seq<nat>>, p: Page, t: nat, e: Pte)
    requires Tree(mem, root, pos) && LeafTable(mem, root, p, t)
    ensures IsTable(mem, t) && t in pos
    ensures Tree(Set(mem, t, p.i1, e), root, pos) && LeafTable(Set(mem, t, p.i1, e), root, p, t)
    ensures Translate(Set(mem, t, p.i1, e), root, p) == if e.flags.present then Map(e.frame, e.flags) else NoMap
    ensures SameButFor(mem, Set(mem, t, p.i1, e), root, p)
  {
    OnPath(mem, root, pos, p);
    var mem' := Set(mem, t, p.i1, e);
    assert OnlyAt(mem, mem', pos, t, p.i1);
    forall u, j: nat | u in pos && j < ENTRIES ensures ChildAt(mem', pos, u, j) { assert ChildAt(mem, pos, u, j); }
    forall q ensures Alike(mem, mem', root, Some(p), q) {
      if q != p {
        assert pos[t] + [p.i1] == Path(p);
        PathOwn(p, q);
        TranslateOff(mem, mem', root, pos, t, p.i1, q);
      } else {
        assert ChildAt(mem, pos, root, p.i4);
      }
    }
  }

  lemma LeafLook(mem: Memory, root: nat, p: Page, t: nat)
    requires LeafTable(mem, root, p, t)
    ensures var e := Get(mem, t, p.i1);
      Translate(mem, root, p) == if e.flags.present then Map(e.frame, e.flags) else NoMap
  {
  }

  lemma NoLeaf(mem: Memory, root: nat, p: Page)
    requires Small(mem, root, p) && forall t :: !LeafTable(mem, root, p, t)
    ensures Translate(mem, root, p) == NoMap
  {
    var e4 := Get(mem, root, p.i4);
    if e4.flags.present {
      assert Third(mem, root, p, e4.frame);
      var e3 := Get(mem, e4.frame, p.i3);
      if e3.flags.present {
        assert Second(mem, root, p, e3.frame);
        assert !LeafTable(mem, root, p, Get(mem, e3.frame, p.i2).frame);
      }
    }
  }

  /** A frame outside the tree is written: the walks are the same. */
  lemma LeafTableSame(mem: Memory, n: nat, d: Frame, root: nat, pos: map<nat, seq<nat>>, p: Page, t: nat)
    requires Tree(mem, root, pos) && n < |mem| && n !in pos && LeafTable(mem, root, p, t)
    ensures LeafTable(mem[n := d], root, p, t)
  {
    OnPath(mem, root, pos, p);
    assert Placed(mem, root, pos, p);
    var mem' := mem[n := d];
    var t3 := Get(mem, root, p.i4).frame;
    assert Third(mem', root, p, t3);
    var t2 := Get(mem, t3, p.i3).frame;
    assert Second(mem', root, p, t2);
  }

  /** The 512 small pages a 2 MiB page consists of. */
  function Leaves(e: Pte): (r: seq<Pte>)
    ensures |r| == ENTRIES && forall k :: 0 <= k < ENTRIES ==> r[k] == Pte(e.frame + k, e.flags.(huge := false))
  {
    seq(ENTRIES, (k: nat) => Pte(e.frame + k, e.flags.(huge := false)))
  }

  // ------------------------------------------------- tables in more than one place

  /**
   * The tables under root by their distance from it.  A table may stand in several places, as the kernel's page
   * directory does, which is reached from the identity map and from the kernel's own half.
   */
  ghost predicate Leveled(mem: Memory, root: nat, level: map<nat, nat>) {
    ( && root in level && level[root] == 0
      && (forall t :: t in level ==> IsTable(mem, t) && level[t] <= 3)
      && (forall t, i: nat :: t in level && i < ENTRIES ==> ChildLevel(mem, level, t, i))) == true
  }

  ghost predicate ChildLevel(mem: Memory, level: map<nat, nat>, t: nat, i: nat)
    requires t in level
  {
    Leads(mem, t, i, level[t]) ==> var c := Get(mem, t, i).frame; c in level && level[c] == level[t] + 1
  }

  lemma TreeLeveled(mem: Memory, root: nat, pos: map<nat, seq<nat>>)
    requires Tree(mem, root, pos)
    ensures Leveled(mem, root, map t | t in pos :: |pos[t]|)
  {
    var level := map t | t in pos :: |pos[t]|;
    forall t, i: nat | t in level && i < ENTRIES ensures ChildLevel(mem, level, t, i) {
      assert ChildAt(mem, pos, t, i);
    }
  }

  lemma LevelsSame(mem: Memory, mem': Memory, root: nat, level: map<nat, nat>)
    requires Leveled(mem, root, level) && |mem'| == |mem| && forall t :: t in level ==> mem'[t] == mem[t]
    ensures Leveled(mem', root, level) && Same(mem, mem', root)
  {
    forall t, i: nat | t in level && i < ENTRIES ensures ChildLevel(mem', level, t, i) {
      assert ChildLevel(mem, level, t, i);
    }
    forall q ensures Alike(mem, mem', root, None, q) {
      assert ChildLevel(mem, level, root, q.i4);
      if Leads(mem, root, q.i4, 0) {
        var t3 := Get(mem, root, q.i4).frame;
        assert ChildLevel(mem, level, t3, q.i3);
        if Leads(mem, t3, q.i3, 1) { assert ChildLevel(mem, level, Get(mem, t3, q.i3).frame, q.i2); }
      }
    }
  }

  /** A page table of leaves hung in place of an entry of a page directory. */
  lemma HangLevel(mem: Memory, root: nat, level: map<nat, nat>, t: nat, i: nat, n: nat, entries: seq<Pte>, flags: Flags)
    requires Leveled(mem, root, level) && t in level && level[t] == 2 && i < ENTRIES && n < |mem| && n !in level
    requires |entries| == ENTRIES
    ensures Leveled(Hang(mem, t, i, n, entries, flags), root, level[n := 3])
  {
    var mem', level' := Hang(mem, t, i, n, entries, flags), level[n := 3];
    forall u, j: nat | u in level' && j < ENTRIES ensures ChildLevel(mem', level', u, j) {
      if u != n {
        assert ChildLevel(mem, level, u, j);
        assert !(u == t && j == i) ==> Get(mem', u, j) == Get(mem, u, j);
      }
    }
  }

  /** The tables on the way to q, by level. */
  lemma OnLevels(mem: Memory, root: nat, level: map<nat, nat>, q: Page)
    requires Leveled(mem, root, level)
    ensures forall t :: Third(mem, root, q, t) ==> t in level && level[t] == 1
    ensures forall t :: Second(mem, root, q, t) ==> t in level && level[t] == 2
    ensures forall t :: LeafTable(mem, root, q, t) ==> t in level && level[t] == 3
  {
    assert ChildLevel(mem, level, root, q.i4);
    forall t | Third(mem, root, q, t) ensures ChildLevel(mem, level, t, q.i3) {}
    forall t | Second(mem, root, q, t) ensures ChildLevel(mem, level, t, q.i2) {}
  }

  /** Page q translates as before; if it lies in the page that was split, its tables let it do what they did and the new
      entry allows. */
  ghost predicate SplitAlike(mem: Memory, mem': Memory, root: nat, t: nat, i: nat, flags: Flags, q: Page) {
    && Translate(mem', root, q) == Translate(mem, root, q)
    && Rights(mem', root, q) == var r := Rights(mem, root, q);
       if Second(mem, root, q, t) && q.i2 == i then Limit(r, Pte(0, flags)) else r
  }

  /**
   * Splitting a 2 MiB page changes no translation and no leaf flag, under any root that reaches its page directory as
   * one, in however many places, or not at all.
   */
  lemma SplitStore(mem: Memory, root: nat, level: map<nat, nat>, t: nat, i: nat, n: nat, flags: Flags, q: Page)
    requires Leveled(mem, root, level) && IsTable(mem, t) && (t in level ==> level[t] == 2)
    requires i < ENTRIES && n < |mem| && n !in level && n != t
    requires Get(mem, t, i).flags.present && Get(mem, t, i).flags.huge && flags.present && !flags.huge
    ensures var mem' := Hang(mem, t, i, n, Leaves(Get(mem, t, i)), flags); SplitAlike(mem, mem', root, t, i, flags, q)
  {
    var leaves := Leaves(Get(mem, t, i));
    var mem' := Hang(mem, t, i, n, leaves, flags);
    assert forall u, j: nat :: u in level && !(u == t && j == i) ==> Get(mem', u, j) == Get(mem, u, j);
    assert Get(mem', n, q.i1) == leaves[q.i1];
    assert Get(mem', t, i) == Pte(n, flags);
    if Leads(mem, root, q.i4, 0) {
      OnLevels(mem, root, level, q);
      var t3 := Get(mem, root, q.i4).frame;
      assert Third(mem, root, q, t3);
      if Leads(mem, t3, q.i3, 1) {
        var t2 := Get(mem, t3, q.i3).frame;
        assert Second(mem, root, q, t2);
        SplitBelow(mem, mem', root, level, t, i, n, flags, q, t3, t2);
      } else {
        assert forall u :: !Second(mem, root, q, u);
      }
    } else {
      OnLevels(mem, root, level, q);
      assert forall u :: !Second(mem, root, q, u);
    }
  }

  lemma SplitBelow(mem: Memory, mem': Memory, root: nat, level: map<nat, nat>, t: nat, i: nat, n: nat, flags: Flags,
                   q: Page, t3: nat, t2: nat)
    requires Third(mem, root, q, t3) && Leads(mem, t3, q.i3, 1) && t2 == Get(mem, t3, q.i3).frame
    requires root in level && t3 in level && t2 in level && t != root && t != t3 && i < ENTRIES
    requires
      var t1 := Get(mem, t2, q.i2).frame;
      LeafTable(mem, root, q, t1) ==> t1 in level && t1 != t
    requires forall u, j: nat :: u in level && !(u == t && j == i) ==> Get(mem', u, j) == Get(mem, u, j)
    requires Large(Get(mem, t, i)) && Get(mem', t, i) == Pte(n, flags) && flags.present && !flags.huge
    requires Get(mem', n, q.i1) == Leaves(Get(mem, t, i))[q.i1]
    ensures SplitAlike(mem, mem', root, t, i, flags, q)
  {
    SecondOnly(mem, root, q, t2);
    if Leads(mem, t2, q.i2, 2) { assert LeafTable(mem, root, q, Get(mem, t2, q.i2).frame); }
  }

  // ------------------------------------------------- who owns a frame

  predicate HasFrame(e: Pte) { e.flags.present || e.flags.protnone }

  /**
   * The flags of a leaf that was asked for other access.  The marks of its frame stay; a copy-on-write page is never
   * made writable; a page without access is parked, and has no access bit at all.
   */
  ghost predicate NewAccess(was: Flags, asked: Flags, now: Flags) {
    && now.present == asked.present
    && (now.writable <==> asked.present && asked.writable && !was.cow)
    && (now.user <==> asked.present && asked.user) && (now.nx <==> asked.present && asked.nx)
    && (now.huge <==> asked.present && asked.huge) && now.rest == (if asked.present then asked.rest else 0)
    && (now.protnone <==> !asked.present || asked.protnone)
    && (now.cow <==> was.cow || (asked.present && asked.cow))
    && (now.nofree <==> was.nofree || (asked.present && asked.nofree))
  }

  /** The entry paging_setprot_from writes: new access bits on the old frame. */
  function Reprotect(e: Pte, flags: Flags): (r: Pte)
    ensures HasFrame(r) && r.frame == e.frame && NewAccess(e.flags, flags, r.flags)
    ensures !flags.nofree ==> forall f :: HasFrame(e) ==> (Owns(r, f) <==> Owns(e, f))
  {
    if flags.present then
      Pte(e.frame, flags.(writable := flags.writable && !e.flags.cow, cow := flags.cow || e.flags.cow,
                          nofree := flags.nofree || e.flags.nofree))
    else
      Pte(e.frame, NO_FLAGS.(protnone := true, cow := e.flags.cow, nofree := e.flags.nofree))
  }

  /** The leaf of p keeps frame f, mapped or parked without access. */
  ghost predicate Owned(mem: Memory, root: nat, p: Page, f: nat) {
    exists t :: LeafTable(mem, root, p, t) && HasFrame(Get(mem, t, p.i1)) && Get(mem, t, p.i1).frame == f
  }

  /** A leaf that owns its frame: mapped, or parked without access, and not a device's. */
  predicate Owns(e: Pte, f: nat) { HasFrame(e) && !e.flags.nofree && e.frame == f }

  ghost function CountIn(es: seq<Pte>, f: nat): nat {
    if es == [] then 0 else CountIn(es[..|es| - 1], f) + (if Owns(es[|es| - 1], f) then 1 else 0)
  }

  lemma {:induction false} CountStore(es: seq<Pte>, i: nat, e: Pte, f: nat)
    requires i < |es|
    ensures CountIn(es[i := e], f) == CountIn(es, f) + (if Owns(e, f) then 1 else 0) - (if Owns(es[i], f) then 1 else 0)
  {
    var n := |es| - 1;
    if i < n {
      CountStore(es[..n], i, e, f);
      assert es[i := e][..n] == es[..n][i := e];
    } else {
      assert es[i := e][..n] == es[..n];
    }
  }

  lemma {:induction false} CountAt(es: seq<Pte>, i: nat, f: nat)
    requires i < |es| && Owns(es[i], f)
    ensures CountIn(es, f) > 0
  {
    if i < |es| - 1 { CountAt(es[..|es| - 1], i, f); }
  }

  /** How many leaf entries of the given tables own frame f. */
  ghost function Owners(mem: Memory, pts: seq<nat>, f: nat): nat {
    if pts == [] then 0
    else
      Owners(mem, pts[1..], f) + (if pts[0] < |mem| && mem[pts[0]].Table? then CountIn(mem[pts[0]].entries, f) else 0)
  }

  lemma {:induction false} OwnersSame(mem: Memory, mem': Memory, pts: seq<nat>, f: nat)
    requires |mem'| == |mem| && forall k :: 0 <= k < |pts| && pts[k] < |mem| ==> mem'[pts[k]] == mem[pts[k]]
    ensures Owners(mem', pts, f) == Owners(mem, pts, f)
  {
    if pts != [] { OwnersSame(mem, mem', pts[1..], f); }
  }

  lemma {:induction false} OwnersAt(mem: Memory, pts: seq<nat>, k: nat, i: nat, f: nat)
    requires k < |pts| && IsTable(mem, pts[k]) && i < ENTRIES && Owns(Get(mem, pts[k], i), f)
    ensures Owners(mem, pts, f) > 0
  {
    if k == 0 { CountAt(mem[pts[0]].entries, i, f); } else { OwnersAt(mem, pts[1..], k - 1, i, f); }
  }

  ghost predicate Distinct(pts: seq<nat>) { forall i, j :: 0 <= i < j < |pts| ==> pts[i] != pts[j] }

  lemma {:induction false} OwnersStore(mem: Memory, pts: seq<nat>, k: nat, i: nat, e: Pte, f: nat)
    requires Distinct(pts) && k < |pts| && IsTable(mem, pts[k]) && i < ENTRIES
    ensures Owners(Set(mem, pts[k], i, e), pts, f) ==
            Owners(mem, pts, f) + (if Owns(e, f) then 1 else 0) - (if Owns(Get(mem, pts[k], i), f) then 1 else 0)
  {
    var mem' := Set(mem, pts[k], i, e);
    if k == 0 {
      CountStore(mem[pts[0]].entries, i, e, f);
      OwnersSame(mem, mem', pts[1..], f);
    } else {
      OwnersStore(mem, pts[1..], k - 1, i, e, f);
    }
  }
}
