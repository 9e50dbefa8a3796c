/** kernel/fs/blkcache.c, the table: a fixed pool of sector buffers, found through hash chains
    threaded through the buffers themselves and recycled least-recently-used first. */
module BlkTable {
  import opened Bytes
  import opened Dll

  /** A sector of a whole disk. */
  datatype Key = Key(dev: nat, lba: nat)

  type Sector = seq<byte>

  /** struct blk_buf; `next` is the index of the next buffer in the same bucket, or NONE. */
  datatype Buf = Buf(key: Key, valid: bool, lastUsed: nat, next: int, data: Sector)

  // ------------------------------------------------- the table as a value

  /** Buffers, bucket heads, and the chain of buffers that each bucket spells out. */
  datatype Tab = Tab(bufs: seq<Buf>, buckets: seq<int>, chains: seq<seq<int>>)

  /** Following `next` from `head` visits exactly `chain`. */
  ghost predicate Linked(bufs: seq<Buf>, head: int, chain: seq<int>) {
    && head == Nth(chain, 0)
    && forall i :: 0 <= i < |chain| ==> NextAt(bufs, chain, i)
  }

  ghost predicate NextAt(bufs: seq<Buf>, chain: seq<int>, i: int)
    requires 0 <= i < |chain|
  {
    0 <= chain[i] < |bufs| && bufs[chain[i]].next == Nth(chain, i + 1)
  }

  /** A bucket holds, once each, valid buffers that hash to it. */
  ghost predicate Homed(h: Key -> nat, bufs: seq<Buf>, chain: seq<int>, b: int) {
    && (forall i :: 0 <= i < |chain| ==> 0 <= chain[i] < |bufs| && bufs[chain[i]].valid && h(bufs[chain[i]].key) == b)
    && (forall i, j :: 0 <= i < j < |chain| ==> chain[i] != chain[j])
  }

  /** Every valid buffer is in its bucket. */
  ghost predicate Listed(h: Key -> nat, t: Tab) {
    forall e :: 0 <= e < |t.bufs| && t.bufs[e].valid ==>
      h(t.bufs[e].key) < |t.chains| && e in t.chains[h(t.bufs[e].key)]
  }

  /** No two valid buffers hold the same sector. */
  ghost predicate Unique(bufs: seq<Buf>) {
    forall e, f :: 0 <= e < |bufs| && 0 <= f < |bufs| && bufs[e].valid && bufs[f].valid ==>
      bufs[e].key == bufs[f].key ==> e == f
  }

  ghost predicate WellFormed(h: Key -> nat, t: Tab) {
    && |t.bufs| > 0 && |t.buckets| > 0 && |t.chains| == |t.buckets|
    && (forall k :: h(k) < |t.buckets|)
    && (forall b :: 0 <= b < |t.chains| ==> Linked(t.bufs, t.buckets[b], t.chains[b]))
    && (forall b :: 0 <= b < |t.chains| ==> Homed(h, t.bufs, t.chains[b], b))
    && Listed(h, t)
    && Unique(t.bufs)
  }

  /** The sectors a table caches. */
  ghost function Cached(bufs: seq<Buf>): map<Key, Sector> {
    if bufs == [] then map[]
    else
      var last, rest := bufs[|bufs| - 1], Cached(bufs[..|bufs| - 1]);
      if last.valid then rest[last.key := last.data] else rest
  }

  lemma {:induction false} CachedHas(bufs: seq<Buf>, e: int)
    requires Unique(bufs) && 0 <= e < |bufs| && bufs[e].valid
    ensures bufs[e].key in Cached(bufs) && Cached(bufs)[bufs[e].key] == bufs[e].data
  {
    var n := |bufs| - 1;
    if e < n {
      assert bufs[..n][e] == bufs[e];
      CachedHas(bufs[..n], e);
    }
  }

  lemma {:induction false} CachedFrom(bufs: seq<Buf>, k: Key) returns (e: int)
    requires k in Cached(bufs)
    ensures 0 <= e < |bufs| && bufs[e].valid && bufs[e].key == k
  {
    var n := |bufs| - 1;
    if bufs[n].valid && bufs[n].key == k {
      e := n;
    } else {
      e := CachedFrom(bufs[..n], k);
    }
  }

  // ------------------------------------------------- taking a buffer out

  /** The buffers after the stores of unlink_buf on the i-th buffer of a chain. */
  ghost function CutBufs(bufs: seq<Buf>, chain: seq<int>, i: nat): seq<Buf>
    requires i < |chain| && forall j :: 0 <= j < |chain| ==> 0 <= chain[j] < |bufs|
  {
    var e := chain[i];
    var bufs' := if i == 0 then bufs else bufs[chain[i - 1] := bufs[chain[i - 1]].(next := bufs[e].next)];
    bufs'[e := bufs'[e].(next := NONE, valid := false)]
  }

  lemma CutAt(chain: seq<int>, i: nat, j: nat)
    requires i < |chain| && j < |chain|
    ensures Nth(Cut(chain, i), j) == if j < i then chain[j] else Nth(chain, j + 1)
  {
  }

  lemma CutNext(bufs: seq<Buf>, head: int, chain: seq<int>, i: nat, k: nat)
    requires Linked(bufs, head, chain) && i < |chain| && k < |chain| && k != i
    requires forall x :: 0 <= x < |chain| ==> 0 <= chain[x] < |bufs|
    requires forall x, y :: 0 <= x < y < |chain| ==> chain[x] != chain[y]
    ensures
      var b' := CutBufs(bufs, chain, i)[chain[k]];
      b' == bufs[chain[k]].(next := if k + 1 == i then Nth(chain, i + 1) else Nth(chain, k + 1))
  {
    assert NextAt(bufs, chain, i) && NextAt(bufs, chain, k);
  }

  lemma CutLinked(h: Key -> nat, bufs: seq<Buf>, head: int, chain: seq<int>, b: int, i: nat)
    requires Linked(bufs, head, chain) && Homed(h, bufs, chain, b) && i < |chain|
    ensures Linked(CutBufs(bufs, chain, i), if i == 0 then bufs[chain[0]].next else head, Cut(chain, i))
    ensures Homed(h, CutBufs(bufs, chain, i), Cut(chain, i), b)
    ensures chain[i] !in Cut(chain, i)
  {
    CutHomed(h, bufs, chain, b, i);
    var bufs', cut := CutBufs(bufs, chain, i), Cut(chain, i);
    forall j | 0 <= j < |cut| ensures 0 <= cut[j] < |bufs'| && NextAt(bufs', cut, j) {
      CutNext(bufs, head, chain, i, if j < i then j else j + 1);
      CutAt(chain, i, j);
      CutAt(chain, i, j + 1);
    }
    CutAt(chain, i, 0);
    assert NextAt(bufs, chain, 0);
  }

  lemma CutHomed(h: Key -> nat, bufs: seq<Buf>, chain: seq<int>, b: int, i: nat)
    requires Homed(h, bufs, chain, b) && i < |chain|
    ensures Homed(h, CutBufs(bufs, chain, i), Cut(chain, i), b) && chain[i] !in Cut(chain, i)
  {
    var cut := Cut(chain, i);
    forall j | 0 <= j < |cut| ensures cut[j] == chain[if j < i then j else j + 1] { CutAt(chain, i, j); }
  }

  lemma CutOther(h: Key -> nat, bufs: seq<Buf>, chain: seq<int>, b: int, i: nat, head: int, other: seq<int>, c: int)
    requires Homed(h, bufs, chain, b) && i < |chain|
    requires Linked(bufs, head, other) && Homed(h, bufs, other, c) && b != c
    ensures Linked(CutBufs(bufs, chain, i), head, other) && Homed(h, CutBufs(bufs, chain, i), other, c)
  {
    assert forall j :: 0 <= j < |other| ==> other[j] !in chain;
    ChainFrame(h, bufs, CutBufs(bufs, chain, i), head, other, c);
  }

  /** Apart from their chain links, all buffers but e agree. */
  ghost predicate SameBut(bufs: seq<Buf>, bufs': seq<Buf>, e: int) {
    (|bufs| == |bufs'| && forall f :: 0 <= f < |bufs| && f != e ==> bufs'[f] == bufs[f].(next := bufs'[f].next)) == true
  }

  lemma CutSameBut(bufs: seq<Buf>, chain: seq<int>, i: nat)
    requires i < |chain| && forall j :: 0 <= j < |chain| ==> 0 <= chain[j] < |bufs|
    ensures SameBut(bufs, CutBufs(bufs, chain, i), chain[i])
    ensures var b := CutBufs(bufs, chain, i)[chain[i]]; !b.valid && b.lastUsed == bufs[chain[i]].lastUsed
  {
  }

  /** Dropping the one buffer of a sector drops exactly that sector. */
  lemma DropCached(bufs: seq<Buf>, bufs': seq<Buf>, e: int)
    requires Unique(bufs) && 0 <= e < |bufs| && SameBut(bufs, bufs', e) && bufs[e].valid && !bufs'[e].valid
    ensures Unique(bufs') && Cached(bufs') == Cached(bufs) - {bufs[e].key}
  {
    var c, c' := Cached(bufs), Cached(bufs');
    forall k | k in c && k != bufs[e].key ensures k in c' && c'[k] == c[k] {
      var f := CachedFrom(bufs, k);
      CachedHas(bufs, f);
      CachedHas(bufs', f);
    }
    forall k | k in c' ensures k in c && k != bufs[e].key {
      var f := CachedFrom(bufs', k);
      CachedHas(bufs, f);
    }
  }

  ghost function CutTab(t: Tab, b: nat, i: nat): Tab
    requires b < |t.chains| == |t.buckets| && i < |t.chains[b]|
    requires forall j :: 0 <= j < |t.chains[b]| ==> 0 <= t.chains[b][j] < |t.bufs|
  {
    Tab(CutBufs(t.bufs, t.chains[b], i),
        if i == 0 then t.buckets[b := t.bufs[t.chains[b][i]].next] else t.buckets,
        t.chains[b := Cut(t.chains[b], i)])
  }

  lemma CutChains(h: Key -> nat, t: Tab, b: nat, i: nat)
    requires WellFormed(h, t) && b < |t.chains| && i < |t.chains[b]| && Homed(h, t.bufs, t.chains[b], b)
    ensures var t' := CutTab(t, b, i); forall c :: 0 <= c < |t.chains| ==>
      Linked(t'.bufs, t'.buckets[c], t'.chains[c]) && Homed(h, t'.bufs, t'.chains[c], c)
  {
    var t' := CutTab(t, b, i);
    CutLinked(h, t.bufs, t.buckets[b], t.chains[b], b, i);
    forall c | 0 <= c < |t.chains| && c != b
      ensures Linked(t'.bufs, t'.buckets[c], t'.chains[c]) && Homed(h, t'.bufs, t'.chains[c], c)
    {
      CutOther(h, t.bufs, t.chains[b], b, i, t.buckets[c], t.chains[c], c);
    }
  }

  lemma CutKeeps(l: seq<int>, i: nat, f: int)
    requires i < |l| && f in l && f != l[i]
    ensures f in Cut(l, i)
  {
    var j :| 0 <= j < |l| && l[j] == f;
    assert Cut(l, i)[if j < i then j else j - 1] == f;
  }

  lemma CutWellFormed(h: Key -> nat, t: Tab, b: nat, i: nat)
    requires WellFormed(h, t) && b < |t.chains| && i < |t.chains[b]| && Homed(h, t.bufs, t.chains[b], b)
    ensures WellFormed(h, CutTab(t, b, i))
  {
    var t' := CutTab(t, b, i);
    CutChains(h, t, b, i);
    CutSameBut(t.bufs, t.chains[b], i);
    DropCached(t.bufs, t'.bufs, t.chains[b][i]);
    forall f | 0 <= f < |t.bufs| && t'.bufs[f].valid
      ensures h(t'.bufs[f].key) < |t'.chains| && f in t'.chains[h(t'.bufs[f].key)]
    {
      var c := h(t.bufs[f].key);
      if c == b {
        CutKeeps(t.chains[b], i, f);
      }
    }
  }

  lemma CutEffect(h: Key -> nat, t: Tab, b: nat, i: nat)
    requires WellFormed(h, t) && b < |t.chains| && i < |t.chains[b]|
    ensures forall j :: 0 <= j < |t.chains[b]| ==> 0 <= t.chains[b][j] < |t.bufs|
    ensures WellFormed(h, CutTab(t, b, i)) && t.bufs[t.chains[b][i]].valid
    ensures
      var e, t' := t.chains[b][i], CutTab(t, b, i);
      && SameBut(t.bufs, t'.bufs, e) && !t'.bufs[e].valid && t'.bufs[e].lastUsed == t.bufs[e].lastUsed
      && Cached(t'.bufs) == Cached(t.bufs) - {t.bufs[e].key}
  {
    assert Homed(h, t.bufs, t.chains[b], b);
    CutWellFormed(h, t, b, i);
    CutSameBut(t.bufs, t.chains[b], i);
    DropCached(t.bufs, CutBufs(t.bufs, t.chains[b], i), t.chains[b][i]);
  }

  // ------------------------------------------------- putting a buffer in

  ghost function PushTab(t: Tab, b: nat, e: nat, k: Key): Tab
    requires b < |t.chains| == |t.buckets| && e < |t.bufs|
  {
    Tab(t.bufs[e := t.bufs[e].(key := k, valid := true, next := t.buckets[b])],
        t.buckets[b := e],
        t.chains[b := [e] + t.chains[b]])
  }

  /** A chain does not see changes to buffers that are not on it. */
  lemma ChainFrame(h: Key -> nat, bufs: seq<Buf>, bufs': seq<Buf>, head: int, chain: seq<int>, c: int)
    requires Linked(bufs, head, chain) && Homed(h, bufs, chain, c) && |bufs| == |bufs'|
    requires forall j :: 0 <= j < |chain| ==> bufs'[chain[j]] == bufs[chain[j]]
    ensures Linked(bufs', head, chain) && Homed(h, bufs', chain, c)
  {
    forall j | 0 <= j < |chain| ensures NextAt(bufs', chain, j) {
      assert NextAt(bufs, chain, j);
    }
  }

  lemma ChainCons(h: Key -> nat, bufs: seq<Buf>, head: int, chain: seq<int>, c: int, e: int)
    requires Linked(bufs, head, chain) && Homed(h, bufs, chain, c)
    requires 0 <= e < |bufs| && e !in chain && bufs[e].valid && h(bufs[e].key) == c && bufs[e].next == head
    ensures Linked(bufs, e, [e] + chain) && Homed(h, bufs, [e] + chain, c)
  {
    var chain' := [e] + chain;
    forall j | 0 <= j < |chain'| ensures NextAt(bufs, chain', j) {
      if j > 0 { assert NextAt(bufs, chain, j - 1); }
    }
  }

  lemma PushChain(h: Key -> nat, t: Tab, e: nat, k: Key, c: nat)
    requires WellFormed(h, t) && e < |t.bufs| && !t.bufs[e].valid && c < |t.chains|
    requires Linked(t.bufs, t.buckets[c], t.chains[c]) && Homed(h, t.bufs, t.chains[c], c)
    ensures
      var t' := PushTab(t, h(k), e, k);
      Linked(t'.bufs, t'.buckets[c], t'.chains[c]) && Homed(h, t'.bufs, t'.chains[c], c)
  {
    var t' := PushTab(t, h(k), e, k);
    assert e !in t.chains[c];
    ChainFrame(h, t.bufs, t'.bufs, t.buckets[c], t.chains[c], c);
    if c == h(k) { ChainCons(h, t'.bufs, t.buckets[c], t.chains[c], c, e); }
  }

  /** Filling a free buffer with a sector that was not cached adds exactly that sector. */
  lemma AddCached(bufs: seq<Buf>, bufs': seq<Buf>, e: int)
    requires Unique(bufs) && 0 <= e < |bufs| && SameBut(bufs, bufs', e) && !bufs[e].valid && bufs'[e].valid
    requires bufs'[e].key !in Cached(bufs)
    ensures Unique(bufs') && Cached(bufs') == Cached(bufs)[bufs'[e].key := bufs'[e].data]
  {
    assert Unique(bufs') by {
      forall f | 0 <= f < |bufs| && f != e && bufs'[f].valid ensures bufs'[f].key != bufs'[e].key {
        CachedHas(bufs, f);
      }
    }
    DropCached(bufs', bufs, e);
    CachedHas(bufs', e);
  }

  lemma PushWellFormed(h: Key -> nat, t: Tab, e: nat, k: Key)
    requires WellFormed(h, t) && e < |t.bufs| && !t.bufs[e].valid && k !in Cached(t.bufs)
    ensures WellFormed(h, PushTab(t, h(k), e, k))
    ensures Cached(PushTab(t, h(k), e, k).bufs) == Cached(t.bufs)[k := t.bufs[e].data]
  {
    var t' := PushTab(t, h(k), e, k);
    AddCached(t.bufs, t'.bufs, e);
    forall c | 0 <= c < |t.chains|
      ensures Linked(t'.bufs, t'.buckets[c], t'.chains[c]) && Homed(h, t'.bufs, t'.chains[c], c) {
      PushChain(h, t, e, k, c);
    }
    forall f | 0 <= f < |t.bufs| && t'.bufs[f].valid
      ensures h(t'.bufs[f].key) < |t'.chains| && f in t'.chains[h(t'.bufs[f].key)]
    {
    }
  }

  // ------------------------------------------------- the order of last use

  /** s without the members of `out`. */
  ghost function Sift<T>(s: seq<T>, out: set<T>): seq<T> {
    if s == [] then [] else (if s[0] in out then [] else [s[0]]) + Sift(s[1..], out)
  }

  lemma {:induction false} SiftHas<T>(s: seq<T>, out: set<T>, x: T)
    ensures x in Sift(s, out) <==> x in s && x !in out
  {
    if s != [] { SiftHas(s[1..], out, x); }
  }

  lemma {:induction false} SiftNone<T>(s: seq<T>, out: set<T>)
    requires forall i :: 0 <= i < |s| ==> s[i] !in out
    ensures Sift(s, out) == s
  {
    if s != [] { SiftNone(s[1..], out); }
  }

  lemma {:induction false} SiftTwice<T>(s: seq<T>, a: set<T>, b: set<T>)
    ensures Sift(Sift(s, a), b) == Sift(s, a + b)
  {
    if s != [] {
      var rest := Sift(s[1..], a);
      SiftTwice(s[1..], a, b);
      if s[0] in a {
        assert Sift(s, a) == rest;
      } else {
        assert Sift(s, a)[1..] == rest;
      }
    }
  }

  lemma {:induction false} SiftSame<T>(s: seq<T>, a: set<T>, b: set<T>)
    requires forall i :: 0 <= i < |s| ==> (s[i] in a <==> s[i] in b)
    ensures Sift(s, a) == Sift(s, b)
  {
    if s != [] { SiftSame(s[1..], a, b); }
  }

  /** Places i and j of the list are two buffers, the first used before the second. */
  ghost predicate Earlier(bufs: seq<Buf>, ages: seq<int>, i: int, j: int) {
    0 <= i < j < |ages| ==>
      0 <= ages[i] < |bufs| && 0 <= ages[j] < |bufs| && bufs[ages[i]].lastUsed < bufs[ages[j]].lastUsed
  }

  ghost predicate InUse(bufs: seq<Buf>, clock: nat, ages: seq<int>, i: int) {
    0 <= i < |ages| ==> 0 <= ages[i] < |bufs| && bufs[ages[i]].valid && bufs[ages[i]].lastUsed <= clock
  }

  /** Buffer f is in its place: in the list if it is in use and not e. */
  ghost predicate Placed(bufs: seq<Buf>, ages: seq<int>, e: int, f: int) {
    0 <= f < |bufs| ==> (f in ages <==> bufs[f].valid && f != e)
  }

  /** The buffers in use but for e, the least recently used first. */
  ghost predicate Aged(bufs: seq<Buf>, clock: nat, ages: seq<int>, e: int) {
    ( && (forall i, j :: Earlier(bufs, ages, i, j))
      && (forall i :: InUse(bufs, clock, ages, i))
      && (forall f :: Placed(bufs, ages, e, f))) == true
  }

  /** Their sectors. */
  ghost function Keys(bufs: seq<Buf>, ages: seq<int>): (r: seq<Key>)
    ensures |r| == |ages|
  {
    seq(|ages|, i requires 0 <= i < |ages| => if 0 <= ages[i] < |bufs| then bufs[ages[i]].key else Key(0, 0))
  }

  /** Where a member of the list stands in it. */
  lemma At(bufs: seq<Buf>, clock: nat, ages: seq<int>, e: int, f: int) returns (i: nat)
    requires Aged(bufs, clock, ages, e) && f in ages
    ensures i < |ages| && ages[i] == f && 0 <= f < |bufs| && bufs[f].valid && f != e && bufs[f].lastUsed <= clock
  {
    i :| 0 <= i < |ages| && ages[i] == f;
    assert InUse(bufs, clock, ages, i) && Placed(bufs, ages, e, f);
  }

  lemma {:induction false} EarlierSift(bufs: seq<Buf>, ages: seq<int>, out: set<int>, i: int, j: int)
    requires forall x, y :: Earlier(bufs, ages, x, y)
    ensures Earlier(bufs, Sift(ages, out), i, j)
  {
    if ages != [] && 0 <= i < j < |Sift(ages, out)| {
      var rest := Sift(ages[1..], out);
      forall x, y ensures Earlier(bufs, ages[1..], x, y) { assert Earlier(bufs, ages, x + 1, y + 1); }
      if ages[0] in out {
        assert Sift(ages, out) == rest;
        EarlierSift(bufs, ages[1..], out, i, j);
      } else if i > 0 {
        EarlierSift(bufs, ages[1..], out, i - 1, j - 1);
      } else {
        SiftHas(ages[1..], out, rest[j - 1]);
        var y :| 0 <= y < |ages[1..]| && ages[1..][y] == rest[j - 1];
        assert Earlier(bufs, ages, 0, y + 1);
      }
    }
  }

  lemma {:induction false} KeysSift(bufs: seq<Buf>, ages: seq<int>, e: int)
    requires Unique(bufs) && 0 <= e < |bufs| && bufs[e].valid
    requires forall i :: 0 <= i < |ages| ==> 0 <= ages[i] < |bufs| && bufs[ages[i]].valid
    ensures Keys(bufs, Sift(ages, {e})) == Sift(Keys(bufs, ages), {bufs[e].key})
  {
    if ages != [] {
      KeysSift(bufs, ages[1..], e);
      assert Keys(bufs, ages)[1..] == Keys(bufs, ages[1..]);
    }
  }

  /** Without e the list is the one of the other buffers. */
  lemma AgedSift(bufs: seq<Buf>, clock: nat, ages: seq<int>, e: int, x: int)
    requires Aged(bufs, clock, ages, x) && (x == NONE || x == e)
    ensures Aged(bufs, clock, Sift(ages, {e}), e)
  {
    var left := Sift(ages, {e});
    forall i, j ensures Earlier(bufs, left, i, j) { EarlierSift(bufs, ages, {e}, i, j); }
    forall i ensures InUse(bufs, clock, left, i) {
      if 0 <= i < |left| {
        SiftHas(ages, {e}, left[i]);
        var k := At(bufs, clock, ages, x, left[i]);
      }
    }
    forall f ensures Placed(bufs, left, e, f) {
      SiftHas(ages, {e}, f);
      assert Placed(bufs, ages, x, f);
    }
  }

  lemma KeysWithout(bufs: seq<Buf>, clock: nat, ages: seq<int>, e: int, x: int)
    requires Aged(bufs, clock, ages, x) && Unique(bufs) && 0 <= e < |bufs| && bufs[e].valid
    ensures Keys(bufs, Sift(ages, {e})) == Sift(Keys(bufs, ages), {bufs[e].key})
  {
    forall i | 0 <= i < |ages| ensures 0 <= ages[i] < |bufs| && bufs[ages[i]].valid {
      assert InUse(bufs, clock, ages, i);
    }
    KeysSift(bufs, ages, e);
  }

  /** The list does not see changes to a buffer that is not on it, but for its being in use or not. */
  lemma AgedOther(bufs: seq<Buf>, bufs': seq<Buf>, clock: nat, ages: seq<int>, e: int)
    requires Aged(bufs, clock, ages, e) && SameBut(bufs, bufs', e) && 0 <= e < |bufs|
    ensures Aged(bufs', clock, ages, e) && (!bufs'[e].valid ==> Aged(bufs', clock, ages, NONE))
    ensures Keys(bufs', ages) == Keys(bufs, ages)
  {
    assert Placed(bufs, ages, e, e);
    forall i | 0 <= i < |ages| ensures 0 <= ages[i] < |bufs| && ages[i] != e { assert InUse(bufs, clock, ages, i); }
    forall i, j ensures Earlier(bufs', ages, i, j) { assert Earlier(bufs, ages, i, j); }
    forall i ensures InUse(bufs', clock, ages, i) { assert InUse(bufs, clock, ages, i); }
    forall f ensures Placed(bufs', ages, e, f) && (!bufs'[e].valid ==> Placed(bufs', ages, NONE, f)) {
      assert Placed(bufs, ages, e, f);
    }
  }

  /** A stamp later than all makes a buffer the most recently used one. */
  lemma AgedLast(bufs: seq<Buf>, clock: nat, ages: seq<int>, e: int)
    requires Aged(bufs, clock, ages, e) && 0 <= e < |bufs| && bufs[e].valid && bufs[e].lastUsed == clock + 1
    ensures Aged(bufs, clock + 1, ages + [e], NONE) && Keys(bufs, ages + [e]) == Keys(bufs, ages) + [bufs[e].key]
  {
    var ages', next := ages + [e], clock + 1;
    forall i, j ensures Earlier(bufs, ages', i, j) {
      assert Earlier(bufs, ages, i, j) && InUse(bufs, clock, ages, i);
    }
    forall i ensures InUse(bufs, next, ages', i) { assert InUse(bufs, clock, ages, i); }
    forall f ensures Placed(bufs, ages', NONE, f) { assert Placed(bufs, ages, e, f); }
  }

  lemma AgedTouch(bufs: seq<Buf>, clock: nat, ages: seq<int>, e: int, x: int)
    requires Unique(bufs) && 0 <= e < |bufs| && bufs[e].valid && Aged(bufs, clock, ages, x) && (x == NONE || x == e)
    ensures
      var bufs', ages' := bufs[e := bufs[e].(lastUsed := clock + 1)], Sift(ages, {e}) + [e];
      Aged(bufs', clock + 1, ages', NONE) && Keys(bufs', ages') == Used(Keys(bufs, ages), bufs[e].key)
  {
    var bufs' := bufs[e := bufs[e].(lastUsed := clock + 1)];
    AgedSift(bufs, clock, ages, e, x);
    KeysWithout(bufs, clock, ages, e, x);
    AgedOther(bufs, bufs', clock, Sift(ages, {e}), e);
    AgedLast(bufs', clock, Sift(ages, {e}), e);
  }

  /** A free buffer comes into use. */
  lemma AgedIn(bufs: seq<Buf>, bufs': seq<Buf>, clock: nat, ages: seq<int>, e: int)
    requires Aged(bufs, clock, ages, NONE) && SameBut(bufs, bufs', e) && 0 <= e < |bufs| && !bufs[e].valid
    ensures Aged(bufs', clock, ages, e) && Keys(bufs', ages) == Keys(bufs, ages)
  {
    forall f ensures Placed(bufs, ages, e, f) { assert Placed(bufs, ages, NONE, f); }
    AgedOther(bufs, bufs', clock, ages, e);
  }

  /** A buffer goes out of use. */
  lemma AgedOut(bufs: seq<Buf>, bufs': seq<Buf>, clock: nat, ages: seq<int>, e: int)
    requires Unique(bufs) && Aged(bufs, clock, ages, NONE) && SameBut(bufs, bufs', e)
    requires 0 <= e < |bufs| && bufs[e].valid && !bufs'[e].valid
    ensures Aged(bufs', clock, Sift(ages, {e}), NONE)
    ensures Keys(bufs', Sift(ages, {e})) == Sift(Keys(bufs, ages), {bufs[e].key})
  {
    AgedSift(bufs, clock, ages, e, NONE);
    KeysWithout(bufs, clock, ages, e, NONE);
    AgedOther(bufs, bufs', clock, Sift(ages, {e}), e);
  }

  lemma AgedFill(bufs: seq<Buf>, clock: nat, ages: seq<int>, e: int, data: Sector, x: int)
    requires 0 <= e < |bufs|
    ensures
      var bufs' := bufs[e := bufs[e].(data := data)];
      Keys(bufs', ages) == Keys(bufs, ages) && (Aged(bufs, clock, ages, x) ==> Aged(bufs', clock, ages, x))
  {
    var bufs' := bufs[e := bufs[e].(data := data)];
    if Aged(bufs, clock, ages, x) {
      forall i, j ensures Earlier(bufs', ages, i, j) { assert Earlier(bufs, ages, i, j); }
      forall i ensures InUse(bufs', clock, ages, i) { assert InUse(bufs, clock, ages, i); }
      forall f ensures Placed(bufs', ages, x, f) { assert Placed(bufs, ages, x, f); }
    }
  }

  /** Of buffers that are all in use, the one with the least stamp is listed first. */
  lemma Oldest(bufs: seq<Buf>, clock: nat, ages: seq<int>, v: int)
    requires Aged(bufs, clock, ages, NONE) && 0 <= v < |bufs| && bufs[v].valid
    requires forall i :: 0 <= i < |bufs| ==> bufs[v].lastUsed <= bufs[i].lastUsed
    ensures ages != [] && ages[0] == v
  {
    assert Placed(bufs, ages, NONE, v);
    var i := At(bufs, clock, ages, NONE, v);
    assert Earlier(bufs, ages, 0, i);
  }

  lemma {:induction false} Elements(s: seq<int>) returns (all: set<int>)
    requires forall i, j :: 0 <= i < j < |s| ==> s[i] != s[j]
    ensures (forall x :: x in all <==> x in s) && |all| == |s|
  {
    all := {};
    if s != [] {
      var rest := Elements(s[1..]);
      all := {s[0]} + rest;
    }
  }

  lemma {:induction false} Indexes(n: nat) returns (all: set<int>)
    ensures (forall x :: x in all <==> 0 <= x < n) && |all| == n
  {
    all := {};
    if n > 0 {
      var rest := Indexes(n - 1);
      all := rest + {n - 1};
    }
  }

  /** No more sectors are listed than there are buffers, and as many exactly when all are in use. */
  lemma AgedFull(bufs: seq<Buf>, clock: nat, ages: seq<int>)
    requires Aged(bufs, clock, ages, NONE)
    ensures |ages| <= |bufs| && (|ages| == |bufs| <==> forall f :: 0 <= f < |bufs| ==> bufs[f].valid)
  {
    forall i, j | 0 <= i < j < |ages| ensures ages[i] != ages[j] { assert Earlier(bufs, ages, i, j); }
    var used := Elements(ages);
    var all := Indexes(|bufs|);
    forall x | x in used ensures x in all { var i := At(bufs, clock, ages, NONE, x); }
    assert |all - used| == |all| - |used|;
    if f :| 0 <= f < |bufs| && !bufs[f].valid {
      assert Placed(bufs, ages, NONE, f);
      assert f in all - used;
    } else {
      forall x | x in all ensures x in used { assert Placed(bufs, ages, NONE, x); }
      assert all - used == {};
    }
  }

  /** What a sector that is not cached drives out of a cache of n: the least recently used one, if it is full. */
  ghost function Lost(order: seq<Key>, k: Key, n: nat): set<Key> {
    if k in order || |order| < n || order == [] then {} else {order[0]}
  }

  /** A use of k. */
  ghost function Used(order: seq<Key>, k: Key): seq<Key> { Sift(order, {k}) + [k] }

  // ------------------------------------------------- the table in memory

  class Table {
    var bufs: seq<Buf>
    var buckets: seq<int>
    var clock: nat
    /** Which bucket a sector belongs to: any hash will do. */
    const hash: Key -> nat
    ghost var chains: seq<seq<int>>
    /** The buffers in use, the least recently used first. */
    ghost var ages: seq<int>

    ghost function T(): Tab
      reads this
    {
      Tab(bufs, buckets, chains)
    }

    /** All but the order of last use, which is not kept while a buffer changes hands. */
    ghost predicate Formed()
      reads this
    {
      WellFormed(hash, T()) == true
    }

    ghost predicate Valid()
      reads this
    {
      Formed() && Aged(bufs, clock, ages, NONE)
    }

    /** The sectors the table caches, the least recently used first. */
    ghost function Recency(): seq<Key>
      reads this
    {
      Keys(bufs, ages)
    }

    /** What the table caches. */
    ghost function Contents(): map<Key, Sector>
      requires Formed()
      reads this
    {
      Cached(bufs)
    }

    constructor (entries: nat, nbuckets: nat, h: Key -> nat)
      requires entries > 0 && nbuckets > 0 && forall k :: h(k) < nbuckets
      ensures Valid() && Contents() == map[] && |bufs| == entries && Recency() == []
    {
      hash := h;
      bufs := seq(entries, i => Buf(Key(0, 0), false, 0, NONE, []));
      buckets := seq(nbuckets, i => NONE);
      chains := seq(nbuckets, i => []);
      ages, clock := [], 0;
      new;
      if k :| k in Cached(bufs) { var e := CachedFrom(bufs, k); }
    }

    /** lookup: walks one bucket and finds the sector if any buffer holds it. */
    method Lookup(k: Key) returns (e: int)
      requires Formed()
      ensures e == NONE <==> k !in Contents()
      ensures e != NONE ==> 0 <= e < |bufs| && bufs[e].valid && bufs[e].key == k && Contents()[k] == bufs[e].data
    {
      ghost var chain, i := chains[hash(k)], 0;
      e := buckets[hash(k)];
      assert Linked(bufs, e, chain) && Homed(hash, bufs, chain, hash(k));
      while e != NONE
        invariant 0 <= i <= |chain| && e == Nth(chain, i)
        invariant forall j :: 0 <= j < i ==> bufs[chain[j]].key != k
        decreases |chain| - i
      {
        if bufs[e].valid && bufs[e].key == k {
          CachedHas(bufs, e);
          return;
        }
        assert NextAt(bufs, chain, i);
        e := bufs[e].next;
        i := i + 1;
      }
      if k in Cached(bufs) { var f := CachedFrom(bufs, k); }
    }

    /** The walk of unlink_buf: the buffer before e in its bucket, or NONE at its head. */
    method Predecessor(e: int) returns (prev: int, ghost i: nat)
      requires Formed() && 0 <= e < |bufs| && bufs[e].valid
      ensures var chain := chains[hash(bufs[e].key)];
        i < |chain| && chain[i] == e && prev == if i == 0 then NONE else chain[i - 1]
    {
      var h := hash(bufs[e].key);
      ghost var chain := chains[h];
      var cur := buckets[h];
      prev, i := NONE, 0;
      assert Linked(bufs, cur, chain) && Homed(hash, bufs, chain, h);
      while cur != NONE && cur != e
        invariant 0 <= i <= |chain| && cur == Nth(chain, i)
        invariant prev == if i == 0 then NONE else chain[i - 1]
        invariant e !in chain[..i]
        decreases |chain| - i
      {
        assert NextAt(bufs, chain, i);
        prev := cur;
        cur := bufs[cur].next;
        i := i + 1;
      }
      assert e in chain;
    }

    /** unlink_buf on a buffer in use: takes it out of its bucket and marks it free. */
    method Detach(e: int)
      requires Formed() && 0 <= e < |bufs| && bufs[e].valid
      modifies this`bufs, this`buckets, this`chains
      ensures Formed() && SameBut(old(bufs), bufs, e) && !bufs[e].valid && bufs[e].lastUsed == old(bufs)[e].lastUsed
      ensures Contents() == old(Contents()) - {old(bufs)[e].key}
    {
      var h := hash(bufs[e].key);
      var prev;
      ghost var i;
      prev, i := Predecessor(e);
      CutEffect(hash, T(), h, i);
      if prev == NONE {
        buckets := buckets[h := bufs[e].next];
      } else {
        bufs := bufs[prev := bufs[prev].(next := bufs[e].next)];
      }
      bufs := bufs[e := bufs[e].(next := NONE, valid := false)];
      chains := chains[h := Cut(chains[h], i)];
      assert T() == CutTab(old(T()), h, i);
    }

    /** unlink_buf: frees a buffer, if it is in use. */
    method Unlink(e: int)
      requires Valid() && 0 <= e < |bufs|
      modifies this
      ensures Valid() && SameBut(old(bufs), bufs, e) && clock == old(clock)
      ensures !bufs[e].valid && bufs[e].lastUsed == old(bufs)[e].lastUsed
      ensures Contents() == if old(bufs)[e].valid then old(Contents()) - {old(bufs)[e].key} else old(Contents())
      ensures Recency() == if old(bufs)[e].valid then Sift(old(Recency()), {old(bufs)[e].key}) else old(Recency())
    {
      if bufs[e].valid {
        Detach(e);
        AgedOut(old(bufs), bufs, clock, ages, e);
        ages := Sift(ages, {e});
      }
    }

    /** claim's choice: the first free buffer, else the first least recently used one. */
    method Victim() returns (v: int)
      requires Valid()
      ensures 0 <= v < |bufs|
      ensures !bufs[v].valid ==> forall i :: 0 <= i < v ==> bufs[i].valid
      ensures bufs[v].valid ==> |Recency()| == |bufs| && bufs[v].key == Recency()[0]
      ensures !bufs[v].valid ==> |Recency()| < |bufs|
    {
      v := NONE;
      for i := 0 to |bufs|
        invariant i == 0 <==> v == NONE
        invariant v != NONE ==> 0 <= v < i
        invariant forall j :: 0 <= j < i ==> bufs[j].valid && bufs[v].lastUsed <= bufs[j].lastUsed
      {
        if !bufs[i].valid { AgedFull(bufs, clock, ages); return i; }
        if v == NONE || bufs[i].lastUsed < bufs[v].lastUsed { v := i; }
      }
      AgedFull(bufs, clock, ages);
      Oldest(bufs, clock, ages, v);
    }

    /** claim: a buffer for the sector, recycling the least recently used one if it has none. */
    method Claim(k: Key) returns (e: int)
      requires Valid()
      modifies this
      ensures Formed() && 0 <= e < |bufs| && |bufs| == old(|bufs|) && clock == old(clock)
      ensures bufs[e].valid && bufs[e].key == k
      ensures Aged(bufs, clock, ages, if k in old(Recency()) then NONE else e)
      ensures Recency() == Sift(old(Recency()), Lost(old(Recency()), k, |bufs|))
      ensures Contents() == (old(Contents()) - Lost(old(Recency()), k, |bufs|))[k := bufs[e].data]
    {
      e := Lookup(k);
      RecencyKeys(k);
      if e == NONE {
        e := Recycle(k);
      } else {
        SiftNone(Recency(), {});
        CachedHas(bufs, e);
      }
    }

    /** The choice of a buffer for a sector that is not cached. */
    method Recycle(k: Key) returns (e: int)
      requires Valid() && k !in Contents() && k !in Recency()
      modifies this
      ensures Formed() && 0 <= e < |bufs| && |bufs| == old(|bufs|) && clock == old(clock)
      ensures bufs[e].valid && bufs[e].key == k && Aged(bufs, clock, ages, e)
      ensures Recency() == Sift(old(Recency()), Lost(old(Recency()), k, |bufs|))
      ensures Contents() == (old(Contents()) - Lost(old(Recency()), k, |bufs|))[k := bufs[e].data]
    {
      SiftNone(Recency(), {});
      e := Victim();
      ghost var lost := Lost(Recency(), k, |bufs|);
      assert lost == if bufs[e].valid then {bufs[e].key} else {};
      Unlink(e);
      assert Recency() == Sift(old(Recency()), lost) && Contents() == old(Contents()) - lost;
      Push(e, k);
    }

    /** The sectors listed are those cached. */
    lemma RecencyKeys(k: Key)
      requires Valid()
      ensures k in Recency() <==> k in Contents()
    {
      if k in Recency() {
        var i :| 0 <= i < |ages| && Recency()[i] == k;
        assert InUse(bufs, clock, ages, i);
        CachedHas(bufs, ages[i]);
      }
      if k in Contents() {
        var e := CachedFrom(bufs, k);
        assert Placed(bufs, ages, NONE, e);
        var i := At(bufs, clock, ages, NONE, e);
        assert Recency()[i] == k;
      }
    }

    /** The end of claim: a free buffer becomes the sector's, at the head of its bucket. */
    method Push(e: int, k: Key)
      requires Valid() && 0 <= e < |bufs| && !bufs[e].valid && k !in Contents()
      modifies this
      ensures Formed() && |bufs| == old(|bufs|) && clock == old(clock)
      ensures bufs[e].valid && bufs[e].key == k
      ensures Contents() == old(Contents())[k := bufs[e].data]
      ensures Aged(bufs, clock, ages, e) && Recency() == old(Recency())
    {
      var b := hash(k);
      PushWellFormed(hash, T(), e, k);
      bufs := bufs[e := bufs[e].(key := k, valid := true, next := buckets[b])];
      buckets := buckets[b := e];
      chains := chains[b := [e] + chains[b]];
      assert T() == PushTab(old(T()), b, e, k);
      AgedIn(old(bufs), bufs, clock, ages, e);
    }

    /**
     * claim, then the copy and the time stamp that follow it under the same lock: the sector is cached and the
     * most recently used one, and what it drives out of a full table is the least recently used one.
     */
    method Put(k: Key, data: Sector)
      requires Valid()
      modifies this
      ensures Valid() && |bufs| == old(|bufs|)
      ensures Contents() == (old(Contents()) - Lost(old(Recency()), k, |bufs|))[k := data]
      ensures Recency() == Used(Sift(old(Recency()), Lost(old(Recency()), k, |bufs|)), k)
    {
      ghost var lost := Lost(Recency(), k, |bufs|);
      var e := Claim(k);
      assert Aged(bufs, clock, ages, NONE) || Aged(bufs, clock, ages, e);
      Fill(e, data);
      assert Contents() == (old(Contents()) - lost)[k := data] && Recency() == Sift(old(Recency()), lost);
      assert Aged(bufs, clock, ages, NONE) || Aged(bufs, clock, ages, e);
      Touch(e);
    }

    /** mem_copy into a valid buffer. */
    method Fill(e: int, data: Sector)
      requires Formed() && 0 <= e < |bufs| && bufs[e].valid
      modifies this`bufs
      ensures Formed() && bufs == old(bufs)[e := old(bufs)[e].(data := data)]
      ensures Contents() == old(Contents())[bufs[e].key := data]
      ensures Recency() == old(Recency())
      ensures old(Valid()) ==> Valid()
      ensures Aged(old(bufs), clock, ages, NONE) ==> Aged(bufs, clock, ages, NONE)
      ensures Aged(old(bufs), clock, ages, e) ==> Aged(bufs, clock, ages, e)
    {
      FillCached(hash, T(), e, data, bufs[e].lastUsed);
      AgedFill(bufs, clock, ages, e, data, NONE);
      AgedFill(bufs, clock, ages, e, data, e);
      bufs := bufs[e := bufs[e].(data := data)];
    }

    /** The LRU time stamp: of a buffer in its place, or of one that has just changed hands. */
    method Touch(e: int)
      requires Formed() && 0 <= e < |bufs| && bufs[e].valid
      requires Aged(bufs, clock, ages, NONE) || Aged(bufs, clock, ages, e)
      modifies this
      ensures Valid() && bufs == old(bufs)[e := old(bufs)[e].(lastUsed := clock)] && clock == old(clock) + 1
      ensures Contents() == old(Contents()) && Recency() == Used(old(Recency()), bufs[e].key)
    {
      AgedTouch(bufs, clock, ages, e, if Aged(bufs, clock, ages, NONE) then NONE else e);
      clock := clock + 1;
      StampCached(hash, T(), e, clock);
      bufs := bufs[e := bufs[e].(lastUsed := clock)];
      ages := Sift(ages, {e}) + [e];
      assert T() == old(T()).(bufs := bufs);
      assert Formed() && Aged(bufs, clock, ages, NONE);
    }
  }

  /** Apart from k, nothing is cached that was not, and nothing changed. */
  ghost predicate Recycled(c: map<Key, Sector>, c': map<Key, Sector>, k: Key) {
    forall x :: x in c' && x != k ==> x in c && c'[x] == c[x]
  }

  /** New bytes in a valid buffer change one sector and no chain. */
  lemma FillCached(h: Key -> nat, t: Tab, e: int, data: Sector, stamp: nat)
    requires WellFormed(h, t) && 0 <= e < |t.bufs| && t.bufs[e].valid
    ensures
      var t' := t.(bufs := t.bufs[e := t.bufs[e].(data := data, lastUsed := stamp)]);
      WellFormed(h, t') && Cached(t'.bufs) == Cached(t.bufs)[t.bufs[e].key := data]
  {
    FillForm(h, t, e, data, stamp);
    var gone := t.bufs[e := t.bufs[e].(valid := false)];
    DropCached(t.bufs, gone, e);
    AddCached(gone, t.bufs[e := t.bufs[e].(data := data, lastUsed := stamp)], e);
  }

  /** A new time stamp changes neither. */
  lemma StampCached(h: Key -> nat, t: Tab, e: int, stamp: nat)
    requires WellFormed(h, t) && 0 <= e < |t.bufs| && t.bufs[e].valid
    ensures
      var t' := t.(bufs := t.bufs[e := t.bufs[e].(lastUsed := stamp)]);
      WellFormed(h, t') && Cached(t'.bufs) == Cached(t.bufs)
  {
    FillCached(h, t, e, t.bufs[e].data, stamp);
    CachedHas(t.bufs, e);
    assert t.bufs[e].(lastUsed := stamp) == t.bufs[e].(data := t.bufs[e].data, lastUsed := stamp);
  }

  lemma FillForm(h: Key -> nat, t: Tab, e: int, data: Sector, stamp: nat)
    requires WellFormed(h, t) && 0 <= e < |t.bufs| && t.bufs[e].valid
    ensures WellFormed(h, t.(bufs := t.bufs[e := t.bufs[e].(data := data, lastUsed := stamp)]))
  {
    var t' := t.(bufs := t.bufs[e := t.bufs[e].(data := data, lastUsed := stamp)]);
    forall b | 0 <= b < |t.chains| ensures Linked(t'.bufs, t'.buckets[b], t'.chains[b]) {
      FillLinked(t.bufs, t'.bufs, t.buckets[b], t.chains[b]);
    }
    assert forall b :: 0 <= b < |t.chains| ==> Homed(h, t.bufs, t.chains[b], b);
  }

  lemma FillLinked(bufs: seq<Buf>, bufs': seq<Buf>, head: int, chain: seq<int>)
    requires Linked(bufs, head, chain) && |bufs| == |bufs'| && forall e :: 0 <= e < |bufs| ==>
      bufs'[e].next == bufs[e].next
    ensures Linked(bufs', head, chain)
  {
    forall j | 0 <= j < |chain| ensures NextAt(bufs', chain, j) {
      assert NextAt(bufs, chain, j);
    }
  }
}
