/** kernel/fs/fatfs.c: cluster chains in the file allocation table, and file contents over them. */
module FatChain {
  import opened Bytes
  import opened DivMod
  import opened Image

  const SECTOR_SIZE: nat := 512

  /** Entry values from here on end a chain; cluster numbers stay below. */
  type Fat = seq<nat>

  // ------------------------------------------------- chains

  ghost predicate Distinct(ch: seq<nat>) { forall i, j :: 0 <= i < j < |ch| ==> ch[i] != ch[j] }

  /** The clusters of ch are linked in order, and the last one ends the chain. */
  ghost predicate Linked(fat: Fat, ch: seq<nat>, eoc: nat) {
    && ch != [] && Distinct(ch)
    && (forall i :: 0 <= i < |ch| ==> 2 <= ch[i] < |fat|)
    && (forall i :: 0 <= i < |ch| - 1 ==> fat[ch[i]] == ch[i + 1])
    && fat[ch[|ch| - 1]] >= eoc
  }

  ghost predicate Apart(a: seq<nat>, b: seq<nat>) { forall i, j :: 0 <= i < |a| && 0 <= j < |b| ==> a[i] != b[j] }

  /** Every file's chain is whole, and no two share a cluster. */
  ghost predicate Chains(fat: Fat, chains: map<nat, seq<nat>>, eoc: nat) {
    && (forall id :: id in chains ==> Linked(fat, chains[id], eoc))
    && (forall a, b :: a in chains && b in chains && a != b ==> Apart(chains[a], chains[b]))
  }

  /** A used entry is never free. */
  lemma UsedEntry(fat: Fat, ch: seq<nat>, eoc: nat, i: nat)
    requires Linked(fat, ch, eoc) && i < |ch| && eoc > 0
    ensures fat[ch[i]] != 0
  {
    if i < |ch| - 1 { assert fat[ch[i]] == ch[i + 1]; }
  }

  lemma FreeApart(fat: Fat, chains: map<nat, seq<nat>>, eoc: nat, c: nat)
    requires Chains(fat, chains, eoc) && c < |fat| && fat[c] == 0 && eoc > 0
    ensures forall id, i :: id in chains && 0 <= i < |chains[id]| ==> chains[id][i] != c
  {
    forall id, i | id in chains && 0 <= i < |chains[id]|
      ensures chains[id][i] != c { UsedEntry(fat, chains[id], eoc, i); }
  }

  /** A store to an entry outside a chain leaves it linked. */
  lemma StoreOutside(fat: Fat, ch: seq<nat>, eoc: nat, c: nat, v: nat)
    requires Linked(fat, ch, eoc) && c < |fat| && forall i :: 0 <= i < |ch| ==> ch[i] != c
    ensures Linked(fat[c := v], ch, eoc)
  {
  }

  /** A fresh cluster, marked as an end, starts a chain of its own. */
  lemma StartChain(fat: Fat, chains: map<nat, seq<nat>>, eoc: nat, id: nat, c: nat, v: nat)
    requires Chains(fat, chains, eoc) && 2 <= c < |fat| && fat[c] == 0 && v >= eoc > 0 && id !in chains
    ensures Chains(fat[c := v], chains[id := [c]], eoc)
  {
    FreeApart(fat, chains, eoc, c);
    forall a | a in chains ensures Linked(fat[c := v], chains[a], eoc) { StoreOutside(fat, chains[a], eoc, c, v); }
  }

  /** What becomes of another chain when one grows by a free cluster. */
  lemma GrowOther(fat: Fat, ch: seq<nat>, other: seq<nat>, eoc: nat, c: nat, v: nat)
    requires Linked(fat, ch, eoc) && Linked(fat, other, eoc) && Apart(other, ch) && c < |fat|
    requires forall i :: 0 <= i < |other| ==> other[i] != c
    ensures Linked(fat[c := v][ch[|ch| - 1] := c], other, eoc) && Apart(other, ch + [c]) && Apart(ch + [c], other)
  {
    StoreOutside(fat, other, eoc, c, v);
    StoreOutside(fat[c := v], other, eoc, ch[|ch| - 1], c);
  }

  /** A fresh cluster, marked as an end, linked behind the last one of a chain. */
  lemma GrowChain(fat: Fat, chains: map<nat, seq<nat>>, eoc: nat, id: nat, c: nat, v: nat)
    requires Chains(fat, chains, eoc) && 2 <= c < |fat| && fat[c] == 0 && v >= eoc > 0 && id in chains
    ensures var ch := chains[id]; Chains(fat[c := v][ch[|ch| - 1] := c], chains[id := ch + [c]], eoc)
  {
    var ch := chains[id];
    GrowOthers(fat, chains, eoc, id, c, v);
    assert Linked(fat[c := v][ch[|ch| - 1] := c], ch + [c], eoc) by {
      FreeApart(fat, chains, eoc, c);
      GrowLinked(fat, ch, eoc, c, v);
    }
    PutChain(fat[c := v][ch[|ch| - 1] := c], chains, eoc, id, ch + [c]);
  }

  lemma GrowOthers(fat: Fat, chains: map<nat, seq<nat>>, eoc: nat, id: nat, c: nat, v: nat)
    requires Chains(fat, chains, eoc) && 2 <= c < |fat| && fat[c] == 0 && v >= eoc > 0 && id in chains
    ensures
      var ch := chains[id];
      forall a :: a in chains && a != id ==>
        && Linked(fat[c := v][ch[|ch| - 1] := c], chains[a], eoc)
        && Apart(chains[a], ch + [c]) && Apart(ch + [c], chains[a])
  {
    FreeApart(fat, chains, eoc, c);
    forall a | a in chains && a != id { GrowOther(fat, chains[id], chains[a], eoc, c, v); }
  }

  /** One chain put in or replaced, when it and the others are in order. */
  lemma PutChain(fat: Fat, chains: map<nat, seq<nat>>, eoc: nat, id: nat, ch: seq<nat>)
    requires Linked(fat, ch, eoc) && forall a :: a in chains && a != id ==> Linked(fat, chains[a], eoc)
    requires forall a :: a in chains && a != id ==> Apart(chains[a], ch) && Apart(ch, chains[a])
    requires forall a, b :: a in chains && b in chains && a != b ==> Apart(chains[a], chains[b])
    ensures Chains(fat, chains[id := ch], eoc)
  {
    var chains' := chains[id := ch];
    forall a, b | a in chains' && b in chains' && a != b ensures Apart(chains'[a], chains'[b]) {
      if a != id && b != id { assert Apart(chains[a], chains[b]); }
    }
  }

  lemma GrowLinked(fat: Fat, ch: seq<nat>, eoc: nat, c: nat, v: nat)
    requires Linked(fat, ch, eoc) && 2 <= c < |fat| && v >= eoc && forall i :: 0 <= i < |ch| ==> ch[i] != c
    ensures Linked(fat[c := v][ch[|ch| - 1] := c], ch + [c], eoc)
  {
  }

  // ------------------------------------------------- where a file's bytes are

  /** Where the data area starts on the device, and how many sectors a cluster has. */
  datatype Layout = Layout(start: nat, per: nat)

  type Geometry = g: Layout | g.per > 0 witness Layout(0, 1)

  function Size(g: Geometry): (cs: nat)
    ensures cs > 0
  {
    g.per * SECTOR_SIZE
  }

  /** cluster_to_lba and a sector's place in the cluster, in the 32 bits the code has for them. */
  function Lba(g: Geometry, c: nat, s: nat): nat
    requires c >= 2
  {
    (g.start + (c - 2) * g.per % U32 + s) % U32
  }

  /** The sectors of all n clusters have addresses of 32 bits. */
  ghost predicate Addressable(g: Geometry, n: nat) { g.start + (n - 2) * g.per <= U32 }

  lemma LbaIs(g: Geometry, n: nat, c: nat, s: nat)
    requires Addressable(g, n) && 2 <= c < n && s < g.per
    ensures Lba(g, c, s) == g.start + (c - 2) * g.per + s < g.start + (n - 2) * g.per
  {
    MulMono(c - 1, n - 2, g.per);
    assert (c - 1) * g.per == (c - 2) * g.per + g.per;
    MulMono(0, c - 2, g.per);
  }

  /** No two sectors of the n clusters share an address. */
  lemma LbaOwn(g: Geometry, n: nat, c: nat, s: nat, d: nat, t: nat)
    requires Addressable(g, n) && 2 <= c < n && 2 <= d < n && s < g.per && t < g.per && Lba(g, c, s) == Lba(g, d, t)
    ensures c == d && s == t
  {
    LbaIs(g, n, c, s);
    LbaIs(g, n, d, t);
    DivUnique((c - 2) * g.per + s, g.per, c - 2, s);
    DivUnique((d - 2) * g.per + t, g.per, d - 2, t);
  }

  /** Byte x of a chain lies in byte Off of sector Sec of cluster Idx. */
  function Idx(g: Geometry, x: nat): nat { x / Size(g) }

  function Sec(g: Geometry, x: nat): nat { x % Size(g) / SECTOR_SIZE }

  function Off(g: Geometry, x: nat): nat { x % Size(g) % SECTOR_SIZE }

  lemma Parts(g: Geometry, x: nat)
    ensures x == Idx(g, x) * Size(g) + Sec(g, x) * SECTOR_SIZE + Off(g, x)
    ensures Sec(g, x) < g.per && Off(g, x) < SECTOR_SIZE
  {
    DivSplit(x, Size(g));
  }

  lemma PartsOf(g: Geometry, x: nat, q: nat, s: nat, o: nat)
    requires x == q * Size(g) + s * SECTOR_SIZE + o && s < g.per && o < SECTOR_SIZE
    ensures Idx(g, x) == q && Sec(g, x) == s && Off(g, x) == o
  {
    DivUnique(x, Size(g), q, s * SECTOR_SIZE + o);
  }

  /** A byte of a chain of n clusters is in one of them. */
  lemma IdxIn(g: Geometry, x: nat, n: nat)
    ensures x < n * Size(g) <==> Idx(g, x) < n
  {
    DivSplit(x, Size(g));
    if Idx(g, x) < n { MulMono(Idx(g, x) + 1, n, Size(g)); } else { MulMono(n, Idx(g, x), Size(g)); }
  }

  /** The address of byte x's sector. */
  ghost function Spot(g: Geometry, ch: seq<nat>, x: nat): nat
    requires Idx(g, x) < |ch| && ch[Idx(g, x)] >= 2
  {
    Lba(g, ch[Idx(g, x)], Sec(g, x))
  }

  /** A byte of the device; none past its end. */
  function ByteOf(disk: seq<Block>, l: nat, o: nat): Option<byte> {
    if l < |disk| && o < |disk[l]| then Some(disk[l][o]) else None
  }

  ghost function ByteAt(g: Geometry, disk: seq<Block>, ch: seq<nat>, x: nat): Option<byte> {
    if Idx(g, x) < |ch| && ch[Idx(g, x)] >= 2 then ByteOf(disk, Spot(g, ch, x), Off(g, x)) else None
  }

  /** A chain's bytes in order; those whose sector is not on the device are not there. */
  ghost function Content(g: Geometry, disk: seq<Block>, ch: seq<nat>): seq<Option<byte>> {
    seq(|ch| * Size(g), x requires 0 <= x => ByteAt(g, disk, ch, x))
  }

  /** Clusters of the table, each once. */
  ghost predicate Among(ch: seq<nat>, n: nat) { Distinct(ch) && forall i :: 0 <= i < |ch| ==> 2 <= ch[i] < n }

  /** The sectors of these bytes are on the device. */
  ghost predicate OnDevice(g: Geometry, ch: seq<nat>, from: nat, to: nat, sectors: nat) {
    forall x: nat :: from <= x < to && Idx(g, x) < |ch| && ch[Idx(g, x)] >= 2 ==> Spot(g, ch, x) < sectors
  }

  /** Of the new bytes those that have a place. */
  function Kept(was: Option<byte>, b: byte): Option<byte> { if was.Some? then Some(b) else None }

  ghost function Overlay(was: seq<Option<byte>>, pos: nat, bytes: seq<byte>): (r: seq<Option<byte>>)
    ensures |r| == |was|
  {
    seq(|was|, x requires 0 <= x < |was| => if pos <= x < pos + |bytes| then Kept(was[x], bytes[x - pos]) else was[x])
  }

  lemma OverlayStep(was: seq<Option<byte>>, now: seq<Option<byte>>, next: seq<Option<byte>>, pos: nat, bytes: seq<byte>,
                    n: nat, more: nat)
    requires n + more <= |bytes| && now == Overlay(was, pos, bytes[..n])
    requires next == Overlay(now, pos + n, bytes[n..][..more])
    ensures next == Overlay(was, pos, bytes[..n + more])
  {
    assert |next| == |was|;
    forall x | 0 <= x < |was| ensures next[x] == Overlay(was, pos, bytes[..n + more])[x] {
      assert now[x] == if pos <= x < pos + n then Kept(was[x], bytes[x - pos]) else was[x];
    }
  }

  /** The device after a sector is rewritten in part; nothing happens past its end. */
  function Stored(disk: seq<Block>, l: nat, o: nat, bytes: seq<byte>): seq<Block> {
    if l < |disk| && o + |bytes| <= |disk[l]| then disk[l := Patch(disk[l], o, bytes)] else disk
  }

  lemma StoredByte(disk: seq<Block>, l: nat, o: nat, bytes: seq<byte>, m: nat, i: nat)
    requires Uniform(disk, SECTOR_SIZE) && o + |bytes| <= SECTOR_SIZE
    ensures ByteOf(Stored(disk, l, o, bytes), m, i) ==
      if m == l && o <= i < o + |bytes| then
        var was := ByteOf(disk, m, i);
        Kept(was, bytes[i - o])
      else ByteOf(disk, m, i)
  {
  }

  /** Bytes rewritten in the sector of byte x: exactly those bytes of the chain change. */
  lemma StoreContent(g: Geometry, n: nat, disk: seq<Block>, ch: seq<nat>, x: nat, bytes: seq<byte>)
    requires Addressable(g, n) && Among(ch, n) && Uniform(disk, SECTOR_SIZE)
    requires x < |ch| * Size(g) && Idx(g, x) < |ch| && Off(g, x) + |bytes| <= SECTOR_SIZE
    ensures Content(g, Stored(disk, Spot(g, ch, x), Off(g, x), bytes), ch) == Overlay(Content(g, disk, ch), x, bytes)
  {
    var disk' := Stored(disk, Spot(g, ch, x), Off(g, x), bytes);
    var was, now := Content(g, disk, ch), Content(g, disk', ch);
    forall y | 0 <= y < |now| ensures now[y] == Overlay(was, x, bytes)[y] {
      StoreByte(g, n, disk, ch, ch, x, bytes, y);
    }
  }

  /** What the store does to byte y of a chain: the same one, or one without the cluster. */
  lemma StoreByte(g: Geometry, n: nat, disk: seq<Block>, ch: seq<nat>, other: seq<nat>, x: nat, bytes: seq<byte>,
                  y: nat)
    requires Addressable(g, n) && Among(ch, n) && Among(other, n) && (other == ch || Apart(other, ch))
    requires Uniform(disk, SECTOR_SIZE) && Idx(g, x) < |ch| && Off(g, x) + |bytes| <= SECTOR_SIZE
    requires y < |other| * Size(g)
    ensures ByteAt(g, Stored(disk, Spot(g, ch, x), Off(g, x), bytes), other, y) ==
      if other == ch && x <= y < x + |bytes| then Kept(ByteAt(g, disk, other, y), bytes[y - x])
      else ByteAt(g, disk, other, y)
  {
    Parts(g, x);
    Parts(g, y);
    IdxIn(g, y, |other|);
    var l, o := Spot(g, ch, x), Off(g, x);
    StoredByte(disk, l, o, bytes, Spot(g, other, y), Off(g, y));
    if other == ch && x <= y < x + |bytes| { PartsOf(g, y, Idx(g, x), Sec(g, x), o + (y - x)); }
    if Spot(g, other, y) == l { LbaOwn(g, n, ch[Idx(g, x)], Sec(g, x), other[Idx(g, y)], Sec(g, y)); }
  }

  lemma StoreOther(g: Geometry, n: nat, disk: seq<Block>, ch: seq<nat>, other: seq<nat>, x: nat, bytes: seq<byte>)
    requires Addressable(g, n) && Among(ch, n) && Among(other, n) && Apart(other, ch) && other != ch
    requires Uniform(disk, SECTOR_SIZE) && Idx(g, x) < |ch| && Off(g, x) + |bytes| <= SECTOR_SIZE
    ensures Content(g, Stored(disk, Spot(g, ch, x), Off(g, x), bytes), other) == Content(g, disk, other)
  {
    var disk' := Stored(disk, Spot(g, ch, x), Off(g, x), bytes);
    var was, now := Content(g, disk, other), Content(g, disk', other);
    forall y | 0 <= y < |now| ensures now[y] == was[y] { StoreByte(g, n, disk, ch, other, x, bytes, y); }
  }

  /** Growing a chain keeps the bytes it has. */
  lemma ContentExtends(g: Geometry, disk: seq<Block>, a: seq<nat>, b: seq<nat>)
    requires a <= b
    ensures Content(g, disk, a) <= Content(g, disk, b)
  {
    MulMono(|a|, |b|, Size(g));
    var x, y := Content(g, disk, a), Content(g, disk, b);
    forall i | 0 <= i < |x| ensures x[i] == y[i] { IdxIn(g, i, |a|); }
  }

  /** A byte is there exactly if its sector is on the device. */
  lemma ThereAt(g: Geometry, disk: seq<Block>, ch: seq<nat>, n: nat, x: nat)
    requires Uniform(disk, SECTOR_SIZE) && Among(ch, n) && x < |ch| * Size(g)
    ensures Idx(g, x) < |ch| && (Content(g, disk, ch)[x].Some? <==> Spot(g, ch, x) < |disk|)
  {
    IdxIn(g, x, |ch|);
    Parts(g, x);
  }

  lemma ThereAll(g: Geometry, disk: seq<Block>, ch: seq<nat>, n: nat, from: nat, to: nat)
    requires Uniform(disk, SECTOR_SIZE) && Among(ch, n) && to <= |ch| * Size(g)
    ensures OnDevice(g, ch, from, to, |disk|) <==> forall x :: from <= x < to ==> Content(g, disk, ch)[x].Some?
  {
    forall x: nat | from <= x < to
      ensures Idx(g, x) < |ch| && (Content(g, disk, ch)[x].Some? <==> Spot(g, ch, x) < |disk|)
    {
      ThereAt(g, disk, ch, n, x);
    }
  }

  lemma SliceFront<T>(all: seq<T>, size: nat, pos: nat, n: nat)
    requires pos + n <= size <= |all|
    ensures all[pos..pos + n] == all[..size][pos..pos + n]
  {
  }

  /** What fat16_write_file_v makes of a file: the bytes from pos on, and zeros from its end to pos, where they fit. */
  ghost function Written(all: seq<Option<byte>>, size: nat, pos: nat, buf: seq<byte>): seq<Option<byte>>
    requires size <= |all| && pos + |buf| <= |all|
  {
    Overlay(if pos > size then Overlay(all, size, Zeros(pos - size)) else all, pos, buf)[..NewSize(size, pos, buf)]
  }

  function NewSize(size: nat, pos: nat, buf: seq<byte>): nat { if pos + |buf| > size then pos + |buf| else size }

  ghost function Zeros(n: nat): (r: seq<byte>)
    ensures |r| == n && forall i :: 0 <= i < n ==> r[i] == 0
  {
    seq(n, _ => 0)
  }

  function Somes(bytes: seq<byte>): (r: seq<Option<byte>>)
    ensures |r| == |bytes| && forall i :: 0 <= i < |bytes| ==> r[i] == Some(bytes[i])
  {
    seq(|bytes|, i requires 0 <= i < |bytes| => Some(bytes[i]))
  }

  lemma SomesJoin(all: seq<Option<byte>>, pos: nat, a: seq<byte>, b: seq<byte>)
    requires pos + |a| + |b| <= |all| && all[pos..pos + |a|] == Somes(a)
    requires all[pos + |a|..pos + |a| + |b|] == Somes(b)
    ensures all[pos..pos + |a + b|] == Somes(a + b)
  {
    assert all[pos..pos + |a + b|] == all[pos..pos + |a|] + all[pos + |a|..pos + |a| + |b|];
  }

  /** The bytes written are there to be read exactly if each of them has a place. */
  lemma ReadsBack(all: seq<Option<byte>>, size: nat, pos: nat, buf: seq<byte>)
    requires size <= |all| && pos + |buf| <= |all|
    ensures pos + |buf| <= |Written(all, size, pos, buf)|
    ensures Written(all, size, pos, buf)[pos..pos + |buf|] == Somes(buf) <==>
            forall x :: pos <= x < pos + |buf| ==> all[x].Some?
  {
    var now := Written(all, size, pos, buf);
    forall x | pos <= x < pos + |buf| ensures now[x] == Kept(all[x], buf[x - pos]) {
      WrittenAt(all, size, pos, buf, x);
    }
    if forall x :: pos <= x < pos + |buf| ==> all[x].Some? {
      forall k | 0 <= k < |buf| ensures now[pos..pos + |buf|][k] == Somes(buf)[k] { assert now[pos + k].Some?; }
    } else {
      var x :| pos <= x < pos + |buf| && all[x].None?;
      assert now[pos..pos + |buf|][x - pos] == None;
    }
  }

  lemma WrittenAt(all: seq<Option<byte>>, size: nat, pos: nat, buf: seq<byte>, x: nat)
    requires size <= |all| && pos + |buf| <= |all| && pos <= x < pos + |buf|
    ensures x < |Written(all, size, pos, buf)| && Written(all, size, pos, buf)[x] == Kept(all[x], buf[x - pos])
  {
  }

  /** The same on a file all of whose bytes are there: its old bytes, a gap of zeros, and buf. */
  ghost function Rewritten(was: seq<byte>, pos: nat, buf: seq<byte>): seq<byte> {
    (if pos <= |was| then was[..pos] else was + Zeros(pos - |was|)) +
    buf + (if pos + |buf| < |was| then was[pos + |buf|..] else [])
  }

  lemma WrittenWhole(all: seq<Option<byte>>, size: nat, pos: nat, buf: seq<byte>, was: seq<byte>)
    requires size <= |all| && pos + |buf| <= |all| && all[..size] == Somes(was)
    requires forall x :: 0 <= x < |all| ==> all[x].Some?
    ensures Written(all, size, pos, buf) == Somes(Rewritten(was, pos, buf))
  {
    var l, r := Written(all, size, pos, buf), Somes(Rewritten(was, pos, buf));
    assert forall i :: 0 <= i < size ==> all[i] == all[..size][i];
    forall i | 0 <= i < |l| ensures l[i] == r[i] {}
  }

  // ------------------------------------------------- files

  /** The first `size` bytes of a chain. */
  ghost function Front(g: Geometry, disk: seq<Block>, ch: seq<nat>, size: nat): seq<Option<byte>> {
    if size <= |ch| * Size(g) then Content(g, disk, ch)[..size] else []
  }

  lemma FrontGrows(g: Geometry, disk: seq<Block>, a: seq<nat>, b: seq<nat>, size: nat)
    requires a <= b && size <= |a| * Size(g)
    ensures size <= |b| * Size(g) && Front(g, disk, a, size) == Front(g, disk, b, size)
  {
    ContentExtends(g, disk, a, b);
  }

  /** Every other file keeps its chain and all its bytes. */
  ghost predicate Others(g: Geometry, chains: map<nat, seq<nat>>, disk: seq<Block>, chains': map<nat, seq<nat>>,
                         disk': seq<Block>, id: nat) {
    forall a :: a in chains && a != id ==> Same(g, chains, disk, chains', disk', a)
  }

  ghost predicate Same(g: Geometry, chains: map<nat, seq<nat>>, disk: seq<Block>, chains': map<nat, seq<nat>>,
                       disk': seq<Block>, a: nat)
    requires a in chains
  {
    a in chains' && chains'[a] == chains[a] && Content(g, disk', chains[a]) == Content(g, disk, chains[a])
  }

  ghost function At(chains: map<nat, seq<nat>>, id: nat): seq<nat> { if id in chains then chains[id] else [] }

  /** The chains of all other files are as they were; this one's has grown by clusters that were free. */
  ghost predicate Extends(fat: Fat, chains: map<nat, seq<nat>>, chains': map<nat, seq<nat>>, id: nat) {
    && At(chains, id) <= At(chains', id)
    && (forall i :: |At(chains, id)| <= i < |At(chains', id)| ==> FreeIn(fat, At(chains', id)[i]))
    && forall a :: a in chains && a != id ==> a in chains' && chains'[a] == chains[a]
  }

  ghost predicate FreeIn(fat: Fat, c: nat) { c < |fat| && fat[c] == 0 }

  /** Exactly the clusters of ch are free no more. */
  ghost predicate Taken(fat: Fat, fat': Fat, ch: seq<nat>) {
    (|fat'| == |fat| && forall k :: 0 <= k < |fat| ==> (fat'[k] == 0 <==> fat[k] == 0 && k !in ch)) == true
  }

  lemma TakenFirst(fat: Fat, c: nat, v: nat)
    requires c < |fat| && v > 0
    ensures Taken(fat, fat[c := v], [c])
  {
  }

  lemma TakenBehind(fat: Fat, c: nat, v: nat, last: nat)
    requires 0 < c < |fat| && v > 0 && last < |fat| && fat[last] != 0
    ensures Taken(fat, fat[c := v][last := c], [c])
  {
  }

  lemma Grown(fat: Fat, chains: map<nat, seq<nat>>, eoc: nat, id: nat, c: nat, v: nat)
    requires Chains(fat, chains, eoc) && 2 <= c < |fat| && fat[c] == 0 && v >= eoc > 0 && id in chains
    ensures
      var ch := chains[id];
      var fat' := fat[c := v][ch[|ch| - 1] := c];
      Chains(fat', chains[id := ch + [c]], eoc) && Taken(fat, fat', [c])
  {
    var ch := chains[id];
    UsedEntry(fat, ch, eoc, |ch| - 1);
    TakenBehind(fat, c, v, ch[|ch| - 1]);
    GrowChain(fat, chains, eoc, id, c, v);
  }

  lemma TakenMore(fat: Fat, f1: Fat, f2: Fat, ch: seq<nat>, c: nat)
    requires Taken(fat, f1, ch) && Taken(f1, f2, [c])
    ensures Taken(fat, f2, ch + [c])
  {
  }

  /** A chain's own clusters are not free to begin with. */
  lemma OwnTaken(fat: Fat, chains: map<nat, seq<nat>>, eoc: nat, id: nat)
    requires Chains(fat, chains, eoc) && eoc > 0
    ensures Taken(fat, fat, At(chains, id))
  {
    forall k | k in At(chains, id) ensures k < |fat| && fat[k] != 0 {
      var i :| 0 <= i < |chains[id]| && chains[id][i] == k;
      UsedEntry(fat, chains[id], eoc, i);
    }
  }

  lemma ExtendsOne(fat: Fat, c0: map<nat, seq<nat>>, c1: map<nat, seq<nat>>, id: nat, c: nat)
    requires Extends(fat, c0, c1, id) && FreeIn(fat, c)
    ensures Extends(fat, c0, c1[id := At(c1, id) + [c]], id)
  {
    assert At(c1, id) <= At(c1, id) + [c];
  }

  /** Every chain but this one has the bytes it had. */
  ghost predicate Elsewhere(g: Geometry, n: nat, disk: seq<Block>, disk': seq<Block>, ch: seq<nat>) {
    |disk'| == |disk| && forall other :: Stays(g, n, disk, disk', ch, other)
  }

  ghost predicate Stays(g: Geometry, n: nat, disk: seq<Block>, disk': seq<Block>, ch: seq<nat>, other: seq<nat>) {
    Among(other, n) && Apart(other, ch) && other != ch ==> Content(g, disk', other) == Content(g, disk, other)
  }

  lemma ElsewhereMore(g: Geometry, n: nat, d0: seq<Block>, d1: seq<Block>, d2: seq<Block>, ch: seq<nat>)
    requires Elsewhere(g, n, d0, d1, ch) && Elsewhere(g, n, d1, d2, ch)
    ensures Elsewhere(g, n, d0, d2, ch)
  {
    forall other ensures Stays(g, n, d0, d2, ch, other) {
      assert Stays(g, n, d0, d1, ch, other) && Stays(g, n, d1, d2, ch, other);
    }
  }

  lemma ElsewhereStore(g: Geometry, n: nat, disk: seq<Block>, ch: seq<nat>, x: nat, bytes: seq<byte>)
    requires Addressable(g, n) && Among(ch, n) && Uniform(disk, SECTOR_SIZE)
    requires Idx(g, x) < |ch| && Off(g, x) + |bytes| <= SECTOR_SIZE
    ensures Elsewhere(g, n, disk, Stored(disk, Spot(g, ch, x), Off(g, x), bytes), ch)
  {
    var disk' := Stored(disk, Spot(g, ch, x), Off(g, x), bytes);
    forall other ensures Stays(g, n, disk, disk', ch, other) {
      if Among(other, n) && Apart(other, ch) && other != ch { StoreOther(g, n, disk, ch, other, x, bytes); }
    }
  }

  lemma OthersStay(g: Geometry, fat: Fat, eoc: nat, chains: map<nat, seq<nat>>, disk: seq<Block>,
                   chains': map<nat, seq<nat>>, disk': seq<Block>, id: nat)
    requires Chains(fat, chains', eoc) && id in chains' && Elsewhere(g, |fat|, disk, disk', chains'[id])
    requires forall a :: a in chains && a != id ==> a in chains' && chains'[a] == chains[a]
    ensures Others(g, chains, disk, chains', disk', id)
  {
    forall a | a in chains && a != id ensures Same(g, chains, disk, chains', disk', a) {
      assert Apart(chains'[a], chains'[id]) && Linked(fat, chains'[a], eoc);
      assert chains'[a][0] != chains'[id][0];
      assert Stays(g, |fat|, disk, disk', chains'[id], chains'[a]);
    }
  }

  /** What a file of chain ch, now ch', has come to hold; `was` is the device before. */
  ghost predicate Holds(g: Geometry, was: seq<Block>, disk: seq<Block>, ch: seq<nat>, ch': seq<nat>, size: nat,
                        pos: nat, buf: seq<byte>) {
    ( && size <= |ch'| * Size(g) && pos + |buf| <= |ch'| * Size(g)
      && Content(g, was, ch) <= Content(g, was, ch')
      && Front(g, disk, ch', NewSize(size, pos, buf)) == Written(Content(g, was, ch'), size, pos, buf)) == true
  }

  /** Of whole bytes: the file holds its old ones, zeros up to pos if it was shorter, and buf. */
  ghost predicate HoldsWhole(g: Geometry, was: seq<Block>, disk: seq<Block>, ch: seq<nat>, ch': seq<nat>, size: nat,
                             pos: nat, buf: seq<byte>) {
    (forall bytes :: Front(g, was, ch, size) == Somes(bytes) ==>
       Front(g, disk, ch', NewSize(size, pos, buf)) == Somes(Rewritten(bytes, pos, buf))) == true
  }

  /** Each of the n entries of the table has a cluster on the device. */
  ghost predicate Fitting(g: Geometry, n: nat, sectors: nat) { g.start + (n - 2) * g.per <= sectors }

  /**
   * What a write comes to: the file's bytes; that buf can be read back exactly if the sectors it went to are on the
   * device; and the whole file where the table has no spare entries.
   */
  ghost predicate Wrote(g: Geometry, n: nat, was: seq<Block>, disk: seq<Block>, ch: seq<nat>, ch': seq<nat>, size: nat,
                        pos: nat, buf: seq<byte>) {
    ( && Holds(g, was, disk, ch, ch', size, pos, buf)
      && pos + |buf| <= |Content(g, disk, ch')|
      && (Content(g, disk, ch')[pos..pos + |buf|] == Somes(buf) <==> OnDevice(g, ch', pos, pos + |buf|, |disk|))
      && (Fitting(g, n, |disk|) ==> HoldsWhole(g, was, disk, ch, ch', size, pos, buf))) == true
  }

  /** The bytes just written can be read back exactly if the sectors they went to are on the device. */
  lemma ReadBackExactly(g: Geometry, n: nat, was: seq<Block>, disk: seq<Block>, ch: seq<nat>, ch': seq<nat>, size: nat,
                        pos: nat, buf: seq<byte>)
    requires Uniform(was, SECTOR_SIZE) && Among(ch', n) && Holds(g, was, disk, ch, ch', size, pos, buf)
    ensures pos + |buf| <= |Content(g, disk, ch')|
    ensures Content(g, disk, ch')[pos..pos + |buf|] == Somes(buf) <==> OnDevice(g, ch', pos, pos + |buf|, |was|)
  {
    var all := Content(g, was, ch');
    ThereAll(g, was, ch', n, pos, pos + |buf|);
    ReadsBack(all, size, pos, buf);
    SliceFront(Content(g, disk, ch'), NewSize(size, pos, buf), pos, |buf|);
  }

  /** On a volume whose table has no spare entries every byte of every file is there. */
  lemma FitsWhole(g: Geometry, n: nat, was: seq<Block>, disk: seq<Block>, ch: seq<nat>, ch': seq<nat>, size: nat,
                  pos: nat, buf: seq<byte>)
    requires Uniform(was, SECTOR_SIZE) && Fitting(g, n, |was|) && Addressable(g, n) && Among(ch', n)
    requires Holds(g, was, disk, ch, ch', size, pos, buf) && size <= |ch| * Size(g)
    ensures HoldsWhole(g, was, disk, ch, ch', size, pos, buf)
  {
    var all := Content(g, was, ch');
    AllThere(g, n, was, ch');
    assert all[..size] == Front(g, was, ch, size);
    forall bytes | Front(g, was, ch, size) == Somes(bytes)
      ensures Front(g, disk, ch', NewSize(size, pos, buf)) == Somes(Rewritten(bytes, pos, buf))
    {
      WrittenWhole(all, size, pos, buf, bytes);
    }
  }

  lemma AllThere(g: Geometry, n: nat, disk: seq<Block>, ch: seq<nat>)
    requires Uniform(disk, SECTOR_SIZE) && Fitting(g, n, |disk|) && Addressable(g, n) && Among(ch, n)
    ensures var all := Content(g, disk, ch); forall x :: 0 <= x < |all| ==> all[x].Some?
  {
    var all := Content(g, disk, ch);
    forall x | 0 <= x < |all| ensures all[x].Some? {
      ThereAt(g, disk, ch, n, x);
      Parts(g, x);
      LbaIs(g, n, ch[Idx(g, x)], Sec(g, x));
    }
  }

  lemma WroteAll(g: Geometry, n: nat, was: seq<Block>, disk: seq<Block>, ch: seq<nat>, ch': seq<nat>, size: nat,
                 pos: nat, buf: seq<byte>)
    requires Uniform(was, SECTOR_SIZE) && |disk| == |was| && Addressable(g, n) && Among(ch', n) && ch <= ch'
    requires size <= |ch| * Size(g) && size <= |ch'| * Size(g) && pos + |buf| <= |ch'| * Size(g)
    requires Front(g, disk, ch', NewSize(size, pos, buf)) == Written(Content(g, was, ch'), size, pos, buf)
    ensures Wrote(g, n, was, disk, ch, ch', size, pos, buf)
  {
    ContentExtends(g, was, ch, ch');
    ReadBackExactly(g, n, was, disk, ch, ch', size, pos, buf);
    if Fitting(g, n, |disk|) { FitsWhole(g, n, was, disk, ch, ch', size, pos, buf); }
  }

  /** `need` clusters, and no fewer, have room for `end` bytes. */
  ghost predicate Needs(g: Geometry, end: nat, need: nat) { (need - 1) * Size(g) < end <= need * Size(g) }

  lemma Short(g: Geometry, end: nat, need: nat, n: nat)
    requires Needs(g, end, need) && n < need
    ensures n * Size(g) < end
  {
    MulMono(n, need - 1, Size(g));
  }

  lemma Enough(g: Geometry, end: nat, need: nat, n: nat)
    requires Needs(g, end, need) && need <= n
    ensures end <= n * Size(g)
  {
    MulMono(need, n, Size(g));
  }

  // ------------------------------------------------- freeing

  /** Entries of a chain cleared up to index n. */
  ghost predicate ClearedTo(fat: Fat, fat': Fat, ch: seq<nat>, n: nat) {
    && |fat'| == |fat| && n <= |ch|
    && (forall i :: 0 <= i < n && ch[i] < |fat| ==> fat'[ch[i]] == 0)
    && (forall c :: 0 <= c < |fat| && (forall i :: 0 <= i < n ==> ch[i] != c) ==> fat'[c] == fat[c])
  }

  lemma ClearMore(fat: Fat, fat': Fat, ch: seq<nat>, n: nat)
    requires ClearedTo(fat, fat', ch, n) && n < |ch| && ch[n] < |fat|
    ensures ClearedTo(fat, fat'[ch[n] := 0], ch, n + 1)
  {
  }

  lemma FreedChains(fat: Fat, fat': Fat, chains: map<nat, seq<nat>>, eoc: nat, id: nat)
    requires Chains(fat, chains, eoc) && id in chains && ClearedTo(fat, fat', chains[id], |chains[id]|)
    ensures Chains(fat', chains - {id}, eoc)
  {
    forall a | a in chains && a != id ensures Linked(fat', chains[a], eoc) {
      assert Apart(chains[a], chains[id]);
      assert forall i :: 0 <= i < |chains[a]| ==> fat'[chains[a][i]] == fat[chains[a][i]];
    }
  }

  /** The forward-walk cursor of cluster_at_offset. */
  datatype Cursor = Cursor(first: nat, index: nat, cluster: nat)

  class Volume {
    const eoc: nat
    const marker: nat
    const g: Geometry
    /** The table, as many entries as its sectors hold, and the device, as many sectors as it has. */
    var fat: Fat
    var hint: nat
    var disk: seq<Block>
    ghost var chains: map<nat, seq<nat>>
    /** How many reads of sectors the device has, it has reported as failed. */
    ghost var failures: nat

    ghost predicate Valid()
      reads this
    {
      && 0 < eoc <= marker && |fat| <= eoc && Addressable(g, |fat|) && Uniform(disk, SECTOR_SIZE)
      && Chains(fat, chains, eoc) == true
    }

    constructor (eoc: nat, marker: nat, g: Geometry, fat: Fat, disk: seq<Block>, ghost chains: map<nat, seq<nat>>)
      requires 0 < eoc <= marker && |fat| <= eoc && Addressable(g, |fat|) && Uniform(disk, SECTOR_SIZE)
      requires Chains(fat, chains, eoc)
      ensures Valid() && this.g == g && this.fat == fat && this.disk == disk && this.chains == chains && failures == 0
    {
      this.eoc, this.marker, this.g := eoc, marker, g;
      this.fat, hint, this.disk, this.chains, failures := fat, 2, disk, chains, 0;
    }

    ghost predicate Owns(id: nat, first: nat)
      reads this
    {
      id in chains && chains[id] != [] && chains[id][0] == first
    }

    // ----------------------------------------------- the table

    /** fat_rd of a sector that is there. */
    method Answers() returns (ok: bool)
      modifies this`failures
      ensures failures == old(failures) + if ok then 0 else 1
    {
      ok := *;
      if !ok { failures := failures + 1; }
    }

    /** The first free entry of [from, to), or 0; `err` is a sector of the table that could not be read. */
    method ScanFree(from: nat, to: nat) returns (c: nat, err: bool)
      requires 2 <= from && to <= |fat|
      modifies this`failures
      ensures failures >= old(failures) && (err <==> failures > old(failures))
      ensures c > 0 ==> !err && from <= c < to && fat[c] == 0 && forall k :: from <= k < c ==> fat[k] != 0
      ensures c == 0 && !err ==> forall k :: from <= k < to ==> fat[k] != 0
    {
      c := from;
      while c < to
        invariant from <= c && (forall k :: from <= k < c && k < to ==> fat[k] != 0) && failures == old(failures)
      {
        var ok := Answers();
        if !ok { return 0, true; }
        if fat[c] == 0 { return c, false; }
        c := c + 1;
      }
      c, err := 0, false;
    }

    /** Where the search for a free cluster starts. */
    function From(): nat
      reads this
    {
      if 2 <= hint < |fat| then hint else 2
    }

    /**
     * fat16_alloc_cluster: the first free entry from the hint on, or else the first one, marked as the end of a chain;
     * 0 only when none is free or the table cannot be read.  All entries of the table are looked at, with or without
     * a cluster on the device.
     */
    method AllocCluster() returns (c: nat)
      modifies this`fat, this`hint, this`failures
      ensures failures >= old(failures) && hint == if c > 0 then c + 1 else old(hint)
      ensures c > 0 ==> 2 <= c < |old(fat)| && old(fat)[c] == 0 && fat == old(fat)[c := marker]
      ensures 0 < c < old(From()) ==> forall k :: old(From()) <= k < |fat| ==> old(fat)[k] != 0
      ensures c > 0 ==> forall k :: (if c < old(From()) then 2 else old(From())) <= k < c ==> old(fat)[k] != 0
      ensures c == 0 ==> fat == old(fat) && (failures > old(failures) || Full())
    {
      if |fat| <= 2 { return 0; }
      var h := if hint < 2 then 2 else hint;
      if h >= |fat| { h := 2; }
      var err;
      c, err := ScanFree(h, |fat|);
      if c == 0 && !err { c, err := ScanFree(2, h); }
      if c > 0 {
        fat := fat[c := marker];
        hint := c + 1;
      }
    }

    /** No entry of the table is free. */
    ghost predicate Full()
      reads this
    {
      forall k :: 2 <= k < |fat| ==> fat[k] != 0
    }

    /** fat16_free_chain: exactly this chain's clusters become free. */
    method FreeChain(id: nat, first: nat)
      requires Valid() && Owns(id, first)
      modifies this`fat, this`hint, this`chains
      ensures Valid() && chains == old(chains) - {id} && ClearedTo(old(fat), fat, old(chains)[id], |old(chains)[id]|)
      ensures hint == if first < old(hint) then first else old(hint)
    {
      ghost var ch := chains[id];
      var c := first;
      ghost var n := 0;
      while 2 <= c < eoc
        invariant n <= |ch| && ClearedTo(old(fat), fat, ch, n) && chains == old(chains) && hint == old(hint)
        invariant c == if n < |ch| then ch[n] else old(fat)[ch[|ch| - 1]]
        decreases |ch| - n
      {
        ClearMore(old(fat), fat, ch, n);
        assert fat[c] == old(fat)[c];
        var next := fat[c];
        fat := fat[c := 0];
        c, n := next, n + 1;
      }
      FreedChains(old(fat), fat, chains, eoc, id);
      chains := chains - {id};
      if 2 <= first < hint { hint := first; }
    }

    // ----------------------------------------------- walking

    /** Cursor w, if it is of this chain, points into it. */
    ghost predicate Points(w: Cursor, ch: seq<nat>) {
      ch != [] && (w.first == ch[0] ==> w.index < |ch| && w.cluster == ch[w.index])
    }

    /** cluster_at_offset for cluster index q, which the chain is long enough for. */
    method ClusterAt(first: nat, q: nat, w: Cursor, ghost ch: seq<nat>) returns (c: nat, w': Cursor)
      requires Linked(fat, ch, eoc) && |fat| <= eoc && ch[0] == first && q < |ch| && Points(w, ch)
      ensures c == ch[q] && Points(w', ch)
    {
      c := first;
      var i := 0;
      if w.first == first && first >= 2 && w.index <= q { c, i := w.cluster, w.index; }
      while i < q
        invariant i <= q && c == ch[i]
      {
        assert fat[ch[i]] == ch[i + 1] && 2 <= ch[i + 1] < eoc;
        c := fat[c];
        i := i + 1;
      }
      w' := Cursor(first, q, c);
    }

    /** Where byte x of a chain lies: byte o of sector s of cluster q; n bytes go there. */
    method Place(x: nat, left: nat) returns (q: nat, s: nat, o: nat, n: nat)
      requires left > 0
      ensures q == Idx(g, x) && s == Sec(g, x) && o == Off(g, x) && o + n <= SECTOR_SIZE && 0 < n <= left
    {
      var at := x % Size(g);
      q, s, o := x / Size(g), at / SECTOR_SIZE, at % SECTOR_SIZE;
      n := SECTOR_SIZE - o;
      if n > left { n := left; }
    }

    /** A sector read, changed in part and written back; past the end of the device both fail, and nobody looks. */
    method WriteSector(l: nat, o: nat, bytes: seq<byte>)
      requires Uniform(disk, SECTOR_SIZE) && o + |bytes| <= SECTOR_SIZE
      modifies this`disk
      ensures disk == Stored(old(disk), l, o, bytes)
    {
      if l < |disk| {
        var sector := Patch(disk[l], o, bytes);
        disk := disk[l := sector];
      }
    }

    /** One sector's worth of write_range. */
    method WriteTurn(first: nat, x: nat, bytes: seq<byte>, w: Cursor, ghost ch: seq<nat>) returns (n: nat, w': Cursor)
      requires Valid() && Linked(fat, ch, eoc) && ch[0] == first && Points(w, ch) && bytes != []
      requires x + |bytes| <= |ch| * Size(g)
      modifies this`disk
      ensures Valid() && Elsewhere(g, |fat|, old(disk), disk, ch) && Points(w', ch) && 0 < n <= |bytes|
      ensures Content(g, disk, ch) == Overlay(Content(g, old(disk), ch), x, bytes[..n])
    {
      var q, s, o;
      q, s, o, n := Place(x, |bytes|);
      IdxIn(g, x, |ch|);
      var c;
      c, w' := ClusterAt(first, q, w, ch);
      StoreContent(g, |fat|, disk, ch, x, bytes[..n]);
      ElsewhereStore(g, |fat|, disk, ch, x, bytes[..n]);
      WriteSector(Lba(g, c, s), o, bytes[..n]);
    }

    /** write_range: exactly these bytes of the chain's content change. */
    method WriteRange(first: nat, pos: nat, bytes: seq<byte>, ghost ch: seq<nat>)
      requires Valid() && Linked(fat, ch, eoc) && ch[0] == first && pos + |bytes| <= |ch| * Size(g)
      modifies this`disk
      ensures Valid() && Elsewhere(g, |fat|, old(disk), disk, ch)
      ensures Content(g, disk, ch) == Overlay(Content(g, old(disk), ch), pos, bytes)
    {
      var done, w := 0, Cursor(0, 0, 0);
      ghost var was := Content(g, disk, ch);
      assert Overlay(was, pos, bytes[..0]) == was;
      assert Elsewhere(g, |fat|, old(disk), disk, ch) by { assert forall o :: Stays(g, |fat|, disk, disk, ch, o); }
      while done < |bytes|
        invariant done <= |bytes| && Valid() && Elsewhere(g, |fat|, old(disk), disk, ch) && Points(w, ch)
        invariant Content(g, disk, ch) == Overlay(was, pos, bytes[..done])
      {
        ghost var now, before := Content(g, disk, ch), disk;
        var n;
        n, w := WriteTurn(first, pos + done, bytes[done..], w, ch);
        OverlayStep(was, now, Content(g, disk, ch), pos, bytes, done, n);
        ElsewhereMore(g, |fat|, old(disk), before, disk, ch);
        done := done + n;
      }
      assert bytes[..done] == bytes;
    }

    /** One sector's worth of fat16_read_at_v. */
    method ReadTurn(first: nat, x: nat, left: nat, w: Cursor, ghost ch: seq<nat>) returns (out: seq<byte>, w': Cursor)
      requires Valid() && Linked(fat, ch, eoc) && ch[0] == first && Points(w, ch) && left > 0
      requires x + left <= |ch| * Size(g)
      modifies this`failures
      ensures Points(w', ch) && |out| <= left && Content(g, disk, ch)[x..x + |out|] == Somes(out)
      ensures failures >= old(failures)
      ensures out == [] <==> failures > old(failures) || Content(g, disk, ch)[x].None?
    {
      var q, s, o, n := Place(x, left);
      IdxIn(g, x, |ch|);
      var c;
      c, w' := ClusterAt(first, q, w, ch);
      var l := Lba(g, c, s);
      if l >= |disk| { return [], w'; }
      var ok := Answers();
      if !ok { return [], w'; }
      out := disk[l][o..o + n];
      forall k | 0 <= k < n ensures Content(g, disk, ch)[x + k] == Some(out[k]) {
        Parts(g, x);
        PartsOf(g, x + k, q, s, o + k);
      }
    }

    /** fat16_read_at_v: the bytes from pos on, all of them or up to the first that is not there. */
    method ReadAt(first: nat, pos: nat, len: nat, ghost ch: seq<nat>) returns (out: seq<byte>)
      requires Valid() && Linked(fat, ch, eoc) && ch[0] == first && pos + len <= |ch| * Size(g)
      modifies this`failures
      ensures |out| <= len && Content(g, disk, ch)[pos..pos + |out|] == Somes(out)
      ensures failures >= old(failures)
      ensures |out| < len ==> failures > old(failures) || Content(g, disk, ch)[pos + |out|].None?
    {
      var w;
      out, w := [], Cursor(0, 0, 0);
      while |out| < len
        invariant |out| <= len && Points(w, ch) && Content(g, disk, ch)[pos..pos + |out|] == Somes(out)
        invariant failures == old(failures)
        decreases len - |out|
      {
        var some;
        some, w := ReadTurn(first, pos + |out|, len - |out|, w, ch);
        if some == [] { return; }
        SomesJoin(Content(g, disk, ch), pos, out, some);
        out := out + some;
      }
    }

    // ----------------------------------------------- growing

    method ChainEnd(first: nat, ghost ch: seq<nat>) returns (last: nat, n: nat)
      requires Linked(fat, ch, eoc) && |fat| <= eoc && ch[0] == first
      ensures last == ch[|ch| - 1] && n == |ch|
    {
      last, n := first, 1;
      while fat[last] < eoc
        invariant 1 <= n <= |ch| && last == ch[n - 1] && (n < |ch| ==> fat[last] == ch[n])
        decreases |ch| - n
      {
        last, n := fat[last], n + 1;
        assert n < |ch| ==> fat[ch[n - 1]] == ch[n - 1 + 1];
      }
    }

    /** One more cluster for file id, behind `last` or as its first. */
    method AddCluster(id: nat, last: nat) returns (c: nat)
      requires Valid() && (last != 0 <==> id in chains) &&
        (last != 0 ==> chains[id] != [] && last == chains[id][|chains[id]| - 1])
      modifies this`fat, this`hint, this`chains, this`failures
      ensures Valid() && failures >= old(failures)
      ensures c == 0 ==> fat == old(fat) && chains == old(chains) && (failures > old(failures) || Full())
      ensures c > 0 ==> FreeIn(old(fat), c) && chains == old(chains)[id := At(old(chains), id) + [c]]
      ensures c > 0 ==> Taken(old(fat), fat, [c])
    {
      c := AllocCluster();
      if c == 0 { return; }
      if last == 0 { Start(id, c, old(fat)); } else { Append(id, last, c, old(fat)); }
    }

    /** A new cluster is the file's first. */
    ghost method Start(id: nat, c: nat, was: Fat)
      requires Fresh(c, was) && id !in chains
      modifies this`chains
      ensures Valid() && chains == old(chains)[id := At(old(chains), id) + [c]] && Taken(was, fat, [c])
    {
      StartChain(was, chains, eoc, id, c, marker);
      TakenFirst(was, c, marker);
      assert [] + [c] == [c];
      chains := chains[id := [] + [c]];
    }

    /** A new cluster follows the file's last. */
    method Append(id: nat, last: nat, c: nat, ghost was: Fat)
      requires Fresh(c, was) && id in chains && chains[id] != [] && last == chains[id][|chains[id]| - 1]
      modifies this`fat, this`chains
      ensures Valid() && chains == old(chains)[id := At(old(chains), id) + [c]] && Taken(was, fat, [c])
    {
      Grown(was, chains, eoc, id, c, marker);
      fat := fat[last := c];
      chains := chains[id := chains[id] + [c]];
    }

    /** The cluster has been taken and is in no chain yet. */
    ghost predicate Fresh(c: nat, was: Fat)
      reads this
    {
      && 0 < eoc <= marker && |was| <= eoc && Addressable(g, |was|) && Uniform(disk, SECTOR_SIZE)
      && Chains(was, chains, eoc) && 2 <= c < |was| && was[c] == 0 && fat == was[c := marker]
    }

    /** The extension loop of fat16_write_file_v; it fails only when the table has no free entry or cannot be read. */
    method Extend(id: nat, first: nat, need: nat) returns (ok: bool, first': nat)
      requires Valid() && (if first != 0 then Owns(id, first) else id !in chains)
      modifies this`fat, this`hint, this`chains, this`failures
      ensures failures >= old(failures)
      ensures Valid() && Taken(old(fat), fat, At(chains, id)) && Extends(old(fat), old(chains), chains, id)
      ensures ok ==> |At(chains, id)| >= need && (need > 0 || first != 0 ==> Owns(id, first'))
      ensures !ok ==> |At(chains, id)| < need && (failures > old(failures) || Full())
    {
      first' := first;
      var last, n := 0, 0;
      if first != 0 { last, n := ChainEnd(first, chains[id]); }
      OwnTaken(fat, chains, eoc, id);
      while n < need
        invariant Valid() && Extends(old(fat), old(chains), chains, id) && failures >= old(failures)
        invariant n == |At(chains, id)| && (last != 0 <==> id in chains)
        invariant Taken(old(fat), fat, At(chains, id))
        invariant last != 0 ==> Owns(id, first') && last == chains[id][|chains[id]| - 1]
        invariant first' == 0 <==> last == 0
        invariant first != 0 ==> first' == first
      {
        ghost var was, table := chains, fat;
        var c := AddCluster(id, last);
        if c == 0 { return false, first'; }
        ExtendsOne(old(fat), old(chains), was, id, c);
        TakenMore(old(fat), table, fat, At(was, id), c);
        if first' == 0 { first' := c; }
        last, n := c, n + 1;
      }
      ok := true;
    }

    /** The number of clusters that bytes up to `end` take. */
    method Needed(end: nat) returns (need: nat)
      requires end > 0
      ensures need > 0 && Needs(g, end, need)
    {
      need := (end + Size(g) - 1) / Size(g);
      DivSplit(end + Size(g) - 1, Size(g));
      assert (need - 1) * Size(g) == need * Size(g) - Size(g);
    }

    /** The gap fill and the write itself, into a chain that is long enough. */
    method Fill(first: nat, size: nat, pos: nat, buf: seq<byte>, ghost ch: seq<nat>)
      requires Valid() && Linked(fat, ch, eoc) && ch[0] == first
      requires pos + |buf| <= |ch| * Size(g) && size <= |ch| * Size(g)
      modifies this`disk
      ensures Valid() && Elsewhere(g, |fat|, old(disk), disk, ch)
      ensures Front(g, disk, ch, NewSize(size, pos, buf)) == Written(Content(g, old(disk), ch), size, pos, buf)
    {
      if pos > size {
        assert seq(pos - size, _ => 0) == Zeros(pos - size);
        WriteRange(first, size, seq(pos - size, _ => 0), ch);
      }
      ghost var before := disk;
      WriteRange(first, pos, buf, ch);
      if pos > size { ElsewhereMore(g, |fat|, old(disk), before, disk, ch); }
    }

    /**
     * fat16_write_file_v.  The file then holds its old bytes, zeros up to pos if it was shorter, and buf, as far as its
     * clusters are on the device; no other file changes.  It fails only when the table has no free entry or cannot be
     * read, and then no byte of any file has changed.
     */
    method WriteFile(id: nat, first: nat, size: nat, pos: nat, buf: seq<byte>)
      returns (ok: bool, first': nat, size': nat)
      requires Valid() && pos + |buf| + Size(g) < U32
      requires if first != 0 then Owns(id, first) && size <= |chains[id]| * Size(g) else id !in chains && size == 0
      modifies this`fat, this`hint, this`chains, this`disk, this`failures
      ensures failures >= old(failures) && Valid() && Taken(old(fat), fat, At(chains, id)) && |disk| == |old(disk)|
      ensures Others(g, old(chains), old(disk), chains, disk, id)
      ensures Extends(old(fat), old(chains), chains, id)
      ensures ok && buf == [] ==> first' == first && size' == size && disk == old(disk) && chains == old(chains)
      ensures ok && buf != [] ==> Owns(id, first') && size' == NewSize(size, pos, buf)
      ensures ok && buf != [] ==>
        Wrote(g, |fat|, old(disk), disk, At(old(chains), id), At(chains, id), size, pos, buf)
      ensures !ok ==> |At(chains, id)| * Size(g) < pos + |buf| && (failures > old(failures) || Full())
      ensures !ok ==>
        disk == old(disk) && Front(g, disk, At(chains, id), size) == Front(g, disk, At(old(chains), id), size)
    {
      OwnTaken(fat, chains, eoc, id);
      if buf == [] { return true, first, size; }
      size' := NewSize(size, pos, buf);
      var need := Needed(pos + |buf|);
      ok, first' := Extend(id, first, need);
      FrontGrows(g, disk, At(old(chains), id), At(chains, id), size);
      if !ok {
        Short(g, pos + |buf|, need, |At(chains, id)|);
        return;
      }
      Enough(g, pos + |buf|, need, |At(chains, id)|);
      FillFile(id, first', size, pos, buf, old(fat), old(chains));
    }

    /** The file's chain is long enough now. */
    method FillFile(id: nat, first: nat, size: nat, pos: nat, buf: seq<byte>, ghost table: Fat,
                    ghost was: map<nat, seq<nat>>)
      requires Valid() && Owns(id, first) && Extends(table, was, chains, id) && size <= |At(was, id)| * Size(g)
      requires pos + |buf| <= |chains[id]| * Size(g) && size <= |chains[id]| * Size(g)
      modifies this`disk
      ensures Valid() && |disk| == |old(disk)| && Others(g, was, old(disk), chains, disk, id)
      ensures Wrote(g, |fat|, old(disk), disk, At(was, id), chains[id], size, pos, buf)
    {
      Fill(first, size, pos, buf, chains[id]);
      OthersStay(g, fat, eoc, was, old(disk), chains, disk, id);
      WroteAll(g, |fat|, old(disk), disk, At(was, id), chains[id], size, pos, buf);
    }
  }

  // ------------------------------------------------- a table with spare entries

  /** A table of 16 sectors for 4085 clusters, all of them taken: its last 9 entries are free and have no cluster. */
  function SpareTable(): Fat { seq(4096, c requires 0 <= c => if c < 4087 then 0xFFFF else 0) }

  /** A chain of entries free in that table has no byte on a device that ends behind the clusters. */
  lemma SpareAway(g: Geometry, disk: seq<Block>, ch: seq<nat>)
    requires g == Layout(1, 1) && |disk| == 4086 && Uniform(disk, SECTOR_SIZE) && ch != [] && Among(ch, 4096)
    requires FreeIn(SpareTable(), ch[0])
    ensures Content(g, disk, ch)[0].None?
  {
    LbaIs(g, 4096, ch[0], 0);
    ThereAt(g, disk, ch, 4096, 0);
  }

  method SpareVolume() returns (v: Volume)
    ensures fresh(v) && v.Valid() && v.g == Layout(1, 1) && v.fat == SpareTable() && |v.disk| == 4086
    ensures v.chains == map[] && v.failures == 0
  {
    v := new Volume(0xFFF8, 0xFFFF, Layout(1, 1), SpareTable(), seq(4086, _ => seq(SECTOR_SIZE, _ => 0)), map[]);
  }

  /** A byte is written with success, and cannot be read, although every read was answered. */
  method SpareEntry() returns (v: Volume, ok: bool, size: nat, out: seq<byte>)
    ensures v.failures == 0 ==> ok && size == 1 && out == []
  {
    v := SpareVolume();
    assert SpareTable()[4095] == 0;
    var first;
    ok, first, size := v.WriteFile(0, 0, 0, 0, [7]);
    if !ok { return v, ok, size, []; }
    SpareAway(v.g, v.disk, v.chains[0]);
    out := v.ReadAt(first, 0, 1, v.chains[0]);
  }
}
