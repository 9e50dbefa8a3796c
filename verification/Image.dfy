/** Equal blocks of bytes - sectors, clusters - seen as one run of bytes, and changes to a part of it. */
module Image {
  import opened Bytes

  type Block = seq<byte>

  predicate Uniform(disk: seq<Block>, ss: nat) {
    ss > 0 && forall i :: 0 <= i < |disk| ==> |disk[i]| == ss
  }

  /** Blocks side by side as one run of bytes. */
  function Join(sectors: seq<Block>): (r: seq<byte>) {
    if sectors == [] then [] else sectors[0] + Join(sectors[1..])
  }

  lemma {:induction false} JoinSize(sectors: seq<Block>, ss: nat)
    requires Uniform(sectors, ss)
    ensures |Join(sectors)| == |sectors| * ss
  {
    if sectors != [] {
      JoinSize(sectors[1..], ss);
      assert |sectors| * ss == |sectors[1..]| * ss + ss;
    }
  }

  lemma {:induction false} JoinConcat(a: seq<Block>, b: seq<Block>)
    ensures Join(a + b) == Join(a) + Join(b)
  {
    if a == [] {
      assert a + b == b;
    } else {
      assert (a + b)[1..] == a[1..] + b;
      JoinConcat(a[1..], b);
    }
  }

  /** A buffer cut into blocks. */
  function Chunks(bytes: seq<byte>, ss: nat): (r: seq<Block>)
    requires ss > 0
  {
    if |bytes| < ss then [] else [bytes[..ss]] + Chunks(bytes[ss..], ss)
  }

  lemma {:induction false} ChunksJoin(bytes: seq<byte>, ss: nat, n: nat)
    requires ss > 0 && |bytes| == n * ss
    ensures |Chunks(bytes, ss)| == n && Uniform(Chunks(bytes, ss), ss) && Join(Chunks(bytes, ss)) == bytes
  {
    if n > 0 {
      assert n * ss == (n - 1) * ss + ss;
      ChunksJoin(bytes[ss..], ss, n - 1);
      assert bytes == bytes[..ss] + bytes[ss..];
    }
  }

  /** Some bytes of a run replaced. */
  function Patch(image: seq<byte>, at: nat, bytes: seq<byte>): (r: seq<byte>)
    requires at + |bytes| <= |image|
    ensures |r| == |image|
  {
    image[..at] + bytes + image[at + |bytes|..]
  }

  lemma Split3(w: seq<Block>, i: nat, n: nat)
    requires i + n <= |w|
    ensures w == w[..i] + (w[i..i + n] + w[i + n..])
  {
  }

  lemma JoinSplit3(w: seq<Block>, lba: nat, n: nat)
    requires lba + n <= |w|
    ensures Join(w) == Join(w[..lba]) + (Join(w[lba..lba + n]) + Join(w[lba + n..]))
  {
    Split3(w, lba, n);
    JoinConcat(w[..lba], w[lba..lba + n] + w[lba + n..]);
    JoinConcat(w[lba..lba + n], w[lba + n..]);
  }

  lemma Slices(a: seq<byte>, b: seq<byte>, c: seq<byte>, all: seq<byte>, base: nat, len: nat)
    requires all == a + (b + c) && |a| == base && |b| == len
    ensures base + len <= |all| && all[..base] == a && all[base..base + len] == b && all[base + len..] == c
  {
  }

  /** Blocks `lba` up to `lba + n` of a window, as bytes. */
  lemma JoinSlice(w: seq<Block>, ss: nat, lba: nat, n: nat, base: nat, len: nat)
    requires Uniform(w, ss) && lba + n <= |w| && base == lba * ss && len == n * ss
    ensures base + len <= |Join(w)|
    ensures Join(w[lba..lba + n]) == Join(w)[base..base + len]
    ensures Join(w[..lba]) == Join(w)[..base] && Join(w[lba + n..]) == Join(w)[base + len..]
  {
    JoinSplit3(w, lba, n);
    JoinSize(w[..lba], ss);
    JoinSize(w[lba..lba + n], ss);
    Slices(Join(w[..lba]), Join(w[lba..lba + n]), Join(w[lba + n..]), Join(w), base, len);
  }

  /** Replacing whole blocks of a window replaces those bytes. */
  lemma JoinSplice(w: seq<Block>, ss: nat, lba: nat, data: seq<Block>, base: nat, len: nat)
    requires Uniform(w, ss) && Uniform(data, ss) && lba + |data| <= |w| && base == lba * ss && len == |data| * ss
    ensures |Join(data)| == len && base + len <= |Join(w)|
    ensures Join(w[..lba] + data + w[lba + |data|..]) == Patch(Join(w), base, Join(data))
  {
    JoinSlice(w, ss, lba, |data|, base, len);
    JoinSize(data, ss);
    JoinConcat(w[..lba] + data, w[lba + |data|..]);
    JoinConcat(w[..lba], data);
  }

  lemma PatchAt(image: seq<byte>, at: nat, bytes: seq<byte>, i: nat)
    requires at + |bytes| <= |image| && i < |image|
    ensures Patch(image, at, bytes)[i] == if at <= i < at + |bytes| then bytes[i - at] else image[i]
  {
  }

  /** Bytes replaced in a part of a run, and that part put back. */
  lemma PatchInner(image: seq<byte>, base: nat, len: nat, at: nat, bytes: seq<byte>)
    requires base + len <= |image| && at + |bytes| <= len
    ensures Patch(image, base, Patch(image[base..base + len], at, bytes)) == Patch(image, base + at, bytes)
  {
    var x := image[base..base + len];
    var inner := Patch(x, at, bytes);
    var l, r := Patch(image, base, inner), Patch(image, base + at, bytes);
    forall i | 0 <= i < |image| ensures l[i] == r[i] {
      PatchAt(image, base, inner, i);
      PatchAt(image, base + at, bytes, i);
      if base <= i < base + len { PatchAt(x, at, bytes, i - base); }
    }
  }

  lemma SliceInner(image: seq<byte>, base: nat, len: nat, at: nat, n: nat)
    requires base + len <= |image| && at + n <= len
    ensures image[base..base + len][at..at + n] == image[base + at..base + at + n]
  {
    var x := image[base..base + len];
    var l, r := x[at..at + n], image[base + at..base + at + n];
    forall i | 0 <= i < n ensures l[i] == r[i] { assert l[i] == x[at + i] && x[at + i] == image[base + (at + i)]; }
  }

  lemma SliceMore(image: seq<byte>, at: nat, n: nat, m: nat)
    requires at + n + m <= |image|
    ensures image[at..at + n] + image[at + n..at + n + m] == image[at..at + n + m]
  {
  }

  lemma JoinOne(block: Block)
    ensures Join([block]) == block
  {
    assert [block][1..] == [];
  }

  lemma JoinSector(w: seq<Block>, ss: nat, lba: nat, base: nat)
    requires Uniform(w, ss) && lba < |w| && base == lba * ss
    ensures base + ss <= |Join(w)| && Join(w)[base..base + ss] == w[lba]
  {
    JoinSlice(w, ss, lba, 1, base, ss);
    assert w[lba..lba + 1] == [w[lba]];
    JoinOne(w[lba]);
  }

  lemma JoinReplace(w: seq<Block>, ss: nat, lba: nat, base: nat, sector: Block)
    requires Uniform(w, ss) && lba < |w| && base == lba * ss && |sector| == ss
    ensures base + ss <= |Join(w)| && Join(w[..lba] + [sector] + w[lba + 1..]) == Patch(Join(w), base, sector)
  {
    JoinOne(sector);
    JoinSplice(w, ss, lba, [sector], base, ss);
  }

  /** Replacing bytes inside one block: the read-modify-write of an edge. */
  lemma JoinEdge(w: seq<Block>, ss: nat, lba: nat, base: nat, at: nat, bytes: seq<byte>)
    requires Uniform(w, ss) && lba < |w| && base == lba * ss && at + |bytes| <= ss
    ensures base + ss <= |Join(w)|
    ensures w[lba][at..at + |bytes|] == Join(w)[base + at..base + at + |bytes|]
    ensures Join(w[..lba] + [Patch(w[lba], at, bytes)] + w[lba + 1..]) == Patch(Join(w), base + at, bytes)
  {
    JoinSector(w, ss, lba, base);
    JoinReplace(w, ss, lba, base, Patch(w[lba], at, bytes));
    EdgeOf(Join(w), base, ss, w[lba], at, bytes);
  }

  lemma EdgeOf(image: seq<byte>, base: nat, ss: nat, block: Block, at: nat, bytes: seq<byte>)
    requires base + ss <= |image| && image[base..base + ss] == block && at + |bytes| <= ss
    ensures block[at..at + |bytes|] == image[base + at..base + at + |bytes|]
    ensures Patch(image, base, Patch(block, at, bytes)) == Patch(image, base + at, bytes)
  {
    PatchInner(image, base, ss, at, bytes);
    SliceInner(image, base, ss, at, |bytes|);
  }

  /** Replacing the next bytes of a run being replaced: a patch in two pieces is one patch. */
  lemma PatchMore(image: seq<byte>, at: nat, buf: seq<byte>, n: nat, more: nat)
    requires n + more <= |buf| && at + n + more <= |image|
    ensures Patch(Patch(image, at, buf[..n]), at + n, buf[n..][..more]) == Patch(image, at, buf[..n + more])
  {
  }

  lemma PatchStep(was: seq<byte>, now: seq<byte>, next: seq<byte>, at: nat, buf: seq<byte>, n: nat, more: nat)
    requires n + more <= |buf| && at + n + more <= |was| && now == Patch(was, at, buf[..n])
    requires next == Patch(now, at + n, buf[n..][..more])
    ensures next == Patch(was, at, buf[..n + more])
  {
    PatchMore(was, at, buf, n, more);
  }
}
