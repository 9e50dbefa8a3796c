/** kernel/block/blkdev_file.c over kernel/fs/blkcache.c and kernel/block/blockdev.c: byte-granular
    reads and writes of an open block device, as seen by the one thread that holds fs_lock. */
module BlkFile {
  import opened Bytes
  import opened BlkTable
  import opened BlkCache
  import opened DivMod
  import opened Image

  const EIO: int := 5
  const ENOSPC: int := 28
  const EROFS: int := 30

  /** Most sectors moved by one command. */
  const XFER_MAX: nat := 256

  // ------------------------------------------------- the device and its cache

  /** The disk with `data` in place of the sectors from `lba` on. */
  function Splice(disk: seq<Sector>, lba: nat, data: seq<Sector>): (r: seq<Sector>)
    requires lba + |data| <= |disk|
    ensures |r| == |disk|
    ensures forall i :: 0 <= i < |disk| ==> r[i] == if lba <= i < lba + |data| then data[i - lba] else disk[i]
  {
    disk[..lba] + data + disk[lba + |data|..]
  }

  lemma SpliceUniform(disk: seq<Sector>, lba: nat, data: seq<Sector>, ss: nat)
    requires lba + |data| <= |disk| && Uniform(disk, ss) && Uniform(data, ss)
    ensures Uniform(Splice(disk, lba, data), ss)
  {
    forall i | 0 <= i < |disk| ensures |Splice(disk, lba, data)[i]| == ss {
      if lba <= i < lba + |data| { assert |data[i - lba]| == ss; }
    }
  }

  /** What is cached of a disk is what the disk holds. */
  ghost predicate Fresh(c: map<Key, Sector>, disk: seq<Sector>, dev: nat) {
    forall k :: k in c && k.dev == dev ==> k.lba < |disk| && c[k] == disk[k.lba]
  }

  /** So it is after a write and what the cache makes of it. */
  lemma StillFresh(c: map<Key, Sector>, c': map<Key, Sector>, disk: seq<Sector>, disk': seq<Sector>, r: Range,
                   data: seq<Sector>, ok: bool)
    requires Fresh(c, disk, r.dev) && |disk'| == |disk| && r.count == |data| && r.lba + r.count <= |disk|
    requires forall i :: 0 <= i < |disk| && !(r.lba <= i < r.lba + r.count) ==> disk'[i] == disk[i]
    requires ok ==> disk' == Splice(disk, r.lba, data)
    requires ok && r.count == 1 ==>
      Key(r.dev, r.lba) in c' && c'[Key(r.dev, r.lba)] == data[0] && Recycled(c, c', Key(r.dev, r.lba))
    requires ok && r.count != 1 ==> Refreshed(c, c', r, data)
    requires !ok ==> Dropped(c, c', (k: Key) => Covers(r, k))
    ensures Fresh(c', disk', r.dev)
  {
    forall k | k in c' && k.dev == r.dev ensures k.lba < |disk'| && c'[k] == disk'[k.lba] {
      if Covers(r, k) {
        assert ok && r.count == 1 ==> k == Key(r.dev, r.lba);
      } else {
        assert k in c && c'[k] == c[k];
      }
    }
  }

  /** An opened disk or partition: `count` sectors of disk `dev` from sector `start` on. */
  class Device {
    const dev: nat
    const start: nat
    const count: nat
    const ss: nat
    const readOnly: bool
    const cache: Cache
    var disk: seq<Sector>
    var position: nat
    /** How many commands the driver has reported as failed. */
    ghost var failures: nat
    /** How many reads have been answered, by the driver or from the cache. */
    ghost var served: nat

    constructor (dev: nat, start: nat, count: nat, ss: nat, readOnly: bool, cache: Cache, disk: seq<Sector>)
      requires cache.Valid() && Uniform(disk, ss) && start + count <= |disk| < U64
      requires Fresh(cache.table.Contents(), disk, dev)
      ensures Valid() && this.disk == disk && position == 0 && this.cache == cache && this.ss == ss
      ensures this.dev == dev && this.start == start && this.count == count && this.readOnly == readOnly
    {
      this.dev, this.start, this.count, this.ss, this.readOnly := dev, start, count, ss, readOnly;
      this.cache, this.disk, position, failures, served := cache, disk, 0, 0, 0;
    }

    ghost predicate Valid()
      reads this, cache, cache.table
    {
      && Uniform(disk, ss) && start + count <= |disk| < U64
      && cache.Valid() && Fresh(cache.table.Contents(), disk, dev)
    }

    /** The driver's read: fails, or delivers the sectors. */
    method DeviceRead(lba: nat, n: nat) returns (err: int, data: seq<Sector>)
      requires Uniform(disk, ss) && lba + n <= |disk|
      modifies this`failures
      ensures err == 0 || err == -EIO
      ensures err == 0 ==> data == disk[lba..lba + n]
      ensures failures >= old(failures) && (err == 0 <==> failures == old(failures))
    {
      var ok: bool := *;
      if ok { return 0, disk[lba..lba + n]; }
      failures := failures + 1;
      return -EIO, [];
    }

    /** The driver's write: is refused, succeeds, or leaves anything at all in the sectors it was given. */
    method DeviceWrite(lba: nat, data: seq<Sector>) returns (err: int)
      requires Uniform(disk, ss) && lba + |data| <= |disk| && Uniform(data, ss)
      modifies this`disk, this`failures
      ensures if readOnly then err == -EROFS && disk == old(disk) else err == 0 || err == -EIO
      ensures failures >= old(failures) && (err == -EIO <==> failures != old(failures))
      ensures Uniform(disk, ss) && |disk| == old(|disk|)
      ensures err == 0 ==> !readOnly && disk == Splice(old(disk), lba, data)
      ensures forall i :: 0 <= i < |disk| && !(lba <= i < lba + |data|) ==> disk[i] == old(disk)[i]
    {
      if readOnly { return -EROFS; }
      var ok: bool := *;
      if ok {
        disk := Splice(disk, lba, data);
        return 0;
      }
      var torn: seq<Sector> :| |torn| == |data| && Uniform(torn, ss);
      SpliceUniform(disk, lba, torn, ss);
      disk := Splice(disk, lba, torn);
      failures := failures + 1;
      return -EIO;
    }

    /** resolve: bounds-checks against the device, not the disk. */
    function Outside(lba: nat, n: nat): (r: bool)
      ensures !r ==> n > 0 && lba + n <= count
    {
      n == 0 || lba >= count || n > count - lba
    }

    /** blockdev_disk_lba, in 64 bits: within the device nothing is lost. */
    function Translated(lba: nat): (r: nat)
      ensures start + count < U64 && lba < count ==> r == start + lba
    {
      (start + lba) % U64
    }

    /** blkcache_read. */
    method ReadOne(lba: nat) returns (err: int, data: Sector)
      requires Valid()
      modifies this`failures, this`served, cache`hits, cache`misses, cache.table
      ensures Valid() && failures >= old(failures) && served == old(served) + if err == 0 then 1 else 0
      ensures lba < count ==> (err == 0 <==> failures == old(failures))
      ensures err == 0 || err == -EIO
      ensures lba >= count ==> err == -EIO
      ensures err == 0 ==> lba < count && data == disk[start + lba]
      ensures err == 0 ==> Stored(old(cache.table.Contents()), old(cache.table.Recency()), cache.table.Contents(),
                                  cache.table.Recency(), |cache.table.bufs|, Key(dev, start + lba), data)
    {
      if Outside(lba, 1) { return -EIO, []; }
      var k := Key(dev, Translated(lba));
      var hit, noted := cache.ReadLocked(k);
      if hit.Some? {
        served := served + 1;
        return 0, hit.value;
      }
      var sectors;
      err, sectors := DeviceRead(Translated(lba), 1);
      if err != 0 { return err, []; }
      data := sectors[0];
      cache.Install(k, noted, data);
      served := served + 1;
    }

    /** blkcache_read_multi: straight from the device. */
    method ReadMulti(lba: nat, n: nat) returns (err: int, data: seq<Sector>)
      requires Valid()
      modifies this`failures, this`served
      ensures Valid() && failures >= old(failures) && served == old(served) + if err == 0 then 1 else 0
      ensures err == 0 || err == -EIO
      ensures n > 0 && lba + n <= count ==> (err == 0 <==> failures == old(failures))
      ensures n == 0 || lba + n > count ==> err == -EIO
      ensures err == 0 ==> lba + n <= count && data == disk[start + lba..start + lba + n]
    {
      if Outside(lba, n) { return -EIO, []; }
      err, data := DeviceRead(Translated(lba), n);
      if err == 0 { served := served + 1; }
    }

    /** blkcache_write_multi, and with one sector blkcache_write. */
    method WriteMulti(lba: nat, data: seq<Sector>) returns (err: int)
      requires Valid() && Uniform(data, ss)
      modifies this`disk, this`failures, this`served, cache, cache.table
      ensures Valid() && |disk| == old(|disk|) && failures >= old(failures)
      ensures |data| > 0 && lba + |data| <= count ==>
        (err == 0 <==> failures == old(failures) && !readOnly) && (readOnly ==> err == -EROFS && disk == old(disk))
      ensures err == 0 || err == -EIO || (readOnly && err == -EROFS)
      ensures |data| == 0 || lba + |data| > count ==> err == -EIO && disk == old(disk)
      ensures cache.gen == old(cache.gen) + if |data| == 0 || lba + |data| > count then 0 else 2
      ensures err == 0 ==> lba + |data| <= count && !readOnly && disk == Splice(old(disk), start + lba, data)
      ensures err == 0 ==>
        if |data| == 1 then Stored(old(cache.table.Contents()), old(cache.table.Recency()), cache.table.Contents(),
                                   cache.table.Recency(), |cache.table.bufs|, Key(dev, start + lba), data[0])
        else cache.table.Recency() == old(cache.table.Recency())
      ensures forall i :: 0 <= i < |disk| && !(start + lba <= i < start + lba + |data|) ==> disk[i] == old(disk)[i]
    {
      if Outside(lba, |data|) { return -EIO; }
      cache.BeginWrite();
      err := DeviceWrite(Translated(lba), data);
      ghost var was := cache.table.Contents();
      var r := Range(dev, Translated(lba), |data|);
      cache.EndWrite(r, err == 0, data);
      StillFresh(was, cache.table.Contents(), old(disk), disk, r, data, err == 0);
    }

    // ----------------------------------------------- byte transfers

    ghost predicate Sized()
      reads this
    {
      Uniform(disk, ss) && start + count <= |disk|
    }

    /** The device as one run of bytes. */
    ghost function Image(): (r: seq<byte>)
      requires Sized()
      reads this
    {
      Join(disk[start..start + count])
    }

    /** A read command has been answered, or has failed, since there were so many of either. */
    ghost predicate Answer(err: int, wasFailures: nat, wasServed: nat)
      reads this
    {
      if err == 0 then failures == wasFailures && served == wasServed + 1
      else err == -EIO && failures > wasFailures && served == wasServed
    }

    /** Aligned whole sectors, straight from the device. */
    method ReadWhole(lba: nat, n: nat, ghost off: nat) returns (err: int, bytes: seq<byte>)
      requires Valid() && n > 0 && lba + n <= count && off == lba * ss
      modifies this`failures, this`served
      ensures Valid() && Answer(err, old(failures), old(served))
      ensures err == 0 ==> |bytes| == n * ss && off + |bytes| <= |Image()| && bytes == Image()[off..off + |bytes|]
    {
      var data;
      err, data := ReadMulti(lba, n);
      if err != 0 { return err, []; }
      ghost var w := disk[start..start + count];
      assert data == w[lba..lba + n];
      JoinSlice(w, ss, lba, n, off, n * ss);
      bytes := Join(data);
    }

    /** The part of one sector that an edge needs, through the cache. */
    method ReadEdge(lba: nat, at: nat, left: nat, ghost base: nat) returns (err: int, bytes: seq<byte>)
      requires Valid() && left > 0 && lba < count && at < ss && base == lba * ss
      modifies this`failures, this`served, cache`hits, cache`misses, cache.table
      ensures Valid() && Answer(err, old(failures), old(served))
      ensures err == 0 ==> 0 < |bytes| <= left && base + at + |bytes| <= |Image()|
      ensures err == 0 ==> bytes == Image()[base + at..base + at + |bytes|]
    {
      var chunk := if ss - at > left then left else ss - at;
      var sector;
      err, sector := ReadOne(lba);
      if err != 0 { return err, []; }
      bytes := sector[at..at + chunk];
      Window(disk, start, count, ss, lba);
      JoinEdge(disk[start..start + count], ss, lba, base, at, bytes);
    }

    /** What every write keeps: the rest of the disk, and the device's size. */
    twostate predicate OnlyHere()
      reads this
    {
      && |disk| == old(|disk|) && position == old(position) && failures >= old(failures)
      && forall i :: 0 <= i < |disk| && !(start <= i < start + count) ==> disk[i] == old(disk)[i]
    }

    /** A write went through: the device takes writes and no command has failed since there were n failures. */
    ghost predicate Went(n: nat)
      reads this
    {
      !readOnly && failures == n
    }

    method WriteWhole(lba: nat, bytes: seq<byte>, n: nat, ghost off: nat) returns (err: int)
      requires Valid() && n > 0 && lba + n <= count && off == lba * ss && |bytes| == n * ss
      modifies this`disk, this`failures, this`served, cache, cache.table
      ensures Valid() && OnlyHere() && Around(old(Image()), off, off + |bytes|)
      ensures err == 0 <==> Went(old(failures))
      ensures err == 0 || err == -EIO || (readOnly && err == -EROFS)
      ensures err == 0 ==> Image() == Patch(old(Image()), off, bytes)
    {
      ghost var w := disk[start..start + count];
      ChunksJoin(bytes, ss, n);
      var sectors := Chunks(bytes, ss);
      err := WriteMulti(lba, sectors);
      WindowWritten(w, disk[start..start + count], ss, lba, sectors, off, |bytes|, err == 0);
    }

    /** The read-modify-write of an edge. */
    method WriteEdge(lba: nat, at: nat, bytes: seq<byte>, ghost base: nat) returns (err: int)
      requires Valid() && lba < count && at + |bytes| <= ss && base == lba * ss
      modifies this`disk, this`failures, this`served, cache, cache.table
      ensures Valid() && OnlyHere() && Around(old(Image()), base, base + ss)
      ensures err == 0 <==> Went(old(failures))
      ensures err == 0 || err == -EIO || (readOnly && err == -EROFS)
      ensures err == 0 ==> base + at + |bytes| <= |old(Image())| && Image() == Patch(old(Image()), base + at, bytes)
    {
      ghost var w := disk[start..start + count];
      Window(disk, start, count, ss, lba);
      var edge;
      err, edge := ReadOne(lba);
      if err != 0 {
        JoinEdge(w, ss, lba, base, at, bytes);
        return;
      }
      err := WriteBack(lba, Patch(edge, at, bytes), at, bytes, base);
    }

    /** Its second half. */
    method WriteBack(lba: nat, edge: Sector, ghost at: nat, ghost bytes: seq<byte>, ghost base: nat) returns (err: int)
      requires Valid() && lba < count && at + |bytes| <= ss && base == lba * ss && |edge| == ss
      requires |disk[start + lba]| == ss && edge == Patch(disk[start + lba], at, bytes)
      modifies this`disk, this`failures, this`served, cache, cache.table
      ensures Valid() && OnlyHere() && Around(old(Image()), base, base + ss)
      ensures err == 0 <==> Went(old(failures))
      ensures err == 0 || err == -EIO || (readOnly && err == -EROFS)
      ensures err == 0 ==> base + at + |bytes| <= |old(Image())| && Image() == Patch(old(Image()), base + at, bytes)
    {
      ghost var w := disk[start..start + count];
      Window(disk, start, count, ss, lba);
      err := WriteMulti(lba, [edge]);
      Window(disk, start, count, ss, lba);
      EdgeWritten(w, disk[start..start + count], ss, lba, base, at, bytes, err == 0);
    }

    /** Where the loop of xfer stands: in sector `lba`, which starts at byte `base`, at byte `at`; and, if that is a
        boundary with a whole sector left, how many sectors, `size` bytes, the next command moves. */
    method Place(off: nat, left: nat) returns (lba: nat, base: nat, at: nat, n: nat, size: nat)
      requires ss > 0 && left > 0 && off + left <= count * ss
      ensures base == lba * ss && off == base + at && at < ss && lba < count
      ensures n > 0 <==> at == 0 && left >= ss
      ensures size == n * ss && (n > 0 ==> lba + n <= count && 0 < size <= left && n <= XFER_MAX)
    {
      lba, at, n := off / ss, off % ss, 0;
      base, size := off - at, 0;
      EdgeFits(off, left, ss, count);
      DivSplit(off, ss);
      if at == 0 && left >= ss {
        QuotientPositive(left, ss);
        n := left / ss;
        if n > XFER_MAX { n := XFER_MAX; }
        PieceFits(off, left, ss, count, n);
        size := n * ss;
      }
    }

    /** One turn of xfer's loop when reading. */
    method ReadTurn(off: nat, left: nat) returns (err: int, bytes: seq<byte>)
      requires Valid() && left > 0 && off + left <= count * ss
      modifies this`failures, this`served, cache`hits, cache`misses, cache.table
      ensures Valid() && Answer(err, old(failures), old(served))
      ensures err == 0 ==> 0 < |bytes| <= left && off + |bytes| <= |Image()| && bytes == Image()[off..off + |bytes|]
    {
      var lba, base, at, n, size := Place(off, left);
      if n > 0 {
        err, bytes := ReadWhole(lba, n, off);
      } else {
        err, bytes := ReadEdge(lba, at, left, base);
      }
    }

    /** The loop of xfer when reading. */
    method ReadLoop(pos: nat, len: nat) returns (err: int, bytes: seq<byte>)
      requires Valid() && pos + len <= count * ss && count * ss == |Image()|
      modifies this`failures, this`served, cache`hits, cache`misses, cache.table
      ensures Valid() && |bytes| <= len && (err == 0 ==> |bytes| == len) && (err == 0 || err == -EIO)
      ensures failures >= old(failures) && (err == 0 <==> failures == old(failures))
      ensures served >= old(served) && (bytes == [] <==> served == old(served))
      ensures bytes == Image()[pos..pos + |bytes|]
    {
      err, bytes := 0, [];
      while |bytes| < len && err == 0
        invariant Valid() && (err == 0 || err == -EIO) && |bytes| <= len && bytes == Image()[pos..pos + |bytes|]
        invariant failures >= old(failures) && (err == 0 <==> failures == old(failures))
        invariant served >= old(served) && (bytes == [] <==> served == old(served))
        decreases len - |bytes| + (if err == 0 then 1 else 0)
      {
        var piece;
        err, piece := ReadTurn(pos + |bytes|, len - |bytes|);
        if err == 0 {
          SliceMore(Image(), pos, |bytes|, |piece|);
          bytes := bytes + piece;
        }
      }
    }

    /** xfer, reading: as many bytes as there are, or a prefix of them when the device fails. */
    method Read(len0: nat) returns (r: int, bytes: seq<byte>)
      requires Valid()
      modifies this`position, this`failures, this`served, cache`hits, cache`misses, cache.table
      ensures Valid() && failures >= old(failures)
      ensures r >= 0 ==> |bytes| == r && position == old(position) + r
      ensures r < 0 ==> r == -EIO && failures > old(failures) && served == old(served) && position == old(position)
      ensures r == 0 ==> len0 == 0 || old(position) >= |Image()|
      ensures old(position) >= |Image()| ==> r == 0
      ensures old(position) < |Image()| && r >= 0 ==>
        && old(position) + r <= |Image()| && r <= len0
        && bytes == Image()[old(position)..old(position) + r]
        && (failures == old(failures) ==>
              r == if len0 <= |Image()| - old(position) then len0 else |Image()| - old(position))
    {
      JoinSize(disk[start..start + count], ss);
      var size, len := count * ss, len0;
      if position >= size { return 0, []; }
      if len > size - position { len := size - position; }
      var err;
      err, bytes := ReadLoop(position, len);
      if |bytes| == 0 && err != 0 { return err, []; }
      position := position + |bytes|;
      r := |bytes|;
    }

    /** Outside [lo, hi) the device is still `image`. */
    ghost predicate Around(image: seq<byte>, lo: nat, hi: nat)
      requires Sized()
      reads this
    {
      Agrees(image, Image(), lo, hi)
    }

    /** One turn of xfer's loop when writing.  A failed command may damage the sectors it covered,
        bytes [lo, hi), and no others. */
    method WriteTurn(off: nat, buf: seq<byte>) returns (err: int, done: nat, ghost lo: nat, ghost hi: nat)
      requires Valid() && |buf| > 0 && off + |buf| <= count * ss
      modifies this`disk, this`failures, this`served, cache, cache.table
      ensures Valid() && OnlyHere() && (err == 0 <==> Went(old(failures)))
      ensures err == 0 || err == -EIO || (readOnly && err == -EROFS)
      ensures off + done <= |old(Image())| && done <= |buf|
      ensures err == 0 ==> done > 0 && Image() == Patch(old(Image()), off, buf[..done])
      ensures err != 0 ==> Around(old(Image()), lo, hi) && lo <= off < hi && off < lo + ss && hi < off + |buf| + ss
    {
      var lba, base, at, n, size := Place(off, |buf|);
      if n > 0 {
        done := size;
        lo, hi := off, off + done;
        err := WriteWhole(lba, buf[..done], n, off);
      } else {
        done := if ss - at > |buf| then |buf| else ss - at;
        lo, hi := base, base + ss;
        err := WriteEdge(lba, at, buf[..done], base);
      }
    }

    /** How far a write got: `done` bytes, and if a command failed, which bytes it may have damaged. */
    ghost predicate WroteUpTo(was: seq<byte>, pos: nat, buf: seq<byte>, done: nat, failed: bool, lo: nat, hi: nat)
      requires Sized() && done <= |buf| && pos + done <= |was|
      reads this
    {
      Reached(ss, was, Image(), pos, buf, done, failed, lo, hi) == true
    }

    /** A turn of the loop of xfer when writing: some more of the buffer is in place, or a command failed. */
    method WriteMore(buf: seq<byte>, done0: nat, ghost was: seq<byte>)
      returns (err: int, done: nat, ghost lo: nat, ghost hi: nat)
      requires Valid() && done0 < |buf| && position + |buf| <= count * ss && position + done0 <= |was|
      requires Image() == Patch(was, position, buf[..done0])
      modifies this`disk, this`failures, this`served, cache, cache.table
      ensures Valid() && OnlyHere() && done0 <= done <= |buf| && position + done <= |was|
      ensures err == 0 <==> Went(old(failures))
      ensures err == 0 || err == -EIO || (readOnly && err == -EROFS)
      ensures WroteUpTo(was, position, buf, done, err != 0, lo, hi) && (err == 0 ==> done > done0)
    {
      var moved;
      ghost var now := Image();
      err, moved, lo, hi := WriteTurn(position + done0, buf[done0..]);
      done := done0;
      if err == 0 {
        ReachMore(ss, was, now, Image(), position, buf, done0, moved, lo, hi);
        done := done0 + moved;
      }
    }

    /** The loop of xfer when writing. */
    method WriteLoop(buf: seq<byte>) returns (err: int, done: nat, ghost lo: nat, ghost hi: nat)
      requires Valid() && position + |buf| <= count * ss
      modifies this`disk, this`failures, this`served, cache, cache.table
      ensures Valid() && OnlyHere() && done <= |buf| && position + done <= |old(Image())|
      ensures err == 0 <==> buf == [] || Went(old(failures))
      ensures err == 0 || err == -EIO || (readOnly && err == -EROFS)
      ensures WroteUpTo(old(Image()), position, buf, done, err != 0, lo, hi) && (err == 0 ==> done == |buf|)
    {
      JoinSize(disk[start..start + count], ss);
      ghost var was := Image();
      done, err, lo, hi := 0, 0, 0, 0;
      assert Patch(was, position, buf[..0]) == was;
      while done < |buf| && err == 0
        invariant Valid() && OnlyHere() && done <= |buf| && position + done <= |was|
        invariant WroteUpTo(was, position, buf, done, err != 0, lo, hi)
        invariant err == 0 || err == -EIO || (readOnly && err == -EROFS)
        invariant err == 0 ==> failures == old(failures) && (done > 0 ==> !readOnly)
        invariant err != 0 ==> buf != [] && !Went(old(failures))
        decreases |buf| - done + (if err == 0 then 1 else 0)
      {
        err, done, lo, hi := WriteMore(buf, done, was);
      }
    }

    /** xfer, writing: the device takes the bytes, or a prefix of them when a command fails. */
    method Write(buf: seq<byte>) returns (r: int, ghost done: nat, ghost failed: bool, ghost lo: nat, ghost hi: nat)
      requires Valid()
      modifies this`disk, this`position, this`failures, this`served, cache, cache.table
      ensures Valid() && |disk| == old(|disk|) && failures >= old(failures)
      ensures forall i :: 0 <= i < |disk| && !(start <= i < start + count) ==> disk[i] == old(disk)[i]
      ensures if r >= 0 then done == r else done == 0
      ensures position == old(position) + done
      ensures old(position) >= |old(Image())| ==> r == -ENOSPC && disk == old(disk)
      ensures old(position) < |old(Image())| ==>
        && done <= |buf| && old(position) + done <= |old(Image())| && (r == 0 ==> buf == [])
        && (r < 0 ==> failed && (r == -EIO || (readOnly && r == -EROFS)))
        && WroteUpTo(old(Image()), old(position), buf, done, failed, lo, hi)
      ensures old(position) < |old(Image())| ==> (failed <==> buf != [] && !Went(old(failures)))
      ensures old(position) < |old(Image())| && !failed ==>
        done == if |buf| <= |old(Image())| - old(position) then |buf| else |old(Image())| - old(position)
    {
      JoinSize(disk[start..start + count], ss);
      var size, len := count * ss, |buf|;
      if position >= size { return -ENOSPC, 0, false, 0, 0; }
      if len > size - position { len := size - position; }
      var err, n;
      err, n, lo, hi := WriteLoop(buf[..len]);
      assert buf[..len][..n] == buf[..n];
      done, failed := n, err != 0;
      if n == 0 && err != 0 { return err, 0, true, lo, hi; }
      position := position + n;
      r := n;
    }
  }

  /** Outside [lo, hi) two images agree. */
  ghost predicate Agrees(image: seq<byte>, image': seq<byte>, lo: nat, hi: nat) {
    lo <= hi <= |image| == |image'| && image'[..lo] == image[..lo] && image'[hi..] == image[hi..]
  }

  ghost predicate Reached(ss: nat, was: seq<byte>, image: seq<byte>, pos: nat, buf: seq<byte>, done: nat, failed: bool,
                          lo: nat, hi: nat)
    requires done <= |buf| && pos + done <= |was|
  {
    var now := Patch(was, pos, buf[..done]);
    if failed then Agrees(now, image, lo, hi) && lo <= pos + done < hi && pos + done < lo + ss && hi < pos + |buf| + ss
    else image == now
  }

  lemma ReachMore(ss: nat, was: seq<byte>, now: seq<byte>, image: seq<byte>, pos: nat, buf: seq<byte>, done: nat,
                  more: nat, lo: nat, hi: nat)
    requires done + more <= |buf| && pos + done + more <= |was| && now == Patch(was, pos, buf[..done])
    requires image == Patch(now, pos + done, buf[done..][..more])
    ensures Reached(ss, was, image, pos, buf, done + more, false, lo, hi)
  {
    PatchStep(was, now, image, pos, buf, done, more);
  }

  /** The window around a command over n sectors from lba on. */
  lemma WindowAround(w: seq<Sector>, w': seq<Sector>, ss: nat, lba: nat, n: nat, base: nat, len: nat)
    requires Uniform(w, ss) && Uniform(w', ss) && |w| == |w'| && lba + n <= |w| && base == lba * ss && len == n * ss
    requires w'[..lba] == w[..lba] && w'[lba + n..] == w[lba + n..]
    ensures |Join(w)| == |Join(w')| && base + len <= |Join(w)|
    ensures Join(w')[..base] == Join(w)[..base] && Join(w')[base + len..] == Join(w)[base + len..]
  {
    WindowSame(w, w', ss);
    JoinSlice(w, ss, lba, n, base, len);
    JoinSlice(w', ss, lba, n, base, len);
  }

  lemma WindowSame(w: seq<Sector>, w': seq<Sector>, ss: nat)
    requires Uniform(w, ss) && Uniform(w', ss) && |w| == |w'|
    ensures |Join(w)| == |Join(w')|
  {
    JoinSize(w, ss);
    JoinSize(w', ss);
  }

  lemma WindowParts(w: seq<Sector>, w': seq<Sector>, lba: nat, data: seq<Sector>, ok: bool)
    requires |w| == |w'| && lba + |data| <= |w|
    requires forall i :: 0 <= i < |w| && !(lba <= i < lba + |data|) ==> w'[i] == w[i]
    requires ok ==> forall i :: 0 <= i < |data| ==> w'[lba + i] == data[i]
    ensures w'[..lba] == w[..lba] && w'[lba + |data|..] == w[lba + |data|..]
    ensures ok ==> w' == w[..lba] + data + w[lba + |data|..]
  {
    if ok { assert w'[lba..lba + |data|] == data; }
    Split3(w', lba, |data|);
  }

  /** Whole sectors written: the bytes of the window around them stay, and they hold the data if all went well. */
  lemma WindowWritten(w: seq<Sector>, w': seq<Sector>, ss: nat, lba: nat, data: seq<Sector>, base: nat, len: nat,
                      ok: bool)
    requires Uniform(w, ss) && Uniform(w', ss) && Uniform(data, ss) && |w| == |w'| && lba + |data| <= |w|
    requires base == lba * ss && len == |data| * ss
    requires forall i :: 0 <= i < |w| && !(lba <= i < lba + |data|) ==> w'[i] == w[i]
    requires ok ==> forall i :: 0 <= i < |data| ==> w'[lba + i] == data[i]
    ensures |Join(data)| == len && |Join(w)| == |Join(w')| && base + len <= |Join(w)|
    ensures Join(w')[..base] == Join(w)[..base] && Join(w')[base + len..] == Join(w)[base + len..]
    ensures ok ==> Join(w') == Patch(Join(w), base, Join(data))
  {
    WindowParts(w, w', lba, data, ok);
    WindowAround(w, w', ss, lba, |data|, base, len);
    JoinSplice(w, ss, lba, data, base, len);
  }

  /** One sector written with some of its bytes changed. */
  lemma EdgeWritten(w: seq<Sector>, w': seq<Sector>, ss: nat, lba: nat, base: nat, at: nat, bytes: seq<byte>, ok: bool)
    requires Uniform(w, ss) && Uniform(w', ss) && |w| == |w'| && lba < |w| && base == lba * ss && at + |bytes| <= ss
    requires forall i :: 0 <= i < |w| && i != lba ==> w'[i] == w[i]
    requires ok ==> w'[lba] == Patch(w[lba], at, bytes)
    ensures |Join(w)| == |Join(w')| && base + ss <= |Join(w)|
    ensures Join(w')[..base] == Join(w)[..base] && Join(w')[base + ss..] == Join(w)[base + ss..]
    ensures ok ==> Join(w') == Patch(Join(w), base + at, bytes)
  {
    EdgeParts(w, w', lba, Patch(w[lba], at, bytes), ok);
    WindowAround(w, w', ss, lba, 1, base, ss);
    if ok { EdgeJoined(w, w', ss, lba, base, at, bytes); }
  }

  lemma EdgeParts(w: seq<Sector>, w': seq<Sector>, lba: nat, edge: Sector, ok: bool)
    requires |w| == |w'| && lba < |w|
    requires forall i :: 0 <= i < |w| && i != lba ==> w'[i] == w[i]
    requires ok ==> w'[lba] == edge
    ensures w'[..lba] == w[..lba] && w'[lba + 1..] == w[lba + 1..]
    ensures ok ==> w' == w[..lba] + [edge] + w[lba + 1..]
  {
    WindowParts(w, w', lba, [edge], ok);
  }

  lemma EdgeJoined(w: seq<Sector>, w': seq<Sector>, ss: nat, lba: nat, base: nat, at: nat, bytes: seq<byte>)
    requires Uniform(w, ss) && lba < |w| && base == lba * ss && at + |bytes| <= ss
    requires w' == w[..lba] + [Patch(w[lba], at, bytes)] + w[lba + 1..]
    ensures base + at + |bytes| <= |Join(w)| && Join(w') == Patch(Join(w), base + at, bytes)
  {
    JoinEdge(w, ss, lba, base, at, bytes);
  }

  /** The device's sectors within the disk. */
  lemma Window(disk: seq<Sector>, start: nat, count: nat, ss: nat, lba: nat)
    requires Uniform(disk, ss) && start + count <= |disk| && lba < count
    ensures Uniform(disk[start..start + count], ss) && disk[start..start + count][lba] == disk[start + lba]
  {
  }

  lemma PieceFits(off: nat, left: nat, ss: nat, count: nat, n: nat)
    requires ss > 0 && off % ss == 0 && off + left <= count * ss && 0 < n <= left / ss
    ensures off / ss + n <= count && (off / ss) * ss == off && 0 < n * ss <= left
  {
  }

  lemma QuotientPositive(left: nat, ss: nat)
    requires ss > 0 && left >= ss
    ensures left / ss > 0
  {
    DivSplit(left, ss);
    if left / ss <= 0 { MulMono(left / ss, 0, ss); }
  }

  lemma EdgeFits(off: nat, left: nat, ss: nat, count: nat)
    requires ss > 0 && left > 0 && off + left <= count * ss
    ensures off / ss < count && off == (off / ss) * ss + off % ss && 0 <= off % ss < ss
  {
    DivSplit(off, ss);
    if off / ss >= count { MulMono(count, off / ss, ss); }
  }
}
