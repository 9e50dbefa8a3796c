/** kernel/block/blockdev.c and kernel/fs/blkcache.c over the partitions of a disk: a partition as a device of its
    own. */
module PartIo {
  import opened BlkCache
  import opened BlkFile
  import opened Image
  import opened Part

  /** The device blockdev_register_part makes of partition i. */
  ghost predicate IsPart(d: Device, parts: seq<Partition>, i: nat)
    reads d
  {
    Laid(parts, |d.disk|) && i < |parts| && d.start == parts[i].start && d.count == parts[i].count
  }

  /** Every sector of the partition is as it was. */
  ghost predicate Untouched(p: Partition, disk: seq<Block>, disk': seq<Block>) {
    p.start + p.count <= |disk| == |disk'| && forall x :: p.start <= x < p.start + p.count ==> disk'[x] == disk[x]
  }

  /** A partition a scan has found, as a device. */
  method Open(scan: Scan, i: nat, dev: nat, readOnly: bool, cache: Cache) returns (d: Device)
    requires scan.Valid() && Laid(scan.parts, |scan.disk|) && i < |scan.parts|
    requires cache.Valid() && Fresh(cache.table.Contents(), scan.disk, dev)
    ensures fresh(d) && d.Valid() && IsPart(d, scan.parts, i) && d.disk == scan.disk && d.ss == scan.ss
    ensures d.cache == cache && d.readOnly == readOnly
  {
    var p := scan.parts[i];
    d := new Device(dev, p.start, p.count, scan.ss, readOnly, cache, scan.disk);
  }

  /**
   * blkcache_write_multi through a partition.  What does not fit in it is refused; what does goes to its place on the
   * disk; and whatever happens, every sector of every other partition stays as it was.
   */
  method Write(d: Device, lba: u64, data: seq<Block>, ghost parts: seq<Partition>, ghost i: nat) returns (err: int)
    requires d.Valid() && IsPart(d, parts, i) && Uniform(data, d.ss)
    modifies d`disk, d`failures, d`served, d.cache, d.cache.table
    ensures d.Valid() && IsPart(d, parts, i) && err <= 0
    ensures |data| == 0 || lba + |data| > parts[i].count ==> err == -EIO && d.disk == old(d.disk)
    ensures err == 0 ==> lba + |data| <= parts[i].count
    ensures err == 0 ==> forall k :: 0 <= k < |data| ==>
      parts[i].start + lba + k < |d.disk| && d.disk[parts[i].start + lba + k] == data[k]
    ensures forall j :: 0 <= j < |parts| && j != i ==> Untouched(parts[j], old(d.disk), d.disk)
  {
    err := d.WriteMulti(lba, data);
    if lba < d.count && |data| <= d.count - lba {
      forall j | 0 <= j < |parts| && j != i ensures Untouched(parts[j], old(d.disk), d.disk) {
        WriteIsolated(parts, old(d.disk), d.disk, i, j, lba, |data|);
        assert forall x :: Holds(parts[j], x) <==> parts[j].start <= x < parts[j].start + parts[j].count;
      }
    } else {
      assert d.disk == old(d.disk);
    }
  }
}
