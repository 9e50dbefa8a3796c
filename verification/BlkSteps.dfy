/** kernel/fs/blkcache.c: every critical section of the cache is a step of the protocol. */
module BlkSteps {
  import opened Bytes
  import opened BlkTable
  import opened BlkCache
  import P = BlkProtocol

  /** The cache is the one of a state of the protocol. */
  ghost predicate Mirrors(cache: Cache, s: P.State)
    reads cache, cache.table
  {
    cache.Valid() && s.cache == cache.table.Contents() && s.gen == cache.gen
  }

  /** The first part of blkcache_read: a hit, or a miss that notes the generation. */
  method Read(cache: Cache, k: Key, ghost s: P.State, ghost tid: nat)
      returns (hit: Option<Sector>, noted: nat, ghost s': P.State)
    requires Mirrors(cache, s) && tid !in s.readers
    modifies cache`hits, cache`misses, cache.table
    ensures Mirrors(cache, s') && P.Next(s, if hit.Some? then P.Hit(tid, k) else P.Miss(tid, k), s')
    ensures if hit.Some? then P.Returns(s, P.Hit(tid, k), k, hit.value) else s'.readers[tid] == P.Noted(k, noted)
  {
    hit, noted := cache.ReadLocked(k);
    s' := if hit.Some? then s else s.(readers := s.readers[tid := P.Noted(k, noted)]);
  }

  /** Its last part, after the device has been read. */
  method Install(cache: Cache, k: Key, noted: nat, data: Sector, ghost s: P.State, ghost tid: nat)
      returns (ghost s': P.State)
    requires Mirrors(cache, s) && tid in s.readers && s.readers[tid] == P.Loaded(k, noted, data)
    modifies cache.table
    ensures Mirrors(cache, s') && P.Next(s, P.Install(tid), s')
  {
    cache.Install(k, noted, data);
    s' := s.(cache := cache.table.Contents(), readers := s.readers - {tid});
  }

  /** blkcache_write_multi up to its device write; the file-system lock keeps writes to a sector apart. */
  method BeginWrite(cache: Cache, range: Range, data: seq<Sector>, ghost s: P.State, ghost tid: nat)
      returns (ghost s': P.State)
    requires Mirrors(cache, s) && tid !in s.writers && |data| == range.count
    requires forall w :: w in s.writers ==> !P.Overlap(s.writers[w].range, range)
    modifies cache`gen
    ensures Mirrors(cache, s') && P.Next(s, P.BeginWrite(tid, range, data), s')
  {
    cache.BeginWrite();
    s' := s.(gen := s.gen + 1, writers := s.writers[tid := P.Writer(range, data,
      seq(range.count, (i: nat) => {s.disk(Key(range.dev, range.lba + i))}))]);
  }

  /** And after it; a device that reports success holds the new bytes. */
  method EndWrite(cache: Cache, r: Range, ok: bool, data: seq<Sector>, ghost s: P.State, ghost tid: nat)
      returns (ghost s': P.State)
    requires Mirrors(cache, s) && tid in s.writers && s.writers[tid].range == r && s.writers[tid].data == data
    requires |data| == r.count && (ok ==> forall k :: Covers(r, k) ==> s.disk(k) == data[k.lba - r.lba])
    modifies cache`gen, cache.table
    ensures Mirrors(cache, s') && P.Next(s, if ok then P.EndWrite(tid) else P.EndFailedWrite(tid), s')
  {
    cache.EndWrite(r, ok, data);
    s' := s.(cache := cache.table.Contents(), gen := s.gen + 1, writers := s.writers - {tid});
  }

  /** blkcache_invalidate. */
  method Invalidate(cache: Cache, dev: nat, ghost s: P.State) returns (ghost s': P.State)
    requires Mirrors(cache, s)
    modifies cache`gen, cache.table
    ensures Mirrors(cache, s') && P.Next(s, P.Invalidate(dev), s')
  {
    cache.Invalidate(dev);
    s' := s.(cache := cache.table.Contents(), gen := s.gen + 1);
  }
}
