/** kernel/fs/blkcache.c, the critical sections: what each stretch of code under cache_lock does
    to the set of cached sectors and to the write generation. */
module BlkCache {
  import Dll
  import opened Bytes
  import opened BlkTable

  /** `count` sectors of one disk from `lba` on. */
  datatype Range = Range(dev: nat, lba: nat, count: nat)

  predicate Covers(r: Range, k: Key) { k.dev == r.dev && r.lba <= k.lba < r.lba + r.count }

  /** A sector after a successful write of `data` to r, if it held `was` before. */
  ghost function Written(r: Range, data: seq<Sector>, k: Key, was: Sector): Sector
    requires |data| == r.count
  {
    if Covers(r, k) then data[k.lba - r.lba] else was
  }

  /** A successful multi-sector write refreshes what is cached of its range. */
  ghost predicate Refreshed(c: map<Key, Sector>, c': map<Key, Sector>, r: Range, data: seq<Sector>)
    requires |data| == r.count
  {
    && c'.Keys == c.Keys
    && forall k :: k in c ==> c'[k] == Written(r, data, k, c[k])
  }

  /** Exactly the sectors that satisfy `gone` are dropped. */
  ghost predicate Dropped(c: map<Key, Sector>, c': map<Key, Sector>, gone: Key -> bool) {
    && (forall k :: k in c' <==> k in c && !gone(k))
    && (forall k :: k in c' ==> c'[k] == c[k])
  }

  /** A sector is stored in a cache of n sectors: it is the most recently used one, and takes the place of the least
      recently used one if it is new and the cache full. */
  ghost predicate Stored(c: map<Key, Sector>, order: seq<Key>, c': map<Key, Sector>, order': seq<Key>, n: nat, k: Key,
                         data: Sector) {
    && c' == (c - Lost(order, k, n))[k := data]
    && order' == Used(Sift(order, Lost(order, k, n)), k)
  }

  /** A hit stores what is there. */
  lemma HitStored(c: map<Key, Sector>, order: seq<Key>, n: nat, k: Key)
    requires k in order && k in c
    ensures Stored(c, order, c, Used(order, k), n, k, c[k])
  {
    SiftNone(order, {});
    assert (c - {})[k := c[k]] == c;
  }

  class Cache {
    const table: Table
    var gen: nat
    var hits: nat
    var misses: nat

    constructor (entries: nat, nbuckets: nat, h: Key -> nat)
      requires entries > 0 && nbuckets > 0 && forall k :: h(k) < nbuckets
      ensures Valid() && table.Contents() == map[] && fresh(table)
    {
      table := new Table(entries, nbuckets, h);
      gen, hits, misses := 0, 0, 0;
    }

    ghost predicate Valid()
      reads this, table
    {
      table.Valid()
    }

    /** blkcache_read up to the first unlock: a hit copies the sector, a miss notes the generation. */
    method ReadLocked(k: Key) returns (hit: Option<Sector>, noted: nat)
      requires Valid()
      modifies table, this`hits, this`misses
      ensures Valid() && table.Contents() == old(table.Contents()) && |table.bufs| == old(|table.bufs|)
      ensures noted == gen
      ensures hit.Some? <==> k in table.Contents()
      ensures hit.Some? ==> hit.value == table.Contents()[k]
      ensures table.Recency() == if hit.Some? then Used(old(table.Recency()), k) else old(table.Recency())
      ensures hit.Some? ==> Stored(old(table.Contents()), old(table.Recency()), table.Contents(), table.Recency(),
                                   |table.bufs|, k, hit.value)
      ensures hits == old(hits) + (if hit.Some? then 1 else 0) && hits + misses == old(hits + misses) + 1
    {
      noted := gen;
      var e := table.Lookup(k);
      if e == Dll.NONE {
        misses := misses + 1;
        return None, gen;
      }
      table.RecencyKeys(k);
      HitStored(table.Contents(), table.Recency(), |table.bufs|, k);
      table.Touch(e);
      hit := Some(table.bufs[e].data);
      hits := hits + 1;
    }

    /** blkcache_read after its device read: installs only if no write has begun or ended since. */
    method Install(k: Key, noted: nat, data: Sector)
      requires Valid()
      modifies table
      ensures Valid() && |table.bufs| == old(|table.bufs|)
      ensures noted != gen ==> table.Contents() == old(table.Contents()) && table.Recency() == old(table.Recency())
      ensures noted == gen ==> k in table.Contents() && table.Contents()[k] == data
                               && Recycled(old(table.Contents()), table.Contents(), k)
      ensures noted == gen ==> Stored(old(table.Contents()), old(table.Recency()), table.Contents(), table.Recency(),
                                      |table.bufs|, k, data)
    {
      if gen != noted { return; }
      table.Put(k, data);
    }

    /** blkcache_write_multi before its device write. */
    method BeginWrite()
      modifies this`gen
      ensures gen == old(gen) + 1
    {
      gen := gen + 1;
    }

    /** blkcache_write_multi after its device write. */
    method EndWrite(r: Range, ok: bool, data: seq<Sector>)
      requires Valid() && |data| == r.count
      modifies this`gen, table
      ensures Valid() && gen == old(gen) + 1 && |table.bufs| == old(|table.bufs|)
      ensures ok && r.count == 1 ==>
        var k := Key(r.dev, r.lba);
        k in table.Contents() && table.Contents()[k] == data[0] && Recycled(old(table.Contents()), table.Contents(), k)
      ensures ok && r.count == 1 ==> Stored(old(table.Contents()), old(table.Recency()), table.Contents(),
                                            table.Recency(), |table.bufs|, Key(r.dev, r.lba), data[0])
      ensures ok && r.count != 1 ==> Refreshed(old(table.Contents()), table.Contents(), r, data)
      ensures ok && r.count != 1 ==> table.Recency() == old(table.Recency())
      ensures !ok ==> Dropped(old(table.Contents()), table.Contents(), (k: Key) => Covers(r, k))
      ensures !ok ==> table.Recency() == Kept(old(table.Recency()), (k: Key) => Covers(r, k))
    {
      gen := gen + 1;
      if r.count == 1 && ok {
        table.Put(Key(r.dev, r.lba), data[0]);
      } else if ok {
        RefreshRange(r, data);
      } else {
        DropAll((k: Key) => Covers(r, k));
      }
    }

    /** blkcache_invalidate. */
    method Invalidate(dev: nat)
      requires Valid()
      modifies this`gen, table
      ensures Valid() && gen == old(gen) + 1
      ensures Dropped(old(table.Contents()), table.Contents(), (k: Key) => k.dev == dev)
      ensures table.Recency() == Kept(old(table.Recency()), (k: Key) => k.dev == dev)
    {
      gen := gen + 1;
      DropAll((k: Key) => k.dev == dev);
    }

    method RefreshOne(i: nat, r: Range, data: seq<Sector>)
      requires Valid() && |data| == r.count && i < |table.bufs|
      modifies table
      ensures Valid() && table.Recency() == old(table.Recency()) && |table.bufs| == old(|table.bufs|)
      ensures RefreshedBuf(old(table.bufs)[i], table.bufs[i], true, r, data)
      ensures forall j :: 0 <= j < |table.bufs| && j != i ==> table.bufs[j] == old(table.bufs)[j]
    {
      var b := table.bufs[i];
      if b.valid && Covers(r, b.key) {
        assert Written(r, data, b.key, b.data) == data[b.key.lba - r.lba];
        table.Fill(i, data[b.key.lba - r.lba]);
        assert table.bufs[i] == b.(data := Written(r, data, b.key, b.data));
      }
    }

    method RefreshRange(r: Range, data: seq<Sector>)
      requires Valid() && |data| == r.count
      modifies table
      ensures Valid() && Refreshed(old(table.Contents()), table.Contents(), r, data)
      ensures table.Recency() == old(table.Recency()) && |table.bufs| == old(|table.bufs|)
    {
      for i := 0 to |table.bufs|
        invariant Valid() && |table.bufs| == old(|table.bufs|) && table.Recency() == old(table.Recency())
        invariant forall j :: 0 <= j < |table.bufs| ==> RefreshedBuf(old(table.bufs)[j], table.bufs[j], j < i, r, data)
      {
        RefreshOne(i, r, data);
      }
      RefreshedAll(old(table.bufs), table.bufs, r, data);
    }

    method DropOne(i: nat, gone: Key -> bool) returns (ghost more: set<Key>)
      requires Valid() && i < |table.bufs|
      modifies table
      ensures Valid() && |table.bufs| == old(|table.bufs|) && SameBut(old(table.bufs), table.bufs, i)
      ensures DroppedBuf(old(table.bufs)[i], table.bufs[i], true, gone)
      ensures table.Recency() == Sift(old(table.Recency()), more)
      ensures var b := old(table.bufs)[i]; more == if b.valid && gone(b.key) then {b.key} else {}
    {
      more := {};
      SiftNone(table.Recency(), {});
      if table.bufs[i].valid && gone(table.bufs[i].key) {
        more := {table.bufs[i].key};
        table.Unlink(i);
      }
    }

    method DropAll(gone: Key -> bool)
      requires Valid()
      modifies table
      ensures Valid() && Dropped(old(table.Contents()), table.Contents(), gone) && |table.bufs| == old(|table.bufs|)
      ensures table.Recency() == Kept(old(table.Recency()), gone)
    {
      ghost var dead: set<Key> := {};
      SiftNone(table.Recency(), {});
      for i := 0 to |table.bufs|
        invariant Valid() && |table.bufs| == old(|table.bufs|)
        invariant forall j :: 0 <= j < |table.bufs| ==> DroppedBuf(old(table.bufs)[j], table.bufs[j], j < i, gone)
        invariant table.Recency() == Sift(old(table.Recency()), dead) && Dead(old(table.bufs), i, gone, dead)
      {
        ghost var more := DropOne(i, gone);
        SiftTwice(old(table.Recency()), dead, more);
        dead := dead + more;
      }
      DroppedAll(old(table.bufs), table.bufs, gone);
      DeadAll(old(table.bufs), old(table.clock), old(table.ages), gone, dead);
    }
  }

  /** An order of use without the sectors that satisfy `gone`. */
  ghost function Kept(order: seq<Key>, gone: Key -> bool): seq<Key> {
    Sift(order, set k | k in order && gone(k))
  }

  /** The sectors of the first i buffers that satisfy `gone`. */
  ghost predicate Dead(bufs: seq<Buf>, i: int, gone: Key -> bool, dead: set<Key>) {
    && (forall k :: k in dead ==> gone(k))
    && (forall j :: 0 <= j < i && j < |bufs| && bufs[j].valid && gone(bufs[j].key) ==> bufs[j].key in dead)
  }

  lemma DeadAll(bufs: seq<Buf>, clock: nat, ages: seq<int>, gone: Key -> bool, dead: set<Key>)
    requires Aged(bufs, clock, ages, Dll.NONE) && Dead(bufs, |bufs|, gone, dead)
    ensures Sift(Keys(bufs, ages), dead) == Kept(Keys(bufs, ages), gone)
  {
    var order := Keys(bufs, ages);
    var all := set k | k in order && gone(k);
    forall i | 0 <= i < |order| ensures order[i] in dead <==> order[i] in all {
      assert InUse(bufs, clock, ages, i);
      assert order[i] == bufs[ages[i]].key && order[i] in order;
    }
    SiftSame(order, dead, all);
  }

  ghost predicate RefreshedBuf(was: Buf, now: Buf, seen: bool, r: Range, data: seq<Sector>)
    requires |data| == r.count
  {
    && now.key == was.key && now.valid == was.valid
    && now.data == if seen && was.valid then Written(r, data, was.key, was.data) else was.data
  }

  lemma RefreshedAll(was: seq<Buf>, now: seq<Buf>, r: Range, data: seq<Sector>)
    requires |was| == |now| && |data| == r.count && Unique(was) && Unique(now)
    requires forall j :: 0 <= j < |was| ==> RefreshedBuf(was[j], now[j], true, r, data)
    ensures Refreshed(Cached(was), Cached(now), r, data)
  {
    forall k | k in Cached(was)
      ensures k in Cached(now) && Cached(now)[k] == Written(r, data, k, Cached(was)[k])
    {
      var e := CachedFrom(was, k);
      assert RefreshedBuf(was[e], now[e], true, r, data);
      CachedHas(was, e);
      CachedHas(now, e);
    }
    forall k | k in Cached(now) ensures k in Cached(was) {
      var e := CachedFrom(now, k);
      assert RefreshedBuf(was[e], now[e], true, r, data);
      CachedHas(was, e);
    }
  }

  ghost predicate DroppedBuf(was: Buf, now: Buf, seen: bool, gone: Key -> bool) {
    && (now.valid <==> was.valid && !(seen && gone(was.key)))
    && (now.valid ==> now.key == was.key && now.data == was.data)
  }

  lemma DroppedAll(was: seq<Buf>, now: seq<Buf>, gone: Key -> bool)
    requires |was| == |now| && Unique(was) && Unique(now)
    requires forall j :: 0 <= j < |was| ==> DroppedBuf(was[j], now[j], true, gone)
    ensures Dropped(Cached(was), Cached(now), gone)
  {
    forall k | k in Cached(was) && !gone(k) ensures k in Cached(now) && Cached(now)[k] == Cached(was)[k] {
      var e := CachedFrom(was, k);
      CachedHas(was, e);
      CachedHas(now, e);
    }
    forall k | k in Cached(now) ensures k in Cached(was) && !gone(k) {
      var e := CachedFrom(now, k);
      CachedHas(was, e);
    }
  }
}
