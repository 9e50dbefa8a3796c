/** kernel/fs/fatfs.c: the 32 bytes of a directory slot, written and read back. */
module FatFormat {
  import opened Bytes
  import opened FatSlots
  import opened Utf

  const SLOT_SIZE: nat := 32
  const ATTR_LONG_NAME: byte := 0x0F

  function Get16(b: seq<byte>, at: nat): unit
    requires at + 2 <= |b|
  {
    (b[at] as int) + 0x100 * (b[at + 1] as int)
  }

  function Put16(v: unit): (b: seq<byte>)
    ensures |b| == 2 && Get16(b, 0) == v
  {
    [v % 0x100, v / 0x100]
  }

  function Get32(b: seq<byte>, at: nat): nat
    requires at + 4 <= |b|
  {
    Get16(b, at) + 0x1_0000 * Get16(b, at + 2)
  }

  function Put32(v: nat): (b: seq<byte>)
    requires v < U32
    ensures |b| == 4 && Get16(b, 0) == v % 0x1_0000 && Get16(b, 2) == v / 0x1_0000
  {
    Put16(v % 0x1_0000) + Put16(v / 0x1_0000)
  }

  // ------------------------------------------------- reading

  /** n characters of a long name from byte `at` on. */
  function Units(b: seq<byte>, at: nat, n: nat): (u: seq<unit>)
    requires at + 2 * n <= |b|
    ensures |u| == n
  {
    seq(n, i requires 0 <= i < n => Get16(b, at + 2 * i))
  }

  /** What fat_dir_next makes of a slot: the first byte decides before the attributes do.  FAT16 has no upper half of
      the cluster number. */
  function Decode(b: seq<byte>, wide: bool): (s: Slot)
    requires |b| == SLOT_SIZE
    ensures Sound(s)
  {
    if b[0] == 0 then Unused
    else if b[0] == 0xE5 then Deleted
    else if b[11] % 16 == ATTR_LONG_NAME then Long(b[0], b[13], Units(b, 1, 5) + Units(b, 14, 6) + Units(b, 28, 2))
    else if b[11] / ATTR_VOLUME_ID % 2 == 1 then Label
    else Short(b[..11], b[12], b[11], Get16(b, 26) + (if wide then 0x1_0000 * Get16(b, 20) else 0), Get32(b, 28))
  }

  // ------------------------------------------------- writing

  /** Characters, low byte first. */
  function Chars(u: seq<unit>): (b: seq<byte>)
    ensures |b| == 2 * |u|
  {
    seq(2 * |u|, k requires 0 <= k < 2 * |u| => if k % 2 == 0 then u[k / 2] % 0x100 else u[k / 2] / 0x100)
  }

  lemma CharAt(u: seq<unit>, i: nat)
    requires i < |u|
    ensures Chars(u)[2 * i] == u[i] % 0x100 && Chars(u)[2 * i + 1] == u[i] / 0x100
  {
    assert 2 * i / 2 == i && 2 * i % 2 == 0 && (2 * i + 1) / 2 == i && (2 * i + 1) % 2 == 1;
  }

  /** The times of an entry: seven bytes behind the flags, four before the lower half of the cluster number. */
  function ShortBytes(s: Slot, times: seq<byte>): (b: seq<byte>)
    requires s.Short? && Sound(s) && |times| == 11 && s.cluster < U32 && s.size < U32
    ensures |b| == SLOT_SIZE
  {
    s.raw + [s.attr, s.nt] + times[..7] + Put16(s.cluster / 0x1_0000) + times[7..] + Put16(s.cluster % 0x1_0000) +
    Put32(s.size)
  }

  function LongBytes(s: Slot): (b: seq<byte>)
    requires s.Long? && Sound(s)
    ensures |b| == SLOT_SIZE
  {
    [s.order] + Chars(s.chars[..5]) + [ATTR_LONG_NAME, 0, s.sum] + Chars(s.chars[5..11]) + [0, 0] + Chars(s.chars[11..])
  }

  /** An entry is read back exactly if its first byte and its attributes say that it is one. */
  lemma ShortRoundTrip(s: Slot, times: seq<byte>, wide: bool)
    requires s.Short? && Sound(s) && |times| == 11 && s.cluster < (if wide then U32 else 0x1_0000) && s.size < U32
    ensures Decode(ShortBytes(s, times), wide) == s <==> Listed(s.raw[0], s.attr)
  {
    var b := ShortBytes(s, times);
    assert b[..11] == s.raw && b[11] == s.attr && b[12] == s.nt;
    ShortFields(s, times);
    assert s.attr % 16 == ATTR_LONG_NAME ==> s.attr / ATTR_VOLUME_ID % 2 == 1;
  }

  lemma ShortFields(s: Slot, times: seq<byte>)
    requires s.Short? && Sound(s) && |times| == 11 && s.cluster < U32 && s.size < U32
    ensures var b := ShortBytes(s, times);
      Get16(b, 20) == s.cluster / 0x1_0000 && Get16(b, 26) == s.cluster % 0x1_0000 && Get32(b, 28) == s.size
  {
    var b := ShortBytes(s, times);
    assert b[20..22] == Put16(s.cluster / 0x1_0000) && b[26..28] == Put16(s.cluster % 0x1_0000);
    assert b[28..32] == Put32(s.size);
    Same16(b, 20);
    Same16(b, 26);
    Same16(b, 28);
    Same16(b, 30);
    assert b[28..32][..2] == b[28..30] && b[28..32][2..] == b[30..32];
  }

  lemma Same16(b: seq<byte>, at: nat)
    requires at + 2 <= |b|
    ensures Get16(b[at..at + 2], 0) == Get16(b, at)
  {
  }

  /** So is a part of a long name, unless its number is one of the two that mean a free slot. */
  lemma LongRoundTrip(s: Slot, wide: bool)
    requires s.Long? && Sound(s)
    ensures Decode(LongBytes(s), wide) == s <==> s.order != 0 && s.order != 0xE5
  {
    var b := LongBytes(s);
    var u, v, w := s.chars[..5], s.chars[5..11], s.chars[11..];
    assert b[1..11] == Chars(u) && b[14..26] == Chars(v) && b[28..] == Chars(w);
    UnitsOf(b, 1, u);
    UnitsOf(b, 14, v);
    UnitsOf(b, 28, w);
    assert u + v + w == s.chars;
  }

  lemma UnitsOf(b: seq<byte>, at: nat, u: seq<unit>)
    requires at + 2 * |u| <= |b| && b[at..at + 2 * |u|] == Chars(u)
    ensures Units(b, at, |u|) == u
  {
    forall i | 0 <= i < |u| ensures Units(b, at, |u|)[i] == u[i] {
      CharAt(u, i);
      UnitAt(Chars(u), b, at, u[i], i);
    }
  }

  lemma UnitAt(c: seq<byte>, b: seq<byte>, at: nat, v: unit, i: nat)
    requires at + |c| <= |b| && c == b[at..at + |c|] && 2 * i + 1 < |c|
    requires c[2 * i] == v % 0x100 && c[2 * i + 1] == v / 0x100
    ensures Get16(b, at + 2 * i) == v
  {
  }

  /** Every slot of a file's run is read back: those of its long name, and its entry if it is one to be listed. */
  lemma RunRoundTrip(it: Item, j: nat, wide: bool)
    requires it.File? && Intact(Fat(), it) && j < |it.blocks|
    ensures j < |it.run| && it.run[j].Long? && Sound(it.run[j]) && Decode(LongBytes(it.run[j]), wide) == it.run[j]
  {
    assert it.run[j] == LongSlot(it.blocks, Fat().sum(it.de.raw), j);
    LongRoundTrip(it.run[j], wide);
  }
}
