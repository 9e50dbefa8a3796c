/** kernel/block/part.c and the registration half of kernel/block/blockdev.c: which stretches of a
    disk become partitions, for every possible disk content. */
module Part {
  import opened Bytes
  import opened DivMod
  import opened Image

  const GPT_MAX_ENTRIES: nat := 128
  const GPT_ENTRY_SIZE: nat := 128

  type Sector = seq<byte>

  /** A 64-bit register. */
  type u64 = x: int | 0 <= x < 0x1_0000_0000_0000_0000

  function Get32(b: seq<byte>, at: nat): (r: u64)
    requires at + 4 <= |b|
    ensures r < U32
  {
    (b[at] as int) + 0x100 * (b[at + 1] as int) + 0x1_0000 * (b[at + 2] as int) + 0x100_0000 * (b[at + 3] as int)
  }

  function Get64(b: seq<byte>, at: nat): (r: u64)
    requires at + 8 <= |b|
  {
    Get32(b, at) + U32 * Get32(b, at + 4)
  }

  // ------------------------------------------------- extents

  /** struct accepted: both ends belong to it. */
  datatype Extent = Extent(first: u64, last: u64)

  /** A registered partition, or an entry of a partition table asking to be one. */
  datatype Partition = Partition(no: nat, start: u64, count: u64)

  ghost predicate Holds(p: Partition, lba: int) { p.start <= lba < p.start + p.count }

  /** Inside the disk, non-empty, and no sector in two of them. */
  ghost predicate Laid(parts: seq<Partition>, sectors: nat) {
    && (forall i :: 0 <= i < |parts| ==> parts[i].count > 0 && parts[i].start + parts[i].count <= sectors)
    && (forall i, j, lba :: 0 <= i < j < |parts| && Holds(parts[i], lba) ==> !Holds(parts[j], lba))
  }

  ghost predicate Apart(p: Partition, q: Partition) { p.start + p.count <= q.start || q.start + q.count <= p.start }

  /** The entry is a non-empty stretch of the disk, clear of each of the partitions. */
  ghost predicate Fits(parts: seq<Partition>, e: Partition, sectors: nat) {
    e.count > 0 && e.start + e.count <= sectors && forall i :: 0 <= i < |parts| ==> Apart(parts[i], e)
  }

  // ------------------------------------------------- what a table asks for

  ghost predicate AllTrue(granted: seq<bool>) { forall i :: 0 <= i < |granted| ==> granted[i] }

  /** The partitions a table's entries become: first come, first served, given the registry's answers. */
  ghost function Accepted(entries: seq<Partition>, granted: seq<bool>, sectors: nat): seq<Partition>
    requires |granted| == |entries|
  {
    if entries == [] then [] else
      var k := |entries| - 1;
      var before := Accepted(entries[..k], granted[..k], sectors);
      if Fits(before, entries[k], sectors) && granted[k] then before + [entries[k]] else before
  }

  /** Whatever the table says, the partitions lie inside the disk and apart. */
  lemma {:induction false} AcceptedLaid(entries: seq<Partition>, granted: seq<bool>, sectors: nat)
    requires |granted| == |entries|
    ensures Laid(Accepted(entries, granted, sectors), sectors)
  {
    if entries != [] {
      var k := |entries| - 1;
      AcceptedLaid(entries[..k], granted[..k], sectors);
    }
  }

  /** No partition is invented: each is an entry the registry granted. */
  lemma {:induction false} AcceptedFrom(entries: seq<Partition>, granted: seq<bool>, sectors: nat, p: Partition)
    returns (i: nat)
    requires |granted| == |entries| && p in Accepted(entries, granted, sectors)
    ensures i < |entries| && entries[i] == p && granted[i]
  {
    var k := |entries| - 1;
    var before := Accepted(entries[..k], granted[..k], sectors);
    if p in before {
      i := AcceptedFrom(entries[..k], granted[..k], sectors, p);
    } else {
      i := k;
    }
  }

  /** No entry is left out but an empty one, one that leaves the disk, one the registry refused, or one that
      meets a partition accepted from an entry before it. */
  lemma {:induction false} LeftOut(entries: seq<Partition>, granted: seq<bool>, sectors: nat, i: nat)
    requires |granted| == |entries| && i < |entries| && entries[i] !in Accepted(entries, granted, sectors)
    ensures
      || !granted[i] || entries[i].count == 0 || entries[i].start + entries[i].count > sectors
      || exists j :: 0 <= j < i && entries[j] in Accepted(entries, granted, sectors) && !Apart(entries[j], entries[i])
  {
    var k := |entries| - 1;
    var before := Accepted(entries[..k], granted[..k], sectors);
    assert forall p :: p in before ==> p in Accepted(entries, granted, sectors);
    if i < k {
      LeftOut(entries[..k], granted[..k], sectors, i);
    } else if granted[k] && entries[k].count > 0 && entries[k].start + entries[k].count <= sectors {
      var m :| 0 <= m < |before| && !Apart(before[m], entries[k]);
      var j := AcceptedFrom(entries[..k], granted[..k], sectors, before[m]);
      assert entries[j] == before[m];
    }
  }

  /** An entry of a GPT's array; an unused one, or one that ends before it starts, asks for nothing.
      The length wraps at 64 bits. */
  function GptDecode(e: seq<byte>, no: nat): Partition
    requires |e| == GPT_ENTRY_SIZE
  {
    var first, last := Get64(e, 32), Get64(e, 40);
    if (forall k :: 0 <= k < 16 ==> e[k] == 0) || last < first then Partition(no, first, 0)
    else Partition(no, first, (last as int - first as int + 1) % U64)
  }

  function GptEntry(ents: seq<byte>, i: nat): Partition
    requires (i + 1) * GPT_ENTRY_SIZE <= |ents|
  {
    GptDecode(ents[i * GPT_ENTRY_SIZE..(i + 1) * GPT_ENTRY_SIZE], i + 1)
  }

  ghost function GptEntries(ents: seq<byte>, n: nat): seq<Partition>
    requires n * GPT_ENTRY_SIZE <= |ents|
  {
    seq(n, i requires 0 <= i < n => GptEntry(ents, i))
  }

  /** An unused entry, and the types of extended partitions. */
  predicate SkippedType(kind: byte) { kind in {0, 0x05, 0x0F, 0x85} }

  /** Entry i of an MBR; an unused one and an extended partition ask for nothing. */
  function MbrEntry(sec: Sector, i: nat): Partition
    requires |sec| >= 512 && i < 4
  {
    var at := 446 + 16 * i;
    if SkippedType(sec[at + 4]) then Partition(i + 1, 0, 0)
    else Partition(i + 1, Get32(sec, at + 8), Get32(sec, at + 12))
  }

  ghost function MbrEntries(sec: Sector): seq<Partition>
    requires |sec| >= 512
  {
    [MbrEntry(sec, 0), MbrEntry(sec, 1), MbrEntry(sec, 2), MbrEntry(sec, 3)]
  }

  /** "EFI PART" */
  predicate Signed(b: seq<byte>) {
    |b| >= 8 && b[..8] == [0x45, 0x46, 0x49, 0x20, 0x50, 0x41, 0x52, 0x54]
  }

  predicate BootMark(sec: Sector) { |sec| >= 512 && sec[510] == 0x55 && sec[511] == 0xAA }

  predicate Protective(sec: Sector)
    requires |sec| >= 512
  {
    exists i :: 0 <= i < 4 && sec[446 + 16 * i + 4] == 0xEE
  }

  /** A boot sector whose four entries are entries: boot indicators 00 or 80, and no protective one. */
  predicate MbrUsable(sec: Sector) {
    && BootMark(sec) && !Protective(sec)
    && forall i :: 0 <= i < 4 ==> sec[446 + 16 * i] == 0x00 || sec[446 + 16 * i] == 0x80
  }

  class Scan {
    /** The disk being scanned: its sectors, and what crc32 computes. */
    const disk: seq<Sector>
    const ss: nat
    const crc: seq<byte> -> int
    var acc: seq<Extent>
    var parts: seq<Partition>
    /** How often the device failed a read that lies on the disk, and the registry a partition that fits. */
    ghost var failures: nat
    ghost var refusals: nat

    constructor (disk: seq<Sector>, ss: nat, crc: seq<byte> -> int)
      requires |disk| < U64 && Uniform(disk, ss) && ss >= 512
      ensures this.disk == disk && this.ss == ss && this.crc == crc && Valid() && parts == []
    {
      this.disk, this.ss, this.crc, acc, parts := disk, ss, crc, [], [];
      failures, refusals := 0, 0;
    }

    /** Every accepted extent has been registered under the same bounds. */
    ghost predicate Valid()
      reads this
    {
      && Sane() && |acc| == |parts|
      && (forall i :: 0 <= i < |acc| ==>
            acc[i].first == parts[i].start && acc[i].last == parts[i].start + parts[i].count - 1)
      && (forall i :: 0 <= i < |parts| ==> parts[i].count > 0)
    }

    ghost predicate Sane() { |disk| < U64 && Uniform(disk, ss) && ss >= 512 }

    /** blockdev_register_part: refuses what does not fit; may also lack a table slot or room for the name. */
    method Register(no: nat, start: u64, count: u64) returns (ok: bool)
      modifies this`parts, this`refusals
      ensures ok ==> count > 0 && start + count <= |disk| && parts == old(parts) + [Partition(no, start, count)]
      ensures !ok ==> parts == old(parts)
      ensures no > 0 && count > 0 && start + count <= |disk| ==> (ok <==> refusals == old(refusals))
      ensures refusals >= old(refusals)
    {
      if no == 0 || count == 0 || start >= |disk| || count > |disk| - start { return false; }
      ok := *;
      if ok { parts := parts + [Partition(no, start, count)]; } else { refusals := refusals + 1; }
    }

    /** accept: the entry becomes a partition exactly when it fits beside those before it and the registry
        grants it. */
    method Accept(no: nat, first: u64, count: u64) returns (ghost granted: bool)
      requires Valid() && no > 0
      modifies this`acc, this`parts, this`refusals
      ensures Valid() && refusals >= old(refusals) && (granted <==> refusals == old(refusals))
      ensures
        var e := Partition(no, first, count);
        parts == if Fits(old(parts), e, |disk|) && granted then old(parts) + [e] else old(parts)
    {
      granted := true;
      if count == 0 { return; }
      if first >= |disk| || count > |disk| - first { return; }
      var last: u64 := first + count - 1;
      for i := 0 to |acc|
        invariant forall j :: 0 <= j < i ==> Apart(parts[j], Partition(no, first, count))
      {
        if first <= acc[i].last && last >= acc[i].first { return; }
        assert Apart(parts[i], Partition(no, first, count));
      }
      var ok := Register(no, first, count);
      granted := ok;
      if ok { acc := acc + [Extent(first, last)]; }
    }

    // ----------------------------------------------- reading the tables

    /** blockdev_read: refuses to leave the disk, and may fail anywhere on it. */
    method ReadSectors(lba: nat, n: nat) returns (ok: bool, data: seq<byte>)
      requires n > 0
      modifies this`failures
      ensures ok ==> lba + n <= |disk| && data == Join(disk[lba..lba + n])
      ensures failures >= old(failures) && (ok || lba + n > |disk| <==> failures == old(failures))
    {
      if lba >= |disk| || n > |disk| - lba { data := *; return false, data; }
      ok := *;
      if !ok {
        failures := failures + 1;
        data := *;
        return false, data;
      }
      data := [];
      for i := 0 to n
        invariant data == Join(disk[lba..lba + i]) && failures == old(failures)
      {
        JoinConcat(disk[lba..lba + i], [disk[lba + i]]);
        assert disk[lba..lba + i + 1] == disk[lba..lba + i] + [disk[lba + i]];
        assert Join([disk[lba + i]]) == disk[lba + i] + Join([]);
        data := data + disk[lba + i];
      }
    }

    method ReadSector(lba: nat) returns (ok: bool, data: seq<byte>)
      modifies this`failures
      ensures ok ==> lba < |disk| && data == disk[lba]
      ensures failures >= old(failures) && (ok || lba >= |disk| <==> failures == old(failures))
    {
      ok, data := ReadSectors(lba, 1);
      assert ok ==> disk[lba..lba + 1] == [disk[lba]] && Join([disk[lba]]) == disk[lba] + Join([]);
    }

    /** The header's own checksum holds, over its own length with the checksum field zeroed. */
    predicate HeaderSound(hdr: Sector)
      requires |hdr| >= 512
    {
      var size := Get32(hdr, 12);
      Signed(hdr) && 92 <= size <= ss && size <= |hdr| &&
      crc((hdr[..16] + [0, 0, 0, 0] + hdr[20..])[..size]) == Get32(hdr, 16)
    }

    /** How many sectors the entry array takes. */
    function EntrySectors(n: nat): nat
      requires ss > 0
    {
      (n * GPT_ENTRY_SIZE + ss - 1) / ss
    }

    predicate ArrayFits(hdr: Sector)
      requires |hdr| >= 512 && ss > 0
    {
      var n, at := Get32(hdr, 80), Get64(hdr, 72);
      Get32(hdr, 84) == GPT_ENTRY_SIZE && 0 < n <= GPT_MAX_ENTRIES && at < |disk| && EntrySectors(n) <= |disk| - at
    }

    ghost function Array(hdr: Sector): seq<byte>
      requires |hdr| >= 512 && ss > 0 && ArrayFits(hdr)
    {
      Join(disk[Get64(hdr, 72)..Get64(hdr, 72) + EntrySectors(Get32(hdr, 80))])
    }

    lemma ArraySize(hdr: Sector)
      requires Sane() && |hdr| >= 512 && ArrayFits(hdr)
      ensures Get32(hdr, 80) * GPT_ENTRY_SIZE <= |Array(hdr)|
    {
      var n, at := Get32(hdr, 80), Get64(hdr, 72);
      var secs := EntrySectors(n);
      JoinSize(disk[at..at + secs], ss);
      DivSplit(n * GPT_ENTRY_SIZE + ss - 1, ss);
    }

    /** A sound GPT header at lba, with a sound entry array. */
    ghost predicate GptAt(lba: nat) {
      Sane() && 0 < lba < |disk| && GptIn(disk[lba])
    }

    ghost predicate GptIn(hdr: Sector)
      requires Sane() && |hdr| >= 512
    {
      HeaderSound(hdr) && ArrayFits(hdr) && ArraySound(hdr)
    }

    ghost predicate ArraySound(hdr: Sector)
      requires Sane() && |hdr| >= 512 && ArrayFits(hdr)
    {
      ArraySize(hdr);
      crc(Array(hdr)[..Get32(hdr, 80) * GPT_ENTRY_SIZE]) == Get32(hdr, 88)
    }

    ghost function GptTable(lba: nat): seq<Partition>
      requires GptAt(lba)
    {
      ArraySize(disk[lba]);
      GptEntries(Array(disk[lba]), Get32(disk[lba], 80))
    }

    /** gpt_load: a header and its entry array are taken if and only if both checksums hold. */
    method GptLoad(lba: nat) returns (ok: bool, hdr: seq<byte>, ents: seq<byte>)
      requires Sane()
      modifies this`failures
      ensures failures >= old(failures)
      ensures ok ==> GptAt(lba) && hdr == disk[lba] && ents == Array(hdr)
      ensures !ok && failures == old(failures) ==> !GptAt(lba) && (0 < lba < |disk| ==> hdr == disk[lba])
    {
      hdr, ents := [], [];
      if lba == 0 || lba >= |disk| { return false, hdr, ents; }
      ok, hdr := ReadSector(lba);
      if !ok { return false, hdr, ents; }
      if !HeaderSound(hdr) || !ArrayFits(hdr) { return false, hdr, ents; }
      ok, ents := LoadArray(hdr);
    }

    method LoadArray(hdr: Sector) returns (ok: bool, ents: seq<byte>)
      requires Sane() && |hdr| >= 512 && ArrayFits(hdr)
      modifies this`failures
      ensures failures >= old(failures)
      ensures ok ==> ents == Array(hdr) && ArraySound(hdr)
      ensures !ok && failures == old(failures) ==> !ArraySound(hdr)
    {
      var n, at := Get32(hdr, 80), Get64(hdr, 72);
      ArraySize(hdr);
      SomeSectors(n);
      ok, ents := ReadSectors(at, EntrySectors(n));
      if ok { ok := crc(ents[..n * GPT_ENTRY_SIZE]) == Get32(hdr, 88); }
    }

    lemma SomeSectors(n: nat)
      requires n > 0 && ss > 0
      ensures EntrySectors(n) > 0
    {
      DivSplit(n * GPT_ENTRY_SIZE + ss - 1, ss);
    }

    /** One turn of either loop: an entry the loop skips asks for nothing. */
    method ScanOne(e: Partition, skip: bool, ghost entries: seq<Partition>, ghost i: nat, ghost before: seq<bool>)
      returns (ghost granted: seq<bool>)
      requires Valid() && i < |entries| && entries[i] == e && e.no > 0 && (skip ==> e.count == 0)
      requires |before| == i && parts == Accepted(entries[..i], before, |disk|)
      modifies this`acc, this`parts, this`refusals
      ensures Valid() && |granted| == i + 1 && parts == Accepted(entries[..i + 1], granted, |disk|)
      ensures refusals >= old(refusals)
      ensures refusals == old(refusals) && AllTrue(before) ==> AllTrue(granted)
    {
      ghost var g := true;
      if !skip { g := Accept(e.no, e.start, e.count); }
      granted := before + [g];
      assert granted[..i] == before;
      AcceptedNext(entries, granted, |disk|, i);
    }

    /** scan_gpt's loop over the entries. */
    method ScanEntries(ents: seq<byte>, n: nat) returns (ghost granted: seq<bool>)
      requires Valid() && n * GPT_ENTRY_SIZE <= |ents| && parts == []
      modifies this`acc, this`parts, this`refusals
      ensures Valid() && |granted| == n && parts == Accepted(GptEntries(ents, n), granted, |disk|)
      ensures refusals >= old(refusals) && (refusals == old(refusals) ==> AllTrue(granted))
    {
      ghost var entries := GptEntries(ents, n);
      granted := [];
      for i := 0 to n
        invariant Valid() && |granted| == i && parts == Accepted(entries[..i], granted, |disk|)
        invariant refusals >= old(refusals) && (refusals == old(refusals) ==> AllTrue(granted))
      {
        var e := GptEntry(ents, i);
        granted := ScanOne(e, e.count == 0, entries, i, granted);
      }
      assert entries[..n] == entries;
    }

    /** Where scan_gpt looks when the primary header fails: where that header says, if it looks like one. */
    function Backup(hdr: seq<byte>): nat
      requires |disk| > 0
    {
      if |hdr| >= 40 && hdr[..3] == [0x45, 0x46, 0x49] && 1 < Get64(hdr, 32) < |disk| then Get64(hdr, 32)
      else |disk| - 1
    }

    ghost predicate HasGpt() {
      |disk| > 1 && (GptAt(1) || GptAt(Backup(disk[1])))
    }

    ghost function TheGpt(): seq<Partition>
      requires HasGpt()
    {
      if GptAt(1) then GptTable(1) else GptTable(Backup(disk[1]))
    }

    method ScanGpt() returns (found: bool, ghost granted: seq<bool>)
      requires Valid() && |disk| > 1 && parts == []
      modifies this
      ensures Valid() && (!found ==> parts == []) && failures >= old(failures) && refusals >= old(refusals)
      ensures refusals == old(refusals) ==> AllTrue(granted)
      ensures failures == old(failures) ==> (found <==> HasGpt())
      ensures failures == old(failures) && found ==>
        |granted| == |TheGpt()| && parts == Accepted(TheGpt(), granted, |disk|)
      ensures Laid(parts, |disk|)
    {
      var hdr, ents;
      granted := [];
      found, hdr, ents := GptLoad(1);
      if !found { found, hdr, ents := GptLoad(Backup(hdr)); }
      if found {
        ArraySize(hdr);
        granted := ScanEntries(ents, Get32(hdr, 80));
        AcceptedLaid(GptEntries(ents, Get32(hdr, 80)), granted, |disk|);
      }
    }

    method ScanMbr() returns (ghost granted: seq<bool>)
      requires Valid() && parts == []
      modifies this
      ensures Valid() && failures >= old(failures) && refusals >= old(refusals)
      ensures refusals == old(refusals) ==> AllTrue(granted)
      ensures failures == old(failures) && |disk| > 0 && MbrUsable(disk[0]) ==>
        |granted| == 4 && parts == Accepted(MbrEntries(disk[0]), granted, |disk|)
      ensures failures == old(failures) && !(|disk| > 0 && MbrUsable(disk[0])) ==> parts == []
      ensures Laid(parts, |disk|)
    {
      var ok, sec;
      granted := [];
      ok, sec := ReadSector(0);
      if !ok || !BootMark(sec) { return granted; }
      if exists i :: 0 <= i < 4 && sec[446 + 16 * i] != 0x00 && sec[446 + 16 * i] != 0x80 { return; }
      if Protective(sec) { return; }
      granted := ScanSlots(sec);
    }

    /** scan_mbr's loop over the entries. */
    method ScanSlots(sec: Sector) returns (ghost granted: seq<bool>)
      requires Valid() && |sec| >= 512 && parts == []
      modifies this`acc, this`parts, this`refusals
      ensures Valid() && |granted| == 4 && parts == Accepted(MbrEntries(sec), granted, |disk|) && Laid(parts, |disk|)
      ensures refusals >= old(refusals) && (refusals == old(refusals) ==> AllTrue(granted))
    {
      ghost var entries := MbrEntries(sec);
      granted := [];
      for i := 0 to 4
        invariant Valid() && |granted| == i && parts == Accepted(entries[..i], granted, |disk|)
        invariant refusals >= old(refusals) && (refusals == old(refusals) ==> AllTrue(granted))
      {
        var e := MbrEntry(sec, i);
        granted := ScanOne(e, SkippedType(sec[446 + 16 * i + 4]), entries, i, granted);
      }
      assert entries[..4] == entries;
      AcceptedLaid(entries, granted, |disk|);
    }

    ghost predicate Expected() {
      && |disk| > 1 && |disk[0]| >= 512
      && ((BootMark(disk[0]) && Protective(disk[0])) || Signed(disk[1]))
    }

    /** gpt_expected: a protective MBR, or a signature at sector 1. */
    method GptExpected() returns (yes: bool)
      requires Sane() && |disk| > 1
      modifies this`failures
      ensures failures >= old(failures) && (failures == old(failures) ==> yes == Expected())
    {
      var ok, sec := ReadSector(0);
      if ok && BootMark(sec) && Protective(sec) { return true; }
      ok, sec := ReadSector(1);
      yes := ok && Signed(sec);
    }

    /** The entries a disk offers: those of its GPT if one is expected and found, else those of a usable MBR. */
    ghost function Offered(): seq<Partition> {
      if |disk| >= 3 && Expected() && HasGpt() then TheGpt()
      else if |disk| > 0 && MbrUsable(disk[0]) then MbrEntries(disk[0])
      else []
    }

    /** part_scan of a disk just registered: whatever it holds, the partitions lie inside it and apart, and if no
        read fails they are exactly those its tables ask for and the registry grants. */
    method PartScan() returns (ghost granted: seq<bool>)
      requires Valid() && parts == []
      modifies this
      ensures Valid() && Laid(parts, |disk|) && failures >= old(failures) && refusals >= old(refusals)
      ensures refusals == old(refusals) ==> AllTrue(granted)
      ensures failures == old(failures) ==>
        |granted| == |Offered()| && parts == Accepted(Offered(), granted, |disk|)
    {
      granted := [];
      if |disk| >= 3 {
        var expected := GptExpected();
        if expected {
          var found;
          found, granted := ScanGpt();
          if found { return; }
        }
      }
      granted := ScanMbr();
      if !(|disk| > 0 && MbrUsable(disk[0])) { granted := []; }
    }
  }

  /** One more entry: the step of both scans. */
  lemma AcceptedNext(entries: seq<Partition>, granted: seq<bool>, sectors: nat, i: nat)
    requires i < |entries| && |granted| == i + 1
    ensures
      var before := Accepted(entries[..i], granted[..i], sectors);
      Accepted(entries[..i + 1], granted, sectors) ==
        if Fits(before, entries[i], sectors) && granted[i] then before + [entries[i]] else before
  {
    assert entries[..i + 1][..i] == entries[..i];
  }

  // ------------------------------------------------- input and output through a partition

  /** in_range and the translation of part_read and part_write never leave the partition, nor the
      64-bit range. */
  lemma TranslationFits(parts: seq<Partition>, sectors: nat, i: nat, lba: u64, count: nat)
    requires Laid(parts, sectors) && sectors < U64 && i < |parts|
    requires lba < parts[i].count && count <= parts[i].count - lba
    ensures parts[i].start + lba + count <= sectors && parts[i].start + lba + count < U64
    ensures forall x :: parts[i].start + lba <= x < parts[i].start + lba + count ==> Holds(parts[i], x)
  {
  }

  /** A write through one partition leaves every sector of every other one alone. */
  lemma WriteIsolated(parts: seq<Partition>, disk: seq<Sector>, disk': seq<Sector>, i: nat, j: nat, lba: u64,
                      count: nat)
    requires Laid(parts, |disk|) && |disk| == |disk'| < U64 && i < |parts| && j < |parts| && i != j
    requires lba < parts[i].count && count <= parts[i].count - lba
    requires forall x :: 0 <= x < |disk| && !(parts[i].start + lba <= x < parts[i].start + lba + count) ==>
      disk'[x] == disk[x]
    ensures forall x :: Holds(parts[j], x) ==> 0 <= x < |disk| && disk'[x] == disk[x]
  {
    forall x | Holds(parts[j], x) ensures 0 <= x < |disk| && disk'[x] == disk[x] {
      assert !Holds(parts[i], x);
    }
  }
}
