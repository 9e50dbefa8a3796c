/** What kernel/block/part.c reads, from the side that writes it: partition tables laid out byte by byte. */
module PartFormat {
  import opened Bytes
  import opened DivMod
  import opened Image
  import opened Part

  /** Little-endian digits. */
  function Put32(v: nat): (b: seq<byte>)
    requires v < U32
    ensures |b| == 4
  {
    [v % 256, v / 256 % 256, v / 256 / 256 % 256, v / 256 / 256 / 256]
  }

  function Put64(v: nat): (b: seq<byte>)
    requires v < U64
    ensures |b| == 8
  {
    Put32(v % U32) + Put32(v / U32)
  }

  lemma Digits(v: nat)
    requires v < U32
    ensures Get32(Put32(v), 0) == v
  {
    var a := v / 0x100;
    var b := a / 0x100;
    assert v == 0x100 * a + v % 256;
    assert a == 0x100 * b + a % 256;
    assert b == 0x100 * (b / 0x100) + b % 256;
  }

  /** A number laid down behind `pre` is read back there. */
  lemma Read32(b: seq<byte>, pre: seq<byte>, v: nat, post: seq<byte>)
    requires v < U32 && b == pre + Put32(v) + post
    ensures Get32(b, |pre|) == v
  {
    Digits(v);
    var d := Put32(v);
    Same32(b, |pre|, d);
  }

  lemma Same32(b: seq<byte>, at: nat, d: seq<byte>)
    requires |d| == 4 && at + 4 <= |b| && b[at..at + 4] == d
    ensures Get32(b, at) == Get32(d, 0)
  {
    assert b[at] == d[0] && b[at + 1] == d[1] && b[at + 2] == d[2] && b[at + 3] == d[3];
  }

  lemma Read64(b: seq<byte>, pre: seq<byte>, v: nat, post: seq<byte>)
    requires v < U64 && b == pre + Put64(v) + post
    ensures Get64(b, |pre|) == v
  {
    var lo, hi := v % U32, v / U32;
    Read32(b, pre, lo, Put32(hi) + post) by { assert b == pre + Put32(lo) + (Put32(hi) + post); }
    Read32(b, pre + Put32(lo), hi, post) by { assert b == pre + Put32(lo) + Put32(hi) + post; }
  }

  // ------------------------------------------------- the four entries of an MBR

  /** One entry: boot indicator, type, first sector and number of sectors, and six bytes of cylinder addresses. */
  datatype Slot = Slot(boot: byte, kind: byte, start: nat, count: nat, chs: seq<byte>)

  ghost predicate SlotOk(s: Slot) { s.start < U32 && s.count < U32 && |s.chs| == 6 }

  function SlotBytes(s: Slot): (b: seq<byte>)
    requires SlotOk(s)
    ensures |b| == 16
  {
    [s.boot] + s.chs[..3] + [s.kind] + s.chs[3..] + Put32(s.start) + Put32(s.count)
  }

  ghost predicate MbrOk(code: seq<byte>, slots: seq<Slot>) {
    |code| == 446 && |slots| == 4 && forall i :: 0 <= i < 4 ==> SlotOk(slots[i])
  }

  /** Boot code, four entries, and the mark at the end of the first 512 bytes. */
  ghost function MbrBytes(code: seq<byte>, slots: seq<Slot>, rest: seq<byte>): (b: seq<byte>)
    requires MbrOk(code, slots)
  {
    code + SlotBytes(slots[0]) + SlotBytes(slots[1]) + SlotBytes(slots[2]) + SlotBytes(slots[3]) + [0x55, 0xAA] + rest
  }

  /** What an entry asks for; empty and extended ones ask for nothing. */
  ghost function SlotAsks(s: Slot, no: nat): Partition
    requires SlotOk(s)
  {
    if s.kind == 0 || s.kind == 5 || s.kind == 15 || s.kind == 133 then Partition(no, 0, 0)
    else Partition(no, s.start, s.count)
  }

  ghost function SlotsAsk(slots: seq<Slot>): seq<Partition>
    requires |slots| == 4 && forall i :: 0 <= i < 4 ==> SlotOk(slots[i])
  {
    [SlotAsks(slots[0], 1), SlotAsks(slots[1], 2), SlotAsks(slots[2], 3), SlotAsks(slots[3], 4)]
  }

  lemma SlotAt(b: seq<byte>, pre: seq<byte>, s: Slot, post: seq<byte>)
    requires SlotOk(s) && b == pre + SlotBytes(s) + post
    ensures b[|pre|] == s.boot && b[|pre| + 4] == s.kind
    ensures Get32(b, |pre| + 8) == s.start && Get32(b, |pre| + 12) == s.count
  {
    var head := [s.boot] + s.chs[..3] + [s.kind] + s.chs[3..];
    Read32(b, pre + head, s.start, Put32(s.count) + post) by {
      assert b == pre + head + Put32(s.start) + (Put32(s.count) + post);
    }
    Read32(b, pre + head + Put32(s.start), s.count, post) by {
      assert b == pre + head + Put32(s.start) + Put32(s.count) + post;
    }
    assert b[|pre|] == head[0] && b[|pre| + 4] == head[4];
  }

  lemma MbrSlot(code: seq<byte>, slots: seq<Slot>, rest: seq<byte>, i: nat)
    requires MbrOk(code, slots) && i < 4
    ensures
      var b, at := MbrBytes(code, slots, rest), 446 + 16 * i;
      && |b| >= 512 && b[at] == slots[i].boot && b[at + 4] == slots[i].kind
      && Get32(b, at + 8) == slots[i].start && Get32(b, at + 12) == slots[i].count
  {
    var b := MbrBytes(code, slots, rest);
    var s0, s1, s2, s3 := SlotBytes(slots[0]), SlotBytes(slots[1]), SlotBytes(slots[2]), SlotBytes(slots[3]);
    var mark := [0x55, 0xAA] + rest;
    if i == 0 {
      SlotAt(b, code, slots[0], s1 + s2 + s3 + mark);
    } else if i == 1 {
      SlotAt(b, code + s0, slots[1], s2 + s3 + mark);
    } else if i == 2 {
      SlotAt(b, code + s0 + s1, slots[2], s3 + mark);
    } else {
      SlotAt(b, code + s0 + s1 + s2, slots[3], mark);
    }
  }

  lemma MbrMarked(code: seq<byte>, slots: seq<Slot>, rest: seq<byte>)
    requires MbrOk(code, slots)
    ensures BootMark(MbrBytes(code, slots, rest))
  {
  }

  lemma MbrAsks(code: seq<byte>, slots: seq<Slot>, rest: seq<byte>, i: nat)
    requires MbrOk(code, slots) && i < 4
    ensures
      var b := MbrBytes(code, slots, rest);
      |b| >= 512 && |MbrEntries(b)| == 4 && MbrEntries(b)[i] == MbrEntry(b, i) == SlotAsks(slots[i], i + 1)
  {
    MbrSlot(code, slots, rest, i);
  }

  /** An MBR is read exactly if each boot indicator is 00 or 80 and no entry is a protective one. */
  lemma MbrReadable(code: seq<byte>, slots: seq<Slot>, rest: seq<byte>)
    requires MbrOk(code, slots)
    ensures
      var b := MbrBytes(code, slots, rest);
      && BootMark(b) && (Protective(b) <==> exists i :: 0 <= i < 4 && slots[i].kind == 0xEE)
      && (MbrUsable(b) <==>
            forall i :: 0 <= i < 4 ==> (slots[i].boot == 0 || slots[i].boot == 0x80) && slots[i].kind != 0xEE)
  {
    MbrMarked(code, slots, rest);
    MbrSlot(code, slots, rest, 0);
    MbrSlot(code, slots, rest, 1);
    MbrSlot(code, slots, rest, 2);
    MbrSlot(code, slots, rest, 3);
    Readable(MbrBytes(code, slots, rest), slots);
  }

  lemma Readable(b: seq<byte>, slots: seq<Slot>)
    requires |slots| == 4 && BootMark(b)
    requires b[446] == slots[0].boot && b[462] == slots[1].boot && b[478] == slots[2].boot && b[494] == slots[3].boot
    requires b[450] == slots[0].kind && b[466] == slots[1].kind && b[482] == slots[2].kind && b[498] == slots[3].kind
    ensures Protective(b) <==> exists i :: 0 <= i < 4 && slots[i].kind == 0xEE
    ensures MbrUsable(b) <==>
      forall i :: 0 <= i < 4 ==> (slots[i].boot == 0 || slots[i].boot == 0x80) && slots[i].kind != 0xEE
  {
    forall i | 0 <= i < 4 ensures b[446 + 16 * i] == slots[i].boot && b[446 + 16 * i + 4] == slots[i].kind {}
  }

  // ------------------------------------------------- a GPT

  /** An entry of the array: type and own identifier, first and last sector, attributes and name. */
  datatype Entry = Entry(kind: seq<byte>, id: seq<byte>, first: nat, last: nat, name: seq<byte>)

  ghost predicate EntryOk(e: Entry) {
    |e.kind| == 16 && |e.id| == 16 && e.first < U64 && e.last < U64 && |e.name| == 80
  }

  function EntryBytes(e: Entry): (b: seq<byte>)
    requires EntryOk(e)
    ensures |b| == 128
  {
    e.kind + e.id + Put64(e.first) + Put64(e.last) + e.name
  }

  /** What an entry asks for: its sectors from first to last; an unused one or one that ends before it starts, none.
      The length of one over all of 2^64 sectors is 0. */
  ghost function EntryAsks(e: Entry, no: nat): Partition
    requires EntryOk(e)
  {
    if e.kind == Zeros16() || e.last < e.first then Partition(no, e.first, 0)
    else if e.last - e.first == U64 - 1 then Partition(no, e.first, 0)
    else Partition(no, e.first, e.last - e.first + 1)
  }

  ghost function Zeros16(): seq<byte> { [0, 0, 0, 0, 0, 0, 0, 0, 0, 0, 0, 0, 0, 0, 0, 0] }

  lemma EntryFields(e: Entry)
    requires EntryOk(e)
    ensures Get64(EntryBytes(e), 32) == e.first && Get64(EntryBytes(e), 40) == e.last
    ensures (forall k :: 0 <= k < 16 ==> EntryBytes(e)[k] == 0) <==> e.kind == Zeros16()
  {
    var c := EntryBytes(e);
    Read64(c, e.kind + e.id, e.first, Put64(e.last) + e.name) by {
      assert c == e.kind + e.id + Put64(e.first) + (Put64(e.last) + e.name);
    }
    Read64(c, e.kind + e.id + Put64(e.first), e.last, e.name);
    assert forall k :: 0 <= k < 16 ==> c[k] == e.kind[k];
  }

  lemma EntryRoundTrip(e: Entry, no: nat)
    requires EntryOk(e)
    ensures GptDecode(EntryBytes(e), no) == EntryAsks(e, no)
  {
    EntryFields(e);
  }

  ghost predicate EntriesOk(es: seq<Entry>) { forall i :: 0 <= i < |es| ==> EntryOk(es[i]) }

  ghost function EntriesBytes(es: seq<Entry>): (b: seq<byte>)
    requires EntriesOk(es)
    ensures |b| == |es| * GPT_ENTRY_SIZE
  {
    if es == [] then [] else EntriesBytes(es[..|es| - 1]) + EntryBytes(es[|es| - 1])
  }

  lemma {:induction false} EntriesAt(es: seq<Entry>, i: nat)
    requires EntriesOk(es) && i < |es|
    ensures (i + 1) * GPT_ENTRY_SIZE <= |EntriesBytes(es)|
    ensures EntriesBytes(es)[i * GPT_ENTRY_SIZE..(i + 1) * GPT_ENTRY_SIZE] == EntryBytes(es[i])
  {
    var k := |es| - 1;
    if i < k {
      EntriesAt(es[..k], i);
      assert EntriesBytes(es)[i * GPT_ENTRY_SIZE..(i + 1) * GPT_ENTRY_SIZE] ==
             EntriesBytes(es[..k])[i * GPT_ENTRY_SIZE..(i + 1) * GPT_ENTRY_SIZE];
    }
  }

  /** A header: where its array and the other header are, how long it and the array are, and what fills the gaps. */
  datatype Header = Header(size: nat, alt: nat, at: nat, n: nat, sum: nat, rev: seq<byte>, own: seq<byte>,
                           ids: seq<byte>, rest: seq<byte>)

  ghost predicate HeaderOk(h: Header) {
    && h.size < U32 && h.alt < U64 && h.at < U64 && h.n < U32 && h.sum < U32
    && |h.rev| == 4 && |h.own| == 12 && |h.ids| == 32 && |h.rest| >= 512 - 92
  }

  /** "EFI PART" */
  ghost function Magic(): (b: seq<byte>)
    ensures |b| == 8
  {
    seq(8, i requires 0 <= i < 8 => "EFI PART"[i] as int)
  }

  /** Bytes 0 to 15 and bytes 20 on; between them stands the checksum. */
  ghost function Before(h: Header): (b: seq<byte>)
    requires HeaderOk(h)
    ensures |b| == 16
  {
    Magic() + h.rev + Put32(h.size)
  }

  ghost function Behind(h: Header): (b: seq<byte>)
    requires HeaderOk(h)
    ensures |b| >= 492
  {
    h.own + Put64(h.alt) + h.ids + Put64(h.at) + Put32(h.n) + Put32(GPT_ENTRY_SIZE) + Put32(h.sum) + h.rest
  }

  ghost function HeaderBytes(h: Header, crc: nat): (b: seq<byte>)
    requires HeaderOk(h) && crc < U32
    ensures |b| >= 512
  {
    Before(h) + Put32(crc) + Behind(h)
  }

  /** What the code reads of a header. */
  ghost predicate Fields(b: seq<byte>, h: Header, crc: nat) {
    ( && |b| >= 512 && Signed(b) && Get32(b, 12) == h.size && Get32(b, 16) == crc && Get64(b, 32) == h.alt
      && Get64(b, 72) == h.at && Get32(b, 80) == h.n && Get32(b, 84) == 128 && Get32(b, 88) == h.sum) == true
  }

  lemma HeaderFields(h: Header, crc: nat)
    requires HeaderOk(h) && crc < U32
    ensures Fields(HeaderBytes(h, crc), h, crc)
  {
    assert HeaderBytes(h, crc)[..8] == Magic();
    assert Magic() == [0x45, 0x46, 0x49, 0x20, 0x50, 0x41, 0x52, 0x54];
    var b := HeaderBytes(h, crc);
    var p12 := Magic() + h.rev;
    Read32(b, p12, h.size, Put32(crc) + Behind(h));
    Read32(b, Before(h), crc, Behind(h));
    var p32 := Before(h) + Put32(crc) + h.own;
    BehindFields(b, p32, h);
  }

  lemma BehindFields(b: seq<byte>, p32: seq<byte>, h: Header)
    requires HeaderOk(h) && |p32| == 32 && p32[20..] == h.own && b == p32[..20] + Behind(h)
    ensures Get64(b, 32) == h.alt && Get64(b, 72) == h.at
    ensures Get32(b, 80) == h.n && Get32(b, 84) == GPT_ENTRY_SIZE && Get32(b, 88) == h.sum
  {
    var s3 := Put32(h.sum) + h.rest;
    var s2 := Put32(GPT_ENTRY_SIZE) + s3;
    var s1 := Put32(h.n) + s2;
    var s0 := h.ids + (Put64(h.at) + s1);
    assert b == p32 + Put64(h.alt) + s0;
    Read64(b, p32, h.alt, s0);
    var p72 := p32 + Put64(h.alt) + h.ids;
    assert b == p72 + Put64(h.at) + s1;
    Read64(b, p72, h.at, s1);
    var p80 := p72 + Put64(h.at);
    assert b == p80 + Put32(h.n) + s2;
    Read32(b, p80, h.n, s2);
    var p84 := p80 + Put32(h.n);
    assert b == p84 + Put32(GPT_ENTRY_SIZE) + s3;
    Read32(b, p84, GPT_ENTRY_SIZE, s3);
    var p88 := p84 + Put32(GPT_ENTRY_SIZE);
    assert b == p88 + Put32(h.sum) + h.rest;
    Read32(b, p88, h.sum, h.rest);
  }

  // ------------------------------------------------- tables on a disk

  ghost function Asks(es: seq<Entry>): seq<Partition>
    requires EntriesOk(es)
  {
    seq(|es|, i requires 0 <= i < |es| => EntryAsks(es[i], i + 1))
  }

  /** A header with its own checksum at sector lba, and where it says, with the checksum it says, the entries. */
  ghost predicate GptWritten(scan: Scan, lba: nat, h: Header, es: seq<Entry>, secs: nat) {
    && scan.Sane() && HeaderOk(h) && EntriesOk(es) && 0 < |es| <= 128 && h.n == |es|
    && 0 < lba < |scan.disk| && 92 <= h.size <= scan.ss && h.size <= |HeaderBytes(h, 0)|
    && (secs - 1) * scan.ss < |es| * 128 <= secs * scan.ss && h.at + secs <= |scan.disk|
    && EntriesBytes(es) <= Join(scan.disk[h.at..h.at + secs]) && h.sum == scan.crc(EntriesBytes(es))
    && var c := scan.crc(HeaderBytes(h, 0)[..h.size]);
    0 <= c < U32 && scan.disk[lba] == HeaderBytes(h, c)
  }

  /** The header with its checksum zeroed, as the code computes it. */
  lemma HeaderZeroed(h: Header, crc: nat)
    requires HeaderOk(h) && crc < U32
    ensures var b := HeaderBytes(h, crc); b[..16] + [0, 0, 0, 0] + b[20..] == HeaderBytes(h, 0)
  {
    assert Put32(0) == [0, 0, 0, 0];
    Around(Before(h), Put32(crc), Behind(h));
  }

  lemma Around(pre: seq<byte>, mid: seq<byte>, post: seq<byte>)
    requires |pre| == 16 && |mid| == 4
    ensures var b := pre + mid + post; b[..16] == pre && b[20..] == post
  {
  }

  lemma HeaderReads(scan: Scan, b: seq<byte>, h: Header, zeroed: seq<byte>, crc: nat)
    requires Fields(b, h, crc) && b[..16] + [0, 0, 0, 0] + b[20..] == zeroed
    requires 92 <= h.size <= scan.ss && h.size <= |b| && crc == scan.crc(zeroed[..h.size])
    ensures scan.HeaderSound(b)
  {
  }

  lemma ArrayReads(scan: Scan, b: seq<byte>, h: Header, crc: nat, es: seq<byte>, secs: nat)
    requires scan.Sane() && Fields(b, h, crc) && 0 < h.n <= 128 && |es| == h.n * 128
    requires (secs - 1) * scan.ss < h.n * 128 <= secs * scan.ss && h.at + secs <= |scan.disk|
    requires es <= Join(scan.disk[h.at..h.at + secs]) && h.sum == scan.crc(es)
    ensures |b| >= 512 && scan.ArrayFits(b) && es <= scan.Array(b) && scan.ArraySound(b)
  {
    CeilingIs(h.n * 128, scan.ss, secs);
    SecsSome(h.n, scan.ss, secs);
    assert scan.Array(b)[..|es|] == es;
  }

  lemma SecsSome(n: nat, ss: nat, secs: nat)
    requires n > 0 && n * 128 <= secs * ss
    ensures secs > 0
  {
  }

  lemma CeilingIs(x: nat, d: nat, q: nat)
    requires d > 0 && (q - 1) * d < x <= q * d
    ensures (x + d - 1) / d == q
  {
    assert (q - 1) * d == q * d - d;
    DivUnique(x + d - 1, d, q, x + d - 1 - q * d);
  }

  /** A GPT written at a sector is found there, and offers exactly the entries written. */
  lemma GptRoundTrip(scan: Scan, lba: nat, h: Header, es: seq<Entry>, secs: nat)
    requires GptWritten(scan, lba, h, es, secs)
    ensures scan.GptAt(lba) && scan.GptTable(lba) == Asks(es) && Signed(scan.disk[lba])
  {
    var c := scan.crc(HeaderBytes(h, 0)[..h.size]);
    HeaderFields(h, c);
    HeaderZeroed(h, c);
    GptReads(scan, lba, h, c, es, secs, HeaderBytes(h, 0));
  }

  lemma GptReads(scan: Scan, lba: nat, h: Header, crc: nat, es: seq<Entry>, secs: nat, zeroed: seq<byte>)
    requires scan.Sane() && 0 < lba < |scan.disk| && Fields(scan.disk[lba], h, crc)
    requires 92 <= h.size <= scan.ss && crc == scan.crc(if h.size <= |zeroed| then zeroed[..h.size] else [])
    requires h.size <= |zeroed| && var b := scan.disk[lba]; b[..16] + [0, 0, 0, 0] + b[20..] == zeroed
    requires EntriesOk(es) && 0 < |es| <= 128 && h.n == |es|
    requires (secs - 1) * scan.ss < |es| * 128 <= secs * scan.ss && h.at + secs <= |scan.disk|
    requires EntriesBytes(es) <= Join(scan.disk[h.at..h.at + secs]) && h.sum == scan.crc(EntriesBytes(es))
    ensures scan.GptAt(lba) && scan.GptTable(lba) == Asks(es) && Signed(scan.disk[lba])
  {
    var b := scan.disk[lba];
    HeaderReads(scan, b, h, zeroed, crc);
    ArrayReads(scan, b, h, crc, EntriesBytes(es), secs);
    TableReads(scan.Array(b), es);
  }

  lemma {:induction false} TableReads(a: seq<byte>, es: seq<Entry>)
    requires EntriesOk(es) && EntriesBytes(es) <= a
    ensures |es| * GPT_ENTRY_SIZE <= |a| && GptEntries(a, |es|) == Asks(es)
  {
    var x, y := GptEntries(a, |es|), Asks(es);
    forall i | 0 <= i < |es| ensures x[i] == y[i] { TableReadAt(a, es, i, x, y); }
  }

  lemma {:induction false} TableReadAt(a: seq<byte>, es: seq<Entry>, i: nat, x: seq<Partition>, y: seq<Partition>)
    requires EntriesOk(es) && EntriesBytes(es) <= a && i < |es| && x == GptEntries(a, |es|) && y == Asks(es)
    ensures x[i] == y[i]
  {
    var lo, hi := i * GPT_ENTRY_SIZE, (i + 1) * GPT_ENTRY_SIZE;
    EntriesAt(es, i);
    PrefixSlice(EntriesBytes(es), a, lo, hi);
    EntryRoundTrip(es[i], i + 1);
    assert a[lo..hi] == EntryBytes(es[i]);
  }

  lemma PrefixSlice(p: seq<byte>, b: seq<byte>, i: nat, j: nat)
    requires p <= b && i <= j <= |p|
    ensures b[i..j] == p[i..j]
  {
  }

  /** The disk offers what its primary GPT holds. */
  lemma PrimaryOffered(scan: Scan, h: Header, es: seq<Entry>, secs: nat)
    requires GptWritten(scan, 1, h, es, secs) && |scan.disk| >= 3
    ensures scan.Offered() == Asks(es)
  {
    GptRoundTrip(scan, 1, h, es, secs);
    assert |scan.disk[0]| >= 512;
  }

  /** With a damaged primary it offers what the other GPT holds: where the primary says, or in the last sector. */
  lemma BackupOffered(scan: Scan, p: Header, crc: nat, h: Header, es: seq<Entry>, secs: nat)
    requires scan.Sane() && |scan.disk| >= 3 && HeaderOk(p) && crc < U32 && scan.disk[1] == HeaderBytes(p, crc)
    requires !scan.GptAt(1)
    requires GptWritten(scan, if 1 < p.alt < |scan.disk| then p.alt else |scan.disk| - 1, h, es, secs)
    ensures scan.Offered() == Asks(es)
  {
    HeaderFields(p, crc);
    BackupIs(scan, scan.disk[1], p, crc);
    GptRoundTrip(scan, if 1 < p.alt < |scan.disk| then p.alt else |scan.disk| - 1, h, es, secs);
    assert |scan.disk[0]| >= 512;
  }

  lemma BackupIs(scan: Scan, b: seq<byte>, p: Header, crc: nat)
    requires |scan.disk| > 0 && Fields(b, p, crc)
    ensures Signed(b) && scan.Backup(b) == if 1 < p.alt < |scan.disk| then p.alt else |scan.disk| - 1
  {
    assert b[..3] == b[..8][..3];
  }

  /** A disk with an MBR and without a GPT's signature offers what was written in the four entries. */
  lemma MbrOffered(scan: Scan, code: seq<byte>, slots: seq<Slot>, rest: seq<byte>)
    requires scan.Sane() && MbrOk(code, slots) && |scan.disk| > 0 && scan.disk[0] == MbrBytes(code, slots, rest)
    requires forall i :: 0 <= i < 4 ==> (slots[i].boot == 0 || slots[i].boot == 0x80) && slots[i].kind != 0xEE
    requires |scan.disk| >= 3 ==> scan.disk[1][..8] != Magic()
    ensures scan.Offered() == SlotsAsk(slots)
  {
    MbrReadable(code, slots, rest);
    MbrAsks(code, slots, rest, 0);
    MbrAsks(code, slots, rest, 1);
    MbrAsks(code, slots, rest, 2);
    MbrAsks(code, slots, rest, 3);
    assert Magic() == [0x45, 0x46, 0x49, 0x20, 0x50, 0x41, 0x52, 0x54];
  }

  // ------------------------------------------------- and what becomes of them

  /** The entries that ask for something. */
  ghost function Wanted(entries: seq<Partition>): seq<Partition> {
    if entries == [] then [] else
      var k := |entries| - 1;
      Wanted(entries[..k]) + (if entries[k].count > 0 then [entries[k]] else [])
  }

  /** Where the entries lie inside the disk and apart and the registry refuses none, they are the partitions. */
  lemma {:induction false} AllAccepted(entries: seq<Partition>, granted: seq<bool>, sectors: nat)
    requires |granted| == |entries| && Laid(Wanted(entries), sectors)
    requires forall i :: 0 <= i < |entries| && entries[i].count > 0 ==> granted[i]
    ensures Accepted(entries, granted, sectors) == Wanted(entries)
  {
    if entries != [] {
      var k := |entries| - 1;
      var before := Wanted(entries[..k]);
      LaidFront(before, Wanted(entries), sectors);
      AllAccepted(entries[..k], granted[..k], sectors);
      if entries[k].count > 0 { LaidFits(before, entries[k], sectors); }
    }
  }

  lemma LaidFront(a: seq<Partition>, b: seq<Partition>, sectors: nat)
    requires a <= b && Laid(b, sectors)
    ensures Laid(a, sectors)
  {
    forall i, j, lba | 0 <= i < j < |a| && Holds(a[i], lba) ensures !Holds(a[j], lba) { assert Holds(b[i], lba); }
  }

  lemma LaidFits(before: seq<Partition>, e: Partition, sectors: nat)
    requires Laid(before + [e], sectors)
    ensures Fits(before, e, sectors)
  {
    var all := before + [e];
    assert all[|before|] == e;
    forall i | 0 <= i < |before| ensures Part.Apart(before[i], e) {
      var p := before[i];
      assert all[i] == p;
      if !Part.Apart(p, e) {
        var x := if p.start < e.start then e.start else p.start;
        assert Holds(all[i], x) && Holds(all[|before|], x);
        assert false;
      }
    }
  }

  /** part_scan of a disk with a GPT: if the device and the registry answer, and the entries lie inside the disk and
      apart, the partitions are the entries written. */
  method ScanGptDisk(scan: Scan, ghost h: Header, ghost es: seq<Entry>, ghost secs: nat)
    requires scan.Valid() && scan.parts == [] && |scan.disk| >= 3 && GptWritten(scan, 1, h, es, secs)
    requires Laid(Wanted(Asks(es)), |scan.disk|)
    modifies scan
    ensures scan.failures == old(scan.failures) && scan.refusals == old(scan.refusals) ==>
      scan.parts == Wanted(Asks(es))
  {
    PrimaryOffered(scan, h, es, secs);
    ghost var granted := scan.PartScan();
    if scan.failures == old(scan.failures) && scan.refusals == old(scan.refusals) {
      AllAccepted(Asks(es), granted, |scan.disk|);
    }
  }

  /** The same for a disk with an MBR. */
  method ScanMbrDisk(scan: Scan, ghost code: seq<byte>, ghost slots: seq<Slot>, ghost rest: seq<byte>)
    requires scan.Valid() && scan.parts == [] && MbrOk(code, slots) && |scan.disk| > 0
    requires scan.disk[0] == MbrBytes(code, slots, rest) && (|scan.disk| >= 3 ==> scan.disk[1][..8] != Magic())
    requires forall i :: 0 <= i < 4 ==> (slots[i].boot == 0 || slots[i].boot == 0x80) && slots[i].kind != 0xEE
    requires Laid(Wanted(SlotsAsk(slots)), |scan.disk|)
    modifies scan
    ensures scan.failures == old(scan.failures) && scan.refusals == old(scan.refusals) ==>
      scan.parts == Wanted(SlotsAsk(slots))
  {
    MbrOffered(scan, code, slots, rest);
    ghost var granted := scan.PartScan();
    if scan.failures == old(scan.failures) && scan.refusals == old(scan.refusals) {
      AllAccepted(SlotsAsk(slots), granted, |scan.disk|);
    }
  }
}
