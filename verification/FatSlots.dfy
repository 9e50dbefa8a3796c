/** kernel/fs/fatfs.c: a directory as a sequence of 32-byte slots, and the entries a scan of it finds. */
module FatSlots {
  import opened Bytes
  import opened FatName
  import opened Utf

  const LFN_CHARS: nat := 13
  const LFN_MAX_SLOTS: nat := 20
  const LFN_LAST: nat := 0x40
  const NAME_MAX: nat := 256
  /** The bit of a volume label; the four attributes of a long name include it. */
  const ATTR_VOLUME_ID: int := 0x08

  /** A slot by its first byte and attributes: never used, deleted, part of a long name, a volume label, an entry. */
  datatype Slot =
    | Unused
    | Deleted
    | Long(order: byte, sum: byte, chars: seq<unit>)
    | Label
    | Short(raw: seq<byte>, nt: byte, attr: byte, cluster: nat, size: nat)

  ghost predicate Sound(s: Slot) {
    && (s.Long? ==> |s.chars| == LFN_CHARS)
    && (s.Short? ==> |s.raw| == 11)
  }

  /** A slot with this first byte and these attributes is an entry: in use, and neither a label nor part of a long
      name. */
  predicate Listed(first: byte, attr: byte) { first != 0 && first != 0xE5 && attr / ATTR_VOLUME_ID % 2 == 0 }

  ghost predicate AllSound(slots: seq<Slot>) { forall i :: 0 <= i < |slots| ==> Sound(slots[i]) }

  predicate IsFree(s: Slot) { s.Unused? || s.Deleted? }

  /** lfn_checksum, which ties a long name to its short entry. */
  function Sum(raw: seq<byte>): byte {
    if raw == [] then 0
    else
      var s := Sum(raw[..|raw| - 1]);
      (s % 2 * 128 + s / 2 + raw[|raw| - 1]) % 256
  }

  /** t is s turned right by one bit: the lowest bit has become the highest. */
  ghost predicate TurnedRight(s: byte, t: byte) { t / 128 == s % 2 && t % 128 == s / 2 }

  /** Each character is added to the sum turned right by one bit. */
  lemma SumTurns(raw: seq<byte>, c: byte) returns (t: byte)
    ensures Sum([]) == 0 && TurnedRight(Sum(raw), t) && Sum(raw + [c]) == (t + c) % 256
  {
    assert (raw + [c])[..|raw|] == raw;
    t := Sum(raw) % 2 * 128 + Sum(raw) / 2;
  }

  /** What fat_dir_next reports: the name, the short entry, and the slots of the whole run. */
  datatype Entry = Entry(name: seq<byte>, de: Slot, start: nat, count: nat)

  /** How names are read: long ones, short ones, and the checksum that ties them together. */
  datatype Reader = Reader(text: seq<unit> -> seq<byte>, shown: (seq<byte>, byte) -> seq<byte>, sum: seq<byte> -> byte)

  ghost function Fat(): Reader {
    Reader(u => Text(u, NAME_MAX - 1), (raw, nt) => if |raw| == 11 then Shown(raw, nt) else [], raw => Sum(raw))
  }

  // ------------------------------------------------- the scan of fat_dir_next

  /** Its local variables; `chars` keeps whatever was in the buffer before. */
  datatype Scan = Scan(have: bool, seen: nat, highest: nat, sum: byte, start: nat, chars: seq<unit>)

  function Ord(order: byte): nat { order % 32 }

  predicate Last(order: byte) { order / 64 % 2 == 1 }

  /** The character buffer with one slot's characters in place. */
  function Place(chars: seq<unit>, ord: nat, cs: seq<unit>): (r: seq<unit>)
    requires |chars| == LFN_MAX_SLOTS * LFN_CHARS && 1 <= ord <= LFN_MAX_SLOTS && |cs| == LFN_CHARS
    ensures |r| == |chars|
  {
    chars[..(ord - 1) * LFN_CHARS] + cs + chars[ord * LFN_CHARS..]
  }

  ghost predicate Ready(st: Scan) {
    |st.chars| == LFN_MAX_SLOTS * LFN_CHARS && (st.have ==> st.highest <= LFN_MAX_SLOTS)
  }

  /** One slot that does not end a run. */
  function Pass(st: Scan, s: Slot, i: nat): (r: Scan)
    requires Ready(st) && Sound(s) && (s.Deleted? || s.Label? || s.Long?)
    ensures Ready(r)
  {
    var off := st.(have := false, seen := 0);
    if !s.Long? || Ord(s.order) < 1 || Ord(s.order) > LFN_MAX_SLOTS then off
    else if !st.have then
      if !Last(s.order) then st
      else Scan(true, 1, Ord(s.order), s.sum, i, Place(st.chars, Ord(s.order), s.chars))
    else if s.sum != st.sum then off
    else st.(seen := st.seen + 1, chars := Place(st.chars, Ord(s.order), s.chars))
  }

  ghost predicate Usable(rd: Reader, st: Scan, de: Slot)
    requires de.Short?
  {
    st.have && st.seen == st.highest && rd.sum(de.raw) == st.sum
  }

  /** The entry a short slot ends. */
  ghost function Found(rd: Reader, st: Scan, de: Slot, i: nat): Entry
    requires Ready(st) && de.Short? && Sound(de)
  {
    if Usable(rd, st, de) then Entry(rd.text(st.chars[..st.highest * LFN_CHARS]), de, st.start, st.highest + 1)
    else Entry(rd.shown(de.raw, de.nt), de, i, 1)
  }

  datatype Next = Nothing | Hit(entry: Entry, after: nat)

  /** The next entry from slot i on. */
  ghost function Scanned(rd: Reader, slots: seq<Slot>, i: nat, st: Scan): (r: Next)
    requires AllSound(slots) && i <= |slots| && Ready(st)
    ensures r.Hit? ==> i < r.after <= |slots|
    decreases |slots| - i
  {
    if i == |slots| || slots[i].Unused? then Nothing
    else if slots[i].Short? then Hit(Found(rd, st, slots[i], i), i + 1)
    else Scanned(rd, slots, i + 1, Pass(st, slots[i], i))
  }

  /** A buffer with nothing read yet; its contents are not initialised. */
  function Begin(junk: seq<unit>): Scan { Scan(false, 0, 0, 0, 0, junk) }

  /** Everything a directory lists from slot i on. */
  ghost function Listing(rd: Reader, slots: seq<Slot>, i: nat, junk: seq<unit>): seq<Entry>
    requires AllSound(slots) && i <= |slots| && |junk| == LFN_MAX_SLOTS * LFN_CHARS
    decreases |slots| - i
  {
    match Scanned(rd, slots, i, Begin(junk))
    case Nothing => []
    case Hit(e, n) => [e] + Listing(rd, slots, n, junk)
  }

  // ------------------------------------------------- intact directories

  /** A deleted slot, a label, or a file: its run of slots, which stores its name in blocks of 13 units (none: 8.3
      only). */
  datatype Item = Hole | Volume | File(name: seq<byte>, de: Slot, blocks: seq<seq<unit>>, run: seq<Slot>)

  ghost function SlotsOf(it: Item): seq<Slot> {
    match it
    case Hole => [Deleted]
    case Volume => [Label]
    case File(_, _, _, run) => run
  }

  ghost function Flat(items: seq<Item>): seq<Slot> {
    if items == [] then [] else SlotsOf(items[0]) + Flat(items[1..])
  }

  /** The files among the items, laid out from slot `at` on. */
  ghost function Files(items: seq<Item>, at: nat): seq<Entry> {
    if items == [] then [] else Files1(items[0], at) + Files(items[1..], at + |SlotsOf(items[0])|)
  }

  ghost function Files1(it: Item, at: nat): seq<Entry> {
    if it.File? then [Entry(it.name, it.de, at, |it.run|)] else []
  }

  /** A long-name slot: the last block comes first, counted down, marked with the checksum. */
  function LongSlot(blocks: seq<seq<unit>>, sum: byte, j: nat): Slot
    requires j < |blocks| <= LFN_MAX_SLOTS
  {
    Long(|blocks| - j + (if j == 0 then LFN_LAST else 0), sum, blocks[|blocks| - 1 - j])
  }

  ghost function Join(blocks: seq<seq<unit>>): seq<unit> {
    if blocks == [] then [] else blocks[0] + Join(blocks[1..])
  }

  ghost predicate Blocks(blocks: seq<seq<unit>>) {
    |blocks| <= LFN_MAX_SLOTS && forall k :: 0 <= k < |blocks| ==> |blocks[k]| == LFN_CHARS
  }

  /** The file's run is whole, and reads as its name. */
  ghost predicate Intact(rd: Reader, it: Item) {
    it.File? ==>
      && it.de.Short? && Sound(it.de) && Blocks(it.blocks)
      && |it.run| == |it.blocks| + 1 && it.run[|it.blocks|] == it.de
      && (forall j :: 0 <= j < |it.blocks| ==> it.run[j] == LongSlot(it.blocks, rd.sum(it.de.raw), j))
      && it.name == if it.blocks == [] then rd.shown(it.de.raw, it.de.nt) else rd.text(Join(it.blocks))
  }

  ghost predicate AllIntact(rd: Reader, items: seq<Item>) { forall i :: 0 <= i < |items| ==> Intact(rd, items[i]) }

  ghost function Blank(n: nat): (r: seq<Slot>)
    ensures |r| == n && forall i :: 0 <= i < n ==> r[i] == Unused
  {
    seq(n, _ => Unused)
  }

  /** From slot `at` on, slots holds these items and has not been used beyond them. */
  ghost predicate Holds(slots: seq<Slot>, at: nat, items: seq<Item>) {
    at + |Flat(items)| <= |slots| && slots[at..] == Flat(items) + Blank(|slots| - at - |Flat(items)|)
  }

  // ------------------------------------------------- scanning an intact directory

  /** The scan after j slots of a long-name run at slot `at`: the blocks read so far are in place. */
  ghost predicate Reading(st: Scan, blocks: seq<seq<unit>>, sum: byte, at: nat, j: nat) {
    && Ready(st) && 1 <= j <= |blocks| <= LFN_MAX_SLOTS && st.have && st.seen == j && st.highest == |blocks| &&
      st.sum == sum && st.start == at
    && forall k, c :: |blocks| - j <= k < |blocks| && 0 <= c < LFN_CHARS && |blocks[k]| == LFN_CHARS ==>
         st.chars[k * LFN_CHARS + c] == blocks[k][c]
  }

  lemma PlaceAt(chars: seq<unit>, ord: nat, cs: seq<unit>, k: nat, c: nat)
    requires |chars| == LFN_MAX_SLOTS * LFN_CHARS && 1 <= ord <= LFN_MAX_SLOTS && |cs| == LFN_CHARS
    requires k < LFN_MAX_SLOTS && c < LFN_CHARS
    ensures Place(chars, ord, cs)[k * LFN_CHARS + c] == if k == ord - 1 then cs[c] else chars[k * LFN_CHARS + c]
  {
  }

  /** The next slot of the run adds the block below. */
  lemma ReadOne(st: Scan, blocks: seq<seq<unit>>, sum: byte, at: nat, j: nat)
    requires 0 <= j < |blocks| && Blocks(blocks)
    requires if j == 0 then Ready(st) && !st.have else Reading(st, blocks, sum, at, j)
    ensures Reading(Pass(st, LongSlot(blocks, sum, j), at + j), blocks, sum, at, j + 1)
  {
    var s, ord := LongSlot(blocks, sum, j), |blocks| - j;
    assert Ord(s.order) == ord && (Last(s.order) <==> j == 0);
    var st' := Pass(st, s, at + j);
    assert st'.chars == Place(st.chars, ord, s.chars);
    forall k, c | |blocks| - j - 1 <= k < |blocks| && 0 <= c < LFN_CHARS
      ensures st'.chars[k * LFN_CHARS + c] == blocks[k][c]
    {
      PlaceAt(st.chars, ord, s.chars, k, c);
    }
  }

  lemma {:induction false} JoinAt(blocks: seq<seq<unit>>, k: nat, c: nat)
    requires (forall m :: 0 <= m < |blocks| ==> |blocks[m]| == LFN_CHARS) && k < |blocks| && c < LFN_CHARS
    ensures |Join(blocks)| == |blocks| * LFN_CHARS && Join(blocks)[k * LFN_CHARS + c] == blocks[k][c]
  {
    if |blocks| == 1 {
      assert Join(blocks[1..]) == [];
    } else if k == 0 {
      JoinAt(blocks[1..], 0, c);
    } else {
      JoinAt(blocks[1..], k - 1, c);
      assert Join(blocks)[k * LFN_CHARS + c] == Join(blocks[1..])[(k - 1) * LFN_CHARS + c];
    }
  }

  /** With every block read the buffer holds the whole name. */
  lemma ReadAll(st: Scan, blocks: seq<seq<unit>>, sum: byte, at: nat)
    requires blocks != [] && Reading(st, blocks, sum, at, |blocks|) && Blocks(blocks)
    ensures st.chars[..st.highest * LFN_CHARS] == Join(blocks)
  {
    var n := |blocks| * LFN_CHARS;
    JoinAt(blocks, 0, 0);
    forall x | 0 <= x < n ensures st.chars[x] == Join(blocks)[x] {
      JoinAt(blocks, x / LFN_CHARS, x % LFN_CHARS);
      assert x == x / LFN_CHARS * LFN_CHARS + x % LFN_CHARS;
    }
  }

  /** Slot `at` and those after it hold the run of a file. */
  ghost predicate RunAt(slots: seq<Slot>, it: Item, at: nat)
    requires it.File?
  {
    at + |it.run| <= |slots| && forall j :: 0 <= j < |it.run| ==> slots[at + j] == it.run[j]
  }

  /** The short entry at the end of a run that was read whole. */
  lemma EndRun(rd: Reader, it: Item, at: nat, st: Scan)
    requires it.File? && Intact(rd, it)
    requires if it.blocks == [] then Ready(st) && !st.have
             else Reading(st, it.blocks, rd.sum(it.de.raw), at, |it.blocks|)
    ensures Found(rd, st, it.de, at + |it.blocks|) == Entry(it.name, it.de, at, |it.run|)
  {
    if it.blocks != [] { ReadAll(st, it.blocks, rd.sum(it.de.raw), at); }
  }

  /** Scanning from inside a run comes out with the run's entry. */
  lemma {:induction false} ScanRun(rd: Reader, slots: seq<Slot>, it: Item, at: nat, j: nat, st: Scan)
    requires AllSound(slots) && it.File? && Intact(rd, it) && j <= |it.blocks| && RunAt(slots, it, at)
    requires if j == 0 then Ready(st) && !st.have else Reading(st, it.blocks, rd.sum(it.de.raw), at, j)
    ensures Scanned(rd, slots, at + j, st) == Hit(Entry(it.name, it.de, at, |it.run|), at + |it.run|)
    decreases |it.blocks| - j
  {
    assert slots[at + j] == it.run[j];
    if j < |it.blocks| {
      ReadOne(st, it.blocks, rd.sum(it.de.raw), at, j);
      ScanRun(rd, slots, it, at, j + 1, Pass(st, slots[at + j], at + j));
    } else {
      EndRun(rd, it, at, st);
    }
  }

  /** At slot `at`, n slots of a long-name run from its slot `from` on, and a short entry behind them. */
  ghost predicate PieceAt(slots: seq<Slot>, at: nat, blocks: seq<seq<unit>>, sum: byte, from: nat, n: nat) {
    && Blocks(blocks) && from + n <= |blocks| && at + n < |slots| && slots[at + n].Short?
    && forall k :: at <= k < at + n ==> slots[k] == LongSlot(blocks, sum, from + k - at)
  }

  /** The entry has the long name exactly if the run is whole and its checksum is the entry's; otherwise it is listed
      under its 8.3 name, by itself. */
  ghost function PieceEntry(rd: Reader, at: nat, blocks: seq<seq<unit>>, sum: byte, from: nat, n: nat, de: Slot): Entry
    requires de.Short?
  {
    if blocks != [] && from == 0 && n == |blocks| && sum == rd.sum(de.raw) then
      Entry(rd.text(Join(blocks)), de, at, |blocks| + 1)
    else Entry(rd.shown(de.raw, de.nt), de, at + n, 1)
  }

  /** What is listed behind a piece of a run, whole or not, fresh or stale. */
  lemma PieceExactly(rd: Reader, slots: seq<Slot>, at: nat, blocks: seq<seq<unit>>, sum: byte, from: nat, n: nat,
                     junk: seq<unit>)
    requires AllSound(slots) && |junk| == LFN_MAX_SLOTS * LFN_CHARS && PieceAt(slots, at, blocks, sum, from, n)
    ensures Scanned(rd, slots, at, Begin(junk)) ==
            Hit(PieceEntry(rd, at, blocks, sum, from, n, slots[at + n]), at + n + 1)
  {
    if from == 0 {
      WholePiece(rd, slots, at, blocks, sum, 0, n, Begin(junk));
    } else {
      Headless(rd, slots, at, blocks, sum, from, n, Begin(junk));
    }
  }

  lemma {:induction false} WholePiece(rd: Reader, slots: seq<Slot>, at: nat, blocks: seq<seq<unit>>, sum: byte, j: nat,
                                      n: nat, st: Scan)
    requires AllSound(slots) && PieceAt(slots, at, blocks, sum, 0, n) && j <= n
    requires if j == 0 then Ready(st) && !st.have else Reading(st, blocks, sum, at, j)
    ensures Scanned(rd, slots, at + j, st) == Hit(PieceEntry(rd, at, blocks, sum, 0, n, slots[at + n]), at + n + 1)
    decreases |blocks| - j
  {
    if j < n {
      assert slots[at + j] == LongSlot(blocks, sum, j);
      ReadOne(st, blocks, sum, at, j);
      WholePiece(rd, slots, at, blocks, sum, j + 1, n, Pass(st, slots[at + j], at + j));
    } else if n == |blocks| && blocks != [] {
      ReadAll(st, blocks, sum, at);
    }
  }

  /** Slots without the one that starts the run leave no trace. */
  lemma {:induction false} Headless(rd: Reader, slots: seq<Slot>, at: nat, blocks: seq<seq<unit>>, sum: byte, from: nat,
                                    n: nat, st: Scan)
    requires AllSound(slots) && PieceAt(slots, at, blocks, sum, from, n) && from > 0 && Ready(st) && !st.have
    ensures Scanned(rd, slots, at, st) == Hit(PieceEntry(rd, at, blocks, sum, from, n, slots[at + n]), at + n + 1)
    decreases n
  {
    if n > 0 {
      assert slots[at] == LongSlot(blocks, sum, from) && !Last(slots[at].order);
      Headless(rd, slots, at + 1, blocks, sum, from + 1, n - 1, st);
    }
  }

  /** The scan takes one item at a time. */
  lemma ListFile(rd: Reader, slots: seq<Slot>, at: nat, it: Item, junk: seq<unit>)
    requires AllSound(slots) && |junk| == LFN_MAX_SLOTS * LFN_CHARS && it.File? && Intact(rd, it) &&
      RunAt(slots, it, at)
    ensures Listing(rd, slots, at, junk) ==
      [Entry(it.name, it.de, at, |it.run|)] + Listing(rd, slots, at + |it.run|, junk)
  {
    ScanRun(rd, slots, it, at, 0, Begin(junk));
  }

  lemma ListOther(rd: Reader, slots: seq<Slot>, at: nat, junk: seq<unit>)
    requires AllSound(slots) && |junk| == LFN_MAX_SLOTS * LFN_CHARS && at < |slots| &&
      (slots[at].Deleted? || slots[at].Label?)
    ensures Listing(rd, slots, at, junk) == Listing(rd, slots, at + 1, junk)
  {
    assert Pass(Begin(junk), slots[at], at) == Begin(junk);
  }

  lemma ListEnd(rd: Reader, slots: seq<Slot>, at: nat, junk: seq<unit>)
    requires AllSound(slots) && |junk| == LFN_MAX_SLOTS * LFN_CHARS && at <= |slots| &&
      (at == |slots| || slots[at].Unused?)
    ensures Listing(rd, slots, at, junk) == []
  {
  }

  /** The slots of items with one more in front, and their entries. */
  lemma FlatCons(items: seq<Item>, it: Item, rest: seq<Item>)
    requires items == [it] + rest
    ensures Flat(items) == SlotsOf(it) + Flat(rest)
  {
    assert items[0] == it && items[1..] == rest;
  }

  lemma FilesCons(items: seq<Item>, it: Item, rest: seq<Item>, at: nat)
    requires items == [it] + rest
    ensures Files(items, at) == Files1(it, at) + Files(rest, at + |SlotsOf(it)|)
  {
    assert items[0] == it && items[1..] == rest;
  }

  lemma ConsConcat(a: seq<Item>, b: seq<Item>)
    requires a != []
    ensures a == [a[0]] + a[1..] && a + b == [a[0]] + (a[1..] + b)
  {
  }

  lemma PrefixCons(items: seq<Item>, it: Item, rest: seq<Item>, j: nat)
    requires items == [it] + rest && j <= |rest|
    ensures items[..j + 1] == [it] + rest[..j]
  {
  }

  /** Slot r of the items is one of the first item's, or one of the rest's. */
  lemma FlatIn(items: seq<Item>, it: Item, rest: seq<Item>, r: nat)
    requires items == [it] + rest && r < |Flat(items)|
    ensures |Flat(items)| == |SlotsOf(it)| + |Flat(rest)|
    ensures Flat(items)[r] == if r < |SlotsOf(it)| then SlotsOf(it)[r] else Flat(rest)[r - |SlotsOf(it)|]
  {
    FlatCons(items, it, rest);
  }

  lemma PrefixFlat(items: seq<Item>, it: Item, rest: seq<Item>, j: nat)
    requires items == [it] + rest && j <= |rest|
    ensures |Flat(items[..j + 1])| == |SlotsOf(it)| + |Flat(rest[..j])|
  {
    PrefixCons(items, it, rest, j);
    FlatCons(items[..j + 1], it, rest[..j]);
  }

  lemma HoldsTail(slots: seq<Slot>, at: nat, items: seq<Item>)
    requires Holds(slots, at, items) && items != []
    ensures at + |SlotsOf(items[0])| <= |slots| && slots[at..at + |SlotsOf(items[0])|] == SlotsOf(items[0])
    ensures Holds(slots, at + |SlotsOf(items[0])|, items[1..])
  {
    var h, rest, n := SlotsOf(items[0]), Flat(items[1..]), |slots| - at - |Flat(items)|;
    Regroup(h, rest, Blank(n));
    assert slots[at..][..|h|] == h && slots[at..][|h|..] == rest + Blank(n);
    assert slots[at..at + |h|] == slots[at..][..|h|] && slots[at + |h|..] == slots[at..][|h|..];
  }

  lemma ListItem(rd: Reader, slots: seq<Slot>, at: nat, it: Item, junk: seq<unit>)
    requires AllSound(slots) && |junk| == LFN_MAX_SLOTS * LFN_CHARS && Intact(rd, it)
    requires at + |SlotsOf(it)| <= |slots| && slots[at..at + |SlotsOf(it)|] == SlotsOf(it)
    ensures Listing(rd, slots, at, junk) == Files1(it, at) + Listing(rd, slots, at + |SlotsOf(it)|, junk)
  {
    var cut := slots[at..at + |SlotsOf(it)|];
    assert forall j :: 0 <= j < |cut| ==> cut[j] == slots[at + j];
    if it.File? {
      ListFile(rd, slots, at, it, junk);
    } else {
      assert slots[at] == cut[0];
      ListOther(rd, slots, at, junk);
    }
  }

  /** Where item k starts. */
  ghost function Start(items: seq<Item>, k: nat): nat
    requires k <= |items|
  {
    |Flat(items[..k])|
  }

  lemma StartNext(items: seq<Item>, k: nat)
    requires k < |items|
    ensures Start(items, k + 1) == Start(items, k) + |SlotsOf(items[k])|
  {
    assert items[..k + 1] == items[..k] + [items[k]];
    FlatSplit(items[..k], [items[k]]);
    FlatCons([items[k]], items[k], []);
  }

  /** A way of listing takes item k by itself. */
  ghost predicate Takes(list: nat -> seq<Entry>, items: seq<Item>, k: nat)
    requires k < |items|
  {
    list(Start(items, k)) == Files1(items[k], Start(items, k)) + list(Start(items, k + 1))
  }

  /** Any way of listing that takes one item at a time and stops at the end lists the files. */
  lemma {:induction false} ListAll(items: seq<Item>, list: nat -> seq<Entry>, k: nat)
    requires k <= |items| && forall j :: 0 <= j < |items| ==> Takes(list, items, j)
    requires list(Start(items, |items|)) == []
    ensures list(Start(items, k)) == Files(items[k..], Start(items, k))
    decreases |items| - k
  {
    if k == |items| {
      assert items[k..] == [];
    } else {
      ListAll(items, list, k + 1);
      StartNext(items, k);
      FilesCons(items[k..], items[k], items[k + 1..], Start(items, k));
      assert Takes(list, items, k);
    }
  }

  /** In slots that hold the items, item k lies where it starts, and nothing behind the last. */
  lemma {:induction false} HoldsFrom(slots: seq<Slot>, items: seq<Item>, k: nat)
    requires Holds(slots, 0, items) && k <= |items|
    ensures Holds(slots, Start(items, k), items[k..])
  {
    if k == 0 {
      assert items[..0] == [] && items[0..] == items;
    } else {
      HoldsFrom(slots, items, k - 1);
      HoldsTail(slots, Start(items, k - 1), items[k - 1..]);
      StartNext(items, k - 1);
      assert items[k - 1..][1..] == items[k..];
    }
  }

  lemma NothingHeld(slots: seq<Slot>, at: nat)
    requires Holds(slots, at, [])
    ensures at == |slots| || (at < |slots| && slots[at].Unused?)
  {
    assert at < |slots| ==> slots[at] == slots[at..][0] == Unused;
  }

  /** The scan, as a way of listing. */
  ghost function Scanning(rd: Reader, slots: seq<Slot>, junk: seq<unit>): (list: nat -> seq<Entry>)
    requires AllSound(slots) && |junk| == LFN_MAX_SLOTS * LFN_CHARS
    ensures forall a: nat :: a <= |slots| ==> list(a) == Listing(rd, slots, a, junk)
  {
    (a: nat) => if a <= |slots| then Listing(rd, slots, a, junk) else []
  }

  lemma ScanTakes(rd: Reader, slots: seq<Slot>, items: seq<Item>, junk: seq<unit>, k: nat)
    requires AllSound(slots) && |junk| == LFN_MAX_SLOTS * LFN_CHARS && k < |items|
    requires Intact(rd, items[k]) && Holds(slots, Start(items, k), items[k..])
    ensures Takes(Scanning(rd, slots, junk), items, k)
  {
    HoldsTail(slots, Start(items, k), items[k..]);
    StartNext(items, k);
    ListItem(rd, slots, Start(items, k), items[k], junk);
  }

  lemma ScanStops(rd: Reader, slots: seq<Slot>, junk: seq<unit>, a: nat)
    requires AllSound(slots) && |junk| == LFN_MAX_SLOTS * LFN_CHARS && Holds(slots, a, [])
    ensures Scanning(rd, slots, junk)(a) == []
  {
    NothingHeld(slots, a);
    ListEnd(rd, slots, a, junk);
  }

  /** A scan of an intact directory lists its files, whatever was in the buffer before. */
  lemma ListItems(rd: Reader, slots: seq<Slot>, items: seq<Item>, junk: seq<unit>)
    requires AllSound(slots) && Holds(slots, 0, items) && AllIntact(rd, items) && |junk| == LFN_MAX_SLOTS * LFN_CHARS
    ensures Listing(rd, slots, 0, junk) == Files(items, 0)
  {
    var list := Scanning(rd, slots, junk);
    forall k | 0 <= k < |items| ensures Takes(list, items, k) {
      HoldsFrom(slots, items, k);
      ScanTakes(rd, slots, items, junk, k);
    }
    HoldsFrom(slots, items, |items|);
    assert items[|items|..] == [] && items[0..] == items && items[..0] == [];
    ScanStops(rd, slots, junk, Start(items, |items|));
    ListAll(items, list, 0);
  }

  // ------------------------------------------------- replacing items

  lemma {:induction false} FlatSplit(a: seq<Item>, b: seq<Item>)
    ensures Flat(a + b) == Flat(a) + Flat(b)
    decreases |a|
  {
    if a == [] {
      assert a + b == b;
    } else {
      var it, rest := a[0], a[1..];
      ConsConcat(a, b);
      FlatSplit(rest, b);
      FlatCons(a, it, rest);
      FlatCons(a + b, it, rest + b);
      Regroup(SlotsOf(it), Flat(rest), Flat(b));
    }
  }

  lemma {:induction false} FilesSplit(a: seq<Item>, b: seq<Item>, at: nat)
    ensures Files(a + b, at) == Files(a, at) + Files(b, at + |Flat(a)|)
    decreases |a|
  {
    if a == [] {
      assert a + b == b;
    } else {
      var it, rest := a[0], a[1..];
      var at' := at + |SlotsOf(it)|;
      ConsConcat(a, b);
      FilesSplit(rest, b, at');
      FlatCons(a, it, rest);
      FilesCons(a, it, rest, at);
      FilesCons(a + b, it, rest + b, at);
      Regroup(Files1(it, at), Files(rest, at'), Files(b, at' + |Flat(rest)|));
    }
  }

  ghost function Holes(n: nat): (r: seq<Item>)
    ensures |r| == n && forall i :: 0 <= i < n ==> r[i] == Hole
  {
    seq(n, _ => Hole)
  }

  lemma {:induction false} HolesFlat(n: nat, at: nat)
    ensures |Flat(Holes(n))| == n && (forall i :: 0 <= i < n ==> Flat(Holes(n))[i] == Deleted) &&
      Files(Holes(n), at) == []
  {
    if n > 0 {
      assert Holes(n)[1..] == Holes(n - 1);
      HolesFlat(n - 1, at + 1);
      assert forall i :: 0 < i < n ==> Flat(Holes(n))[i] == Flat(Holes(n - 1))[i - 1];
    }
  }

  // ------------------------------------------------- where a free run lies

  ghost predicate FreeRun(slots: seq<Slot>, r: int, n: nat) {
    0 <= r && r + n <= |slots| && forall i :: r <= i < r + n ==> IsFree(slots[i])
  }

  lemma RunTaken(rd: Reader, it: Item, i: nat)
    requires Intact(rd, it) && i < |SlotsOf(it)|
    ensures IsFree(SlotsOf(it)[i]) ==> it.Hole?
  {
  }

  /** A deleted slot is a hole: no file reaches into it. */
  lemma {:induction false} HoleAt(rd: Reader, items: seq<Item>, r: nat) returns (k: nat)
    requires AllIntact(rd, items) && r < |Flat(items)| && IsFree(Flat(items)[r])
    ensures k < |items| && items[k].Hole? && |Flat(items[..k])| == r
    decreases |items|
  {
    var it, rest := items[0], items[1..];
    var n := |SlotsOf(it)|;
    FlatIn(items, it, rest, r);
    if r < n {
      RunTaken(rd, it, r);
      assert items[..0] == [];
      return 0;
    }
    var j := HoleAt(rd, rest, r - n);
    PrefixFlat(items, it, rest, j);
    return j + 1;
  }

  /** How many holes in front a free run of n slots takes: n, or all there is. */
  lemma {:induction false} HolesTaken(rd: Reader, items: seq<Item>, n: nat) returns (h: nat)
    requires AllIntact(rd, items) && forall i :: 0 <= i < n && i < |Flat(items)| ==> IsFree(Flat(items)[i])
    ensures h <= n && h <= |items| && items[..h] == Holes(h) && (h == n || h == |items|)
    decreases |items|
  {
    if n == 0 || items == [] { return 0; }
    NeverEmpty(rd, items);
    FirstHole(rd, items, items[1..], n);
    var j := HolesTaken(rd, items[1..], n - 1);
    PrefixCons(items, Hole, items[1..], j);
    assert Holes(j + 1) == [Hole] + Holes(j);
    return j + 1;
  }

  /** A free slot in front is a hole, and the other free slots are behind it. */
  lemma FirstHole(rd: Reader, items: seq<Item>, rest: seq<Item>, n: nat)
    requires items != [] && rest == items[1..] && Intact(rd, items[0]) && n > 0 && |Flat(items)| > 0
    requires forall i :: 0 <= i < n && i < |Flat(items)| ==> IsFree(Flat(items)[i])
    ensures items == [Hole] + rest && forall i :: 0 <= i < n - 1 && i < |Flat(rest)| ==> IsFree(Flat(rest)[i])
  {
    var it := items[0];
    FlatCons(items, it, rest);
    NeverEmpty(rd, items);
    assert IsFree(SlotsOf(it)[0]);
    RunTaken(rd, it, 0);
    forall i | 0 <= i < n - 1 && i < |Flat(rest)| ensures IsFree(Flat(rest)[i]) {
      assert Flat(rest)[i] == Flat(items)[i + 1];
    }
  }

  lemma NeverEmpty(rd: Reader, items: seq<Item>)
    requires items != [] && Intact(rd, items[0])
    ensures |SlotsOf(items[0])| > 0 && |Flat(items)| > 0
  {
  }

  /** The first free run starts no later than the unused end of the directory. */
  lemma FirstInside(slots: seq<Slot>, items: seq<Item>, r: nat, n: nat)
    requires Holds(slots, 0, items) && FreeRun(slots, r, n) && forall q :: 0 <= q < r ==> !FreeRun(slots, q, n)
    ensures r <= |Flat(items)|
  {
    var f := |Flat(items)|;
    if f < r {
      assert forall i :: f <= i < f + n ==> slots[i] == slots[0..][i] == Unused;
      assert FreeRun(slots, f, n);
      assert false;
    }
  }

  /** The items before slot r, when r is free or the end of the items. */
  lemma ItemsBefore(rd: Reader, slots: seq<Slot>, items: seq<Item>, r: nat) returns (k: nat)
    requires Holds(slots, 0, items) && AllIntact(rd, items) && r <= |Flat(items)| && (r < |slots| ==> IsFree(slots[r]))
    ensures k <= |items| && |Flat(items[..k])| == r
  {
    if r < |Flat(items)| {
      assert Flat(items)[r] == slots[0..][r] == slots[r];
      k := HoleAt(rd, items, r);
    } else {
      k := |items|;
      assert items[..k] == items;
    }
  }

  /** The run found lies on k items, then h holes, then perhaps on slots never used. */
  lemma RunLies(rd: Reader, slots: seq<Slot>, items: seq<Item>, r: nat, n: nat) returns (k: nat, h: nat)
    requires Holds(slots, 0, items) && AllIntact(rd, items) && n > 0
    requires FreeRun(slots, r, n) && forall q :: 0 <= q < r ==> !FreeRun(slots, q, n)
    ensures k + h <= |items| && |Flat(items[..k])| == r && items[k..k + h] == Holes(h) && h <= n &&
      (h == n || k + h == |items|)
  {
    FirstInside(slots, items, r, n);
    k := ItemsBefore(rd, slots, items, r);
    FreeBehind(slots, items, k, n);
    h := HolesTaken(rd, items[k..], n);
    assert items[k..][..h] == items[k..k + h];
  }

  /** The slots behind the first k items are free. */
  lemma FreeBehind(slots: seq<Slot>, items: seq<Item>, k: nat, n: nat)
    requires Holds(slots, 0, items) && k <= |items| && FreeRun(slots, |Flat(items[..k])|, n)
    ensures forall i :: 0 <= i < n && i < |Flat(items[k..])| ==> IsFree(Flat(items[k..])[i])
  {
    var r, rest := |Flat(items[..k])|, Flat(items[k..]);
    assert items == items[..k] + items[k..];
    FlatSplit(items[..k], items[k..]);
    forall i | 0 <= i < n && i < |rest| ensures IsFree(rest[i]) {
      assert rest[i] == Flat(items)[r + i] == slots[0..][r + i] == slots[r + i];
    }
  }

  // ------------------------------------------------- writing and erasing a run

  /** slots with n slots from r on overwritten. */
  ghost function Over(slots: seq<Slot>, r: nat, run: seq<Slot>): seq<Slot>
    requires r + |run| <= |slots|
  {
    slots[..r] + run + slots[r + |run|..]
  }

  /** One more slot of the run is written. */
  lemma OverMore(slots: seq<Slot>, r: nat, run: seq<Slot>, i: nat)
    requires r + |run| <= |slots| && i < |run|
    ensures |Over(slots, r, run[..i])| == |slots|
    ensures Over(slots, r, run[..i])[r + i := run[i]] == Over(slots, r, run[..i + 1])
  {
  }

  lemma OverAt(slots: seq<Slot>, a: seq<Slot>, m: seq<Slot>, b: seq<Slot>, run: seq<Slot>)
    requires slots == a + m + b && |run| == |m|
    ensures |a| + |run| <= |slots| && Over(slots, |a|, run) == a + run + b
  {
    assert slots[..|a|] == a && slots[|a| + |run|..] == b;
  }

  lemma OverInside(slots: seq<Slot>, a: seq<Slot>, m: seq<Slot>, b: seq<Slot>, u: nat, run: seq<Slot>)
    requires slots == a + m + b + Blank(u) && |run| == |m|
    ensures |a| + |run| <= |slots| && Over(slots, |a|, run) == a + run + b + Blank(u)
  {
    Regroup(a + m, b, Blank(u));
    OverAt(slots, a, m, b + Blank(u), run);
    Regroup(a + run, b, Blank(u));
  }

  lemma OverEnd(slots: seq<Slot>, a: seq<Slot>, m: seq<Slot>, u: nat, run: seq<Slot>)
    requires slots == a + m + Blank(u) && |m| <= |run| <= |m| + u
    ensures |a| + |run| <= |slots| && Over(slots, |a|, run) == a + run + Blank(u - (|run| - |m|))
  {
    var x := |run| - |m|;
    assert Blank(u) == Blank(x) + Blank(u - x);
    assert slots == a + (m + Blank(x)) + Blank(u - x);
    OverAt(slots, a, m + Blank(x), Blank(u - x), run);
  }

  /** A run written over the slots m, and over unused ones if it is longer. */
  lemma OverSlots(slots: seq<Slot>, a: seq<Slot>, m: seq<Slot>, b: seq<Slot>, run: seq<Slot>)
    requires |a + m + b| <= |slots| && slots == a + m + b + Blank(|slots| - |a + m + b|)
    requires |m| <= |run| && (|m| == |run| || b == []) && |a| + |run| <= |slots|
    ensures |a + run + b| <= |slots| && Over(slots, |a|, run) == a + run + b + Blank(|slots| - |a + run + b|)
  {
    var u := |slots| - |a + m + b|;
    if |m| == |run| {
      OverInside(slots, a, m, b, u, run);
    } else {
      assert a + m + b == a + m && a + run + b == a + run;
      OverEnd(slots, a, m, u, run);
    }
  }

  lemma HoldsFlat(slots: seq<Slot>, items: seq<Item>, flat: seq<Slot>)
    requires Flat(items) == flat
    ensures Holds(slots, 0, items) <==> |flat| <= |slots| && slots == flat + Blank(|slots| - |flat|)
  {
    assert slots[0..] == slots;
  }

  /** A run written over holes, or over holes and unused slots at the end. */
  lemma WrittenHolds(slots: seq<Slot>, a: seq<Item>, h: nat, b: seq<Item>, file: Item)
    requires Holds(slots, 0, a + Holes(h) + b) && file.File? && h <= |file.run| && (h == |file.run| || b == [])
    requires |Flat(a)| + |file.run| <= |slots|
    ensures Holds(Over(slots, |Flat(a)|, file.run), 0, a + [file] + b)
  {
    HolesFlat(h, 0);
    FileAlone(file, 0);
    Flat3(a, Holes(h), b);
    Flat3(a, [file], b);
    HoldsFlat(slots, a + Holes(h) + b, Flat(a) + Flat(Holes(h)) + Flat(b));
    OverSlots(slots, Flat(a), Flat(Holes(h)), Flat(b), file.run);
    HoldsFlat(Over(slots, |Flat(a)|, file.run), a + [file] + b, Flat(a) + file.run + Flat(b));
  }

  lemma Flat3(a: seq<Item>, m: seq<Item>, b: seq<Item>)
    ensures Flat(a + m + b) == Flat(a) + Flat(m) + Flat(b)
  {
    FlatSplit(a + m, b);
    FlatSplit(a, m);
  }

  lemma FileAlone(file: Item, at: nat)
    requires file.File?
    ensures Flat([file]) == file.run && Files([file], at) == [Entry(file.name, file.de, at, |file.run|)]
  {
    assert [file][1..] == [];
  }

  lemma HolesQuiet(n: nat, at: nat)
    ensures |Flat(Holes(n))| == n && Files(Holes(n), at) == []
  {
    HolesFlat(n, at);
  }

  /** Holes at the end list nothing; a file at the end is listed last. */
  lemma HolesLast(a: seq<Item>, h: nat)
    ensures Files(a + Holes(h), 0) == Files(a, 0) && |Flat(a + Holes(h))| == |Flat(a)| + h
  {
    HolesQuiet(h, |Flat(a)|);
    FlatSplit(a, Holes(h));
    FilesSplit(a, Holes(h), 0);
  }

  lemma FileLast(a: seq<Item>, file: Item)
    requires file.File?
    ensures Files(a + [file], 0) == Files(a, 0) + [Entry(file.name, file.de, |Flat(a)|, |file.run|)]
    ensures |Flat(a + [file])| == |Flat(a)| + |file.run|
  {
    FileAlone(file, |Flat(a)|);
    FlatSplit(a, [file]);
    FilesSplit(a, [file], 0);
  }

  /** What a directory lists with holes between a and b, and with a file there. */
  lemma HoleFiles(a: seq<Item>, h: nat, b: seq<Item>, n: nat)
    requires h == n || b == []
    ensures Files(a + Holes(h) + b, 0) == Files(a, 0) + Files(b, |Flat(a)| + n)
  {
    FilesSplit(a + Holes(h), b, 0);
    HolesLast(a, h);
    NoFiles(b, |Flat(a)| + h, |Flat(a)| + n);
  }

  lemma NoFiles(b: seq<Item>, at: nat, at': nat)
    requires at == at' || b == []
    ensures Files(b, at) == Files(b, at')
  {
  }

  lemma FileFiles(a: seq<Item>, b: seq<Item>, file: Item)
    requires file.File?
    ensures Files(a + [file] + b, 0) ==
            Files(a, 0) + [Entry(file.name, file.de, |Flat(a)|, |file.run|)] + Files(b, |Flat(a)| + |file.run|)
  {
    FilesSplit(a + [file], b, 0);
    FileLast(a, file);
  }

  ghost function Gone(n: nat): (r: seq<Slot>)
    ensures |r| == n && forall i :: 0 <= i < n ==> r[i] == Deleted
  {
    seq(n, _ => Deleted)
  }

  /** Marking a file's run deleted turns it into holes. */
  lemma ErasedHolds(slots: seq<Slot>, a: seq<Item>, b: seq<Item>, file: Item)
    requires Holds(slots, 0, a + [file] + b) && file.File?
    ensures |Flat(a)| + |file.run| <= |slots|
    ensures Holds(Over(slots, |Flat(a)|, Gone(|file.run|)), 0, a + Holes(|file.run|) + b)
  {
    var n, r := |file.run|, |Flat(a)|;
    Flat3(a, Holes(n), b);
    Flat3(a, [file], b);
    HolesFlat(n, r);
    FileAlone(file, r);
    assert Flat(Holes(n)) == Gone(n);
    var u := |slots| - r - n - |Flat(b)|;
    assert slots == slots[0..];
    OverInside(slots, Flat(a), file.run, Flat(b), u, Gone(n));
  }

  /** The item behind entry k of a listing. */
  lemma {:induction false} ItemOf(items: seq<Item>, at: nat, k: nat) returns (m: nat)
    requires k < |Files(items, at)|
    ensures m < |items| && items[m].File? && |Files(items[..m], at)| == k
    ensures Files(items, at)[k] == Entry(items[m].name, items[m].de, at + |Flat(items[..m])|, |items[m].run|)
    decreases |items|
  {
    var first, at' := Files1(items[0], at), at + |SlotsOf(items[0])|;
    if k < |first| {
      assert items[..0] == [];
      return 0;
    }
    var j := ItemOf(items[1..], at', k - |first|);
    assert items[..j + 1][0] == items[0] && items[..j + 1][1..] == items[1..][..j];
    return j + 1;
  }
}
