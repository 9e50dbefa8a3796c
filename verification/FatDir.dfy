/** kernel/fs/fatfs.c: looking up, creating and erasing directory entries with long names. */
module FatDir {
  import opened Bytes
  import opened FatName
  import opened FatSlots
  import opened Utf

  const BUFFER: nat := LFN_MAX_SLOTS * LFN_CHARS

  /** lfn_checksum. */
  method Checksum(raw: seq<byte>) returns (sum: byte)
    ensures sum == Sum(raw)
  {
    sum := 0;
    for i := 0 to |raw|
      invariant sum == Sum(raw[..i])
    {
      assert raw[..i + 1][..i] == raw[..i];
      sum := (sum % 2 * 128 + sum / 2 + raw[i]) % 256;
    }
    assert raw[..|raw|] == raw;
  }

  // ------------------------------------------------- a name in blocks

  /** Unit x of a stored name: the name, a terminator, then padding. */
  function PadUnit(u: seq<unit>, x: nat): unit {
    if x < |u| then u[x] else if x == |u| then 0 else 0xFFFF
  }

  ghost predicate Stores(blocks: seq<seq<unit>>, u: seq<unit>) {
    && Blocks(blocks) && |blocks| == (|u| + LFN_CHARS - 1) / LFN_CHARS
    && forall k, c :: 0 <= k < |blocks| && 0 <= c < LFN_CHARS ==> blocks[k][c] == PadUnit(u, k * LFN_CHARS + c)
  }

  /** The blocks joined are the name, ended or filled exactly. */
  lemma StoresJoin(blocks: seq<seq<unit>>, u: seq<unit>) returns (tail: seq<unit>)
    requires Stores(blocks, u) && u != []
    ensures Join(blocks) == u + tail && (tail == [] || Ends(tail[0]))
  {
    var all := Join(blocks);
    JoinAt(blocks, 0, 0);
    forall x: nat | x < |all| ensures all[x] == PadUnit(u, x) {
      JoinAt(blocks, x / LFN_CHARS, x % LFN_CHARS);
      assert x == x / LFN_CHARS * LFN_CHARS + x % LFN_CHARS;
    }
    tail := all[|u|..];
    assert all[..|u|] == u;
  }

  method MakeBlocks(u: seq<unit>) returns (blocks: seq<seq<unit>>)
    requires |u| <= BUFFER
    ensures Stores(blocks, u)
  {
    blocks := [];
    var n := (|u| + LFN_CHARS - 1) / LFN_CHARS;
    while |blocks| < n
      invariant |blocks| <= n && Blocks(blocks)
      invariant forall k, c :: 0 <= k < |blocks| && 0 <= c < LFN_CHARS ==> blocks[k][c] == PadUnit(u, k * LFN_CHARS + c)
    {
      var b: seq<unit> := [];
      var base := |blocks| * LFN_CHARS;
      for c := 0 to LFN_CHARS
        invariant |b| == c && forall j :: 0 <= j < c ==> b[j] == PadUnit(u, base + j)
      {
        b := b + [PadUnit(u, base + c)];
      }
      blocks := blocks + [b];
    }
  }

  /** The slots fat_create_named writes. */
  method MakeRun(blocks: seq<seq<unit>>, de: Slot) returns (run: seq<Slot>)
    requires Blocks(blocks) && de.Short?
    ensures |run| == |blocks| + 1 && run[|blocks|] == de
    ensures forall j :: 0 <= j < |blocks| ==> run[j] == LongSlot(blocks, Sum(de.raw), j)
  {
    run := [];
    var sum := Checksum(de.raw);
    for i := 0 to |blocks|
      invariant |run| == i && forall j :: 0 <= j < i ==> run[j] == LongSlot(blocks, sum, j)
    {
      run := run + [LongSlot(blocks, sum, i)];
    }
    run := run + [de];
  }

  // ------------------------------------------------- which names come back

  /** Names that are stored so that they read back as they are. */
  ghost predicate Keeps(name: seq<byte>) {
    if Is83(name) then name[|name| - 1] != DOT else forall cps :: Names(cps, name) ==> 0xFFFF !in cps
  }

  lemma {:induction false} NoZero(cps: seq<int>)
    requires Scalars(cps) && 0 !in Utf8(cps)
    ensures 0 !in cps
  {
    if cps != [] {
      assert Utf8(cps) == Enc8(cps[0]) + Utf8(cps[1..]);
      assert Utf8(cps)[0] == Enc8(cps[0])[0];
      assert forall x :: x in Utf8(cps[1..]) ==> x in Utf8(cps);
      NoZero(cps[1..]);
    }
  }

  lemma OneReading(a: seq<int>, b: seq<int>, s: seq<byte>)
    requires Names(a, s) && Names(b, s)
    ensures a == b
  {
    Cancel(a, b);
    Cancel(b, a);
  }

  /** A long name reads back exactly when it keeps clear of U+FFFF. */
  lemma LongKeeps(name: seq<byte>, cps: seq<int>, blocks: seq<seq<unit>>)
    requires Names(cps, name) && name != [] && |name| < NAME_MAX && 0 !in name && Stores(blocks, Utf16(cps)) &&
      !Is83(name)
    ensures blocks != [] && (Text(Join(blocks), NAME_MAX - 1) == name <==> Keeps(name))
  {
    assert cps != [];
    var tail := StoresJoin(blocks, Utf16(cps));
    NoZero(cps);
    RoundTrip(name, cps, tail, NAME_MAX - 1);
    forall other | Names(other, name) ensures other == cps { OneReading(other, cps, name); }
  }

  ghost function FirstNamed(es: seq<Entry>, name: seq<byte>): Option<Entry> {
    if es == [] then None else if es[0].name == name then Some(es[0]) else FirstNamed(es[1..], name)
  }

  lemma FirstCons(e: Entry, es: seq<Entry>, name: seq<byte>)
    ensures FirstNamed([e] + es, name) == if e.name == name then Some(e) else FirstNamed(es, name)
  {
    assert ([e] + es)[1..] == es;
  }

  /** A name listed once is found, wherever it stands; a name not listed is not. */
  lemma {:induction false} FirstOnly(pre: seq<Entry>, e: Entry, post: seq<Entry>)
    requires forall k :: 0 <= k < |pre| ==> pre[k].name != e.name
    ensures FirstNamed(pre + [e] + post, e.name) == Some(e)
  {
    if pre == [] {
      assert pre + [e] + post == [e] + post;
    } else {
      FirstOnly(pre[1..], e, post);
      assert pre + [e] + post == [pre[0]] + (pre[1..] + [e] + post);
      FirstCons(pre[0], pre[1..] + [e] + post, e.name);
    }
  }

  lemma {:induction false} FirstNone(es: seq<Entry>, name: seq<byte>)
    ensures FirstNamed(es, name) == None <==> forall k :: 0 <= k < |es| ==> es[k].name != name
  {
    if es != [] {
      FirstNone(es[1..], name);
      assert forall k :: 0 < k < |es| ==> es[k] == es[1..][k - 1];
    }
  }

  /** What is listed comes from the files. */
  lemma {:induction false} ListedNames(items: seq<Item>, at: nat, name: seq<byte>)
    requires forall j :: 0 <= j < |items| && items[j].File? ==> items[j].name != name
    ensures forall k :: 0 <= k < |Files(items, at)| ==> Files(items, at)[k].name != name
  {
    if items != [] {
      var it, rest := items[0], items[1..];
      assert items == [it] + rest;
      FilesCons(items, it, rest, at);
      ListedNames(rest, at + |SlotsOf(it)|, name);
    }
  }

  /** The first file of a name is the one found under it. */
  lemma FileFound(items: seq<Item>, k: nat)
    requires k < |items| && items[k].File?
    requires forall j :: 0 <= j < k && items[j].File? ==> items[j].name != items[k].name
    ensures FirstNamed(Files(items, 0), items[k].name) ==
            Some(Entry(items[k].name, items[k].de, |Flat(items[..k])|, |items[k].run|))
  {
    var a, file, b := items[..k], items[k], items[k + 1..];
    assert items == a + [file] + b;
    FileFiles(a, b, file);
    ListedNames(a, 0, file.name);
    FirstOnly(Files(a, 0), Entry(file.name, file.de, |Flat(a)|, |file.run|), Files(b, |Flat(a)| + |file.run|));
  }

  lemma ShortNamed(it: Item)
    requires it.File? && Intact(Fat(), it) && it.blocks == []
    ensures it.de.Short? && it.name == Shown(it.de.raw, it.de.nt) && |it.run| == 1
  {
  }

  lemma CaseShown(raw: seq<byte>, nt: byte, name: seq<byte>, base: bool, ext: bool, low: nat, high: nat)
    requires 1 <= |Base(name)| <= 8 && |Ext(name)| <= 3 && OneCase(Base(name), base) && OneCase(Ext(name), ext)
    requires name[|name| - 1] != DOT && raw == Raw(name) && low < 8 && high < 8
    requires nt == low + (if base then 8 else 0) + (if ext then 16 else 0) + 32 * high
    ensures Shown(raw, nt) == name
  {
    CaseRoundTrip(name, base, ext, low, high, nt);
  }

  /** A file without long-name slots whose case flags are set for small letters is listed and found in small letters. */
  lemma CaseFound(items: seq<Item>, k: nat, name: seq<byte>, base: bool, ext: bool, low: nat, high: nat)
    requires k < |items| && items[k].File? && Intact(Fat(), items[k]) && items[k].blocks == []
    requires 1 <= |Base(name)| <= 8 && |Ext(name)| <= 3 && OneCase(Base(name), base) && OneCase(Ext(name), ext)
    requires name[|name| - 1] != DOT && low < 8 && high < 8 && items[k].de.raw == Raw(name)
    requires items[k].de.nt == low + (if base then 8 else 0) + (if ext then 16 else 0) + 32 * high
    requires forall j :: 0 <= j < k && items[j].File? ==> items[j].name != name
    ensures items[k].name == name
    ensures FirstNamed(Files(items, 0), name) == Some(Entry(name, items[k].de, |Flat(items[..k])|, 1))
  {
    CaseShown(items[k].de.raw, items[k].de.nt, name, base, ext, low, high);
    ShortNamed(items[k]);
    FileFound(items, k);
  }

  ghost function Insert(es: seq<Entry>, k: nat, e: Entry): seq<Entry>
    requires k <= |es|
  {
    es[..k] + [e] + es[k..]
  }

  /** A fresh name is found under the entry just made for it, and every other name as before. */
  lemma InsertFound(es: seq<Entry>, k: nat, e: Entry, name: seq<byte>)
    requires k <= |es|
    ensures FirstNamed(es, e.name) == None ==> FirstNamed(Insert(es, k, e), e.name) == Some(e)
    ensures name != e.name ==> FirstNamed(Insert(es, k, e), name) == FirstNamed(es, name)
  {
    FirstNone(es, e.name);
    if FirstNamed(es, e.name) == None { FirstOnly(es[..k], e, es[k..]); }
    if name != e.name { InsertOther(es, k, e, name); }
  }

  lemma {:induction false} InsertOther(es: seq<Entry>, k: nat, e: Entry, name: seq<byte>)
    requires k <= |es| && name != e.name
    ensures FirstNamed(Insert(es, k, e), name) == FirstNamed(es, name)
  {
    if k == 0 {
      assert Insert(es, 0, e) == [e] + es;
      FirstCons(e, es, name);
    } else {
      InsertOther(es[1..], k - 1, e, name);
      assert Insert(es, k, e) == [es[0]] + Insert(es[1..], k - 1, e);
      FirstCons(es[0], Insert(es[1..], k - 1, e), name);
    }
  }

  /** Erasing what was created lists what was listed before. */
  lemma EraseUndoes(es: seq<Entry>, k: nat, e: Entry)
    requires k <= |es|
    ensures Insert(es, k, e)[k] == e && Insert(es, k, e)[..k] + Insert(es, k, e)[k + 1..] == es
  {
    assert Insert(es, k, e)[..k] == es[..k] && Insert(es, k, e)[k + 1..] == es[k..];
  }

  lemma InsertAt(pre: seq<Entry>, e: Entry, post: seq<Entry>)
    ensures Insert(pre + post, |pre|, e) == pre + [e] + post
  {
    assert (pre + post)[..|pre|] == pre && (pre + post)[|pre|..] == post;
  }

  /** A run written over the first free place for it: the directory stays intact and lists one entry more. */
  lemma PutDone(rd: Reader, slots: seq<Slot>, items: seq<Item>, r: nat, file: Item) returns (items': seq<Item>, k: nat)
    requires AllSound(slots) && Holds(slots, 0, items) && AllIntact(rd, items)
    requires file.File? && Intact(rd, file) && AllSound(file.run)
    requires FreeRun(slots, r, |file.run|) && forall q :: 0 <= q < r ==> !FreeRun(slots, q, |file.run|)
    ensures AllSound(Over(slots, r, file.run)) && Holds(Over(slots, r, file.run), 0, items') && AllIntact(rd, items')
    ensures k <= |Files(items, 0)|
    ensures Files(items', 0) == Insert(Files(items, 0), k, Entry(file.name, file.de, r, |file.run|))
  {
    var m, h := RunLies(rd, slots, items, r, |file.run|);
    var a, b := Around(items, m, h);
    items', k := a + [file] + b, |Files(a, 0)|;
    SoundOver(slots, r, file.run);
    IntactOver(rd, a, h, b, file);
    WrittenHolds(slots, a, h, b, file);
    PutEntries(a, h, b, file);
  }

  lemma Around(items: seq<Item>, m: nat, h: nat) returns (a: seq<Item>, b: seq<Item>)
    requires m + h <= |items| && items[m..m + h] == Holes(h)
    ensures a == items[..m] && b == items[m + h..] && items == a + Holes(h) + b
  {
    a, b := items[..m], items[m + h..];
    assert items == items[..m] + items[m..m + h] + items[m + h..];
  }

  lemma SoundOver(slots: seq<Slot>, r: nat, run: seq<Slot>)
    requires AllSound(slots) && AllSound(run) && r + |run| <= |slots|
    ensures AllSound(Over(slots, r, run))
  {
  }

  lemma IntactOver(rd: Reader, a: seq<Item>, h: nat, b: seq<Item>, it: Item)
    requires AllIntact(rd, a + Holes(h) + b) && Intact(rd, it)
    ensures AllIntact(rd, a + [it] + b)
  {
    forall i | 0 <= i < |a + [it] + b| ensures Intact(rd, (a + [it] + b)[i]) {
      if i < |a| {
        assert (a + [it] + b)[i] == (a + Holes(h) + b)[i];
      } else if i > |a| {
        assert (a + [it] + b)[i] == (a + Holes(h) + b)[i - 1 + h];
      }
    }
  }

  lemma PutEntries(a: seq<Item>, h: nat, b: seq<Item>, file: Item)
    requires file.File? && (h == |file.run| || b == [])
    ensures |Files(a, 0)| <= |Files(a + Holes(h) + b, 0)|
    ensures Files(a + [file] + b, 0) ==
            Insert(Files(a + Holes(h) + b, 0), |Files(a, 0)|, Entry(file.name, file.de, |Flat(a)|, |file.run|))
  {
    HoleFiles(a, h, b, |file.run|);
    FileFiles(a, b, file);
    InsertAt(Files(a, 0), Entry(file.name, file.de, |Flat(a)|, |file.run|), Files(b, |Flat(a)| + |file.run|));
  }

  datatype Rc = Ok | Invalid | NameTooLong | NoSpace

  /** The entry made for a name: its data, and its name if that can be stored. */
  ghost predicate Fits(e: Entry, name: seq<byte>, attr: byte, cluster: nat, size: nat) {
    && e.de.Short? && e.de.attr == attr && e.de.cluster == cluster && e.de.size == size
    && e.de.raw != [] && Listed(e.de.raw[0], attr)
    && (e.name == name <==> Keeps(name))
  }

  /** How many slots a name of so many units takes. */
  ghost function Need(name: seq<byte>, units: nat): nat {
    if Is83(name) then 1 else (units + LFN_CHARS - 1) / LFN_CHARS + 1
  }

  /** The run for a name, as units and as bytes. */
  method MakeFile(name: seq<byte>, u: seq<unit>, alias: seq<byte>, attr: byte, cluster: nat, size: nat)
    returns (run: seq<Slot>, ghost file: Item)
    requires 0 < |name| < NAME_MAX && 0 !in name && |alias| == 11 && Listed(alias[0], attr) && |u| <= 255
    requires exists cps :: Names(cps, name) && u == Utf16(cps)
    ensures file.File? && file.run == run && Intact(Fat(), file) && AllSound(run) && |run| == Need(name, |u|)
    ensures Fits(Entry(file.name, file.de, 0, 0), name, attr, cluster, size)
  {
    var fits := Fits83(name);
    var raw, blocks := alias, [];
    if fits {
      raw := ToFatName(name);
      StoredShort(name);
    } else {
      blocks := MakeBlocks(u);
      StoredLong(name, u, raw, blocks);
    }
    var de := Short(raw, 0, attr, cluster, size);
    run := MakeRun(blocks, de);
    file := File(Stored(raw, blocks), de, blocks, run);
    Made(Fat(), file);
  }

  /** The name a run reads as. */
  ghost function Stored(raw: seq<byte>, blocks: seq<seq<unit>>): seq<byte> {
    if blocks == [] then Fat().shown(raw, 0) else Fat().text(Join(blocks))
  }

  lemma StoredShort(name: seq<byte>)
    requires Is83(name)
    ensures Stored(Raw(name), []) == name <==> Keeps(name)
  {
    RoundTrip83(name);
  }

  lemma StoredLong(name: seq<byte>, u: seq<unit>, raw: seq<byte>, blocks: seq<seq<unit>>)
    requires !Is83(name) && 0 < |name| < NAME_MAX && 0 !in name && Stores(blocks, u) &&
      exists cps :: Names(cps, name) && u == Utf16(cps)
    ensures blocks != [] && (Stored(raw, blocks) == name <==> Keeps(name))
  {
    var cps :| Names(cps, name) && u == Utf16(cps);
    LongKeeps(name, cps, blocks);
  }

  /** The slots of a run are sound, and the run is whole. */
  lemma Made(rd: Reader, file: Item)
    requires file.File? && file.de.Short? && file.de.nt == 0 && Sound(file.de) && Blocks(file.blocks)
    requires |file.run| == |file.blocks| + 1 && file.run[|file.blocks|] == file.de
    requires forall j :: 0 <= j < |file.blocks| ==> file.run[j] == LongSlot(file.blocks, rd.sum(file.de.raw), j)
    requires file.name == if file.blocks == [] then rd.shown(file.de.raw, 0) else rd.text(Join(file.blocks))
    ensures Intact(rd, file) && AllSound(file.run)
  {
    forall i | 0 <= i < |file.run| ensures Sound(file.run[i]) {
      assert i < |file.blocks| ==> file.run[i] == LongSlot(file.blocks, rd.sum(file.de.raw), i);
    }
  }

  /** Entry e, the k-th, is gone from an intact directory, and the others are as they were. */
  ghost predicate Erased(rd: Reader, slots: seq<Slot>, items: seq<Item>, items': seq<Item>, e: Entry, k: nat) {
    && e.start + e.count <= |slots| && k < |Files(items, 0)|
    && var slots' := Over(slots, e.start, Gone(e.count));
    && AllSound(slots') && Holds(slots', 0, items') && AllIntact(rd, items')
    && Files(items', 0) == Files(items, 0)[..k] + Files(items, 0)[k + 1..]
  }

  lemma Parted<T>(s: seq<T>, m: nat)
    requires m < |s|
    ensures s == s[..m] + [s[m]] + s[m + 1..]
  {
  }

  lemma EraseDone(rd: Reader, slots: seq<Slot>, items: seq<Item>, k: nat) returns (items': seq<Item>)
    requires AllSound(slots) && Holds(slots, 0, items) && AllIntact(rd, items) && k < |Files(items, 0)|
    ensures Erased(rd, slots, items, items', Files(items, 0)[k], k) == true
  {
    var m := ItemOf(items, 0, k);
    var a, file, b, e := items[..m], items[m], items[m + 1..], Files(items, 0)[k];
    Parted(items, m);
    assert file.File? && k == |Files(a, 0)| && e.start == |Flat(a)| && e.count == |file.run|;
    items' := EraseItem(rd, slots, items, a, file, b, e, k);
  }

  lemma EraseItem(rd: Reader, slots: seq<Slot>, items: seq<Item>, a: seq<Item>, file: Item, b: seq<Item>, e: Entry,
                  k: nat)
    returns (items': seq<Item>)
    requires AllSound(slots) && Holds(slots, 0, items) && AllIntact(rd, items) && items == a + [file] + b && file.File?
    requires k == |Files(a, 0)| && e.start == |Flat(a)| && e.count == |file.run|
    ensures Erased(rd, slots, items, items', e, k)
  {
    var n := |file.run|;
    ErasedHolds(slots, a, b, file);
    SoundOver(slots, |Flat(a)|, Gone(n));
    IntactHoles(rd, a, n, b, file);
    EraseEntries(a, b, file);
    items' := a + Holes(n) + b;
  }

  lemma IntactHoles(rd: Reader, a: seq<Item>, n: nat, b: seq<Item>, it: Item)
    requires AllIntact(rd, a + [it] + b)
    ensures AllIntact(rd, a + Holes(n) + b)
  {
    forall i | 0 <= i < |a + Holes(n) + b| ensures Intact(rd, (a + Holes(n) + b)[i]) {
      if i < |a| {
        assert (a + Holes(n) + b)[i] == (a + [it] + b)[i];
      } else if i >= |a| + n {
        assert (a + Holes(n) + b)[i] == (a + [it] + b)[i - n + 1];
      }
    }
  }

  lemma EraseEntries(a: seq<Item>, b: seq<Item>, file: Item)
    requires file.File?
    ensures var k, all := |Files(a, 0)|, Files(a + [file] + b, 0);
            k < |all| && Files(a + Holes(|file.run|) + b, 0) == all[..k] + all[k + 1..]
  {
    HoleFiles(a, |file.run|, b, |file.run|);
    FileFiles(a, b, file);
  }

  class Directory {
    var slots: seq<Slot>
    const inRoot: bool
    const perCluster: nat
    ghost var items: seq<Item>
    /** How often no cluster could be had for the directory. */
    ghost var refused: nat

    /** An intact directory: every long-name run belongs to the entry after it, and nothing follows the unused end. */
    ghost predicate Valid()
      reads this
    {
      AllSound(slots) && Holds(slots, 0, items) && AllIntact(Fat(), items)
    }

    /** What the directory lists. */
    ghost function Entries(): seq<Entry>
      reads this
    {
      Files(items, 0)
    }

    constructor (inRoot: bool, perCluster: nat, slots: seq<Slot>, ghost items: seq<Item>)
      requires AllSound(slots) && Holds(slots, 0, items) && AllIntact(Fat(), items)
      ensures Valid() && this.slots == slots && this.items == items && this.inRoot == inRoot &&
        this.perCluster == perCluster
    {
      this.inRoot, this.perCluster, this.slots, this.items, refused := inRoot, perCluster, slots, items, 0;
    }

    // ----------------------------------------------- scanning

    /** The entry at a short slot. */
    method FoundAt(st: Scan, de: Slot, i: nat) returns (e: Entry)
      requires Ready(st) && de.Short? && Sound(de)
      ensures e == Found(Fat(), st, de, i)
    {
      var sum := Checksum(de.raw);
      if st.have && st.seen == st.highest && sum == st.sum {
        var name := FromUtf16(st.chars[..st.highest * LFN_CHARS], NAME_MAX);
        e := Entry(name, de, st.start, st.highest + 1);
      } else {
        var name := FromFatName(de.raw, de.nt);
        e := Entry(name, de, i, 1);
      }
    }

    /** fat_dir_next: the next entry from slot `from` on; `junk` is what the name buffer held before. */
    method DirNext(from: nat, junk: seq<unit>) returns (r: Next)
      requires AllSound(slots) && from <= |slots| && |junk| == BUFFER
      ensures r == Scanned(Fat(), slots, from, Begin(junk))
      ensures r.Nothing? ==> Listing(Fat(), slots, from, junk) == []
      ensures r.Hit? ==> from < r.after <= |slots|
      ensures r.Hit? ==>
        Listing(Fat(), slots, from, junk) == [r.entry] + Listing(Fat(), slots, r.after, junk)
    {
      var st := Begin(junk);
      var i := from;
      while i < |slots|
        invariant from <= i <= |slots| && Ready(st) &&
          Scanned(Fat(), slots, i, st) == Scanned(Fat(), slots, from, Begin(junk))
      {
        if slots[i].Unused? { return Nothing; }
        if slots[i].Short? {
          var e := FoundAt(st, slots[i], i);
          return Hit(e, i + 1);
        }
        st := Pass(st, slots[i], i);
        i := i + 1;
      }
      return Nothing;
    }

    /** fat_dir_find: the first entry listed under the name. */
    method Find(name: seq<byte>, junk: seq<unit>) returns (r: Option<Entry>)
      requires Valid() && |junk| == BUFFER
      ensures r == FirstNamed(Entries(), name)
    {
      ListItems(Fat(), slots, items, junk);
      var i := 0;
      while true
        invariant i <= |slots| && FirstNamed(Entries(), name) == FirstNamed(Listing(Fat(), slots, i, junk), name)
        decreases |slots| - i
      {
        var n := DirNext(i, junk);
        if n.Nothing? { return None; }
        FirstCons(n.entry, Listing(Fat(), slots, n.after, junk), name);
        if n.entry.name == name { return Some(n.entry); }
        i := n.after;
      }
    }

    // ----------------------------------------------- finding room

    /** One attempt of find_free_run: the first count consecutive free slots, or -1. */
    method FirstFree(count: nat) returns (r: int)
      requires count > 0
      ensures r >= 0 ==> FreeRun(slots, r, count) && forall q :: 0 <= q < r ==> !FreeRun(slots, q, count)
      ensures r < 0 ==> forall q :: !FreeRun(slots, q, count)
    {
      var run := 0;
      for i := 0 to |slots|
        invariant 0 <= run < count && run <= i
        invariant forall j :: i - run <= j < i ==> IsFree(slots[j])
        invariant run < i ==> !IsFree(slots[i - run - 1])
        invariant forall q :: 0 <= q && q + count <= i ==> !FreeRun(slots, q, count)
      {
        if IsFree(slots[i]) {
          run := run + 1;
          if run == count {
            return i + 1 - count;
          }
        } else {
          run := 0;
        }
        forall q | 0 <= q && q + count == i + 1 ensures !FreeRun(slots, q, count) { assert !IsFree(slots[i - run]); }
      }
      return -1;
    }

    /** A zeroed cluster is appended to the directory, if one can be had. */
    method Grow() returns (ok: bool)
      requires Valid()
      modifies this`slots, this`refused
      ensures Valid() && slots == if ok then old(slots) + Blank(perCluster) else old(slots)
      ensures refused == old(refused) + if ok then 0 else 1
    {
      var got: bool := *;
      if got {
        ghost var u := |slots| - |Flat(items)|;
        assert slots == slots[0..];
        Regroup(Flat(items), Blank(u), Blank(perCluster));
        assert Blank(u) + Blank(perCluster) == Blank(u + perCluster);
        slots := slots + seq(perCluster, _ => Unused);
        assert slots == old(slots) + Blank(perCluster) && slots == slots[0..];
      } else {
        refused := refused + 1;
      }
      return got;
    }

    /** The directory is as it was if it had room, or is the root; else it may have one cluster more. */
    ghost predicate Roomier(was: seq<Slot>, now: seq<Slot>, count: nat) {
      now == was || (!inRoot && now == was + Blank(perCluster) && forall q :: !FreeRun(was, q, count))
    }

    /** The root does not grow, no cluster could be had, or one has been. */
    ghost predicate NoRoomLeft(n: nat, wasRefused: nat)
      reads this
    {
      inRoot || refused > wasRefused || |slots| == n + perCluster
    }

    /** find_free_run: a second look after growing, except in the root. */
    method FindFreeRun(count: nat) returns (r: int)
      requires Valid() && count > 0
      modifies this`slots, this`refused
      ensures Valid() && refused >= old(refused) && Roomier(old(slots), slots, count)
      ensures r >= 0 ==> FreeRun(slots, r, count) && forall q :: 0 <= q < r ==> !FreeRun(slots, q, count)
      ensures r < 0 ==> (forall q :: !FreeRun(slots, q, count)) && NoRoomLeft(|old(slots)|, old(refused))
    {
      r := FirstFree(count);
      if r >= 0 || inRoot { return; }
      var ok := Grow();
      if ok { r := FirstFree(count); }
    }

    // ----------------------------------------------- writing

    /** write_slots_at. */
    method WriteSlots(r: nat, run: seq<Slot>)
      requires r + |run| <= |slots|
      modifies this`slots
      ensures slots == Over(old(slots), r, run)
    {
      for i := 0 to |run|
        invariant slots == Over(old(slots), r, run[..i])
      {
        OverMore(old(slots), r, run, i);
        slots := slots[r + i := run[i]];
      }
      assert run[..|run|] == run;
    }

    /** Puts a file's run into the first free place for it. */
    method PutFile(run: seq<Slot>, ghost file: Item) returns (r: int, ghost k: nat)
      requires Valid() && file.File? && Intact(Fat(), file) && AllSound(file.run) && run == file.run
      modifies this`slots, this`items, this`refused
      ensures Valid()
      ensures refused >= old(refused)
      ensures r < 0 ==> Entries() == old(Entries()) && NoRoomLeft(|old(slots)|, old(refused))
      ensures r < 0 ==> forall q :: !FreeRun(slots, q, |file.run|)
      ensures r >= 0 ==>
        k <= |old(Entries())| && Entries() == Insert(old(Entries()), k, Entry(file.name, file.de, r, |file.run|))
    {
      k := 0;
      r := FindFreeRun(|run|);
      if r < 0 { return; }
      ghost var items', at := PutDone(Fat(), slots, items, r, file);
      WriteSlots(r, run);
      items, k := items', at;
    }

    /**
     * fat_create_named, with the 8.3 alias that a long name gets.  The new entry is listed beside the old ones, under
     * the name asked for just when that name is one that can be stored; a failure lists what was listed before.
     */
    method Create(name: seq<byte>, alias: seq<byte>, attr: byte, cluster: nat, size: nat)
      returns (rc: Rc, pos: nat, ghost e: Entry, ghost k: nat)
      requires Valid() && 0 !in name && |alias| == 11 && Listed(alias[0], attr)
      modifies this`slots, this`items, this`refused
      ensures Valid()
      ensures !rc.Ok? ==> Entries() == old(Entries())
      ensures rc.Invalid? ==> !WellFormed(name)
      ensures rc.NameTooLong? ==> |name| == 0 || |name| >= NAME_MAX || forall cps :: Names(cps, name) ==>
        |Utf16(cps)| > 255
      ensures rc.NoSpace? ==> NoRoomLeft(|old(slots)|, old(refused))
      ensures rc.NoSpace? ==> exists cps :: Names(cps, name) && forall q :: !FreeRun(slots, q, Need(name, |Utf16(cps)|))
      ensures rc.Ok? ==> k <= |old(Entries())| && Entries() == Insert(old(Entries()), k, e)
      ensures rc.Ok? ==> WellFormed(name) && Fits(e, name, attr, cluster, size) && pos == e.start + e.count - 1
    {
      pos, k, e := 0, 0, Entry([], Unused, 0, 0);
      if |name| == 0 || |name| > NAME_MAX - 1 { return NameTooLong, pos, e, k; }
      var u := ToUtf16(name, BUFFER);
      if u.Malformed? { return Invalid, pos, e, k; }
      if u.TooLong? { return NameTooLong, pos, e, k; }
      ghost var cps :| Names(cps, name) && u.units == Utf16(cps);
      if |u.units| > 255 {
        forall c | Names(c, name) ensures c == cps { OneReading(c, cps, name); }
        return NameTooLong, pos, e, k;
      }
      var run;
      ghost var file;
      run, file := MakeFile(name, u.units, alias, attr, cluster, size);
      var r: int;
      r, k := PutFile(run, file);
      if r < 0 { return NoSpace, pos, e, k; }
      e := Entry(file.name, file.de, r, |file.run|);
      return Ok, r + |run| - 1, e, k;
    }

    /** A fresh name that can be stored is found afterwards, with the data it was given; other names are as before. */
    method CreateFinds(name: seq<byte>, alias: seq<byte>, attr: byte, cluster: nat, size: nat, junk: seq<unit>)
      returns (rc: Rc, found: Option<Entry>)
      requires Valid() && 0 !in name && |alias| == 11 && Listed(alias[0], attr) && |junk| == BUFFER
      requires FirstNamed(Entries(), name) == None && Keeps(name)
      modifies this`slots, this`items, this`refused
      ensures Valid() && (!rc.Ok? ==> found == None)
      ensures rc.Ok? ==> found.Some? && found.value.name == name && Fits(found.value, name, attr, cluster, size)
      ensures forall other :: other != name ==> FirstNamed(Entries(), other) == FirstNamed(old(Entries()), other)
    {
      var pos;
      ghost var e, k;
      rc, pos, e, k := Create(name, alias, attr, cluster, size);
      found := None;
      if rc.Ok? {
        forall other ensures other != name ==> FirstNamed(Entries(), other) == FirstNamed(old(Entries()), other) {
          InsertFound(old(Entries()), k, e, other);
        }
        InsertFound(old(Entries()), k, e, name);
        found := Find(name, junk);
      }
    }

    /** Erasing what was just created lists exactly what was listed before. */
    method CreateErases(name: seq<byte>, alias: seq<byte>, attr: byte, cluster: nat, size: nat, junk: seq<unit>)
      requires Valid() && 0 !in name && |alias| == 11 && Listed(alias[0], attr) && |junk| == BUFFER
      requires FirstNamed(Entries(), name) == None && Keeps(name)
      modifies this`slots, this`items, this`refused
      ensures Valid() && Entries() == old(Entries())
    {
      var rc, pos;
      ghost var e, k;
      rc, pos, e, k := Create(name, alias, attr, cluster, size);
      if rc.Ok? {
        InsertFound(old(Entries()), k, e, name);
        EraseUndoes(old(Entries()), k, e);
        var found := Find(name, junk);
        EraseRun(found.value, k);
      }
    }

    /** fat_erase_run: the whole run of entry k goes, and every other entry stays. */
    method EraseRun(e: Entry, ghost k: nat)
      requires Valid() && k < |Entries()| && e == Entries()[k]
      modifies this`slots, this`items
      ensures Valid() && Entries() == old(Entries())[..k] + old(Entries())[k + 1..]
    {
      ghost var items' := EraseDone(Fat(), slots, items, k);
      MarkDeleted(e.start, e.count);
      items := items';
    }

    /** mark_dirent_deleted over a run. */
    method MarkDeleted(start: nat, count: nat)
      requires start + count <= |slots|
      modifies this`slots
      ensures slots == Over(old(slots), start, Gone(count))
    {
      for i := 0 to count
        invariant |slots| == |old(slots)| && slots == old(slots)[..start] + Gone(i) + old(slots)[start + i..]
      {
        slots := slots[start + i := Deleted];
        assert Gone(i + 1) == Gone(i) + [Deleted];
        assert old(slots)[start + i..] == [old(slots)[start + i]] + old(slots)[start + i + 1..];
      }
    }
  }
}
