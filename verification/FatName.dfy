/** kernel/fs/fatfs.c: 8.3 names, as they are typed and as a directory entry stores them. */
module FatName {
  import opened Bytes

  const SPACE: byte := 0x20
  const DOT: byte := 0x2E

  /** fat_char_ok_in_83: capitals, digits and some punctuation. */
  predicate Ok83(c: byte) {
    || 0x41 <= c <= 0x5A || 0x30 <= c <= 0x39
    || c == 0x5F || c == 0x2D || c == 0x7E || c == 0x21 || c == 0x23 || c == 0x24 || c == 0x25 || c == 0x26
    || c == 0x27 || c == 0x28 || c == 0x29 || c == 0x40 || c == 0x5E || c == 0x60 || c == 0x7B || c == 0x7D
  }

  ghost predicate AllOk(s: seq<byte>) { forall i :: 0 <= i < |s| ==> Ok83(s[i]) }

  /** The first dot, or the end. */
  ghost function DotAt(name: seq<byte>): (d: nat)
    ensures d <= |name| && (d < |name| ==> name[d] == DOT) && forall i :: 0 <= i < d ==> name[i] != DOT
  {
    if name == [] || name[0] == DOT then 0 else 1 + DotAt(name[1..])
  }

  ghost function Base(name: seq<byte>): seq<byte> { name[..DotAt(name)] }

  ghost function Ext(name: seq<byte>): seq<byte> { if DotAt(name) < |name| then name[DotAt(name) + 1..] else [] }

  /** A name that needs no long-name slots. */
  ghost predicate Is83(name: seq<byte>) {
    1 <= |Base(name)| <= 8 && |Ext(name)| <= 3 && AllOk(Base(name)) && AllOk(Ext(name))
  }

  lemma DotIs(name: seq<byte>, d: nat)
    requires d < |name| && name[d] == DOT && forall i :: 0 <= i < d ==> name[i] != DOT
    ensures DotAt(name) == d
  {
  }

  lemma DotNone(name: seq<byte>)
    requires forall i :: 0 <= i < |name| ==> name[i] != DOT
    ensures DotAt(name) == |name|
  {
  }

  /** fits_83. */
  method Fits83(name: seq<byte>) returns (ok: bool)
    ensures ok <==> Is83(name)
  {
    var base, ext, dots := 0, 0, 0;
    for i := 0 to |name|
      invariant 0 <= dots <= 1 && 0 <= base && 0 <= ext
      invariant dots == 0 ==> base == i && ext == 0
      invariant dots == 1 ==> base < i && name[base] == DOT && ext == i - base - 1
      invariant forall j :: 0 <= j < i && !(dots == 1 && j == base) ==> Ok83(name[j])
    {
      if name[i] == DOT {
        if dots == 1 {
          DotIs(name, base);
          assert Ext(name)[i - base - 1] == DOT;
          return false;
        }
        dots := dots + 1;
      } else {
        if !Ok83(name[i]) {
          NotOk(name, i);
          return false;
        }
        if dots == 1 { ext := ext + 1; } else { base := base + 1; }
      }
    }
    if dots == 1 { DotIs(name, base); } else { DotNone(name); }
    return 1 <= base <= 8 && ext <= 3;
  }

  lemma NotOk(name: seq<byte>, i: nat)
    requires i < |name| && name[i] != DOT && !Ok83(name[i])
    ensures !Is83(name)
  {
    var d := DotAt(name);
    if i < d { assert !Ok83(Base(name)[i]); } else { assert !Ok83(Ext(name)[i - d - 1]); }
  }

  // ------------------------------------------------- the stored form

  function Up(c: byte): byte { if 0x61 <= c <= 0x7A then c - 0x20 else c }

  /** The first n characters in capitals, filled up with spaces. */
  ghost function Field(s: seq<byte>, n: nat): (r: seq<byte>)
    ensures |r| == n && forall i :: 0 <= i < n ==> r[i] == if i < |s| then Up(s[i]) else SPACE
  {
    seq(n, i => if 0 <= i < |s| then Up(s[i]) else SPACE)
  }

  ghost function Raw(name: seq<byte>): (r: seq<byte>)
    ensures |r| == 11
  {
    Field(Base(name), 8) + Field(Ext(name), 3)
  }

  /** One of the two copying loops of to_fat_name. */
  method CopyField(name: seq<byte>, from: nat, to: nat, n: nat) returns (r: seq<byte>)
    requires from <= to <= |name|
    ensures r == Field(name[from..to], n)
  {
    r := [];
    var i := from;
    while |r| < n
      invariant from <= i <= to && |r| <= n && (|r| < i - from || i < to ==> |r| == i - from) && (i - from <= |r|)
      invariant forall k :: 0 <= k < |r| ==> r[k] == if k < i - from then Up(name[from + k]) else SPACE
      decreases n - |r|
    {
      if i < to {
        r, i := r + [Up(name[i])], i + 1;
      } else {
        r := r + [SPACE];
      }
    }
  }

  method FindDot(name: seq<byte>) returns (d: nat)
    ensures d == DotAt(name)
  {
    d := 0;
    while d < |name| && name[d] != DOT
      invariant d <= |name| && forall i :: 0 <= i < d ==> name[i] != DOT
    {
      d := d + 1;
    }
    if d < |name| { DotIs(name, d); } else { DotNone(name); }
  }

  /** to_fat_name. */
  method ToFatName(name: seq<byte>) returns (raw: seq<byte>)
    ensures raw == Raw(name)
  {
    var d := FindDot(name);
    var base := CopyField(name, 0, d, 8);
    var ext := CopyField(name, if d < |name| then d + 1 else d, |name|, 3);
    assert name[0..d] == Base(name);
    assert name[if d < |name| then d + 1 else d..|name|] == Ext(name);
    return base + ext;
  }

  // ------------------------------------------------- and back

  function Low(c: byte, lower: bool): byte { if lower && 0x41 <= c <= 0x5A then c + 0x20 else c }

  /** The field up to its padding, in small letters if the case flag says so. */
  ghost function Unpad(f: seq<byte>, lower: bool): seq<byte> {
    if f == [] || f[0] == SPACE then [] else [Low(f[0], lower)] + Unpad(f[1..], lower)
  }

  predicate LowerBase(nt: byte) { nt / 8 % 2 == 1 }
  predicate LowerExt(nt: byte) { nt / 16 % 2 == 1 }

  /** from_fat_name. */
  ghost function Shown(raw: seq<byte>, nt: byte): seq<byte>
    requires |raw| == 11
  {
    Unpad(raw[..8], LowerBase(nt)) + (if raw[8] != SPACE then [DOT] + Unpad(raw[8..], LowerExt(nt)) else [])
  }

  method UnpadField(raw: seq<byte>, from: nat, to: nat, lower: bool) returns (out: seq<byte>)
    requires from <= to <= |raw|
    ensures out == Unpad(raw[from..to], lower)
  {
    out := [];
    var i := from;
    while i < to && raw[i] != SPACE
      invariant from <= i <= to && out + Unpad(raw[i..to], lower) == Unpad(raw[from..to], lower)
    {
      assert raw[i..to][1..] == raw[i + 1..to];
      Regroup(out, [Low(raw[i], lower)], Unpad(raw[i + 1..to], lower));
      out, i := out + [Low(raw[i], lower)], i + 1;
    }
    assert Unpad(raw[i..to], lower) == [];
  }

  method FromFatName(raw: seq<byte>, nt: byte) returns (out: seq<byte>)
    requires |raw| == 11
    ensures out == Shown(raw, nt)
  {
    out := UnpadField(raw, 0, 8, LowerBase(nt));
    assert raw[0..8] == raw[..8] && raw[8..11] == raw[8..];
    if raw[8] != SPACE {
      var ext := UnpadField(raw, 8, 11, LowerExt(nt));
      out := out + ([DOT] + ext);
    }
  }

  lemma {:induction false} UnpadField83(s: seq<byte>, f: seq<byte>)
    requires AllOk(s) && |s| <= |f| && (forall i :: 0 <= i < |s| ==> f[i] == s[i]) && (|s| < |f| ==> f[|s|] == SPACE)
    ensures Unpad(f, false) == s
  {
    if s != [] { UnpadField83(s[1..], f[1..]); }
  }

  lemma Shown83(name: seq<byte>)
    requires Is83(name)
    ensures Shown(Raw(name), 0) == Base(name) + (if Ext(name) == [] then [] else [DOT] + Ext(name))
  {
    var raw := Raw(name);
    assert raw[..8] == Field(Base(name), 8) && raw[8..] == Field(Ext(name), 3);
    UnpadField83(Base(name), raw[..8]);
    if Ext(name) != [] {
      assert Ok83(Ext(name)[0]) && raw[8] == raw[8..][0] == Ext(name)[0];
      UnpadField83(Ext(name), raw[8..]);
    } else {
      assert raw[8] == raw[8..][0] == SPACE;
    }
  }

  /** A name taken apart at its first dot. */
  lemma PartsAt(name: seq<byte>, d: nat, base: seq<byte>, ext: seq<byte>)
    requires d <= |name| && (d < |name| ==> name[d] == DOT) && base == name[..d] && base != [] && AllOk(base) &&
      AllOk(ext)
    requires ext == if d < |name| then name[d + 1..] else []
    ensures name == base + (if d < |name| then [DOT] + ext else [])
    ensures name[|name| - 1] == DOT <==> d < |name| && ext == []
  {
    if ext != [] {
      assert name[|name| - 1] == ext[|ext| - 1] && Ok83(ext[|ext| - 1]);
    } else if d == |name| {
      assert name[|name| - 1] == base[d - 1] && Ok83(base[d - 1]);
    }
  }

  /** An 8.3 name comes back as it was typed exactly when it does not end in a bare dot. */
  lemma RoundTrip83(name: seq<byte>)
    requires Is83(name)
    ensures name != [] && (Shown(Raw(name), 0) == name <==> name[|name| - 1] != DOT)
  {
    Shown83(name);
    PartsAt(name, DotAt(name), Base(name), Ext(name));
  }

  // ------------------------------------------------- names in small letters

  predicate Capital(c: byte) { 'A' <= c as char <= 'Z' }

  predicate Small(c: byte) { 'a' <= c as char <= 'z' }

  /** The characters an 8.3 name is made of. */
  lemma Ok83Exactly(c: byte)
    ensures Ok83(c) <==> Capital(c) || '0' <= c as char <= '9' || c as char in "_-~!#$%&'()@^`{}"
  {
  }

  /** Small letters, and nothing else, become capitals, each its own. */
  lemma UpExactly(c: byte)
    ensures Up(c) == if Small(c) then c - ('a' as int) + ('A' as int) else c
    ensures Small(c) ==> Capital(Up(c))
  {
  }

  /** Characters of an 8.3 name, or small letters; letters of one case only. */
  ghost predicate OneCase(s: seq<byte>, small: bool) {
    forall i :: 0 <= i < |s| ==> if small then Small(s[i]) || (Ok83(s[i]) && !Capital(s[i])) else Ok83(s[i])
  }

  lemma {:induction false} UnpadCase(s: seq<byte>, f: seq<byte>, small: bool)
    requires OneCase(s, small) && |s| <= |f| && (forall i :: 0 <= i < |s| ==> f[i] == Up(s[i]))
    requires |s| < |f| ==> f[|s|] == SPACE
    ensures Unpad(f, small) == s
  {
    if s != [] {
      assert f[0] != SPACE && Low(f[0], small) == s[0];
      UnpadCase(s[1..], f[1..], small);
    }
  }

  /** Bits 3 and 4 of the byte that holds the case flags. */
  lemma CaseBits(low: nat, base: bool, ext: bool, high: nat)
    requires low < 8 && high < 8
    ensures
      var nt: byte := low + (if base then 8 else 0) + (if ext then 16 else 0) + 32 * high;
      LowerBase(nt) == base && LowerExt(nt) == ext
  {
  }

  /**
   * A name whose base is in letters of one case and whose extension is too needs no long-name slots: its capitals, with
   * bit 3 set for a small base and bit 4 for a small extension, read back as the name.
   */
  lemma CaseRoundTrip(name: seq<byte>, base: bool, ext: bool, low: nat, high: nat, nt: byte)
    requires 1 <= |Base(name)| <= 8 && |Ext(name)| <= 3 && OneCase(Base(name), base) && OneCase(Ext(name), ext)
    requires name[|name| - 1] != DOT && low < 8 && high < 8
    requires nt == low + (if base then 8 else 0) + (if ext then 16 else 0) + 32 * high
    ensures Shown(Raw(name), nt) == name
  {
    CaseBits(low, base, ext, high);
    ShownCase(name, nt);
    NameParts(name);
  }

  lemma ShownCase(name: seq<byte>, nt: byte)
    requires |Base(name)| <= 8 && |Ext(name)| <= 3
    requires OneCase(Base(name), LowerBase(nt)) && OneCase(Ext(name), LowerExt(nt))
    ensures Shown(Raw(name), nt) == Base(name) + (if Ext(name) == [] then [] else [DOT] + Ext(name))
  {
    var raw, base, ext := Raw(name), Base(name), Ext(name);
    assert raw[..8] == Field(base, 8) && raw[8..] == Field(ext, 3);
    UnpadCase(base, raw[..8], LowerBase(nt));
    UnpadCase(ext, raw[8..], LowerExt(nt));
    assert raw[8] == raw[8..][0];
  }

  lemma NameParts(name: seq<byte>)
    requires name != [] && name[|name| - 1] != DOT
    ensures name == Base(name) + (if Ext(name) == [] then [] else [DOT] + Ext(name))
  {
    var d := DotAt(name);
    assert d < |name| ==> name == name[..d] + [name[d]] + name[d + 1..];
  }
}
