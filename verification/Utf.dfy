/** kernel/fs/fatfs.c: conversion of file names between UTF-8 (RFC 3629) and UTF-16 (RFC 2781). */
module Utf {
  import opened Bytes

  type unit = x: int | 0 <= x < 0x10000

  /** A Unicode scalar value: any code point that is not a surrogate. */
  predicate Scalar(cp: int) { 0 <= cp <= 0x10FFFF && !(0xD800 <= cp <= 0xDFFF) }

  ghost predicate Scalars(cps: seq<int>) { forall i :: 0 <= i < |cps| ==> Scalar(cps[i]) }

  // ------------------------------------------------- the encodings

  /** Section 3 of RFC 3629. */
  function Enc8(cp: int): (r: seq<byte>)
    requires Scalar(cp)
    ensures |r| == if cp < 0x80 then 1 else if cp < 0x800 then 2 else if cp < 0x10000 then 3 else 4
  {
    if cp < 0x80 then [cp]
    else if cp < 0x800 then [0xC0 + cp / 64, 0x80 + cp % 64]
    else if cp < 0x10000 then [0xE0 + cp / 4096, 0x80 + cp / 64 % 64, 0x80 + cp % 64]
    else [0xF0 + cp / 262144, 0x80 + cp / 4096 % 64, 0x80 + cp / 64 % 64, 0x80 + cp % 64]
  }

  /** Section 2.1 of RFC 2781. */
  function Enc16(cp: int): (r: seq<unit>)
    requires Scalar(cp)
    ensures |r| == if cp < 0x10000 then 1 else 2
  {
    if cp < 0x10000 then [cp] else [0xD800 + (cp - 0x10000) / 1024, 0xDC00 + (cp - 0x10000) % 1024]
  }

  ghost function Utf8(cps: seq<int>): (r: seq<byte>)
    requires Scalars(cps)
    ensures |r| >= |cps|
  {
    if cps == [] then [] else Enc8(cps[0]) + Utf8(cps[1..])
  }

  ghost function Utf16(cps: seq<int>): (r: seq<unit>)
    requires Scalars(cps)
    ensures |r| >= |cps|
  {
    if cps == [] then [] else Enc16(cps[0]) + Utf16(cps[1..])
  }

  lemma {:induction false} Utf8Append(a: seq<int>, cp: int)
    requires Scalars(a) && Scalar(cp)
    ensures Utf8(a + [cp]) == Utf8(a) + Enc8(cp) && Utf16(a + [cp]) == Utf16(a) + Enc16(cp)
  {
    if a == [] {
      assert a + [cp] == [cp] && [cp][1..] == [];
    } else {
      Utf8Append(a[1..], cp);
      assert (a + [cp])[1..] == a[1..] + [cp] && (a + [cp])[0] == a[0];
      Regroup(Enc8(a[0]), Utf8(a[1..]), Enc8(cp));
      Regroup(Enc16(a[0]), Utf16(a[1..]), Enc16(cp));
    }
  }

  lemma {:induction false} Utf16Grows(a: seq<int>, b: seq<int>)
    requires Scalars(a) && Scalars(b) && a <= b
    ensures |Utf16(a)| <= |Utf16(b)| && Utf8(a) <= Utf8(b)
  {
    if a != [] { Utf16Grows(a[1..], b[1..]); }
  }

  // ------------------------------------------------- reading one character

  /** The length a lead byte announces, 0 if it is no lead byte; and the bits lead and trail bytes contribute. */
  function LeadLength(b: byte): nat {
    if b < 0x80 then 1 else if 0xC0 <= b < 0xE0 then 2
    else if 0xE0 <= b < 0xF0 then 3 else if 0xF0 <= b < 0xF8 then 4 else 0
  }

  function LeadBits(b: int): int {
    if b < 0x80 then b else if b < 0xE0 then b % 32 else if b < 0xF0 then b % 16 else b % 8
  }

  predicate Trail(b: byte) { 0x80 <= b < 0xC0 }

  function TrailBits(b: int): int { b % 64 }

  function MinFor(len: nat): int {
    if len <= 1 then 0 else if len == 2 then 0x80 else if len == 3 then 0x800 else 0x10000
  }

  /** What the first n bytes spell, without regard to whether they should. */
  ghost function Value(s: seq<byte>, n: nat): int
    requires 1 <= n <= |s|
  {
    if n == 1 then LeadBits(s[0]) else Value(s, n - 1) * 64 + TrailBits(s[n - 1])
  }

  /** A character at the front of s, by the tests of the loop in utf8_to_utf16. */
  ghost predicate Spells(s: seq<byte>, cp: int, len: nat) {
    && s != [] && len == LeadLength(s[0]) > 0 && len <= |s|
    && (forall k :: 1 <= k < len ==> Trail(s[k]))
    && cp == Value(s, len) && Scalar(cp) && cp >= MinFor(len)
  }

  // Base-64 digits.

  lemma Digits2(a: int, b: int)
    requires 0 <= b < 64
    ensures (a * 64 + b) / 64 == a && (a * 64 + b) % 64 == b
  {
  }

  lemma Digits3(a: int, b: int, c: int)
    requires 0 <= b < 64 && 0 <= c < 64
    ensures var v := (a * 64 + b) * 64 + c; v / 4096 == a && v / 64 % 64 == b && v % 64 == c
  {
    Digits2(a * 64 + b, c);
    Digits2(a, b);
  }

  lemma Digits4(a: int, b: int, c: int, d: int)
    requires 0 <= b < 64 && 0 <= c < 64 && 0 <= d < 64
    ensures
      var v := ((a * 64 + b) * 64 + c) * 64 + d;
      v / 262144 == a && v / 4096 % 64 == b && v / 64 % 64 == c && v % 64 == d
  {
    var w := (a * 64 + b) * 64 + c;
    Digits3(a, b, c);
    Digits2(w, d);
    assert (w * 64 + d) / 4096 == w / 64;
    assert (w * 64 + d) / 262144 == w / 4096;
  }

  lemma Trails(b: byte)
    requires Trail(b)
    ensures TrailBits(b) == b - 0x80
  {
  }

  lemma Leads(b: byte)
    requires LeadLength(b) > 0
    ensures LeadBits(b) == if b < 0x80 then b else if b < 0xE0 then b - 0xC0 else if b < 0xF0 then b - 0xE0
      else b - 0xF0
  {
  }

  function Off(b: int, base: int): int { b - base }

  lemma Recompose(v: int)
    requires v >= 0
    ensures v == v / 64 * 64 + v % 64
    ensures v == (v / 4096 * 64 + v / 64 % 64) * 64 + v % 64
    ensures v == ((v / 262144 * 64 + v / 4096 % 64) * 64 + v / 64 % 64) * 64 + v % 64
  {
    assert v / 4096 == v / 64 / 64 && v / 262144 == v / 4096 / 64;
  }

  /** Value in terms of the digits. */
  lemma Value2(s: seq<byte>)
    requires |s| >= 2 && LeadLength(s[0]) == 2 && Trail(s[1])
    ensures Value(s, 2) == Off(s[0], 0xC0) * 64 + Off(s[1], 0x80)
  {
    Leads(s[0]);
    Trails(s[1]);
  }

  lemma Value3(s: seq<byte>)
    requires |s| >= 3 && LeadLength(s[0]) == 3 && Trail(s[1]) && Trail(s[2])
    ensures Value(s, 3) == (Off(s[0], 0xE0) * 64 + Off(s[1], 0x80)) * 64 + Off(s[2], 0x80)
  {
    Leads(s[0]);
    Trails(s[1]);
    Trails(s[2]);
    assert Value(s, 2) == LeadBits(s[0]) * 64 + TrailBits(s[1]);
  }

  lemma Value4(s: seq<byte>)
    requires |s| >= 4 && LeadLength(s[0]) == 4 && Trail(s[1]) && Trail(s[2]) && Trail(s[3])
    ensures Value(s, 4) == ((Off(s[0], 0xF0) * 64 + Off(s[1], 0x80)) * 64 + Off(s[2], 0x80)) * 64 + Off(s[3], 0x80)
  {
    Leads(s[0]);
    Trails(s[1]);
    Trails(s[2]);
    Trails(s[3]);
    assert Value(s, 2) == LeadBits(s[0]) * 64 + TrailBits(s[1]);
    assert Value(s, 3) == Value(s, 2) * 64 + TrailBits(s[2]);
  }

  lemma Enc8Digits3(a: int, b: int, c: int)
    requires 0 <= b < 64 && 0 <= c < 64 && 0x800 <= (a * 64 + b) * 64 + c < 0x10000 && Scalar((a * 64 + b) * 64 + c)
    ensures Enc8((a * 64 + b) * 64 + c) == [0xE0 + a, 0x80 + b, 0x80 + c]
  {
    Digits3(a, b, c);
  }

  lemma Enc8Digits4(a: int, b: int, c: int, d: int)
    requires 0 <= b < 64 && 0 <= c < 64 && 0 <= d < 64 && 0x10000 <= ((a * 64 + b) * 64 + c) * 64 + d <= 0x10FFFF
    ensures Enc8(((a * 64 + b) * 64 + c) * 64 + d) == [0xF0 + a, 0x80 + b, 0x80 + c, 0x80 + d]
  {
    Digits4(a, b, c, d);
  }

  /** What passes the tests is the encoding of what it spells. */
  lemma EncodingSpells(s: seq<byte>, cp: int, len: nat)
    requires Spells(s, cp, len)
    ensures Enc8(cp) == s[..len]
  {
    if len == 2 {
      Value2(s);
      Digits2(Off(s[0], 0xC0), Off(s[1], 0x80));
    } else if len == 3 {
      Value3(s);
      Enc8Digits3(Off(s[0], 0xE0), Off(s[1], 0x80), Off(s[2], 0x80));
    } else if len == 4 {
      Value4(s);
      Enc8Digits4(Off(s[0], 0xF0), Off(s[1], 0x80), Off(s[2], 0x80), Off(s[3], 0x80));
    }
  }

  /** And every encoding passes them. */
  lemma SpellsEncoding(s: seq<byte>, cp: int)
    requires Scalar(cp) && Enc8(cp) <= s
    ensures Spells(s, cp, |Enc8(cp)|)
  {
    var e := Enc8(cp);
    assert forall k :: 0 <= k < |e| ==> s[k] == e[k];
    Recompose(cp);
    if |e| == 2 {
      Value2(s);
    } else if |e| == 3 {
      Value3(s);
    } else if |e| == 4 {
      Value4(s);
    }
  }

  /** No encoding is the beginning of another. */
  lemma PrefixFree(s: seq<byte>, a: int, b: int)
    requires Scalar(a) && Scalar(b) && Enc8(a) <= s && Enc8(b) <= s
    ensures a == b
  {
    SpellsEncoding(s, a);
    SpellsEncoding(s, b);
  }

  lemma CancelHead(a: seq<int>, b: seq<int>)
    requires Scalars(a) && Scalars(b) && a != [] && Utf8(a) <= Utf8(b)
    ensures b != [] && a[0] == b[0] && Utf8(a[1..]) <= Utf8(b[1..])
  {
    assert Enc8(a[0]) <= Utf8(a);
    assert b != [];
    PrefixFree(Utf8(b), a[0], b[0]);
    var n := |Enc8(a[0])|;
    assert Utf8(a)[n..] == Utf8(a[1..]) && Utf8(b)[n..] == Utf8(b[1..]);
  }

  /** So text that starts like a decoded prefix goes on from it. */
  lemma {:induction false} Cancel(a: seq<int>, b: seq<int>)
    requires Scalars(a) && Scalars(b) && Utf8(a) <= Utf8(b)
    ensures a <= b && Utf8(b) == Utf8(a) + Utf8(b[|a|..])
    decreases |a|
  {
    if a != [] {
      CancelHead(a, b);
      Cancel(a[1..], b[1..]);
      assert b[1..][|a[1..]|..] == b[|a|..];
      Regroup(Enc8(a[0]), Utf8(a[1..]), Utf8(b[|a|..]));
    }
  }

  // ------------------------------------------------- UTF-8 to UTF-16

  datatype Units = Units(units: seq<unit>) | Malformed | TooLong

  /** The name in UTF-8 of some sequence of characters. */
  ghost predicate WellFormed(s: seq<byte>) { exists cps :: Names(cps, s) }

  ghost predicate Names(cps: seq<int>, s: seq<byte>) { Scalars(cps) && Utf8(cps) == s }

  /** One turn of the loop: the character at the front of s, if there is one. */
  method DecodeOne(s: seq<byte>) returns (ok: bool, cp: int, len: nat)
    requires s != []
    ensures ok ==> 1 <= len <= |s| && Scalar(cp) && Enc8(cp) == s[..len]
    ensures !ok ==> forall c :: Scalar(c) ==> !(Enc8(c) <= s)
  {
    len := LeadLength(s[0]);
    cp := LeadBits(s[0]);
    if len == 0 {
      NothingSpelled(s);
      return false, cp, len;
    }
    for k := 1 to len
      invariant k <= |s| && cp == Value(s, k) && forall j :: 1 <= j < k ==> Trail(s[j])
    {
      if k >= |s| || !Trail(s[k]) {
        NothingSpelled(s);
        return false, cp, len;
      }
      cp := cp * 64 + TrailBits(s[k]);
    }
    if cp < MinFor(len) || !Scalar(cp) {
      NothingSpelled(s);
      return false, cp, len;
    }
    EncodingSpells(s, cp, len);
    return true, cp, len;
  }

  /** Text that passes no test encodes no character. */
  lemma NothingSpelled(s: seq<byte>)
    ensures forall c :: Scalar(c) && Enc8(c) <= s ==> Spells(s, c, |Enc8(c)|)
  {
    forall c | Scalar(c) && Enc8(c) <= s ensures Spells(s, c, |Enc8(c)|) { SpellsEncoding(s, c); }
  }

  /** Where no character can be read, no text goes on. */
  lemma Stuck(cps: seq<int>, s: seq<byte>, i: nat)
    requires i < |s| && Names(cps, s[..i]) && forall c :: Scalar(c) ==> !(Enc8(c) <= s[i..])
    ensures !WellFormed(s)
  {
    if all :| Names(all, s) {
      Cancel(cps, all);
      assert false;
    }
  }

  /** Every reading of s starts with the characters read so far. */
  lemma Reads(cps: seq<int>, s: seq<byte>, i: nat, all: seq<int>)
    requires i <= |s| && Names(cps, s[..i]) && Names(all, s)
    ensures cps <= all && |Utf16(cps)| <= |Utf16(all)|
  {
    Cancel(cps, all);
    Utf16Grows(cps, all);
  }

  lemma ReadsMore(cps: seq<int>, s: seq<byte>, i: nat, cp: int, len: nat)
    requires i + len <= |s| && Names(cps, s[..i]) && Scalar(cp) && Enc8(cp) == s[i..][..len]
    ensures Names(cps + [cp], s[..i + len]) && Utf16(cps + [cp]) == Utf16(cps) + Enc16(cp)
  {
    Utf8Append(cps, cp);
    assert s[..i + len] == s[..i] + s[i..][..len];
  }

  /** utf8_to_utf16: accepts exactly the well-formed names that fit, and converts them. */
  method ToUtf16(s: seq<byte>, cap: nat) returns (r: Units)
    ensures r.Units? ==> exists cps :: Names(cps, s) && r.units == Utf16(cps) && |r.units| <= cap
    ensures r.Malformed? ==> !WellFormed(s)
    ensures r.TooLong? ==> forall cps :: Names(cps, s) ==> |Utf16(cps)| > cap
  {
    var out: seq<unit> := [];
    var i := 0;
    ghost var cps: seq<int> := [];
    while i < |s|
      invariant i <= |s| && Names(cps, s[..i]) && out == Utf16(cps) && |out| <= cap
    {
      var ok, cp, len := DecodeOne(s[i..]);
      if !ok {
        Stuck(cps, s, i);
        return Malformed;
      }
      ReadsMore(cps, s, i, cp, len);
      if |out| + |Enc16(cp)| > cap {
        forall all | Names(all, s) ensures |Utf16(all)| > cap { Reads(cps + [cp], s, i + len, all); }
        return TooLong;
      }
      out, cps, i := out + Enc16(cp), cps + [cp], i + len;
    }
    assert s[..i] == s;
    return Units(out);
  }

  // ------------------------------------------------- UTF-16 to UTF-8

  predicate Ends(u: unit) { u == 0x0000 || u == 0xFFFF }

  predicate Paired(u: seq<unit>) { |u| >= 2 && 0xD800 <= u[0] <= 0xDBFF && 0xDC00 <= u[1] <= 0xDFFF }

  /** The character at the front of u, and how many units it takes; a surrogate without its partner reads as U+FFFD. */
  function Point(u: seq<unit>): (cp: int)
    requires u != []
    ensures Scalar(cp)
  {
    if Paired(u) then 0x10000 + Off(u[0], 0xD800) * 1024 + Off(u[1], 0xDC00)
    else if 0xD800 <= u[0] <= 0xDFFF then 0xFFFD
    else u[0]
  }

  function Width(u: seq<unit>): nat { if Paired(u) then 2 else 1 }

  /** The characters stored in u up to its terminator. */
  ghost function Points(u: seq<unit>): (r: seq<int>)
    ensures Scalars(r)
  {
    if u == [] || Ends(u[0]) then [] else [Point(u)] + Points(u[Width(u)..])
  }

  lemma PointOf(cp: int, rest: seq<unit>)
    requires Scalar(cp) && cp != 0 && cp != 0xFFFF
    ensures var u := Enc16(cp) + rest; !Ends(u[0]) && Point(u) == cp && Width(u) == |Enc16(cp)| && u[Width(u)..] == rest
  {
  }

  /** The high half of a pair comes first and carries the upper ten bits, in both directions. */
  lemma PairValue(hi: int, lo: int, rest: seq<unit>)
    requires 0 <= hi < 1024 && 0 <= lo < 1024
    ensures
      var u, cp := [0xD800 + hi, 0xDC00 + lo] + rest, 0x10000 + hi * 1024 + lo;
      Point(u) == cp && Width(u) == 2 && Enc16(cp) == u[..2]
  {
    assert (hi * 1024 + lo) / 1024 == hi && (hi * 1024 + lo) % 1024 == lo;
  }

  /** A half without its partner, or with it on the wrong side, is one character, and not a scalar of its own. */
  lemma LoneHalf(u: seq<unit>)
    requires u != [] && 0xD800 <= u[0] <= 0xDFFF
    requires u[0] >= 0xDC00 || |u| == 1 || u[1] < 0xDC00 || u[1] > 0xDFFF
    ensures Point(u) == 0xFFFD && Width(u) == 1 && Points(u) == [0xFFFD] + Points(u[1..])
  {
  }

  /** Reading back what was stored, with or without a terminator and padding after it. */
  lemma {:induction false} PointsInvert(cps: seq<int>, tail: seq<unit>)
    requires Scalars(cps) && forall i :: 0 <= i < |cps| ==> cps[i] != 0 && cps[i] != 0xFFFF
    requires tail == [] || Ends(tail[0])
    ensures Points(Utf16(cps) + tail) == cps
  {
    if cps == [] {
      assert Utf16(cps) + tail == tail;
    } else {
      var e, rest := Enc16(cps[0]), Utf16(cps[1..]) + tail;
      PointsInvert(cps[1..], tail);
      assert Utf16(cps) + tail == e + rest;
      PointOf(cps[0], rest);
    }
  }

  /** As many whole characters of ps as fit in room bytes. */
  ghost function Fit8(ps: seq<int>, room: int): (r: seq<byte>)
    requires Scalars(ps)
  {
    if ps == [] || |Enc8(ps[0])| > room then [] else Enc8(ps[0]) + Fit8(ps[1..], room - |Enc8(ps[0])|)
  }

  lemma {:induction false} FitAll(ps: seq<int>, room: int)
    requires Scalars(ps) && |Utf8(ps)| <= room
    ensures Fit8(ps, room) == Utf8(ps)
  {
    if ps != [] { FitAll(ps[1..], room - |Enc8(ps[0])|); }
  }

  /** The text stored in u, cut to room bytes. */
  ghost function Text(u: seq<unit>, room: int): seq<byte> { Fit8(Points(u), room) }

  lemma TextStep(u: seq<unit>, room: int)
    requires u != [] && !Ends(u[0])
    ensures |Enc8(Point(u))| > room ==> Text(u, room) == []
    ensures |Enc8(Point(u))| <= room ==> Text(u, room) == Enc8(Point(u)) + Text(u[Width(u)..], room - |Enc8(Point(u))|)
  {
    assert Points(u)[1..] == Points(u[Width(u)..]);
  }

  /** The bytes of one character, if there is room for them. */
  method Emit(u: seq<unit>, room: int) returns (e: seq<byte>, rest: seq<unit>)
    requires u != [] && !Ends(u[0])
    ensures e == [] ==> Text(u, room) == []
    ensures e != [] ==> Text(u, room) == e + Text(rest, room - |e|) && |rest| < |u|
  {
    TextStep(u, room);
    e, rest := Enc8(Point(u)), u[Width(u)..];
    if |e| > room { e := []; }
  }

  /** utf16_to_utf8: the stored characters, as many as fit in cap - 1 bytes. */
  method FromUtf16(u: seq<unit>, cap: nat) returns (out: seq<byte>)
    requires cap > 0
    ensures out == Text(u, cap - 1)
  {
    out := [];
    var left := u;
    while left != [] && !Ends(left[0])
      invariant Text(u, cap - 1) == out + Text(left, cap - 1 - |out|)
      decreases |left|
    {
      var e, rest := Emit(left, cap - 1 - |out|);
      if e == [] { return; }
      Regroup(out, e, Text(rest, cap - 1 - |out| - |e|));
      out, left := out + e, rest;
    }
    assert Text(left, cap - 1 - |out|) == [];
  }

  // ------------------------------------------------- there and back

  lemma {:induction false} Utf8Split(a: seq<int>, b: seq<int>)
    requires Scalars(a) && Scalars(b)
    ensures Utf16(a + b) == Utf16(a) + Utf16(b) && |Utf8(a + b)| == |Utf8(a)| + |Utf8(b)|
  {
    if a == [] {
      assert a + b == b;
    } else {
      Utf8Split(a[1..], b);
      assert (a + b)[1..] == a[1..] + b && (a + b)[0] == a[0];
      Regroup(Enc16(a[0]), Utf16(a[1..]), Utf16(b));
    }
  }

  /** A stored name comes back whole exactly when it does not contain U+FFFF, which reads as padding. */
  lemma RoundTrip(s: seq<byte>, cps: seq<int>, tail: seq<unit>, room: int)
    requires Names(cps, s) && 0 !in cps && |s| <= room && (tail == [] || Ends(tail[0]))
    ensures Text(Utf16(cps) + tail, room) == s <==> 0xFFFF !in cps
  {
    if 0xFFFF !in cps {
      PointsInvert(cps, tail);
      FitAll(cps, room);
    } else {
      CutShort(s, cps, tail, room);
    }
  }

  lemma CutShort(s: seq<byte>, cps: seq<int>, tail: seq<unit>, room: int)
    requires Names(cps, s) && 0 !in cps && 0xFFFF in cps && |s| <= room
    ensures |Text(Utf16(cps) + tail, room)| < |s|
  {
    var k := FirstPad(cps);
    var a, b := cps[..k], cps[k..];
    assert cps == a + b;
    Utf8Split(a, b);
    assert Utf16(b) == [0xFFFF] + Utf16(b[1..]);
    var rest := Utf16(b) + tail;
    assert Utf16(cps) + tail == Utf16(a) + rest;
    PointsInvert(a, rest);
    FitAll(a, room);
  }

  lemma FirstPad(cps: seq<int>) returns (k: nat)
    requires 0xFFFF in cps
    ensures k < |cps| && cps[k] == 0xFFFF && 0xFFFF !in cps[..k]
  {
    k := 0;
    while cps[k] != 0xFFFF
      invariant k < |cps| && 0xFFFF !in cps[..k] && 0xFFFF in cps[k..]
      decreases |cps| - k
    {
      assert cps[..k + 1] == cps[..k] + [cps[k]] && cps[k..] == [cps[k]] + cps[k + 1..];
      k := k + 1;
    }
  }
}
