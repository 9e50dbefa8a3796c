/** The intrusive doubly linked free lists of kernel/mm/pmm.c: a block's links live in the block. */
module Dll {
  const NONE: int := -1

  ghost function Nth(l: seq<int>, i: int): int { if 0 <= i < |l| then l[i] else NONE }

  ghost predicate LinkedAt(next: seq<int>, prev: seq<int>, l: seq<int>, i: int)
    requires 0 <= i < |l|
  {
    0 <= l[i] < |next| == |prev| && next[l[i]] == Nth(l, i + 1) && prev[l[i]] == Nth(l, i - 1)
  }

  /** Following the links from `head` in either direction spells out l, each block once. */
  ghost predicate Threaded(next: seq<int>, prev: seq<int>, head: int, l: seq<int>) {
    && head == Nth(l, 0)
    && (forall i :: 0 <= i < |l| ==> LinkedAt(next, prev, l, i))
    && (forall i, j :: 0 <= i < j < |l| ==> l[i] != l[j])
  }

  lemma ThreadedFrame(next: seq<int>, prev: seq<int>, next': seq<int>, prev': seq<int>, head: int, l: seq<int>)
    requires Threaded(next, prev, head, l) && |next'| == |next| && |prev'| == |prev|
    requires forall i :: 0 <= i < |l| ==>
      0 <= l[i] < |next| == |prev| && next'[l[i]] == next[l[i]] && prev'[l[i]] == prev[l[i]]
    ensures Threaded(next', prev', head, l)
  {
    forall i | 0 <= i < |l| ensures LinkedAt(next', prev', l, i) { assert LinkedAt(next, prev, l, i); }
  }

  // ------------------------------------------------- list_push

  ghost function PushNext(next: seq<int>, head: int, x: int): seq<int>
    requires 0 <= x < |next|
  {
    next[x := head]
  }

  ghost function PushPrev(prev: seq<int>, head: int, x: int): seq<int>
    requires 0 <= x < |prev| && (head == NONE || 0 <= head < |prev|)
  {
    var p := prev[x := NONE];
    if head == NONE then p else p[head := x]
  }

  lemma PushThreaded(next: seq<int>, prev: seq<int>, head: int, l: seq<int>, x: int)
    requires Threaded(next, prev, head, l) && 0 <= x < |next| == |prev| && x !in l
    ensures head == NONE || 0 <= head < |prev|
    ensures Threaded(PushNext(next, head, x), PushPrev(prev, head, x), x, [x] + l)
    ensures forall y :: 0 <= y < |next| && y !in l && y != x ==>
      PushNext(next, head, x)[y] == next[y] && PushPrev(prev, head, x)[y] == prev[y]
  {
    if l != [] { assert LinkedAt(next, prev, l, 0); }
    var l', next', prev' := [x] + l, PushNext(next, head, x), PushPrev(prev, head, x);
    forall i | 0 <= i < |l'| ensures LinkedAt(next', prev', l', i) {
      if i > 0 { assert LinkedAt(next, prev, l, i - 1); }
    }
  }

  // ------------------------------------------------- list_remove

  ghost function Cut(l: seq<int>, i: int): seq<int>
    requires 0 <= i < |l|
  {
    l[..i] + l[i + 1..]
  }

  ghost function RemoveNext(next: seq<int>, prev: seq<int>, x: int): seq<int>
    requires 0 <= x < |next| == |prev| && prev[x] < |next|
  {
    if prev[x] >= 0 then next[prev[x] := next[x]] else next
  }

  ghost function RemovePrev(next: seq<int>, prev: seq<int>, x: int): seq<int>
    requires 0 <= x < |next| == |prev| && next[x] < |next|
  {
    if next[x] >= 0 then prev[next[x] := prev[x]] else prev
  }

  lemma RemoveBounds(next: seq<int>, prev: seq<int>, head: int, l: seq<int>, i: int)
    requires Threaded(next, prev, head, l) && 0 <= i < |l|
    ensures var x := l[i]; 0 <= x < |next| == |prev| && -1 <= prev[x] < |next| && -1 <= next[x] < |next|
    ensures var x := l[i]; next[x] == Nth(l, i + 1) && prev[x] == Nth(l, i - 1)
  {
    assert LinkedAt(next, prev, l, i);
    if i > 0 { assert LinkedAt(next, prev, l, i - 1); }
    if i + 1 < |l| { assert LinkedAt(next, prev, l, i + 1); }
  }

  lemma RemoveThreaded(next: seq<int>, prev: seq<int>, head: int, l: seq<int>, i: int)
    requires Threaded(next, prev, head, l) && 0 <= i < |l|
    requires var x := l[i]; 0 <= x < |next| == |prev| && -1 <= prev[x] < |next| && -1 <= next[x] < |next|
    ensures
      var x := l[i];
      var head' := if prev[x] >= 0 then head else next[x];
      Threaded(RemoveNext(next, prev, x), RemovePrev(next, prev, x), head', Cut(l, i))
    ensures forall y :: 0 <= y < |next| && y !in l ==>
      RemoveNext(next, prev, l[i])[y] == next[y] && RemovePrev(next, prev, l[i])[y] == prev[y]
  {
    var x, l', next', prev' := l[i], Cut(l, i), RemoveNext(next, prev, l[i]), RemovePrev(next, prev, l[i]);
    RemoveBounds(next, prev, head, l, i);
    forall j | 0 <= j < |l'| ensures LinkedAt(next', prev', l', j) {
      RemoveAt(next, prev, head, l, i, j);
    }
    assert forall a :: 0 <= a < |l'| ==> l'[a] == l[if a < i then a else a + 1];
    assert i > 0 ==> prev[x] in l && LinkedAt(next, prev, l, i - 1);
    assert i + 1 < |l| ==> next[x] in l;
  }

  lemma RemoveAt(next: seq<int>, prev: seq<int>, head: int, l: seq<int>, i: int, j: int)
    requires Threaded(next, prev, head, l) && 0 <= i < |l| && 0 <= j < |l| - 1
    requires var x := l[i]; 0 <= x < |next| == |prev| && -1 <= prev[x] < |next| && -1 <= next[x] < |next|
    ensures LinkedAt(RemoveNext(next, prev, l[i]), RemovePrev(next, prev, l[i]), Cut(l, i), j)
  {
    RemoveBounds(next, prev, head, l, i);
    var k := if j < i then j else j + 1;
    assert Cut(l, i)[j] == l[k];
    assert LinkedAt(next, prev, l, k);
    assert Nth(Cut(l, i), j + 1) == if j + 1 < i then Nth(l, j + 1) else Nth(l, j + 2);
    assert Nth(Cut(l, i), j - 1) == if j - 1 < i then Nth(l, j - 1) else Nth(l, j);
  }

  lemma CutMembers(l: seq<int>, i: int)
    requires 0 <= i < |l| && forall a, b :: 0 <= a < b < |l| ==> l[a] != l[b]
    ensures forall x :: x in Cut(l, i) <==> x in l && x != l[i]
  {
    forall x | x in l && x != l[i] ensures x in Cut(l, i) {
      var j :| 0 <= j < |l| && l[j] == x;
      assert Cut(l, i)[if j < i then j else j - 1] == x;
    }
  }
}
