/** kernel/ipc/futex.c: waiters hashed by key into singly linked lists, each record on its sleeper's own stack. */
module Futex {
  import opened Bytes
  import opened Dll

  const FUTEX_BUCKETS: nat := 64

  /** bucket_for: a multiplicative hash of the physical address of the word. */
  function Bucket(key: nat): (b: nat)
    ensures b < FUTEX_BUCKETS
  {
    key / 4 * 0x9E3779B97F4A7C15 % U64 / 0x0400_0000_0000_0000 % FUTEX_BUCKETS
  }

  // ------------------------------------------------- singly linked lists

  ghost predicate LinkAt(next: seq<int>, l: seq<int>, i: int)
    requires 0 <= i < |l|
  {
    0 <= l[i] < |next| && next[l[i]] == Nth(l, i + 1)
  }

  /** From head on, `next` threads exactly l, which repeats nothing. */
  ghost predicate Chained(next: seq<int>, head: int, l: seq<int>) {
    && head == Nth(l, 0)
    && (forall i :: 0 <= i < |l| ==> LinkAt(next, l, i))
    && (forall i, j :: 0 <= i < j < |l| ==> l[i] != l[j])
  }

  lemma ChainedFrame(next: seq<int>, next': seq<int>, head: int, l: seq<int>)
    requires Chained(next, head, l) && |next'| == |next| && forall i :: 0 <= i < |l| && 0 <= l[i] < |next| ==>
      next'[l[i]] == next[l[i]]
    ensures Chained(next', head, l)
  {
    forall i | 0 <= i < |l| ensures LinkAt(next', l, i) { assert LinkAt(next, l, i); }
  }

  lemma ChainedPush(next: seq<int>, head: int, l: seq<int>, w: int)
    requires Chained(next, head, l) && 0 <= w < |next| && w !in l
    ensures Chained(next[w := head], w, [w] + l)
  {
    var l', next' := [w] + l, next[w := head];
    forall i | 0 <= i < |l'| ensures LinkAt(next', l', i) {
      if i > 0 { assert LinkAt(next, l, i - 1); }
    }
  }

  /** Unlinking the record after position i - 1, through the pointer that leads to it. */
  lemma ChainedCut(next: seq<int>, head: int, l: seq<int>, i: nat)
    requires Chained(next, head, l) && i < |l|
    ensures 0 <= l[i] < |next| && (i > 0 ==> 0 <= l[i - 1] < |next|)
    ensures if i == 0 then Chained(next, next[l[0]], Cut(l, 0))
      else Chained(next[l[i - 1] := next[l[i]]], head, Cut(l, i))
  {
    assert LinkAt(next, l, i);
    if i > 0 { assert LinkAt(next, l, i - 1); }
    var next', l' := if i == 0 then next else next[l[i - 1] := next[l[i]]], Cut(l, i);
    forall k | 0 <= k < |l'| ensures LinkAt(next', l', k) {
      assert LinkAt(next, l, if k < i then k else k + 1);
      assert k + 1 < i ==> l'[k + 1] == l[k + 1];
    }
  }

  // ------------------------------------------------- who a wake takes

  ghost predicate Keyed(l: seq<int>, keys: seq<nat>) { forall i :: 0 <= i < |l| ==> 0 <= l[i] < |keys| }

  /** The first waiters on the key, val of them or all there are; and the rest of the list. */
  ghost function Gone(l: seq<int>, keys: seq<nat>, key: nat, val: nat): seq<int>
    requires Keyed(l, keys)
  {
    if l == [] || val == 0 then []
    else if keys[l[0]] == key then [l[0]] + Gone(l[1..], keys, key, val - 1)
    else Gone(l[1..], keys, key, val)
  }

  ghost function Left(l: seq<int>, keys: seq<nat>, key: nat, val: nat): seq<int>
    requires Keyed(l, keys)
  {
    if l == [] || val == 0 then l
    else if keys[l[0]] == key then Left(l[1..], keys, key, val - 1)
    else [l[0]] + Left(l[1..], keys, key, val)
  }

  ghost function Matching(l: seq<int>, keys: seq<nat>, key: nat): nat
    requires Keyed(l, keys)
  {
    if l == [] then 0 else (if keys[l[0]] == key then 1 else 0) + Matching(l[1..], keys, key)
  }

  /** A wake takes min(val, waiters on the key) of them, never one on another key, and nobody twice. */
  lemma {:induction false} GoneIs(l: seq<int>, keys: seq<nat>, key: nat, val: nat)
    requires Keyed(l, keys)
    ensures |Gone(l, keys, key, val)| == if val < Matching(l, keys, key) then val else Matching(l, keys, key)
    ensures forall x :: x in Gone(l, keys, key, val) ==> x in l && keys[x] == key
    ensures forall x :: x in l <==> x in Gone(l, keys, key, val) || x in Left(l, keys, key, val)
    ensures val >= Matching(l, keys, key) ==> forall x :: x in Left(l, keys, key, val) ==> keys[x] != key
  {
    if l != [] {
      GoneIs(l[1..], keys, key, if keys[l[0]] == key && val > 0 then val - 1 else val);
      assert forall x :: x in l <==> x == l[0] || x in l[1..];
    }
  }

  lemma {:induction false} LeftMatching(l: seq<int>, keys: seq<nat>, key: nat, val: nat)
    requires Keyed(l, keys)
    ensures Keyed(Left(l, keys, key, val), keys)
    ensures Matching(Left(l, keys, key, val), keys, key) + |Gone(l, keys, key, val)| == Matching(l, keys, key)
  {
    if l != [] && val > 0 {
      if keys[l[0]] == key {
        LeftMatching(l[1..], keys, key, val - 1);
      } else {
        LeftMatching(l[1..], keys, key, val);
        assert Left(l, keys, key, val)[1..] == Left(l[1..], keys, key, val);
      }
    }
  }

  lemma {:induction false} LeftApart(l: seq<int>, keys: seq<nat>, key: nat, val: nat)
    requires Keyed(l, keys) && forall i, j :: 0 <= i < j < |l| ==> l[i] != l[j]
    ensures forall x :: x in Gone(l, keys, key, val) ==> x !in Left(l, keys, key, val)
  {
    if l != [] && val > 0 {
      var v := if keys[l[0]] == key then val - 1 else val;
      LeftApart(l[1..], keys, key, v);
      GoneIs(l[1..], keys, key, v);
    }
  }

  // ------------------------------------------------- the table

  /** Every bucket's list is threaded, and holds waiters of its own keys only. */
  ghost predicate Buckets(h: nat -> nat, heads: seq<int>, next: seq<int>, keys: seq<nat>, lists: seq<seq<int>>) {
    && |heads| == |lists| == FUTEX_BUCKETS && |next| == |keys|
    && (forall b :: 0 <= b < FUTEX_BUCKETS ==> Chained(next, heads[b], lists[b]))
    && (forall b, i :: 0 <= b < FUTEX_BUCKETS && 0 <= i < |lists[b]| ==> HashesTo(h, lists[b][i], keys, b))
  }

  ghost predicate HashesTo(h: nat -> nat, w: int, keys: seq<nat>, b: int) { 0 <= w < |keys| && h(keys[w]) == b }

  lemma BucketsPush(h: nat -> nat, heads: seq<int>, next: seq<int>, keys: seq<nat>, lists: seq<seq<int>>, w: int,
                    key: nat)
    requires Buckets(h, heads, next, keys, lists) && 0 <= w < |next| && h(key) < FUTEX_BUCKETS
    requires forall b :: 0 <= b < FUTEX_BUCKETS ==> w !in lists[b]
    ensures var b := h(key); Buckets(h, heads[b := w], next[w := heads[b]], keys[w := key], lists[b := [w] + lists[b]])
  {
    var b := h(key);
    var heads', next', keys', lists' := heads[b := w], next[w := heads[b]], keys[w := key], lists[b := [w] + lists[b]];
    ChainedPush(next, heads[b], lists[b], w);
    forall c | 0 <= c < FUTEX_BUCKETS && c != b ensures Chained(next', heads'[c], lists'[c]) {
      ChainedFrame(next, next', heads[c], lists[c]);
    }
    forall c, i | 0 <= c < FUTEX_BUCKETS && 0 <= i < |lists'[c]| ensures HashesTo(h, lists'[c][i], keys', c) {
      if c == b && i > 0 { assert HashesTo(h, lists[b][i - 1], keys, b); }
      if c != b { assert HashesTo(h, lists[c][i], keys, c); }
    }
  }

  lemma BucketsCut(h: nat -> nat, heads: seq<int>, next: seq<int>, keys: seq<nat>, lists: seq<seq<int>>, b: int, i: nat)
    requires Buckets(h, heads, next, keys, lists) && 0 <= b < FUTEX_BUCKETS && i < |lists[b]|
    ensures var l := lists[b]; 0 <= l[i] < |next| && (i > 0 ==> 0 <= l[i - 1] < |next|)
    ensures var l := lists[b];
            if i == 0 then Buckets(h, heads[b := next[l[0]]], next, keys, lists[b := Cut(l, 0)])
            else Buckets(h, heads, next[l[i - 1] := next[l[i]]], keys, lists[b := Cut(l, i)])
  {
    var l := lists[b];
    ChainedCut(next, heads[b], l, i);
    var next' := if i == 0 then next else next[l[i - 1] := next[l[i]]];
    forall c | 0 <= c < FUTEX_BUCKETS && c != b ensures Chained(next', heads[c], lists[c]) {
      forall k | 0 <= k < |lists[c]| ensures i > 0 ==> lists[c][k] != l[i - 1] {
        assert HashesTo(h, lists[c][k], keys, c);
        if i > 0 { assert HashesTo(h, l[i - 1], keys, b); }
      }
      ChainedFrame(next, next', heads[c], lists[c]);
    }
    forall k | 0 <= k < |Cut(l, i)|
      ensures HashesTo(h, Cut(l, i)[k], keys, b) { assert HashesTo(h, l[if k < i then k else k + 1], keys, b); }
  }

  /** A sweep of l has come to position i of what is left of it, with the records gone taken. */
  ghost predicate Swept(l: seq<int>, keys: seq<nat>, key: nat, val: nat, now: seq<int>, i: nat, gone: seq<int>)
    requires Keyed(l, keys)
  {
    ( && i <= |now| && |gone| <= val && Keyed(now[i..], keys)
      && now[..i] + Left(now[i..], keys, key, val - |gone|) == Left(l, keys, key, val)
      && gone + Gone(now[i..], keys, key, val - |gone|) == Gone(l, keys, key, val)) == true
  }

  lemma SweptStart(l: seq<int>, keys: seq<nat>, key: nat, val: nat)
    requires Keyed(l, keys)
    ensures Swept(l, keys, key, val, l, 0, [])
  {
    assert l[0..] == l;
  }

  lemma SweptOne(l: seq<int>, keys: seq<nat>, key: nat, val: nat, now: seq<int>, i: nat, gone: seq<int>)
    requires Keyed(l, keys) && Swept(l, keys, key, val, now, i, gone) && i < |now| && |gone| < val
    ensures 0 <= now[i] < |keys|
    ensures keys[now[i]] == key ==> Swept(l, keys, key, val, Cut(now, i), i, gone + [now[i]])
    ensures keys[now[i]] != key ==> Swept(l, keys, key, val, now, i + 1, gone)
  {
    var w, rest, v := now[i], now[i..], val - |gone|;
    assert rest[0] == w && rest[1..] == now[i + 1..];
    if keys[w] == key {
      assert Cut(now, i)[..i] == now[..i] && Cut(now, i)[i..] == now[i + 1..];
      Regroup(gone, [w], Gone(now[i + 1..], keys, key, v - 1));
    } else {
      assert now[..i + 1] == now[..i] + [w];
      Regroup(now[..i], [w], Left(now[i + 1..], keys, key, v));
    }
  }

  lemma SweptEnd(l: seq<int>, keys: seq<nat>, key: nat, val: nat, now: seq<int>, i: nat, gone: seq<int>)
    requires Keyed(l, keys) && Swept(l, keys, key, val, now, i, gone) && (i == |now| || |gone| == val)
    ensures now == Left(l, keys, key, val) && gone == Gone(l, keys, key, val)
  {
    assert now == now[..i] + now[i..];
  }

  /** The flags with those of the records gone set. */
  ghost predicate Marked(woken: seq<bool>, woken': seq<bool>, gone: seq<int>) {
    |woken'| == |woken| && forall w :: 0 <= w < |woken| ==> woken'[w] == (woken[w] || w in gone)
  }

  lemma MarkOne(woken: seq<bool>, woken': seq<bool>, gone: seq<int>, w: int)
    requires Marked(woken, woken', gone) && 0 <= w < |woken|
    ensures Marked(woken, woken'[w := true], gone + [w])
  {
  }

  class Futexes {
    const hash: nat -> nat
    var heads: seq<int>
    var next: seq<int>
    var keys: seq<nat>
    var woken: seq<bool>
    ghost var lists: seq<seq<int>>
    /** The records whose wait has not returned. */
    ghost var inside: set<int>

    ghost predicate Tables()
      reads this
    {
      Buckets(hash, heads, next, keys, lists) == true && |woken| == |keys| && forall k: nat :: hash(k) < FUTEX_BUCKETS
    }

    /** A record is listed exactly while its wait has been neither woken nor given up. */
    ghost predicate Valid()
      reads this
    {
      && Tables()
      && (forall b, i :: 0 <= b < FUTEX_BUCKETS && 0 <= i < |lists[b]| ==> Sleeping(lists[b][i]))
      && (forall w :: w in inside ==> 0 <= w < |keys| && (!woken[w] ==> w in lists[hash(keys[w])]))
    }

    ghost predicate Sleeping(w: int)
      reads this
    {
      w in inside && 0 <= w < |woken| && !woken[w]
    }

    /** futex_init, with room for n records. */
    constructor (n: nat)
      ensures Valid() && |keys| == n && inside == {}
    {
      hash := Bucket;
      heads := seq(FUTEX_BUCKETS, _ => NONE);
      next := seq(n, _ => NONE);
      keys := seq(n, _ => 0);
      woken := seq(n, _ => false);
      lists := seq(FUTEX_BUCKETS, _ => []);
      inside := {};
    }

    /**
     * The atomic step of futex_wait: a word that no longer has the expected value is reported; otherwise the record
     * is on its key's list before the bucket lock is given up.
     */
    method Enqueue(w: int, key: nat, current: nat, val: nat) returns (again: bool)
      requires Valid() && 0 <= w < |keys| && w !in inside
      modifies this
      ensures Valid() && again == (current != val)
      ensures again ==>
        heads == old(heads) && next == old(next) && woken == old(woken) && inside == old(inside) && lists == old(lists)
      ensures !again ==> inside == old(inside) + {w} && keys == old(keys)[w := key] && woken == old(woken)[w := false]
      ensures !again ==> lists == old(lists)[hash(key) := [w] + old(lists)[hash(key)]]
    {
      if current != val { return true; }
      var b := hash(key);
      BucketsPush(hash, heads, next, keys, lists, w, key);
      keys := keys[w := key];
      woken := woken[w := false];
      next := next[w := heads[b]];
      heads := heads[b := w];
      lists := lists[b := [w] + lists[b]];
      inside := inside + {w};
      return false;
    }

    /** Takes record w, which prev (or the bucket itself) points at, off its list. */
    method Unlink(b: nat, prev: int, w: int, ghost i: nat)
      requires Tables() && b < FUTEX_BUCKETS && i < |lists[b]| && w == lists[b][i] && prev == Nth(lists[b], i - 1)
      modifies this`heads, this`next, this`lists
      ensures Tables() && lists == old(lists)[b := Cut(old(lists)[b], i)]
    {
      BucketsCut(hash, heads, next, keys, lists, b, i);
      if prev == NONE {
        heads := heads[b := next[w]];
      } else {
        next := next[prev := next[w]];
      }
      lists := lists[b := Cut(lists[b], i)];
    }

    /** The walk of the pointer to w in a list: the record before it. */
    method Locate(b: nat, w: int) returns (prev: int, cur: int, ghost i: nat)
      requires Tables() && b < FUTEX_BUCKETS
      ensures i <= |lists[b]| && cur == Nth(lists[b], i) && prev == Nth(lists[b], i - 1) && w !in lists[b][..i] &&
        (cur == NONE || cur == w)
    {
      assert Chained(next, heads[b], lists[b]);
      prev, cur, i := NONE, heads[b], 0;
      while cur != NONE && cur != w
        invariant i <= |lists[b]| && cur == Nth(lists[b], i) && prev == Nth(lists[b], i - 1) && w !in lists[b][..i]
        decreases |lists[b]| - i
      {
        assert LinkAt(next, lists[b], i);
        assert lists[b][..i + 1] == lists[b][..i] + [lists[b][i]];
        prev, cur, i := cur, next[cur], i + 1;
      }
    }

    /** The end of futex_wait, however the sleep ended: the record is on no list, and the frame may go. */
    method Finish(w: int) returns (roused: bool)
      requires Valid() && w in inside
      modifies this`heads, this`next, this`lists, this`inside
      ensures Valid() && roused == woken[w] && inside == old(inside) - {w}
      ensures forall b :: 0 <= b < FUTEX_BUCKETS ==> w !in lists[b]
      ensures forall b, x :: 0 <= b < FUTEX_BUCKETS && x != w ==> (x in lists[b] <==> x in old(lists)[b])
    {
      roused := woken[w];
      var b := hash(keys[w]);
      NotElsewhere(w);
      if !roused {
        var prev, cur;
        ghost var i;
        prev, cur, i := Locate(b, w);
        assert lists[b][..|lists[b]|] == lists[b];
        assert Chained(next, heads[b], lists[b]);
        CutMembers(lists[b], i);
        Unlink(b, prev, cur, i);
      }
      inside := inside - {w};
    }

    /** A record is on its own key's list only, and on none once woken. */
    lemma NotElsewhere(w: int)
      requires Valid() && w in inside
      ensures forall b :: 0 <= b < FUTEX_BUCKETS && w in lists[b] ==> b == hash(keys[w]) && !woken[w]
    {
      forall b | 0 <= b < FUTEX_BUCKETS && w in lists[b] ensures b == hash(keys[w]) && !woken[w] {
        var i :| 0 <= i < |lists[b]| && lists[b][i] == w;
        assert HashesTo(hash, lists[b][i], keys, b) && Sleeping(lists[b][i]);
      }
    }

    /** The other buckets' lists are as they were. */
    twostate predicate OnlyBucket(b: nat)
      reads this
    {
      |lists| == |old(lists)| && forall c :: 0 <= c < |lists| && c != b ==> lists[c] == old(lists)[c]
    }

    /** One record of the sweep: taken off and marked if it waits on the key. */
    method SweepTurn(b: nat, key: nat, prev: int, cur: int, ghost i: nat) returns (taken: bool, after: int)
      requires Tables() && b < FUTEX_BUCKETS && i < |lists[b]| && cur == lists[b][i] && prev == Nth(lists[b], i - 1)
      modifies this`heads, this`next, this`woken, this`lists
      ensures Tables() && OnlyBucket(b) && 0 <= cur < |keys| && taken == (keys[cur] == key)
      ensures after == Nth(lists[b], if taken then i else i + 1) && (taken ==> prev == Nth(lists[b], i - 1))
      ensures lists[b] == (if taken then Cut(old(lists)[b], i) else old(lists)[b])
      ensures woken == (if taken then old(woken)[cur := true] else old(woken))
    {
      assert Chained(next, heads[b], lists[b]) && LinkAt(next, lists[b], i);
      after := next[cur];
      taken := keys[cur] == key;
      if taken {
        Unlink(b, prev, cur, i);
        woken := woken[cur := true];
      }
    }

    /** The loop of futex_wake: takes the first val waiters on the key off the list, marking each. */
    method Sweep(b: nat, key: nat, val: nat) returns (n: nat)
      requires Tables() && b < FUTEX_BUCKETS
      modifies this`heads, this`next, this`woken, this`lists
      ensures Tables() && Keyed(old(lists)[b], keys) && OnlyBucket(b)
      ensures lists[b] == Left(old(lists)[b], keys, key, val) && n == |Gone(old(lists)[b], keys, key, val)|
      ensures Marked(old(woken), woken, Gone(old(lists)[b], keys, key, val))
    {
      ghost var l := lists[b];
      ghost var i, gone: seq<int> := 0, [];
      AllKeyed(b);
      SweptStart(l, keys, key, val);
      assert Chained(next, heads[b], l);
      var prev, cur := NONE, heads[b];
      n := 0;
      while cur != NONE && n < val
        invariant Tables() && OnlyBucket(b) && n == |gone| && Swept(l, keys, key, val, lists[b], i, gone)
        invariant i <= |lists[b]| && prev == Nth(lists[b], i - 1) && cur == Nth(lists[b], i)
        invariant Marked(old(woken), woken, gone) == true
        decreases |lists[b]| - i
      {
        SweptOne(l, keys, key, val, lists[b], i, gone);
        MarkOne(old(woken), woken, gone, cur);
        var taken, after := SweepTurn(b, key, prev, cur, i);
        if taken {
          n, gone := n + 1, gone + [cur];
        } else {
          prev, i := cur, i + 1;
        }
        cur := after;
      }
      InRange(b, i);
      SweptEnd(l, keys, key, val, lists[b], i, gone);
    }

    lemma InRange(b: nat, i: nat)
      requires Tables() && b < FUTEX_BUCKETS && i <= |lists[b]|
      ensures Nth(lists[b], i) == NONE <==> i == |lists[b]|
    {
      if i < |lists[b]| { assert HashesTo(hash, lists[b][i], keys, b); }
    }

    lemma AllKeyed(b: nat)
      requires Tables() && b < FUTEX_BUCKETS
      ensures Keyed(lists[b], keys)
    {
      forall i | 0 <= i < |lists[b]| ensures 0 <= lists[b][i] < |keys| { assert HashesTo(hash, lists[b][i], keys, b); }
    }

    /** How many waits on the key are asleep. */
    ghost function Waiters(key: nat): nat
      requires Tables()
      reads this
    {
      AllKeyed(hash(key));
      Matching(lists[hash(key)], keys, key)
    }

    /** A waiter on the key is asleep just when the key's list has it. */
    lemma Listed(w: int, key: nat)
      requires Valid() && w in inside && keys[w] == key
      ensures Sleeping(w) <==> w in lists[hash(key)]
    {
      if w in lists[hash(key)] {
        var i :| 0 <= i < |lists[hash(key)]| && lists[hash(key)][i] == w;
        assert Sleeping(lists[hash(key)][i]);
      }
    }

    /**
     * futex_wake.  It rouses min(val, sleeping waiters) of the waits on the key; a wait on another key is left alone
     * even where it shares the bucket.
     */
    method Wake(key: nat, val: nat) returns (n: nat)
      requires Valid()
      modifies this`heads, this`next, this`woken, this`lists
      ensures Valid() && n == (if val < old(Waiters(key)) then val else old(Waiters(key))) &&
        Waiters(key) == old(Waiters(key)) - n
      ensures |woken| == |old(woken)| && forall w :: w in inside && keys[w] != key ==> woken[w] == old(woken)[w]
      ensures forall w :: w in inside && old(woken)[w] ==> woken[w]
      ensures val >= old(Waiters(key)) ==> forall w :: w in inside && keys[w] == key ==> woken[w]
    {
      var b := hash(key);
      AllKeyed(b);
      ghost var l := lists[b];
      n := Sweep(b, key, val);
      GoneIs(l, keys, key, val);
      assert Chained(old(next), old(heads)[b], l);
      LeftApart(l, keys, key, val);
      LeftMatching(l, keys, key, val);
    }

    /** futex_requeue, which wakes the waits it is asked to move: together min(val + val2, sleeping waiters). */
    method Requeue(key: nat, val: nat, val2: nat) returns (n: nat)
      requires Valid()
      modifies this`heads, this`next, this`woken, this`lists
      ensures Valid() && n == (if val + val2 < old(Waiters(key)) then val + val2 else old(Waiters(key)))
      ensures Waiters(key) == old(Waiters(key)) - n
      ensures |woken| == |old(woken)| && forall w :: w in inside && keys[w] != key ==> woken[w] == old(woken)[w]
      ensures forall w :: w in inside && old(woken)[w] ==> woken[w]
    {
      n := Wake(key, val);
      if val2 > 0 {
        var more := Wake(key, val2);
        n := n + more;
      }
    }
  }
}
