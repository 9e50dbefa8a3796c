/** kernel/ipc/pipe.c: the ring buffer behind a pipe. */
module PipeRing {
  import opened Bytes

  const PIPE_CAPACITY: nat := 4096

  function Wrap(head: nat, i: nat): (k: nat)
    ensures k < PIPE_CAPACITY
  {
    (head + i) % PIPE_CAPACITY
  }

  /** n bytes of the ring from head on. */
  ghost function Window(b: seq<byte>, head: nat, n: nat): (s: seq<byte>)
    requires |b| == PIPE_CAPACITY
    ensures |s| == n && forall i :: 0 <= i < n ==> s[i] == b[Wrap(head, i)]
  {
    seq(n, i requires 0 <= i < n => b[Wrap(head, i)])
  }

  lemma WrapWrap(head: nat, i: nat, j: nat)
    ensures Wrap(Wrap(head, i), j) == Wrap(head, i + j)
  {
  }

  /** Within one capacity, every index has a slot of its own. */
  lemma WrapOwn(head: nat, i: nat, j: nat)
    requires i < j < i + PIPE_CAPACITY
    ensures Wrap(head, i) != Wrap(head, j)
  {
  }

  lemma WindowPush(b: seq<byte>, head: nat, n: nat, x: byte)
    requires |b| == PIPE_CAPACITY && n < PIPE_CAPACITY
    ensures Window(b[Wrap(head, n) := x], head, n + 1) == Window(b, head, n) + [x]
  {
    forall i: nat | i < n ensures Wrap(head, i) != Wrap(head, n) { WrapOwn(head, i, n); }
  }

  lemma WindowDrop(b: seq<byte>, head: nat, count: nat, n: nat)
    requires |b| == PIPE_CAPACITY && n <= count
    ensures Window(b, Wrap(head, n), count - n) == Window(b, head, count)[n..]
  {
    forall i: nat | i < count - n ensures Wrap(Wrap(head, n), i) == Wrap(head, n + i) { WrapWrap(head, n, i); }
  }

  class Ring {
    const buf: array<byte>
    var head: nat
    var count: nat

    ghost predicate Valid()
      reads this
    {
      buf.Length == PIPE_CAPACITY && head < PIPE_CAPACITY && count <= PIPE_CAPACITY
    }

    /** The bytes in the pipe, oldest first. */
    ghost function Contents(): seq<byte>
      requires Valid()
      reads this, buf
    {
      Window(buf[..], head, count)
    }

    constructor ()
      ensures Valid() && fresh(buf) && Contents() == []
    {
      buf := new byte[PIPE_CAPACITY];
      head, count := 0, 0;
    }

    /** ring_read: takes the oldest bytes, as many as asked for and there. */
    method RingRead(want: nat) returns (out: seq<byte>)
      requires Valid()
      modifies this`head, this`count
      ensures Valid() && |out| == (if want < old(count) then want else old(count))
      ensures out == old(Contents())[..|out|] && Contents() == old(Contents())[|out|..]
    {
      var n := if want < count then want else count;
      out := [];
      for i := 0 to n
        invariant out == Contents()[..i] && head == old(head) && count == old(count)
      {
        out := out + [buf[Wrap(head, i)]];
      }
      WindowDrop(buf[..], head, count, n);
      head := Wrap(head, n);
      count := count - n;
    }

    /** ring_write: appends as many of the bytes as there is space for. */
    method RingWrite(bytes: seq<byte>) returns (n: nat)
      requires Valid()
      modifies this`count, buf
      ensures Valid() && n == (if |bytes| < PIPE_CAPACITY - old(count) then |bytes| else PIPE_CAPACITY - old(count))
      ensures Contents() == old(Contents()) + bytes[..n]
    {
      var space := PIPE_CAPACITY - count;
      n := if |bytes| < space then |bytes| else space;
      var tail := Wrap(head, count);
      for i := 0 to n
        invariant count == old(count) && Window(buf[..], head, count + i) == old(Contents()) + bytes[..i]
      {
        WrapWrap(head, count, i);
        WindowPush(buf[..], head, count + i, bytes[i]);
        buf[Wrap(tail, i)] := bytes[i];
      }
      count := count + n;
    }
  }
}
