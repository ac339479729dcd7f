/** The ring buffer of kernel/core/pipe.c. */
module Pipes {
  import opened Bytes

  const NO_READERS: nat := 0xFFFF_FFFF

  /** The position k places behind tail in a ring of n. */
  function Slot(tail: nat, k: nat, n: nat): (r: nat)
    requires tail < n && k <= n
    ensures r < n
  {
    if tail + k < n then tail + k else tail + k - n
  }

  /** The len entries of b from tail on, around the end. */
  ghost function Ring(b: seq<int>, tail: nat, len: nat): (r: seq<int>)
    requires tail < |b| && len <= |b|
    ensures |r| == len && forall k :: 0 <= k < len ==> r[k] == b[Slot(tail, k, |b|)]
  {
    seq(len, k requires 0 <= k < len => b[Slot(tail, k, |b|)])
  }

  lemma Push(b: seq<int>, tail: nat, len: nat, x: int)
    requires tail < |b| && len < |b|
    ensures Ring(b[Slot(tail, len, |b|) := x], tail, len + 1) == Ring(b, tail, len) + [x]
  {
  }

  lemma Pop(b: seq<int>, tail: nat, len: nat)
    requires tail < |b| && 0 < len <= |b|
    ensures Ring(b, tail, len) == [b[tail]] + Ring(b, Slot(tail, 1, |b|), len - 1)
  {
  }

  lemma SlotNext(tail: nat, len: nat, n: nat)
    requires tail < n && len < n
    ensures Slot(Slot(tail, len, n), 1, n) == Slot(tail, len + 1, n)
    ensures Slot(tail, len + 1, n) == Slot(Slot(tail, 1, n), len, n)
  {
  }

  lemma Shift(a: seq<int>, x: int, b: seq<int>)
    ensures a + ([x] + b) == a + [x] + b
  {
  }

  /** The source steps with a remainder. */
  lemma StepIs(p: nat, n: nat)
    requires p < n
    ensures (p + 1) % n == Slot(p, 1, n)
  {
    if p + 1 == n {
      assert (p + 1) % n == 0;
    }
  }

  class Pipe {
    const buffer: array<int>
    var head: nat
    var tail: nat
    var len: nat
    ghost var sent: seq<int>      // every byte a write accepted
    ghost var received: seq<int>  // every byte a read returned

    /** The bytes in the pipe, oldest first. */
    ghost function Queue(): seq<int>
      reads this, buffer
      requires tail < buffer.Length && len <= buffer.Length
    {
      Ring(buffer[..], tail, len)
    }

    /** head = (tail + len) mod size, and what was accepted is what was read
        followed by what is still there. */
    ghost predicate Valid()
      reads this, buffer
    {
      && tail < buffer.Length && len <= buffer.Length && head == Slot(tail, len, buffer.Length)
      && sent == received + Queue()
    }

    constructor (size: nat)
      requires 0 < size
      ensures Valid() && buffer.Length == size && Queue() == [] && sent == received == [] && fresh(buffer)
    {
      buffer := new int[size];
      head, tail, len := 0, 0, 0;
      sent, received := [], [];
    }

    /** pipe_write: refused without readers, else as much as fits. */
    method Write(data: seq<int>, readers: nat) returns (n: nat)
      requires Valid()
      modifies this, buffer
      ensures Valid() && received == old(received)
      ensures readers == 0 ==> n == 0xFFFF_FFFF && Queue() == old(Queue()) && sent == old(sent)
      ensures readers > 0 ==>
                && n == Min(|data|, buffer.Length - old(len))
                && Queue() == old(Queue()) + data[..n] && sent == old(sent) + data[..n]
    {
      if readers == 0 {
        return NO_READERS;
      }
      n := Fill(data);
    }

    /** The copy loop of pipe_write. */
    method Fill(data: seq<int>) returns (n: nat)
      requires Valid()
      modifies this, buffer
      ensures Valid() && n == Min(|data|, buffer.Length - old(len)) && len == old(len) + n
      ensures Queue() == old(Queue()) + data[..n] && sent == old(sent) + data[..n] && received == old(received)
    {
      hide Ring, Slot;
      var size := buffer.Length;
      n := 0;
      while n < |data| && len < size
        invariant n <= |data| && len == old(len) + n <= size && Valid()
        invariant Queue() == old(Queue()) + data[..n] && sent == old(sent) + data[..n] && received == old(received)
      {
        StepIs(head, size);
        SlotNext(tail, len, size);
        Push(buffer[..], tail, len, data[n]);
        ghost var b := buffer[..][head := data[n]];
        buffer[head] := data[n];
        assert buffer[..] == b;
        sent := sent + [data[n]];
        head := (head + 1) % size;
        len := len + 1;
        assert data[..n] + [data[n]] == data[..n + 1];
        n := n + 1;
      }
    }

    /** One turn of the copy loop of pipe_read: the oldest byte. */
    method Take() returns (x: int)
      requires Valid() && len > 0
      modifies this
      ensures Valid() && len == old(len) - 1
      ensures old(Queue()) == [x] + Queue() && received == old(received) + [x] && sent == old(sent)
    {
      hide Ring, Slot;
      StepIs(tail, buffer.Length);
      SlotNext(tail, len - 1, buffer.Length);
      Pop(buffer[..], tail, len);
      x := buffer[tail];
      ghost var q := Ring(buffer[..], Slot(tail, 1, buffer.Length), len - 1);
      Shift(received, x, q);
      received := received + [x];
      tail := (tail + 1) % buffer.Length;
      len := len - 1;
    }

    /** The copy loop of pipe_read: as much as there is, oldest first. */
    method Read(want: nat) returns (data: seq<int>)
      requires Valid()
      modifies this
      ensures Valid() && |data| == Min(want, old(len)) && len == old(len) - |data|
      ensures old(Queue()) == data + Queue() && received == old(received) + data && sent == old(sent)
    {
      hide Ring, Slot;
      data := [];
      while |data| < want && len > 0
        invariant |data| <= want && |data| <= old(len) && len == old(len) - |data| && Valid()
        invariant old(Queue()) == data + Queue() && received == old(received) + data && sent == old(sent)
      {
        var x := Take();
        Shift(data, x, Queue());
        data := data + [x];
      }
    }
  }
}
