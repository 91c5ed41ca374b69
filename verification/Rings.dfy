/** Ring buffers that keep one slot empty: the `conduit` (indices modulo Size) and the
`spsc_ring_buffer` (indices masked by a power of two) refine the same bounded FIFO queue. */
module Rings {
  import opened Words
  import opened Options

  /** The items between read index `r` and write index `w`, oldest first. */
  function Items<T>(ring: seq<T>, r: nat, w: nat): seq<T>
    requires r < |ring| && w < |ring|
  {
    if r <= w then ring[r..w] else ring[r..] + ring[..w]
  }

  /** The index after `i`, going round. */
  function Next(i: nat, size: nat): (j: nat)
    requires i < size
    ensures j < size
  {
    if i + 1 == size then 0 else i + 1
  }

  lemma NextIsModulo(i: nat, size: nat)
    requires i < size
    ensures (i + 1) % size == Next(i, size)
  {
    RemainderUnique(i + 1, size, if i + 1 == size then 1 else 0, Next(i, size));
  }

  lemma NextIsMask(i: nat, size: nat, k: nat)
    requires size == Pow2(k) && i < size
    ensures BitAnd(i + 1, size - 1) == Next(i, size)
  {
    MaskIsRemainder(i + 1, k);
    NextIsModulo(i, size);
  }

  /** At most size - 1 items fit; the ring is full exactly when the write index is one behind the read
      index, and empty exactly when they meet. */
  lemma FullAndEmpty<T>(ring: seq<T>, r: nat, w: nat)
    requires r < |ring| && w < |ring|
    ensures |Items(ring, r, w)| <= |ring| - 1
    ensures Next(w, |ring|) == r <==> |Items(ring, r, w)| == |ring| - 1
    ensures r == w <==> Items(ring, r, w) == []
  {
  }

  /** Writing the slot at the write index touches no item. */
  lemma WriteSpareSlot<T>(ring: seq<T>, r: nat, w: nat, x: T)
    requires r < |ring| && w < |ring|
    ensures Items(ring[w := x], r, w) == Items(ring, r, w)
  {
  }

  /** Advancing the write index makes the slot it passes the newest item. */
  lemma Publish<T>(ring: seq<T>, r: nat, w: nat)
    requires r < |ring| && w < |ring| && Next(w, |ring|) != r
    ensures Items(ring, r, Next(w, |ring|)) == Items(ring, r, w) + [ring[w]]
  {
  }

  /** Advancing the read index drops the oldest item, which is the one at the read index. */
  lemma Consume<T>(ring: seq<T>, r: nat, w: nat)
    requires r < |ring| && w < |ring| && r != w
    ensures Items(ring, r, w) == [ring[r]] + Items(ring, Next(r, |ring|), w)
  {
  }

  // ---------- the specification ----------

  /** A FIFO queue of at most `capacity` items. */
  function Offer<T>(q: seq<T>, capacity: nat, x: T): (seq<T>, bool) {
    if |q| < capacity then (q + [x], true) else (q, false)
  }

  /** What a caller of `pop` gets: the pointer in front, which may be null, and null when there is none. */
  function Take<T>(q: seq<Option<T>>): (seq<Option<T>>, Option<T>) {
    if q == [] then (q, None) else (q[1..], q[0])
  }

  /** Null from `pop` means that the queue is empty or that a null pointer was in front. */
  predicate NullInFront<T>(q: seq<Option<T>>) { q == [] || q[0].None? }

  // ---------- the two rings ----------

  /** A ring of pointers.  Null is `None`; `push` takes it like any other pointer. */
  class Conduit<T> {
    const ring: array<Option<T>>
    var writeIdx: nat
    var readIdx: nat

    ghost predicate Valid()
      reads this
    {
      writeIdx < ring.Length && readIdx < ring.Length
    }

    ghost function Contents(): seq<Option<T>>
      requires Valid()
      reads this, ring
    {
      Items(ring[..], readIdx, writeIdx)
    }

    constructor (size: nat)
      requires size >= 1
      ensures Valid() && Contents() == [] && ring.Length == size && fresh(ring)
    {
      ring := new Option<T>[size];
      writeIdx, readIdx := 0, 0;
    }

    method Push(x: Option<T>) returns (ok: bool)
      requires Valid()
      modifies `writeIdx, ring
      ensures Valid()
      ensures ok <==> |old(Contents())| < ring.Length - 1
      ensures Contents() == if ok then old(Contents()) + [x] else old(Contents())
      ensures ok <==> old(Next(writeIdx, ring.Length) != readIdx)
      ensures !ok ==> unchanged(this) && unchanged(ring)
    {
      var currentWrite := writeIdx;
      var nextWrite := (currentWrite + 1) % ring.Length;
      NextIsModulo(currentWrite, ring.Length);
      FullAndEmpty(ring[..], readIdx, writeIdx);
      if nextWrite == readIdx {
        return false;
      }
      WriteSpareSlot(ring[..], readIdx, writeIdx, x);
      ring[currentWrite] := x;
      Publish(ring[..], readIdx, currentWrite);
      writeIdx := nextWrite;
      return true;
    }

    method Pop() returns (x: Option<T>)
      requires Valid()
      modifies `readIdx
      ensures Valid()
      ensures old(Contents()) == [] ==> x == None && Contents() == []
      ensures old(Contents()) != [] ==> x == old(Contents())[0] && Contents() == old(Contents())[1..]
      ensures old(Contents()) == [] ==> unchanged(this)
    {
      var currentRead := readIdx;
      FullAndEmpty(ring[..], readIdx, writeIdx);
      if currentRead == writeIdx {
        return None;
      }
      Consume(ring[..], readIdx, writeIdx);
      NextIsModulo(currentRead, ring.Length);
      var item := ring[currentRead];
      readIdx := (currentRead + 1) % ring.Length;
      return item;
    }
  }

  class SpscRingBuffer<T> {
    const buffer: array<Option<T>>
    var writeIdx: Word32
    var readIdx: Word32
    ghost const exponent: nat

    ghost predicate Valid()
      reads this
    {
      buffer.Length == Pow2(exponent) < B32 && writeIdx < buffer.Length && readIdx < buffer.Length
    }

    ghost function Contents(): seq<Option<T>>
      requires Valid()
      reads this, buffer
    {
      Items(buffer[..], readIdx, writeIdx)
    }

    constructor (capacity: nat, ghost exponent: nat)
      requires capacity == Pow2(exponent) < B32
      ensures Valid() && Contents() == [] && buffer.Length == capacity && fresh(buffer)
    {
      buffer := new Option<T>[capacity];
      writeIdx, readIdx, this.exponent := 0, 0, exponent;
    }

    method Push(x: Option<T>) returns (ok: bool)
      requires Valid()
      modifies `writeIdx, buffer
      ensures Valid()
      ensures ok <==> |old(Contents())| < buffer.Length - 1
      ensures Contents() == if ok then old(Contents()) + [x] else old(Contents())
    {
      var currentWrite := writeIdx;
      var nextWrite := BitAnd(currentWrite + 1, buffer.Length - 1);
      NextIsMask(currentWrite, buffer.Length, exponent);
      FullAndEmpty(buffer[..], readIdx, writeIdx);
      if nextWrite == readIdx {
        return false;
      }
      WriteSpareSlot(buffer[..], readIdx, writeIdx, x);
      buffer[currentWrite] := x;
      Publish(buffer[..], readIdx, currentWrite);
      writeIdx := nextWrite;
      return true;
    }

    method Pop() returns (x: Option<T>)
      requires Valid()
      modifies `readIdx
      ensures Valid()
      ensures old(Contents()) == [] ==> x == None && Contents() == []
      ensures old(Contents()) != [] ==> x == old(Contents())[0] && Contents() == old(Contents())[1..]
    {
      var currentRead := readIdx;
      FullAndEmpty(buffer[..], readIdx, writeIdx);
      if currentRead == writeIdx {
        return None;
      }
      Consume(buffer[..], readIdx, writeIdx);
      NextIsMask(currentRead, buffer.Length, exponent);
      var item := buffer[currentRead];
      readIdx := BitAnd(currentRead + 1, buffer.Length - 1);
      return item;
    }
  }
}
