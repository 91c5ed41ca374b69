/** Wire frames and the byte stream they form on a connection. */
module Frames {
  import opened ByteStrings

  /** What the template parameters fix: ring capacity, the four bytes of the type id, the payload size
      and the size of a frame, which is padded beyond type id and payload. */
  datatype Config = Config(capacity: nat, typeId: Bytes, size: nat, frameSize: nat) {
    predicate Valid() { |typeId| == 4 && frameSize >= 4 + size }

    /** Type id and payload written over a ring slot; the padding keeps what the slot held. */
    function Frame(payload: Bytes, slot: Bytes): (f: Bytes)
      requires Valid() && |payload| == size && |slot| == frameSize
      ensures |f| == frameSize && f[..4] == typeId && f[4..4 + size] == payload && f[4 + size..] == slot[4 + size..]
    {
      typeId + payload + slot[4 + size..]
    }

    predicate IsFrame(f: Bytes) { |f| == frameSize && |typeId| == 4 <= frameSize && f[..4] == typeId }

    function Payload(f: Bytes): Bytes
      requires Valid() && |f| == frameSize
    {
      f[4..4 + size]
    }
  }

  ghost predicate AllOfSize(frames: seq<Bytes>, n: nat) { forall i :: 0 <= i < |frames| ==> |frames[i]| == n }

  /** The bytes of the frames from position `start` on. */
  function Stream(frames: seq<Bytes>, start: nat): Bytes
    decreases |frames| - start
  {
    if start >= |frames| then [] else frames[start] + Stream(frames, start + 1)
  }

  /** The length of `k` frames of `n` bytes. */
  function Span(k: nat, n: nat): nat { if k == 0 then 0 else Span(k - 1, n) + n }

  lemma {:induction false} SpanMonotone(j: nat, k: nat, n: nat)
    requires j <= k
    ensures Span(j, n) <= Span(k, n)
  {
    if j < k {
      SpanMonotone(j, k - 1, n);
    }
  }

  lemma {:induction false} StreamLength(frames: seq<Bytes>, start: nat, n: nat)
    requires AllOfSize(frames, n) && start <= |frames|
    ensures |Stream(frames, start)| == Span(|frames| - start, n)
    decreases |frames| - start
  {
    if start < |frames| {
      StreamLength(frames, start + 1, n);
    }
  }

  lemma {:induction false} StreamAppend(frames: seq<Bytes>, start: nat, f: Bytes)
    requires start <= |frames|
    ensures Stream(frames + [f], start) == Stream(frames, start) + f
    decreases |frames| - start
  {
    if start < |frames| {
      StreamAppend(frames, start + 1, f);
      assert frames[start] + (Stream(frames, start + 1) + f) == frames[start] + Stream(frames, start + 1) + f;
    } else {
      assert Stream(frames + [f], start + 1) == [];
      assert f + [] == f;
    }
  }

  /** The byte `r` past the first `k` frames of the stream lies `r` bytes into frame `start + k`. */
  lemma {:induction false} StreamAt(frames: seq<Bytes>, start: nat, n: nat, k: nat, r: nat, m: nat)
    requires AllOfSize(frames, n) && start + k < |frames| && r + m <= n
    ensures Span(k, n) + r + m <= |Stream(frames, start)|
    ensures Stream(frames, start)[Span(k, n) + r..Span(k, n) + r + m] == frames[start + k][r..r + m]
    decreases k
  {
    var s := Stream(frames, start);
    if k == 0 {
      assert s[r..r + m] == frames[start][r..r + m];
    } else {
      var rest := Stream(frames, start + 1);
      StreamAt(frames, start + 1, n, k - 1, r, m);
      var o := Span(k - 1, n) + r;
      assert s == frames[start] + rest;
      assert s[n + o..n + o + m] == rest[o..o + m];
    }
  }

  /** One byte of the stream. */
  lemma StreamByte(frames: seq<Bytes>, start: nat, n: nat, k: nat, r: nat)
    requires AllOfSize(frames, n) && start + k < |frames| && r < n
    ensures Span(k, n) + r < |Stream(frames, start)| && Stream(frames, start)[Span(k, n) + r] == frames[start + k][r]
  {
    StreamAt(frames, start, n, k, r, 1);
    var s, o := Stream(frames, start), Span(k, n) + r;
    assert s[o] == s[o..o + 1][0] == frames[start + k][r..r + 1][0];
  }

  /** Whole frames that fit below `w` are no more than the whole frames counted in `w`. */
  lemma WholeFrames(a: nat, b: nat, n: nat, w: nat)
    requires Span(a, n) <= w < Span(b + 1, n)
    ensures a <= b
  {
    if a > b {
      SpanMonotone(b + 1, a, n);
    }
  }
}
