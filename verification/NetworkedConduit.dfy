/** `networked_conduit` as an object: the transmit ring, the partial-send and partial-receive state, and
the polling loops, with every `send` and `recv` answered by a script of outcomes. */
module NetworkedConduit {
  import opened Words
  import opened Options
  import opened ByteStrings
  import opened Frames
  import opened EventPtrs

  /** What a non-blocking system call answers.  `Moved(n)` moves `n` bytes, but at least one and at most
      as many as were asked for; `Closed` is the zero that `recv` returns at end of stream. */
  datatype Io = Moved(n: nat) | WouldBlock | Failed | Closed

  function Clip(n: nat, asked: nat): (m: nat)
    requires asked >= 1
    ensures 1 <= m <= asked && (1 <= n <= asked ==> m == n)
  {
    if n == 0 then 1 else if n > asked then asked else n
  }

  function Outcome(script: seq<Io>, i: nat): Io { if i < |script| then script[i] else WouldBlock }

  /** The outcomes that kill a conduit. */
  predicate Fatal(io: Io) { io.Failed? || io.Closed? }

  /** What `recv` answers when `left` bytes have arrived and were not read: with none left it would block. */
  function Answer(script: seq<Io>, i: nat, left: nat): Io {
    if left == 0 && Outcome(script, i).Moved? then WouldBlock else Outcome(script, i)
  }

  /** The first `calls` outcomes all moved something. */
  ghost predicate AllMoved(script: seq<Io>, calls: nat) { forall j :: 0 <= j < calls ==> Outcome(script, j).Moved? }

  /** What the ring holds at position `i`. */
  function At(ring: seq<Bytes>, i: nat): Bytes { if ring == [] then [] else ring[i % |ring|] }

  /** The frames of `ring` from position `tail` to position `head`. */
  function Queued(ring: seq<Bytes>, tail: nat, head: nat): (q: seq<Bytes>)
    requires tail <= head
    ensures |q| == head - tail
    ensures forall i :: 0 <= i < |q| ==> q[i] == At(ring, tail + i)
  {
    seq(head - tail, i requires 0 <= i < head - tail => At(ring, tail + i))
  }

  lemma AtUpdate(ring: seq<Bytes>, i: nat, j: nat, f: Bytes)
    requires |ring| > 0
    ensures i % |ring| < |ring|
    ensures At(ring[i % |ring| := f], i) == f
    ensures j < i < j + |ring| ==> At(ring[i % |ring| := f], j) == At(ring, j)
  {
    if j < i < j + |ring| {
      SlotsDiffer(j, i, |ring|);
    }
  }

  lemma QueuedAppend(ring: seq<Bytes>, tail: nat, head: nat, f: Bytes)
    requires tail <= head < tail + |ring|
    ensures head % |ring| < |ring|
    ensures Queued(ring[head % |ring| := f], tail, head + 1) == Queued(ring, tail, head) + [f]
  {
    AtUpdate(ring, head, head, f);
    var ring' := ring[head % |ring| := f];
    var q, q' := Queued(ring, tail, head), Queued(ring', tail, head + 1);
    forall i | 0 <= i < |q'| ensures q'[i] == (q + [f])[i] {
      AtUpdate(ring, head, tail + i, f);
    }
  }

  /** The capacity is a power of two, or zero, which the compile-time test lets through as well. */
  ghost predicate PowerOfTwoOrZero(c: nat) { c == 0 || exists k: nat :: c == Pow2(k) }

  lemma SlotByMask(i: nat, ring: seq<Bytes>)
    requires PowerOfTwoOrZero(|ring|) && |ring| > 0
    ensures BitAnd(i, |ring| - 1) == i % |ring| < |ring|
    ensures ring[BitAnd(i, |ring| - 1)] == At(ring, i)
    ensures At(ring, i) in ring
  {
    var k: nat :| |ring| == Pow2(k);
    MaskIsRemainder(i, k);
  }

  ghost predicate RingOk(cfg: Config, ring: seq<Bytes>) {
    PowerOfTwoOrZero(cfg.capacity) && |ring| == cfg.capacity && AllOfSize(ring, cfg.frameSize)
  }

  /** The transmit side: counters in order, whole frames in the ring, progress inside one frame. */
  ghost predicate TxOk(cfg: Config, ring: seq<Bytes>, tail: nat, head: nat, inflight: nat) {
    && RingOk(cfg, ring)
    && tail <= head <= tail + cfg.capacity
    && inflight < cfg.frameSize && (inflight > 0 ==> tail < head)
    && AllFrames(cfg, Queued(ring, tail, head))
  }

  ghost predicate AllFrames(cfg: Config, q: seq<Bytes>) { forall i :: 0 <= i < |q| ==> cfg.IsFrame(q[i]) }

  /** The payloads of the frames for which the pool had a cell. */
  function Handed(cfg: Config, frames: seq<Bytes>, makes: nat -> bool): seq<Bytes>
    requires cfg.Valid() && AllFrames(cfg, frames)
  {
    if frames == [] then []
    else
      var n := |frames| - 1;
      Handed(cfg, frames[..n], makes) + if makes(n) then [cfg.Payload(frames[n])] else []
  }

  /** What is handed on, in order: the payload of the `i`-th frame if and only if the pool had a cell for it. */
  lemma {:induction false} HandedAreMade(cfg: Config, frames: seq<Bytes>, makes: nat -> bool) returns (at: seq<nat>)
    requires cfg.Valid() && AllFrames(cfg, frames)
    ensures |at| == |Handed(cfg, frames, makes)| && forall i, j :: 0 <= i < j < |at| ==> at[i] < at[j]
    ensures forall j :: 0 <= j < |at| ==>
              at[j] < |frames| && makes(at[j]) && Handed(cfg, frames, makes)[j] == frames[at[j]][4..4 + cfg.size]
    ensures forall i: nat :: i < |frames| && makes(i) ==> i in at
    decreases frames
  {
    if frames == [] {
      at := [];
    } else {
      var n := |frames| - 1;
      at := HandedAreMade(cfg, frames[..n], makes);
      if makes(n) {
        at := at + [n];
        assert at[|at| - 1] == n;
      }
    }
  }

  /** `sent` is what follows the first `from` bytes of the queue's stream, and brings the total to `whole`
      frames and `inflight` bytes of the next. */
  ghost predicate Sent(n: nat, queue: seq<Bytes>, from: nat, sent: Bytes, whole: nat, inflight: nat) {
    && from + |sent| == Span(whole, n) + inflight <= |Stream(queue, 0)|
    && whole <= |queue| && inflight < n
    && sent == Stream(queue, 0)[from..from + |sent|]
  }

  lemma StartOfStream(cfg: Config, queue: seq<Bytes>, inflight: nat)
    requires AllFrames(cfg, queue) && inflight < cfg.frameSize && (inflight > 0 ==> queue != [])
    ensures Sent(cfg.frameSize, queue, inflight, [], 0, inflight)
  {
  }

  lemma SendMore(n: nat, queue: seq<Bytes>, from: nat, sent: Bytes, whole: nat, offset: nat, piece: Bytes,
                 whole': nat, offset': nat)
    requires AllOfSize(queue, n) && Sent(n, queue, from, sent, whole, offset) && whole < |queue|
    requires 1 <= |piece| <= n - offset && piece == queue[whole][offset..offset + |piece|]
    requires if offset + |piece| == n then whole' == whole + 1 && offset' == 0
             else whole' == whole && offset' == offset + |piece|
    ensures Sent(n, queue, from, sent + piece, whole', offset')
  {
    StreamAt(queue, 0, n, whole, offset, |piece|);
    var s, o := Stream(queue, 0), from + |sent|;
    assert s[from..o] + s[o..o + |piece|] == s[from..o + |piece|];
  }

  lemma Dequeue(cfg: Config, ring: seq<Bytes>, tail: nat, head: nat, inflight: nat, whole: nat, inflight': nat)
    requires TxOk(cfg, ring, tail, head, inflight) && tail + whole <= head
    requires inflight' < cfg.frameSize && (inflight' > 0 ==> tail + whole < head)
    ensures Queued(ring, tail + whole, head) == Queued(ring, tail, head)[whole..]
    ensures TxOk(cfg, ring, tail + whole, head, inflight')
  {
    var q, q' := Queued(ring, tail, head), Queued(ring, tail + whole, head);
    forall i | 0 <= i < |q'| ensures q'[i] == q[whole..][i] {
      assert tail + whole + i == tail + (whole + i);
    }
  }

  /** The bytes staged and then read are the stream of the frames completed and a rest, and the payloads handed
      on are those of the frames for which the pool had a cell. */
  ghost predicate CutUp(
    cfg: Config, staged: Bytes, read: Bytes, frames: seq<Bytes>, rest: Bytes, makes: nat -> bool, handed: seq<Bytes>)
  {
    && cfg.Valid() && AllFrames(cfg, frames) && handed == Handed(cfg, frames, makes)
    && staged + read == Stream(frames, 0) + rest
  }

  lemma CutMore(
    cfg: Config, staged: Bytes, incoming: Bytes, from: nat, to: nat, frames: seq<Bytes>, rest: Bytes,
    makes: nat -> bool, handed: seq<Bytes>)
    requires from <= to <= |incoming| && CutUp(cfg, staged, incoming[..from], frames, rest, makes, handed)
    ensures CutUp(cfg, staged, incoming[..to], frames, rest + incoming[from..to], makes, handed)
  {
    var got := incoming[from..to];
    assert incoming[..to] == incoming[..from] + got;
    assert staged + (incoming[..from] + got) == (staged + incoming[..from]) + got;
    assert Stream(frames, 0) + (rest + got) == (Stream(frames, 0) + rest) + got;
  }

  lemma CutFrame(
    cfg: Config, staged: Bytes, read: Bytes, frames: seq<Bytes>, f: Bytes, makes: nat -> bool, handed: seq<Bytes>)
    requires CutUp(cfg, staged, read, frames, f, makes, handed) && cfg.IsFrame(f)
    ensures CutUp(cfg, staged, read, frames + [f], [], makes, handed + if makes(|frames|) then [cfg.Payload(f)] else [])
  {
    StreamAppend(frames, 0, f);
    assert (frames + [f])[..|frames|] == frames;
    assert Stream(frames + [f], 0) + [] == Stream(frames + [f], 0);
  }

  class Conduit {
    const cfg: Config
    const txRing: array<Bytes>
    const rxStaging: array<Byte>
    var socket: int
    var dead: bool
    var txHead: nat
    var txTail: nat
    var inflight: nat
    var bytesRead: nat

    ghost predicate Valid()
      reads this, txRing, rxStaging
    {
      && cfg.Valid()
      && TxOk(cfg, txRing[..], txTail, txHead, inflight)
      && bytesRead < cfg.frameSize == rxStaging.Length
      && (dead ==> inflight == 0 && bytesRead == 0)
    }

    /** The frames accepted by `push` and not yet completely sent. */
    ghost function Queue(): seq<Bytes>
      requires txTail <= txHead
      reads this, txRing
    {
      Queued(txRing[..], txTail, txHead)
    }

    /** The bytes of a frame received so far. */
    ghost function Staged(): Bytes
      requires bytesRead <= rxStaging.Length
      reads this, rxStaging
    {
      rxStaging[..bytesRead]
    }

    constructor (cfg: Config, ring: array<Bytes>, staging: array<Byte>)
      requires cfg.Valid() && PowerOfTwoOrZero(cfg.capacity)
      requires ring.Length == cfg.capacity && AllOfSize(ring[..], cfg.frameSize) && staging.Length == cfg.frameSize
      ensures Valid() && dead && Queue() == [] && this.cfg == cfg && txRing == ring && rxStaging == staging
    {
      this.cfg, txRing, rxStaging := cfg, ring, staging;
      socket, dead, txHead, txTail, inflight, bytesRead := -1, true, 0, 0, 0, 0;
    }

    /** Binding resets nothing: what is half sent or half received stays, so it belongs after a death. */
    method BindSocket(fd: int)
      requires Valid()
      modifies `socket, `dead
      ensures Valid() && !dead && socket == fd
    {
      socket := fd;
      dead := false;
    }

    /** Any death drops what was half sent and half received; a second death changes nothing. */
    method MarkDead()
      modifies `dead, `inflight, `bytesRead
      ensures dead
      ensures if old(dead) then inflight == old(inflight) && bytesRead == old(bytesRead)
              else inflight == 0 && bytesRead == 0
    {
      if !dead {
        dead := true;
        bytesRead := 0;
        inflight := 0;
      }
    }

    /** `push` succeeds exactly when the conduit is alive, the event is there and the ring has room; the
        queue of frames then ends with a frame `f` of the event, and the event goes back to its pool.
        Otherwise the event stays with its pointer.  `bytes` is what the event's cell holds. */
    method Push(ev: EventPtr, bytes: Bytes, failures: nat) returns (ok: bool, ghost f: Bytes)
      requires Valid() && |bytes| == cfg.size && ev.Valid()
      requires {this, txRing, rxStaging} !! ({ev} + ev.Footprint())
      modifies `txHead, txRing, ev, ev.Footprint()
      ensures Valid()
      ensures dead || old(ev.cell).None? ==> !ok
      ensures !dead && old(ev.cell).Some? ==> (ok <==> |old(Queue())| < cfg.capacity)
      ensures Queue() == if ok then old(Queue()) + [f] else old(Queue())
      ensures ok ==> cfg.IsFrame(f) && cfg.Payload(f) == bytes
      ensures ok ==> ev.cell == None && !ev.owning && ev.pool == old(ev.pool)
      ensures ok && old(ev.Owner()) ==>
                ev.pool.Valid() && ev.pool.Cells() == [old(ev.cell.value)] + old(ev.pool.Cells())
      ensures !ok ==> unchanged(ev) && forall o :: o in ev.Footprint() ==> unchanged(o)
    {
      ok, f := false, [];
      if dead || ev.cell.None? {
        return;
      }
      var head, tail := txHead, txTail;
      if head - tail >= cfg.capacity {
        return;
      }
      f := Enqueue(bytes);
      ev.Reset(failures);
      ok := true;
    }

    /** The slot at the head is written, then the head advanced. */
    method Enqueue(bytes: Bytes) returns (ghost f: Bytes)
      requires Valid() && |bytes| == cfg.size && txHead - txTail < cfg.capacity
      modifies `txHead, txRing
      ensures Valid() && Queue() == old(Queue()) + [f] && cfg.IsFrame(f) && cfg.Payload(f) == bytes
    {
      var head, tail := txHead, txTail;
      SlotByMask(head, txRing[..]);
      var slot := BitAnd(head, cfg.capacity - 1);
      var frame := cfg.Frame(bytes, txRing[slot]);
      QueuedAppend(txRing[..], tail, head, frame);
      txRing[slot] := frame;
      txHead := head + 1;
      assert txRing[..] == old(txRing[..])[head % cfg.capacity := frame];
      assert Queue() == old(Queue()) + [frame];
      f := frame;
    }

    /** One turn of the sending loop: one `send` of what is left of the frame at `tail`. */
    method SendOnce(tail: nat, answer: Io) returns (tail': nat, piece: Bytes, stop: bool)
      requires cfg.Valid() && RingOk(cfg, txRing[..]) && cfg.capacity > 0 && !dead && inflight < cfg.frameSize
      modifies `dead, `inflight, `bytesRead
      ensures stop <==> !answer.Moved?
      ensures answer.Moved? ==>
                && 1 <= |piece| <= cfg.frameSize - old(inflight) && |At(txRing[..], tail)| == cfg.frameSize
                && piece == At(txRing[..], tail)[old(inflight)..old(inflight) + |piece|]
                && (if old(inflight) + |piece| == cfg.frameSize then tail' == tail + 1 && inflight == 0
                    else tail' == tail && inflight == old(inflight) + |piece|)
      ensures answer.Moved? && 1 <= answer.n <= cfg.frameSize - old(inflight) ==> |piece| == answer.n
      ensures stop ==> tail' == tail && piece == []
      ensures !dead ==> bytesRead == old(bytesRead) && (stop ==> inflight == old(inflight))
      ensures dead <==> answer.Failed? || answer.Closed?
      ensures dead ==> inflight == 0 && bytesRead == 0
    {
      tail', piece, stop := tail, [], true;
      SlotByMask(tail, txRing[..]);
      var frame := txRing[BitAnd(tail, cfg.capacity - 1)];
      match answer
      case Moved(n) =>
        var m := Clip(n, cfg.frameSize - inflight);
        piece, stop := frame[inflight..inflight + m], false;
        inflight := inflight + m;
        if inflight == cfg.frameSize {
          inflight, tail' := 0, tail + 1;
        }
      case WouldBlock =>
      case _ =>
        MarkDead();
    }

    /** The same, seen on the queue: what has been sent grows by a piece of the stream, or nothing is sent. */
    method SendNext(tail: nat, answer: Io, sent: Bytes, ghost queue: seq<Bytes>, ghost from: nat, ghost whole: nat)
      returns (tail': nat, sent': Bytes, stop: bool, ghost whole': nat, ghost offset': nat)
      requires cfg.Valid() && RingOk(cfg, txRing[..]) && !dead && txTail <= txHead <= txTail + cfg.capacity
      requires queue == Queued(txRing[..], txTail, txHead) && AllOfSize(queue, cfg.frameSize)
      requires tail == txTail + whole < txHead && Sent(cfg.frameSize, queue, from, sent, whole, inflight)
      modifies `dead, `inflight, `bytesRead
      ensures stop <==> !answer.Moved?
      ensures tail' == txTail + whole' <= txHead && Sent(cfg.frameSize, queue, from, sent', whole', offset')
      ensures stop ==> whole' == whole && offset' == old(inflight)
      ensures !stop ==>
                Span(txHead - tail', cfg.frameSize) - offset' < Span(txHead - tail, cfg.frameSize) - old(inflight)
      ensures if dead then inflight == 0 && bytesRead == 0 else inflight == offset' && bytesRead == old(bytesRead)
      ensures (dead <==> Fatal(answer)) && (offset' > 0 ==> tail' < txHead)
    {
      var piece;
      tail', piece, stop := SendOnce(tail, answer);
      sent', whole', offset' := sent, whole, old(inflight);
      if !stop {
        assert At(txRing[..], tail) == queue[whole];
        whole', offset' := whole + (tail' - tail), inflight;
        SendMore(cfg.frameSize, queue, from, sent, whole, old(inflight), piece, whole', offset');
        sent' := sent + piece;
      }
    }

    /** The sending loop: it ends when the frames seen at its start are out, or a `send` moves nothing. */
    method SendLoop(script: seq<Io>, ghost queue: seq<Bytes>)
      returns (tail: nat, sent: Bytes, ghost whole: nat, ghost offset: nat, ghost calls: nat)
      requires cfg.Valid() && RingOk(cfg, txRing[..]) && !dead && txTail <= txHead <= txTail + cfg.capacity
      requires queue == Queued(txRing[..], txTail, txHead) && AllOfSize(queue, cfg.frameSize)
      requires Sent(cfg.frameSize, queue, inflight, [], 0, inflight) && (inflight > 0 ==> txTail < txHead)
      modifies `dead, `inflight, `bytesRead
      ensures tail == txTail + whole <= txHead && (offset > 0 ==> tail < txHead)
      ensures Sent(cfg.frameSize, queue, old(inflight), sent, whole, offset)
      ensures if dead then inflight == 0 && bytesRead == 0 else inflight == offset && bytesRead == old(bytesRead)
      ensures AllMoved(script, calls) && (tail == txHead || !Outcome(script, calls).Moved?)
      ensures dead <==> tail < txHead && Fatal(Outcome(script, calls))
    {
      sent, whole, offset, calls := [], 0, inflight, 0;
      var head, i, stop := txHead, 0, false;
      tail := txTail;
      while tail < head && !stop
        invariant tail == txTail + whole <= head && (offset > 0 ==> tail < head)
        invariant if dead then stop && inflight == 0 && bytesRead == 0
                  else inflight == offset && bytesRead == old(bytesRead)
        invariant Sent(cfg.frameSize, queue, old(inflight), sent, whole, offset)
        invariant AllMoved(script, calls)
        invariant if stop then tail < head && !Outcome(script, calls).Moved? else i == calls
        invariant dead <==> stop && Fatal(Outcome(script, calls))
        decreases !stop, Span(head - tail, cfg.frameSize) - offset
      {
        tail, sent, stop, whole, offset := SendNext(tail, Outcome(script, i), sent, queue, old(inflight), whole);
        calls := if stop then calls else calls + 1;
        i := i + 1;
      }
    }

    /** `poll_tx` on a live conduit: the loop, then the publication of the tail. */
    method Transmit(script: seq<Io>, ghost queue: seq<Bytes>)
      returns (sent: Bytes, ghost whole: nat, ghost offset: nat, ghost calls: nat)
      requires Valid() && !dead && queue == Queue()
      modifies `dead, `txTail, `inflight, `bytesRead
      ensures Valid() && whole <= |queue| && Queue() == queue[whole..]
      ensures Sent(cfg.frameSize, queue, old(inflight), sent, whole, offset)
      ensures if dead then inflight == 0 && bytesRead == 0 else inflight == offset && bytesRead == old(bytesRead)
      ensures AllMoved(script, calls) && (whole == |queue| || !Outcome(script, calls).Moved?)
      ensures dead <==> whole < |queue| && Fatal(Outcome(script, calls))
    {
      StartOfStream(cfg, queue, inflight);
      ghost var ring := txRing[..];
      var tail;
      tail, sent, whole, offset, calls := SendLoop(script, queue);
      Dequeue(cfg, ring, txTail, txHead, old(inflight), whole, inflight);
      txTail := tail;
      assert txRing[..] == ring;
    }

    /** `poll_tx` puts the next bytes of the queued frames on the wire, each byte once and in order, and
        takes exactly the completely sent frames off the queue.  It goes on until all frames queued at its
        start are out or a `send` moves nothing, and dies exactly if that `send` failed.  A death forgets the
        partly sent frame's progress, so it will be sent again from its first byte. */
    method PollTx(script: seq<Io>) returns (sent: Bytes, ghost whole: nat, ghost offset: nat, ghost calls: nat)
      requires Valid()
      modifies `dead, `txTail, `inflight, `bytesRead
      ensures Valid()
      ensures old(dead) ==> sent == [] && whole == 0 && dead
      ensures whole <= |old(Queue())| && Queue() == old(Queue())[whole..]
      ensures Sent(cfg.frameSize, old(Queue()), old(inflight), sent, whole, offset)
      ensures !dead ==> inflight == offset && bytesRead == old(bytesRead)
      ensures dead && !old(dead) ==> inflight == 0 && bytesRead == 0
      ensures !old(dead) ==> AllMoved(script, calls) && (whole == |old(Queue())| || !Outcome(script, calls).Moved?)
      ensures !old(dead) ==> (dead <==> whole < |old(Queue())| && Fatal(Outcome(script, calls)))
    {
      if dead {
        sent, whole, offset, calls := [], 0, inflight, 0;
        StartOfStream(cfg, Queue(), inflight);
        assert Queue()[0..] == Queue();
      } else {
        sent, whole, offset, calls := Transmit(script, Queue());
      }
    }

    /** Copies received bytes behind those already staged. */
    method StageBytes(got: Bytes)
      requires bytesRead + |got| <= rxStaging.Length
      modifies `bytesRead, rxStaging
      ensures bytesRead == old(bytesRead) + |got|
      ensures rxStaging[..bytesRead] == old(rxStaging[..bytesRead]) + got
    {
      for k := 0 to |got|
        modifies rxStaging
        invariant rxStaging[..bytesRead + k] == old(rxStaging[..bytesRead]) + got[..k]
      {
        rxStaging[bytesRead + k] := got[k];
      }
      bytesRead := bytesRead + |got|;
    }

    /** One `recv` that moves something: up to `n` more bytes are staged. */
    method Fill(incoming: Bytes, from: nat, n: nat) returns (to: nat)
      requires Valid() && !dead && from < |incoming|
      modifies `bytesRead, rxStaging
      ensures from < to <= |incoming| && bytesRead == old(bytesRead) + (to - from) <= cfg.frameSize == rxStaging.Length
      ensures rxStaging[..bytesRead] == old(rxStaging[..bytesRead]) + incoming[from..to]
      ensures 1 <= n <= cfg.frameSize - old(bytesRead) && n <= |incoming| - from ==> to == from + n
    {
      var asked, left := cfg.frameSize - bytesRead, |incoming| - from;
      to := from + Clip(n, if asked < left then asked else left);
      StageBytes(incoming[from..to]);
    }

    /** A staged frame is complete: it is handed on, if the pool has a cell, or its type id kills the conduit. */
    method Complete(count: nat, handed: seq<Bytes>, makes: nat -> bool,
                    ghost staged: Bytes, ghost read: Bytes, ghost frames: seq<Bytes>)
      returns (handed': seq<Bytes>, killed: bool)
      requires cfg.Valid() && !dead && bytesRead == cfg.frameSize == rxStaging.Length && count == |frames|
      requires CutUp(cfg, staged, read, frames, rxStaging[..], makes, handed)
      modifies `dead, `inflight, `bytesRead
      ensures bytesRead == 0 && (killed <==> dead) && (dead <==> rxStaging[..4] != cfg.typeId)
      ensures if dead then inflight == 0 && handed' == handed
              else inflight == old(inflight) && CutUp(cfg, staged, read, frames + [rxStaging[..]], [], makes, handed')
    {
      handed', killed := handed, rxStaging[..4] != cfg.typeId;
      if killed {
        MarkDead();
        return;
      }
      assert rxStaging[..4] == rxStaging[..][..4];
      CutFrame(cfg, staged, read, frames, rxStaging[..], makes, handed);
      if makes(count) {
        handed' := handed + [rxStaging[4..4 + cfg.size]];
      }
      bytesRead := 0;
    }

    /** A `recv` that moved bytes, and what follows it in the loop. */
    method ReceiveNext(incoming: Bytes, from: nat, n: nat, count: nat, handed: seq<Bytes>, makes: nat -> bool,
                       ghost staged: Bytes, ghost frames: seq<Bytes>, ghost rest: Bytes)
      returns (to: nat, count': nat, handed': seq<Bytes>, killed: bool, ghost frames': seq<Bytes>, ghost rest': Bytes)
      requires Valid() && !dead && from < |incoming| && count == |frames| && rest == Staged()
      requires CutUp(cfg, staged, incoming[..from], frames, rest, makes, handed)
      modifies `dead, `inflight, `bytesRead, rxStaging
      ensures Valid() && from < to <= |incoming| && count' == |frames'| && (killed <==> dead)
      ensures CutUp(cfg, staged, incoming[..to], frames', rest', makes, handed')
      ensures if dead then |rest'| == cfg.frameSize && rest'[..4] != cfg.typeId && bytesRead == 0 && inflight == 0
              else rest' == Staged() && inflight == old(inflight)
    {
      to := Fill(incoming, from, n);
      CutMore(cfg, staged, incoming, from, to, frames, rest, makes, handed);
      count', handed', killed, frames', rest' := count, handed, false, frames, rest + incoming[from..to];
      if bytesRead == cfg.frameSize {
        assert rxStaging[..] == rest';
        handed', killed := Complete(count, handed, makes, staged, incoming[..to], frames);
        if !killed {
          count', frames', rest' := count + 1, frames + [rest'], [];
        }
      }
    }

    /** `poll_rx` on a live conduit. */
    method Receive(incoming: Bytes, script: seq<Io>, makes: nat -> bool, ghost staged: Bytes)
      returns (consumed: nat, handed: seq<Bytes>, ghost frames: seq<Bytes>, ghost rest: Bytes, ghost calls: nat)
      requires Valid() && !dead && staged == Staged()
      modifies `dead, `inflight, `bytesRead, rxStaging
      ensures Valid() && consumed <= |incoming| && CutUp(cfg, staged, incoming[..consumed], frames, rest, makes, handed)
      ensures |rest| < cfg.frameSize || (|rest| == cfg.frameSize && rest[..4] != cfg.typeId && dead)
      ensures if dead then bytesRead == 0 && inflight == 0 else rest == Staged() && inflight == old(inflight)
      ensures AllMoved(script, calls)
      ensures |rest| == cfg.frameSize || !Answer(script, calls, |incoming| - consumed).Moved?
      ensures dead <==> |rest| == cfg.frameSize || Fatal(Answer(script, calls, |incoming| - consumed))
    {
      consumed, handed, frames, rest, calls := 0, [], [], Staged(), 0;
      assert staged + incoming[..0] == Stream(frames, 0) + rest;
      var i, count := 0, 0;
      while true
        invariant AllMoved(script, calls) && i == calls && count == |frames|
        invariant Valid() && !dead && inflight == old(inflight) && consumed <= |incoming| && rest == Staged()
        invariant CutUp(cfg, staged, incoming[..consumed], frames, rest, makes, handed)
        decreases |incoming| - consumed
      {
        var answer := Answer(script, i, |incoming| - consumed);
        if answer.WouldBlock? {
          break;
        } else if !answer.Moved? {
          MarkDead();
          break;
        }
        var killed;
        consumed, count, handed, killed, frames, rest :=
          ReceiveNext(incoming, consumed, answer.n, count, handed, makes, staged, frames, rest);
        i, calls := i + 1, calls + 1;
        if killed {
          return;
        }
      }
    }

    /** `poll_rx` cuts the incoming bytes, after those already staged, into frames and hands on the payload
        of each one for which the pool has a cell.  It goes on until a `recv` moves nothing or a frame has a
        foreign type id.  It dies exactly on such a frame, at the end of the stream and on an error, and then
        drops what was staged. */
    method PollRx(incoming: Bytes, script: seq<Io>, makes: nat -> bool)
      returns (consumed: nat, handed: seq<Bytes>, ghost frames: seq<Bytes>, ghost rest: Bytes, ghost calls: nat)
      requires Valid()
      modifies `dead, `inflight, `bytesRead, rxStaging
      ensures Valid() && Queue() == old(Queue()) && consumed <= |incoming|
      ensures old(dead) ==> consumed == 0 && frames == [] && dead && rest == old(Staged())
      ensures CutUp(cfg, old(Staged()), incoming[..consumed], frames, rest, makes, handed)
      ensures |rest| < cfg.frameSize || (|rest| == cfg.frameSize && rest[..4] != cfg.typeId && dead)
      ensures !dead ==> rest == Staged() && inflight == old(inflight)
      ensures dead && !old(dead) ==> bytesRead == 0 && inflight == 0
      ensures !old(dead) ==>
                && AllMoved(script, calls)
                && (|rest| == cfg.frameSize || !Answer(script, calls, |incoming| - consumed).Moved?)
      ensures !old(dead) ==> (dead <==> |rest| == cfg.frameSize || Fatal(Answer(script, calls, |incoming| - consumed)))
    {
      if dead {
        consumed, handed, frames, rest, calls := 0, [], [], Staged(), 0;
        assert rest + incoming[..0] == Stream(frames, 0) + rest;
      } else {
        consumed, handed, frames, rest, calls := Receive(incoming, script, makes, Staged());
      }
    }
  }
}
