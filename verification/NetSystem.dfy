/** Two networked conduits over a sequence of connections, as a protocol.

The sending side has two threads: a producer running `push` and a poll thread running `poll_tx`.
Each step is one access to shared state or one system call; interleavings are sequentially
consistent.  `send` and `recv` may accept or return any non-empty part of what is asked for.  A
connection carries the accepted bytes in order; the receiver may stop reading it at any point, so any
suffix may be lost.  Either side may die at any time and is bound to a later connection only when dead,
by any thread, even before the poll thread has published its tail.
`pushed`, `frames`, `wires`, `starts`, `position` and `log` are history. */
module NetSystem {
  import opened Words
  import opened ByteStrings
  import opened Frames

  datatype Producer =
    | Ready
    | Admitted(payload: Bytes)  // the conduit was alive and the event not null
    | HasRoom(payload: Bytes)   // head - tail < Capacity was seen
    | Written(payload: Bytes)   // the ring slot holds the frame, the head is not yet advanced

  datatype Poller =
    | Resting
    | Sending(localTail: nat, localHead: nat)
    | Leaving(localTail: nat)   // about to publish the tail

  datatype Tx = Tx(dead: bool, ring: seq<Bytes>, head: nat, tail: nat, inflight: nat, producer: Producer,
                   poller: Poller, pushed: seq<Bytes>, frames: seq<Bytes>, wires: seq<Bytes>, starts: seq<nat>)

  /** One completed frame: where it was read, which pushed event it is, whether `make` gave an event. */
  datatype Receipt = Receipt(conn: nat, position: nat, payload: Bytes, made: bool)

  datatype Rx = Rx(dead: bool, conn: int, offset: nat, position: nat, staging: Bytes, bytesRead: nat, log: seq<Receipt>)

  datatype State = State(tx: Tx, rx: Rx)

  datatype Action =
    | PushBegin(payload: Bytes) | PushRefuse | PushRoom | PushWrite | PushCommit
    | PollBegin | Send(n: nat) | SendBlock | SendFail | PollDone | Publish
    | TxDie | TxBind
    | Recv(n: nat, made: bool) | RxDie | RxBind(c: nat)

  function Cur(tx: Tx): nat {
    match tx.poller
    case Resting => tx.tail
    case Sending(t, _) => t
    case Leaving(t) => t
  }

  predicate Enabled(cfg: Config, s: State, a: Action) {
    var tx, rx := s.tx, s.rx;
    match a
    case PushBegin(p) => tx.producer.Ready? && !tx.dead && |p| == cfg.size
    case PushRefuse => tx.producer.Admitted? && tx.head - tx.tail >= cfg.capacity
    case PushRoom => tx.producer.Admitted? && tx.head - tx.tail < cfg.capacity
    case PushWrite => tx.producer.HasRoom?
    case PushCommit => tx.producer.Written?
    case PollBegin => tx.poller.Resting? && !tx.dead
    case Send(n) =>
      tx.poller.Sending? && tx.poller.localTail < tx.poller.localHead && 1 <= n <= cfg.frameSize - tx.inflight
    case SendBlock => tx.poller.Sending? && tx.poller.localTail < tx.poller.localHead
    case SendFail => tx.poller.Sending? && tx.poller.localTail < tx.poller.localHead
    case PollDone => tx.poller.Sending? && tx.poller.localTail >= tx.poller.localHead
    case Publish => tx.poller.Leaving?
    case TxDie => tx.poller.Resting? && !tx.dead
    case TxBind => tx.dead
    case Recv(n, _) =>
      && !rx.dead && 0 <= rx.conn < |tx.wires| && 1 <= n <= cfg.frameSize - rx.bytesRead
      && rx.offset + n <= |tx.wires[rx.conn]|
    case RxDie => !rx.dead
    case RxBind(c) => rx.dead && rx.conn < c < |tx.wires|
  }

  /** The slot of ring position `i`. */
  function Slot(cfg: Config, ring: seq<Bytes>, i: nat): Bytes {
    if cfg.capacity > 0 && i % cfg.capacity < |ring| then ring[i % cfg.capacity] else []
  }

  function ApplyTx(cfg: Config, tx: Tx, a: Action): Tx
    requires cfg.Valid()
  {
    match a
    case PushBegin(p) => tx.(producer := Admitted(p))
    case PushRefuse => tx.(producer := Ready)
    case PushRoom => if tx.producer.Admitted? then tx.(producer := HasRoom(tx.producer.payload)) else tx
    case PushWrite =>
      if && tx.producer.HasRoom? && |tx.producer.payload| == cfg.size
         && |Slot(cfg, tx.ring, tx.head)| == cfg.frameSize > 0 then
        tx.(ring := tx.ring[tx.head % cfg.capacity := cfg.Frame(tx.producer.payload, Slot(cfg, tx.ring, tx.head))],
            producer := Written(tx.producer.payload))
      else tx
    case PushCommit =>
      if tx.producer.Written? then
        tx.(head := tx.head + 1, producer := Ready,
            pushed := tx.pushed + [tx.producer.payload], frames := tx.frames + [Slot(cfg, tx.ring, tx.head)])
      else tx
    case PollBegin => tx.(poller := Sending(tx.tail, tx.head))
    case Send(n) =>
      if tx.poller.Sending? && |tx.wires| > 0 && tx.inflight + n <= |Slot(cfg, tx.ring, tx.poller.localTail)| then
        var last, sent := |tx.wires| - 1, Slot(cfg, tx.ring, tx.poller.localTail)[tx.inflight..tx.inflight + n];
        var full := tx.inflight + n == cfg.frameSize;
        tx.(wires := tx.wires[last := tx.wires[last] + sent],
            inflight := if full then 0 else tx.inflight + n,
            poller := if full then Sending(tx.poller.localTail + 1, tx.poller.localHead) else tx.poller)
      else tx
    case SendBlock => tx.(poller := Leaving(Cur(tx)))
    case SendFail => tx.(poller := Leaving(Cur(tx)), dead := true, inflight := 0)
    case PollDone => tx.(poller := Leaving(Cur(tx)))
    case Publish => tx.(tail := Cur(tx), poller := Resting)
    case TxDie => tx.(dead := true, inflight := 0)
    case TxBind => tx.(dead := false, wires := tx.wires + [[]], starts := tx.starts + [Cur(tx)])
    case _ => tx
  }

  /** Append received bytes to the staging frame and, when it is full, check and hand it on. */
  function Absorb(cfg: Config, rx: Rx, got: Bytes, made: bool): Rx
    requires cfg.Valid() && rx.bytesRead + |got| <= |rx.staging| == cfg.frameSize && rx.conn >= 0
  {
    var filled := rx.bytesRead + |got|;
    var staging := rx.staging[..rx.bytesRead] + got + rx.staging[filled..];
    var rx' := rx.(offset := rx.offset + |got|, bytesRead := filled, staging := staging);
    if filled < cfg.frameSize then rx'
    else if staging[..4] != cfg.typeId then rx'.(dead := true, bytesRead := 0)
    else rx'.(bytesRead := 0, position := rx.position + 1,
              log := rx.log + [Receipt(rx.conn, rx.position, cfg.Payload(staging), made)])
  }

  function ApplyRx(cfg: Config, tx: Tx, rx: Rx, a: Action): Rx
    requires cfg.Valid()
  {
    match a
    case Recv(n, made) =>
      if && 0 <= rx.conn < |tx.wires| && rx.offset + n <= |tx.wires[rx.conn]|
         && rx.bytesRead + n <= |rx.staging| == cfg.frameSize then
        Absorb(cfg, rx, tx.wires[rx.conn][rx.offset..rx.offset + n], made)
      else rx
    case RxDie => rx.(dead := true, bytesRead := 0)
    case RxBind(c) =>
      rx.(dead := false, conn := c, offset := 0, position := if c < |tx.starts| then tx.starts[c] else 0)
    case _ => rx
  }

  function Apply(cfg: Config, s: State, a: Action): State
    requires cfg.Valid()
  {
    State(ApplyTx(cfg, s.tx, a), ApplyRx(cfg, s.tx, s.rx, a))
  }

  /** Ring slots and staging start with arbitrary bytes. */
  ghost predicate Init(cfg: Config, s: State) {
    && |s.tx.ring| == cfg.capacity && AllOfSize(s.tx.ring, cfg.frameSize)
    && s.tx == Tx(true, s.tx.ring, 0, 0, 0, Ready, Resting, [], [], [], [])
    && |s.rx.staging| == cfg.frameSize
    && s.rx == Rx(true, -1, 0, 0, s.rx.staging, 0, [])
  }

  // ---------- the sending ring ----------

  ghost predicate RingInv(cfg: Config, tx: Tx)
    requires cfg.Valid()
  {
    CursorInv(cfg, tx) && QueueInv(cfg, tx)
  }

  /** Counters and program points. */
  ghost predicate CursorInv(cfg: Config, tx: Tx) {
    && |tx.pushed| == |tx.frames| == tx.head
    && tx.tail <= Cur(tx) <= tx.head <= tx.tail + cfg.capacity
    && (tx.poller.Sending? ==> Cur(tx) <= tx.poller.localHead <= tx.head && !tx.dead)
    && (!tx.producer.Ready? ==> |tx.producer.payload| == cfg.size)
    && (tx.producer.HasRoom? || tx.producer.Written? ==> tx.head < tx.tail + cfg.capacity)
    && tx.inflight < cfg.frameSize && (tx.dead ==> tx.inflight == 0)
  }

  /** The slots between tail and head hold the frames pushed there, each with its event's payload. */
  ghost predicate QueueInv(cfg: Config, tx: Tx)
    requires cfg.Valid()
  {
    && |tx.ring| == cfg.capacity && AllOfSize(tx.ring, cfg.frameSize)
    && |tx.pushed| == |tx.frames| == tx.head
    && (forall i :: tx.tail <= i < tx.head ==> Slot(cfg, tx.ring, i) == tx.frames[i])
    && (forall i :: 0 <= i < |tx.frames| ==> cfg.IsFrame(tx.frames[i]) && cfg.Payload(tx.frames[i]) == tx.pushed[i])
    && (tx.producer.Written? ==>
          cfg.IsFrame(Slot(cfg, tx.ring, tx.head)) && cfg.Payload(Slot(cfg, tx.ring, tx.head)) == tx.producer.payload)
  }

  lemma SlotSize(cfg: Config, ring: seq<Bytes>, i: nat)
    requires cfg.Valid() && cfg.capacity > 0 && |ring| == cfg.capacity && AllOfSize(ring, cfg.frameSize)
    ensures i % cfg.capacity < |ring| && |Slot(cfg, ring, i)| == cfg.frameSize
  {
  }

  /** Writing the slot of the head leaves every frame between tail and head alone. */
  lemma WriteKeepsQueue(cfg: Config, tx: Tx, f: Bytes)
    requires cfg.Valid() && RingInv(cfg, tx) && tx.head < tx.tail + cfg.capacity && |f| == cfg.frameSize
    ensures var ring' := tx.ring[tx.head % cfg.capacity := f];
            && AllOfSize(ring', cfg.frameSize) && Slot(cfg, ring', tx.head) == f
            && forall i :: tx.tail <= i < tx.head ==> Slot(cfg, ring', i) == tx.frames[i]
  {
    var ring' := tx.ring[tx.head % cfg.capacity := f];
    forall i | tx.tail <= i < tx.head ensures Slot(cfg, ring', i) == tx.frames[i] {
      SlotsDiffer(i, tx.head, cfg.capacity);
      assert Slot(cfg, tx.ring, i) == tx.frames[i];
    }
  }

  lemma WriteStep(cfg: Config, tx: Tx)
    requires cfg.Valid() && RingInv(cfg, tx) && tx.producer.HasRoom?
    ensures QueueInv(cfg, ApplyTx(cfg, tx, PushWrite))
  {
    SlotSize(cfg, tx.ring, tx.head);
    WriteKeepsQueue(cfg, tx, cfg.Frame(tx.producer.payload, Slot(cfg, tx.ring, tx.head)));
  }

  lemma HeadStep(cfg: Config, tx: Tx)
    requires cfg.Valid() && RingInv(cfg, tx) && tx.producer.Written?
    ensures QueueInv(cfg, ApplyTx(cfg, tx, PushCommit))
  {
    assert forall i :: 0 <= i < |tx.frames| ==> (tx.frames + [Slot(cfg, tx.ring, tx.head)])[i] == tx.frames[i];
  }

  lemma CursorStep(cfg: Config, s: State, a: Action)
    requires cfg.Valid() && CursorInv(cfg, s.tx) && Enabled(cfg, s, a)
    ensures CursorInv(cfg, ApplyTx(cfg, s.tx, a))
  {
  }

  /** A step that writes no slot and pushes nothing. */
  lemma QuietQueue(cfg: Config, tx: Tx, tx': Tx)
    requires cfg.Valid() && QueueInv(cfg, tx)
    requires tx'.ring == tx.ring && tx'.pushed == tx.pushed && tx'.frames == tx.frames && tx'.head == tx.head
    requires tx.tail <= tx'.tail && (tx'.producer.Written? ==> tx'.producer == tx.producer)
    ensures QueueInv(cfg, tx')
  {
  }

  lemma RingStep(cfg: Config, s: State, a: Action)
    requires cfg.Valid() && RingInv(cfg, s.tx) && Enabled(cfg, s, a)
    ensures RingInv(cfg, ApplyTx(cfg, s.tx, a))
  {
    CursorStep(cfg, s, a);
    match a
    case PushWrite => WriteStep(cfg, s.tx);
    case PushCommit => HeadStep(cfg, s.tx);
    case _ => QuietQueue(cfg, s.tx, ApplyTx(cfg, s.tx, a));
  }

  // ---------- what is on the wires ----------

  /** A connection that starts at frame `start`, when sending has got as far as frame `next`: the wire
      carries the stream from `start`, and no more whole frames than lie between `start` and `next`. */
  ghost predicate Carries(n: nat, frames: seq<Bytes>, wire: Bytes, start: nat, next: nat) {
    start <= next <= |frames| && wire <= Stream(frames, start) && |wire| < Span(next - start + 1, n)
  }

  /** Where the connection after `c` starts, or would start now. */
  function NextStart(tx: Tx, c: nat): nat { if c + 1 < |tx.starts| then tx.starts[c + 1] else Cur(tx) }

  ghost predicate WireInv(cfg: Config, tx: Tx) {
    && |tx.starts| == |tx.wires|
    && (forall c {:trigger tx.wires[c]} :: 0 <= c < |tx.wires| ==>
          Carries(cfg.frameSize, tx.frames, tx.wires[c], tx.starts[c], NextStart(tx, c)))
    && (!tx.dead ==>
          && |tx.wires| > 0
          && var last := |tx.wires| - 1;
             && tx.starts[last] <= Cur(tx)
             && |tx.wires[last]| == Span(Cur(tx) - tx.starts[last], cfg.frameSize) + tx.inflight)
  }

  /** Sending `m` more bytes of frame `next`, of which `r` are out. */
  lemma SendOnWire(n: nat, frames: seq<Bytes>, wire: Bytes, start: nat, next: nat, r: nat, m: nat)
    requires AllOfSize(frames, n) && Carries(n, frames, wire, start, next) && next < |frames|
    requires |wire| == Span(next - start, n) + r && 1 <= m <= n - r
    ensures var wire' := wire + frames[next][r..r + m];
            if r + m == n then Carries(n, frames, wire', start, next + 1) && |wire'| == Span(next + 1 - start, n)
            else Carries(n, frames, wire', start, next) && |wire'| == Span(next - start, n) + r + m
  {
    StreamAt(frames, start, n, next - start, r, m);
    PrefixGrows(wire, frames[next][r..r + m], Stream(frames, start));
    assert Span(next - start + 2, n) == Span(next - start + 1, n) + n;
  }

  lemma PrefixGrows(p: Bytes, more: Bytes, s: Bytes)
    requires p <= s && |p| + |more| <= |s| && s[|p|..|p| + |more|] == more
    ensures p + more <= s
  {
  }

  lemma SendEffect(cfg: Config, tx: Tx, m: nat)
    requires cfg.Valid() && RingInv(cfg, tx) && |tx.wires| > 0
    requires tx.poller.Sending? && tx.poller.localTail < tx.poller.localHead && 1 <= m <= cfg.frameSize - tx.inflight
    ensures AllOfSize(tx.frames, cfg.frameSize)
    ensures var last, tx' := |tx.wires| - 1, ApplyTx(cfg, tx, Send(m));
            && tx'.wires == tx.wires[last := tx.wires[last] + tx.frames[Cur(tx)][tx.inflight..tx.inflight + m]]
            && tx'.starts == tx.starts && tx'.frames == tx.frames && tx'.dead == tx.dead
            && (if tx.inflight + m == cfg.frameSize then Cur(tx') == Cur(tx) + 1 && tx'.inflight == 0
                else Cur(tx') == Cur(tx) && tx'.inflight == tx.inflight + m)
  {
    assert Slot(cfg, tx.ring, Cur(tx)) == tx.frames[Cur(tx)];
  }

  lemma SendStep(cfg: Config, tx: Tx, m: nat)
    requires cfg.Valid() && RingInv(cfg, tx) && WireInv(cfg, tx)
    requires tx.poller.Sending? && tx.poller.localTail < tx.poller.localHead && 1 <= m <= cfg.frameSize - tx.inflight
    ensures WireInv(cfg, ApplyTx(cfg, tx, Send(m)))
  {
    SendEffect(cfg, tx, m);
    SendKeepsWires(cfg, tx, ApplyTx(cfg, tx, Send(m)), m);
  }

  /** `tx'` is `tx` after `m` more bytes of the current frame went out. */
  ghost predicate SentMore(cfg: Config, tx: Tx, tx': Tx, m: nat) {
    && |tx.wires| > 0 && Cur(tx) < |tx.frames| && 1 <= m && tx.inflight + m <= cfg.frameSize == |tx.frames[Cur(tx)]|
    && tx'.wires == tx.wires[|tx.wires| - 1 := LastSent(tx, m)] && tx'.starts == tx.starts && tx'.frames == tx.frames
    && (if tx.inflight + m == cfg.frameSize then Cur(tx') == Cur(tx) + 1 && tx'.inflight == 0
        else Cur(tx') == Cur(tx) && tx'.inflight == tx.inflight + m)
  }

  function LastSent(tx: Tx, m: nat): Bytes
    requires |tx.wires| > 0 && Cur(tx) < |tx.frames| && tx.inflight + m <= |tx.frames[Cur(tx)]|
  {
    tx.wires[|tx.wires| - 1] + tx.frames[Cur(tx)][tx.inflight..tx.inflight + m]
  }

  lemma SentOnLatest(cfg: Config, tx: Tx, tx': Tx, m: nat)
    requires AllOfSize(tx.frames, cfg.frameSize) && WireInv(cfg, tx) && !tx.dead && SentMore(cfg, tx, tx', m)
    ensures var last := |tx.wires| - 1;
            && Carries(cfg.frameSize, tx.frames, tx'.wires[last], tx.starts[last], Cur(tx'))
            && |tx'.wires[last]| == Span(Cur(tx') - tx.starts[last], cfg.frameSize) + tx'.inflight
  {
    var last := |tx.wires| - 1;
    assert Carries(cfg.frameSize, tx.frames, tx.wires[last], tx.starts[last], NextStart(tx, last));
    SendOnWire(cfg.frameSize, tx.frames, tx.wires[last], tx.starts[last], Cur(tx), tx.inflight, m);
  }

  lemma SendKeepsWires(cfg: Config, tx: Tx, tx': Tx, m: nat)
    requires AllOfSize(tx.frames, cfg.frameSize) && WireInv(cfg, tx) && !tx.dead && SentMore(cfg, tx, tx', m)
    ensures WireInv(cfg, tx')
  {
    SentOnLatest(cfg, tx, tx', m);
    EarlierWiresSame(cfg, tx, tx');
  }

  /** A step that changes the latest connection at most leaves the earlier ones as they were. */
  lemma EarlierWiresSame(cfg: Config, tx: Tx, tx': Tx)
    requires WireInv(cfg, tx) && |tx'.wires| == |tx.wires| > 0 && tx'.starts == tx.starts && tx'.frames == tx.frames
    requires forall c {:trigger tx'.wires[c]} :: 0 <= c < |tx.wires| - 1 ==> tx'.wires[c] == tx.wires[c]
    ensures forall c {:trigger tx'.wires[c]} :: 0 <= c < |tx.wires| - 1 ==>
              Carries(cfg.frameSize, tx'.frames, tx'.wires[c], tx'.starts[c], NextStart(tx', c))
  {
    forall c {:trigger tx'.wires[c]} | 0 <= c < |tx.wires| - 1
      ensures Carries(cfg.frameSize, tx'.frames, tx'.wires[c], tx'.starts[c], NextStart(tx', c))
    {
      assert Carries(cfg.frameSize, tx.frames, tx.wires[c], tx.starts[c], NextStart(tx, c));
    }
  }

  /** A step that sends nothing and binds nothing. */
  lemma SameWires(cfg: Config, tx: Tx, tx': Tx)
    requires WireInv(cfg, tx) && tx'.wires == tx.wires && tx'.starts == tx.starts && Cur(tx') == Cur(tx)
    requires tx'.frames == tx.frames || exists f :: tx'.frames == tx.frames + [f]
    requires tx'.dead || (!tx.dead && tx'.inflight == tx.inflight)
    ensures WireInv(cfg, tx')
  {
    forall c | 0 <= c < |tx.wires|
      ensures Carries(cfg.frameSize, tx'.frames, tx'.wires[c], tx'.starts[c], NextStart(tx', c))
    {
      assert Carries(cfg.frameSize, tx.frames, tx.wires[c], tx.starts[c], NextStart(tx, c));
      if tx'.frames != tx.frames {
        var f :| tx'.frames == tx.frames + [f];
        StreamAppend(tx.frames, tx.starts[c], f);
      }
    }
  }

  lemma BindStep(cfg: Config, tx: Tx)
    requires cfg.Valid() && CursorInv(cfg, tx) && WireInv(cfg, tx) && tx.inflight == 0
    ensures WireInv(cfg, ApplyTx(cfg, tx, TxBind))
  {
    var tx' := ApplyTx(cfg, tx, TxBind);
    forall c | 0 <= c < |tx'.wires|
      ensures Carries(cfg.frameSize, tx'.frames, tx'.wires[c], tx'.starts[c], NextStart(tx', c))
    {
      if c < |tx.wires| {
        assert Carries(cfg.frameSize, tx.frames, tx.wires[c], tx.starts[c], NextStart(tx, c));
      }
    }
  }

  lemma QuietOnWires(cfg: Config, s: State, a: Action, tx: Tx, tx': Tx)
    requires cfg.Valid() && Enabled(cfg, s, a) && !a.Send? && !a.TxBind? && tx == s.tx && tx' == ApplyTx(cfg, tx, a)
    requires tx.poller.Sending? ==> !tx.dead
    ensures tx'.wires == tx.wires && tx'.starts == tx.starts && Cur(tx') == Cur(tx)
    ensures tx'.frames == tx.frames || exists f :: tx'.frames == tx.frames + [f]
    ensures tx'.dead || (!tx.dead && tx'.inflight == tx.inflight)
  {
  }

  lemma WireStep(cfg: Config, s: State, a: Action)
    requires cfg.Valid() && RingInv(cfg, s.tx) && WireInv(cfg, s.tx) && Enabled(cfg, s, a)
    ensures WireInv(cfg, ApplyTx(cfg, s.tx, a))
  {
    if a.Send? {
      SendStep(cfg, s.tx, a.n);
    } else if a.TxBind? {
      BindStep(cfg, s.tx);
    } else {
      QuietOnWires(cfg, s, a, s.tx, ApplyTx(cfg, s.tx, a));
      SameWires(cfg, s.tx, ApplyTx(cfg, s.tx, a));
    }
  }
}
