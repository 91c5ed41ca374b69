/** What binding a socket to a live conduit does.  The source does not forbid it, and `bind_socket` resets
nothing: a frame that is half sent is continued on the new connection, and bytes that were half received
are taken for the beginning of the new stream.  Here every continuation of such a bind is followed to the
sink. */
module NetBinds {
  import opened ByteStrings
  import opened Frames
  import opened NetSystem
  import opened NetRuns
  import opened NetWindows

  // ---------- the bytes after a live bind ----------

  /** The latest connection carries the stream from frame `starts[last]` on, less its first `q` bytes, and
      while the sender lives it is exactly as far as the sender is. */
  ghost predicate Shifted(cfg: Config, tx: Tx, q: nat) {
    && |tx.starts| == |tx.wires| > 0
    && var wire, start := tx.wires[|tx.wires| - 1], tx.starts[|tx.wires| - 1];
       ShiftedWire(cfg, tx, wire, start, q)
  }

  ghost predicate ShiftedWire(cfg: Config, tx: Tx, wire: Bytes, start: nat, q: nat) {
    && start <= Cur(tx) && q <= |Stream(tx.frames, start)| && wire <= Stream(tx.frames, start)[q..]
    && (!tx.dead ==> q + |wire| == Span(Cur(tx) - start, cfg.frameSize) + tx.inflight)
  }

  lemma SliceOfRest(s: Bytes, q: nat, w: nat, m: nat)
    requires q + w + m <= |s|
    ensures s[q..][w..w + m] == s[q + w..q + w + m]
  {
  }

  lemma ShiftedOnWire(n: nat, frames: seq<Bytes>, wire: Bytes, start: nat, next: nat, q: nat, r: nat, m: nat)
    requires AllOfSize(frames, n) && start <= next < |frames| && 1 <= m <= n - r
    requires q <= |Stream(frames, start)| && wire <= Stream(frames, start)[q..]
    requires q + |wire| == Span(next - start, n) + r
    ensures wire + frames[next][r..r + m] <= Stream(frames, start)[q..]
    ensures r + m == n ==> q + |wire| + m == Span(next + 1 - start, n)
  {
    StreamAt(frames, start, n, next - start, r, m);
    var st := Stream(frames, start);
    SliceOfRest(st, q, |wire|, m);
    PrefixGrows(wire, frames[next][r..r + m], st[q..]);
  }

  lemma ShiftedSend(cfg: Config, tx: Tx, q: nat, m: nat)
    requires cfg.Valid() && RingInv(cfg, tx) && Shifted(cfg, tx, q)
    requires tx.poller.Sending? && tx.poller.localTail < tx.poller.localHead && 1 <= m <= cfg.frameSize - tx.inflight
    ensures Shifted(cfg, ApplyTx(cfg, tx, Send(m)), q)
  {
    var last, tx' := |tx.wires| - 1, ApplyTx(cfg, tx, Send(m));
    SendEffect(cfg, tx, m);
    ShiftedOnWire(cfg.frameSize, tx.frames, tx.wires[last], tx.starts[last], Cur(tx), q, tx.inflight, m);
    assert ShiftedWire(cfg, tx', tx'.wires[last], tx'.starts[last], q);
  }

  lemma ShiftedAppend(frames: seq<Bytes>, wire: Bytes, start: nat, q: nat, f: Bytes)
    requires start <= |frames| && q <= |Stream(frames, start)| && wire <= Stream(frames, start)[q..]
    ensures q <= |Stream(frames + [f], start)| && wire <= Stream(frames + [f], start)[q..]
  {
    StreamAppend(frames, start, f);
    var st := Stream(frames, start);
    assert (st + f)[q..] == st[q..] + f;
  }

  lemma ShiftedCommit(cfg: Config, tx: Tx, q: nat)
    requires cfg.Valid() && RingInv(cfg, tx) && Shifted(cfg, tx, q)
    ensures Shifted(cfg, ApplyTx(cfg, tx, PushCommit), q)
  {
    var last := |tx.wires| - 1;
    ShiftedAppend(tx.frames, tx.wires[last], tx.starts[last], q, Slot(cfg, tx.ring, tx.head));
  }

  lemma ShiftedStep(cfg: Config, s: State, a: Action, q: nat)
    requires cfg.Valid() && RingInv(cfg, s.tx) && Shifted(cfg, s.tx, q) && Enabled(cfg, s, a) && !a.TxBind?
    ensures RingInv(cfg, Apply(cfg, s, a).tx) && Shifted(cfg, Apply(cfg, s, a).tx, q)
  {
    RingStep(cfg, s, a);
    if a.Send? {
      ShiftedSend(cfg, s.tx, q, a.n);
    } else if a.PushCommit? {
      ShiftedCommit(cfg, s.tx, q);
    } else {
      ShiftedQuiet(cfg, s.tx, ApplyTx(cfg, s.tx, a), q);
    }
  }

  /** A step that sends nothing, pushes nothing and binds nothing. */
  lemma ShiftedQuiet(cfg: Config, tx: Tx, tx': Tx, q: nat)
    requires Shifted(cfg, tx, q) && tx'.wires == tx.wires && tx'.starts == tx.starts && tx'.frames == tx.frames
    requires Cur(tx') == Cur(tx) && (tx'.dead || (!tx.dead && tx'.inflight == tx.inflight))
    ensures Shifted(cfg, tx', q)
  {
  }

  /** A half-sent frame is one of those pushed. */
  lemma HalfSentIsPushed(cfg: Config, tx: Tx)
    requires cfg.Valid() && RingInv(cfg, tx) && WireInv(cfg, tx) && !tx.dead
    ensures Cur(tx) <= |tx.frames| && tx.inflight <= |Stream(tx.frames, Cur(tx))|
  {
    var last := |tx.wires| - 1;
    assert Carries(cfg.frameSize, tx.frames, tx.wires[last], tx.starts[last], NextStart(tx, last));
    forall i | 0 <= i < |tx.frames| ensures |tx.frames[i]| == cfg.frameSize {
      assert cfg.IsFrame(tx.frames[i]);
    }
    StreamLength(tx.frames, tx.starts[last], cfg.frameSize);
    StreamLength(tx.frames, Cur(tx), cfg.frameSize);
    if Cur(tx) == |tx.frames| {
      SpanMonotone(|tx.frames| - tx.starts[last], Cur(tx) - tx.starts[last], cfg.frameSize);
    } else {
      SpanMonotone(1, |tx.frames| - Cur(tx), cfg.frameSize);
    }
  }

  /** A bind while `q` bytes of a frame are out leaves the new connection without those bytes. */
  lemma BindShifts(cfg: Config, tx: Tx)
    requires cfg.Valid() && RingInv(cfg, tx) && WireInv(cfg, tx) && !tx.dead
    ensures var tx' := ApplyTx(cfg, tx, TxBind); RingInv(cfg, tx') && Shifted(cfg, tx', tx.inflight)
  {
    HalfSentIsPushed(cfg, tx);
  }

  lemma {:induction false} StaysShifted(cfg: Config, s: State, actions: seq<Action>, q: nat)
    requires cfg.Valid() && RingInv(cfg, s.tx) && Shifted(cfg, s.tx, q) && Legal(cfg, s, actions) && TxBind !in actions
    ensures var tx := Run(cfg, s, actions).tx;
            |tx.wires| == |s.tx.wires| && tx.starts == s.tx.starts && Shifted(cfg, tx, q)
    decreases actions
  {
    if actions != [] {
      assert actions[0] in actions && forall a :: a in actions[1..] ==> a in actions;
      ShiftedStep(cfg, s, actions[0], q);
      StaysShifted(cfg, Apply(cfg, s, actions[0]), actions[1..], q);
    }
  }

  /** `bind_socket` on the sending side, whatever its state. */
  function BindSender(cfg: Config, s: State): State
    requires cfg.Valid()
  {
    s.(tx := ApplyTx(cfg, s.tx, TxBind))
  }

  /** For every continuation of a live bind, up to the next bind: the new connection carries the stream from
      the current frame on, less the bytes of it that went out on the old connection. */
  lemma LiveBindCutsTheStream(cfg: Config, s: State, actions: seq<Action>)
    requires cfg.Valid() && Inv(cfg, s) && !s.tx.dead && Legal(cfg, BindSender(cfg, s), actions) && TxBind !in actions
    ensures var tx, q := Run(cfg, BindSender(cfg, s), actions).tx, s.tx.inflight;
            && |tx.wires| == |s.tx.wires| + 1 && q <= |Stream(tx.frames, Cur(s.tx))|
            && tx.wires[|s.tx.wires|] <= Stream(tx.frames, Cur(s.tx))[q..]
  {
    BindShifts(cfg, s.tx);
    assert ApplyTx(cfg, s.tx, TxBind).starts == s.tx.starts + [Cur(s.tx)];
    StaysShifted(cfg, BindSender(cfg, s), actions, s.tx.inflight);
  }

  // ---------- the sender on its own ----------

  /** The sender lives and its latest connection lacks the first `q` bytes. */
  ghost predicate Sends(cfg: Config, s: State, q: nat)
    requires cfg.Valid()
  {
    RingInv(cfg, s.tx) && Shifted(cfg, s.tx, q) && !s.tx.dead
  }

  /** Only the sender moved, on the same connection. */
  ghost predicate SameSink(s: State, s': State) {
    s'.rx == s.rx && s'.tx.starts == s.tx.starts && |s'.tx.wires| == |s.tx.wires|
  }

  predicate IsSending(a: Action) {
    || a.PushBegin? || a.PushRefuse? || a.PushRoom? || a.PushWrite? || a.PushCommit?
    || a.PollBegin? || a.Send? || a.PollDone? || a.Publish?
  }

  lemma SenderStep(cfg: Config, s: State, a: Action, q: nat)
    requires cfg.Valid() && Sends(cfg, s, q) && Enabled(cfg, s, a) && IsSending(a)
    ensures Sends(cfg, Apply(cfg, s, a), q) && SameSink(s, Apply(cfg, s, a)) && Leads(cfg, s, Apply(cfg, s, a))
  {
    ShiftedStep(cfg, s, a, q);
    OneStepLeads(cfg, s, a);
  }

  function PushRank(p: Producer): nat {
    match p
    case Ready => 0
    case Written(_) => 1
    case HasRoom(_) => 2
    case Admitted(_) => 3
  }

  /** A push that is under way can be finished. */
  lemma {:induction false} FinishPush(cfg: Config, s: State, q: nat) returns (s': State)
    requires cfg.Valid() && Sends(cfg, s, q)
    ensures Sends(cfg, s', q) && SameSink(s, s') && Leads(cfg, s, s') && s'.tx.producer.Ready?
    decreases PushRank(s.tx.producer)
  {
    if s.tx.producer.Ready? {
      s' := s;
      LeadsNowhere(cfg, s);
    } else {
      var a := match s.tx.producer
        case Admitted(_) => (if s.tx.head - s.tx.tail >= cfg.capacity then PushRefuse else PushRoom)
        case HasRoom(_) => PushWrite
        case _ => PushCommit;
      if s.tx.producer.HasRoom? {
        SlotSize(cfg, s.tx.ring, s.tx.head);
      }
      SenderStep(cfg, s, a, q);
      var s1 := Apply(cfg, s, a);
      s' := FinishPush(cfg, s1, q);
      LeadsOn(cfg, s, s1, s');
    }
  }

  function PollRank(p: Poller): nat {
    match p
    case Resting => 2
    case Sending(t, h) => if t < h then 1 else 4
    case Leaving(_) => 3
  }

  /** Everything queued is sent and the poll thread at rest. */
  predicate Drained(tx: Tx) { tx.poller.Resting? && tx.tail == tx.head && tx.inflight == 0 && tx.producer.Ready? }

  lemma NothingLeft(cfg: Config, tx: Tx, q: nat)
    requires cfg.Valid() && RingInv(cfg, tx) && Shifted(cfg, tx, q) && !tx.dead
    ensures AllOfSize(tx.frames, cfg.frameSize)
    ensures Cur(tx) == tx.head ==> tx.inflight == 0
  {
    var last := |tx.wires| - 1;
    forall i | 0 <= i < |tx.frames| ensures |tx.frames[i]| == cfg.frameSize {
      assert cfg.IsFrame(tx.frames[i]);
    }
    StreamLength(tx.frames, tx.starts[last], cfg.frameSize);
  }

  /** Only the poll thread moved. */
  ghost predicate SameQueue(tx: Tx, tx': Tx) {
    && tx'.producer == tx.producer && tx'.ring == tx.ring && tx'.frames == tx.frames && tx'.pushed == tx.pushed
    && tx'.head == tx.head
  }

  /** The poll thread moved on, and so did nobody else. */
  ghost predicate Drains(tx: Tx, tx': Tx) {
    && SameQueue(tx, tx')
    && (Cur(tx') > Cur(tx) || (Cur(tx') == Cur(tx) && PollRank(tx'.poller) < PollRank(tx.poller)))
  }

  /** The rest of the current frame can be sent. */
  lemma SendFrame(cfg: Config, s: State, q: nat) returns (a: Action)
    requires cfg.Valid() && Sends(cfg, s, q)
    requires s.tx.poller.Sending? && s.tx.poller.localTail < s.tx.poller.localHead
    ensures a.Send? && Enabled(cfg, s, a) && Drains(s.tx, Apply(cfg, s, a).tx)
  {
    a := Send(cfg.frameSize - s.tx.inflight);
    SendEffect(cfg, s.tx, a.n);
  }

  /** A step of the poll thread towards a drained queue. */
  lemma DrainStep(cfg: Config, s: State, q: nat) returns (s': State)
    requires cfg.Valid() && Sends(cfg, s, q) && !(s.tx.poller.Resting? && s.tx.tail == s.tx.head)
    ensures Sends(cfg, s', q) && SameSink(s, s') && Leads(cfg, s, s') && Drains(s.tx, s'.tx)
  {
    var a: Action;
    if s.tx.poller.Resting? {
      a := PollBegin;
    } else if s.tx.poller.Leaving? {
      a := Publish;
    } else if s.tx.poller.localTail < s.tx.poller.localHead {
      a := SendFrame(cfg, s, q);
    } else {
      a := PollDone;
    }
    s' := Apply(cfg, s, a);
    SenderStep(cfg, s, a, q);
  }

  /** The queue can be drained, with every frame sent in one piece. */
  lemma {:induction false} Drain(cfg: Config, s: State, q: nat) returns (s': State)
    requires cfg.Valid() && Sends(cfg, s, q) && s.tx.producer.Ready?
    ensures Sends(cfg, s', q) && SameSink(s, s') && Leads(cfg, s, s') && Drained(s'.tx) && SameQueue(s.tx, s'.tx)
    decreases s.tx.head - Cur(s.tx), PollRank(s.tx.poller)
  {
    if s.tx.poller.Resting? && s.tx.tail == s.tx.head {
      NothingLeft(cfg, s.tx, q);
      s' := s;
      LeadsNowhere(cfg, s);
    } else {
      var s1 := DrainStep(cfg, s, q);
      s' := Drain(cfg, s1, q);
      LeadsOn(cfg, s, s1, s');
    }
  }

  /** The next frame of an idle sender, for a payload of ours. */
  lemma PushOne(cfg: Config, s: State, q: nat, p: Bytes) returns (s': State)
    requires cfg.Valid() && Sends(cfg, s, q) && Drained(s.tx) && cfg.capacity >= 1 && |p| == cfg.size
    ensures |Slot(cfg, s.tx.ring, s.tx.head)| == cfg.frameSize
    ensures Sends(cfg, s', q) && SameSink(s, s') && Leads(cfg, s, s') && s'.tx.producer.Ready?
    ensures s'.tx.pushed == s.tx.pushed + [p] && s'.tx.poller.Resting? && s'.tx.tail < s'.tx.head && s'.tx.inflight == 0
    ensures s'.tx.frames == s.tx.frames + [cfg.Frame(p, Slot(cfg, s.tx.ring, s.tx.head))]
  {
    SlotSize(cfg, s.tx.ring, s.tx.head);
    var s2 := PushAdmitted(cfg, s, q, p);
    s' := PushFinished(cfg, s2, q, p);
    LeadsOn(cfg, s, s2, s');
  }

  lemma PushAdmitted(cfg: Config, s: State, q: nat, p: Bytes) returns (s': State)
    requires cfg.Valid() && Sends(cfg, s, q) && Drained(s.tx) && cfg.capacity >= 1 && |p| == cfg.size
    ensures Sends(cfg, s', q) && SameSink(s, s') && Leads(cfg, s, s') && s'.tx == s.tx.(producer := HasRoom(p))
  {
    var s1 := Apply(cfg, s, PushBegin(p));
    SenderStep(cfg, s, PushBegin(p), q);
    s' := Apply(cfg, s1, PushRoom);
    SenderStep(cfg, s1, PushRoom, q);
    LeadsOn(cfg, s, s1, s');
  }

  lemma PushFinished(cfg: Config, s: State, q: nat, p: Bytes) returns (s': State)
    requires cfg.Valid() && Sends(cfg, s, q) && cfg.capacity >= 1 && |p| == cfg.size && s.tx.producer == HasRoom(p)
    ensures |Slot(cfg, s.tx.ring, s.tx.head)| == cfg.frameSize
    ensures Sends(cfg, s', q) && SameSink(s, s') && Leads(cfg, s, s') && s'.tx.producer.Ready?
    ensures s'.tx.pushed == s.tx.pushed + [p] && s'.tx.head == s.tx.head + 1 && s'.tx.tail == s.tx.tail
    ensures s'.tx.poller == s.tx.poller && s'.tx.inflight == s.tx.inflight
    ensures s'.tx.frames == s.tx.frames + [cfg.Frame(p, Slot(cfg, s.tx.ring, s.tx.head))]
  {
    SlotSize(cfg, s.tx.ring, s.tx.head);
    var s1 := Apply(cfg, s, PushWrite);
    SenderStep(cfg, s, PushWrite, q);
    s' := Apply(cfg, s1, PushCommit);
    SenderStep(cfg, s1, PushCommit, q);
    LeadsOn(cfg, s, s1, s');
  }

  /** Two more events are pushed and sent; then the connection carries every byte there is. */
  lemma PushTwo(cfg: Config, s: State, q: nat, p: Bytes, p': Bytes) returns (s': State, f': Bytes)
    requires cfg.Valid() && Sends(cfg, s, q) && Drained(s.tx) && cfg.capacity >= 1 && |p| == |p'| == cfg.size
    ensures |Slot(cfg, s.tx.ring, s.tx.head)| == cfg.frameSize
    ensures Sends(cfg, s', q) && SameSink(s, s') && Leads(cfg, s, s') && Drained(s'.tx)
    ensures s'.tx.pushed == s.tx.pushed + [p] + [p']
    ensures s'.tx.frames == s.tx.frames + [cfg.Frame(p, Slot(cfg, s.tx.ring, s.tx.head))] + [f'] && cfg.IsFrame(f')
  {
    var s1 := PushOne(cfg, s, q, p);
    var s2 := Drain(cfg, s1, q);
    var s3 := PushOne(cfg, s2, q, p');
    s' := Drain(cfg, s3, q);
    f' := cfg.Frame(p', Slot(cfg, s2.tx.ring, s2.tx.head));
    LeadsOn(cfg, s2, s3, s');
    LeadsOn(cfg, s1, s2, s');
    LeadsOn(cfg, s, s1, s');
  }

  function LastWire(tx: Tx): Bytes { if tx.wires == [] then [] else tx.wires[|tx.wires| - 1] }

  // ---------- a payload that cannot arrive where it should ----------

  function Zeros(n: nat): (z: Bytes)
    ensures |z| == n && forall i :: 0 <= i < n ==> z[i] == 0
  {
    seq(n, _ => 0)
  }

  /** A payload that begins with a byte other than `b` and goes on with zeros. */
  function OtherThan(b: Byte, size: nat): (p: Bytes)
    requires size >= 1
    ensures |p| == size && p[0] != b && forall i :: 1 <= i < size ==> p[i] == 0
  {
    [if b == 0 then 1 else 0] + Zeros(size - 1)
  }

  /** With `q` bytes missing, the byte read in place of the first payload byte of frame `c` does not depend
      on that payload byte: it is a later byte of the same frame, or of the next one's type id. */
  function StrayAhead(cfg: Config, slot: Bytes, q: nat): Byte
    requires cfg.Valid() && |slot| == cfg.frameSize && 0 < q < cfg.frameSize
  {
    if 4 + q >= cfg.frameSize then cfg.typeId[4 + q - cfg.frameSize]
    else if q < cfg.size then 0 else slot[4 + q]
  }

  lemma ByteAhead(cfg: Config, frames: seq<Bytes>, start: nat, q: nat, slot: Bytes, p: Bytes, f': Bytes)
    requires cfg.Valid() && |slot| == cfg.frameSize && 0 < q < cfg.frameSize && start <= |frames|
    requires AllOfSize(frames, cfg.frameSize)
    requires |p| == cfg.size && (forall i :: 1 <= i < cfg.size ==> p[i] == 0) && cfg.IsFrame(f')
    ensures var n, t, st := cfg.frameSize, |frames| - start, Stream(frames + [cfg.Frame(p, slot)] + [f'], start);
            && |st| == Span(t + 2, n) && Span(t + 1, n) + q <= |st| && Span(t, n) + 4 + q < |st|
            && st[Span(t, n) + 4 + q] == StrayAhead(cfg, slot, q)
  {
    var n, t, f := cfg.frameSize, |frames| - start, cfg.Frame(p, slot);
    var all := frames + [f] + [f'];
    StreamLength(all, start, n);
    if 4 + q >= n {
      StreamByte(all, start, n, t + 1, 4 + q - n);
      assert f'[4 + q - n] == f'[..4][4 + q - n];
    } else {
      StreamByte(all, start, n, t, 4 + q);
    }
  }

  /** With `lead` staged in front, it is an earlier byte: of the type id, of the frame before, or staged. */
  function StrayBehind(cfg: Config, frames: seq<Bytes>, start: nat, lead: Bytes): Byte
    requires cfg.Valid() && 0 < |lead| < cfg.frameSize && start <= |frames| && AllOfSize(frames, cfg.frameSize)
  {
    if |lead| <= 4 then cfg.typeId[4 - |lead|]
    else if start == |frames| then lead[4]
    else frames[|frames| - 1][cfg.frameSize + 4 - |lead|]
  }

  lemma ByteAfterLead(lead: Bytes, frames: seq<Bytes>, start: nat, n: nat, k: nat, j: nat, i: nat)
    requires AllOfSize(frames, n) && start + k < |frames| && j < n && i == |lead| + Span(k, n) + j
    ensures i < |lead + Stream(frames, start)| && (lead + Stream(frames, start))[i] == frames[start + k][j]
  {
    StreamByte(frames, start, n, k, j);
  }

  lemma TypeByteBehind(cfg: Config, lead: Bytes, frames: seq<Bytes>, start: nat, k: nat, i: nat)
    requires cfg.Valid() && AllOfSize(frames, cfg.frameSize) && start + k < |frames| && cfg.IsFrame(frames[start + k])
    requires 0 < |lead| <= 4 && i == Span(k, cfg.frameSize) + 4
    ensures i < |lead + Stream(frames, start)| && (lead + Stream(frames, start))[i] == cfg.typeId[4 - |lead|]
  {
    var f, j := frames[start + k], 4 - |lead|;
    ByteAfterLead(lead, frames, start, cfg.frameSize, k, j, i);
    assert f[j] == f[..4][j];
  }

  lemma ByteBehind(cfg: Config, frames: seq<Bytes>, start: nat, lead: Bytes, f: Bytes, f': Bytes)
    requires cfg.Valid() && 0 < |lead| < cfg.frameSize && start <= |frames| && AllOfSize(frames, cfg.frameSize)
    requires cfg.IsFrame(f) && cfg.IsFrame(f')
    ensures var n, t, st := cfg.frameSize, |frames| - start, Stream(frames + [f] + [f'], start);
            && |st| == Span(t + 2, n) && Span(t, n) + 4 < |lead + st|
            && (lead + st)[Span(t, n) + 4] == StrayBehind(cfg, frames, start, lead)
  {
    var n, r, t, all := cfg.frameSize, |lead|, |frames| - start, frames + [f] + [f'];
    StreamLength(all, start, n);
    if r <= 4 {
      TypeByteBehind(cfg, lead, all, start, t, Span(t, n) + 4);
    } else if t > 0 {
      ByteAfterLead(lead, all, start, n, t - 1, n + 4 - r, Span(t, n) + 4);
    }
  }

  // ---------- the two theorems ----------

  lemma WholeWire(cfg: Config, tx: Tx, q: nat)
    requires cfg.Valid() && RingInv(cfg, tx) && Shifted(cfg, tx, q) && !tx.dead && Drained(tx)
    ensures LastWire(tx) == Stream(tx.frames, tx.starts[|tx.starts| - 1])[q..]
  {
    NothingLeft(cfg, tx, q);
    StreamLength(tx.frames, tx.starts[|tx.starts| - 1], cfg.frameSize);
  }

  /** The receiver is bound to the latest connection, which it was not on, and reads from its start. */
  lemma TakeLatest(cfg: Config, s: State) returns (s': State)
    requires cfg.Valid() && |s.tx.starts| == |s.tx.wires| > 0 && s.rx.conn < |s.tx.wires| - 1
    requires |s.rx.staging| == cfg.frameSize && (s.rx.dead ==> s.rx.bytesRead == 0)
    ensures Leads(cfg, s, s') && s'.tx == s.tx && s'.rx.log == s.rx.log
    ensures AtWindow(cfg, s', |s.tx.wires| - 1, [], s.tx.starts[|s.tx.starts| - 1], 0)
  {
    var s1 := if s.rx.dead then s else Apply(cfg, s, RxDie);
    LeadsNowhere(cfg, s);
    if !s.rx.dead {
      OneStepLeads(cfg, s, RxDie);
    }
    var bind := RxBind(|s.tx.wires| - 1);
    s' := Apply(cfg, s1, bind);
    OneStepLeads(cfg, s1, bind);
    LeadsOn(cfg, s, s1, s');
  }

  /** All bytes of the events up to `start + t` and one more are on the latest connection, and the byte read
      for the first payload byte of event `start + t`, behind `lead`, is another one. */
  ghost predicate WrongByte(cfg: Config, tx: Tx, lead: Bytes, start: nat, t: nat) {
    && Span(t + 1, cfg.frameSize) <= |lead| + |LastWire(tx)| && 4 < cfg.frameSize
    && start + t < |tx.pushed| && |tx.pushed[start + t]| == cfg.size >= 1
    && (lead + LastWire(tx))[Span(t, cfg.frameSize) + 4] != tx.pushed[start + t][0]
  }

  lemma WrongByteShows(cfg: Config, s: State, lead: Bytes, start: nat, t: nat) returns (s': State)
    requires cfg.Valid() && |s.tx.wires| > 0 && AtWindow(cfg, s, |s.tx.wires| - 1, lead, start, 0)
    requires WrongByte(cfg, s.tx, lead, start, t)
    ensures Leads(cfg, s, s') && !Sound(cfg, s')
  {
    var x := lead + LastWire(s.tx);
    assert Window(cfg, x, t)[4] == x[Span(t, cfg.frameSize) + 4];
    s' := ReadUntilWrong(cfg, s, |s.tx.wires| - 1, lead, start, 0, t, x);
  }

  /** The sender can come to a point where nothing is under way. */
  lemma ComeToRest(cfg: Config, s: State, q: nat) returns (s': State)
    requires cfg.Valid() && Sends(cfg, s, q)
    ensures Sends(cfg, s', q) && SameSink(s, s') && Leads(cfg, s, s') && Drained(s'.tx)
    ensures AllOfSize(s'.tx.frames, cfg.frameSize)
  {
    var s1 := FinishPush(cfg, s, q);
    s' := Drain(cfg, s1, q);
    NothingLeft(cfg, s'.tx, q);
    LeadsOn(cfg, s, s1, s');
  }

  lemma AheadIsWrong(cfg: Config, tx: Tx, frames: seq<Bytes>, start: nat, q: nat, slot: Bytes, p: Bytes, f': Bytes)
    requires cfg.Valid() && cfg.size >= 1 && |slot| == cfg.frameSize && 0 < q < cfg.frameSize
    requires start <= |frames| < |tx.pushed|
    requires AllOfSize(frames, cfg.frameSize) && |p| == cfg.size && (forall i :: 1 <= i < cfg.size ==> p[i] == 0)
    requires cfg.IsFrame(f')
    requires p[0] != StrayAhead(cfg, slot, q) && tx.pushed[|frames|] == p
    requires var st := Stream(frames + [cfg.Frame(p, slot)] + [f'], start); q <= |st| && LastWire(tx) == st[q..]
    ensures WrongByte(cfg, tx, [], start, |frames| - start)
  {
    ByteAhead(cfg, frames, start, q, slot, p, f');
    assert [] + LastWire(tx) == LastWire(tx);
  }

  lemma WrongByteAhead(cfg: Config, s: State, q: nat) returns (s': State, t: nat)
    requires cfg.Valid() && cfg.size >= 1 && cfg.capacity >= 1 && Sends(cfg, s, q) && 0 < q < cfg.frameSize
    requires Drained(s.tx) && AllOfSize(s.tx.frames, cfg.frameSize)
    ensures SameSink(s, s') && Leads(cfg, s, s') && |s'.tx.starts| == |s'.tx.wires| > 0
    ensures WrongByte(cfg, s'.tx, [], s'.tx.starts[|s'.tx.starts| - 1], t)
  {
    var start, frames, slot := s.tx.starts[|s.tx.starts| - 1], s.tx.frames, Slot(cfg, s.tx.ring, s.tx.head);
    SlotSize(cfg, s.tx.ring, s.tx.head);
    var p := OtherThan(StrayAhead(cfg, slot, q), cfg.size);
    var f';
    s', f' := PushTwo(cfg, s, q, p, p);
    WholeWire(cfg, s'.tx, q);
    AheadIsWrong(cfg, s'.tx, frames, start, q, slot, p, f');
    t := |frames| - start;
  }

  lemma BehindIsWrong(cfg: Config, tx: Tx, frames: seq<Bytes>, start: nat, lead: Bytes, p: Bytes, f: Bytes, f': Bytes)
    requires cfg.Valid() && cfg.size >= 1 && 0 < |lead| < cfg.frameSize && start <= |frames| < |tx.pushed|
    requires AllOfSize(frames, cfg.frameSize) && |p| == cfg.size && cfg.IsFrame(f) && cfg.IsFrame(f')
    requires p[0] != StrayBehind(cfg, frames, start, lead) && tx.pushed[|frames|] == p
    requires LastWire(tx) == Stream(frames + [f] + [f'], start)
    ensures WrongByte(cfg, tx, lead, start, |frames| - start)
  {
    ByteBehind(cfg, frames, start, lead, f, f');
  }

  lemma WrongByteBehind(cfg: Config, s: State, lead: Bytes) returns (s': State, t: nat)
    requires cfg.Valid() && cfg.size >= 1 && cfg.capacity >= 1 && Sends(cfg, s, 0) && 0 < |lead| < cfg.frameSize
    requires Drained(s.tx) && AllOfSize(s.tx.frames, cfg.frameSize)
    ensures SameSink(s, s') && Leads(cfg, s, s') && |s'.tx.starts| == |s'.tx.wires| > 0
    ensures WrongByte(cfg, s'.tx, lead, s'.tx.starts[|s'.tx.starts| - 1], t)
  {
    var start, frames, slot := s.tx.starts[|s.tx.starts| - 1], s.tx.frames, Slot(cfg, s.tx.ring, s.tx.head);
    SlotSize(cfg, s.tx.ring, s.tx.head);
    var p := OtherThan(StrayBehind(cfg, frames, start, lead), cfg.size);
    var f';
    s', f' := PushTwo(cfg, s, 0, p, p);
    WholeWire(cfg, s'.tx, 0);
    BehindIsWrong(cfg, s'.tx, frames, start, lead, p, cfg.Frame(p, slot), f');
    t := |frames| - start;
  }

  /** A sender whose latest connection lacks `q` bytes can be made to show it. */
  lemma MissingBytesShow(cfg: Config, s: State, q: nat) returns (s': State)
    requires cfg.Valid() && cfg.size >= 1 && cfg.capacity >= 1 && Sends(cfg, s, q) && 0 < q < cfg.frameSize
    requires s.rx.conn < |s.tx.wires| - 1 && |s.rx.staging| == cfg.frameSize && (s.rx.dead ==> s.rx.bytesRead == 0)
    ensures Leads(cfg, s, s') && !Sound(cfg, s')
  {
    var s1 := ComeToRest(cfg, s, q);
    var s2, t := WrongByteAhead(cfg, s1, q);
    var s3 := TakeLatest(cfg, s2);
    s' := WrongByteShows(cfg, s3, [], s3.tx.starts[|s3.tx.starts| - 1], t);
    LeadsOn(cfg, s2, s3, s');
    LeadsOn(cfg, s1, s2, s');
    LeadsOn(cfg, s, s1, s');
  }

  /** A receiver that starts on the live connection with bytes already staged can be made to show it. */
  lemma StagedBytesShow(cfg: Config, s: State, lead: Bytes) returns (s': State)
    requires cfg.Valid() && cfg.size >= 1 && cfg.capacity >= 1 && Sends(cfg, s, 0) && 0 < |lead| < cfg.frameSize
    requires AtWindow(cfg, s, |s.tx.wires| - 1, lead, s.tx.starts[|s.tx.starts| - 1], 0)
    ensures Leads(cfg, s, s') && !Sound(cfg, s')
  {
    var s1 := ComeToRest(cfg, s, 0);
    var s2, t := WrongByteBehind(cfg, s1, lead);
    s' := WrongByteShows(cfg, s2, lead, s2.tx.starts[|s2.tx.starts| - 1], t);
    LeadsOn(cfg, s1, s2, s');
    LeadsOn(cfg, s, s1, s');
  }

  /** `bind_socket` on the receiving side, to the sender's latest connection. */
  function BindReceiver(cfg: Config, s: State): State
    requires cfg.Valid() && |s.tx.wires| > 0
  {
    s.(rx := ApplyRx(cfg, s.tx, s.rx, RxBind(|s.tx.wires| - 1)))
  }

  lemma CleanSenderBind(cfg: Config, s: State)
    requires cfg.Valid() && Inv(cfg, s) && s.tx.inflight == 0 && |s.tx.wires| > 0
    ensures Inv(cfg, BindSender(cfg, s))
  {
    BindStep(cfg, s.tx);
    TxGrows(cfg, s, TxBind);
    RxSurvivesGrowth(cfg, s.tx, BindSender(cfg, s).tx, s.rx);
  }

  /** Binding the sender, dead or alive, is safe for the sink in every continuation if and only if no frame
      is half sent.  Otherwise some continuation kills the receiver at the type check or hands it a payload
      that was not pushed there. */
  lemma SenderBindSoundIff(cfg: Config, s: State)
    requires cfg.Valid() && cfg.size >= 1 && cfg.capacity >= 1 && Inv(cfg, s)
    ensures StaysSound(cfg, BindSender(cfg, s)) <==> s.tx.inflight == 0
  {
    var s1 := BindSender(cfg, s);
    if s.tx.dead {
      StepKeepsInv(cfg, s, TxBind);
      assert Apply(cfg, s, TxBind) == s1;
      InvStaysSound(cfg, s1);
    } else if s.tx.inflight == 0 {
      CleanSenderBind(cfg, s);
      InvStaysSound(cfg, s1);
    } else {
      BindShifts(cfg, s.tx);
      var s' := MissingBytesShow(cfg, s1, s.tx.inflight);
    }
  }

  /** Binding a receiver with nothing staged is safe, whatever the sender does and whichever later connection
      it is. */
  lemma CleanReceiverBind(cfg: Config, s: State, c: nat)
    requires cfg.Valid() && Inv(cfg, s) && s.rx.conn < c < |s.tx.wires| && s.rx.bytesRead == 0
    ensures StaysSound(cfg, s.(rx := ApplyRx(cfg, s.tx, s.rx, RxBind(c))))
  {
    RxBindStep(cfg, s.tx, s.rx, c);
    InvStaysSound(cfg, s.(rx := ApplyRx(cfg, s.tx, s.rx, RxBind(c))));
  }

  lemma StagedReceiverBind(cfg: Config, s: State) returns (s': State)
    requires cfg.Valid() && cfg.size >= 1 && cfg.capacity >= 1 && Inv(cfg, s) && !s.tx.dead
    requires s.rx.conn < |s.tx.wires| - 1 && s.rx.bytesRead > 0
    ensures Leads(cfg, BindReceiver(cfg, s), s') && !Sound(cfg, s')
  {
    LatestIsShifted(cfg, s.tx);
    s' := StagedBytesShow(cfg, BindReceiver(cfg, s), s.rx.staging[..s.rx.bytesRead]);
  }

  /** Binding a receiver to the connection a live sender is on is safe, in every continuation, if and only if
      no frame is half received. */
  lemma ReceiverBindSoundIff(cfg: Config, s: State)
    requires cfg.Valid() && cfg.size >= 1 && cfg.capacity >= 1 && Inv(cfg, s) && !s.tx.dead
    requires s.rx.conn < |s.tx.wires| - 1
    ensures StaysSound(cfg, BindReceiver(cfg, s)) <==> s.rx.bytesRead == 0
  {
    if s.rx.bytesRead == 0 {
      CleanReceiverBind(cfg, s, |s.tx.wires| - 1);
    } else {
      var s' := StagedReceiverBind(cfg, s);
    }
  }

  lemma LatestIsShifted(cfg: Config, tx: Tx)
    requires WireInv(cfg, tx) && !tx.dead
    ensures Shifted(cfg, tx, 0)
  {
    var last := |tx.wires| - 1;
    assert Carries(cfg.frameSize, tx.frames, tx.wires[last], tx.starts[last], NextStart(tx, last));
    assert Stream(tx.frames, tx.starts[last])[0..] == Stream(tx.frames, tx.starts[last]);
  }

  lemma FirstBind(cfg: Config, s: State)
    requires cfg.Valid() && Init(cfg, s)
    ensures Inv(cfg, s) && Leads(cfg, s, Apply(cfg, s, TxBind))
    ensures Sends(cfg, Apply(cfg, s, TxBind), 0) && Drained(Apply(cfg, s, TxBind).tx)
  {
    OneStepLeads(cfg, s, TxBind);
    assert Stream(s.tx.frames, 0) == [];
  }

  lemma FirstByte(cfg: Config, s: State) returns (s': State)
    requires cfg.Valid() && Sends(cfg, s, 0) && s.tx.poller.Resting? && s.tx.tail < s.tx.head && s.tx.inflight == 0
    ensures Leads(cfg, s, s') && !s'.tx.dead && s'.tx.inflight == 1
  {
    var s1 := Apply(cfg, s, PollBegin);
    SenderStep(cfg, s, PollBegin, 0);
    s' := Apply(cfg, s1, Send(1));
    SendEffect(cfg, s1.tx, 1);
    OneStepLeads(cfg, s1, Send(1));
    LeadsOn(cfg, s, s1, s');
  }

  /** And the conduit can be in such a state: one event pushed, one byte sent. */
  lemma HalfSentReachable(cfg: Config, s: State) returns (s': State)
    requires cfg.Valid() && cfg.capacity >= 1 && Init(cfg, s)
    ensures Leads(cfg, s, s') && Inv(cfg, s') && !s'.tx.dead && s'.tx.inflight == 1
  {
    FirstBind(cfg, s);
    var s1 := Apply(cfg, s, TxBind);
    var s2 := PushOne(cfg, s1, 0, Zeros(cfg.size));
    s' := FirstByte(cfg, s2);
    LeadsOn(cfg, s1, s2, s');
    LeadsOn(cfg, s, s1, s');
    var actions :| Legal(cfg, s, actions) && Run(cfg, s, actions) == s';
    InvStays(cfg, s, actions);
  }

  /** So for every configuration some run with one live bind reaches a state where the receiver is about to
      die at the type check or has completed a payload that was not pushed there. */
  lemma LiveBindBreaksSomeRun(cfg: Config, s: State) returns (s1: State, s2: State)
    requires cfg.Valid() && cfg.size >= 1 && cfg.capacity >= 1 && Init(cfg, s)
    ensures Leads(cfg, s, s1) && Leads(cfg, BindSender(cfg, s1), s2) && !Sound(cfg, s2)
  {
    s1 := HalfSentReachable(cfg, s);
    SenderBindSoundIff(cfg, s1);
    s2 :| Leads(cfg, BindSender(cfg, s1), s2) && !Sound(cfg, s2);
  }

  // ---------- the whole way ----------

  /** A drained sender of one event: its connection carries the one frame, which has the event's payload. */
  lemma OneFrameOnWire(cfg: Config, tx: Tx, p: Bytes)
    requires cfg.Valid() && RingInv(cfg, tx) && Shifted(cfg, tx, 0) && !tx.dead && Drained(tx)
    requires tx.pushed == [p] && tx.starts == [0] && |tx.wires| == 1
    ensures Span(1, cfg.frameSize) <= |tx.wires[0]| && Window(cfg, tx.wires[0], 0) == tx.frames[0]
    ensures tx.frames[0][..4] == cfg.typeId && cfg.Payload(tx.frames[0]) == p
  {
    WholeWire(cfg, tx, 0);
    assert |tx.frames| == 1 && cfg.IsFrame(tx.frames[0]);
    assert Stream(tx.frames, 1) == [];
    assert tx.wires[0] == Stream(tx.frames, 0)[0..] == tx.frames[0];
    assert Span(0, cfg.frameSize) == 0 && Span(1, cfg.frameSize) == cfg.frameSize;
  }

  /** The sender's half: from nothing, an event is pushed and all its bytes are on the first connection. */
  lemma OneEventSent(cfg: Config, s: State, p: Bytes) returns (s': State)
    requires cfg.Valid() && cfg.capacity >= 1 && Init(cfg, s) && |p| == cfg.size
    ensures Leads(cfg, s, s') && s'.rx == s.rx && Sends(cfg, s', 0) && Drained(s'.tx)
    ensures s'.tx.pushed == [p] && s'.tx.starts == [0] && |s'.tx.wires| == 1
  {
    FirstBind(cfg, s);
    var s1 := Apply(cfg, s, TxBind);
    var s2 := PushOne(cfg, s1, 0, p);
    s' := Drain(cfg, s2, 0);
    LeadsOn(cfg, s1, s2, s');
    LeadsOn(cfg, s, s1, s');
  }

  /** For every configuration with room and every payload some run takes an event the whole way: the sender is
      bound, the event pushed, framed, sent, received and handed to the sink with its payload. */
  lemma OneEventArrives(cfg: Config, s: State, p: Bytes) returns (s': State)
    requires cfg.Valid() && cfg.capacity >= 1 && Init(cfg, s) && |p| == cfg.size
    ensures Leads(cfg, s, s') && s'.rx.log == [Receipt(0, 0, p, true)] && !s'.rx.dead
  {
    var s1 := OneEventSent(cfg, s, p);
    OneFrameOnWire(cfg, s1.tx, p);
    var s2 := TakeLatest(cfg, s1);
    LeadsOn(cfg, s, s1, s2);
    var x := s1.tx.wires[0];
    assert [] + x == x;
    var a := ReadWindow(cfg, s2, 0, [], 0, 0, x);
    s' := Apply(cfg, s2, a);
    OneStepLeads(cfg, s2, a);
    LeadsOn(cfg, s, s2, s');
  }
}
