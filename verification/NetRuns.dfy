/** Whole runs of the networked conduit: what the sink sees, across deaths and rebinds. */
module NetRuns {
  import opened ByteStrings
  import opened Frames
  import opened NetSystem

  // ---------- the receiver ----------

  ghost predicate RxInv(cfg: Config, tx: Tx, rx: Rx)
    requires |tx.starts| == |tx.wires|
  {
    && -1 <= rx.conn < |tx.wires|
    && |rx.staging| == cfg.frameSize && rx.bytesRead < cfg.frameSize
    && (rx.dead ==> rx.bytesRead == 0)
    && (rx.conn == -1 ==> rx.dead && rx.log == [])
    && (rx.conn >= 0 ==>
          var wire, start := tx.wires[rx.conn], tx.starts[rx.conn];
          && start <= rx.position && Span(rx.position - start, cfg.frameSize) <= |wire|
          && (!rx.dead ==> Aligned(cfg, tx.frames, wire, start, rx)))
  }

  /** The receiver's frame boundary is the sender's: it stands `bytesRead` bytes into frame `position`. */
  ghost predicate Aligned(cfg: Config, frames: seq<Bytes>, wire: Bytes, start: nat, rx: Rx)
    requires start <= rx.position
  {
    && rx.offset == Span(rx.position - start, cfg.frameSize) + rx.bytesRead <= |wire|
    && (rx.bytesRead > 0 ==>
          && rx.position < |frames| && rx.bytesRead <= |frames[rx.position]| && rx.bytesRead <= |rx.staging|
          && rx.staging[..rx.bytesRead] == frames[rx.position][..rx.bytesRead])
  }

  /** What the receipts say: pushed payloads, at strictly increasing positions, without gaps while the
      connection stays the same, each connection beginning where the sender began it. */
  ghost predicate LogInv(tx: Tx, rx: Rx)
    requires |tx.starts| == |tx.wires| && -1 <= rx.conn < |tx.wires|
  {
    && (forall i :: 0 <= i < |rx.log| ==> Genuine(tx, rx.log[i]) && rx.log[i].conn <= rx.conn)
    && (forall i :: 0 <= i < |rx.log| ==> Follows(tx.starts, rx.log, i))
    && (forall i :: 0 <= i < |rx.log| ==> rx.log[i].position < rx.position)
    && (rx.conn >= 0 ==> rx.position == Expected(tx.starts, rx.log, rx.conn))
  }

  ghost predicate Genuine(tx: Tx, r: Receipt) {
    r.position < |tx.pushed| && r.payload == tx.pushed[r.position] && r.conn < |tx.starts|
  }

  /** The position the next frame on connection `c` must have, after the receipts in `log`. */
  function Expected(starts: seq<nat>, log: seq<Receipt>, c: nat): nat
    requires c < |starts|
  {
    if log != [] && log[|log| - 1].conn == c then log[|log| - 1].position + 1 else starts[c]
  }

  ghost predicate Follows(starts: seq<nat>, log: seq<Receipt>, i: nat)
    requires i < |log|
  {
    && log[i].conn < |starts|
    && log[i].position == Expected(starts, log[..i], log[i].conn)
    && (i > 0 ==> log[i - 1].conn <= log[i].conn && log[i - 1].position < log[i].position)
  }

  ghost predicate Inv(cfg: Config, s: State)
    requires cfg.Valid()
  {
    && RingInv(cfg, s.tx) && WireInv(cfg, s.tx) && RxInv(cfg, s.tx, s.rx) && LogInv(s.tx, s.rx)
    && (|s.tx.wires| == 0 ==> s.tx.head == 0 && s.tx.poller.Resting? && s.tx.producer.Ready? && s.tx.dead)
    && (|s.tx.wires| > 0 ==> s.tx.starts[0] == 0)
  }

  /** The sender's histories only grow. */
  ghost predicate Grows(tx: Tx, tx': Tx) {
    && |tx.starts| == |tx.wires| && |tx'.starts| == |tx'.wires|
    && tx.frames <= tx'.frames && tx.pushed <= tx'.pushed && tx.starts <= tx'.starts
    && |tx.wires| <= |tx'.wires| && forall c :: 0 <= c < |tx.wires| ==> tx.wires[c] <= tx'.wires[c]
  }

  lemma TxGrows(cfg: Config, s: State, a: Action)
    requires cfg.Valid() && |s.tx.starts| == |s.tx.wires|
    ensures Grows(s.tx, ApplyTx(cfg, s.tx, a))
  {
  }

  lemma RxSurvivesGrowth(cfg: Config, tx: Tx, tx': Tx, rx: Rx)
    requires Grows(tx, tx') && RxInv(cfg, tx, rx) && LogInv(tx, rx)
    ensures RxInv(cfg, tx', rx) && LogInv(tx', rx)
  {
    if rx.conn >= 0 {
      assert tx.wires[rx.conn] <= tx'.wires[rx.conn] && tx.starts[rx.conn] == tx'.starts[rx.conn];
      if rx.bytesRead > 0 {
        assert tx.frames[rx.position] == tx'.frames[rx.position];
      }
    }
    LogSurvivesGrowth(tx, tx', rx);
  }

  lemma LogSurvivesGrowth(tx: Tx, tx': Tx, rx: Rx)
    requires Grows(tx, tx') && -1 <= rx.conn < |tx.wires| && LogInv(tx, rx)
    ensures LogInv(tx', rx)
  {
    forall i | 0 <= i < |rx.log| ensures Genuine(tx', rx.log[i]) && Follows(tx'.starts, rx.log, i) {
      assert Genuine(tx, rx.log[i]) && Follows(tx.starts, rx.log, i);
      assert tx.starts[rx.log[i].conn] == tx'.starts[rx.log[i].conn];
    }
  }

  /** The next bytes on the wire are the next bytes of the frame the receiver is in. */
  lemma NextBytes(n: nat, frames: seq<Bytes>, wire: Bytes, start: nat, next: nat, position: nat, r: nat, m: nat)
    requires AllOfSize(frames, n) && Carries(n, frames, wire, start, next) && start <= position
    requires m >= 1 && r + m <= n && Span(position - start, n) + r + m <= |wire|
    ensures position < |frames|
    ensures wire[Span(position - start, n) + r..Span(position - start, n) + r + m] == frames[position][r..r + m]
  {
    StreamLength(frames, start, n);
    if position >= |frames| {
      SpanMonotone(|frames| - start, position - start, n);
    }
    StreamAt(frames, start, n, position - start, r, m);
    var o := Span(position - start, n) + r;
    assert wire[o..o + m] == Stream(frames, start)[o..o + m];
  }

  /** What `recv` is about to return continues the frame in the staging area. */
  lemma RecvContinuesFrame(cfg: Config, frames: seq<Bytes>, wire: Bytes, start: nat, next: nat, rx: Rx, m: nat)
    requires AllOfSize(frames, cfg.frameSize) && Carries(cfg.frameSize, frames, wire, start, next)
    requires start <= rx.position && Aligned(cfg, frames, wire, start, rx) && |rx.staging| == cfg.frameSize
    requires m >= 1 && rx.bytesRead + m <= cfg.frameSize && rx.offset + m <= |wire|
    ensures rx.position < |frames| && rx.bytesRead + m <= |frames[rx.position]|
    ensures wire[rx.offset..rx.offset + m] == frames[rx.position][rx.bytesRead..rx.bytesRead + m]
    ensures rx.staging[..rx.bytesRead] == frames[rx.position][..rx.bytesRead]
  {
    NextBytes(cfg.frameSize, frames, wire, start, next, rx.position, rx.bytesRead, m);
  }

  lemma RecvAbsorbs(cfg: Config, tx: Tx, rx: Rx, m: nat, made: bool)
    requires cfg.Valid() && 0 <= rx.conn < |tx.wires| && |rx.staging| == cfg.frameSize
    requires m <= cfg.frameSize - rx.bytesRead && rx.offset + m <= |tx.wires[rx.conn]|
    ensures ApplyRx(cfg, tx, rx, Recv(m, made)) == Absorb(cfg, rx, tx.wires[rx.conn][rx.offset..rx.offset + m], made)
  {
  }

  lemma FramesAreFrames(cfg: Config, tx: Tx)
    requires cfg.Valid() && QueueInv(cfg, tx)
    ensures AllOfSize(tx.frames, cfg.frameSize)
    ensures forall i :: 0 <= i < |tx.frames| ==> cfg.IsFrame(tx.frames[i]) && cfg.Payload(tx.frames[i]) == tx.pushed[i]
  {
    forall i | 0 <= i < |tx.frames| ensures |tx.frames[i]| == cfg.frameSize {
      assert cfg.IsFrame(tx.frames[i]);
    }
  }

  lemma RecvEffect(cfg: Config, tx: Tx, rx: Rx, rx': Rx, m: nat, made: bool)
    requires cfg.Valid() && RingInv(cfg, tx) && WireInv(cfg, tx) && RxInv(cfg, tx, rx)
    requires !rx.dead && 0 <= rx.conn && 1 <= m <= cfg.frameSize - rx.bytesRead && rx.offset + m <= |tx.wires[rx.conn]|
    requires rx' == ApplyRx(cfg, tx, rx, Recv(m, made))
    ensures rx.position < |tx.frames| && Absorbed(cfg, tx.frames[rx.position], tx.pushed[rx.position], rx, rx', m, made)
  {
    var c := rx.conn;
    var got := tx.wires[c][rx.offset..rx.offset + m];
    FramesAreFrames(cfg, tx);
    RecvAbsorbs(cfg, tx, rx, m, made);
    RecvContinuesFrame(cfg, tx.frames, tx.wires[c], tx.starts[c], NextStart(tx, c), rx, m);
    AbsorbFrameBytes(cfg, rx, rx', tx.frames[rx.position], tx.pushed[rx.position], got, m, made);
  }

  /** `m` more bytes of `frame` were staged; when that completes it, one receipt is written. */
  ghost predicate Absorbed(cfg: Config, frame: Bytes, payload: Bytes, rx: Rx, rx': Rx, m: nat, made: bool) {
    && |rx'.staging| == cfg.frameSize == |frame| && rx'.conn == rx.conn >= 0 && rx'.offset == rx.offset + m && !rx'.dead
    && if rx.bytesRead + m < cfg.frameSize then
         && rx'.bytesRead == rx.bytesRead + m && rx'.position == rx.position && rx'.log == rx.log
         && rx'.staging[..rx'.bytesRead] == frame[..rx'.bytesRead]
       else
         && rx'.bytesRead == 0 && rx'.position == rx.position + 1
         && rx'.log == rx.log + [Receipt(rx.conn, rx.position, payload, made)]
  }

  lemma AbsorbFrameBytes(cfg: Config, rx: Rx, rx': Rx, frame: Bytes, payload: Bytes, got: Bytes, m: nat, made: bool)
    requires cfg.Valid() && cfg.IsFrame(frame) && |rx.staging| == cfg.frameSize && !rx.dead && rx.conn >= 0
    requires |got| == m
    requires rx.bytesRead + m <= cfg.frameSize && rx.staging[..rx.bytesRead] == frame[..rx.bytesRead]
    requires got == frame[rx.bytesRead..rx.bytesRead + m] && payload == cfg.Payload(frame)
    requires rx' == Absorb(cfg, rx, got, made)
    ensures Absorbed(cfg, frame, payload, rx, rx', m, made)
  {
    Stage(rx.staging, frame, got, rx.bytesRead, m);
  }

  lemma Stage(staging: Bytes, frame: Bytes, got: Bytes, r: nat, m: nat)
    requires |staging| == |frame| && r + m <= |frame|
    requires staging[..r] == frame[..r] && got == frame[r..r + m]
    ensures var staging' := staging[..r] + got + staging[r + m..];
            && |staging'| == |frame| && staging'[..r + m] == frame[..r + m]
            && (r + m == |frame| ==> staging' == frame)
  {
    assert frame[..r] + frame[r..r + m] == frame[..r + m];
  }

  lemma AbsorbedAligned(
    cfg: Config, frames: seq<Bytes>, wire: Bytes, start: nat, rx: Rx, rx': Rx, payload: Bytes, m: nat, made: bool)
    requires start <= rx.position < |frames| && Aligned(cfg, frames, wire, start, rx)
    requires rx.bytesRead + m <= cfg.frameSize
    requires m >= 1 && rx.offset + m <= |wire| && Absorbed(cfg, frames[rx.position], payload, rx, rx', m, made)
    ensures start <= rx'.position && Aligned(cfg, frames, wire, start, rx')
    ensures Span(rx'.position - start, cfg.frameSize) <= |wire| && rx'.bytesRead < cfg.frameSize
  {
    assert Span(rx.position - start + 1, cfg.frameSize) == Span(rx.position - start, cfg.frameSize) + cfg.frameSize;
  }

  lemma RecvKeepsRx(cfg: Config, tx: Tx, rx: Rx, rx': Rx, m: nat, made: bool)
    requires |tx.starts| == |tx.wires| && RxInv(cfg, tx, rx) && !rx.dead && 0 <= rx.conn
    requires 1 <= m <= cfg.frameSize - rx.bytesRead && rx.offset + m <= |tx.wires[rx.conn]|
    requires rx.position < |tx.frames| == |tx.pushed|
    requires Absorbed(cfg, tx.frames[rx.position], tx.pushed[rx.position], rx, rx', m, made)
    ensures RxInv(cfg, tx, rx')
  {
    AbsorbedAligned(cfg, tx.frames, tx.wires[rx.conn], tx.starts[rx.conn], rx, rx', tx.pushed[rx.position], m, made);
  }

  lemma RecvStep(cfg: Config, tx: Tx, rx: Rx, m: nat, made: bool)
    requires cfg.Valid() && RingInv(cfg, tx) && WireInv(cfg, tx) && RxInv(cfg, tx, rx) && LogInv(tx, rx)
    requires !rx.dead && 0 <= rx.conn && 1 <= m <= cfg.frameSize - rx.bytesRead && rx.offset + m <= |tx.wires[rx.conn]|
    ensures var rx' := ApplyRx(cfg, tx, rx, Recv(m, made));
            RxInv(cfg, tx, rx') && LogInv(tx, rx') && !rx'.dead
  {
    var rx' := ApplyRx(cfg, tx, rx, Recv(m, made));
    RecvEffect(cfg, tx, rx, rx', m, made);
    RecvKeepsRx(cfg, tx, rx, rx', m, made);
    if rx'.log != rx.log {
      LogExtends(tx, rx, rx', made);
    }
  }

  lemma LogExtends(tx: Tx, rx: Rx, rx': Rx, made: bool)
    requires |tx.starts| == |tx.wires| && 0 <= rx.conn < |tx.wires| && LogInv(tx, rx)
    requires rx.position < |tx.pushed| && rx'.conn == rx.conn && rx'.position == rx.position + 1
    requires rx'.log == rx.log + [Receipt(rx.conn, rx.position, tx.pushed[rx.position], made)]
    ensures LogInv(tx, rx')
  {
    forall i | 0 <= i < |rx'.log| ensures Genuine(tx, rx'.log[i]) && Follows(tx.starts, rx'.log, i) {
      LogExtendsAt(tx, rx, rx', made, i);
    }
    var n := |rx.log|;
    assert forall i :: 0 <= i < n ==> rx'.log[i] == rx.log[i];
    assert rx'.log[n] == Receipt(rx.conn, rx.position, tx.pushed[rx.position], made);
  }

  lemma LogExtendsAt(tx: Tx, rx: Rx, rx': Rx, made: bool, i: nat)
    requires |tx.starts| == |tx.wires| && 0 <= rx.conn < |tx.wires| && LogInv(tx, rx) && rx.position < |tx.pushed|
    requires rx'.log == rx.log + [Receipt(rx.conn, rx.position, tx.pushed[rx.position], made)] && i < |rx'.log|
    ensures Genuine(tx, rx'.log[i]) && Follows(tx.starts, rx'.log, i)
  {
    if i < |rx.log| {
      assert Genuine(tx, rx.log[i]) && Follows(tx.starts, rx.log, i);
      assert rx'.log[..i] == rx.log[..i];
    } else {
      assert rx'.log[..i] == rx.log;
    }
  }

  lemma {:induction false} StartsAscend(cfg: Config, tx: Tx, c: nat, d: nat)
    requires WireInv(cfg, tx) && c < d < |tx.wires|
    ensures NextStart(tx, c) <= tx.starts[d]
  {
    if c + 1 < d {
      StartsAscend(cfg, tx, c, d - 1);
      assert Carries(cfg.frameSize, tx.frames, tx.wires[d - 1], tx.starts[d - 1], NextStart(tx, d - 1));
    }
  }

  /** A later connection starts no earlier than the receiver has got. */
  lemma BindsAhead(cfg: Config, tx: Tx, rx: Rx, d: nat)
    requires WireInv(cfg, tx) && RxInv(cfg, tx, rx) && rx.conn < d < |tx.wires|
    ensures rx.conn >= 0 ==> rx.position <= tx.starts[d]
  {
    var c := rx.conn;
    if c >= 0 {
      assert Carries(cfg.frameSize, tx.frames, tx.wires[c], tx.starts[c], NextStart(tx, c));
      WholeFrames(rx.position - tx.starts[c], NextStart(tx, c) - tx.starts[c], cfg.frameSize, |tx.wires[c]|);
      StartsAscend(cfg, tx, c, d);
    }
  }

  lemma RxBindStep(cfg: Config, tx: Tx, rx: Rx, d: nat)
    requires cfg.Valid() && WireInv(cfg, tx) && RxInv(cfg, tx, rx) && LogInv(tx, rx)
    requires rx.bytesRead == 0 && rx.conn < d < |tx.wires|
    ensures var rx' := ApplyRx(cfg, tx, rx, RxBind(d)); RxInv(cfg, tx, rx') && LogInv(tx, rx')
  {
    BindsAhead(cfg, tx, rx, d);
  }

  lemma RxStep(cfg: Config, s: State, a: Action)
    requires cfg.Valid() && RingInv(cfg, s.tx) && WireInv(cfg, s.tx) && RxInv(cfg, s.tx, s.rx) && LogInv(s.tx, s.rx)
    requires Enabled(cfg, s, a)
    ensures var rx' := ApplyRx(cfg, s.tx, s.rx, a); RxInv(cfg, s.tx, rx') && LogInv(s.tx, rx')
  {
    match a
    case Recv(m, made) => RecvStep(cfg, s.tx, s.rx, m, made);
    case RxBind(d) => RxBindStep(cfg, s.tx, s.rx, d);
    case _ =>
  }

  /** Every step of either side keeps the whole invariant. */
  lemma StepKeepsInv(cfg: Config, s: State, a: Action)
    requires cfg.Valid() && Inv(cfg, s) && Enabled(cfg, s, a)
    ensures Inv(cfg, Apply(cfg, s, a))
  {
    RingStep(cfg, s, a);
    WireStep(cfg, s, a);
    RxStep(cfg, s, a);
    TxGrows(cfg, s, a);
    RxSurvivesGrowth(cfg, s.tx, ApplyTx(cfg, s.tx, a), ApplyRx(cfg, s.tx, s.rx, a));
  }

  // ---------- runs ----------

  /** Action `i` leads on to the next state. */
  ghost predicate Stepped(cfg: Config, trace: seq<State>, actions: seq<Action>, i: nat)
    requires cfg.Valid() && i < |actions| && i + 1 < |trace|
  {
    Enabled(cfg, trace[i], actions[i]) && trace[i + 1] == Apply(cfg, trace[i], actions[i])
  }

  ghost predicate IsRun(cfg: Config, trace: seq<State>, actions: seq<Action>)
    requires cfg.Valid()
  {
    && |trace| == |actions| + 1
    && Init(cfg, trace[0])
    && forall i :: 0 <= i < |actions| ==> Stepped(cfg, trace, actions, i)
  }

  lemma {:induction false} RunKeepsInv(cfg: Config, trace: seq<State>, actions: seq<Action>, k: nat)
    requires cfg.Valid() && IsRun(cfg, trace, actions) && k < |trace|
    ensures Inv(cfg, trace[k])
  {
    if k > 0 {
      RunKeepsInv(cfg, trace, actions, k - 1);
      assert Stepped(cfg, trace, actions, k - 1);
      StepKeepsInv(cfg, trace[k - 1], actions[k - 1]);
    }
  }

  /** Across any run of pushes, partial sends, partial receives, deaths and rebinds, what reaches the
      sink is a subsequence of what was pushed: in order, at most once, payload intact. */
  lemma DeliveredInOrderAtMostOnce(cfg: Config, trace: seq<State>, actions: seq<Action>, k: nat)
    requires cfg.Valid() && IsRun(cfg, trace, actions) && k < |trace|
    ensures var log, pushed := trace[k].rx.log, trace[k].tx.pushed;
            && (forall i :: 0 <= i < |log| ==> log[i].position < |pushed| && log[i].payload == pushed[log[i].position])
            && (forall i, j :: 0 <= i < j < |log| ==> log[i].position < log[j].position)
  {
    RunKeepsInv(cfg, trace, actions, k);
    var tx, log := trace[k].tx, trace[k].rx.log;
    forall i | 0 <= i < |log| ensures log[i].position < |tx.pushed| && log[i].payload == tx.pushed[log[i].position] {
      assert Genuine(tx, log[i]);
    }
    forall i, j | 0 <= i < j < |log| ensures log[i].position < log[j].position {
      PositionsAscend(tx, log, i, j);
    }
  }

  lemma {:induction false} PositionsAscend(tx: Tx, log: seq<Receipt>, i: nat, j: nat)
    requires i < j < |log| && forall l :: 0 <= l < |log| ==> Follows(tx.starts, log, l)
    ensures log[i].position < log[j].position
  {
    assert Follows(tx.starts, log, j);
    if i < j - 1 {
      PositionsAscend(tx, log, i, j - 1);
    }
  }

  /** Frame boundaries never drift: in no run does the type check kill the conduit. */
  lemma TypeCheckNeverKills(cfg: Config, trace: seq<State>, actions: seq<Action>, k: nat)
    requires cfg.Valid() && IsRun(cfg, trace, actions) && k < |actions| && actions[k].Recv?
    ensures !trace[k + 1].rx.dead
  {
    RunKeepsInv(cfg, trace, actions, k);
    assert Stepped(cfg, trace, actions, k);
    RecvStep(cfg, trace[k].tx, trace[k].rx, actions[k].n, actions[k].made);
  }

  /** While there has been only one connection, the completed frames are a prefix of the pushed events. */
  lemma {:induction false} OneConnectionIsPrefix(cfg: Config, trace: seq<State>, actions: seq<Action>, k: nat)
    requires cfg.Valid() && IsRun(cfg, trace, actions) && k < |trace| && |trace[k].tx.wires| == 1
    ensures var log, pushed := trace[k].rx.log, trace[k].tx.pushed;
            && |log| <= |pushed|
            && (forall i :: 0 <= i < |log| ==> log[i].position == i && log[i].payload == pushed[i])
  {
    RunKeepsInv(cfg, trace, actions, k);
    var tx, log := trace[k].tx, trace[k].rx.log;
    forall i | 0 <= i < |log| ensures log[i].position == i && i < |tx.pushed| && log[i].payload == tx.pushed[i] {
      NoGaps(tx, trace[k].rx, i);
      assert Genuine(tx, log[i]);
    }
    if |log| > 0 {
      assert log[|log| - 1].position == |log| - 1;
    }
  }

  lemma {:induction false} NoGaps(tx: Tx, rx: Rx, i: nat)
    requires |tx.starts| == |tx.wires| == 1 && -1 <= rx.conn < 1 && LogInv(tx, rx) && tx.starts[0] == 0 && i < |rx.log|
    ensures rx.log[i].position == i
  {
    assert Follows(tx.starts, rx.log, i) && Genuine(tx, rx.log[i]);
    if i > 0 {
      NoGaps(tx, rx, i - 1);
      assert Genuine(tx, rx.log[i - 1]);
      assert rx.log[..i][i - 1] == rx.log[i - 1];
    }
  }

  lemma SamePlace(a: nat, b: nat, n: nat, r: nat)
    requires r < n && Span(a, n) + r == Span(b, n)
    ensures a == b && r == 0
  {
    WholeFrames(a, b, n, Span(b, n));
    WholeFrames(b, a, n, Span(b, n));
  }

  /** Once everything accepted has been read from a live connection, no frame sent on it is missing. */
  lemma NothingMissing(cfg: Config, trace: seq<State>, actions: seq<Action>, k: nat)
    requires cfg.Valid() && IsRun(cfg, trace, actions) && k < |trace|
    requires var tx, rx := trace[k].tx, trace[k].rx;
             && !tx.dead && !rx.dead && tx.inflight == 0 && 0 <= rx.conn == |tx.wires| - 1
             && rx.offset == |tx.wires[rx.conn]|
    ensures trace[k].rx.bytesRead == 0 && trace[k].rx.position == Cur(trace[k].tx)
    ensures |trace[k].tx.wires| == 1 && Cur(trace[k].tx) == trace[k].tx.head ==>
              |trace[k].rx.log| == |trace[k].tx.pushed|
  {
    RunKeepsInv(cfg, trace, actions, k);
    var tx, rx := trace[k].tx, trace[k].rx;
    SamePlace(rx.position - tx.starts[rx.conn], Cur(tx) - tx.starts[rx.conn], cfg.frameSize, rx.bytesRead);
    if |tx.wires| == 1 && rx.log != [] {
      NoGaps(tx, rx, |rx.log| - 1);
      assert Genuine(tx, rx.log[|rx.log| - 1]);
    }
  }
}
