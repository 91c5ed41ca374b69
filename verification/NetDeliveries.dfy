/** What the callers of two networked conduits see over a whole run, read off the calls: which events `push`
accepted, and which payloads the sink was handed. */
module NetDeliveries {
  import opened Options
  import opened ByteStrings
  import opened Frames
  import opened NetSystem
  import opened NetRuns

  // ---------- what was pushed ----------

  /** The argument of the latest call of `push` in the first `k` steps. */
  function Argument(actions: seq<Action>, k: nat): Option<Bytes>
    requires k <= |actions|
  {
    if k == 0 then None
    else if actions[k - 1].PushBegin? then Some(actions[k - 1].payload)
    else Argument(actions, k - 1)
  }

  /** The arguments of the pushes that were accepted in the first `k` steps, in order. */
  function Accepted(actions: seq<Action>, k: nat): seq<Bytes>
    requires k <= |actions|
  {
    if k == 0 then []
    else
      Accepted(actions, k - 1) +
      if actions[k - 1] == PushCommit && Argument(actions, k - 1).Some? then [Argument(actions, k - 1).value] else []
  }

  lemma ProducerStep(cfg: Config, s: State, a: Action)
    requires cfg.Valid() && RingInv(cfg, s.tx) && Enabled(cfg, s, a)
    ensures var tx, tx' := s.tx, Apply(cfg, s, a).tx;
            && (!tx'.producer.Ready? ==>
                  if a.PushBegin? then tx'.producer.payload == a.payload
                  else !tx.producer.Ready? && tx'.producer.payload == tx.producer.payload)
            && tx'.pushed == tx.pushed + if a == PushCommit then [tx.producer.payload] else []
  {
    if a == PushWrite {
      SlotSize(cfg, s.tx.ring, s.tx.head);
    }
  }

  lemma {:induction false} ArgumentInHand(cfg: Config, trace: seq<State>, actions: seq<Action>, k: nat)
    requires cfg.Valid() && IsRun(cfg, trace, actions) && k < |trace|
    ensures !trace[k].tx.producer.Ready? ==> Argument(actions, k) == Some(trace[k].tx.producer.payload)
  {
    if k > 0 {
      ArgumentInHand(cfg, trace, actions, k - 1);
      RunKeepsInv(cfg, trace, actions, k - 1);
      assert Stepped(cfg, trace, actions, k - 1);
      ProducerStep(cfg, trace[k - 1], actions[k - 1]);
    }
  }

  /** The events the protocol counts as pushed are the arguments of the accepted pushes. */
  lemma {:induction false} PushedAreAccepted(cfg: Config, trace: seq<State>, actions: seq<Action>, k: nat)
    requires cfg.Valid() && IsRun(cfg, trace, actions) && k < |trace|
    ensures trace[k].tx.pushed == Accepted(actions, k)
  {
    if k > 0 {
      PushedAreAccepted(cfg, trace, actions, k - 1);
      ArgumentInHand(cfg, trace, actions, k - 1);
      RunKeepsInv(cfg, trace, actions, k - 1);
      assert Stepped(cfg, trace, actions, k - 1);
      ProducerStep(cfg, trace[k - 1], actions[k - 1]);
    }
  }

  // ---------- what was delivered ----------

  /** A frame that `poll_rx` completed, and whether `make` gave an event for it. */
  datatype Completion = Completion(payload: Bytes, made: bool)

  /** The frame a `recv` completes, seen before it: the staged bytes and those that arrive fill a frame with the
      right type id. */
  function Completes(cfg: Config, s: State, a: Action): seq<Completion>
    requires cfg.Valid()
  {
    if && a.Recv? && 0 <= s.rx.conn < |s.tx.wires| && s.rx.offset + a.n <= |s.tx.wires[s.rx.conn]|
       && s.rx.bytesRead + a.n == cfg.frameSize && s.rx.bytesRead <= |s.rx.staging| then
      var frame := s.rx.staging[..s.rx.bytesRead] + s.tx.wires[s.rx.conn][s.rx.offset..s.rx.offset + a.n];
      if frame[..4] == cfg.typeId then [Completion(frame[4..4 + cfg.size], a.made)] else []
    else []
  }

  function Completions(cfg: Config, trace: seq<State>, actions: seq<Action>, k: nat): seq<Completion>
    requires cfg.Valid() && k <= |actions| <= |trace|
  {
    if k == 0 then [] else Completions(cfg, trace, actions, k - 1) + Completes(cfg, trace[k - 1], actions[k - 1])
  }

  /** The payloads handed to the sink: those of the completed frames for which `make` gave an event. */
  function Delivered(cs: seq<Completion>): seq<Bytes> {
    if cs == [] then []
    else Delivered(cs[..|cs| - 1]) + if cs[|cs| - 1].made then [cs[|cs| - 1].payload] else []
  }

  /** The receipts are of the completions. */
  ghost predicate Receipted(log: seq<Receipt>, cs: seq<Completion>) {
    |log| == |cs| && forall i :: 0 <= i < |cs| ==> cs[i] == Completion(log[i].payload, log[i].made)
  }

  lemma CompletionIsReceipt(cfg: Config, s: State, a: Action, cs: seq<Completion>)
    requires cfg.Valid() && |s.rx.staging| == cfg.frameSize && Enabled(cfg, s, a) && Receipted(s.rx.log, cs)
    ensures Receipted(Apply(cfg, s, a).rx.log, cs + Completes(cfg, s, a))
  {
    if a.Recv? {
      RecvReceipt(cfg, s.tx, s.rx, a.n, a.made, Completes(cfg, s, a));
      assert s == State(s.tx, s.rx);
    } else {
      assert Completes(cfg, s, a) == [] && Apply(cfg, s, a).rx.log == s.rx.log;
    }
  }

  lemma RecvReceipt(cfg: Config, tx: Tx, rx: Rx, m: nat, made: bool, cs: seq<Completion>)
    requires cfg.Valid() && |rx.staging| == cfg.frameSize && 0 <= rx.conn < |tx.wires|
    requires 1 <= m <= cfg.frameSize - rx.bytesRead && rx.offset + m <= |tx.wires[rx.conn]|
    requires cs == Completes(cfg, State(tx, rx), Recv(m, made))
    ensures var log' := ApplyRx(cfg, tx, rx, Recv(m, made)).log;
            log' == rx.log + if cs == [] then [] else [Receipt(rx.conn, rx.position, cs[0].payload, cs[0].made)]
    ensures |cs| <= 1
  {
    RecvAbsorbs(cfg, tx, rx, m, made);
    var got := tx.wires[rx.conn][rx.offset..rx.offset + m];
    if rx.bytesRead + m == cfg.frameSize {
      assert rx.staging[..rx.bytesRead] + got + rx.staging[cfg.frameSize..] == rx.staging[..rx.bytesRead] + got;
    }
  }

  lemma {:induction false} LogIsCompletions(cfg: Config, trace: seq<State>, actions: seq<Action>, k: nat)
    requires cfg.Valid() && IsRun(cfg, trace, actions) && k < |trace|
    ensures Receipted(trace[k].rx.log, Completions(cfg, trace, actions, k))
  {
    if k > 0 {
      LogIsCompletions(cfg, trace, actions, k - 1);
      RunKeepsInv(cfg, trace, actions, k - 1);
      assert Stepped(cfg, trace, actions, k - 1);
      CompletionIsReceipt(cfg, trace[k - 1], actions[k - 1], Completions(cfg, trace, actions, k - 1));
    }
  }

  ghost predicate Ascends(at: seq<nat>) { forall i, j :: 0 <= i < j < |at| ==> at[i] < at[j] }

  /** The payloads `xs` are those of the completions at `at`, which are the ones that were made. */
  ghost predicate Picks(cs: seq<Completion>, at: seq<nat>, xs: seq<Bytes>) {
    && |at| == |xs| && Ascends(at)
    && (forall j :: 0 <= j < |at| ==> at[j] < |cs| && cs[at[j]].made && xs[j] == cs[at[j]].payload)
    && (forall i :: 0 <= i < |cs| && cs[i].made ==> i in at)
  }

  lemma PicksMore(cs: seq<Completion>, at: seq<nat>, xs: seq<Bytes>, c: Completion, cs': seq<Completion>)
    requires Picks(cs, at, xs) && cs' == cs + [c]
    ensures c.made ==> Picks(cs', at + [|cs|], xs + [c.payload])
    ensures !c.made ==> Picks(cs', at, xs)
  {
    forall i | 0 <= i < |cs'| && cs'[i].made ensures i in at + [|cs|] && (i < |cs| ==> i in at) {
      if i < |cs| {
        assert cs[i].made && i in at;
      } else {
        assert (at + [|cs|])[|at|] == |cs|;
      }
    }
  }

  /** The completions at `at` are the delivered ones. */
  ghost predicate PicksDelivered(cs: seq<Completion>, at: seq<nat>) { Picks(cs, at, Delivered(cs)) }

  /** Which of the completions were delivered: exactly those that were made, in order. */
  lemma {:induction false} DeliveredAreMade(cs: seq<Completion>) returns (at: seq<nat>)
    ensures PicksDelivered(cs, at)
  {
    if cs == [] {
      at := [];
    } else {
      var n, c := |cs| - 1, cs[|cs| - 1];
      at := DeliveredAreMade(cs[..n]);
      PicksMore(cs[..n], at, Delivered(cs[..n]), c, cs);
      if c.made {
        at := at + [n];
      } else {
        assert Delivered(cs) == Delivered(cs[..n]);
      }
    }
  }

  /** The events at the positions `at`, in order, are `xs`. */
  ghost predicate TakenFrom(events: seq<Bytes>, at: seq<nat>, xs: seq<Bytes>) {
    && |at| == |xs| && Ascends(at)
    && forall j :: 0 <= j < |at| ==> at[j] < |events| && xs[j] == events[at[j]]
  }

  lemma PickedPositions(log: seq<Receipt>, cs: seq<Completion>, made: seq<nat>, xs: seq<Bytes>, events: seq<Bytes>)
    returns (at: seq<nat>)
    requires Receipted(log, cs) && Picks(cs, made, xs)
    requires forall i :: 0 <= i < |log| ==> log[i].position < |events| && log[i].payload == events[log[i].position]
    requires forall i, j :: 0 <= i < j < |log| ==> log[i].position < log[j].position
    ensures TakenFrom(events, at, xs)
  {
    at := seq(|made|, j requires 0 <= j < |made| => log[made[j]].position);
  }

  /** Across any run of pushes, partial sends and receives, deaths and rebinds: what the sink was handed, in
      order, are events that `push` accepted, each at most once and in the order of acceptance. */
  lemma DeliveredWereAccepted(cfg: Config, trace: seq<State>, actions: seq<Action>, k: nat) returns (at: seq<nat>)
    requires cfg.Valid() && IsRun(cfg, trace, actions) && k < |trace|
    ensures TakenFrom(Accepted(actions, k), at, Delivered(Completions(cfg, trace, actions, k)))
  {
    var cs := Completions(cfg, trace, actions, k);
    PushedAreAccepted(cfg, trace, actions, k);
    LogIsCompletions(cfg, trace, actions, k);
    DeliveredInOrderAtMostOnce(cfg, trace, actions, k);
    var made := DeliveredAreMade(cs);
    at := PickedPositions(trace[k].rx.log, cs, made, Delivered(cs), Accepted(actions, k));
  }

  /** On one connection the completed frames are the first accepted events, one by one, and the sink was handed
      the i-th of them if and only if `make` gave an event for it. */
  lemma OneConnectionDelivers(cfg: Config, trace: seq<State>, actions: seq<Action>, k: nat) returns (at: seq<nat>)
    requires cfg.Valid() && IsRun(cfg, trace, actions) && k < |trace| && |trace[k].tx.wires| == 1
    ensures var cs, accepted := Completions(cfg, trace, actions, k), Accepted(actions, k);
            && |cs| <= |accepted| && (forall i :: 0 <= i < |cs| ==> cs[i].payload == accepted[i])
            && |at| == |Delivered(cs)| && Ascends(at)
            && (forall j :: 0 <= j < |at| ==> at[j] < |cs| && Delivered(cs)[j] == accepted[at[j]])
            && (forall i :: 0 <= i < |cs| ==> (i in at <==> cs[i].made))
  {
    var cs := Completions(cfg, trace, actions, k);
    PushedAreAccepted(cfg, trace, actions, k);
    LogIsCompletions(cfg, trace, actions, k);
    OneConnectionIsPrefix(cfg, trace, actions, k);
    at := DeliveredAreMade(cs);
  }

  // ---------- who is refused ----------

  /** A push that is refused met a full ring: as many events accepted and not yet published as sent as the
      capacity.  Nothing is queued by it, and the next push may begin. */
  lemma RefusedWhenFull(cfg: Config, trace: seq<State>, actions: seq<Action>, k: nat)
    requires cfg.Valid() && IsRun(cfg, trace, actions) && k < |actions| && actions[k] == PushRefuse
    ensures |Accepted(actions, k)| - trace[k].tx.tail == cfg.capacity
    ensures Accepted(actions, k + 1) == Accepted(actions, k) && trace[k + 1].tx.producer.Ready?
  {
    PushedAreAccepted(cfg, trace, actions, k);
    RunKeepsInv(cfg, trace, actions, k);
    assert Stepped(cfg, trace, actions, k);
  }

  /** The sender dies in the step. */
  predicate KillsSender(a: Action) { a == SendFail || a == TxDie }

  /** What a dead sender, or one that dies, does in a step other than a bind. */
  lemma DeadSenderStep(cfg: Config, s: State, a: Action)
    requires cfg.Valid() && CursorInv(cfg, s.tx) && Enabled(cfg, s, a) && a != TxBind && (s.tx.dead || KillsSender(a))
    ensures Apply(cfg, s, a).tx.dead && Apply(cfg, s, a).tx.wires == s.tx.wires
  {
  }

  /** What a dead sender cannot do. */
  lemma DeadSenderCannot(cfg: Config, s: State, a: Action)
    requires CursorInv(cfg, s.tx) && Enabled(cfg, s, a) && s.tx.dead
    ensures !a.PushBegin? && a != PollBegin && !a.Send?
  {
  }

  lemma DeadSenderNext(cfg: Config, trace: seq<State>, actions: seq<Action>, k: nat)
    requires cfg.Valid() && IsRun(cfg, trace, actions) && k < |actions|
    requires actions[k] != TxBind && (trace[k].tx.dead || KillsSender(actions[k]))
    ensures trace[k + 1].tx.dead && trace[k + 1].tx.wires == trace[k].tx.wires
  {
    RunKeepsInv(cfg, trace, actions, k);
    assert Stepped(cfg, trace, actions, k);
    DeadSenderStep(cfg, trace[k], actions[k]);
  }

  lemma {:induction false} DeadUntilBound(cfg: Config, trace: seq<State>, actions: seq<Action>, j: nat, k: nat)
    requires cfg.Valid() && IsRun(cfg, trace, actions) && j < k < |trace| && KillsSender(actions[j])
    requires forall i :: j < i < k ==> actions[i] != TxBind
    ensures trace[k].tx.dead && trace[k].tx.wires == trace[j].tx.wires
    decreases k
  {
    if j < k - 1 {
      DeadUntilBound(cfg, trace, actions, j, k - 1);
    }
    DeadSenderNext(cfg, trace, actions, k - 1);
  }

  /** A dead sender admits no push, starts no poll and puts no byte on any connection, until it is bound again. */
  lemma DeadSenderIsSilent(cfg: Config, trace: seq<State>, actions: seq<Action>, j: nat, k: nat)
    requires cfg.Valid() && IsRun(cfg, trace, actions) && j < k < |trace| && KillsSender(actions[j])
    requires forall i :: j < i < k ==> actions[i] != TxBind
    ensures trace[k].tx.dead && trace[k].tx.wires == trace[j].tx.wires
    ensures k < |actions| ==> !actions[k].PushBegin? && actions[k] != PollBegin && !actions[k].Send?
  {
    DeadUntilBound(cfg, trace, actions, j, k);
    if k < |actions| {
      RunKeepsInv(cfg, trace, actions, k);
      assert Stepped(cfg, trace, actions, k);
      DeadSenderCannot(cfg, trace[k], actions[k]);
    }
  }

  lemma DeadReceiverStep(cfg: Config, s: State, a: Action)
    requires cfg.Valid() && Enabled(cfg, s, a) && !a.RxBind? && (s.rx.dead || a == RxDie)
    ensures !a.Recv? && Apply(cfg, s, a).rx.dead && Completes(cfg, s, a) == []
  {
  }

  /** A dead receiver reads and delivers nothing until it is bound again. */
  lemma {:induction false} DeadReceiverIsSilent(cfg: Config, trace: seq<State>, actions: seq<Action>, j: nat, k: nat)
    requires cfg.Valid() && IsRun(cfg, trace, actions) && j < k < |trace| && actions[j] == RxDie
    requires forall i :: j < i < k ==> !actions[i].RxBind?
    ensures trace[k].rx.dead && (k < |actions| ==> !actions[k].Recv?)
    ensures Completions(cfg, trace, actions, k) == Completions(cfg, trace, actions, j)
    decreases k
  {
    if j < k - 1 {
      DeadReceiverIsSilent(cfg, trace, actions, j, k - 1);
    }
    assert Stepped(cfg, trace, actions, k - 1);
    DeadReceiverStep(cfg, trace[k - 1], actions[k - 1]);
    if k < |actions| {
      assert Stepped(cfg, trace, actions, k);
    }
  }

  /** However a poll ends, its next step publishes how far it got and leaves the poll thread at rest. */
  lemma PollPublishes(cfg: Config, s: State, a: Action)
    requires cfg.Valid() && Enabled(cfg, s, a) && (a == SendBlock || a == SendFail || a == PollDone)
    ensures Enabled(cfg, Apply(cfg, s, a), Publish)
    ensures var tx' := Apply(cfg, Apply(cfg, s, a), Publish).tx; tx'.tail == Cur(s.tx) && tx'.poller == Resting
  {
  }
}
