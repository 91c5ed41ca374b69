/** What may happen to two networked conduits from any state on, what the sink must see, and what a receiver
sees that is bound while bytes of an older frame are staged: the bytes of the connection behind those, cut
into frame-sized windows. */
module NetWindows {
  import opened ByteStrings
  import opened Frames
  import opened NetSystem
  import opened NetRuns

  // ---------- continuations ----------

  predicate Legal(cfg: Config, s: State, actions: seq<Action>)
    requires cfg.Valid()
    decreases actions
  {
    actions == [] || (Enabled(cfg, s, actions[0]) && Legal(cfg, Apply(cfg, s, actions[0]), actions[1..]))
  }

  function Run(cfg: Config, s: State, actions: seq<Action>): State
    requires cfg.Valid()
    decreases actions
  {
    if actions == [] then s else Run(cfg, Apply(cfg, s, actions[0]), actions[1..])
  }

  ghost predicate Leads(cfg: Config, s: State, s': State)
    requires cfg.Valid()
  {
    exists actions :: Legal(cfg, s, actions) && Run(cfg, s, actions) == s'
  }

  lemma LeadsNowhere(cfg: Config, s: State)
    requires cfg.Valid()
    ensures Leads(cfg, s, s)
  {
    var none: seq<Action> := [];
    assert Legal(cfg, s, none) && Run(cfg, s, none) == s;
  }

  lemma StepFirst(cfg: Config, s: State, a: Action, s': State)
    requires cfg.Valid() && Enabled(cfg, s, a) && Leads(cfg, Apply(cfg, s, a), s')
    ensures Leads(cfg, s, s')
  {
    var actions :| Legal(cfg, Apply(cfg, s, a), actions) && Run(cfg, Apply(cfg, s, a), actions) == s';
    assert ([a] + actions)[1..] == actions;
    assert Legal(cfg, s, [a] + actions) && Run(cfg, s, [a] + actions) == s';
  }

  lemma {:induction false} RunsJoin(cfg: Config, s: State, actions: seq<Action>, s': State)
    requires cfg.Valid() && Legal(cfg, s, actions) && Leads(cfg, Run(cfg, s, actions), s')
    ensures Leads(cfg, s, s')
    decreases actions
  {
    if actions != [] {
      RunsJoin(cfg, Apply(cfg, s, actions[0]), actions[1..], s');
      StepFirst(cfg, s, actions[0], s');
    }
  }

  lemma LeadsOn(cfg: Config, a: State, b: State, c: State)
    requires cfg.Valid() && Leads(cfg, a, b) && Leads(cfg, b, c)
    ensures Leads(cfg, a, c)
  {
    var actions :| Legal(cfg, a, actions) && Run(cfg, a, actions) == b;
    RunsJoin(cfg, a, actions, c);
  }

  lemma OneStepLeads(cfg: Config, s: State, a: Action)
    requires cfg.Valid() && Enabled(cfg, s, a)
    ensures Leads(cfg, s, Apply(cfg, s, a))
  {
    LeadsNowhere(cfg, Apply(cfg, s, a));
    StepFirst(cfg, s, a, Apply(cfg, s, a));
  }

  // ---------- what the sink must see ----------

  /** Every receipt carries the payload pushed at its position, positions ascend, and the next bytes read
      will not kill the receiver at the type check. */
  ghost predicate Sound(cfg: Config, s: State)
    requires cfg.Valid()
  {
    && (forall i :: 0 <= i < |s.rx.log| ==>
          s.rx.log[i].position < |s.tx.pushed| && s.rx.log[i].payload == s.tx.pushed[s.rx.log[i].position])
    && (forall i, j :: 0 <= i < j < |s.rx.log| ==> s.rx.log[i].position < s.rx.log[j].position)
    && (forall m, made :: Enabled(cfg, s, Recv(m, made)) ==> !Apply(cfg, s, Recv(m, made)).rx.dead)
  }

  /** Whatever happens from here, the sink sees what it must. */
  ghost predicate StaysSound(cfg: Config, s: State)
    requires cfg.Valid()
  {
    forall s' :: Leads(cfg, s, s') ==> Sound(cfg, s')
  }

  lemma {:induction false} InvStays(cfg: Config, s: State, actions: seq<Action>)
    requires cfg.Valid() && Inv(cfg, s) && Legal(cfg, s, actions)
    ensures Inv(cfg, Run(cfg, s, actions))
    decreases actions
  {
    if actions != [] {
      StepKeepsInv(cfg, s, actions[0]);
      InvStays(cfg, Apply(cfg, s, actions[0]), actions[1..]);
    }
  }

  lemma InvIsSound(cfg: Config, s: State)
    requires cfg.Valid() && Inv(cfg, s)
    ensures Sound(cfg, s)
  {
    var tx, log := s.tx, s.rx.log;
    forall i | 0 <= i < |log| ensures log[i].position < |tx.pushed| && log[i].payload == tx.pushed[log[i].position] {
      assert Genuine(tx, log[i]);
    }
    forall i, j | 0 <= i < j < |log| ensures log[i].position < log[j].position {
      PositionsAscend(tx, log, i, j);
    }
    forall m, made | Enabled(cfg, s, Recv(m, made)) ensures !Apply(cfg, s, Recv(m, made)).rx.dead {
      RecvStep(cfg, tx, s.rx, m, made);
    }
  }

  lemma InvStaysSound(cfg: Config, s: State)
    requires cfg.Valid() && Inv(cfg, s)
    ensures StaysSound(cfg, s)
  {
    forall s' | Leads(cfg, s, s') ensures Sound(cfg, s') {
      var actions :| Legal(cfg, s, actions) && Run(cfg, s, actions) == s';
      InvStays(cfg, s, actions);
      InvIsSound(cfg, s');
    }
  }

  // ---------- windows ----------

  /** The receiver on connection `c` has cut `i` windows out of what it sees, `lead` and then the connection. */
  ghost predicate AtWindow(cfg: Config, s: State, c: nat, lead: Bytes, start: nat, i: nat) {
    && !s.rx.dead && s.rx.conn == c < |s.tx.wires| && |s.rx.staging| == cfg.frameSize && |lead| < cfg.frameSize
    && s.rx.position == start + i
    && if i == 0 then s.rx.bytesRead == |lead| && s.rx.offset == 0 && s.rx.staging[..|lead|] == lead
       else s.rx.bytesRead == 0 && s.rx.offset + |lead| == Span(i, cfg.frameSize)
  }

  /** The `i`-th window. */
  function Window(cfg: Config, x: Bytes, i: nat): (w: Bytes)
    requires Span(i + 1, cfg.frameSize) <= |x|
    ensures |w| == cfg.frameSize
  {
    x[Span(i, cfg.frameSize)..Span(i + 1, cfg.frameSize)]
  }

  /** The `i`-th window is a frame of the event it will be taken for. */
  ghost predicate Right(cfg: Config, pushed: seq<Bytes>, x: Bytes, start: nat, i: nat)
    requires cfg.Valid() && Span(i + 1, cfg.frameSize) <= |x|
  {
    var w := Window(cfg, x, i);
    w[..4] == cfg.typeId && start + i < |pushed| && cfg.Payload(w) == pushed[start + i]
  }

  /** The next window is read whole: it kills the receiver, or is taken for event `start + i`. */
  lemma ReadWindow(cfg: Config, s: State, c: nat, lead: Bytes, start: nat, i: nat, x: Bytes) returns (a: Action)
    requires cfg.Valid() && AtWindow(cfg, s, c, lead, start, i) && x == lead + s.tx.wires[c]
    requires Span(i + 1, cfg.frameSize) <= |x|
    ensures a.Recv? && Enabled(cfg, s, a) && Apply(cfg, s, a).tx == s.tx && Apply(cfg, s, a).rx.conn == c
    ensures var window, s' := Window(cfg, x, i), Apply(cfg, s, a);
            if window[..4] != cfg.typeId then s'.rx.dead
            else
              && AtWindow(cfg, s', c, lead, start, i + 1)
              && s'.rx.log == s.rx.log + [Receipt(c, start + i, cfg.Payload(window), true)]
  {
    var n, rx, wire := cfg.frameSize, s.rx, s.tx.wires[c];
    var m := n - rx.bytesRead;
    a := Recv(m, true);
    assert rx.staging[..rx.bytesRead] + wire[rx.offset..rx.offset + m] + rx.staging[n..] == Window(cfg, x, i);
  }

  /** Reading a window that is not right ends soundness. */
  lemma WrongWindow(cfg: Config, s: State, c: nat, lead: Bytes, start: nat, t: nat, x: Bytes) returns (s': State)
    requires cfg.Valid() && AtWindow(cfg, s, c, lead, start, t) && x == lead + s.tx.wires[c]
    requires Span(t + 1, cfg.frameSize) <= |x| && !Right(cfg, s.tx.pushed, x, start, t)
    ensures Leads(cfg, s, s') && s'.rx.conn == c && !Sound(cfg, s')
  {
    var a := ReadWindow(cfg, s, c, lead, start, t, x);
    var next := Apply(cfg, s, a);
    if next.rx.dead {
      s' := s;
      LeadsNowhere(cfg, s);
      assert a == Recv(a.n, a.made);
    } else {
      s' := next;
      OneStepLeads(cfg, s, a);
      assert s'.rx.log[|s.rx.log|] == Receipt(c, start + t, cfg.Payload(Window(cfg, x, t)), true);
    }
  }

  /** Reading a right window gets the receiver to the next one. */
  lemma ReadRight(cfg: Config, s: State, c: nat, lead: Bytes, start: nat, i: nat, x: Bytes) returns (s': State)
    requires cfg.Valid() && AtWindow(cfg, s, c, lead, start, i) && x == lead + s.tx.wires[c]
    requires Span(i + 1, cfg.frameSize) <= |x| && Right(cfg, s.tx.pushed, x, start, i)
    ensures Leads(cfg, s, s') && s'.tx == s.tx && AtWindow(cfg, s', c, lead, start, i + 1)
  {
    var a := ReadWindow(cfg, s, c, lead, start, i, x);
    s' := Apply(cfg, s, a);
    OneStepLeads(cfg, s, a);
  }

  /** Every window before a wrong one can be read, unless one of them is wrong too. */
  lemma {:induction false} ReadUntilWrong(cfg: Config, s: State, c: nat, lead: Bytes, start: nat, i: nat, t: nat,
                                          x: Bytes)
    returns (s': State)
    requires cfg.Valid() && AtWindow(cfg, s, c, lead, start, i) && i <= t && x == lead + s.tx.wires[c]
    requires Span(t + 1, cfg.frameSize) <= |x| && !Right(cfg, s.tx.pushed, x, start, t)
    ensures Leads(cfg, s, s') && s'.rx.conn == c && !Sound(cfg, s')
    decreases t - i
  {
    SpanMonotone(i + 1, t + 1, cfg.frameSize);
    if Right(cfg, s.tx.pushed, x, start, i) {
      var s1 := ReadRight(cfg, s, c, lead, start, i, x);
      s' := ReadUntilWrong(cfg, s1, c, lead, start, i + 1, t, x);
      LeadsOn(cfg, s, s1, s');
    } else {
      s' := WrongWindow(cfg, s, c, lead, start, i, x);
    }
  }

  // ---------- a connection that carries nothing more ----------

  /** Every window of what the receiver sees is right. */
  ghost predicate AllRight(cfg: Config, pushed: seq<Bytes>, x: Bytes, start: nat)
    requires cfg.Valid()
  {
    forall i: nat {:trigger Window(cfg, x, i)} :: Span(i + 1, cfg.frameSize) <= |x| ==> Right(cfg, pushed, x, start, i)
  }

  /** The sender will put nothing more on connection `c`. */
  predicate Over(tx: Tx, c: nat) { c < |tx.wires| && (c < |tx.wires| - 1 || tx.dead) }

  ghost predicate LogFine(tx: Tx, rx: Rx) {
    && (forall i :: 0 <= i < |rx.log| ==>
          && rx.log[i].position < |tx.pushed| && rx.log[i].payload == tx.pushed[rx.log[i].position]
          && rx.log[i].position < rx.position)
    && (forall i, j :: 0 <= i < j < |rx.log| ==> rx.log[i].position < rx.log[j].position)
  }

  /** The receiver is in the middle of a window. */
  ghost predicate InWindow(cfg: Config, rx: Rx, x: Bytes, lead: nat, start: nat) {
    && start <= rx.position && rx.bytesRead < cfg.frameSize == |rx.staging|
    && rx.offset + lead == Span(rx.position - start, cfg.frameSize) + rx.bytesRead <= |x|
    && rx.staging[..rx.bytesRead] == x[Span(rx.position - start, cfg.frameSize)..rx.offset + lead]
  }

  /** The receiver reads a connection that is over, behind `lead`. */
  ghost predicate Reading(cfg: Config, s: State, c: nat, lead: Bytes, wire: Bytes, start: nat)
    requires cfg.Valid()
  {
    && RingInv(cfg, s.tx) && Over(s.tx, c) && s.tx.wires[c] == wire && s.rx.conn == c
    && LogFine(s.tx, s.rx) && AllRight(cfg, s.tx.pushed, lead + wire, start)
    && (!s.rx.dead ==> InWindow(cfg, s.rx, lead + wire, |lead|, start))
  }

  /** What is staged after more bytes of a window were received. */
  lemma StagedInWindow(cfg: Config, rx: Rx, x: Bytes, lead: nat, start: nat, got: Bytes) returns (staging: Bytes)
    requires InWindow(cfg, rx, x, lead, start) && rx.bytesRead + |got| <= cfg.frameSize
    requires rx.offset + lead + |got| <= |x|
    requires got == x[rx.offset + lead..rx.offset + lead + |got|]
    ensures rx.bytesRead + |got| <= |rx.staging|
    ensures staging == rx.staging[..rx.bytesRead] + got + rx.staging[rx.bytesRead + |got|..]
    ensures staging[..rx.bytesRead + |got|] == x[Span(rx.position - start, cfg.frameSize)..rx.offset + lead + |got|]
  {
    var p, o := Span(rx.position - start, cfg.frameSize), rx.offset + lead;
    staging := rx.staging[..rx.bytesRead] + got + rx.staging[rx.bytesRead + |got|..];
    assert x[p..o] + x[o..o + |got|] == x[p..o + |got|];
    assert staging[..rx.bytesRead + |got|] == x[p..o] + got;
  }

  /** One more receipt, for the event at the receiver's position. */
  lemma LogStaysFine(tx: Tx, rx: Rx, rx': Rx, r: Receipt)
    requires LogFine(tx, rx) && rx'.log == rx.log + [r] && rx'.position == rx.position + 1
    requires r.position == rx.position < |tx.pushed| && r.payload == tx.pushed[rx.position]
    ensures LogFine(tx, rx')
  {
  }

  lemma AbsorbLast(cfg: Config, tx: Tx, rx: Rx, rx': Rx, x: Bytes, lead: nat, start: nat, got: Bytes, made: bool)
    requires cfg.Valid() && InWindow(cfg, rx, x, lead, start) && AllRight(cfg, tx.pushed, x, start) && LogFine(tx, rx)
    requires !rx.dead && rx.conn >= 0 && rx.bytesRead + |got| == cfg.frameSize && rx.offset + lead + |got| <= |x|
    requires got == x[rx.offset + lead..rx.offset + lead + |got|] && rx' == Absorb(cfg, rx, got, made)
    ensures !rx'.dead && rx'.conn == rx.conn && InWindow(cfg, rx', x, lead, start) && LogFine(tx, rx')
  {
    var i := rx.position - start;
    var staging := StagedInWindow(cfg, rx, x, lead, start, got);
    assert staging == staging[..cfg.frameSize] == Window(cfg, x, i);
    assert Right(cfg, tx.pushed, x, start, i);
    LogStaysFine(tx, rx, rx', Receipt(rx.conn, rx.position, cfg.Payload(staging), made));
  }

  /** Bytes received in the middle of a right window are staged, or complete it and give one receipt. */
  lemma AbsorbWindow(cfg: Config, tx: Tx, rx: Rx, rx': Rx, x: Bytes, lead: nat, start: nat, got: Bytes, made: bool)
    requires cfg.Valid() && InWindow(cfg, rx, x, lead, start) && AllRight(cfg, tx.pushed, x, start) && LogFine(tx, rx)
    requires !rx.dead && rx.conn >= 0 && rx.bytesRead + |got| <= cfg.frameSize && rx.offset + lead + |got| <= |x|
    requires got == x[rx.offset + lead..rx.offset + lead + |got|] && rx' == Absorb(cfg, rx, got, made)
    ensures !rx'.dead && rx'.conn == rx.conn && InWindow(cfg, rx', x, lead, start) && LogFine(tx, rx')
  {
    if rx.bytesRead + |got| == cfg.frameSize {
      AbsorbLast(cfg, tx, rx, rx', x, lead, start, got, made);
    } else {
      var staging := StagedInWindow(cfg, rx, x, lead, start, got);
    }
  }

  lemma RecvReading(cfg: Config, s: State, m: nat, made: bool, c: nat, lead: Bytes, wire: Bytes, start: nat)
    requires cfg.Valid() && Reading(cfg, s, c, lead, wire, start) && Enabled(cfg, s, Recv(m, made))
    ensures Reading(cfg, Apply(cfg, s, Recv(m, made)), c, lead, wire, start) && !Apply(cfg, s, Recv(m, made)).rx.dead
  {
    var rx, x := s.rx, lead + wire;
    var got := wire[rx.offset..rx.offset + m];
    RecvAbsorbs(cfg, s.tx, rx, m, made);
    assert got == x[rx.offset + |lead|..rx.offset + |lead| + m];
    AbsorbWindow(cfg, s.tx, rx, Absorb(cfg, rx, got, made), x, |lead|, start, got, made);
  }

  /** Nothing the sender does reaches a connection that is over. */
  lemma OverStays(cfg: Config, s: State, a: Action, c: nat)
    requires cfg.Valid() && CursorInv(cfg, s.tx) && Over(s.tx, c) && Enabled(cfg, s, a)
    ensures var tx' := ApplyTx(cfg, s.tx, a); Over(tx', c) && tx'.wires[c] == s.tx.wires[c] && s.tx.pushed <= tx'.pushed
  {
  }

  lemma PushesKeepRight(cfg: Config, pushed: seq<Bytes>, pushed': seq<Bytes>, x: Bytes, start: nat)
    requires cfg.Valid() && AllRight(cfg, pushed, x, start) && pushed <= pushed'
    ensures AllRight(cfg, pushed', x, start)
  {
    forall i: nat | Span(i + 1, cfg.frameSize) <= |x| ensures Right(cfg, pushed', x, start, i) {
      var w := Window(cfg, x, i);
      assert w[..4] == cfg.typeId && start + i < |pushed| && cfg.Payload(w) == pushed[start + i];
    }
  }

  lemma ReadingStep(cfg: Config, s: State, a: Action, c: nat, lead: Bytes, wire: Bytes, start: nat)
    requires cfg.Valid() && Reading(cfg, s, c, lead, wire, start) && Enabled(cfg, s, a) && !a.RxBind?
    ensures Reading(cfg, Apply(cfg, s, a), c, lead, wire, start)
  {
    if a.Recv? {
      RecvReading(cfg, s, a.n, a.made, c, lead, wire, start);
    } else {
      RingStep(cfg, s, a);
      OverStays(cfg, s, a, c);
      PushesKeepRight(cfg, s.tx.pushed, ApplyTx(cfg, s.tx, a).pushed, lead + wire, start);
    }
  }

  /** The receiver never goes back to an earlier connection. */
  lemma {:induction false} ConnectionsAscend(cfg: Config, s: State, actions: seq<Action>)
    requires cfg.Valid() && Legal(cfg, s, actions)
    ensures s.rx.conn <= Run(cfg, s, actions).rx.conn
    decreases actions
  {
    if actions != [] {
      ConnectionsAscend(cfg, Apply(cfg, s, actions[0]), actions[1..]);
    }
  }

  lemma {:induction false} KeepsReading(
    cfg: Config, s: State, actions: seq<Action>, c: nat, lead: Bytes, wire: Bytes, start: nat)
    requires cfg.Valid() && Legal(cfg, s, actions) && Reading(cfg, s, c, lead, wire, start)
    requires Run(cfg, s, actions).rx.conn == c
    ensures Reading(cfg, Run(cfg, s, actions), c, lead, wire, start)
    decreases actions
  {
    if actions != [] {
      var s1 := Apply(cfg, s, actions[0]);
      ConnectionsAscend(cfg, s1, actions[1..]);
      ReadingStep(cfg, s, actions[0], c, lead, wire, start);
      KeepsReading(cfg, s1, actions[1..], c, lead, wire, start);
    }
  }

  /** Whatever happens while the receiver stays on its connection, the sink sees what it must. */
  ghost predicate SoundWhileThere(cfg: Config, s: State)
    requires cfg.Valid()
  {
    forall s' :: Leads(cfg, s, s') && s'.rx.conn == s.rx.conn ==> Sound(cfg, s')
  }

  lemma ReadingIsSound(cfg: Config, s: State, c: nat, lead: Bytes, wire: Bytes, start: nat)
    requires cfg.Valid() && Reading(cfg, s, c, lead, wire, start)
    ensures Sound(cfg, s)
  {
    forall m, made | Enabled(cfg, s, Recv(m, made)) ensures !Apply(cfg, s, Recv(m, made)).rx.dead {
      RecvReading(cfg, s, m, made, c, lead, wire, start);
    }
  }

  /** Binding a receiver to a connection that is over, with bytes of an older frame staged: the sink sees what
      it must, as long as the receiver stays there, if and only if every window of those bytes and the
      connection's is a frame of the event pushed at its position. */
  lemma OverBindSoundIff(cfg: Config, s: State, c: nat)
    requires cfg.Valid() && Inv(cfg, s) && s.rx.conn < c < |s.tx.wires| && Over(s.tx, c)
    ensures var s1 := s.(rx := ApplyRx(cfg, s.tx, s.rx, RxBind(c)));
            SoundWhileThere(cfg, s1) <==>
            AllRight(cfg, s.tx.pushed, s.rx.staging[..s.rx.bytesRead] + s.tx.wires[c], s.tx.starts[c])
  {
    var s1 := s.(rx := ApplyRx(cfg, s.tx, s.rx, RxBind(c)));
    var lead, wire, start := s.rx.staging[..s.rx.bytesRead], s.tx.wires[c], s.tx.starts[c];
    if AllRight(cfg, s.tx.pushed, lead + wire, start) {
      StartsReading(cfg, s, s1, c, lead);
      forall s' | Leads(cfg, s1, s') && s'.rx.conn == c ensures Sound(cfg, s') {
        var actions :| Legal(cfg, s1, actions) && Run(cfg, s1, actions) == s';
        KeepsReading(cfg, s1, actions, c, lead, wire, start);
        ReadingIsSound(cfg, s', c, lead, wire, start);
      }
    } else {
      var t: nat :| Span(t + 1, cfg.frameSize) <= |lead + wire| && !Right(cfg, s.tx.pushed, lead + wire, start, t);
      var s' := ReadUntilWrong(cfg, s1, c, lead, start, 0, t, lead + wire);
    }
  }

  lemma StartsReading(cfg: Config, s: State, s1: State, c: nat, lead: Bytes)
    requires cfg.Valid() && Inv(cfg, s) && s.rx.conn < c < |s.tx.wires| && Over(s.tx, c)
    requires s1 == s.(rx := ApplyRx(cfg, s.tx, s.rx, RxBind(c))) && lead == s.rx.staging[..s.rx.bytesRead]
    requires AllRight(cfg, s.tx.pushed, lead + s.tx.wires[c], s.tx.starts[c])
    ensures Reading(cfg, s1, c, lead, s.tx.wires[c], s.tx.starts[c])
  {
    BindsAhead(cfg, s.tx, s.rx, c);
    InvIsSound(cfg, s);
    assert forall i :: 0 <= i < |s.rx.log| ==> s.rx.log[i].position < s.rx.position;
    assert (lead + s.tx.wires[c])[0..|lead|] == lead;
  }
}
