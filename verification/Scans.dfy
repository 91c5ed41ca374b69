/** A poller and a switch among the threads that fill and empty their tracks.

Each step of a scan is one ring operation.  Producers may append, and consumers may take, between any two
of them.  A track may be bound to more than one index. */
module Scans {
  import opened Options
  import opened Rings
  import opened Turns

  /** Where the scan stands, which track each index is bound to, the pointers each track holds, and how many
      it can hold. */
  datatype Tracks<!N, T> = Tracks(cursor: Cursor, names: seq<N>, queues: map<N, seq<Option<T>>>, bounds: map<N, nat>)

  ghost predicate Coherent<N, T>(s: Tracks<N, T>) {
    InScan(s.cursor, |s.names|) && forall i :: 0 <= i < |s.names| ==> s.names[i] in s.queues && s.names[i] in s.bounds
  }

  /** What the track of index `i` holds. */
  ghost function Queue<N, T>(s: Tracks<N, T>, i: nat): seq<Option<T>>
    requires Coherent(s) && i < |s.names|
  {
    s.queues[s.names[i]]
  }

  /** The index a scan looks at. */
  ghost function Here<N, T>(s: Tracks<N, T>): (j: nat)
    requires Coherent(s)
    ensures j < |s.names|
  {
    Turn(s.cursor.next, s.cursor.at, |s.names|)
  }

  /** The track of index `j` now holds `q`, whichever index it is seen through. */
  ghost function Put<N, T>(s: Tracks<N, T>, j: nat, q: seq<Option<T>>): (s': Tracks<N, T>)
    requires Coherent(s) && j < |s.names|
    ensures Coherent(s')
  {
    s.(queues := s.queues[s.names[j] := q])
  }

  /** One iteration of `poll`: pop the track; a pointer ends the call, a null is dropped and the scan goes on. */
  ghost function Look<N, T>(s: Tracks<N, T>): (s': Tracks<N, T>)
    requires Coherent(s)
    ensures Coherent(s') && s'.names == s.names && s'.bounds == s.bounds
  {
    var (q, x) := Take(Queue(s, Here(s)));
    Put(s, Here(s), q).(cursor := Moved(s.cursor, |s.names|, x.Some?))
  }

  /** What the iteration popped. */
  ghost function Popped<N, T>(s: Tracks<N, T>): Option<T>
    requires Coherent(s)
  {
    Take(Queue(s, Here(s))).1
  }

  predicate HasRoom<T>(queue: seq<Option<T>>, bound: nat) { |queue| < bound }

  /** One iteration of `on`: offer the event to the track; room ends the call. */
  ghost function Offered<N, T>(s: Tracks<N, T>, x: Option<T>): (s': Tracks<N, T>)
    requires Coherent(s)
    ensures Coherent(s') && s'.names == s.names && s'.bounds == s.bounds
  {
    var (q, ok) := Offer(Queue(s, Here(s)), s.bounds[s.names[Here(s)]], x);
    Put(s, Here(s), q).(cursor := Moved(s.cursor, |s.names|, ok))
  }

  lemma LookIs<N, T>(s: Tracks<N, T>, c: Cursor, queues: map<N, seq<Option<T>>>, x: Option<T>)
    requires Coherent(s) && x == Take(Queue(s, Here(s))).1 && c == Moved(s.cursor, |s.names|, x.Some?)
    requires queues == s.queues[s.names[Here(s)] := Take(Queue(s, Here(s))).0]
    ensures Popped(s) == x && Look(s) == s.(cursor := c, queues := queues)
  {
  }

  lemma OfferedIs<N, T>(s: Tracks<N, T>, c: Cursor, queues: map<N, seq<Option<T>>>, x: Option<T>, ok: bool)
    requires Coherent(s) && c == Moved(s.cursor, |s.names|, ok)
    requires var (q, y) := Offer(Queue(s, Here(s)), s.bounds[s.names[Here(s)]], x);
             ok == y && queues == s.queues[s.names[Here(s)] := q]
    ensures Accepts(s, Here(s)) == ok && Offered(s, x) == s.(cursor := c, queues := queues)
  {
  }

  // ---------- the poller among producers ----------

  /** The poller looks at the next track, or a producer appends to the track of index `j`. */
  datatype PollStep<T> = Looks | Feeds(j: nat, x: Option<T>)

  ghost function AfterPoll<N, T>(s: Tracks<N, T>, a: PollStep<T>): (s': Tracks<N, T>)
    requires Coherent(s)
    ensures Coherent(s') && s'.names == s.names
  {
    match a
    case Looks => Look(s)
    case Feeds(j, x) => if j < |s.names| then Put(s, j, Queue(s, j) + [x]) else s
  }

  /** Step `i` leads on to the next state. */
  ghost predicate Polled<N, T>(trace: seq<Tracks<N, T>>, steps: seq<PollStep<T>>, i: nat)
    requires i < |steps| && i + 1 < |trace| && Coherent(trace[i])
  {
    trace[i + 1] == AfterPoll(trace[i], steps[i])
  }

  ghost predicate PollRun<N, T>(trace: seq<Tracks<N, T>>, steps: seq<PollStep<T>>) {
    && |trace| == |steps| + 1 && (forall i :: 0 <= i < |trace| ==> Coherent(trace[i]))
    && forall i :: 0 <= i < |steps| ==> Polled(trace, steps, i)
  }

  /** The calls of `poll` that have returned after the first `i` steps. */
  ghost function Polls<N, T>(trace: seq<Tracks<N, T>>, steps: seq<PollStep<T>>, i: nat): nat
    requires PollRun(trace, steps) && i <= |steps|
  {
    if i == 0 then 0 else Polls(trace, steps, i - 1) + PollEnds(trace[i - 1], steps[i - 1])
  }

  ghost function PollEnds<N, T>(s: Tracks<N, T>, a: PollStep<T>): nat
    requires Coherent(s)
  {
    if a.Looks? && Ends(s.cursor, |s.names|, Popped(s).Some?) then 1 else 0
  }

  /** The step pops the track that index `k` is bound to. */
  ghost predicate PopsTrack<N, T>(s: Tracks<N, T>, a: PollStep<T>, k: nat)
    requires Coherent(s)
  {
    a.Looks? && k < |s.names| && s.names[Here(s)] == s.names[k]
  }

  /** A step that does not pop the track leaves what it holds in front, and brings its turn closer. */
  lemma OtherPollStep<N, T>(s: Tracks<N, T>, a: PollStep<T>, k: nat)
    requires Coherent(s) && k < |s.names| && !PopsTrack(s, a, k)
    ensures Queue(s, k) <= Queue(AfterPoll(s, a), k)
    ensures ScansBefore(AfterPoll(s, a).cursor, |s.names|, k) + PollEnds(s, a) <= ScansBefore(s.cursor, |s.names|, k)
  {
    if a.Looks? {
      VisitBringsCloser(s.cursor, |s.names|, k, Popped(s).Some?);
    }
  }

  /** A step that pops the track takes what it holds in front. */
  lemma PopStep<N, T>(s: Tracks<N, T>, a: PollStep<T>, k: nat)
    requires Coherent(s) && PopsTrack(s, a, k) && Queue(s, k) != []
    ensures Popped(s) == Queue(s, k)[0] && Queue(AfterPoll(s, a), k) == Queue(s, k)[1..]
    ensures ScansBefore(AfterPoll(s, a).cursor, |s.names|, k) + PollEnds(s, a) <= |s.names|
  {
  }

  /** The number of polls that may have returned when the track is popped next. */
  ghost function PopDue<N, T>(trace: seq<Tracks<N, T>>, steps: seq<PollStep<T>>, i: nat, k: nat): nat
    requires PollRun(trace, steps) && i <= |steps| && k < |trace[i].names|
  {
    Polls(trace, steps, i) + ScansBefore(trace[i].cursor, |trace[i].names|, k)
  }

  lemma StillDue<N, T>(trace: seq<Tracks<N, T>>, steps: seq<PollStep<T>>, i: nat, k: nat)
    requires PollRun(trace, steps) && i < |steps| && k < |trace[i].names| && !PopsTrack(trace[i], steps[i], k)
    ensures trace[i + 1].names == trace[i].names && Queue(trace[i], k) <= Queue(trace[i + 1], k)
    ensures PopDue(trace, steps, i + 1, k) <= PopDue(trace, steps, i, k)
  {
    assert Polled(trace, steps, i);
    OtherPollStep(trace[i], steps[i], k);
  }

  lemma DueAgain<N, T>(trace: seq<Tracks<N, T>>, steps: seq<PollStep<T>>, i: nat, k: nat)
    requires PollRun(trace, steps) && i < |steps| && PopsTrack(trace[i], steps[i], k) && Queue(trace[i], k) != []
    ensures trace[i + 1].names == trace[i].names && Queue(trace[i + 1], k) == Queue(trace[i], k)[1..]
    ensures Popped(trace[i]) == Queue(trace[i], k)[0]
    ensures PopDue(trace, steps, i + 1, k) <= Polls(trace, steps, i) + |trace[i].names|
  {
    assert Polled(trace, steps, i);
    PopStep(trace[i], steps[i], k);
  }

  /** The track is popped before more polls have returned. */
  lemma {:induction false} NextPop<N, T>(trace: seq<Tracks<N, T>>, steps: seq<PollStep<T>>, i: nat, k: nat)
    returns (j: nat)
    requires PollRun(trace, steps) && i <= |steps| && k < |trace[i].names| && Queue(trace[i], k) != []
    requires PopDue(trace, steps, i, k) < Polls(trace, steps, |steps|)
    ensures i <= j < |steps| && trace[j].names == trace[i].names && PopsTrack(trace[j], steps[j], k)
    ensures Polls(trace, steps, j) <= PopDue(trace, steps, i, k)
    ensures Queue(trace[i], k) <= Queue(trace[j], k)
    decreases |steps| - i
  {
    if PopsTrack(trace[i], steps[i], k) {
      j := i;
    } else {
      StillDue(trace, steps, i, k);
      j := NextPop(trace, steps, i + 1, k);
    }
  }

  /** Step `j` pops the pointer `x` off the track of index `k`, when no more than `due` polls have returned. */
  ghost predicate ComesOut<N, T>(
    trace: seq<Tracks<N, T>>, steps: seq<PollStep<T>>, j: nat, k: nat, x: Option<T>, due: nat)
    requires PollRun(trace, steps)
  {
    j < |steps| && PopsTrack(trace[j], steps[j], k) && Popped(trace[j]) == x && Polls(trace, steps, j) <= due
  }

  /** At step `i` the track of index `k` begins with `q`, and is popped before more than `due` polls have
      returned. */
  ghost predicate Waits<N, T>(
    trace: seq<Tracks<N, T>>, steps: seq<PollStep<T>>, i: nat, k: nat, n: nat, q: seq<Option<T>>, due: nat)
    requires PollRun(trace, steps)
  {
    && i <= |steps| && k < |trace[i].names| == n && q <= Queue(trace[i], k) && PopDue(trace, steps, i, k) <= due
  }

  lemma FrontComesOut<N, T>(
    trace: seq<Tracks<N, T>>, steps: seq<PollStep<T>>, i: nat, k: nat, n: nat, q: seq<Option<T>>, due: nat)
    returns (j: nat)
    requires PollRun(trace, steps) && q != [] && Waits(trace, steps, i, k, n, q, due)
    requires due < Polls(trace, steps, |steps|)
    ensures i <= j && ComesOut(trace, steps, j, k, q[0], due) && Waits(trace, steps, j + 1, k, n, q[1..], due + n)
  {
    j := NextPop(trace, steps, i, k);
    DueAgain(trace, steps, j, k);
  }

  /** What stands at position `p` of a track comes to its front before `p` cycles of polls are over. */
  lemma {:induction false} ComesToFront<N, T>(
    trace: seq<Tracks<N, T>>, steps: seq<PollStep<T>>, i: nat, k: nat, n: nat, q: seq<Option<T>>, p: nat, due: nat)
    returns (j: nat)
    requires PollRun(trace, steps) && p <= |q| && Waits(trace, steps, i, k, n, q, due)
    requires p > 0 ==> due + Cycles(p - 1, n) < Polls(trace, steps, |steps|)
    ensures Waits(trace, steps, j, k, n, q[p..], due + Cycles(p, n))
  {
    if p == 0 {
      j := i;
    } else {
      j := ComesToFront(trace, steps, i, k, n, q, p - 1, due);
      j := FrontComesOut(trace, steps, j, k, n, q[p - 1..], due + Cycles(p - 1, n));
      assert q[p - 1..][1..] == q[p..];
      j := j + 1;
    }
  }

  /** Starvation freedom of the poller, for every pointer in a track: what stands at position `p` is popped
      before `p` cycles of polls and one wait are over, however producers feed the tracks in the middle of a
      scan.  Null pointers in front cost their turn and nothing else. */
  lemma EveryPointerComesOut<N, T>(
    trace: seq<Tracks<N, T>>, steps: seq<PollStep<T>>, i: nat, k: nat, n: nat, q: seq<Option<T>>, p: nat, due: nat)
    returns (j: nat)
    requires PollRun(trace, steps) && p < |q| && Waits(trace, steps, i, k, n, q, due)
    requires due + Cycles(p, n) < Polls(trace, steps, |steps|)
    ensures ComesOut(trace, steps, j, k, q[p], due + Cycles(p, n))
  {
    j := ComesToFront(trace, steps, i, k, n, q, p, due);
    j := FrontComesOut(trace, steps, j, k, n, q[p..], due + Cycles(p, n));
  }

  /** In particular the pointer in front of a track when a call begins is popped by one of the next calls, of
      as many as there are inputs, and returned by it unless it is null; and the one at position `p` by one of
      `p + 1` times as many. */
  lemma PollerServesEveryTrack<N, T>(trace: seq<Tracks<N, T>>, steps: seq<PollStep<T>>, k: nat, p: nat) returns (j: nat)
    requires PollRun(trace, steps) && k < |trace[0].names| && p < |Queue(trace[0], k)| && trace[0].cursor.at == 0
    requires Cycles(p + 1, |trace[0].names|) <= Polls(trace, steps, |steps|)
    ensures j < |steps| && PopsTrack(trace[j], steps[j], k) && Popped(trace[j]) == Queue(trace[0], k)[p]
    ensures Polls(trace, steps, j) < Cycles(p + 1, |trace[0].names|)
    ensures Queue(trace[0], k)[p].Some? ==> PollEnds(trace[j], steps[j]) == 1
  {
    var n := |trace[0].names|;
    j := EveryPointerComesOut(trace, steps, 0, k, n, Queue(trace[0], k), p, n - 1);
  }

  // ---------- the switch among consumers ----------

  /** The switch offers an event to the next track, or a consumer takes from the track of index `j`. */
  datatype RouteStep<T> = Offers(x: Option<T>) | Drains(j: nat)

  ghost function AfterRoute<N, T>(s: Tracks<N, T>, a: RouteStep<T>): (s': Tracks<N, T>)
    requires Coherent(s)
    ensures Coherent(s') && s'.names == s.names && s'.bounds == s.bounds
  {
    match a
    case Offers(x) => Offered(s, x)
    case Drains(j) => if j < |s.names| then Put(s, j, Take(Queue(s, j)).0) else s
  }

  /** Step `i` leads on to the next state. */
  ghost predicate Routed<N, T>(trace: seq<Tracks<N, T>>, steps: seq<RouteStep<T>>, i: nat)
    requires i < |steps| && i + 1 < |trace| && Coherent(trace[i])
  {
    trace[i + 1] == AfterRoute(trace[i], steps[i])
  }

  ghost predicate RouteRun<N, T>(trace: seq<Tracks<N, T>>, steps: seq<RouteStep<T>>) {
    && |trace| == |steps| + 1 && (forall i :: 0 <= i < |trace| ==> Coherent(trace[i]))
    && forall i :: 0 <= i < |steps| ==> Routed(trace, steps, i)
  }

  ghost predicate Accepts<N, T>(s: Tracks<N, T>, k: nat)
    requires Coherent(s) && k < |s.names|
  {
    HasRoom(Queue(s, k), s.bounds[s.names[k]])
  }

  ghost function RouteEnds<N, T>(s: Tracks<N, T>, a: RouteStep<T>): nat
    requires Coherent(s)
  {
    if a.Offers? && Ends(s.cursor, |s.names|, Accepts(s, Here(s))) then 1 else 0
  }

  /** The calls of `on` that have returned after the first `i` steps. */
  ghost function Calls<N, T>(trace: seq<Tracks<N, T>>, steps: seq<RouteStep<T>>, i: nat): nat
    requires RouteRun(trace, steps) && i <= |steps|
  {
    if i == 0 then 0 else Calls(trace, steps, i - 1) + RouteEnds(trace[i - 1], steps[i - 1])
  }

  /** The step offers its event to the track that index `k` is bound to. */
  ghost predicate OffersTo<N, T>(s: Tracks<N, T>, a: RouteStep<T>, k: nat)
    requires Coherent(s)
  {
    a.Offers? && k < |s.names| && s.names[Here(s)] == s.names[k]
  }

  /** A step that does not offer to the track leaves its room, and brings its turn closer. */
  lemma OtherRouteStep<N, T>(s: Tracks<N, T>, a: RouteStep<T>, k: nat)
    requires Coherent(s) && k < |s.names| && !OffersTo(s, a, k) && Accepts(s, k)
    ensures Accepts(AfterRoute(s, a), k)
    ensures ScansBefore(AfterRoute(s, a).cursor, |s.names|, k) + RouteEnds(s, a) <= ScansBefore(s.cursor, |s.names|, k)
  {
    if a.Offers? {
      VisitBringsCloser(s.cursor, |s.names|, k, Accepts(s, Here(s)));
    }
  }

  /** The number of calls that may have returned when the track is offered an event next. */
  ghost function OfferDue<N, T>(trace: seq<Tracks<N, T>>, steps: seq<RouteStep<T>>, i: nat, k: nat): nat
    requires RouteRun(trace, steps) && i <= |steps| && k < |trace[i].names|
  {
    Calls(trace, steps, i) + ScansBefore(trace[i].cursor, |trace[i].names|, k)
  }

  lemma StillRoomy<N, T>(trace: seq<Tracks<N, T>>, steps: seq<RouteStep<T>>, i: nat, k: nat)
    requires RouteRun(trace, steps) && i < |steps| && k < |trace[i].names| && !OffersTo(trace[i], steps[i], k)
    requires Accepts(trace[i], k)
    ensures trace[i + 1].names == trace[i].names && Accepts(trace[i + 1], k)
    ensures OfferDue(trace, steps, i + 1, k) <= OfferDue(trace, steps, i, k)
  {
    assert Routed(trace, steps, i);
    OtherRouteStep(trace[i], steps[i], k);
  }

  lemma {:induction false} NextOffer<N, T>(trace: seq<Tracks<N, T>>, steps: seq<RouteStep<T>>, i: nat, k: nat)
    returns (j: nat)
    requires RouteRun(trace, steps) && i <= |steps| && k < |trace[i].names| && Accepts(trace[i], k)
    requires OfferDue(trace, steps, i, k) < Calls(trace, steps, |steps|)
    ensures i <= j < |steps| && trace[j].names == trace[i].names && OffersTo(trace[j], steps[j], k)
    ensures Accepts(trace[j], k)
    ensures Calls(trace, steps, j) <= OfferDue(trace, steps, i, k)
    decreases |steps| - i
  {
    if OffersTo(trace[i], steps[i], k) {
      j := i;
    } else {
      StillRoomy(trace, steps, i, k);
      j := NextOffer(trace, steps, i + 1, k);
    }
  }

  /** Starvation freedom of the switch: a track with room when a call begins gets the event of one of the
      next calls, of as many as there are outputs, however consumers drain the tracks in the middle of a
      scan. */
  lemma SwitchServesEveryTrack<N, T>(trace: seq<Tracks<N, T>>, steps: seq<RouteStep<T>>, k: nat) returns (j: nat)
    requires RouteRun(trace, steps) && k < |trace[0].names| && Accepts(trace[0], k) && trace[0].cursor.at == 0
    requires |trace[0].names| <= Calls(trace, steps, |steps|)
    ensures j < |steps| && OffersTo(trace[j], steps[j], k) && Calls(trace, steps, j) < |trace[0].names|
    ensures trace[j + 1].names == trace[0].names && Queue(trace[j + 1], k) == Queue(trace[j], k) + [steps[j].x]
  {
    j := NextOffer(trace, steps, 0, k);
    assert Routed(trace, steps, j);
  }

  // ---------- one undisturbed call ----------

  /** A whole call of `poll` from where the scan stands, when nobody else acts meanwhile. */
  ghost function PollCall<N, T>(s: Tracks<N, T>): (r: (Tracks<N, T>, Option<T>))
    requires Coherent(s)
    ensures Coherent(r.0) && r.0.cursor.at == 0 && r.0.names == s.names && r.0.bounds == s.bounds
    decreases |s.names| - s.cursor.at
  {
    if Ends(s.cursor, |s.names|, Popped(s).Some?) then (Look(s), Popped(s)) else PollCall(Look(s))
  }

  /** A whole call of `on`. */
  ghost function RouteCall<N, T>(s: Tracks<N, T>, x: Option<T>): (r: (Tracks<N, T>, bool))
    requires Coherent(s)
    ensures Coherent(r.0) && r.0.cursor.at == 0 && r.0.names == s.names && r.0.bounds == s.bounds
    decreases |s.names| - s.cursor.at
  {
    if Ends(s.cursor, |s.names|, Accepts(s, Here(s))) then (Offered(s, x), Accepts(s, Here(s)))
    else RouteCall(Offered(s, x), x)
  }

  /** The events among the pointers of a track. */
  function Events<T>(q: seq<Option<T>>): seq<T> {
    if q == [] then [] else (if q[0].Some? then [q[0].value] else []) + Events(q[1..])
  }

  /** Of all events in the tracks, exactly `x` was taken, from the front of one track's events, or none. */
  ghost predicate OnlyTaken<N, T>(s: Tracks<N, T>, s': Tracks<N, T>, x: Option<T>) {
    && s'.queues.Keys == s.queues.Keys
    && match x
       case None => forall m :: m in s.queues ==> Events(s'.queues[m]) == Events(s.queues[m])
       case Some(v) => exists m :: m in s.queues && TakenFrom(s, s', m, v)
  }

  ghost predicate TakenFrom<N, T>(s: Tracks<N, T>, s': Tracks<N, T>, m: N, v: T)
    requires m in s.queues && s'.queues.Keys == s.queues.Keys
  {
    && Events(s.queues[m]) == [v] + Events(s'.queues[m])
    && forall l :: l in s.queues && l != m ==> Events(s'.queues[l]) == Events(s.queues[l])
  }

  lemma LookTakes<N, T>(s: Tracks<N, T>)
    requires Coherent(s)
    ensures OnlyTaken(s, Look(s), Popped(s))
  {
    var m, s' := s.names[Here(s)], Look(s);
    assert s'.queues == s.queues[m := Take(s.queues[m]).0];
    if Popped(s).Some? {
      assert TakenFrom(s, s', m, Popped(s).value);
    }
  }

  /** A call of `poll` takes exactly the event it returns out of the tracks, and nothing but null pointers
      besides, however often a track is bound. */
  lemma {:induction false} PollTakesOnlyItsEvent<N, T>(s: Tracks<N, T>)
    requires Coherent(s)
    ensures OnlyTaken(s, PollCall(s).0, PollCall(s).1)
    decreases |s.names| - s.cursor.at
  {
    LookTakes(s);
    if !Ends(s.cursor, |s.names|, Popped(s).Some?) {
      PollTakesOnlyItsEvent(Look(s));
      TakenLater(s, Look(s), PollCall(s).0, PollCall(s).1);
    }
  }

  lemma TakenLater<N, T>(s: Tracks<N, T>, s1: Tracks<N, T>, s2: Tracks<N, T>, x: Option<T>)
    requires OnlyTaken(s, s1, None) && OnlyTaken(s1, s2, x)
    ensures OnlyTaken(s, s2, x)
  {
    if x.Some? {
      var m :| m in s1.queues && TakenFrom(s1, s2, m, x.value);
      assert TakenFrom(s, s2, m, x.value);
    }
  }

  /** Whether the tracks, in turn from where the scan stands, have an event in front. */
  ghost predicate NoEventFrom<N, T>(s: Tracks<N, T>, at: nat, to: nat)
    requires Coherent(s) && to <= |s.names|
  {
    forall d :: at <= d < to ==> NullInFront(Queue(s, Turn(s.cursor.next, d, |s.names|)))
  }

  /** With every track bound once, a call of `poll` returns null if and only if every track it comes to is
      empty or has a null pointer in front, and otherwise the front of the first track in turn that has an
      event there. */
  lemma {:induction false} PollPicksFirstEvent<N, T>(s: Tracks<N, T>) returns (d: nat)
    requires Coherent(s) && forall i, j :: 0 <= i < j < |s.names| ==> s.names[i] != s.names[j]
    ensures var n, next, x := |s.names|, s.cursor.next, PollCall(s).1;
            && s.cursor.at <= d <= n && NoEventFrom(s, s.cursor.at, d)
            && if d == n then x.None? && PollCall(s).0.cursor == Cursor(next, 0)
               else
                 && !NullInFront(Queue(s, Turn(next, d, n))) && x == Queue(s, Turn(next, d, n))[0]
                 && PollCall(s).0.cursor == Cursor(Next(Turn(next, d, n), n), 0)
    decreases |s.names| - s.cursor.at
  {
    var n, next, at := |s.names|, s.cursor.next, s.cursor.at;
    if Popped(s).Some? {
      d := at;
    } else if at + 1 == n {
      d := n;
    } else {
      d := PollPicksFirstEvent(Look(s));
      LookSparesLater(s);
    }
  }

  lemma LookSparesLater<N, T>(s: Tracks<N, T>)
    requires Coherent(s) && forall i, j :: 0 <= i < j < |s.names| ==> s.names[i] != s.names[j]
    ensures forall d :: s.cursor.at < d < |s.names| ==>
              Queue(Look(s), Turn(s.cursor.next, d, |s.names|)) == Queue(s, Turn(s.cursor.next, d, |s.names|))
  {
  }

  /** The tracks in turn that were offered the event first had no room. */
  ghost predicate NoRoomFrom<N, T>(s: Tracks<N, T>, at: nat, to: nat)
    requires Coherent(s) && to <= |s.names|
  {
    forall d :: at <= d < to ==> !Accepts(s, Turn(s.cursor.next, d, |s.names|))
  }

  /** A call of `on` puts the event into the first track in turn that has room, and into no other; when none
      has, nothing changes. */
  lemma {:induction false} RoutePicksFirstRoom<N, T>(s: Tracks<N, T>, x: Option<T>) returns (d: nat)
    requires Coherent(s)
    ensures var n, next, s' := |s.names|, s.cursor.next, RouteCall(s, x).0;
            && s.cursor.at <= d <= n && NoRoomFrom(s, s.cursor.at, d) && (RouteCall(s, x).1 <==> d < n)
            && if d == n then s' == s.(cursor := Cursor(next, 0))
               else
                 && Accepts(s, Turn(next, d, n))
                 && s' == Put(s, Turn(next, d, n), Queue(s, Turn(next, d, n)) + [x])
                          .(cursor := Cursor(Next(Turn(next, d, n), n), 0))
    decreases |s.names| - s.cursor.at
  {
    var n, next, at := |s.names|, s.cursor.next, s.cursor.at;
    if Accepts(s, Here(s)) {
      d := at;
    } else {
      assert Put(s, Here(s), Queue(s, Here(s))) == s;
      if at + 1 == n {
        d := n;
      } else {
        d := RoutePicksFirstRoom(Offered(s, x), x);
      }
    }
  }
}
