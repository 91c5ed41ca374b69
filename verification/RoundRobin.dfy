/** The round-robin switch (fan-out) and poller (fan-in) over conduits, called with nobody else at work:
every iteration of their loops is one step of the scans whose runs among other threads are proved fair. */
module RoundRobin {
  import opened Options
  import opened Rings
  import opened Turns
  import opened Scans

  ghost predicate AllValid<T>(tracks: seq<Conduit?<T>>)
    reads tracks
  {
    forall i :: 0 <= i < |tracks| && tracks[i] != null ==> tracks[i].Valid()
  }

  ghost function Held<T>(c: Conduit?<T>): seq<Option<T>>
    reads c, if c == null then {} else {c.ring}
  {
    if c != null && c.Valid() then c.Contents() else []
  }

  function Bound<T>(c: Conduit?<T>): nat { if c != null && c.ring.Length > 0 then c.ring.Length - 1 else 0 }

  ghost function BuffersOf<T>(tracks: seq<Conduit?<T>>): set<object> {
    set i | 0 <= i < |tracks| && tracks[i] != null :: tracks[i].ring
  }

  ghost function HeldBy<T>(tracks: seq<Conduit?<T>>): map<Conduit?<T>, seq<Option<T>>>
    reads tracks, BuffersOf(tracks)
  {
    map t | t in tracks :: Held(t)
  }

  ghost function BoundsOf<T>(tracks: seq<Conduit?<T>>): map<Conduit?<T>, nat> {
    map t | t in tracks :: Bound(t)
  }

  /** The tracks as values, each named by the conduit it is; an unbound index has a track that holds nothing
      and has no room. */
  ghost function Snapshot<T>(c: Cursor, tracks: seq<Conduit?<T>>): Tracks<Conduit?<T>, T>
    reads tracks, BuffersOf(tracks)
  {
    Tracks(c, tracks, HeldBy(tracks), BoundsOf(tracks))
  }

  /** No buffer is the list of tracks or the buffer of another track. */
  ghost predicate Apart<T>(tracks: seq<Conduit?<T>>, list: object) {
    && (forall i :: 0 <= i < |tracks| && tracks[i] != null ==> tracks[i].ring as object != list)
    && (forall i, j ::
          0 <= i < |tracks| && 0 <= j < |tracks| && tracks[i] != null && tracks[j] != null && tracks[i] != tracks[j] ==>
          tracks[i].ring != tracks[j].ring)
  }

  lemma SnapshotCoherent<T>(c: Cursor, tracks: seq<Conduit?<T>>)
    requires InScan(c, |tracks|)
    ensures Coherent(Snapshot(c, tracks))
  {
  }

  /** The tracks as values stand for these, wherever the scan is. */
  ghost predicate Shows<T>(s: Tracks<Conduit?<T>, T>, tracks: seq<Conduit?<T>>)
    reads tracks, BuffersOf(tracks)
  {
    s.names == tracks && s.queues == HeldBy(tracks) && s.bounds == BoundsOf(tracks) && Coherent(s)
  }

  class Poller<T> {
    const inputs: array<Conduit?<T>>
    var next: nat

    ghost predicate Valid()
      reads this, inputs, inputs[..]
    {
      (inputs.Length > 0 ==> next < inputs.Length) && AllValid(inputs[..])
    }

    constructor (n: nat)
      ensures Valid() && fresh(inputs) && inputs.Length == n && next == 0
      ensures forall i :: 0 <= i < n ==> inputs[i] == null
    {
      inputs := new Conduit?<T>[n](_ => null);
      next := 0;
    }

    method BindTrack(index: nat, track: Conduit<T>)
      requires Valid() && track.Valid()
      modifies inputs
      ensures Valid()
      ensures inputs[..] == if index < inputs.Length then old(inputs[..])[index := track] else old(inputs[..])
    {
      if index < inputs.Length {
        inputs[index] := track;
      }
    }

    /** Pops the track at `idx`, if one is bound there. */
    method PopTrack(idx: nat, ghost held: map<Conduit?<T>, seq<Option<T>>>) returns (x: Option<T>)
      requires Valid() && idx < inputs.Length && held == HeldBy(inputs[..])
      modifies inputs[..]
      ensures Valid() && inputs[..] == old(inputs[..]) && inputs[idx] in held
      ensures HeldBy(inputs[..]) == held[inputs[idx] := Take(held[inputs[idx]]).0] && x == Take(held[inputs[idx]]).1
    {
      x := None;
      var track := inputs[idx];
      assert track in inputs[..];
      if track != null {
        x := track.Pop();
      }
    }

    /** One iteration of the loop, up to passing the turn: try the `i`-th track in turn.  A null pointer it
        holds in front is popped and dropped. */
    method PollAt(i: nat, ghost s: Tracks<Conduit?<T>, T>) returns (x: Option<T>)
      requires Valid() && Shows(s, inputs[..]) && s.cursor == Cursor(next, i)
      modifies inputs[..]
      ensures Valid() && inputs[..] == old(inputs[..]) && x == Popped(s) && Shows(Look(s), inputs[..])
    {
      TurnIsModulo(next, i, inputs.Length);
      x := PopTrack((next + i) % inputs.Length, s.queues);
      LookIs(s, Moved(s.cursor, inputs.Length, x.Some?), HeldBy(inputs[..]), x);
    }

    /** The track after the `i`-th in turn comes first from now on. */
    method PassTurn(i: nat)
      requires next < inputs.Length && i < inputs.Length
      modifies `next
      ensures next == Next(Turn(old(next), i, inputs.Length), inputs.Length)
    {
      TurnIsModulo(next, i, inputs.Length);
      NextIsModulo(Turn(next, i, inputs.Length), inputs.Length);
      next := ((next + i) % inputs.Length + 1) % inputs.Length;
    }

    /** A whole iteration of the loop. */
    method Iterate(i: nat, ghost s: Tracks<Conduit?<T>, T>, ghost s': Tracks<Conduit?<T>, T>) returns (x: Option<T>)
      requires Valid() && Shows(s, inputs[..]) && s.cursor == Cursor(next, i) && s' == Look(s)
      modifies `next, inputs[..]
      ensures Valid() && inputs[..] == old(inputs[..]) && x == Popped(s) && Shows(s', inputs[..])
      ensures s'.cursor.next == next
    {
      x := PollAt(i, s);
      if x.Some? {
        PassTurn(i);
      }
    }

    /** The loop is one call of the poller on the tracks as values. */
    method Scan(ghost before: Tracks<Conduit?<T>, T>) returns (x: Option<T>)
      requires Valid() && Shows(before, inputs[..]) && before.cursor == Cursor(next, 0)
      modifies `next, inputs[..]
      ensures Valid() && inputs[..] == old(inputs[..])
      ensures Shows(PollCall(before).0, inputs[..]) && PollCall(before).0.cursor == Cursor(next, 0)
      ensures x == PollCall(before).1
    {
      x := None;
      ghost var s := before;
      for i := 0 to inputs.Length
        invariant Valid() && inputs[..] == old(inputs[..]) && x == None && Shows(s, inputs[..])
        invariant s.cursor == Cursor(next, if i < inputs.Length then i else 0)
        invariant PollCall(before) == if i < inputs.Length then PollCall(s) else (s, None)
      {
        x := Iterate(i, s, Look(s));
        s := Look(s);
        if x.Some? {
          return;
        }
      }
    }

    /** One call of the poller on the tracks as values. */
    method Poll() returns (x: Option<T>)
      requires Valid()
      modifies `next, inputs[..]
      ensures Valid() && inputs[..] == old(inputs[..])
      ensures inputs.Length == 0 ==> x == None
      ensures inputs.Length > 0 ==>
                (Snapshot(Cursor(next, 0), inputs[..]), x) == PollCall(old(Snapshot(Cursor(next, 0), inputs[..])))
    {
      x := None;
      if inputs.Length > 0 {
        SnapshotCoherent(Cursor(next, 0), inputs[..]);
        x := Scan(Snapshot(Cursor(next, 0), inputs[..]));
      }
    }
  }

  class Switch<T> {
    const outputs: array<Conduit?<T>>
    var next: nat

    /** The same track may be bound more than once. */
    ghost predicate Valid()
      reads this, outputs, outputs[..]
    {
      (outputs.Length > 0 ==> next < outputs.Length) && AllValid(outputs[..]) && Apart(outputs[..], outputs)
    }

    constructor (n: nat)
      ensures Valid() && fresh(outputs) && outputs.Length == n && next == 0
      ensures forall i :: 0 <= i < n ==> outputs[i] == null
    {
      outputs := new Conduit?<T>[n](_ => null);
      next := 0;
    }

    method BindTrack(index: nat, track: Conduit<T>)
      requires Valid() && track.Valid()
      requires track.ring as object != outputs
      requires forall i :: 0 <= i < outputs.Length && outputs[i] != null && outputs[i] != track ==>
                 outputs[i].ring != track.ring
      modifies outputs
      ensures Valid()
      ensures outputs[..] == if index < outputs.Length then old(outputs[..])[index := track] else old(outputs[..])
    {
      if index < outputs.Length {
        outputs[index] := track;
      }
    }

    /** Pushes to the track at `idx`, if one is bound there. */
    method PushTrack(idx: nat, x: T, ghost held: map<Conduit?<T>, seq<Option<T>>>) returns (ok: bool)
      requires Valid() && idx < outputs.Length && held == HeldBy(outputs[..])
      modifies outputs[..], BuffersOf(outputs[..])
      ensures Valid() && outputs[..] == old(outputs[..]) && outputs[idx] in held
      ensures var (q, y) := Offer(held[outputs[idx]], Bound(outputs[idx]), Some(x));
              HeldBy(outputs[..]) == held[outputs[idx] := q] && ok == y
    {
      ok := false;
      var track := outputs[idx];
      assert track in outputs[..];
      if track != null {
        ok := track.Push(Some(x));
      }
    }

    /** One iteration of the loop, up to passing the turn: offer the event to the `i`-th track in turn. */
    method OnAt(i: nat, x: T, ghost s: Tracks<Conduit?<T>, T>, ghost s': Tracks<Conduit?<T>, T>) returns (ok: bool)
      requires Valid() && Shows(s, outputs[..]) && s.cursor == Cursor(next, i) && s' == Offered(s, Some(x))
      modifies outputs[..], BuffersOf(outputs[..])
      ensures Valid() && outputs[..] == old(outputs[..])
      ensures ok == Accepts(s, Here(s)) && Shows(s', outputs[..]) && s'.cursor == Moved(s.cursor, outputs.Length, ok)
    {
      TurnIsModulo(next, i, outputs.Length);
      var idx := (next + i) % outputs.Length;
      assert idx == Here(s) && outputs[idx] == s.names[idx];
      ok := PushTrack(idx, x, s.queues);
      OfferedIs(s, Moved(s.cursor, outputs.Length, ok), HeldBy(outputs[..]), Some(x), ok);
    }

    /** The track after the `i`-th in turn comes first from now on. */
    method PassTurn(i: nat)
      requires next < outputs.Length && i < outputs.Length
      modifies `next
      ensures next == Next(Turn(old(next), i, outputs.Length), outputs.Length)
    {
      TurnIsModulo(next, i, outputs.Length);
      NextIsModulo(Turn(next, i, outputs.Length), outputs.Length);
      next := ((next + i) % outputs.Length + 1) % outputs.Length;
    }

    /** A whole iteration of the loop. */
    method Iterate(i: nat, x: T, ghost s: Tracks<Conduit?<T>, T>, ghost s': Tracks<Conduit?<T>, T>) returns (ok: bool)
      requires Valid() && Shows(s, outputs[..]) && s.cursor == Cursor(next, i) && s' == Offered(s, Some(x))
      modifies `next, outputs[..], BuffersOf(outputs[..])
      ensures Valid() && outputs[..] == old(outputs[..])
      ensures ok == Accepts(s, Here(s)) && Shows(s', outputs[..]) && s'.cursor.next == next
    {
      ok := OnAt(i, x, s, s');
      if ok {
        PassTurn(i);
      }
    }

    /** The loop, for an event that is there, is one call of the switch on the tracks as values. */
    method Route(x: T, ghost before: Tracks<Conduit?<T>, T>) returns (routed: bool)
      requires Valid() && Shows(before, outputs[..]) && before.cursor == Cursor(next, 0)
      modifies `next, outputs[..], BuffersOf(outputs[..])
      ensures Valid() && outputs[..] == old(outputs[..])
      ensures var (s, ok) := RouteCall(before, Some(x));
              Shows(s, outputs[..]) && s.cursor == Cursor(next, 0) && routed == ok
    {
      routed := false;
      ghost var s := before;
      for i := 0 to outputs.Length
        invariant Valid() && outputs[..] == old(outputs[..]) && !routed && Shows(s, outputs[..])
        invariant s.cursor == Cursor(next, if i < outputs.Length then i else 0)
        invariant RouteCall(before, Some(x)) == if i < outputs.Length then RouteCall(s, Some(x)) else (s, false)
      {
        routed := Iterate(i, x, s, Offered(s, Some(x)));
        s := Offered(s, Some(x));
        if routed {
          return;
        }
      }
    }

    /** Moves the event into the first bound track in turn that has room, and passes the turn on; when
        there is none, or no event, the caller keeps what it had and nothing changes. */
    method On(ev: Option<T>) returns (kept: Option<T>)
      requires Valid()
      modifies `next, outputs[..], BuffersOf(outputs[..])
      ensures Valid() && outputs[..] == old(outputs[..])
      ensures ev.Some? && outputs.Length > 0 ==>
                (Snapshot(Cursor(next, 0), outputs[..]), kept.None?)
                == RouteCall(old(Snapshot(Cursor(next, 0), outputs[..])), ev)
      ensures kept.Some? ==> kept == ev
      ensures ev.None? || outputs.Length == 0 ==>
                && kept == ev && next == old(next)
                && Snapshot(Cursor(0, 0), outputs[..]) == old(Snapshot(Cursor(0, 0), outputs[..]))
    {
      kept := ev;
      if ev.Some? && outputs.Length > 0 {
        SnapshotCoherent(Cursor(next, 0), outputs[..]);
        var routed := Route(ev.value, Snapshot(Cursor(next, 0), outputs[..]));
        if routed {
          kept := None;
        }
      }
    }
  }
}
