/** In which order a dispatch calls, said of the calls alone: handlers in pipeline order, and for each of them
the event's types bases first and left to right, without leaving anybody out before the call that ends it. */
module DispatchOrder {
  import opened Dispatch

  // ---------- places in the tree of bases ----------

  /** A place in a type's tree of bases: which base to go to at each level.  The type itself is at `[]`. */
  type Path = seq<nat>

  predicate IsPath(t: Type, p: Path)
    decreases p
  {
    p == [] || (p[0] < |t.bases| && IsPath(t.bases[p[0]], p[1..]))
  }

  function TypeAt(t: Type, p: Path): Type
    requires IsPath(t, p)
    decreases p
  {
    if p == [] then t else TypeAt(t.bases[p[0]], p[1..])
  }

  /** `p` lies below `q`, or where they part it goes further left. */
  predicate Earlier(p: Path, q: Path)
    decreases p
  {
    p != [] && (q == [] || p[0] < q[0] || (p[0] == q[0] && Earlier(p[1..], q[1..])))
  }

  /** Where `p` and `q` part, at depth `d`, the one further left is earlier. */
  lemma {:induction false} LeftIsEarlier(p: Path, q: Path, d: nat)
    requires d < |p| && d < |q| && p[..d] == q[..d] && p[d] < q[d]
    ensures Earlier(p, q) && !Earlier(q, p)
    decreases d
  {
    if d > 0 {
      assert p[0] == p[..d][0] == q[..d][0] == q[0];
      assert p[1..][..d - 1] == p[..d][1..] == q[..d][1..] == q[1..][..d - 1];
      LeftIsEarlier(p[1..], q[1..], d - 1);
    }
  }

  /** What lies below a type is earlier. */
  lemma {:induction false} BelowIsEarlier(p: Path, q: Path)
    requires |q| < |p| && p[..|q|] == q
    ensures Earlier(p, q) && !Earlier(q, p)
    decreases q
  {
    if q != [] {
      assert p[0] == p[..|q|][0] == q[0];
      assert p[1..][..|q| - 1] == p[..|q|][1..] == q[1..];
      BelowIsEarlier(p[1..], q[1..]);
    }
  }

  // ---------- the flattened order is that of the places ----------

  function Under(i: nat, ps: seq<Path>): (qs: seq<Path>)
    ensures |qs| == |ps| && forall k :: 0 <= k < |qs| ==> qs[k] == [i] + ps[k]
  {
    seq(|ps|, k requires 0 <= k < |ps| => [i] + ps[k])
  }

  function Paths(t: Type): seq<Path>
    decreases t, 0
  {
    PathsAll(t.bases, 0) + [[]]
  }

  /** The paths through the bases `ts`, the first of which has number `i`. */
  function PathsAll(ts: seq<Type>, i: nat): seq<Path>
    decreases ts, 1
  {
    if ts == [] then [] else Under(i, Paths(ts[0])) + PathsAll(ts[1..], i + 1)
  }

  /** The paths lead to the types of the order, one by one, and ascend. */
  ghost predicate Leads(t: Type, ps: seq<Path>, ts: seq<Type>) {
    |ps| == |ts| && forall k :: 0 <= k < |ps| ==> IsPath(t, ps[k]) && TypeAt(t, ps[k]) == ts[k]
  }

  ghost predicate Ascends(ps: seq<Path>) { forall j, k :: 0 <= j < k < |ps| ==> Earlier(ps[j], ps[k]) }

  /** The paths go through bases from number `i` on, up to `n`. */
  ghost predicate Within(ps: seq<Path>, i: nat, n: nat) {
    forall k :: 0 <= k < |ps| ==> ps[k] != [] && i <= ps[k][0] < n
  }

  lemma UnderLeads(t: Type, i: nat, ps: seq<Path>, ts: seq<Type>)
    requires i < |t.bases| && Leads(t.bases[i], ps, ts)
    ensures Leads(t, Under(i, ps), ts)
  {
    forall k | 0 <= k < |ps| ensures IsPath(t, Under(i, ps)[k]) && TypeAt(t, Under(i, ps)[k]) == ts[k] {
      assert Under(i, ps)[k][1..] == ps[k];
    }
  }

  lemma UnderAscends(i: nat, ps: seq<Path>)
    requires Ascends(ps)
    ensures Ascends(Under(i, ps))
  {
    forall j, k | 0 <= j < k < |ps| ensures Earlier(Under(i, ps)[j], Under(i, ps)[k]) {
      assert Under(i, ps)[j][1..] == ps[j] && Under(i, ps)[k][1..] == ps[k];
    }
  }

  lemma {:induction false} PathsFollowOrder(t: Type)
    ensures Leads(t, Paths(t), Order(t)) && Ascends(Paths(t))
    decreases t, 0
  {
    PathsAllFollowOrder(t, t.bases, 0);
    assert t.bases[0..] == t.bases;
  }

  lemma {:induction false} PathsAllFollowOrder(t: Type, ts: seq<Type>, i: nat)
    requires i <= |t.bases| && ts == t.bases[i..]
    ensures Leads(t, PathsAll(ts, i), OrderAll(ts)) && Ascends(PathsAll(ts, i))
    ensures Within(PathsAll(ts, i), i, |t.bases|)
    decreases ts, 1
  {
    if ts != [] {
      PathsFollowOrder(ts[0]);
      UnderLeads(t, i, Paths(ts[0]), Order(ts[0]));
      UnderAscends(i, Paths(ts[0]));
      PathsAllFollowOrder(t, ts[1..], i + 1);
    }
  }

  /** No place is left out. */
  lemma {:induction false} EveryPathListed(t: Type, p: Path)
    requires IsPath(t, p)
    ensures p in Paths(t)
    decreases t, 0
  {
    if p == [] {
      assert Paths(t)[|Paths(t)| - 1] == [];
    } else {
      assert t.bases[0..] == t.bases;
      EveryPathBelowListed(t, t.bases, 0, p);
    }
  }

  lemma {:induction false} EveryPathBelowListed(t: Type, ts: seq<Type>, i: nat, p: Path)
    requires i <= |t.bases| && ts == t.bases[i..] && p != [] && IsPath(t, p) && i <= p[0]
    ensures p in PathsAll(ts, i)
    decreases ts, 1
  {
    if p[0] == i {
      EveryPathListed(ts[0], p[1..]);
      var k :| 0 <= k < |Paths(ts[0])| && Paths(ts[0])[k] == p[1..];
      assert Under(i, Paths(ts[0]))[k] == [i] + p[1..] == p;
    } else {
      EveryPathBelowListed(t, ts[1..], i + 1, p);
    }
  }

  // ---------- handlers ----------

  /** A handler, by its position in the pipeline, and a place in the event's tree of bases. */
  datatype Place = Place(handler: nat, path: Path)

  predicate IsPlace(hs: seq<nat>, event: Type, p: Place) { p.handler < |hs| && IsPath(event, p.path) }

  function CallAt(hs: seq<nat>, event: Type, p: Place): Call
    requires IsPlace(hs, event, p)
  {
    Call(hs[p.handler], TypeAt(event, p.path))
  }

  /** The handler at the place has an overload for the type there. */
  predicate Offered(w: Handlers, hs: seq<nat>, event: Type, p: Place) {
    IsPlace(hs, event, p) && w.overload(hs[p.handler], TypeAt(event, p.path)) != Absent
  }

  predicate Before(p: Place, q: Place) {
    p.handler < q.handler || (p.handler == q.handler && Earlier(p.path, q.path))
  }

  /** Of paths to the types `ts`, those to a type that handler `h` has an overload for. */
  function Kept(w: Handlers, h: nat, ps: seq<Path>, ts: seq<Type>): seq<Path>
    requires |ps| == |ts|
  {
    if ts == [] then []
    else (if w.overload(h, ts[0]) == Absent then [] else [ps[0]]) + Kept(w, h, ps[1..], ts[1..])
  }

  /** The paths lead to the calls of one handler. */
  ghost predicate LeadsTo(w: Handlers, h: nat, t: Type, ps: seq<Path>, calls: seq<Call>) {
    && |ps| == |calls|
    && forall k :: 0 <= k < |ps| ==>
         IsPath(t, ps[k]) && calls[k] == Call(h, TypeAt(t, ps[k])) && w.overload(h, TypeAt(t, ps[k])) != Absent
  }

  lemma {:induction false} KeptAreListed(w: Handlers, h: nat, ps: seq<Path>, ts: seq<Type>)
    requires |ps| == |ts|
    ensures forall p :: p in Kept(w, h, ps, ts) ==> p in ps
    decreases ts
  {
    if ts != [] {
      KeptAreListed(w, h, ps[1..], ts[1..]);
    }
  }

  lemma {:induction false} KeptLead(w: Handlers, h: nat, t: Type, ps: seq<Path>, ts: seq<Type>)
    requires Leads(t, ps, ts)
    ensures LeadsTo(w, h, t, Kept(w, h, ps, ts), Offers(w, h, ts))
    decreases ts
  {
    if ts != [] {
      KeptLead(w, h, t, ps[1..], ts[1..]);
    }
  }

  lemma {:induction false} KeptAscend(w: Handlers, h: nat, ps: seq<Path>, ts: seq<Type>)
    requires |ps| == |ts| && Ascends(ps)
    ensures Ascends(Kept(w, h, ps, ts))
    decreases ts
  {
    if ts != [] {
      var rest := Kept(w, h, ps[1..], ts[1..]);
      KeptAscend(w, h, ps[1..], ts[1..]);
      KeptAreListed(w, h, ps[1..], ts[1..]);
      forall k | 0 <= k < |rest| ensures Earlier(ps[0], rest[k]) {
        assert rest[k] in ps[1..];
        var j :| 0 <= j < |ps[1..]| && ps[1..][j] == rest[k];
        assert ps[j + 1] == rest[k];
      }
    }
  }

  lemma {:induction false} OfferedAreKept(w: Handlers, h: nat, t: Type, ps: seq<Path>, ts: seq<Type>, p: Path)
    requires Leads(t, ps, ts) && p in ps && IsPath(t, p) && w.overload(h, TypeAt(t, p)) != Absent
    ensures p in Kept(w, h, ps, ts)
    decreases ts
  {
    if p != ps[0] {
      assert p in ps[1..];
      OfferedAreKept(w, h, t, ps[1..], ts[1..], p);
    }
  }

  /** The paths to the types of the event that handler `h` has an overload for. */
  ghost function Mine(w: Handlers, h: nat, event: Type): seq<Path> {
    PathsFollowOrder(event);
    Kept(w, h, Paths(event), Order(event))
  }

  function AtHandler(k: nat, ps: seq<Path>): (places: seq<Place>)
    ensures |places| == |ps| && forall i :: 0 <= i < |places| ==> places[i] == Place(k, ps[i])
  {
    seq(|ps|, i requires 0 <= i < |ps| => Place(k, ps[i]))
  }

  /** The places of the plan's calls to the handlers from number `k` on. */
  ghost function Places(w: Handlers, hs: seq<nat>, event: Type, k: nat): seq<Place>
    decreases |hs| - k
  {
    if k >= |hs| then []
    else AtHandler(k, Mine(w, hs[k], event)) + Places(w, hs, event, k + 1)
  }

  /** The places lead to the calls, one by one. */
  ghost predicate Guides(w: Handlers, hs: seq<nat>, event: Type, places: seq<Place>, calls: seq<Call>) {
    && |places| == |calls|
    && forall i :: 0 <= i < |places| ==>
         Offered(w, hs, event, places[i]) && calls[i] == CallAt(hs, event, places[i])
  }

  ghost predicate InOrder(places: seq<Place>) { forall i, j :: 0 <= i < j < |places| ==> Before(places[i], places[j]) }

  ghost predicate From(places: seq<Place>, k: nat) { forall i :: 0 <= i < |places| ==> k <= places[i].handler }

  lemma OneHandlerGuides(w: Handlers, hs: seq<nat>, event: Type, k: nat)
    requires k < |hs|
    ensures var places := AtHandler(k, Mine(w, hs[k], event));
            Guides(w, hs, event, places, Offers(w, hs[k], Order(event))) && InOrder(places) && From(places, k)
  {
    PathsFollowOrder(event);
    KeptLead(w, hs[k], event, Paths(event), Order(event));
    KeptAscend(w, hs[k], Paths(event), Order(event));
  }

  lemma GuidesAppend(w: Handlers, hs: seq<nat>, event: Type, k: nat, a: seq<Place>, x: seq<Call>, b: seq<Place>,
                     y: seq<Call>)
    requires Guides(w, hs, event, a, x) && InOrder(a) && (forall i :: 0 <= i < |a| ==> a[i].handler == k)
    requires Guides(w, hs, event, b, y) && InOrder(b) && From(b, k + 1)
    ensures Guides(w, hs, event, a + b, x + y) && InOrder(a + b) && From(a + b, k)
  {
  }

  lemma {:induction false} PlacesFollowPlan(w: Handlers, hs: seq<nat>, event: Type, k: nat)
    requires k <= |hs|
    ensures Guides(w, hs, event, Places(w, hs, event, k), Plan(w, hs[k..], event))
    ensures InOrder(Places(w, hs, event, k)) && From(Places(w, hs, event, k), k)
    decreases |hs| - k
  {
    if k < |hs| {
      OneHandlerGuides(w, hs, event, k);
      PlacesFollowPlan(w, hs, event, k + 1);
      assert hs[k..][0] == hs[k] && hs[k..][1..] == hs[k + 1..];
      GuidesAppend(w, hs, event, k, AtHandler(k, Mine(w, hs[k], event)),
                   Offers(w, hs[k], Order(event)), Places(w, hs, event, k + 1), Plan(w, hs[k + 1..], event));
    }
  }

  lemma {:induction false} EveryPlaceListed(w: Handlers, hs: seq<nat>, event: Type, k: nat, p: Place)
    requires k <= p.handler && Offered(w, hs, event, p)
    ensures p in Places(w, hs, event, k)
    decreases |hs| - k
  {
    if p.handler == k {
      var ps := Mine(w, hs[k], event);
      EveryPathListed(event, p.path);
      PathsFollowOrder(event);
      OfferedAreKept(w, hs[k], event, Paths(event), Order(event), p.path);
      var i :| 0 <= i < |ps| && ps[i] == p.path;
      assert AtHandler(k, ps)[i] == p;
    } else {
      EveryPlaceListed(w, hs, event, k + 1, p);
    }
  }

  // ---------- what that means for a dispatch ----------

  /** Call `i` of the calls that follow `before` was answered and left the pointer alone. */
  predicate WentOn(w: Handlers, before: seq<Call>, calls: seq<Call>, i: nat)
    requires i < |calls|
  {
    && w.reply(before + calls[..i], calls[i]).effect == Keep
    && (w.overload(calls[i].handler, calls[i].view) == Void || w.reply(before + calls[..i], calls[i]).answer)
  }

  lemma CutGoesOn(w: Handlers, before: seq<Call>, plan: seq<Call>, n: nat, i: nat)
    requires CutAt(w, before, plan, n) && i < n <= |plan|
    ensures i + 1 < n ==> WentOn(w, before, plan[..n], i)
    ensures i + 1 == n < |plan| ==> !WentOn(w, before, plan[..n], i)
  {
    assert plan[..n][..i] == plan[..i];
    if i + 1 < n {
      assert !Stops(w, before + plan[..i], plan[i]);
    }
  }

  /** A place that is not among the first `n` comes after them. */
  lemma LaterThanCut(all: seq<Place>, n: nat, p: Place)
    requires InOrder(all) && n <= |all| && p in all && p !in all[..n]
    ensures n < |all| && (n > 0 ==> Before(all[n - 1], p))
  {
    assert all == all[..n] + all[n..];
    var j :| 0 <= j < |all[n..]| && all[n..][j] == p;
    assert all[n + j] == p;
  }

  /** All calls but the last were answered without declining and left the pointer alone. */
  ghost predicate AllButLastWentOn(w: Handlers, before: seq<Call>, calls: seq<Call>) {
    forall i :: 0 <= i < |calls| - 1 ==> WentOn(w, before, calls, i)
  }

  /** Whoever has an overload is called, unless the last call ended the dispatch and they come after it. */
  ghost predicate NobodySkipped(
    w: Handlers, hs: seq<nat>, event: Type, before: seq<Call>, places: seq<Place>, calls: seq<Call>)
    requires |places| == |calls|
  {
    forall p :: Offered(w, hs, event, p) && p !in places ==>
      calls != [] && Before(places[|places| - 1], p) && !WentOn(w, before, calls, |calls| - 1)
  }

  lemma CutWentOn(w: Handlers, before: seq<Call>, plan: seq<Call>, n: nat)
    requires CutAt(w, before, plan, n) && n <= |plan|
    ensures AllButLastWentOn(w, before, plan[..n])
  {
    forall i | 0 <= i < n - 1 ensures WentOn(w, before, plan[..n], i) {
      CutGoesOn(w, before, plan, n, i);
    }
  }

  lemma CutSkipsNobody(w: Handlers, hs: seq<nat>, event: Type, before: seq<Call>, plan: seq<Call>, all: seq<Place>,
                       n: nat)
    requires CutAt(w, before, plan, n) && n <= |plan| == |all| && InOrder(all) && all == Places(w, hs, event, 0)
    ensures NobodySkipped(w, hs, event, before, all[..n], plan[..n])
  {
    forall p | Offered(w, hs, event, p) && p !in all[..n]
      ensures n > 0 && Before(all[..n][n - 1], p) && !WentOn(w, before, plan[..n], n - 1)
    {
      EveryPlaceListed(w, hs, event, 0, p);
      LaterThanCut(all, n, p);
      CutGoesOn(w, before, plan, n, n - 1);
    }
  }

  lemma GuidesCut(w: Handlers, hs: seq<nat>, event: Type, all: seq<Place>, plan: seq<Call>, n: nat)
    requires Guides(w, hs, event, all, plan) && InOrder(all) && n <= |plan|
    ensures Guides(w, hs, event, all[..n], plan[..n]) && InOrder(all[..n])
  {
  }

  lemma DispatchIsCut(w: Handlers, hs: seq<nat>, event: Type, s: State) returns (n: nat)
    requires s.fate == Held
    ensures CutAt(w, s.calls, Plan(w, hs, event), n) && n <= |Plan(w, hs, event)|
    ensures Dispatch.Dispatch(w, hs, event, s).calls == s.calls + Plan(w, hs, event)[..n]
  {
    DispatchStopsAtFirst(w, hs, event, s);
    n :| Cut(w, event, s.calls, Plan(w, hs, event), Dispatch.Dispatch(w, hs, event, s), n);
  }

  /** The calls a dispatch makes, after whatever came before: each to a handler that has an overload for that
      type of the event, in order, all but the last answered without declining and leaving the pointer alone;
      and nobody left out, unless the last call declined or emptied the pointer and they come after it. */
  lemma CallsFollowPlaces(w: Handlers, hs: seq<nat>, event: Type, s: State)
    returns (calls: seq<Call>, places: seq<Place>)
    requires s.fate == Held
    ensures Dispatch.Dispatch(w, hs, event, s).calls == s.calls + calls
    ensures Guides(w, hs, event, places, calls) && InOrder(places)
    ensures AllButLastWentOn(w, s.calls, calls) && NobodySkipped(w, hs, event, s.calls, places, calls)
  {
    var plan, all := Plan(w, hs, event), Places(w, hs, event, 0);
    var n := DispatchIsCut(w, hs, event, s);
    PlacesFollowPlan(w, hs, event, 0);
    assert hs[0..] == hs;
    calls, places := plan[..n], all[..n];
    GuidesCut(w, hs, event, all, plan, n);
    CutWentOn(w, s.calls, plan, n);
    CutSkipsNobody(w, hs, event, s.calls, plan, all, n);
  }

  /** The same in plain words.  An earlier handler is called first.  For one handler, a base is offered before
      the type that extends it, and of two branches of the tree the one further left comes first.  All calls
      but the last leave the pointer alone and, if they answer, answer true.  If anybody with an overload is
      not called, the last call emptied the pointer or answered false. */
  lemma CallsInOrder(w: Handlers, hs: seq<nat>, event: Type, s: State) returns (calls: seq<Call>, places: seq<Place>)
    requires s.fate == Held
    ensures Dispatch.Dispatch(w, hs, event, s).calls == s.calls + calls && Guides(w, hs, event, places, calls)
    ensures forall i, j :: 0 <= i < |calls| && 0 <= j < |calls| && places[i].handler < places[j].handler ==> i < j
    ensures forall i, j :: 0 <= i < |calls| && 0 <= j < |calls| && places[i].handler == places[j].handler ==>
              var p, q := places[i].path, places[j].path;
              && (|q| < |p| && p[..|q|] == q ==> i < j)
              && forall d :: 0 <= d < |p| && d < |q| && p[..d] == q[..d] && p[d] < q[d] ==> i < j
    ensures forall i :: 0 <= i < |calls| - 1 ==>
              && w.reply(s.calls + calls[..i], calls[i]).effect == Keep
              && (w.overload(calls[i].handler, calls[i].view) == Void || w.reply(s.calls + calls[..i], calls[i]).answer)
    ensures forall p :: Offered(w, hs, event, p) && p !in places ==>
              && calls != []
              && var i := |calls| - 1;
                 || w.reply(s.calls + calls[..i], calls[i]).effect != Keep
                 || (&& w.overload(calls[i].handler, calls[i].view) != Void
                     && !w.reply(s.calls + calls[..i], calls[i]).answer)
  {
    calls, places := CallsFollowPlaces(w, hs, event, s);
    forall i, j | 0 <= i < |calls| && 0 <= j < |calls| && places[i].handler == places[j].handler
      ensures PathsInOrder(places[i].path, places[j].path, i, j)
    {
      AscendingPaths(places, i, j);
    }
    forall i | 0 <= i < |calls| - 1
      ensures w.reply(s.calls + calls[..i], calls[i]).effect == Keep
      ensures w.overload(calls[i].handler, calls[i].view) == Void || w.reply(s.calls + calls[..i], calls[i]).answer
    {
      assert WentOn(w, s.calls, calls, i);
    }
  }

  ghost predicate PathsInOrder(p: Path, q: Path, i: nat, j: nat) {
    && (|q| < |p| && p[..|q|] == q ==> i < j)
    && forall d :: 0 <= d < |p| && d < |q| && p[..d] == q[..d] && p[d] < q[d] ==> i < j
  }

  lemma AscendingPaths(places: seq<Place>, i: nat, j: nat)
    requires InOrder(places) && i < |places| && j < |places| && places[i].handler == places[j].handler
    ensures PathsInOrder(places[i].path, places[j].path, i, j)
  {
    var p, q := places[i].path, places[j].path;
    if |q| < |p| && p[..|q|] == q {
      BelowIsEarlier(p, q);
    }
    forall d | 0 <= d < |p| && d < |q| && p[..d] == q[..d] && p[d] < q[d] ensures i < j {
      LeftIsEarlier(p, q, d);
    }
  }

  /** Two handlers with an overload for everything, which always go on, and an event with two bases: the first
      handler gets the first base, the second base and the event, and then the second handler does. */
  lemma TwoHandlersTwoBases(w: Handlers, g: nat, h: nat, a: Type, b: Type, event: Type)
    requires forall x, t :: w.overload(x, t) == Answers
    requires forall calls, c :: w.reply(calls, c) == Reply(true, Keep)
    requires event.bases == [a, b] && a.bases == [] && b.bases == []
    ensures Dispatch.Dispatch(w, [g, h], event, State([], Held)).calls ==
            [Call(g, a), Call(g, b), Call(g, event), Call(h, a), Call(h, b), Call(h, event)]
  {
    var s, s1 := State([], Held), State([Call(g, a), Call(g, b), Call(g, event)], Held);
    OneHandlerTwoBases(w, g, a, b, event, s);
    OneHandlerTwoBases(w, h, a, b, event, s1);
    assert s.calls + s1.calls == s1.calls;
    assert [g, h][1..] == [h] && [h][1..] == [];
    var o := Traverse(w, h, event, event, s1);
    assert DispatchFrom(w, [], event, o.state) == Outcome(o.state, true);
    assert DispatchFrom(w, [h], event, s1) == o;
    assert DispatchFrom(w, [g, h], event, s) == o;
  }

  lemma OneHandlerTwoBases(w: Handlers, x: nat, a: Type, b: Type, event: Type, s: State)
    requires forall x, t :: w.overload(x, t) == Answers
    requires forall calls, c :: w.reply(calls, c) == Reply(true, Keep)
    requires event.bases == [a, b] && a.bases == [] && b.bases == [] && s.fate == Held
    ensures Traverse(w, x, event, event, s) ==
            Outcome(State(s.calls + [Call(x, a), Call(x, b), Call(x, event)], Held), true)
  {
    var s1, s2 := State(s.calls + [Call(x, a)], Held), State(s.calls + [Call(x, a)] + [Call(x, b)], Held);
    assert Traverse(w, x, event, a, s) == Outcome(s1, true);
    assert Traverse(w, x, event, b, s1) == Outcome(s2, true);
    assert [a, b][1..] == [b] && [b][1..] == [];
    assert TraverseBases(w, x, event, [b], s1) == Outcome(s2, true);
    assert TraverseBases(w, x, event, [a, b], s) == Outcome(s2, true);
  }
}
