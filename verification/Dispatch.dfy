/** The mutating pipeline: an event is offered to every handler, for every one of its base types and then
for its own type, until a handler declines it or takes it away.

Handlers are code this model cannot see. A handler's reply may depend on everything that happened before,
so it is a function of the calls made so far. */
module Dispatch {

  /** An event type with the types it extends, in declaration order. */
  datatype Type = Type(id: nat, bases: seq<Type>)

  /** Handler `handler` is invoked with a pointer to the event seen as `view`. */
  datatype Call = Call(handler: nat, view: Type)

  /** Whether a handler can be called with a type, and whether that overload answers with a truth value. */
  datatype Overload = Absent | Void | Answers

  /** What a handler does to the pointer it is given: leaves it, resets it, moves it into a pointer of its
      own, or releases it and takes the bare pointer. */
  datatype Effect = Keep | Reset | Move | Release

  datatype Reply = Reply(answer: bool, effect: Effect)

  datatype Handlers = Handlers(overload: (nat, Type) -> Overload, reply: (seq<Call>, Call) -> Reply)

  /** Where the event is: in the dispatched pointer, back in its pool, in a handler's owning pointer, in a
      handler's hands as a bare pointer, or lost, when nothing that will return it refers to it any more. */
  datatype Fate = Held | Freed | Moved | Bare | Lost

  /** A reset of the owner runs its deleter and a move carries the deleter along.  A view has no deleter to
      run or to carry.  A released pointer is bare either way. */
  function FateOf(owner: bool, effect: Effect): Fate {
    match effect
    case Keep => Held
    case Reset => if owner then Freed else Lost
    case Move => if owner then Moved else Lost
    case Release => Bare
  }

  datatype State = State(calls: seq<Call>, fate: Fate)

  datatype Outcome = Outcome(state: State, proceed: bool)

  // ---------- the recursion of the source ----------

  /** An invocation through the pointer that owns the event, or through a view that does not.  After a view
      has been emptied the owning pointer is released without running its deleter, and dispatch ends. */
  function Invoke(w: Handlers, event: Type, c: Call, s: State): Outcome {
    var reply := w.reply(s.calls, c);
    var proceed := w.overload(c.handler, c.view) == Void || reply.answer;
    Outcome(State(s.calls + [c], FateOf(c.view == event, reply.effect)),
            proceed && (c.view == event || reply.effect == Keep))
  }

  function CallOnIfExists(w: Handlers, event: Type, c: Call, s: State): Outcome {
    if w.overload(c.handler, c.view) == Absent then Outcome(s, true) else Invoke(w, event, c, s)
  }

  /** Bases first, then the type itself; stops as soon as a call declines or the pointer is empty. */
  function Traverse(w: Handlers, h: nat, event: Type, t: Type, s: State): Outcome
    decreases t, 0
  {
    var o := TraverseBases(w, h, event, t.bases, s);
    var o' := if o.proceed && o.state.fate == Held then CallOnIfExists(w, event, Call(h, t), o.state) else o;
    Outcome(o'.state, o'.proceed && o'.state.fate == Held)
  }

  function TraverseBases(w: Handlers, h: nat, event: Type, bases: seq<Type>, s: State): Outcome
    decreases bases, 1
  {
    if bases == [] then Outcome(s, true)
    else
      var o := Traverse(w, h, event, bases[0], s);
      if o.proceed && o.state.fate == Held then TraverseBases(w, h, event, bases[1..], o.state)
      else Outcome(o.state, false)
  }

  function DispatchFrom(w: Handlers, hs: seq<nat>, event: Type, s: State): Outcome
    decreases hs
  {
    if hs == [] then Outcome(s, true)
    else
      var o := Traverse(w, hs[0], event, event, s);
      if o.proceed then DispatchFrom(w, hs[1..], event, o.state) else o
  }

  /** Dispatch through a reference: the caller keeps whatever is left in the pointer. */
  function Dispatch(w: Handlers, hs: seq<nat>, event: Type, s: State): State {
    if s.fate != Held then s else DispatchFrom(w, hs, event, s).state
  }

  /** Dispatch of a temporary: whatever is left in the pointer is freed on return. */
  function DispatchOwned(w: Handlers, hs: seq<nat>, event: Type, s: State): State {
    var s' := Dispatch(w, hs, event, s);
    if s'.fate == Held then s'.(fate := Freed) else s'
  }

  // ---------- the plan ----------

  /** A type's bases, depth first and left to right, each before the types that extend it. */
  function Order(t: Type): seq<Type>
    decreases t, 0
  {
    OrderAll(t.bases) + [t]
  }

  function OrderAll(ts: seq<Type>): seq<Type>
    decreases ts, 1
  {
    if ts == [] then [] else Order(ts[0]) + OrderAll(ts[1..])
  }

  /** Every type in the list comes after all the types it extends. */
  ghost predicate BasesFirst(ts: seq<Type>) {
    forall i, j :: 0 <= i < |ts| && 0 <= j < |ts[i].bases| ==> ts[i].bases[j] in ts[..i]
  }

  lemma BasesFirstAppend(a: seq<Type>, b: seq<Type>)
    requires BasesFirst(a) && BasesFirst(b)
    ensures BasesFirst(a + b)
  {
    forall i, j | 0 <= i < |a + b| && 0 <= j < |(a + b)[i].bases| ensures (a + b)[i].bases[j] in (a + b)[..i] {
      if i < |a| {
        assert a[i].bases[j] in a[..i] && (a + b)[..i] == a[..i];
      } else {
        assert b[i - |a|].bases[j] in b[..i - |a|] && (a + b)[..i] == a + b[..i - |a|];
      }
    }
  }

  /** The order ends with the type itself and puts every type after all its bases. */
  lemma {:induction false} OrderPutsBasesFirst(t: Type)
    ensures BasesFirst(Order(t)) && Order(t)[|Order(t)| - 1] == t
    decreases t, 0
  {
    OrderAllPutsBasesFirst(t.bases);
    var ts := OrderAll(t.bases);
    forall i, j | 0 <= i < |ts + [t]| && 0 <= j < |(ts + [t])[i].bases|
      ensures (ts + [t])[i].bases[j] in (ts + [t])[..i]
    {
      assert (ts + [t])[..i] == ts[..i];
      if i < |ts| {
        assert ts[i].bases[j] in ts[..i];
      }
    }
  }

  lemma {:induction false} OrderAllPutsBasesFirst(ts: seq<Type>)
    ensures BasesFirst(OrderAll(ts)) && forall i :: 0 <= i < |ts| ==> ts[i] in OrderAll(ts)
    decreases ts, 1
  {
    if ts != [] {
      OrderPutsBasesFirst(ts[0]);
      OrderAllPutsBasesFirst(ts[1..]);
      BasesFirstAppend(Order(ts[0]), OrderAll(ts[1..]));
      forall i | 0 <= i < |ts| ensures ts[i] in OrderAll(ts) {
        if i > 0 {
          assert ts[i] == ts[1..][i - 1];
        }
      }
    }
  }

  /** The calls a handler has an overload for. */
  function Offers(w: Handlers, h: nat, ts: seq<Type>): seq<Call> {
    if ts == [] then []
    else (if w.overload(h, ts[0]) == Absent then [] else [Call(h, ts[0])]) + Offers(w, h, ts[1..])
  }

  /** Every call there would be if no handler declined: handlers in pipeline order. */
  function Plan(w: Handlers, hs: seq<nat>, event: Type): seq<Call> {
    if hs == [] then [] else Offers(w, hs[0], Order(event)) + Plan(w, hs[1..], event)
  }

  /** Making call `c` after `calls` ends the dispatch. */
  predicate Stops(w: Handlers, calls: seq<Call>, c: Call) {
    || w.reply(calls, c).effect != Keep
    || (w.overload(c.handler, c.view) != Void && !w.reply(calls, c).answer)
  }

  /** The plan carried out call by call. */
  function Play(w: Handlers, event: Type, plan: seq<Call>, s: State): Outcome
    decreases plan
  {
    if plan == [] then Outcome(s, true)
    else
      var o := Invoke(w, event, plan[0], s);
      if Stops(w, s.calls, plan[0]) then Outcome(o.state, false)
      else Play(w, event, plan[1..], o.state)
  }

  lemma {:induction false} PlayAppend(w: Handlers, event: Type, a: seq<Call>, b: seq<Call>, s: State)
    ensures var o := Play(w, event, a, s);
            Play(w, event, a + b, s) == if o.proceed then Play(w, event, b, o.state) else o
    decreases a
  {
    if a == [] {
      assert a + b == b;
    } else {
      assert (a + b)[0] == a[0] && (a + b)[1..] == a[1..] + b;
      PlayAppend(w, event, a[1..], b, Invoke(w, event, a[0], s).state);
    }
  }

  lemma {:induction false} PlayHolds(w: Handlers, event: Type, plan: seq<Call>, s: State)
    requires s.fate == Held && Play(w, event, plan, s).proceed
    ensures Play(w, event, plan, s).state.fate == Held
    decreases plan
  {
    if plan != [] {
      PlayHolds(w, event, plan[1..], Invoke(w, event, plan[0], s).state);
    }
  }

  lemma {:induction false} OffersAppend(w: Handlers, h: nat, a: seq<Type>, b: seq<Type>)
    ensures Offers(w, h, a + b) == Offers(w, h, a) + Offers(w, h, b)
    decreases a
  {
    if a == [] {
      assert a + b == b;
    } else {
      assert (a + b)[0] == a[0] && (a + b)[1..] == a[1..] + b;
      OffersAppend(w, h, a[1..], b);
    }
  }

  // ---------- the recursion carries out the plan ----------

  lemma {:induction false} TraverseFollowsOrder(w: Handlers, h: nat, event: Type, t: Type, s: State)
    requires s.fate == Held
    ensures Traverse(w, h, event, t, s) == Play(w, event, Offers(w, h, Order(t)), s)
    decreases t, 0
  {
    var a := Offers(w, h, OrderAll(t.bases));
    var o := Play(w, event, a, s);
    TraverseBasesFollowsOrder(w, h, event, t.bases, s);
    OffersAppend(w, h, OrderAll(t.bases), [t]);
    PlayAppend(w, event, a, Offers(w, h, [t]), s);
    if o.proceed {
      PlayHolds(w, event, a, s);
      OneCall(w, event, h, t, o.state);
    }
  }

  lemma {:induction false} TraverseBasesFollowsOrder(w: Handlers, h: nat, event: Type, bases: seq<Type>, s: State)
    requires s.fate == Held
    ensures TraverseBases(w, h, event, bases, s) == Play(w, event, Offers(w, h, OrderAll(bases)), s)
    decreases bases, 1
  {
    if bases != [] {
      var a := Offers(w, h, Order(bases[0]));
      var o := Play(w, event, a, s);
      TraverseFollowsOrder(w, h, event, bases[0], s);
      OffersAppend(w, h, Order(bases[0]), OrderAll(bases[1..]));
      PlayAppend(w, event, a, Offers(w, h, OrderAll(bases[1..])), s);
      if o.proceed {
        PlayHolds(w, event, a, s);
        TraverseBasesFollowsOrder(w, h, event, bases[1..], o.state);
      }
    }
  }

  lemma OneCall(w: Handlers, event: Type, h: nat, t: Type, s: State)
    requires s.fate == Held
    ensures var o := CallOnIfExists(w, event, Call(h, t), s);
            Play(w, event, Offers(w, h, [t]), s) == Outcome(o.state, o.proceed && o.state.fate == Held)
  {
    assert Offers(w, h, [t][1..]) == [];
    if w.overload(h, t) != Absent {
      assert Offers(w, h, [t]) == [Call(h, t)];
    }
  }

  lemma {:induction false} DispatchFollowsPlan(w: Handlers, hs: seq<nat>, event: Type, s: State)
    requires s.fate == Held
    ensures DispatchFrom(w, hs, event, s) == Play(w, event, Plan(w, hs, event), s)
    decreases hs
  {
    if hs != [] {
      var a := Offers(w, hs[0], Order(event));
      var o := Play(w, event, a, s);
      TraverseFollowsOrder(w, hs[0], event, event, s);
      PlayAppend(w, event, a, Plan(w, hs[1..], event), s);
      if o.proceed {
        PlayHolds(w, event, a, s);
        DispatchFollowsPlan(w, hs[1..], event, o.state);
      }
    }
  }

  // ---------- what that means ----------

  /** After the calls in `before`, call `i` of the plan is reached: none ahead of it ends the dispatch. */
  ghost predicate Reached(w: Handlers, before: seq<Call>, plan: seq<Call>, i: nat) {
    i <= |plan| && forall j :: 0 <= j < i ==> !Stops(w, before + plan[..j], plan[j])
  }

  /** The plan is cut after its first `k` calls: its last call is reached and ends the dispatch, unless the
      plan was carried out in full. */
  ghost predicate CutAt(w: Handlers, before: seq<Call>, plan: seq<Call>, k: nat) {
    if k == |plan| then k == 0 || Reached(w, before, plan, k - 1)
    else 0 < k < |plan| && Reached(w, before, plan, k - 1) && Stops(w, before + plan[..k - 1], plan[k - 1])
  }

  /** What call `i` of the plan makes of the event. */
  function FateAt(w: Handlers, event: Type, before: seq<Call>, plan: seq<Call>, i: nat): Fate
    requires i < |plan|
  {
    FateOf(plan[i].view == event, w.reply(before + plan[..i], plan[i]).effect)
  }

  /** The run made the calls of the cut plan, and the last of them alone decided where the event is. */
  ghost predicate Cut(w: Handlers, event: Type, before: seq<Call>, plan: seq<Call>, s: State, k: nat) {
    && CutAt(w, before, plan, k) && s.calls == before + plan[..k]
    && s.fate == if k == 0 then Held else FateAt(w, event, before, plan, k - 1)
  }

  lemma InvokeNext(w: Handlers, event: Type, before: seq<Call>, plan: seq<Call>, i: nat)
    requires i < |plan|
    ensures Invoke(w, event, plan[i], State(before + plan[..i], Held)).state ==
            State(before + plan[..i + 1], FateAt(w, event, before, plan, i))
    ensures !Stops(w, before + plan[..i], plan[i]) ==> FateAt(w, event, before, plan, i) == Held
  {
    assert before + plan[..i] + [plan[i]] == before + plan[..i + 1];
  }

  lemma {:induction false} PlayIsCut(w: Handlers, event: Type, before: seq<Call>, plan: seq<Call>, i: nat)
    returns (k: nat)
    requires Reached(w, before, plan, i)
    ensures Cut(w, event, before, plan, Play(w, event, plan[i..], State(before + plan[..i], Held)).state, k)
    decreases |plan| - i
  {
    if i == |plan| {
      k := i;
      if i > 0 {
        InvokeNext(w, event, before, plan, i - 1);
      }
    } else {
      InvokeNext(w, event, before, plan, i);
      assert plan[i..][0] == plan[i] && plan[i..][1..] == plan[i + 1..];
      if Stops(w, before + plan[..i], plan[i]) {
        k := i + 1;
      } else {
        k := PlayIsCut(w, event, before, plan, i + 1);
      }
    }
  }

  /** The calls a dispatch makes, after whatever came before, are exactly the plan up to and including the
      first call that declines the event or empties the pointer, and that call alone decides where the event
      is.  An empty pointer is dispatched to nobody. */
  lemma DispatchStopsAtFirst(w: Handlers, hs: seq<nat>, event: Type, s: State)
    ensures s.fate == Held ==> exists k: nat :: Cut(w, event, s.calls, Plan(w, hs, event), Dispatch(w, hs, event, s), k)
    ensures s.fate != Held ==> Dispatch(w, hs, event, s) == s
  {
    if s.fate == Held {
      var plan := Plan(w, hs, event);
      DispatchFollowsPlan(w, hs, event, s);
      assert plan[0..] == plan && State(s.calls + plan[..0], Held) == s;
      var k := PlayIsCut(w, event, s.calls, plan, 0);
      assert Cut(w, event, s.calls, plan, Dispatch(w, hs, event, s), k);
    }
  }

  /** There is only one place to cut. */
  lemma CutIsUnique(w: Handlers, before: seq<Call>, plan: seq<Call>, j: nat, k: nat)
    requires CutAt(w, before, plan, j) && CutAt(w, before, plan, k)
    ensures j == k
  {
    if j < k {
      CutNotBefore(w, before, plan, j, k);
    } else if k < j {
      CutNotBefore(w, before, plan, k, j);
    }
  }

  lemma CutNotBefore(w: Handlers, before: seq<Call>, plan: seq<Call>, j: nat, k: nat)
    requires CutAt(w, before, plan, j) && j < k <= |plan|
    ensures !CutAt(w, before, plan, k)
  {
    assert Stops(w, before + plan[..j - 1], plan[j - 1]);
  }

  // ---------- where the event ends up ----------

  /** Call `i` of the plan would be made, and would take the event out of the dispatched pointer with this
      effect: said of the handlers alone, before anything is dispatched. */
  ghost predicate Empties(w: Handlers, before: seq<Call>, plan: seq<Call>, i: nat, effect: Effect) {
    i < |plan| && Reached(w, before, plan, i) && effect != Keep && w.reply(before + plan[..i], plan[i]).effect == effect
  }

  lemma EmptyingCutsHere(w: Handlers, event: Type, before: seq<Call>, plan: seq<Call>, s: State, k: nat, i: nat,
                         effect: Effect)
    requires Cut(w, event, before, plan, s, k) && Empties(w, before, plan, i, effect)
    ensures s.fate == FateOf(plan[i].view == event, effect)
  {
    assert Stops(w, before + plan[..i], plan[i]);
    assert CutAt(w, before, plan, i + 1);
    CutIsUnique(w, before, plan, k, i + 1);
  }

  lemma CutByEmptying(w: Handlers, event: Type, before: seq<Call>, plan: seq<Call>, s: State, k: nat)
    requires Cut(w, event, before, plan, s, k) && s.fate != Held
    ensures k > 0 && Empties(w, before, plan, k - 1, w.reply(before + plan[..k - 1], plan[k - 1]).effect)
  {
  }

  /** Where a dispatched event ends up, said of the plan: it is lost if and only if a call that is reached
      resets or moves a view of a base type, bare if and only if one releases, moved if and only if one
      moves the owning pointer, and otherwise back in its pool. */
  lemma WhereTheEventEndsUp(w: Handlers, hs: seq<nat>, event: Type, s: State)
    requires s.fate == Held
    ensures var plan, fate := Plan(w, hs, event), DispatchOwned(w, hs, event, s).fate;
            && (fate == Lost <==>
                exists i: nat, e ::
                  Empties(w, s.calls, plan, i, e) && plan[i].view != event && (e == Reset || e == Move))
            && (fate == Bare <==> exists i: nat :: Empties(w, s.calls, plan, i, Release))
            && (fate == Moved <==> exists i: nat :: Empties(w, s.calls, plan, i, Move) && plan[i].view == event)
            && fate != Held
            && forall i: nat, e :: Empties(w, s.calls, plan, i, e) ==> fate == FateOf(plan[i].view == event, e)
  {
    var plan, s' := Plan(w, hs, event), Dispatch(w, hs, event, s);
    DispatchStopsAtFirst(w, hs, event, s);
    var k: nat :| Cut(w, event, s.calls, plan, s', k);
    forall i: nat, e | Empties(w, s.calls, plan, i, e) ensures s'.fate == FateOf(plan[i].view == event, e) {
      EmptyingCutsHere(w, event, s.calls, plan, s', k, i, e);
    }
    if s'.fate != Held {
      CutByEmptying(w, event, s.calls, plan, s', k);
    }
  }

  /** A dispatched temporary is back in its pool or in the hands of a handler that owns it, if and only if
      no call that is reached releases its pointer, and none resets or moves a view of a base type. */
  lemma AccountedForIffNoViewEmptied(w: Handlers, hs: seq<nat>, event: Type, s: State)
    requires s.fate == Held
    ensures var plan, fate := Plan(w, hs, event), DispatchOwned(w, hs, event, s).fate;
            (fate == Freed || fate == Moved) <==>
            forall i: nat, e :: Empties(w, s.calls, plan, i, e) ==> e != Release && plan[i].view == event
  {
    WhereTheEventEndsUp(w, hs, event, s);
  }

  /** One handler with an overload for the base type, which resets what it is given: the event is lost. */
  lemma ResetInBaseHandlerLosesEvent(base: Type, event: Type, h: nat)
    requires event.bases == [base] && base.bases == [] && base != event
    ensures var w := Handlers((_, t) => if t == base then Void else Absent, (_, _) => Reply(true, Reset));
            DispatchOwned(w, [h], event, State([], Held)) == State([Call(h, base)], Lost)
  {
    var w := Handlers((_, t) => if t == base then Void else Absent, (_, _) => Reply(true, Reset));
    var s := State([], Held);
    var s' := State([Call(h, base)], Lost);
    assert TraverseBases(w, h, event, base.bases, s) == Outcome(s, true);
    assert Traverse(w, h, event, base, s) == Outcome(s', false);
    assert TraverseBases(w, h, event, [base], s) == Outcome(s', false);
    assert Traverse(w, h, event, event, s) == Outcome(s', false);
    assert DispatchFrom(w, [h], event, s) == Outcome(s', false);
  }
}
