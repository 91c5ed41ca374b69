/** The ring between two threads: one producer and one consumer, each step one load or store.

The state is the code's own: the buffer, the two indices and what each thread has in its hands.  What was
accepted and what was returned is read off the calls. */
module SpscRuns {
  import opened Options
  import opened Rings

  datatype Producer<T> =
    | Away
    | LoadedWrite(x: T, w: nat)   // push: own index loaded
    | SawRoom(x: T, w: nat)       // push: the read index was not next
    | WroteSlot(x: T, w: nat)     // push: the item is in the slot, not yet published

  datatype Consumer<T> =
    | Idle
    | LoadedRead(r: nat)          // pop: own index loaded
    | SawItem(r: nat)             // pop: the write index was elsewhere
    | TookItem(r: nat, item: T)   // pop: the item is read, the slot not yet given back

  datatype State<T> = State(ring: seq<T>, w: nat, r: nat, producer: Producer<T>, consumer: Consumer<T>)

  datatype Action<T> =
    | PushLoad(x: T) | PushFull | PushRoom | PushWrite | PushPublish
    | PopLoad | PopEmpty | PopItem | PopRead | PopRelease

  predicate Enabled<T>(s: State<T>, a: Action<T>) {
    match a
    case PushLoad(_) => s.producer.Away?
    case PushFull => s.producer.LoadedWrite? && s.producer.w < |s.ring| && Next(s.producer.w, |s.ring|) == s.r
    case PushRoom => s.producer.LoadedWrite? && s.producer.w < |s.ring| && Next(s.producer.w, |s.ring|) != s.r
    case PushWrite => s.producer.SawRoom?
    case PushPublish => s.producer.WroteSlot?
    case PopLoad => s.consumer.Idle?
    case PopEmpty => s.consumer.LoadedRead? && s.consumer.r == s.w
    case PopItem => s.consumer.LoadedRead? && s.consumer.r != s.w
    case PopRead => s.consumer.SawItem?
    case PopRelease => s.consumer.TookItem?
  }

  function Apply<T>(s: State<T>, a: Action<T>): State<T>
    requires Enabled(s, a)
  {
    match a
    case PushLoad(x) => s.(producer := LoadedWrite(x, s.w))
    case PushFull => s.(producer := Away)
    case PushRoom => s.(producer := SawRoom(s.producer.x, s.producer.w))
    case PushWrite =>
      if s.producer.w < |s.ring| then
        s.(ring := s.ring[s.producer.w := s.producer.x], producer := WroteSlot(s.producer.x, s.producer.w))
      else s
    case PushPublish =>
      if s.producer.w < |s.ring| then
        s.(w := Next(s.producer.w, |s.ring|), producer := Away)
      else s
    case PopLoad => s.(consumer := LoadedRead(s.r))
    case PopEmpty => s.(consumer := Idle)
    case PopItem => s.(consumer := SawItem(s.consumer.r))
    case PopRead =>
      if s.consumer.r < |s.ring| then s.(consumer := TookItem(s.consumer.r, s.ring[s.consumer.r])) else s
    case PopRelease =>
      if s.consumer.r < |s.ring| then
        s.(r := Next(s.consumer.r, |s.ring|), consumer := Idle)
      else s
  }

  function Init<T>(ring: seq<T>): State<T> { State(ring, 0, 0, Away, Idle) }

  /** What is published and not yet given back. */
  function Held<T>(s: State<T>): seq<T>
    requires s.w < |s.ring| && s.r < |s.ring|
  {
    Items(s.ring, s.r, s.w)
  }

  ghost predicate Inv<T>(s: State<T>) {
    && s.w < |s.ring| && s.r < |s.ring|
    && (!s.producer.Away? ==> s.producer.w == s.w)
    && (s.producer.SawRoom? || s.producer.WroteSlot? ==> Next(s.w, |s.ring|) != s.r)
    && (s.producer.WroteSlot? ==> s.ring[s.w] == s.producer.x)
    && (!s.consumer.Idle? ==> s.consumer.r == s.r)
    && (s.consumer.SawItem? || s.consumer.TookItem? ==> s.r != s.w)
    && (s.consumer.TookItem? ==> s.consumer.item == s.ring[s.r])
  }

  // ---------- what callers see ----------

  /** What a step adds to the items accepted: the argument of the push that is published in it. */
  function Accepts<T>(s: State<T>, a: Action<T>): seq<T> {
    if a.PushPublish? && !s.producer.Away? then [s.producer.x] else []
  }

  /** What a step adds to the items returned: the result of the pop that ends in it. */
  function Returns<T>(s: State<T>, a: Action<T>): seq<T> {
    if a.PopRelease? && s.consumer.TookItem? then [s.consumer.item] else []
  }

  /** The argument of the latest call of `push` in the first `k` steps. */
  function Argument<T>(actions: seq<Action<T>>, k: nat): Option<T>
    requires k <= |actions|
  {
    if k == 0 then None
    else if actions[k - 1].PushLoad? then Some(actions[k - 1].x)
    else Argument(actions, k - 1)
  }

  /** The arguments of the pushes that were published in the first `k` steps, read off the calls alone. */
  function Accepted<T>(actions: seq<Action<T>>, k: nat): seq<T>
    requires k <= |actions|
  {
    if k == 0 then []
    else
      Accepted(actions, k - 1) +
      if actions[k - 1].PushPublish? && Argument(actions, k - 1).Some? then [Argument(actions, k - 1).value] else []
  }

  /** The results of the pops that took an item in the first `k` steps, in order. */
  function Returned<T>(trace: seq<State<T>>, actions: seq<Action<T>>, k: nat): seq<T>
    requires k <= |actions| <= |trace|
  {
    if k == 0 then [] else Returned(trace, actions, k - 1) + Returns(trace[k - 1], actions[k - 1])
  }

  // ---------- each step keeps the invariant ----------

  /** The held items grow at the back by what is accepted and shrink at the front by what is returned. */
  ghost predicate Moves<T>(s: State<T>, a: Action<T>, s': State<T>)
    requires Inv(s)
  {
    Inv(s') && |s'.ring| == |s.ring| && Held(s) + Accepts(s, a) == Returns(s, a) + Held(s')
  }

  lemma WriteMoves<T>(s: State<T>)
    requires Inv(s) && s.producer.SawRoom?
    ensures Moves(s, PushWrite, Apply(s, PushWrite))
  {
    WriteSpareSlot(s.ring, s.r, s.w, s.producer.x);
  }

  lemma PublishMoves<T>(s: State<T>)
    requires Inv(s) && s.producer.WroteSlot?
    ensures Moves(s, PushPublish, Apply(s, PushPublish))
  {
    Publish(s.ring, s.r, s.w);
  }

  lemma ReleaseMoves<T>(s: State<T>)
    requires Inv(s) && s.consumer.TookItem?
    ensures Moves(s, PopRelease, Apply(s, PopRelease))
  {
    Consume(s.ring, s.r, s.w);
  }

  /** A step that writes no slot and moves no index. */
  lemma QuietMoves<T>(s: State<T>, a: Action<T>)
    requires Inv(s) && Enabled(s, a) && !a.PushWrite? && !a.PushPublish? && !a.PopRelease?
    ensures Moves(s, a, Apply(s, a))
  {
  }

  lemma StepKeepsInv<T>(s: State<T>, a: Action<T>)
    requires Inv(s) && Enabled(s, a)
    ensures Inv(Apply(s, a)) && |Apply(s, a).ring| == |s.ring|
    ensures Held(s) + Accepts(s, a) == Returns(s, a) + Held(Apply(s, a))
  {
    match a
    case PushWrite => WriteMoves(s);
    case PushPublish => PublishMoves(s);
    case PopRelease => ReleaseMoves(s);
    case _ => QuietMoves(s, a);
  }

  // ---------- runs ----------

  /** Action `i` leads on to the next state. */
  ghost predicate Stepped<T>(trace: seq<State<T>>, actions: seq<Action<T>>, i: nat)
    requires i < |actions| && i + 1 < |trace|
  {
    Enabled(trace[i], actions[i]) && trace[i + 1] == Apply(trace[i], actions[i])
  }

  ghost predicate IsRun<T>(size: nat, trace: seq<State<T>>, actions: seq<Action<T>>) {
    && size >= 1 && |trace| == |actions| + 1
    && |trace[0].ring| == size && trace[0] == Init(trace[0].ring)
    && forall i :: 0 <= i < |actions| ==> Stepped(trace, actions, i)
  }

  lemma {:induction false} RunKeepsInv<T>(size: nat, trace: seq<State<T>>, actions: seq<Action<T>>, k: nat)
    requires IsRun(size, trace, actions) && k < |trace|
    ensures Inv(trace[k]) && |trace[k].ring| == size
  {
    if k > 0 {
      RunKeepsInv(size, trace, actions, k - 1);
      assert Stepped(trace, actions, k - 1);
      StepKeepsInv(trace[k - 1], actions[k - 1]);
    }
  }

  /** What the producer has in its hands is the argument it was called with. */
  lemma {:induction false} ArgumentInHand<T>(size: nat, trace: seq<State<T>>, actions: seq<Action<T>>, k: nat)
    requires IsRun(size, trace, actions) && k < |trace|
    ensures !trace[k].producer.Away? ==> Argument(actions, k) == Some(trace[k].producer.x)
  {
    if k > 0 && !trace[k].producer.Away? {
      ArgumentInHand(size, trace, actions, k - 1);
      assert Stepped(trace, actions, k - 1);
      KeepsArgument(trace[k - 1], actions[k - 1]);
    }
  }

  lemma KeepsArgument<T>(s: State<T>, a: Action<T>)
    requires Enabled(s, a) && !Apply(s, a).producer.Away?
    ensures if a.PushLoad? then Apply(s, a).producer.x == a.x
            else !s.producer.Away? && Apply(s, a).producer.x == s.producer.x
  {
  }

  lemma AcceptedNext<T>(size: nat, trace: seq<State<T>>, actions: seq<Action<T>>, k: nat)
    requires IsRun(size, trace, actions) && k < |actions|
    ensures Accepted(actions, k + 1) == Accepted(actions, k) + Accepts(trace[k], actions[k])
  {
    assert Stepped(trace, actions, k);
    ArgumentInHand(size, trace, actions, k);
  }

  /** What was accepted is what was returned, followed by what the ring holds. */
  ghost predicate Fifo<T>(s: State<T>, accepted: seq<T>, returned: seq<T>) {
    Inv(s) && accepted == returned + Held(s)
  }

  lemma StillFifo<T>(accepted: seq<T>, returned: seq<T>, held: seq<T>, more: seq<T>, less: seq<T>, held': seq<T>)
    requires accepted == returned + held && held + more == less + held'
    ensures accepted + more == returned + less + held'
  {
    assert returned + held + more == returned + (held + more);
    assert returned + less + held' == returned + (less + held');
  }

  lemma FifoStep<T>(trace: seq<State<T>>, actions: seq<Action<T>>, k: nat, accepted: seq<T>, returned: seq<T>)
    requires k < |actions| && k + 1 < |trace| && Stepped(trace, actions, k) && Fifo(trace[k], accepted, returned)
    ensures Fifo(trace[k + 1], accepted + Accepts(trace[k], actions[k]), returned + Returns(trace[k], actions[k]))
  {
    var s, a, s' := trace[k], actions[k], trace[k + 1];
    StepKeepsInv(s, a);
    StillFifo(accepted, returned, Held(s), Accepts(s, a), Returns(s, a), Held(s'));
  }

  lemma {:induction false} RunFifo<T>(size: nat, trace: seq<State<T>>, actions: seq<Action<T>>, k: nat)
    requires IsRun(size, trace, actions) && k < |trace|
    ensures Fifo(trace[k], Accepted(actions, k), Returned(trace, actions, k))
  {
    if k > 0 {
      RunFifo(size, trace, actions, k - 1);
      AcceptedNext(size, trace, actions, k - 1);
      FifoStep(trace, actions, k - 1, Accepted(actions, k - 1), Returned(trace, actions, k - 1));
    }
  }

  /** In every interleaving the results of the pops, in order, are a prefix of the arguments of the accepted
      pushes, and what lies between is what the ring holds, never more than size - 1 items: nothing is lost,
      repeated, reordered or made up. */
  lemma RunIsFifo<T>(size: nat, trace: seq<State<T>>, actions: seq<Action<T>>, k: nat)
    requires IsRun(size, trace, actions) && k < |trace|
    ensures Inv(trace[k]) && Accepted(actions, k) == Returned(trace, actions, k) + Held(trace[k])
    ensures Returned(trace, actions, k) <= Accepted(actions, k)
    ensures |Accepted(actions, k)| - |Returned(trace, actions, k)| <= size - 1
  {
    RunFifo(size, trace, actions, k);
    RunKeepsInv(size, trace, actions, k);
    FullAndEmpty(trace[k].ring, trace[k].r, trace[k].w);
  }

  /** A refused push saw the ring full, a pop that took nothing saw it empty, at the very instant of its
      check. */
  lemma FailuresAreHonest<T>(size: nat, trace: seq<State<T>>, actions: seq<Action<T>>, k: nat)
    requires IsRun(size, trace, actions) && k < |actions|
    ensures actions[k].PushFull? ==> |Accepted(actions, k)| - |Returned(trace, actions, k)| == size - 1
    ensures actions[k].PopEmpty? ==> Accepted(actions, k) == Returned(trace, actions, k)
  {
    RunIsFifo(size, trace, actions, k);
    RunKeepsInv(size, trace, actions, k);
    assert Stepped(trace, actions, k);
    FullAndEmpty(trace[k].ring, trace[k].r, trace[k].w);
  }

  /** The step in which a `pop` returns, and what its caller gets when the items are pointers. */
  predicate PopReturns<P>(a: Action<Option<P>>) { a.PopEmpty? || a.PopRelease? }

  function PopResult<P>(s: State<Option<P>>, a: Action<Option<P>>): Option<P> {
    if a.PopRelease? && s.consumer.TookItem? then s.consumer.item else None
  }

  lemma NullIsInFront<P>(s: State<Option<P>>, a: Action<Option<P>>)
    requires Inv(s) && Enabled(s, a) && PopReturns(a)
    ensures PopResult(s, a).None? <==> Held(s) == [] || Held(s)[0].None?
  {
    FullAndEmpty(s.ring, s.r, s.w);
    if a.PopRelease? {
      Consume(s.ring, s.r, s.w);
    }
  }

  /** A `pop` returns null if and only if, in the step in which it returns, the ring is empty or the oldest
      pointer in it is null. */
  lemma NullPopIff<P>(size: nat, trace: seq<State<Option<P>>>, actions: seq<Action<Option<P>>>, k: nat)
    requires IsRun(size, trace, actions) && k < |actions| && PopReturns(actions[k])
    ensures |Returned(trace, actions, k)| <= |Accepted(actions, k)|
    ensures var waiting := Accepted(actions, k)[|Returned(trace, actions, k)|..];
            PopResult(trace[k], actions[k]).None? <==> waiting == [] || waiting[0].None?
  {
    RunIsFifo(size, trace, actions, k);
    assert Stepped(trace, actions, k);
    NullIsInFront(trace[k], actions[k]);
    assert Accepted(actions, k)[|Returned(trace, actions, k)|..] == Held(trace[k]);
  }

  /** The producer never writes a slot whose item has not been given back: the step that writes a slot
      leaves every held item, and the item the consumer is reading, as it was. */
  lemma UnreadNeverOverwritten<T>(size: nat, trace: seq<State<T>>, actions: seq<Action<T>>, k: nat)
    requires IsRun(size, trace, actions) && k < |actions| && actions[k].PushWrite?
    ensures Inv(trace[k]) && Inv(trace[k + 1]) && |trace[k + 1].ring| == |trace[k].ring|
    ensures Held(trace[k + 1]) == Held(trace[k])
    ensures Held(trace[k]) != [] ==> trace[k + 1].ring[trace[k].r] == trace[k].ring[trace[k].r]
  {
    RunKeepsInv(size, trace, actions, k);
    RunKeepsInv(size, trace, actions, k + 1);
    assert Stepped(trace, actions, k);
    FullAndEmpty(trace[k].ring, trace[k].r, trace[k].w);
    WriteSpareSlot(trace[k].ring, trace[k].r, trace[k].w, trace[k].producer.x);
  }

  // ---------- a call that nobody disturbs ----------

  /** The steps lead from `s` to `s'` with no other step between them. */
  ghost predicate Leads<T>(s: State<T>, steps: seq<Action<T>>, s': State<T>)
    decreases steps
  {
    if steps == [] then s == s' else Enabled(s, steps[0]) && Leads(Apply(s, steps[0]), steps[1..], s')
  }

  lemma TwoLead<T>(s: State<T>, a: Action<T>, b: Action<T>)
    requires Enabled(s, a) && Enabled(Apply(s, a), b)
    ensures Leads(s, [a, b], Apply(Apply(s, a), b))
  {
    assert [a, b][1..] == [b] && [b][1..] == [];
    assert Leads(Apply(s, a), [b], Apply(Apply(s, a), b));
  }

  lemma FourLead<T>(s: State<T>, a: Action<T>, b: Action<T>, c: Action<T>, d: Action<T>)
    requires Enabled(s, a) && Enabled(Apply(s, a), b)
    requires var s2 := Apply(Apply(s, a), b); Enabled(s2, c) && Enabled(Apply(s2, c), d)
    ensures Leads(s, [a, b, c, d], Apply(Apply(Apply(Apply(s, a), b), c), d))
  {
    var s1 := Apply(s, a);
    var s2 := Apply(s1, b);
    TwoLead(s2, c, d);
    assert [a, b, c, d][1..] == [b, c, d] && [b, c, d][1..] == [c, d];
    assert Leads(s1, [b, c, d], Apply(Apply(s2, c), d));
  }

  lemma PushWithRoom<T>(s: State<T>, x: T) returns (s': State<T>)
    requires Inv(s) && s.producer.Away? && Next(s.w, |s.ring|) != s.r
    ensures Inv(s') && s'.producer.Away? && s'.consumer == s.consumer
    ensures Leads(s, [PushLoad(x), PushRoom, PushWrite, PushPublish], s') && Held(s') == Held(s) + [x]
  {
    var s2 := Apply(Apply(s, PushLoad(x)), PushRoom);
    var s3 := Apply(s2, PushWrite);
    WriteMoves(s2);
    PublishMoves(s3);
    FourLead(s, PushLoad(x), PushRoom, PushWrite, PushPublish);
    s' := Apply(s3, PushPublish);
  }

  /** A push that nobody disturbs appends its item in four steps if there is room, and otherwise leaves
      everything as it was in two. */
  lemma PushAlone<T>(s: State<T>, x: T) returns (s': State<T>)
    requires Inv(s) && s.producer.Away?
    ensures Inv(s') && s'.producer.Away? && s'.consumer == s.consumer
    ensures if |Held(s)| < |s.ring| - 1
            then Leads(s, [PushLoad(x), PushRoom, PushWrite, PushPublish], s') && Held(s') == Held(s) + [x]
            else Leads(s, [PushLoad(x), PushFull], s') && s' == s
  {
    FullAndEmpty(s.ring, s.r, s.w);
    if Next(s.w, |s.ring|) != s.r {
      s' := PushWithRoom(s, x);
    } else {
      TwoLead(s, PushLoad(x), PushFull);
      s' := Apply(Apply(s, PushLoad(x)), PushFull);
    }
  }

  /** A pop that nobody disturbs takes the oldest item in four steps, and it is what its caller gets; with
      nothing there it leaves everything as it was in two. */
  lemma PopAlone<T>(s: State<T>) returns (s': State<T>, s3: State<T>)
    requires Inv(s) && s.consumer.Idle?
    ensures Inv(s') && s'.consumer.Idle? && s'.producer == s.producer
    ensures if Held(s) == [] then Leads(s, [PopLoad, PopEmpty], s') && s' == s
            else
              && Leads(s, [PopLoad, PopItem, PopRead, PopRelease], s')
              && Enabled(s3, PopRelease) && s' == Apply(s3, PopRelease)
              && Returns(s3, PopRelease) == [Held(s)[0]] && Held(s') == Held(s)[1..]
  {
    FullAndEmpty(s.ring, s.r, s.w);
    var s1 := Apply(s, PopLoad);
    s3 := s;
    if s.r == s.w {
      TwoLead(s, PopLoad, PopEmpty);
      s' := Apply(s1, PopEmpty);
    } else {
      s3 := Apply(Apply(s1, PopItem), PopRead);
      ReleaseMoves(s3);
      Consume(s.ring, s.r, s.w);
      FourLead(s, PopLoad, PopItem, PopRead, PopRelease);
      s' := Apply(s3, PopRelease);
    }
  }
}
