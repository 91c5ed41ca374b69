/** The wheel against its specification: a map from node to deadline. */
module WheelRuns {
  import opened Words
  import opened FreeLists
  import opened WheelLists

  /** `live` nodes wait for their deadline; `fired` ones were handed out by `tick` and not scheduled since. */
  datatype Timers = Timers(now: nat, live: map<nat, nat>, fired: set<nat>)

  /** A delay of zero means a full turn of the wheel. */
  function Deadline(now: nat, delay: nat, size: nat): (t: nat)
    requires size > 0
    ensures now < t <= now + size
  {
    now + if Clamp(delay, size) == 0 then size else Clamp(delay, size)
  }

  /** In ticks: the delay itself if it is shorter than a turn, one tick less than a turn if it is not, and a
      full turn for no delay at all or a wheel of one slot. */
  lemma DeadlineInTicks(now: nat, delay: nat, size: nat)
    requires size > 0
    ensures Deadline(now, delay, size) ==
            now + if delay == 0 || size == 1 then size else if delay < size then delay else size - 1
  {
  }

  datatype Op = DoSchedule(n: Word32, delay: nat) | DoCancel(n: Word32) | DoTick

  /** A node is scheduled only while unlinked, and a fired one is not cancelled before it is scheduled again. */
  predicate Legal(t: Timers, nodes: nat, op: Op) {
    match op
    case DoSchedule(n, _) => n < nodes && n !in t.live
    case DoCancel(n) => n < nodes && n !in t.fired
    case DoTick => true
  }

  /** The nodes whose deadline is the next tick. */
  function Due(t: Timers): set<nat> { set n | n in t.live && t.live[n] == t.now + 1 }

  function Spec(t: Timers, size: nat, op: Op): Timers
    requires size > 0
  {
    match op
    case DoSchedule(n, delay) => t.(live := t.live[n as nat := Deadline(t.now, delay, size)], fired := t.fired - {n})
    case DoCancel(n) => t.(live := t.live - {n})
    case DoTick => Timers(t.now + 1, t.live - Due(t), t.fired + Due(t))
  }

  function Impl(w: Wheel, op: Op): Wheel
    requires 0 < |w.slots| < B32 && (op.DoSchedule? || op.DoCancel? ==> op.n < |w.nodes|)
  {
    match op
    case DoSchedule(n, delay) => Schedule(w, n, delay)
    case DoCancel(n) => Cancel(w, n)
    case DoTick => Tick(w)
  }

  // ---------- refinement ----------

  /** Bucket `b` holds exactly the live nodes whose deadline falls into it. */
  ghost predicate Holds(w: Wheel, t: Timers, b: nat)
    requires b < |w.slots|
  {
    forall n :: n in List(w, b) <==> n in t.live && BucketOf(t.live[n], |w.slots|) == b
  }

  ghost predicate Refines(w: Wheel, t: Timers) {
    && WellFormed(w) && w.now == t.now
    && (forall b :: 0 <= b < |w.slots| ==> Holds(w, t, b))
    && WithinOneTurn(w, t)
  }

  /** Live deadlines lie within one turn ahead; nodes neither live nor fired say so themselves. */
  ghost predicate WithinOneTurn(w: Wheel, t: Timers) {
    && (forall n :: n in t.live ==> t.now < t.live[n] <= t.now + |w.slots| && n !in t.fired)
    && (forall n :: 0 <= n < |w.nodes| && n !in t.live && n !in t.fired ==> w.nodes[n].bucket == END)
  }

  /** Within one turn of the wheel, a bucket stands for one deadline. */
  lemma OneDeadline(now: nat, x: nat, y: nat, size: nat)
    requires size > 0 && now < x <= now + size && now < y <= now + size && BucketOf(x, size) == BucketOf(y, size)
    ensures x == y
  {
    if x < y {
      SlotsDiffer(x, y, size);
    } else if y < x {
      SlotsDiffer(y, x, size);
    }
  }

  /** A full turn later the bucket is the same. */
  lemma FullTurn(now: nat, delay: nat, size: nat)
    requires size > 0
    ensures BucketOf(now + Clamp(delay, size), size) == BucketOf(Deadline(now, delay, size), size)
  {
    RemainderUnique(now + size, size, now / size + 1, now % size);
  }

  lemma ScheduleRefines(w: Wheel, t: Timers, n: Word32, delay: nat)
    requires Refines(w, t) && Legal(t, |w.nodes|, DoSchedule(n, delay))
    ensures Refines(Schedule(w, n, delay), Spec(t, |w.slots|, DoSchedule(n, delay)))
  {
    forall b | 0 <= b < |w.slots| ensures n !in List(w, b) {
      assert Holds(w, t, b);
    }
    ScheduleLinks(w, n, delay);
    forall b | 0 <= b < |w.slots| ensures Holds(Schedule(w, n, delay), Spec(t, |w.slots|, DoSchedule(n, delay)), b) {
      ScheduleHolds(w, t, n, delay, b);
    }
    ScheduleWithinOneTurn(w, t, n, delay);
  }

  lemma ScheduleHolds(w: Wheel, t: Timers, n: Word32, delay: nat, b: nat)
    requires 0 < |w.slots| < B32 && n < |w.nodes| && b < |w.slots| && Holds(w, t, b) && w.now == t.now && n !in t.live
    requires List(Schedule(w, n, delay), b) ==
             if b == BucketOf(w.now + Clamp(delay, |w.slots|), |w.slots|) then [n as nat] + List(w, b) else List(w, b)
    ensures Holds(Schedule(w, n, delay), Spec(t, |w.slots|, DoSchedule(n, delay)), b)
  {
    FullTurn(w.now, delay, |w.slots|);
  }

  lemma ScheduleWithinOneTurn(w: Wheel, t: Timers, n: Word32, delay: nat)
    requires 0 < |w.slots| < B32 && n < |w.nodes| && WithinOneTurn(w, t) && w.now == t.now
    ensures WithinOneTurn(Schedule(w, n, delay), Spec(t, |w.slots|, DoSchedule(n, delay)))
  {
    assert forall k :: 0 <= k < |w.nodes| && k != n ==> Schedule(w, n, delay).nodes[k].bucket == w.nodes[k].bucket;
  }

  /** A live node is somewhere on the list its deadline says. */
  lemma Locate(w: Wheel, t: Timers, n: nat) returns (b: nat, i: nat)
    requires Refines(w, t) && n in t.live
    ensures b == BucketOf(t.live[n], |w.slots|) < |w.slots| && i < |List(w, b)| && List(w, b)[i] == n < |w.nodes|
    ensures w.nodes[n].bucket == b
  {
    b := BucketOf(t.live[n], |w.slots|);
    assert Holds(w, t, b);
    i :| 0 <= i < |List(w, b)| && List(w, b)[i] == n;
    assert Linked(w.nodes, w.slots[b], b, List(w, b));
    assert w.nodes[List(w, b)[i]].bucket == b;
  }

  lemma CancelRefines(w: Wheel, t: Timers, n: Word32)
    requires Refines(w, t) && Legal(t, |w.nodes|, DoCancel(n))
    ensures Refines(Cancel(w, n), Spec(t, |w.slots|, DoCancel(n)))
  {
    if n in t.live {
      var b, i := Locate(w, t, n);
      CancelLinks(w, b, i);
      forall c | 0 <= c < |w.slots| ensures Holds(Cancel(w, n), Spec(t, |w.slots|, DoCancel(n)), c) {
        assert Holds(w, t, b) && Holds(w, t, c) && Linked(w.nodes, w.slots[b], b, List(w, b));
        CancelHolds(w, t, b, i, c, n, Cancel(w, n), Spec(t, |w.slots|, DoCancel(n)));
      }
      CancelOthersKeepBucket(w, n);
    } else {
      assert Spec(t, |w.slots|, DoCancel(n)) == t;
    }
  }

  lemma CancelHolds(w: Wheel, t: Timers, b: nat, i: nat, c: nat, n: nat, w': Wheel, t': Timers)
    requires b < |w.slots| == |w'.slots| && c < |w.slots| && Holds(w, t, b) && Holds(w, t, c)
    requires Distinct(List(w, b)) && i < |List(w, b)| && n == List(w, b)[i]
    requires List(w', c) == if c == b then List(w, b)[..i] + List(w, b)[i + 1..] else List(w, c)
    requires t' == t.(live := t.live - {n})
    ensures Holds(w', t', c)
  {
    RemovedOnce(List(w, b), i);
    assert n in List(w, b);
    assert forall x :: x in t'.live <==> x in t.live && x != n;
  }

  lemma CancelOthersKeepBucket(w: Wheel, n: Word32)
    requires n < |w.nodes|
    ensures forall k :: 0 <= k < |w.nodes| && k != n ==> Cancel(w, n).nodes[k].bucket == w.nodes[k].bucket
    ensures Cancel(w, n).nodes[n].bucket == END && |Cancel(w, n).nodes| == |w.nodes|
  {
  }

  lemma RemovedOnce(xs: seq<nat>, i: nat)
    requires Distinct(xs) && i < |xs|
    ensures forall x :: x in xs[..i] + xs[i + 1..] <==> x in xs && x != xs[i]
  {
    var ys := xs[..i] + xs[i + 1..];
    forall x ensures x in ys <==> x in xs && x != xs[i] {
      if x in xs && x != xs[i] {
        var k :| 0 <= k < |xs| && xs[k] == x;
        assert ys[if k < i then k else k - 1] == x;
      }
    }
  }

  /** `tick` returns the head of a list of exactly the nodes that are due, each once, readable by
      following `timer_next` afterwards. */
  lemma TickFiresExactlyTheDue(w: Wheel, t: Timers) returns (xs: seq<nat>)
    requires Refines(w, t)
    ensures Chain(Nexts(Tick(w).nodes), Expired(w), xs) && Distinct(xs)
    ensures forall n :: n in xs <==> n in Due(t)
  {
    var b := BucketOf(w.now + 1, |w.slots|);
    xs := List(w, b);
    assert Holds(w, t, b) && Linked(w.nodes, w.slots[b], b, xs);
    forall n ensures n in xs <==> n in Due(t) {
      if n in xs {
        OneDeadline(t.now, t.live[n], t.now + 1, |w.slots|);
      }
    }
  }

  lemma TickRefines(w: Wheel, t: Timers)
    requires Refines(w, t)
    ensures Refines(Tick(w), Spec(t, |w.slots|, DoTick))
  {
    var w', t' := Tick(w), Spec(t, |w.slots|, DoTick);
    var b := BucketOf(w.now + 1, |w.slots|);
    TickLinks(w);
    forall c | 0 <= c < |w.slots| ensures Holds(w', t', c) {
      assert Holds(w, t, c);
      forall n ensures n in List(w', c) <==> n in t'.live && BucketOf(t'.live[n], |w.slots|) == c {
        if n in t.live && BucketOf(t.live[n], |w.slots|) == c == b {
          OneDeadline(t.now, t.live[n], t.now + 1, |w.slots|);
        }
      }
    }
  }

  /** Every legal operation on a wheel that refines its specification leaves it so. */
  lemma OpRefines(w: Wheel, t: Timers, op: Op)
    requires Refines(w, t) && Legal(t, |w.nodes|, op)
    ensures Refines(Impl(w, op), Spec(t, |w.slots|, op))
    ensures |Impl(w, op).slots| == |w.slots| && |Impl(w, op).nodes| == |w.nodes|
  {
    match op
    case DoSchedule(n, delay) => ScheduleRefines(w, t, n, delay);
    case DoCancel(n) => CancelRefines(w, t, n);
    case DoTick => TickRefines(w, t);
  }

  // ---------- runs ----------

  ghost predicate LegalRun(t: Timers, size: nat, nodes: nat, ops: seq<Op>)
    requires size > 0
    decreases ops
  {
    ops == [] || (Legal(t, nodes, ops[0]) && LegalRun(Spec(t, size, ops[0]), size, nodes, ops[1..]))
  }

  function SpecRun(t: Timers, size: nat, ops: seq<Op>): Timers
    requires size > 0
    decreases ops
  {
    if ops == [] then t else SpecRun(Spec(t, size, ops[0]), size, ops[1..])
  }

  ghost function ImplRun(w: Wheel, t: Timers, ops: seq<Op>): (r: Wheel)
    requires Refines(w, t) && LegalRun(t, |w.slots|, |w.nodes|, ops)
    ensures Refines(r, SpecRun(t, |w.slots|, ops)) && |r.slots| == |w.slots| && |r.nodes| == |w.nodes|
    decreases ops
  {
    if ops == [] then w
    else
      OpRefines(w, t, ops[0]);
      ImplRun(Impl(w, ops[0]), Spec(t, |w.slots|, ops[0]), ops[1..])
  }

  function Fresh(size: nat, nodes: nat): Wheel {
    Wheel(seq(size, _ => END), seq(nodes, _ => Node(END, END, END)), 0)
  }

  lemma FreshRefines(size: nat, nodes: nat)
    requires 0 < size < B32 && nodes <= SENTINEL
    ensures Refines(Fresh(size, nodes), Timers(0, map[], {}))
  {
    var w := Fresh(size, nodes);
    forall b | 0 <= b < size ensures List(w, b) == [] && Linked(w.nodes, w.slots[b], b, []) {
    }
    forall b | 0 <= b < size ensures Holds(w, Timers(0, map[], {}), b) {
    }
  }

  function Ticks(ops: seq<Op>): nat {
    if ops == [] then 0 else (if ops[0].DoTick? then 1 else 0) + Ticks(ops[1..])
  }

  lemma {:induction false} StaysArmed(t: Timers, size: nat, nodes: nat, ops: seq<Op>, n: Word32)
    requires size > 0 && LegalRun(t, size, nodes, ops) && n in t.live
    requires DoCancel(n) !in ops && t.now + Ticks(ops) < t.live[n]
    ensures n in SpecRun(t, size, ops).live && SpecRun(t, size, ops).live[n] == t.live[n]
    ensures SpecRun(t, size, ops).now == t.now + Ticks(ops)
    decreases ops
  {
    if ops != [] {
      assert ops[0] in ops;
      assert forall op :: op in ops[1..] ==> op in ops;
      StaysArmed(Spec(t, size, ops[0]), size, nodes, ops[1..], n);
    }
  }

  /** A timer that is not cancelled fires at its deadline, neither earlier nor later, whatever else
      happens: after any legal operations with `k` ticks short of the deadline, the next tick's list
      contains the node if and only if that tick is the deadline. */
  lemma FiresOnTime(w: Wheel, t: Timers, ops: seq<Op>, n: Word32) returns (xs: seq<nat>)
    requires Refines(w, t) && LegalRun(t, |w.slots|, |w.nodes|, ops) && n in t.live
    requires DoCancel(n) !in ops && t.now + Ticks(ops) < t.live[n]
    ensures var w' := ImplRun(w, t, ops);
            Chain(Nexts(Tick(w').nodes), Expired(w'), xs) && (n in xs <==> t.now + Ticks(ops) + 1 == t.live[n])
  {
    StaysArmed(t, |w.slots|, |w.nodes|, ops, n);
    xs := TickFiresExactlyTheDue(ImplRun(w, t, ops), SpecRun(t, |w.slots|, ops));
  }

  /** From `schedule` to the tick: a node armed with a delay and not cancelled is in the list of the tick that
      many ticks later and of no earlier one, whatever else is scheduled, cancelled and fired meanwhile. */
  lemma FiresAfterItsDelay(w: Wheel, t: Timers, n: Word32, delay: nat, ops: seq<Op>, after: nat) returns (xs: seq<nat>)
    requires Refines(w, t) && Legal(t, |w.nodes|, DoSchedule(n, delay))
    requires LegalRun(Spec(t, |w.slots|, DoSchedule(n, delay)), |w.slots|, |w.nodes|, ops) && DoCancel(n) !in ops
    requires after == if delay == 0 || |w.slots| == 1 then |w.slots| else if delay < |w.slots| then delay
                      else |w.slots| - 1
    requires Ticks(ops) < after
    ensures Refines(Schedule(w, n, delay), Spec(t, |w.slots|, DoSchedule(n, delay)))
    ensures |Schedule(w, n, delay).slots| == |w.slots| && |Schedule(w, n, delay).nodes| == |w.nodes|
    ensures var w' := ImplRun(Schedule(w, n, delay), Spec(t, |w.slots|, DoSchedule(n, delay)), ops);
            Chain(Nexts(Tick(w').nodes), Expired(w'), xs) && (n in xs <==> Ticks(ops) + 1 == after)
  {
    DeadlineInTicks(t.now, delay, |w.slots|);
    OpRefines(w, t, DoSchedule(n, delay));
    xs := FiresOnTime(Schedule(w, n, delay), Spec(t, |w.slots|, DoSchedule(n, delay)), ops, n);
  }

  // ---------- schedule, then cancel ----------

  /** Scheduling a node and cancelling it restores every bucket head and every other node exactly. */
  lemma ScheduleThenCancel(w: Wheel, t: Timers, n: Word32, delay: nat)
    requires Refines(w, t) && n < |w.nodes| && n !in t.live
    ensures Cancel(Schedule(w, n, delay), n).slots == w.slots && Cancel(Schedule(w, n, delay), n).now == w.now
    ensures |Cancel(Schedule(w, n, delay), n).nodes| == |w.nodes|
    ensures forall k :: 0 <= k < |w.nodes| && k != n ==> Cancel(Schedule(w, n, delay), n).nodes[k] == w.nodes[k]
    ensures Cancel(Schedule(w, n, delay), n).nodes[n].bucket == END
  {
    var b := BucketOf(w.now + Clamp(delay, |w.slots|), |w.slots|);
    var h := w.slots[b];
    assert Holds(w, t, b) && Linked(w.nodes, h, b, List(w, b));
    if h != END {
      assert h == List(w, b)[0] && h in List(w, b);
      assert w.nodes[List(w, b)[0]].prev == END;
    }
  }

  // ---------- cancelling a fired node ----------

  /** Every link that cancelling `n` would write is already what it would become, or belongs to a node
      that is on no list. */
  ghost predicate LinksAgree(w: Wheel, t: Timers, n: Word32)
    requires n < |w.nodes|
  {
    var Node(next, prev, b) := w.nodes[n];
    b == END ||
    (&& (prev == END && b < |w.slots| ==> w.slots[b] == next)
     && (prev != END && (prev as nat) in t.live && prev < |w.nodes| ==> w.nodes[prev].next == next)
     && (next != END && (next as nat) in t.live && next < |w.nodes| ==> w.nodes[next].prev == prev))
  }

  /** Cancelling a node after it fired keeps the wheel right if and only if those links agree. */
  lemma CancelFiredIff(w: Wheel, t: Timers, n: Word32)
    requires Refines(w, t) && n < |w.nodes| && n in t.fired
    ensures Refines(Cancel(w, n), t.(fired := t.fired - {n})) <==> LinksAgree(w, t, n)
  {
    if LinksAgree(w, t, n) {
      AgreeingCancel(w, t, n);
    } else if Refines(Cancel(w, n), t.(fired := t.fired - {n})) {
      DisagreeingCancel(w, t, n);
    }
  }

  lemma AgreeingCancel(w: Wheel, t: Timers, n: Word32)
    requires Refines(w, t) && n < |w.nodes| && n in t.fired && LinksAgree(w, t, n)
    ensures Refines(Cancel(w, n), t.(fired := t.fired - {n}))
  {
    var w', t' := Cancel(w, n), t.(fired := t.fired - {n});
    CancelOthersKeepBucket(w, n);
    AgreeingWrites(w, t, n);
    forall b | 0 <= b < |w.slots| ensures Linked(w'.nodes, w'.slots[b], b, List(w', b)) && Holds(w', t', b) {
      var xs := List(w, b);
      assert Holds(w, t, b) && Linked(w.nodes, w.slots[b], b, xs);
      ChainElements(Nexts(w.nodes), w.slots[b], xs);
      LinkedFrame(w.nodes, w'.nodes, w.slots[b], b, xs);
      LinkedIsList(w', b, xs);
    }
  }

  lemma AgreeingWrites(w: Wheel, t: Timers, n: Word32)
    requires n < |w.nodes| && n !in t.live && LinksAgree(w, t, n)
    ensures Cancel(w, n).slots == w.slots && |Cancel(w, n).nodes| == |w.nodes|
    ensures forall x :: x in t.live && x < |w.nodes| ==> Cancel(w, n).nodes[x] == w.nodes[x]
  {
  }

  lemma DisagreeingCancel(w: Wheel, t: Timers, n: Word32)
    requires Refines(w, t) && n < |w.nodes| && n in t.fired
    requires Refines(Cancel(w, n), t.(fired := t.fired - {n}))
    ensures LinksAgree(w, t, n)
  {
    var w' := Cancel(w, n);
    var Node(next, prev, b) := w.nodes[n];
    if b != END {
      if prev == END {
        if b < |w.slots| {
          HeadUnchanged(w, t, n, b);
        }
      } else if (prev as nat) in t.live {
        NextUnchanged(w, t, n);
      }
      if next != END && (next as nat) in t.live {
        PrevUnchanged(w, t, n);
      }
    }
  }

  lemma HeadUnchanged(w: Wheel, t: Timers, n: Word32, b: nat)
    requires Refines(w, t) && n < |w.nodes| && n in t.fired && w.nodes[n].prev == END
    requires w.nodes[n].bucket == b < |w.slots|
    requires Refines(Cancel(w, n), t.(fired := t.fired - {n})) && b != END
    ensures w.slots[b] == w.nodes[n].next
  {
    var w' := Cancel(w, n);
    assert Holds(w, t, b) && Holds(w', t.(fired := t.fired - {n}), b);
    assert Linked(w.nodes, w.slots[b], b, List(w, b)) && Linked(w'.nodes, w'.slots[b], b, List(w', b));
    assert Nexts(w'.nodes) == Nexts(w.nodes);
    SameCellsSameStart(Nexts(w.nodes), w.slots[b], List(w, b), w'.slots[b], List(w', b));
  }

  lemma {:induction false} RelinkedMustAgree(memory: seq<Word32>, p: nat, q: Word32, head: nat, xs: seq<nat>,
                                             ys: seq<nat>)
    requires |memory| <= SENTINEL && p < |memory| && p in xs
    requires Chain(memory, head, xs) && Distinct(xs) && Chain(memory[p := q], head, ys) && Distinct(ys)
    requires forall c :: c in xs <==> c in ys
    ensures memory[p] == q
    decreases xs
  {
    EmptyTogether(xs, ys);
    assert xs[0] == ys[0] == head;
    assert xs == [head] + xs[1..] && ys == [head] + ys[1..];
    assert head !in xs[1..] && head !in ys[1..];
    forall c ensures c in xs[1..] <==> c in ys[1..] {
      assert c in xs <==> c in ys;
    }
    if head == p {
      ChainFrame(memory[p := q], q, ys[1..], p, memory[p]);
      assert memory[p := q][p := memory[p]] == memory;
      SameCellsSameStart(memory, memory[p], xs[1..], q, ys[1..]);
    } else {
      RelinkedMustAgree(memory, p, q, memory[head], xs[1..], ys[1..]);
    }
  }

  lemma CancelRelinks(w: Wheel, n: Word32)
    requires n < |w.nodes|
    requires var Node(next, prev, b) := w.nodes[n]; b != END && prev != END && prev < |w.nodes|
    ensures Cancel(w, n).slots == w.slots
    ensures Nexts(Cancel(w, n).nodes) == Nexts(w.nodes)[w.nodes[n].prev := w.nodes[n].next]
  {
  }

  lemma NextUnchanged(w: Wheel, t: Timers, n: Word32)
    requires Refines(w, t) && n < |w.nodes| && n in t.fired && Refines(Cancel(w, n), t.(fired := t.fired - {n}))
    requires var Node(next, prev, b) := w.nodes[n]; b != END && prev != END && (prev as nat) in t.live
    ensures w.nodes[n].prev < |w.nodes| && w.nodes[w.nodes[n].prev].next == w.nodes[n].next
  {
    var w' := Cancel(w, n);
    var Node(next, prev, _) := w.nodes[n];
    var c, i := Locate(w, t, prev);
    assert Holds(w, t, c) && Holds(w', t.(fired := t.fired - {n}), c);
    assert Linked(w.nodes, w.slots[c], c, List(w, c)) && Linked(w'.nodes, w'.slots[c], c, List(w', c));
    CancelRelinks(w, n);
    RelinkedMustAgree(Nexts(w.nodes), prev, next, w.slots[c], List(w, c), List(w', c));
  }

  lemma NextsOfLiveUnchanged(w: Wheel, t: Timers, n: Word32)
    requires n < |w.nodes| && n !in t.live
    requires var Node(next, prev, b) := w.nodes[n];
             && (prev == END && b < |w.slots| ==> w.slots[b] == next)
             && (prev != END && (prev as nat) in t.live && prev < |w.nodes| ==> w.nodes[prev].next == next)
    ensures Cancel(w, n).slots == w.slots && |Cancel(w, n).nodes| == |w.nodes|
    ensures forall x :: x in t.live && x < |w.nodes| ==> Cancel(w, n).nodes[x].next == w.nodes[x].next
  {
  }

  lemma PrevUnchanged(w: Wheel, t: Timers, n: Word32)
    requires Refines(w, t) && n < |w.nodes| && n in t.fired && Refines(Cancel(w, n), t.(fired := t.fired - {n}))
    requires var Node(next, prev, b) := w.nodes[n]; b != END && next != END && (next as nat) in t.live
    requires var Node(next, prev, b) := w.nodes[n];
             && (prev == END && b < |w.slots| ==> w.slots[b] == next)
             && (prev != END && (prev as nat) in t.live && prev < |w.nodes| ==> w.nodes[prev].next == next)
    ensures w.nodes[n].next < |w.nodes| && w.nodes[w.nodes[n].next].prev == w.nodes[n].prev
  {
    var w' := Cancel(w, n);
    var Node(next, prev, _) := w.nodes[n];
    var c, i := Locate(w, t, next);
    var xs := List(w, c);
    assert Holds(w, t, c) && Linked(w.nodes, w.slots[c], c, xs) && Linked(w'.nodes, w'.slots[c], c, List(w', c));
    ChainElements(Nexts(w.nodes), w.slots[c], xs);
    NextsOfLiveUnchanged(w, t, n);
    ChainAgrees(Nexts(w.nodes), Nexts(w'.nodes), w.slots[c], xs);
    ChainsAgree(Nexts(w'.nodes), w.slots[c], xs, List(w', c));
    assert w'.nodes[xs[i]].prev == Before(xs, i) == w.nodes[xs[i]].prev;
  }

  /** The links can disagree: two slots, two nodes; node 0 fires, node 1 is scheduled into the same
      bucket, and cancelling node 0 drops node 1, which never fires. */
  lemma CancelAfterFireLosesTimer()
    ensures var w := Schedule(Tick(Schedule(Fresh(2, 2), 0, 1)), 1, 0);
            && Expired(Tick(w)) == 1
            && Expired(Tick(Cancel(w, 0))) == END
  {
    var w0 := Fresh(2, 2);
    var blank := Node(END, END, END);
    assert w0 == Wheel([END, END], [blank, blank], 0);
    var w1 := Schedule(w0, 0, 1);
    assert w1 == Wheel([END, 0], [Node(END, END, 1), blank], 0);
    var w2 := Tick(w1);
    assert w2 == Wheel([END, END], [Node(END, END, 1), blank], 1);
    var w3 := Schedule(w2, 1, 0);
    assert w3 == Wheel([END, 1], [Node(END, END, 1), Node(END, END, 1)], 1);
    assert Cancel(w3, 0).slots == [END, END];
  }
}
