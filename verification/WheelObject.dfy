/** `timing_wheel` as an object, updating its buckets and the nodes' links in place. */
module WheelObject {
  import opened Words
  import opened FreeLists
  import opened WheelLists
  import opened WheelRuns

  lemma BucketByMask(tick: nat, size: nat, k: nat)
    requires size == Pow2(k)
    ensures BitAnd(tick, size - 1) == BucketOf(tick, size)
  {
    MaskIsRemainder(tick, k);
  }

  /** The links of a node that is live, or was never linked, point at nodes or nowhere. */
  lemma LinksInRange(w: Wheel, t: Timers, n: nat)
    requires Refines(w, t) && n in t.live
    ensures n < |w.nodes| && w.nodes[n].bucket < |w.slots|
    ensures w.nodes[n].prev != END ==> w.nodes[n].prev < |w.nodes|
    ensures w.nodes[n].next != END ==> w.nodes[n].next < |w.nodes|
  {
    var b, i := Locate(w, t, n);
    assert Linked(w.nodes, w.slots[b], b, List(w, b));
    LinkOf(Nexts(w.nodes), w.slots[b], List(w, b), i);
    assert w.nodes[List(w, b)[i]].prev == Before(List(w, b), i);
  }

  /** What scheduling writes, bucket by bucket and node by node. */
  lemma ScheduleWrites(w: Wheel, n: Word32, delay: nat, b: nat, slots: seq<Word32>, nodes: seq<Node>)
    requires 0 < |w.slots| < B32 && n < |w.nodes| && b == BucketOf(w.now + Clamp(delay, |w.slots|), |w.slots|)
    requires slots == w.slots[b := n]
    requires var linked := w.nodes[n := Node(w.slots[b], END, b)];
             nodes == if w.slots[b] != END then SetPrev(linked, w.slots[b], n) else linked
    ensures WheelLists.Schedule(w, n, delay) == Wheel(slots, nodes, w.now)
  {
  }

  lemma HeadInRange(w: Wheel, b: nat)
    requires WellFormed(w) && b < |w.slots| && w.slots[b] != END
    ensures w.slots[b] < |w.nodes|
  {
    assert Linked(w.nodes, w.slots[b], b, List(w, b));
  }

  class TimingWheel {
    const buckets: array<Word32>
    const nodes: array<Node>
    var now: nat
    /** The specification this wheel stands for. */
    ghost var timers: Timers
    ghost const exponent: nat

    ghost function Value(): Wheel
      reads this, buckets, nodes
    {
      Wheel(buckets[..], nodes[..], now)
    }

    ghost predicate Valid()
      reads this, buckets, nodes
    {
      buckets.Length == Pow2(exponent) && Refines(Value(), timers)
    }

    constructor (pool: array<Node>, size: nat, ghost exponent: nat)
      requires size == Pow2(exponent) < B32 && pool.Length <= SENTINEL
      requires forall i :: 0 <= i < pool.Length ==> pool[i] == Node(END, END, END)
      ensures Valid() && timers == Timers(0, map[], {}) && nodes == pool && buckets.Length == size && fresh(buckets)
    {
      buckets := new Word32[size](_ => END);
      nodes, now, timers, this.exponent := pool, 0, Timers(0, map[], {}), exponent;
      new;
      FreshRefines(size, pool.Length);
      assert Value() == Fresh(size, pool.Length);
    }

    /** Makes a node the first of bucket `b`. */
    method LinkFront(n: Word32, b: nat)
      requires n < nodes.Length && b < buckets.Length < B32 && (buckets[b] != END ==> buckets[b] < nodes.Length)
      modifies buckets, nodes
      ensures buckets[..] == old(buckets[..])[b := n]
      ensures var linked := old(nodes[..])[n := Node(old(buckets[b]), END, b)];
              nodes[..] == if old(buckets[b]) != END then SetPrev(linked, old(buckets[b]), n) else linked
    {
      nodes[n] := nodes[n].(next := buckets[b]);
      nodes[n] := nodes[n].(prev := END);
      nodes[n] := nodes[n].(bucket := b);
      if buckets[b] != END {
        var h := buckets[b];
        nodes[h] := nodes[h].(prev := n);
      }
      buckets[b] := n;
    }

    /** Arms an unlinked node: its deadline is the delay from now, one tick less than a turn if the delay is a
        turn or more, and a full turn if there is no delay. */
    method Schedule(n: Word32, delay: Word32)
      requires Valid() && Legal(timers, nodes.Length, DoSchedule(n, delay))
      modifies `timers, buckets, nodes
      ensures Valid()
      ensures timers == Spec(old(timers), buckets.Length, DoSchedule(n, delay))
      ensures Value() == WheelLists.Schedule(old(Value()), n, delay) && now == old(now)
      ensures (n as nat) in timers.live
      ensures timers.live[n] ==
              now + if delay == 0 || buckets.Length == 1 then buckets.Length
                    else if delay < buckets.Length then delay else buckets.Length - 1
    {
      var d: nat := delay;
      if d >= buckets.Length {
        d := buckets.Length - 1;
      }
      BucketByMask(now + d, buckets.Length, exponent);
      var b := BitAnd(now + d, buckets.Length - 1);
      ghost var w, t := Value(), timers;
      if buckets[b] != END {
        HeadInRange(w, b);
      }
      OpRefines(w, t, DoSchedule(n, delay));
      LinkFront(n, b);
      ScheduleWrites(w, n, delay, b, buckets[..], nodes[..]);
      timers := Spec(t, buckets.Length, DoSchedule(n, delay));
      DeadlineInTicks(now, delay, buckets.Length);
    }

    /** Disarms a node; one that is not armed and has not fired stays as it is. */
    method Cancel(n: Word32)
      requires Valid() && Legal(timers, nodes.Length, DoCancel(n))
      modifies `timers, buckets, nodes
      ensures Valid()
      ensures timers == Spec(old(timers), buckets.Length, DoCancel(n))
      ensures Value() == WheelLists.Cancel(old(Value()), n) && now == old(now)
      ensures timers.live == old(timers).live - {n as nat}
    {
      ghost var t := timers;
      OpRefines(Value(), t, DoCancel(n));
      timers := Spec(t, buckets.Length, DoCancel(n));
      var b := nodes[n].bucket;
      if b == END {
        return;
      }
      assert n in t.live;
      LinksInRange(old(Value()), t, n);
      if nodes[n].prev != END {
        var p := nodes[n].prev;
        nodes[p] := nodes[p].(next := nodes[n].next);
      } else {
        buckets[b] := nodes[n].next;
      }
      if nodes[n].next != END {
        var q := nodes[n].next;
        nodes[q] := nodes[q].(prev := nodes[n].prev);
      }
      nodes[n] := nodes[n].(bucket := END);
      assert Value() == WheelLists.Cancel(old(Value()), n);
    }

    /** Advances the clock by one and returns the first of the nodes that are now due; `xs` is the list
        found by following `timer_next` from it. */
    method Tick() returns (head: Word32, ghost xs: seq<nat>)
      requires Valid()
      modifies `timers, `now, buckets
      ensures Valid() && now == old(now) + 1
      ensures timers == Spec(old(timers), buckets.Length, DoTick)
      ensures Chain(Nexts(nodes[..]), head, xs) && Distinct(xs)
      ensures forall n :: n in xs <==> n in old(timers).live && old(timers).live[n] == now
      ensures timers.live == old(timers).live - (set n | n in xs)
    {
      ghost var w := Value();
      xs := TickFiresExactlyTheDue(w, timers);
      OpRefines(w, timers, DoTick);
      now := now + 1;
      BucketByMask(now, buckets.Length, exponent);
      var b := BitAnd(now, buckets.Length - 1);
      head := buckets[b];
      buckets[b] := END;
      assert Value() == WheelLists.Tick(w);
      timers := Spec(timers, buckets.Length, DoTick);
    }
  }
}
