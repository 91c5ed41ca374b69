/** The timing wheel: one intrusive doubly linked list per bucket, threaded by index through an
external array of nodes.  It refines a plain map from node to deadline. */
module WheelLists {
  import opened Words
  import opened FreeLists

  const END: Word32 := SENTINEL

  datatype Node = Node(next: Word32, prev: Word32, bucket: Word32)

  datatype Wheel = Wheel(slots: seq<Word32>, nodes: seq<Node>, now: nat)

  // ---------- the three operations on values ----------

  /** A delay of the wheel's size or more is cut to one slot less than a full turn. */
  function Clamp(delay: nat, size: nat): (d: nat)
    requires size > 0
    ensures d < size && (delay < size ==> d == delay)
  {
    if delay >= size then size - 1 else delay
  }

  function BucketOf(tick: nat, size: nat): (b: nat)
    requires size > 0
    ensures b < size
  {
    tick % size
  }

  function SetPrev(nodes: seq<Node>, i: nat, p: Word32): (r: seq<Node>)
    ensures |r| == |nodes|
  {
    if i < |nodes| then nodes[i := nodes[i].(prev := p)] else nodes
  }

  function SetNext(nodes: seq<Node>, i: nat, q: Word32): (r: seq<Node>)
    ensures |r| == |nodes|
  {
    if i < |nodes| then nodes[i := nodes[i].(next := q)] else nodes
  }

  function Schedule(w: Wheel, n: Word32, delay: nat): Wheel
    requires 0 < |w.slots| < B32 && n < |w.nodes|
  {
    var b := BucketOf(w.now + Clamp(delay, |w.slots|), |w.slots|);
    var nodes := w.nodes[n := Node(w.slots[b], END, b)];
    w.(nodes := if w.slots[b] != END then SetPrev(nodes, w.slots[b], n) else nodes, slots := w.slots[b := n])
  }

  function Cancel(w: Wheel, n: Word32): Wheel
    requires n < |w.nodes|
  {
    var Node(next, prev, b) := w.nodes[n];
    if b == END then w
    else
      var nodes1 := if prev != END then SetNext(w.nodes, prev, next) else w.nodes;
      var slots1 := if prev == END && b < |w.slots| then w.slots[b := next] else w.slots;
      var nodes2 := if next != END then SetPrev(nodes1, next, prev) else nodes1;
      w.(slots := slots1, nodes := nodes2[n := nodes2[n].(bucket := END)])
  }

  /** Advances the clock and detaches the list of the new tick's bucket; its first node is `Expired`. */
  function Tick(w: Wheel): Wheel
    requires |w.slots| > 0
  {
    w.(now := w.now + 1, slots := w.slots[BucketOf(w.now + 1, |w.slots|) := END])
  }

  function Expired(w: Wheel): Word32
    requires |w.slots| > 0
  {
    w.slots[BucketOf(w.now + 1, |w.slots|)]
  }

  // ---------- well-formed lists ----------

  function Nexts(nodes: seq<Node>): (m: seq<Word32>)
    ensures |m| == |nodes| && forall i :: 0 <= i < |m| ==> m[i] == nodes[i].next
  {
    seq(|nodes|, i requires 0 <= i < |nodes| => nodes[i].next)
  }

  /** The nodes of bucket `b`, first to last. */
  function List(w: Wheel, b: nat): seq<nat>
    requires b < |w.slots|
  {
    Walk(Nexts(w.nodes), w.slots[b], |w.nodes|)
  }

  /** `xs` is the whole list from `head`, linked both ways, and every node on it says it is in bucket `b`. */
  ghost predicate Linked(nodes: seq<Node>, head: nat, b: nat, xs: seq<nat>) {
    && Chain(Nexts(nodes), head, xs)
    && Distinct(xs)
    && BackLinked(nodes, b, xs)
  }

  ghost predicate BackLinked(nodes: seq<Node>, b: nat, xs: seq<nat>) {
    && (forall i :: 0 <= i < |xs| ==> xs[i] < |nodes|)
    && (forall i {:trigger nodes[xs[i]]} :: 0 <= i < |xs| ==>
          nodes[xs[i]].bucket == b && nodes[xs[i]].prev == Before(xs, i))
  }

  function Before(xs: seq<nat>, i: nat): nat
    requires i < |xs|
  {
    if i == 0 then SENTINEL else xs[i - 1]
  }

  ghost predicate WellFormed(w: Wheel) {
    && 0 < |w.slots| < B32 && |w.nodes| <= SENTINEL
    && forall b :: 0 <= b < |w.slots| ==> Linked(w.nodes, w.slots[b], b, List(w, b))
  }

  /** A linked list is what the walk finds. */
  lemma LinkedIsList(w: Wheel, b: nat, xs: seq<nat>)
    requires |w.nodes| <= SENTINEL && b < |w.slots| && Linked(w.nodes, w.slots[b], b, xs)
    ensures List(w, b) == xs
  {
    WalkFindsList(Nexts(w.nodes), w.slots[b], xs);
  }

  /** Lists are pairwise disjoint. */
  lemma Apart(w: Wheel, b: nat, c: nat, n: nat)
    requires WellFormed(w) && b < |w.slots| && c < |w.slots| && b != c && n in List(w, b)
    ensures n !in List(w, c)
  {
    assert Linked(w.nodes, w.slots[b], b, List(w, b)) && Linked(w.nodes, w.slots[c], c, List(w, c));
    var i :| 0 <= i < |List(w, b)| && List(w, b)[i] == n;
    assert w.nodes[n].bucket == b;
    assert forall j :: 0 <= j < |List(w, c)| ==> w.nodes[List(w, c)[j]].bucket == c;
  }

  /** Rewriting a node that is not on a list, or only its prev or bucket where the list does not care,
      leaves the list linked. */
  lemma LinkedFrame(nodes: seq<Node>, nodes': seq<Node>, head: nat, b: nat, xs: seq<nat>)
    requires Linked(nodes, head, b, xs) && |nodes'| == |nodes|
    requires forall x :: x in xs ==> x < |nodes| && nodes'[x] == nodes[x]
    ensures Linked(nodes', head, b, xs)
  {
    ChainAgrees(Nexts(nodes), Nexts(nodes'), head, xs);
    forall i | 0 <= i < |xs| ensures nodes'[xs[i]] == nodes[xs[i]] {
      assert xs[i] in xs;
    }
  }

  lemma {:induction false} ChainAgrees(memory: seq<Word32>, memory': seq<Word32>, index: nat, xs: seq<nat>)
    requires Chain(memory, index, xs) && |memory'| == |memory|
    requires forall x :: x in xs ==> x < |memory| && memory'[x] == memory[x]
    ensures Chain(memory', index, xs)
    decreases xs
  {
    if xs != [] {
      assert xs[0] in xs;
      assert forall x :: x in xs[1..] ==> x in xs;
      ChainAgrees(memory, memory', memory[index], xs[1..]);
    }
  }

  // ---------- schedule ----------

  /** Scheduling an unlinked node puts it at the front of its bucket and changes no other list. */
  lemma ScheduleLinks(w: Wheel, n: Word32, delay: nat)
    requires WellFormed(w) && n < |w.nodes|
    requires forall b :: 0 <= b < |w.slots| ==> n !in List(w, b)
    ensures WellFormed(Schedule(w, n, delay))
    ensures var t := BucketOf(w.now + Clamp(delay, |w.slots|), |w.slots|);
            forall b :: 0 <= b < |w.slots| ==>
              List(Schedule(w, n, delay), b) == if b == t then [n as nat] + List(w, b) else List(w, b)
  {
    var w' := Schedule(w, n, delay);
    var t := BucketOf(w.now + Clamp(delay, |w.slots|), |w.slots|);
    forall b | 0 <= b < |w.slots|
      ensures Linked(w'.nodes, w'.slots[b], b, List(w', b))
      ensures List(w', b) == if b == t then [n as nat] + List(w, b) else List(w, b)
    {
      assert Linked(w.nodes, w.slots[b], b, List(w, b));
      if b == t {
        SchedulePushes(w, n, delay);
        LinkedIsList(w', b, [n as nat] + List(w, b));
      } else {
        ScheduleSpares(w, n, delay, b);
        LinkedIsList(w', b, List(w, b));
      }
    }
  }

  lemma ScheduleSpares(w: Wheel, n: Word32, delay: nat, b: nat)
    requires WellFormed(w) && n < |w.nodes| && b < |w.slots| && n !in List(w, b)
    requires b != BucketOf(w.now + Clamp(delay, |w.slots|), |w.slots|)
    ensures Linked(Schedule(w, n, delay).nodes, w.slots[b], b, List(w, b))
  {
    var t := BucketOf(w.now + Clamp(delay, |w.slots|), |w.slots|);
    var h, nodes' := w.slots[t], Schedule(w, n, delay).nodes;
    assert Linked(w.nodes, h, t, List(w, t));
    forall x | x in List(w, b) ensures x < |w.nodes| && nodes'[x] == w.nodes[x] {
      ChainElements(Nexts(w.nodes), w.slots[b], List(w, b));
      Apart(w, b, t, x);
      assert h != END ==> h in List(w, t);
    }
    LinkedFrame(w.nodes, nodes', w.slots[b], b, List(w, b));
  }

  lemma SchedulePushes(w: Wheel, n: Word32, delay: nat)
    requires WellFormed(w) && n < |w.nodes|
    requires var t := BucketOf(w.now + Clamp(delay, |w.slots|), |w.slots|); n !in List(w, t)
    ensures var t := BucketOf(w.now + Clamp(delay, |w.slots|), |w.slots|);
            Linked(Schedule(w, n, delay).nodes, n, t, [n as nat] + List(w, t))
  {
    var t := BucketOf(w.now + Clamp(delay, |w.slots|), |w.slots|);
    var h, xs, nodes' := w.slots[t], List(w, t), Schedule(w, n, delay).nodes;
    assert Linked(w.nodes, h, t, xs);
    assert Nexts(nodes') == Nexts(w.nodes)[n := h];
    ChainFrame(Nexts(w.nodes), h, xs, n, h);
    PushOntoChain(Nexts(nodes'), n, h, xs);
    BackLinkedFront(w.nodes, nodes', n, h, t, xs);
  }

  /** A new first node: it has nothing before it, the old first node has it before it, the rest is as it was. */
  lemma BackLinkedFront(nodes: seq<Node>, nodes': seq<Node>, n: nat, h: nat, b: nat, xs: seq<nat>)
    requires BackLinked(nodes, b, xs) && Distinct(xs) && |nodes'| == |nodes| && n < |nodes| && n !in xs
    requires nodes'[n].bucket == b && nodes'[n].prev == SENTINEL && (xs != [] ==> h == xs[0] && nodes'[h].prev == n)
    requires forall k :: 0 <= k < |nodes| && k != n ==> nodes'[k].bucket == nodes[k].bucket
    requires forall k :: 0 <= k < |nodes| && k != n && (xs != [] ==> k != h) ==> nodes'[k].prev == nodes[k].prev
    ensures BackLinked(nodes', b, [n] + xs)
  {
    var ys := [n] + xs;
    forall i | 0 <= i < |ys|
      ensures ys[i] < |nodes'| && nodes'[ys[i]].bucket == b && nodes'[ys[i]].prev == Before(ys, i)
    {
      if i > 0 {
        assert ys[i] == xs[i - 1] && xs[i - 1] in xs;
        assert i > 1 ==> xs[i - 1] != xs[0];
        assert nodes[xs[i - 1]].prev == Before(xs, i - 1);
      }
    }
  }

  // ---------- cancel ----------

  lemma {:induction false} ChainRemove(memory: seq<Word32>, index: nat, xs: seq<nat>, i: nat)
    requires Chain(memory, index, xs) && Distinct(xs) && 0 < i < |xs|
    ensures xs[i - 1] < |memory| && xs[i] < |memory|
    ensures Chain(memory[xs[i - 1] := memory[xs[i]]], index, xs[..i] + xs[i + 1..])
    decreases i
  {
    ChainElements(memory, index, xs);
    var memory' := memory[xs[i - 1] := memory[xs[i]]];
    var ys := xs[..i] + xs[i + 1..];
    if i == 1 {
      assert ys[1..] == xs[2..];
      assert Chain(memory, memory[xs[1]], xs[1..][1..]);
      assert xs[1..][1..] == xs[2..];
      ChainFrame(memory, memory[xs[1]], xs[2..], xs[0], memory[xs[1]]);
    } else {
      ChainRemove(memory, memory[index], xs[1..], i - 1);
      assert ys[1..] == xs[1..][..i - 1] + xs[1..][i..];
      assert xs[i - 1] != xs[0];
    }
  }

  lemma LinkOf(memory: seq<Word32>, index: nat, xs: seq<nat>, i: nat)
    requires Chain(memory, index, xs) && i < |xs|
    ensures xs[i] < |memory| && memory[xs[i]] == if i + 1 < |xs| then xs[i + 1] else SENTINEL
    decreases i
  {
    if i == 0 {
      assert |xs| > 1 ==> xs[1..][0] == xs[1];
    } else {
      LinkOf(memory, memory[index], xs[1..], i - 1);
    }
  }

  /** Cancelling the `i`-th node of bucket `b` takes it off that list and changes no other. */
  lemma CancelLinks(w: Wheel, b: nat, i: nat)
    requires WellFormed(w) && b < |w.slots| && i < |List(w, b)|
    ensures List(w, b)[i] < |w.nodes|
    ensures var w' := Cancel(w, List(w, b)[i]);
            && WellFormed(w') && w'.now == w.now && |w'.slots| == |w.slots|
            && forall c :: 0 <= c < |w.slots| ==>
                 List(w', c) == if c == b then List(w, b)[..i] + List(w, b)[i + 1..] else List(w, c)
  {
    var xs := List(w, b);
    assert Linked(w.nodes, w.slots[b], b, xs);
    var w' := Cancel(w, xs[i]);
    forall c | 0 <= c < |w.slots|
      ensures Linked(w'.nodes, w'.slots[c], c, List(w', c))
      ensures List(w', c) == if c == b then xs[..i] + xs[i + 1..] else List(w, c)
    {
      if c == b {
        CancelRemoves(w, b, i);
        LinkedIsList(w', b, xs[..i] + xs[i + 1..]);
      } else {
        CancelSpares(w, b, i, c);
        LinkedIsList(w', c, List(w, c));
      }
    }
  }

  lemma CancelSpares(w: Wheel, b: nat, i: nat, c: nat)
    requires WellFormed(w) && b < |w.slots| && i < |List(w, b)| && c < |w.slots| && c != b
    ensures List(w, b)[i] < |w.nodes|
    ensures Linked(Cancel(w, List(w, b)[i]).nodes, w.slots[c], c, List(w, c))
    ensures Cancel(w, List(w, b)[i]).slots[c] == w.slots[c]
  {
    var xs := List(w, b);
    assert Linked(w.nodes, w.slots[b], b, xs) && Linked(w.nodes, w.slots[c], c, List(w, c));
    LinkOf(Nexts(w.nodes), w.slots[b], xs, i);
    CancelEffect(w.nodes, w.slots, w.now, xs, b, i);
    ChainElements(Nexts(w.nodes), w.slots[c], List(w, c));
    var nodes' := Cancel(w, xs[i]).nodes;
    forall x | x in List(w, c) ensures x < |w.nodes| && nodes'[x] == w.nodes[x] {
      Apart(w, c, b, x);
    }
    LinkedFrame(w.nodes, nodes', w.slots[c], c, List(w, c));
  }

  lemma CancelRemoves(w: Wheel, b: nat, i: nat)
    requires WellFormed(w) && b < |w.slots| && i < |List(w, b)|
    ensures List(w, b)[i] < |w.nodes|
    ensures var xs, w' := List(w, b), Cancel(w, List(w, b)[i]);
            Linked(w'.nodes, w'.slots[b], b, xs[..i] + xs[i + 1..])
  {
    var xs, memory := List(w, b), Nexts(w.nodes);
    assert Linked(w.nodes, w.slots[b], b, xs);
    LinkOf(memory, w.slots[b], xs, i);
    CancelEffect(w.nodes, w.slots, w.now, xs, b, i);
    var w', ys := Cancel(w, xs[i]), xs[..i] + xs[i + 1..];
    if i == 0 {
      assert ys == xs[1..];
    } else {
      ChainRemove(memory, w.slots[b], xs, i);
    }
    PrevsAfterCancel(w.nodes, w'.nodes, b, xs, i);
  }

  /** What cancelling writes: the next of the node before, the prev of the node after, and its own bucket. */
  lemma CancelEffect(nodes: seq<Node>, slots: seq<Word32>, now: nat, xs: seq<nat>, b: nat, i: nat)
    requires |nodes| <= SENTINEL && b < |slots| < B32 && i < |xs| && Distinct(xs)
    requires BackLinked(nodes, b, xs)
    requires nodes[xs[i]].next == if i + 1 < |xs| then xs[i + 1] else SENTINEL
    ensures var w' := Cancel(Wheel(slots, nodes, now), xs[i]);
              && w'.slots == (if i == 0 then slots[b := nodes[xs[0]].next] else slots)
              && |w'.nodes| == |nodes|
              && Nexts(w'.nodes) == (if i == 0 then Nexts(nodes) else Nexts(nodes)[xs[i - 1] := nodes[xs[i]].next])
              && (forall k :: 0 <= k < |nodes| && k != xs[i] ==> w'.nodes[k].bucket == nodes[k].bucket)
              && (forall k :: 0 <= k < |nodes| && (i + 1 < |xs| ==> k != xs[i + 1]) ==>
                    w'.nodes[k].prev == nodes[k].prev)
              && (i + 1 < |xs| ==> w'.nodes[xs[i + 1]].prev == Before(xs, i))
              && (forall k :: 0 <= k < |nodes| && k !in xs ==> w'.nodes[k] == nodes[k])
  {
    assert nodes[xs[i]].prev == Before(xs, i);
  }

  lemma PrevsAfterCancel(nodes: seq<Node>, nodes': seq<Node>, b: nat, xs: seq<nat>, i: nat)
    requires |nodes'| == |nodes| && i < |xs| && Distinct(xs)
    requires BackLinked(nodes, b, xs)
    requires forall k :: 0 <= k < |nodes| && k != xs[i] ==> nodes'[k].bucket == nodes[k].bucket
    requires forall k :: 0 <= k < |nodes| && (i + 1 < |xs| ==> k != xs[i + 1]) ==> nodes'[k].prev == nodes[k].prev
    requires i + 1 < |xs| ==> nodes'[xs[i + 1]].prev == Before(xs, i)
    ensures var ys := xs[..i] + xs[i + 1..];
            Distinct(ys) && BackLinked(nodes', b, ys)
  {
    var ys := xs[..i] + xs[i + 1..];
    forall k | 0 <= k < |ys|
      ensures ys[k] < |nodes'| && nodes'[ys[k]].bucket == b && nodes'[ys[k]].prev == Before(ys, k)
    {
      var j := if k < i then k else k + 1;
      assert ys[k] == xs[j] && xs[j] != xs[i];
      assert i + 1 < |xs| && j != i + 1 ==> xs[j] != xs[i + 1];
      assert nodes[xs[j]].prev == Before(xs, j);
    }
  }

  // ---------- tick ----------

  lemma TickLinks(w: Wheel)
    requires WellFormed(w)
    ensures WellFormed(Tick(w))
    ensures forall b :: 0 <= b < |w.slots| ==>
              List(Tick(w), b) == if b == BucketOf(w.now + 1, |w.slots|) then [] else List(w, b)
  {
    var w' := Tick(w);
    forall b | 0 <= b < |w.slots|
      ensures Linked(w'.nodes, w'.slots[b], b, List(w', b))
      ensures List(w', b) == if b == BucketOf(w.now + 1, |w.slots|) then [] else List(w, b)
    {
      assert Linked(w.nodes, w.slots[b], b, List(w, b));
      if b == BucketOf(w.now + 1, |w.slots|) {
        LinkedIsList(w', b, []);
      }
    }
  }
}
