/** Singly linked lists of cell indices, threaded through the low halves of the cells' `next` words. */
module FreeLists {
  import opened Words

  ghost predicate Distinct(xs: seq<nat>) {
    forall i, j :: 0 <= i < j < |xs| ==> xs[i] != xs[j]
  }

  /** Following `next` from `index` visits exactly `xs` and then reaches the sentinel. */
  ghost predicate Chain(memory: seq<Word32>, index: nat, xs: seq<nat>)
    decreases xs
  {
    if xs == [] then index == SENTINEL
    else index == xs[0] && index < |memory| && Chain(memory, memory[index], xs[1..])
  }

  /** The cells met by following `next` from `index`, for at most `fuel` hops. */
  function Walk(memory: seq<Word32>, index: nat, fuel: nat): seq<nat>
    decreases fuel
  {
    if fuel == 0 || index >= |memory| then []
    else [index] + Walk(memory, memory[index], fuel - 1)
  }

  lemma {:induction false} WalkFollowsChain(memory: seq<Word32>, index: nat, xs: seq<nat>, fuel: nat)
    requires |memory| <= SENTINEL && Chain(memory, index, xs) && |xs| <= fuel
    ensures Walk(memory, index, fuel) == xs
    decreases fuel
  {
    if xs != [] {
      WalkFollowsChain(memory, memory[index], xs[1..], fuel - 1);
    }
  }

  lemma {:induction false} ChainElements(memory: seq<Word32>, index: nat, xs: seq<nat>)
    requires Chain(memory, index, xs)
    ensures forall i :: 0 <= i < |xs| ==> xs[i] < |memory|
    decreases xs
  {
    if xs != [] {
      ChainElements(memory, memory[index], xs[1..]);
      assert forall i :: 0 < i < |xs| ==> xs[i] == xs[1..][i - 1];
    }
  }

  lemma PushOntoChain(memory: seq<Word32>, c: nat, index: Word32, xs: seq<nat>)
    requires c < |memory| && memory[c] == index && Chain(memory, index, xs) && c !in xs && Distinct(xs)
    ensures Chain(memory, c, [c] + xs) && Distinct([c] + xs)
  {
    assert ([c] + xs)[1..] == xs;
  }

  /** Writing a cell that is not on the list leaves the list alone. */
  lemma {:induction false} ChainFrame(memory: seq<Word32>, index: nat, xs: seq<nat>, c: nat, w: Word32)
    requires Chain(memory, index, xs) && c < |memory| && c !in xs
    ensures Chain(memory[c := w], index, xs)
    decreases xs
  {
    if xs != [] {
      assert forall x :: x in xs[1..] ==> x in xs;
      ChainFrame(memory, memory[index], xs[1..], c, w);
    }
  }

  lemma {:induction false} Pigeonhole(xs: seq<nat>, n: nat)
    requires Distinct(xs) && forall i :: 0 <= i < |xs| ==> xs[i] < n
    ensures |xs| <= n
  {
    if xs == [] {
      return;
    }
    assert xs[0] < n;
    if k :| 0 <= k < |xs| && xs[k] == n - 1 {
      var ys := xs[..k] + xs[k + 1..];
      assert forall i :: 0 <= i < |ys| ==> ys[i] == xs[if i < k then i else i + 1];
      Pigeonhole(ys, n - 1);
    } else {
      Pigeonhole(xs, n - 1);
    }
  }

  /** A duplicate-free chain is what the walk with one hop per cell finds. */
  lemma WalkFindsList(memory: seq<Word32>, index: nat, xs: seq<nat>)
    requires |memory| <= SENTINEL && Chain(memory, index, xs) && Distinct(xs)
    ensures Walk(memory, index, |memory|) == xs
  {
    ChainElements(memory, index, xs);
    Pigeonhole(xs, |memory|);
    WalkFollowsChain(memory, index, xs, |memory|);
  }

  lemma {:induction false} SuffixOfChain(memory: seq<Word32>, index: nat, xs: seq<nat>, i: nat)
    requires Chain(memory, index, xs) && i < |xs|
    ensures Chain(memory, xs[i], xs[i..])
    decreases i
  {
    if i == 0 {
      assert xs[0..] == xs;
    } else {
      SuffixOfChain(memory, memory[index], xs[1..], i - 1);
      assert xs[1..][i - 1..] == xs[i..];
    }
  }

  lemma {:induction false} ChainsAgree(memory: seq<Word32>, index: nat, xs: seq<nat>, ys: seq<nat>)
    requires |memory| <= SENTINEL && Chain(memory, index, xs) && Chain(memory, index, ys)
    ensures xs == ys
    decreases xs
  {
    if xs != [] {
      ChainsAgree(memory, memory[index], xs[1..], ys[1..]);
      assert xs == [xs[0]] + xs[1..];
      assert ys == [ys[0]] + ys[1..];
    }
  }

  lemma EmptyTogether(xs: seq<nat>, ys: seq<nat>)
    requires forall c :: c in xs <==> c in ys
    ensures xs == [] <==> ys == []
  {
    if xs != [] {
      assert xs[0] in xs;
    }
    if ys != [] {
      assert ys[0] in ys;
    }
  }

  /** Two duplicate-free lists through the same memory that hold the same cells start at the same cell. */
  lemma SameCellsSameStart(memory: seq<Word32>, a: nat, xs: seq<nat>, b: nat, ys: seq<nat>)
    requires |memory| <= SENTINEL && Chain(memory, a, xs) && Distinct(xs) && Chain(memory, b, ys)
    requires forall c :: c in xs <==> c in ys
    ensures a == b
  {
    EmptyTogether(xs, ys);
    if ys != [] {
      assert ys[0] in xs;
      var i :| 0 <= i < |xs| && xs[i] == ys[0];
      assert xs[0] in ys;
      var j :| 0 <= j < |ys| && ys[j] == xs[0];
      SuffixOfChain(memory, a, xs, i);
      ChainsAgree(memory, xs[i], xs[i..], ys);
      assert xs[0] == xs[i + j];
    }
  }

  /** The memory a fresh pool starts from: cell i links to i + 1, the last cell ends the list. */
  function FreshMemory(capacity: nat): (m: seq<Word32>)
    requires 1 <= capacity <= SENTINEL
  {
    seq(capacity, i requires 0 <= i < capacity => if i < capacity - 1 then i + 1 else SENTINEL)
  }

  function Range(lo: nat, hi: nat): (r: seq<nat>)
    requires lo <= hi
    ensures |r| == hi - lo && forall i :: 0 <= i < |r| ==> r[i] == lo + i
  {
    seq(hi - lo, i requires 0 <= i < hi - lo => lo + i)
  }

  lemma {:induction false} FreshChain(capacity: nat, from: nat)
    requires 1 <= capacity <= SENTINEL && from < capacity
    ensures Chain(FreshMemory(capacity), from, Range(from, capacity))
    decreases capacity - from
  {
    assert Range(from, capacity)[1..] == Range(from + 1, capacity);
    if from + 1 < capacity {
      FreshChain(capacity, from + 1);
    }
  }
}
