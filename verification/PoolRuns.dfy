/** Whole runs of the tagged stack: safety, linearizability to a LIFO stack, empty returns and
lock-freedom. */
module PoolRuns {
  import opened Words
  import opened FreeLists
  import opened TaggedStack

  /** `trace` is the sequence of states a pool of `capacity` cells goes through under `actions`. */
  ghost predicate IsRun(capacity: nat, threads: nat, trace: seq<State>, actions: seq<Action>) {
    && 1 <= capacity <= SENTINEL
    && |trace| == |actions| + 1
    && trace[0] == Init(capacity, threads)
    && forall i {:trigger actions[i]} :: 0 <= i < |actions| ==>
         Enabled(trace[i], actions[i]) && trace[i + 1] == Apply(trace[i], actions[i])
  }

  /** Fewer than 2^32 CASes succeed between a thread's load of the head and its own successful `make`. */
  ghost predicate TagsSuffice(trace: seq<State>, actions: seq<Action>)
    requires |trace| == |actions| + 1
    requires forall i {:trigger actions[i]} :: 0 <= i < |actions| ==> Enabled(trace[i], actions[i])
  {
    forall i {:trigger actions[i]} :: 0 <= i < |actions| ==> Fresh(trace[i], actions[i])
  }

  ghost predicate SafeRun(capacity: nat, threads: nat, trace: seq<State>, actions: seq<Action>) {
    IsRun(capacity, threads, trace, actions) && TagsSuffice(trace, actions)
  }

  // ---------- safety ----------

  /** In every interleaving the list from the head is finite, duplicate-free and sentinel-terminated,
      and every cell is in exactly one place: free, taken, or inside one `free` call. */
  lemma {:induction false} RunIsSafe(capacity: nat, threads: nat, trace: seq<State>, actions: seq<Action>, k: nat)
    requires SafeRun(capacity, threads, trace, actions) && k < |trace|
    ensures Inv(trace[k])
    ensures |trace[k].memory| == capacity && |trace[k].threads| == threads
  {
    if k == 0 {
      InitInv(capacity, threads);
    } else {
      RunIsSafe(capacity, threads, trace, actions, k - 1);
      StepKeepsInv(trace[k - 1], actions[k - 1]);
    }
  }

  /** No index used by any thread ever leaves the pool. */
  lemma IndicesInBounds(capacity: nat, threads: nat, trace: seq<State>, actions: seq<Action>, k: nat)
    requires SafeRun(capacity, threads, trace, actions) && k < |actions|
    ensures actions[k].ReadNext? ==> trace[k].threads[actions[k].t].head.index < capacity
    ensures actions[k].Link? ==> trace[k].threads[actions[k].t].cell < capacity
    ensures actions[k].FreeCas? ==> trace[k].threads[actions[k].t].cell < capacity
    ensures actions[k].Scribble? ==> actions[k].c < capacity
  {
    var s, a := trace[k], actions[k];
    RunIsSafe(capacity, threads, trace, actions, k);
    if a.Scribble? {
      if c :| 0 <= c < |s.threads| && s.threads[c] == FreeCalled(a.c) {
        assert s.threads[c].Frees(a.c);
      }
    } else {
      assert SnapshotInv(s, s.threads[a.t]);
      if a.Link? || a.FreeCas? {
        assert s.threads[a.t].Frees(s.threads[a.t].cell);
      }
    }
  }

  // ---------- linearizability ----------

  /** What an operation did, as its caller sees it: `make` gave a cell or null, `free` took one back. */
  datatype Op = Popped(cell: nat) | FoundEmpty | Pushed(cell: nat)

  /** The sequential specification: `make` takes the top of a stack, or gives null when there is none, and
      `free` puts its cell on top. */
  predicate Allowed(stack: seq<nat>, op: Op) {
    match op
    case Popped(c) => stack != [] && stack[0] == c
    case FoundEmpty => stack == []
    case Pushed(_) => true
  }

  function Effect(stack: seq<nat>, op: Op): seq<nat>
    requires Allowed(stack, op)
  {
    match op
    case Popped(_) => stack[1..]
    case FoundEmpty => stack
    case Pushed(c) => [c] + stack
  }

  function Replay(stack: seq<nat>, ops: seq<Op>): (final: seq<nat>)
    requires Legal(stack, ops)
    decreases ops
  {
    if ops == [] then stack else Replay(Effect(stack, ops[0]), ops[1..])
  }

  predicate Legal(stack: seq<nat>, ops: seq<Op>)
    decreases ops
  {
    ops == [] || (Allowed(stack, ops[0]) && Legal(Effect(stack, ops[0]), ops[1..]))
  }

  /** The operations that took effect in the first `k` steps: at their successful CAS, or, for a `make` that
      will return null, at the load that met the sentinel. */
  ghost function Completed(trace: seq<State>, actions: seq<Action>, k: nat): seq<Op>
    requires |trace| == |actions| + 1 && k <= |actions|
    requires forall i {:trigger actions[i]} :: 0 <= i < |actions| ==> Enabled(trace[i], actions[i])
  {
    if k == 0 then [] else Completed(trace, actions, k - 1) + Completes(trace[k - 1], actions[k - 1])
  }

  /** The operation that takes effect in a step, if any. */
  function Completes(s: State, a: Action): seq<Op>
    requires Enabled(s, a)
  {
    match a
    case MakeCas(t) => [Popped(s.threads[t].head.index)]
    case FreeCas(t) => [Pushed(s.threads[t].cell)]
    case LoadHead(_) => if s.head.index == SENTINEL then [FoundEmpty] else []
    case MakeRetry(_) => if s.head.index == SENTINEL then [FoundEmpty] else []
    case _ => []
  }

  lemma StepIsLifo(s: State, a: Action, stack: seq<nat>, before: seq<Op>)
    requires Inv(s) && Enabled(s, a) && Fresh(s, a)
    requires Legal(stack, before) && Replay(stack, before) == FreeList(s)
    ensures Legal(stack, before + Completes(s, a))
    ensures Replay(stack, before + Completes(s, a)) == FreeList(Apply(s, a))
  {
    StepKeepsInv(s, a);
    EndsOnlyAtSentinel(s);
    if Completes(s, a) != [] {
      var op := Completes(s, a)[0];
      assert Completes(s, a) == [op];
      OneOperation(FreeList(s), op);
      ReplayAppend(stack, before, op);
    } else {
      assert before + Completes(s, a) == before;
    }
  }

  lemma OneOperation(stack: seq<nat>, op: Op)
    ensures Legal(stack, [op]) <==> Allowed(stack, op)
    ensures Legal(stack, [op]) ==> Replay(stack, [op]) == Effect(stack, op)
  {
    assert [op][1..] == [];
  }

  lemma {:induction false} ReplayAppend(stack: seq<nat>, ops: seq<Op>, op: Op)
    requires Legal(stack, ops) && Legal(Replay(stack, ops), [op])
    ensures Legal(stack, ops + [op])
    ensures Replay(stack, ops + [op]) == Replay(Replay(stack, ops), [op])
    decreases ops
  {
    if ops == [] {
      assert ops + [op] == [op];
    } else {
      assert (ops + [op])[1..] == ops[1..] + [op];
      ReplayAppend(Effect(stack, ops[0]), ops[1..], op);
    }
  }

  /** Linearizability: the operations, null-returning ones included, are a legal history of one LIFO stack
      that held all cells at first, in the order in which they took effect, and that stack is the list found
      in memory. */
  lemma {:induction false} RunIsLifo(capacity: nat, threads: nat, trace: seq<State>, actions: seq<Action>, k: nat)
    requires SafeRun(capacity, threads, trace, actions) && k < |trace|
    ensures Legal(Range(0, capacity), Completed(trace, actions, k))
    ensures Replay(Range(0, capacity), Completed(trace, actions, k)) == FreeList(trace[k])
  {
    if k == 0 {
      InitInv(capacity, threads);
    } else {
      RunIsSafe(capacity, threads, trace, actions, k - 1);
      RunIsLifo(capacity, threads, trace, actions, k - 1);
      StepIsLifo(trace[k - 1], actions[k - 1], Range(0, capacity), Completed(trace, actions, k - 1));
    }
  }

  // ---------- looking back at a thread's own last step ----------

  predicate IsStepOf(a: Action, t: nat) { !a.Scribble? && a.t == t }

  /** Between `j` and `k` thread `t` takes no step. */
  ghost predicate Rests(actions: seq<Action>, t: nat, j: nat, k: nat)
    requires j <= k <= |actions|
  {
    forall i :: j <= i < k ==> !IsStepOf(actions[i], t)
  }

  /** A swap that succeeds. */
  predicate IsCas(a: Action) { a.MakeCas? || a.FreeCas? }

  /** Every step that gives a thread a snapshot of the head it did not have. */
  predicate IsLoad(a: Action) { a.LoadHead? || a.MakeRetry? || a.LoadForFree? || a.FreeRetry? }

  lemma OneStep(s: State, a: Action, t: nat)
    requires Enabled(s, a) && At(s, t)
    ensures |Apply(s, a).threads| == |s.threads| && Apply(s, a).ops == s.ops + if IsCas(a) then 1 else 0
    ensures !IsCas(a) ==> Apply(s, a).head == s.head
    ensures !IsStepOf(a, t) ==> Apply(s, a).threads[t] == s.threads[t]
    ensures IsStepOf(a, t) && IsLoad(a) ==>
              var pc' := Apply(s, a).threads[t]; pc'.HasSnapshot() && pc'.at == s.ops && pc'.head == s.head
    ensures IsStepOf(a, t) && !IsLoad(a) && Apply(s, a).threads[t].HasSnapshot() ==>
              && s.threads[t].HasSnapshot() && Apply(s, a).threads[t].at == s.threads[t].at
              && Apply(s, a).threads[t].head == s.threads[t].head
    ensures IsStepOf(a, t) && IsCas(a) ==> !Apply(s, a).threads[t].HasSnapshot()
  {
  }

  lemma {:induction false} RestingThreadKeepsLocals(capacity: nat, threads: nat, trace: seq<State>,
                                                    actions: seq<Action>, t: nat, j: nat, k: nat)
    requires IsRun(capacity, threads, trace, actions) && t < threads && j <= k < |trace| && Rests(actions, t, j, k)
    ensures |trace[j].threads| == |trace[k].threads| == threads
    ensures trace[k].threads[t] == trace[j].threads[t]
    ensures trace[j].ops <= trace[k].ops
    decreases k
  {
    if j < k {
      RestingThreadKeepsLocals(capacity, threads, trace, actions, t, j, k - 1);
      OneStep(trace[k - 1], actions[k - 1], t);
    } else {
      ThreadCount(capacity, threads, trace, actions, k);
    }
  }

  lemma {:induction false} ThreadCount(capacity: nat, threads: nat, trace: seq<State>, actions: seq<Action>, k: nat)
    requires IsRun(capacity, threads, trace, actions) && k < |trace|
    ensures |trace[k].threads| == threads
  {
    if k > 0 {
      ThreadCount(capacity, threads, trace, actions, k - 1);
      assert Enabled(trace[k - 1], actions[k - 1]);
    }
  }

  /** A thread that is inside an operation got there by some step of its own. */
  lemma {:induction false} LastOwnStep(capacity: nat, threads: nat, trace: seq<State>, actions: seq<Action>, t: nat,
                                       k: nat)
    returns (j: nat)
    requires IsRun(capacity, threads, trace, actions) && t < threads && k < |trace|
    requires |trace[k].threads| == threads && !trace[k].threads[t].Idle?
    ensures j < k && IsStepOf(actions[j], t) && Rests(actions, t, j + 1, k)
    ensures |trace[j].threads| == |trace[j + 1].threads| == threads
    ensures trace[j + 1].threads[t] == trace[k].threads[t]
  {
    ThreadCount(capacity, threads, trace, actions, k - 1);
    if IsStepOf(actions[k - 1], t) {
      j := k - 1;
    } else {
      OneStep(trace[k - 1], actions[k - 1], t);
      j := LastOwnStep(capacity, threads, trace, actions, t, k - 1);
    }
  }

  /** The step that put a thread at each point of `make`. */
  lemma ArrivedBy(s: State, a: Action, t: nat)
    requires Enabled(s, a) && IsStepOf(a, t)
    ensures Apply(s, a).threads[t].MakeLoaded? ==>
              (a == LoadHead(t) || a == MakeRetry(t)) && Apply(s, a).threads[t].head == s.head
    ensures Apply(s, a).threads[t].MakeRead? ==>
              && a == ReadNext(t)
              && s.threads[t].MakeLoaded?
              && Apply(s, a).threads[t]
                 == MakeRead(s.threads[t].head, ReadCell(s.memory, s.threads[t].head.index), s.threads[t].at)
  {
  }

  /** A `make` that returns null loaded the head at an instant when the free list was empty. */
  lemma NullMeansEmpty(capacity: nat, threads: nat, trace: seq<State>, actions: seq<Action>, t: nat, k: nat)
    returns (j: nat)
    requires SafeRun(capacity, threads, trace, actions) && k < |actions| && actions[k] == ReturnNull(t)
    ensures j < k && (actions[j] == LoadHead(t) || actions[j] == MakeRetry(t)) && Rests(actions, t, j + 1, k)
    ensures FreeList(trace[j]) == []
  {
    ThreadCount(capacity, threads, trace, actions, k);
    j := LastOwnStep(capacity, threads, trace, actions, t, k);
    ArrivedBy(trace[j], actions[j], t);
    RunIsSafe(capacity, threads, trace, actions, j);
    EndsOnlyAtSentinel(trace[j]);
  }

  /** The `next` a successful `make` installs was read while its cell headed the free list: a word read
      from a cell that was taken meanwhile, whatever its owner wrote there, is never installed. */
  lemma StaleReadNeverInstalled(capacity: nat, threads: nat, trace: seq<State>, actions: seq<Action>, t: nat, k: nat)
    returns (j: nat)
    requires SafeRun(capacity, threads, trace, actions) && k < |actions| && actions[k] == MakeCas(t)
    ensures j < k && actions[j] == ReadNext(t) && Rests(actions, t, j + 1, k)
    ensures var idx := trace[k].threads[t].head.index;
            && idx < |trace[j].memory| == |trace[k].memory|
            && FreeList(trace[j]) != [] && FreeList(trace[j])[0] == idx && idx !in trace[j].taken
            && trace[k + 1].head.index == trace[j].memory[idx] == trace[k].memory[idx]
            && trace[j].ops == trace[k].ops
  {
    ThreadCount(capacity, threads, trace, actions, k);
    j := LastOwnStep(capacity, threads, trace, actions, t, k);
    RunIsSafe(capacity, threads, trace, actions, j);
    RunIsSafe(capacity, threads, trace, actions, k);
    ArrivedBy(trace[j], actions[j], t);
    RestingThreadKeepsLocals(capacity, threads, trace, actions, t, j + 1, k);
    CasSawCurrentHead(trace[k], t);
    assert SnapshotInv(trace[j], trace[j].threads[t]);
    EndsOnlyAtSentinel(trace[j]);
  }

  // ---------- lock-freedom ----------

  /** A retry whose CAS met a head different from the expected one, as opposed to a spurious failure. */
  predicate GenuineRetry(s: State, a: Action, t: nat) {
    (a == MakeRetry(t) || a == FreeRetry(t)) && Enabled(s, a) && s.head != s.threads[t].head
  }

  ghost function GenuineRetries(trace: seq<State>, actions: seq<Action>, t: nat, k: nat): nat
    requires |trace| == |actions| + 1 && k <= |actions|
  {
    if k == 0 then 0
    else GenuineRetries(trace, actions, t, k - 1) + if GenuineRetry(trace[k - 1], actions[k - 1], t) then 1 else 0
  }

  /** The operations other threads than `t` completed in the first `k` steps. */
  function CompletedByOthers(actions: seq<Action>, t: nat, k: nat): nat
    requires k <= |actions|
  {
    if k == 0 then 0
    else CompletedByOthers(actions, t, k - 1) + if IsCas(actions[k - 1]) && !IsStepOf(actions[k - 1], t) then 1 else 0
  }

  /** A snapshot is never newer than the state, and current as long as no CAS has succeeded since, in every
      run, however often the tag has gone round. */
  lemma {:induction false} SnapshotAge(capacity: nat, threads: nat, trace: seq<State>, actions: seq<Action>, t: nat,
                                       k: nat)
    requires IsRun(capacity, threads, trace, actions) && t < threads && k < |trace|
    ensures |trace[k].threads| == threads
    ensures var pc := trace[k].threads[t];
            pc.HasSnapshot() ==> pc.at <= trace[k].ops && (pc.at == trace[k].ops ==> pc.head == trace[k].head)
  {
    if k > 0 {
      SnapshotAge(capacity, threads, trace, actions, t, k - 1);
      OneStep(trace[k - 1], actions[k - 1], t);
    }
  }

  /** A thread that holds a snapshot loaded it, and has loaded nothing since. */
  lemma {:induction false} LastLoad(capacity: nat, threads: nat, trace: seq<State>, actions: seq<Action>, t: nat,
                                    k: nat)
    returns (l: nat)
    requires IsRun(capacity, threads, trace, actions) && t < threads && k < |trace|
    requires |trace[k].threads| == threads && trace[k].threads[t].HasSnapshot()
    ensures l < k && IsLoad(actions[l]) && IsStepOf(actions[l], t) && trace[l].ops == trace[k].threads[t].at
    ensures forall i :: l < i < k ==> !(IsStepOf(actions[i], t) && IsLoad(actions[i]))
  {
    ThreadCount(capacity, threads, trace, actions, k - 1);
    OneStep(trace[k - 1], actions[k - 1], t);
    if IsStepOf(actions[k - 1], t) && IsLoad(actions[k - 1]) {
      l := k - 1;
    } else {
      l := LastLoad(capacity, threads, trace, actions, t, k - 1);
    }
  }

  /** When a snapshot is out of date, another thread's CAS succeeded after it was loaded. */
  lemma {:induction false} OutdatedByAnother(capacity: nat, threads: nat, trace: seq<State>, actions: seq<Action>,
                                             t: nat, k: nat)
    returns (l: nat, j: nat)
    requires IsRun(capacity, threads, trace, actions) && t < threads && k < |trace|
    requires |trace[k].threads| == threads && trace[k].threads[t].HasSnapshot() && trace[k].threads[t].at < trace[k].ops
    ensures l < j < k && IsLoad(actions[l]) && IsStepOf(actions[l], t) && trace[l].ops == trace[k].threads[t].at
    ensures forall i :: l < i < k ==> !(IsStepOf(actions[i], t) && IsLoad(actions[i]))
    ensures IsCas(actions[j]) && !IsStepOf(actions[j], t)
  {
    SnapshotAge(capacity, threads, trace, actions, t, k - 1);
    OneStep(trace[k - 1], actions[k - 1], t);
    if IsCas(actions[k - 1]) {
      l := LastLoad(capacity, threads, trace, actions, t, k - 1);
      j := k - 1;
    } else {
      l, j := OutdatedByAnother(capacity, threads, trace, actions, t, k - 1);
    }
  }

  /** A genuine failure means that, since the failing thread last loaded the head, the CAS of another thread
      succeeded. */
  lemma GenuineRetryMeansProgress(capacity: nat, threads: nat, trace: seq<State>, actions: seq<Action>, t: nat, k: nat)
    returns (l: nat, j: nat)
    requires IsRun(capacity, threads, trace, actions) && k < |actions| && GenuineRetry(trace[k], actions[k], t)
    ensures l < j < k && IsLoad(actions[l]) && IsStepOf(actions[l], t)
    ensures forall i :: l < i < k ==> !(IsStepOf(actions[i], t) && IsLoad(actions[i]))
    ensures IsCas(actions[j]) && !IsStepOf(actions[j], t)
  {
    ThreadCount(capacity, threads, trace, actions, k);
    SnapshotAge(capacity, threads, trace, actions, t, k);
    l, j := OutdatedByAnother(capacity, threads, trace, actions, t, k);
  }

  /** Lock-freedom: no thread has more genuine retries than there are operations completed by others. */
  lemma {:induction false} RetriesBoundedByProgress(capacity: nat, threads: nat, trace: seq<State>,
                                                    actions: seq<Action>, t: nat, k: nat)
    requires IsRun(capacity, threads, trace, actions) && t < threads && k < |trace|
    ensures GenuineRetries(trace, actions, t, k) <= CompletedByOthers(actions, t, k)
    ensures |trace[k].threads| == threads
    ensures trace[k].threads[t].HasSnapshot() ==>
              GenuineRetries(trace, actions, t, k) + trace[k].ops - trace[k].threads[t].at
              <= CompletedByOthers(actions, t, k)
  {
    if k > 0 {
      RetriesBoundedByProgress(capacity, threads, trace, actions, t, k - 1);
      SnapshotAge(capacity, threads, trace, actions, t, k - 1);
      OneStep(trace[k - 1], actions[k - 1], t);
    }
  }
}
