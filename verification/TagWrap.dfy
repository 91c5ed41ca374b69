/** The 32-bit tag at its limit: exactly when a `make` keeps the list intact, and a run of exactly
2^32 CASes after which one does not. */
module TagWrap {
  import opened Words
  import opened FreeLists
  import opened TaggedStack
  import opened PoolRuns

  /** Whatever the tag did: a successful `make` keeps the pool consistent if and only if the `next`
      its thread read is the one the head cell holds now. */
  lemma MakeSafeIffNextIsCurrent(s: State, t: nat)
    requires Inv(s) && Enabled(s, MakeCas(t))
    ensures s.head.index < |s.memory|
    ensures Inv(Apply(s, MakeCas(t))) <==> s.threads[t].next == s.memory[s.head.index]
  {
    assert SnapshotInv(s, s.threads[t]);
    EndsOnlyAtSentinel(s);
    if s.threads[t].next == s.memory[s.head.index] {
      MakeCasStep(s, t);
    } else if Inv(Apply(s, MakeCas(t))) {
      InstalledIsCurrent(s, t);
    }
  }

  lemma InstalledIsCurrent(s: State, t: nat)
    requires Inv(s) && Enabled(s, MakeCas(t)) && Inv(Apply(s, MakeCas(t)))
    ensures s.head.index < |s.memory| && s.threads[t].next == s.memory[s.head.index]
  {
    var s' := Apply(s, MakeCas(t));
    ListIsTheFreeCells(s, t);
    EndsOnlyAtSentinel(s);
    EndsOnlyAtSentinel(s');
    var xs, ys := FreeList(s)[1..], FreeList(s');
    assert Chain(s.memory, s.memory[s.head.index], xs);
    SameCellsSameStart(s.memory, s.memory[s.head.index], xs, s'.head.index, ys);
  }

  /** Both before and after, the list holds the cells that are neither taken nor being freed. */
  lemma ListIsTheFreeCells(s: State, t: nat)
    requires Inv(s) && Enabled(s, MakeCas(t)) && Inv(Apply(s, MakeCas(t)))
    ensures FreeList(s) != []
    ensures forall c :: c in FreeList(Apply(s, MakeCas(t))) <==> c in FreeList(s)[1..]
  {
    var s' := Apply(s, MakeCas(t));
    assert SnapshotInv(s, s.threads[t]);
    EndsOnlyAtSentinel(s);
    assert FreeList(s) == [s.head.index] + FreeList(s)[1..];
    ChainElements(s.memory, s.head.index, FreeList(s));
    ChainElements(s'.memory, s'.head.index, FreeList(s'));
    forall c: nat ensures SomeoneFrees(s', c) <==> SomeoneFrees(s, c) {
      OthersKeepFreeing(s, s', t, c);
    }
  }

  // ---------- reachable states ----------

  ghost predicate Reachable(capacity: nat, threads: nat, s: State) {
    exists trace, actions :: SafeRun(capacity, threads, trace, actions) && trace[|actions|] == s
  }

  /** What every step within the tag's range keeps. */
  ghost predicate Closed(reach: State -> bool) {
    forall s, a {:trigger Apply(s, a)} :: reach(s) && Enabled(s, a) && Fresh(s, a) ==> reach(Apply(s, a))
  }

  lemma RunExtends(capacity: nat, threads: nat, trace: seq<State>, actions: seq<Action>, a: Action)
    requires SafeRun(capacity, threads, trace, actions) && Enabled(trace[|actions|], a) && Fresh(trace[|actions|], a)
    ensures SafeRun(capacity, threads, trace + [Apply(trace[|actions|], a)], actions + [a])
  {
    var trace', actions' := trace + [Apply(trace[|actions|], a)], actions + [a];
    forall i {:trigger actions'[i]} | 0 <= i < |actions'|
      ensures Enabled(trace'[i], actions'[i]) && trace'[i + 1] == Apply(trace'[i], actions'[i])
      ensures Fresh(trace'[i], actions'[i])
    {
      if i < |actions| {
        assert actions'[i] == actions[i] && trace'[i] == trace[i] && trace'[i + 1] == trace[i + 1];
      }
    }
  }

  lemma ReachableStep(capacity: nat, threads: nat, s: State, a: Action)
    requires Reachable(capacity, threads, s) && Enabled(s, a) && Fresh(s, a)
    ensures Reachable(capacity, threads, Apply(s, a))
  {
    var trace, actions :| SafeRun(capacity, threads, trace, actions) && trace[|actions|] == s;
    RunExtends(capacity, threads, trace, actions, a);
    assert (trace + [Apply(s, a)])[|actions + [a]|] == Apply(s, a);
  }

  lemma ReachableIsSafe(capacity: nat, threads: nat, s: State)
    requires Reachable(capacity, threads, s)
    ensures Inv(s)
  {
    var trace, actions :| SafeRun(capacity, threads, trace, actions) && trace[|actions|] == s;
    RunIsSafe(capacity, threads, trace, actions, |actions|);
  }

  lemma ReachableClosed(capacity: nat, threads: nat)
    ensures Closed(s => Reachable(capacity, threads, s))
  {
    forall s, a | Reachable(capacity, threads, s) && Enabled(s, a) && Fresh(s, a)
      ensures Reachable(capacity, threads, Apply(s, a))
    {
      ReachableStep(capacity, threads, s, a);
    }
  }

  lemma ReachStep(reach: State -> bool, s: State, a: Action)
    requires Closed(reach) && reach(s) && Enabled(s, a) && Fresh(s, a)
    ensures reach(Apply(s, a))
  {
  }

  /** An undisturbed `make` by an idle thread. */
  lemma MakeAlone(reach: State -> bool, s: State, t: nat)
    requires Closed(reach) && reach(s) && At(s, t) && s.threads[t].Idle? && s.head.index < |s.memory| <= SENTINEL
    ensures reach(
              s.(head := Bump(s.head, s.memory[s.head.index]), taken := s.taken + {s.head.index}, ops := s.ops + 1))
  {
    LoadAndRead(reach, s, t);
    var s2 := s.(threads := s.threads[t := MakeRead(s.head, s.memory[s.head.index], s.ops)]);
    ReachStep(reach, s2, MakeCas(t));
    assert s2.threads[t := Idle] == s.threads;
  }

  /** An undisturbed `free` by an idle thread. */
  lemma FreeAlone(reach: State -> bool, s: State, t: nat, c: nat)
    requires Closed(reach) && reach(s) && At(s, t) && s.threads[t].Idle? && c in s.taken && c < |s.memory| <= SENTINEL
    ensures reach(
              s.(memory := s.memory[c := s.head.index], head := Bump(s.head, c), taken := s.taken - {c},
                 ops := s.ops + 1))
  {
    var s2 := s.(threads := s.threads[t := FreeLoaded(c, s.head, s.ops)], taken := s.taken - {c});
    CallAndLoad(reach, s, t, c);
    var s3 := s2.(threads := s.threads[t := FreeLinked(c, s.head, s.ops)], memory := s.memory[c := s.head.index]);
    ReachStep(reach, s2, Link(t));
    assert s2.threads[t := FreeLinked(c, s.head, s.ops)] == s3.threads;
    ReachStep(reach, s3, FreeCas(t));
    assert Wrap32(c) == c;
    assert s3.threads[t := Idle] == s.threads;
  }

  lemma CallAndLoad(reach: State -> bool, s: State, t: nat, c: nat)
    requires Closed(reach) && reach(s) && At(s, t) && s.threads[t].Idle? && c in s.taken
    ensures reach(s.(threads := s.threads[t := FreeLoaded(c, s.head, s.ops)], taken := s.taken - {c}))
  {
    var s1 := Apply(s, CallFree(t, c));
    ReachStep(reach, s, CallFree(t, c));
    ReachStep(reach, s1, LoadForFree(t));
    assert s1.threads[t := FreeLoaded(c, s.head, s.ops)] == s.threads[t := FreeLoaded(c, s.head, s.ops)];
  }

  // ---------- a run that exhausts the tag ----------

  /** Three cells, two threads.  Thread 0 has read `next` of cell 0 and sleeps; thread 1 has taken every
      cell and given cell 0 back, then taken and given it back `rounds` more times. */
  function Asleep(rounds: nat): State {
    State([SENTINEL, 2, SENTINEL], Head(Wrap32(4 + 2 * rounds), 0), {1, 2}, [MakeRead(Head(0, 0), 1, 0), Idle],
          4 + 2 * rounds)
  }

  lemma InitReachable(capacity: nat, threads: nat)
    requires 1 <= capacity <= SENTINEL
    ensures Reachable(capacity, threads, Init(capacity, threads))
  {
    var none: seq<Action> := [];
    assert && SafeRun(capacity, threads, [Init(capacity, threads)], none)
           && [Init(capacity, threads)][|none|] == Init(capacity, threads);
  }

  /** Thread 0 loads the head and reads `next`, then sleeps. */
  lemma FallAsleep(reach: State -> bool)
    requires Closed(reach) && reach(Init(3, 2))
    ensures reach(State([1, 2, SENTINEL], Head(0, 0), {}, [MakeRead(Head(0, 0), 1, 0), Idle], 0))
  {
    var s0 := State([1, 2, SENTINEL], Head(0, 0), {}, [Idle, Idle], 0);
    assert Init(3, 2) == s0;
    LoadAndRead(reach, s0, 0);
    assert s0.threads[0 := MakeRead(Head(0, 0), 1, 0)] == [MakeRead(Head(0, 0), 1, 0), Idle];
  }

  lemma LoadAndRead(reach: State -> bool, s: State, t: nat)
    requires Closed(reach) && reach(s) && At(s, t) && s.threads[t].Idle? && s.head.index < |s.memory| <= SENTINEL
    ensures reach(s.(threads := s.threads[t := MakeRead(s.head, s.memory[s.head.index], s.ops)]))
  {
    var s1 := Apply(s, LoadHead(t));
    ReachStep(reach, s, LoadHead(t));
    ReachStep(reach, s1, ReadNext(t));
    assert s1.threads[t := MakeRead(s.head, s.memory[s.head.index], s.ops)]
        == s.threads[t := MakeRead(s.head, s.memory[s.head.index], s.ops)];
  }

  /** Thread 1 takes all three cells and gives the first one back. */
  lemma DrainAndReturn(reach: State -> bool)
    requires Closed(reach) && reach(Init(3, 2))
    ensures reach(Asleep(0))
  {
    var s2 := State([1, 2, SENTINEL], Head(0, 0), {}, [MakeRead(Head(0, 0), 1, 0), Idle], 0);
    FallAsleep(reach);
    MakeAlone(reach, s2, 1);
    var s3 := s2.(head := Head(1, 1), taken := {0}, ops := 1);
    assert {} + {0} == s3.taken;
    MakeAlone(reach, s3, 1);
    var s4 := s3.(head := Head(2, 2), taken := {0, 1}, ops := 2);
    assert s3.taken + {1} == s4.taken;
    MakeAlone(reach, s4, 1);
    var s5 := s4.(head := Head(3, SENTINEL), taken := {0, 1, 2}, ops := 3);
    assert s4.taken + {2} == s5.taken;
    FreeAlone(reach, s5, 1, 0);
    assert s5.taken - {0} == {1, 2};
    assert s5.memory[0 := SENTINEL] == [SENTINEL, 2, SENTINEL];
  }

  /** Taking and returning the only free cell brings everything back except the tag and the count. */
  lemma TakeAndReturn(reach: State -> bool, s: State, t: nat)
    requires Closed(reach) && reach(s) && At(s, t) && s.threads[t].Idle?
    requires s.head == Head(Wrap32(s.ops), 0) && 0 !in s.taken && 0 < |s.memory| <= SENTINEL && s.memory[0] == SENTINEL
    ensures reach(s.(head := Head(Wrap32(s.ops + 2), 0), ops := s.ops + 2))
  {
    MakeAlone(reach, s, t);
    WrapSucc(s.ops);
    WrapSucc(s.ops + 1);
    var s1 := s.(head := Head(Wrap32(s.ops + 1), SENTINEL), taken := s.taken + {0}, ops := s.ops + 1);
    FreeAlone(reach, s1, t, 0);
    assert s1.taken - {0} == s.taken;
    assert s1.memory[0 := SENTINEL] == s.memory;
  }

  lemma {:induction false} SleepOn(reach: State -> bool, rounds: nat)
    requires Closed(reach) && reach(Init(3, 2))
    ensures reach(Asleep(rounds))
  {
    if rounds == 0 {
      DrainAndReturn(reach);
    } else {
      SleepOn(reach, rounds - 1);
      TakeAndReturn(reach, Asleep(rounds - 1), 1);
    }
  }

  /** The bound 2^32 is tight: there is a run with exactly 2^32 CASes between a load and its CAS in
      which a taken cell becomes the head of the free list. */
  lemma TagWrapLosesTheList() returns (s: State)
    ensures s == Asleep(0x7FFF_FFFE) && Reachable(3, 2, s) && Inv(s)
    ensures Enabled(s, MakeCas(0)) && s.ops - s.threads[0].at == B32
    ensures !Inv(Apply(s, MakeCas(0)))
    ensures Apply(s, MakeCas(0)).head.index in s.taken
  {
    var rounds := 0x7FFF_FFFE;
    ReachableClosed(3, 2);
    InitReachable(3, 2);
    SleepOn(r => Reachable(3, 2, r), rounds);
    s := Asleep(rounds);
    assert s.ops == B32 && Wrap32(B32) == 0;
    ReachableIsSafe(3, 2, s);
    MakeSafeIffNextIsCurrent(s, 0);
  }

  /** And it is handed out twice: after that `make`, an undisturbed `make` by the other thread completes
      with a cell that is already taken. */
  lemma TagWrapHandsOutTwice() returns (s: State)
    ensures exists s0 :: Reachable(3, 2, s0) && Enabled(s0, MakeCas(0)) && MadeNext(Apply(s0, MakeCas(0)), s)
    ensures Enabled(s, MakeCas(1)) && Completes(s, MakeCas(1)) == [Popped(1)] && 1 in s.taken
  {
    var s0 := TagWrapLosesTheList();
    s := Apply(Apply(Apply(s0, MakeCas(0)), LoadHead(1)), ReadNext(1));
    assert MadeNext(Apply(s0, MakeCas(0)), s);
  }

  /** Thread 1, idle before, has loaded the head and read the link, and nothing else happened. */
  ghost predicate MadeNext(s: State, s': State) {
    && Enabled(s, LoadHead(1)) && Enabled(Apply(s, LoadHead(1)), ReadNext(1))
    && s' == Apply(Apply(s, LoadHead(1)), ReadNext(1))
  }
}
