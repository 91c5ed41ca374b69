/** The pool's free list as a concurrent protocol: any number of threads run `make` and `free`
against one tagged head word, one atomic access per step.

Interleavings are sequentially consistent.  Cells are unions of payload and `next`, so the owner of
an allocated cell may write any word over its `next` at any time while another thread still reads it.
A CAS is weak: it may fail although the head is the expected one, and a failure reloads the head.
`ops` and every `at` are history: the number of successful CASes so far, and that number when the
thread last loaded the head. */
module TaggedStack {
  import opened Words
  import opened FreeLists

  /** Where a thread stands inside `make` or `free`, with the locals it still needs. */
  datatype Pc =
    | Idle
    | MakeLoaded(head: Head, at: nat)
    | MakeRead(head: Head, next: Word32, at: nat)
    | FreeCalled(cell: nat)
    | FreeLoaded(cell: nat, head: Head, at: nat)
    | FreeLinked(cell: nat, head: Head, at: nat)
  {
    predicate Frees(c: nat) { (FreeCalled? || FreeLoaded? || FreeLinked?) && cell == c }
    predicate HasSnapshot() { MakeLoaded? || MakeRead? || FreeLoaded? || FreeLinked? }
  }

  /** `taken` holds the cells handed out by `make` and not yet given to `free`. */
  datatype State = State(memory: seq<Word32>, head: Head, taken: set<nat>, threads: seq<Pc>, ops: nat)

  datatype Action =
    | LoadHead(t: nat)             // make: load the head
    | ReturnNull(t: nat)           // make: the loaded index is the sentinel
    | ReadNext(t: nat)             // make: read memory[idx].next, possibly of a cell taken meanwhile
    | MakeCas(t: nat)              // make: CAS succeeds, the cell is handed out
    | MakeRetry(t: nat)            // make: CAS fails and reloads
    | CallFree(t: nat, c: nat)     // free: the owner gives the cell up, the destructor runs
    | LoadForFree(t: nat)          // free: load the head
    | Link(t: nat)                 // free: write memory[idx].next
    | FreeCas(t: nat)              // free: CAS succeeds
    | FreeRetry(t: nat)            // free: CAS fails and reloads
    | Scribble(c: nat, w: Word32)  // an owner (or the destructor) overwrites the union

  predicate At(s: State, t: nat) { t < |s.threads| }

  predicate Enabled(s: State, a: Action) {
    match a
    case LoadHead(t) => At(s, t) && s.threads[t].Idle?
    case ReturnNull(t) => At(s, t) && s.threads[t].MakeLoaded? && s.threads[t].head.index == SENTINEL
    case ReadNext(t) => At(s, t) && s.threads[t].MakeLoaded? && s.threads[t].head.index != SENTINEL
    case MakeCas(t) => At(s, t) && s.threads[t].MakeRead? && s.head == s.threads[t].head
    case MakeRetry(t) => At(s, t) && s.threads[t].MakeRead?
    case CallFree(t, c) => At(s, t) && s.threads[t].Idle? && c in s.taken
    case LoadForFree(t) => At(s, t) && s.threads[t].FreeCalled?
    case Link(t) => At(s, t) && s.threads[t].FreeLoaded?
    case FreeCas(t) => At(s, t) && s.threads[t].FreeLinked? && s.head == s.threads[t].head
    case FreeRetry(t) => At(s, t) && s.threads[t].FreeLinked?
    case Scribble(c, _) => c in s.taken || exists t :: 0 <= t < |s.threads| && s.threads[t] == FreeCalled(c)
  }

  /** Memory accesses are written totally here; `IndicesInBounds` shows they never leave the pool. */
  function ReadCell(memory: seq<Word32>, c: nat): Word32 { if c < |memory| then memory[c] else 0 }
  function WriteCell(memory: seq<Word32>, c: nat, w: Word32): seq<Word32> {
    if c < |memory| then memory[c := w] else memory
  }

  function Goto(s: State, t: nat, pc: Pc): State
    requires At(s, t)
  {
    s.(threads := s.threads[t := pc])
  }

  function Apply(s: State, a: Action): State
    requires Enabled(s, a)
  {
    match a
    case LoadHead(t) => Goto(s, t, MakeLoaded(s.head, s.ops))
    case ReturnNull(t) => Goto(s, t, Idle)
    case ReadNext(t) =>
      var pc := s.threads[t];
      Goto(s, t, MakeRead(pc.head, ReadCell(s.memory, pc.head.index), pc.at))
    case MakeCas(t) =>
      var pc := s.threads[t];
      Goto(s, t, Idle).(head := Bump(pc.head, pc.next), ops := s.ops + 1,
                        taken := s.taken + {pc.head.index})
    case MakeRetry(t) => Goto(s, t, MakeLoaded(s.head, s.ops))
    case CallFree(t, c) => Goto(s, t, FreeCalled(c)).(taken := s.taken - {c})
    case LoadForFree(t) => Goto(s, t, FreeLoaded(s.threads[t].cell, s.head, s.ops))
    case Link(t) =>
      var pc := s.threads[t];
      Goto(s, t, FreeLinked(pc.cell, pc.head, pc.at)).(memory := WriteCell(s.memory, pc.cell, pc.head.index))
    case FreeCas(t) =>
      var pc := s.threads[t];
      Goto(s, t, Idle).(head := Bump(pc.head, Wrap32(pc.cell)), ops := s.ops + 1)
    case FreeRetry(t) => Goto(s, t, FreeLoaded(s.threads[t].cell, s.head, s.ops))
    case Scribble(c, w) => s.(memory := WriteCell(s.memory, c, w))
  }

  function Init(capacity: nat, threads: nat): State
    requires 1 <= capacity <= SENTINEL
  {
    State(FreshMemory(capacity), Head(0, 0), {}, seq(threads, _ => Idle), 0)
  }

  /** A `make` succeeds only before the tag has gone all the way round: fewer than 2^32 successful CASes
      since this thread loaded the head.  `free` needs no such bound. */
  predicate Fresh(s: State, a: Action)
    requires Enabled(s, a)
  {
    a.MakeCas? ==> s.ops - s.threads[a.t].at < B32
  }

  // ---------- invariant ----------

  /** The free list, read off the real memory by following `next` from the head. */
  function FreeList(s: State): seq<nat> { Walk(s.memory, s.head.index, |s.memory|) }

  ghost predicate SomeoneFrees(s: State, c: nat) {
    exists t :: 0 <= t < |s.threads| && s.threads[t].Frees(c)
  }

  /** The list from the head is finite, sentinel-terminated and duplicate-free. */
  ghost predicate ListInv(s: State) {
    && 1 <= |s.memory| <= SENTINEL
    && Chain(s.memory, s.head.index, FreeList(s))
    && Distinct(FreeList(s))
  }

  /** Every cell is in exactly one of: the free list, the allocated set, one thread's `free` call. */
  ghost predicate PartitionInv(s: State) {
    && (forall c :: c in FreeList(s) ==> c !in s.taken && !SomeoneFrees(s, c))
    && (forall c :: c in s.taken ==> c < |s.memory| && !SomeoneFrees(s, c))
    && (forall t, c: nat :: 0 <= t < |s.threads| && s.threads[t].Frees(c) ==> c < |s.memory|)
    && (forall t, u, c: nat ::
          0 <= t < |s.threads| && 0 <= u < |s.threads| && s.threads[t].Frees(c) && s.threads[u].Frees(c) ==> t == u)
    && (forall c :: 0 <= c < |s.memory| ==> c in FreeList(s) || c in s.taken || SomeoneFrees(s, c))
  }

  /** What a thread's locals say about the shared state; `at == ops` means no CAS since its load. */
  ghost predicate SnapshotInv(s: State, pc: Pc) {
    pc.HasSnapshot() ==>
      && pc.at <= s.ops
      && pc.head.tag == Wrap32(pc.at)
      && (pc.head.index == SENTINEL || pc.head.index < |s.memory|)
      && (pc.at == s.ops ==> pc.head == s.head)
      && (pc.MakeRead? ==> pc.head.index != SENTINEL)
      && (pc.MakeRead? && pc.at == s.ops ==> pc.next == s.memory[pc.head.index])
      && (pc.FreeLinked? ==> pc.cell < |s.memory| && s.memory[pc.cell] == pc.head.index)
  }

  ghost predicate Inv(s: State) {
    && ListInv(s)
    && PartitionInv(s)
    && s.head.tag == Wrap32(s.ops)
    && forall t :: 0 <= t < |s.threads| ==> SnapshotInv(s, s.threads[t])
  }

  lemma InitInv(capacity: nat, threads: nat)
    requires 1 <= capacity <= SENTINEL
    ensures Inv(Init(capacity, threads))
    ensures FreeList(Init(capacity, threads)) == Range(0, capacity)
  {
    var s := Init(capacity, threads);
    FreshChain(capacity, 0);
    WalkFindsList(s.memory, 0, Range(0, capacity));
    forall c | 0 <= c < capacity ensures c in FreeList(s) {
      assert Range(0, capacity)[c] == c;
    }
  }

  // ---------- each step keeps the invariant ----------

  /** The 32-bit tag identifies the snapshot as long as it has not gone round. */
  lemma EqualTagsMeanNoCas(at: nat, ops: nat)
    requires at <= ops < at + B32 && Wrap32(at) == Wrap32(ops)
    ensures at == ops
  {
  }

  /** A `make` that succeeds within the tag's range saw the current list: its locals are exact. */
  lemma CasSawCurrentHead(s: State, t: nat)
    requires Inv(s) && Enabled(s, MakeCas(t)) && Fresh(s, MakeCas(t))
    ensures s.threads[t].at == s.ops
    ensures s.head.index < |s.memory| && s.threads[t].next == s.memory[s.head.index]
  {
    assert SnapshotInv(s, s.threads[t]);
    EqualTagsMeanNoCas(s.threads[t].at, s.ops);
  }

  lemma EndsOnlyAtSentinel(s: State)
    requires ListInv(s)
    ensures FreeList(s) == [] <==> s.head.index == SENTINEL
    ensures FreeList(s) != [] ==> FreeList(s)[0] == s.head.index < |s.memory|
  {
  }

  /** The heart of the protocol: a `make` keeps the list intact if the `next` it read is the current one. */
  lemma MakeCasStep(s: State, t: nat)
    requires Inv(s) && Enabled(s, MakeCas(t))
    requires s.head.index < |s.memory| && s.threads[t].next == s.memory[s.head.index]
    ensures FreeList(s) != [] && FreeList(s)[0] == s.head.index
    ensures FreeList(Apply(s, MakeCas(t))) == FreeList(s)[1..]
    ensures Inv(Apply(s, MakeCas(t)))
  {
    var s' := Apply(s, MakeCas(t));
    EndsOnlyAtSentinel(s);
    WalkFindsList(s'.memory, s'.head.index, FreeList(s)[1..]);
    MakeCasPartition(s, t);
    WrapSucc(s.ops);
    CasKeepsSnapshots(s, s', t);
  }

  /** After a CAS every other thread's snapshot is out of date, and stays truthful about that. */
  lemma CasKeepsSnapshots(s: State, s': State, t: nat)
    requires Inv(s) && At(s, t)
    requires s'.memory == s.memory && s'.ops == s.ops + 1 && s'.threads == s.threads[t := Idle]
    ensures forall u :: 0 <= u < |s'.threads| ==> SnapshotInv(s', s'.threads[u])
  {
    forall u | 0 <= u < |s'.threads| ensures SnapshotInv(s', s'.threads[u]) {
      assert SnapshotInv(s, s.threads[u]);
    }
  }

  lemma MakeCasPartition(s: State, t: nat)
    requires Inv(s) && Enabled(s, MakeCas(t))
    requires FreeList(s) != [] && FreeList(s)[0] == s.head.index
    requires FreeList(Apply(s, MakeCas(t))) == FreeList(s)[1..]
    ensures PartitionInv(Apply(s, MakeCas(t)))
  {
    var s' := Apply(s, MakeCas(t));
    var xs := FreeList(s);
    assert xs == [xs[0]] + xs[1..];
    assert xs[0] !in xs[1..];
    forall c ensures SomeoneFrees(s', c) <==> SomeoneFrees(s, c) {
      OthersKeepFreeing(s, s', t, c);
    }
  }

  /** Thread `t` frees nothing before or after, and no other thread moved. */
  lemma OthersKeepFreeing(s: State, s': State, t: nat, c: nat)
    requires At(s, t) && |s'.threads| == |s.threads|
    requires forall u :: 0 <= u < |s.threads| && u != t ==> s'.threads[u] == s.threads[u]
    requires s'.threads[t].Frees(c) <==> s.threads[t].Frees(c)
    ensures SomeoneFrees(s', c) <==> SomeoneFrees(s, c)
  {
    if u :| 0 <= u < |s.threads| && s.threads[u].Frees(c) {
      assert s'.threads[u].Frees(c);
    }
    if u :| 0 <= u < |s'.threads| && s'.threads[u].Frees(c) {
      assert s.threads[u].Frees(c);
    }
  }

  lemma FreeCasStep(s: State, t: nat)
    requires Inv(s) && Enabled(s, FreeCas(t))
    ensures FreeList(Apply(s, FreeCas(t))) == [s.threads[t].cell] + FreeList(s)
    ensures Inv(Apply(s, FreeCas(t)))
  {
    var s' := Apply(s, FreeCas(t));
    FreeCasList(s, t);
    FreeCasPartition(s, t);
    WrapSucc(s.ops);
    CasKeepsSnapshots(s, s', t);
  }

  lemma FreeCasList(s: State, t: nat)
    requires Inv(s) && Enabled(s, FreeCas(t))
    ensures FreeList(Apply(s, FreeCas(t))) == [s.threads[t].cell] + FreeList(s)
    ensures ListInv(Apply(s, FreeCas(t)))
  {
    var s' := Apply(s, FreeCas(t));
    var c, xs := s.threads[t].cell, FreeList(s);
    assert SnapshotInv(s, s.threads[t]);
    assert s.threads[t].Frees(c);
    assert SomeoneFrees(s, c);
    PushOntoChain(s.memory, c, s.head.index, xs);
    assert s'.head.index == c;
    WalkFindsList(s'.memory, c, [c] + xs);
  }

  lemma FreeCasPartition(s: State, t: nat)
    requires Inv(s) && Enabled(s, FreeCas(t))
    requires FreeList(Apply(s, FreeCas(t))) == [s.threads[t].cell] + FreeList(s)
    ensures PartitionInv(Apply(s, FreeCas(t)))
  {
    var s' := Apply(s, FreeCas(t));
    var c := s.threads[t].cell;
    assert s.threads[t].Frees(c) && SomeoneFrees(s, c);
    forall d ensures SomeoneFrees(s', d) <==> SomeoneFrees(s, d) && d != c {
      if d != c {
        OthersKeepFreeing(s, s', t, d);
      }
    }
  }

  /** A step that moves one thread without a CAS: no freed cell changes hands, no memory is written. */
  lemma LocalStep(s: State, t: nat, pc: Pc)
    requires Inv(s) && At(s, t)
    requires forall c :: pc.Frees(c) <==> s.threads[t].Frees(c)
    requires SnapshotInv(s, pc)
    ensures FreeList(Goto(s, t, pc)) == FreeList(s)
    ensures Inv(Goto(s, t, pc))
  {
    var s' := Goto(s, t, pc);
    forall c ensures SomeoneFrees(s', c) <==> SomeoneFrees(s, c) {
      OthersKeepFreeing(s, s', t, c);
    }
    forall u | 0 <= u < |s'.threads| ensures SnapshotInv(s', s'.threads[u]) {
      assert SnapshotInv(s, s.threads[u]);
    }
  }

  lemma CallFreeStep(s: State, t: nat, c: nat)
    requires Inv(s) && Enabled(s, CallFree(t, c))
    ensures FreeList(Apply(s, CallFree(t, c))) == FreeList(s)
    ensures Inv(Apply(s, CallFree(t, c)))
  {
    var s' := Apply(s, CallFree(t, c));
    assert s'.threads[t].Frees(c);
    forall d ensures SomeoneFrees(s', d) <==> SomeoneFrees(s, d) || d == c {
      if d != c {
        OthersKeepFreeing(s, s', t, d);
      }
    }
    forall u | 0 <= u < |s'.threads| ensures SnapshotInv(s', s'.threads[u]) {
      assert SnapshotInv(s, s.threads[u]);
    }
  }

  /** A write to a cell off the free list that no other thread has linked. */
  lemma WriteStep(s: State, c: nat, w: Word32)
    requires Inv(s) && c < |s.memory| && c !in FreeList(s)
    requires forall u :: 0 <= u < |s.threads| ==> !(s.threads[u].FreeLinked? && s.threads[u].cell == c)
    ensures FreeList(s.(memory := s.memory[c := w])) == FreeList(s)
    ensures Inv(s.(memory := s.memory[c := w]))
  {
    var s' := s.(memory := s.memory[c := w]);
    ChainFrame(s.memory, s.head.index, FreeList(s), c, w);
    WalkFindsList(s'.memory, s.head.index, FreeList(s));
    forall d ensures SomeoneFrees(s', d) <==> SomeoneFrees(s, d) {
    }
    forall u | 0 <= u < |s'.threads| ensures SnapshotInv(s', s'.threads[u]) {
      assert SnapshotInv(s, s.threads[u]);
      EndsOnlyAtSentinel(s);
    }
  }

  lemma LinkStep(s: State, t: nat)
    requires Inv(s) && Enabled(s, Link(t))
    ensures FreeList(Apply(s, Link(t))) == FreeList(s)
    ensures Inv(Apply(s, Link(t)))
  {
    var pc := s.threads[t];
    assert pc.Frees(pc.cell) && SomeoneFrees(s, pc.cell);
    assert SnapshotInv(s, pc);
    forall u | 0 <= u < |s.threads| ensures !(s.threads[u].FreeLinked? && s.threads[u].cell == pc.cell) {
      assert s.threads[u].Frees(pc.cell) ==> u == t;
    }
    var m := s.(memory := s.memory[pc.cell := pc.head.index]);
    WriteStep(s, pc.cell, pc.head.index);
    LocalStep(m, t, FreeLinked(pc.cell, pc.head, pc.at));
  }

  lemma ScribbleStep(s: State, c: nat, w: Word32)
    requires Inv(s) && Enabled(s, Scribble(c, w))
    ensures FreeList(Apply(s, Scribble(c, w))) == FreeList(s)
    ensures Inv(Apply(s, Scribble(c, w)))
  {
    if c !in s.taken {
      var t :| 0 <= t < |s.threads| && s.threads[t] == FreeCalled(c);
      assert s.threads[t].Frees(c);
    }
    forall u | 0 <= u < |s.threads| ensures !(s.threads[u].FreeLinked? && s.threads[u].cell == c) {
      assert s.threads[u].Frees(c) ==> s.threads[u] == FreeCalled(c);
    }
    WriteStep(s, c, w);
  }

  /** What one step does to the abstract LIFO stack: the two successful CASes pop and push, nothing else moves it. */
  ghost function StackAfter(s: State, a: Action): seq<nat>
    requires Enabled(s, a)
  {
    match a
    case MakeCas(_) => if FreeList(s) == [] then [] else FreeList(s)[1..]
    case FreeCas(t) => [s.threads[t].cell] + FreeList(s)
    case _ => FreeList(s)
  }

  /** Every step, in every state the protocol can be in, keeps the invariant and refines the LIFO stack. */
  lemma StepKeepsInv(s: State, a: Action)
    requires Inv(s) && Enabled(s, a) && Fresh(s, a)
    ensures Inv(Apply(s, a))
    ensures FreeList(Apply(s, a)) == StackAfter(s, a)
    ensures a.MakeCas? ==> FreeList(s) != [] && FreeList(s)[0] == s.threads[a.t].head.index
  {
    if !a.Scribble? {
      assert SnapshotInv(s, s.threads[a.t]);
    }
    EndsOnlyAtSentinel(s);
    match a
    case LoadHead(t) => LocalStep(s, t, MakeLoaded(s.head, s.ops));
    case ReturnNull(t) => LocalStep(s, t, Idle);
    case ReadNext(t) =>
      var pc := s.threads[t];
      LocalStep(s, t, MakeRead(pc.head, ReadCell(s.memory, pc.head.index), pc.at));
    case MakeCas(t) =>
      CasSawCurrentHead(s, t);
      MakeCasStep(s, t);
    case MakeRetry(t) => LocalStep(s, t, MakeLoaded(s.head, s.ops));
    case CallFree(t, c) => CallFreeStep(s, t, c);
    case LoadForFree(t) => LocalStep(s, t, FreeLoaded(s.threads[t].cell, s.head, s.ops));
    case Link(t) => LinkStep(s, t);
    case FreeCas(t) => FreeCasStep(s, t);
    case FreeRetry(t) => LocalStep(s, t, FreeLoaded(s.threads[t].cell, s.head, s.ops));
    case Scribble(c, w) => ScribbleStep(s, c, w);
  }

  // ---------- a thread on its own ----------

  /** The steps can be taken one after the other, with no other step between them. */
  ghost predicate Can(s: State, steps: seq<Action>)
    decreases steps
  {
    steps == [] || (Enabled(s, steps[0]) && Can(Apply(s, steps[0]), steps[1..]))
  }

  ghost function After(s: State, steps: seq<Action>): State
    requires Can(s, steps)
    decreases steps
  {
    if steps == [] then s else After(Apply(s, steps[0]), steps[1..])
  }

  lemma TwoSteps(s: State, a: Action, b: Action)
    requires Enabled(s, a) && Enabled(Apply(s, a), b)
    ensures Can(s, [a, b]) && After(s, [a, b]) == Apply(Apply(s, a), b)
  {
    assert [a, b][1..] == [b] && [b][1..] == [];
    assert After(Apply(s, a), [b]) == Apply(Apply(s, a), b);
  }

  lemma {:induction false} StepsJoin(s: State, a: seq<Action>, b: seq<Action>)
    requires Can(s, a) && Can(After(s, a), b)
    ensures Can(s, a + b) && After(s, a + b) == After(After(s, a), b)
    decreases a
  {
    if a == [] {
      assert a + b == b;
    } else {
      assert (a + b)[0] == a[0] && (a + b)[1..] == a[1..] + b;
      StepsJoin(Apply(s, a[0]), a[1..], b);
    }
  }

  lemma OneStepMore(s: State, steps: seq<Action>, a: Action)
    requires Can(s, steps) && Enabled(After(s, steps), a)
    ensures Can(s, steps + [a]) && After(s, steps + [a]) == Apply(After(s, steps), a)
  {
    assert [a][1..] == [];
    StepsJoin(s, steps, [a]);
  }

  /** The steps of a `make` that finds a cell, of one that finds none, and of a `free`. */
  function MakeSteps(t: nat): seq<Action> { [LoadHead(t), ReadNext(t)] + [MakeCas(t)] }
  function NullSteps(t: nat): seq<Action> { [LoadHead(t), ReturnNull(t)] }
  function FreeSteps(t: nat, c: nat): seq<Action> { [CallFree(t, c), LoadForFree(t)] + [Link(t)] + [FreeCas(t)] }

  /** What the steps of an undisturbed `make` do, whatever the list looks like. */
  lemma MakeStepsDo(s: State, t: nat)
    requires At(s, t) && s.threads[t].Idle? && s.head.index != SENTINEL && s.head.index < |s.memory|
    ensures Can(s, MakeSteps(t))
    ensures After(s, MakeSteps(t)) ==
            s.(head := Head((s.head.tag + 1) % 0x1_0000_0000, s.memory[s.head.index]),
               taken := s.taken + {s.head.index}, ops := s.ops + 1)
  {
    var s1 := Apply(s, LoadHead(t));
    var s2 := Apply(s1, ReadNext(t));
    TwoSteps(s, LoadHead(t), ReadNext(t));
    OneStepMore(s, [LoadHead(t), ReadNext(t)], MakeCas(t));
    assert s2.threads[t := Idle] == s.threads;
  }

  lemma FreeStepsDo(s: State, t: nat, c: nat)
    requires At(s, t) && s.threads[t].Idle? && c in s.taken && c < |s.memory| <= SENTINEL
    ensures Can(s, FreeSteps(t, c))
    ensures After(s, FreeSteps(t, c)) ==
            s.(memory := s.memory[c := s.head.index], head := Head((s.head.tag + 1) % 0x1_0000_0000, c),
               taken := s.taken - {c}, ops := s.ops + 1)
  {
    var s2 := Apply(Apply(s, CallFree(t, c)), LoadForFree(t));
    TwoSteps(s, CallFree(t, c), LoadForFree(t));
    OneStepMore(s, [CallFree(t, c), LoadForFree(t)], Link(t));
    OneStepMore(s, [CallFree(t, c), LoadForFree(t)] + [Link(t)], FreeCas(t));
    assert Apply(s2, Link(t)).threads[t := Idle] == s.threads;
  }

  /** Obstruction freedom of `make`: from any state of the protocol, a thread that runs alone gets the first
      free cell in three steps, and then the tag has moved, or null in two when there is none. */
  lemma MakeAlone(s: State, t: nat)
    requires Inv(s) && At(s, t) && s.threads[t].Idle?
    ensures FreeList(s) == [] ==> Can(s, NullSteps(t)) && After(s, NullSteps(t)) == s
    ensures FreeList(s) != [] ==>
              && Can(s, MakeSteps(t))
              && var s' := After(s, MakeSteps(t));
                 && FreeList(s') == FreeList(s)[1..] && s'.taken == s.taken + {FreeList(s)[0]}
                 && s'.head.tag == (s.head.tag + 1) % 0x1_0000_0000
                 && s'.memory == s.memory && s'.threads == s.threads
  {
    EndsOnlyAtSentinel(s);
    if FreeList(s) == [] {
      TwoSteps(s, LoadHead(t), ReturnNull(t));
      assert Apply(Apply(s, LoadHead(t)), ReturnNull(t)).threads == s.threads;
    } else {
      MakeStepsDo(s, t);
      WalkFindsList(s.memory, s.memory[s.head.index], FreeList(s)[1..]);
    }
  }

  /** Obstruction freedom of `free`. */
  lemma FreeAlone(s: State, t: nat, c: nat)
    requires Inv(s) && At(s, t) && s.threads[t].Idle? && c in s.taken
    ensures Can(s, FreeSteps(t, c))
    ensures var s' := After(s, FreeSteps(t, c));
            && FreeList(s') == [c] + FreeList(s) && s'.taken == s.taken - {c}
            && s'.head.tag == (s.head.tag + 1) % 0x1_0000_0000 && s'.threads == s.threads
  {
    FreeStepsDo(s, t, c);
    ChainFrame(s.memory, s.head.index, FreeList(s), c, s.head.index);
    PushOntoChain(s.memory[c := s.head.index], c, s.head.index, FreeList(s));
    WalkFindsList(s.memory[c := s.head.index], c, [c] + FreeList(s));
  }

  /** A failed swap is a fresh start: the thread is where it was after its first load, with the present head. */
  lemma RetryStartsOver(s: State, t: nat)
    requires At(s, t)
    ensures Enabled(s, MakeRetry(t)) ==> Apply(s, MakeRetry(t)) == Apply(Goto(s, t, Idle), LoadHead(t))
    ensures Enabled(s, FreeRetry(t)) ==>
              Apply(s, FreeRetry(t)) == Apply(Goto(s, t, FreeCalled(s.threads[t].cell)), LoadForFree(t))
  {
  }
}
