/** `pool<T>` as one thread sees it: the real packed head word, the union cells, the CAS retry loops. */
module Pool {
  import opened Words
  import opened Options
  import opened FreeLists
  import TaggedStack

  /** The halves of the cells' words that the pool ever looks at. */
  function LowHalves(memory: seq<Word64>): (low: seq<Word32>)
    ensures |low| == |memory| && forall i :: 0 <= i < |low| ==> low[i] == Wrap32(memory[i])
  {
    seq(|memory|, i requires 0 <= i < |memory| => Wrap32(memory[i]))
  }

  /** The list met by following `next` from the index half of a packed head. */
  function CellsFrom(memory: seq<Word64>, head: Word64): seq<nat> {
    Walk(LowHalves(memory), Unpack(head).index, |memory|)
  }

  ghost predicate WellFormed(memory: seq<Word64>, head: Word64) {
    && 1 <= |memory| <= SENTINEL
    && Chain(LowHalves(memory), Unpack(head).index, CellsFrom(memory, head))
    && Distinct(CellsFrom(memory, head))
  }

  lemma UnpackByMask(head: Word64)
    ensures BitAnd(head, SENTINEL) == Unpack(head).index
  {
    Pow2Of32();
    MaskIsRemainder(head, 32);
  }

  lemma BumpedHead(head: Word64, low: Word64)
    ensures BumpWord(head, low) < B64 && Unpack(BumpWord(head, low)) == Bump(Unpack(head), Wrap32(low))
  {
    BumpIsShiftAndMask(head, low);
    PackUnpack(Bump(Unpack(head), Wrap32(low)), head);
  }

  lemma FreshPool(memory: seq<Word64>)
    requires 1 <= |memory| <= SENTINEL && memory[|memory| - 1] == SENTINEL
    requires forall k :: 0 <= k < |memory| - 1 ==> memory[k] == k + 1
    ensures WellFormed(memory, 0) && CellsFrom(memory, 0) == Range(0, |memory|)
  {
    var n := |memory|;
    assert LowHalves(memory) == FreshMemory(n);
    FreshChain(n, 0);
    WalkFindsList(FreshMemory(n), 0, Range(0, n));
  }

  lemma ListWitness(memory: seq<Word64>, head: Word64, xs: seq<nat>)
    requires 1 <= |memory| <= SENTINEL && Chain(LowHalves(memory), Unpack(head).index, xs) && Distinct(xs)
    ensures WellFormed(memory, head) && CellsFrom(memory, head) == xs
  {
    WalkFindsList(LowHalves(memory), Unpack(head).index, xs);
  }

  lemma LowHalvesUpdate(memory: seq<Word64>, idx: nat, w: Word64)
    requires idx < |memory|
    ensures LowHalves(memory[idx := w]) == LowHalves(memory)[idx := Wrap32(w)]
  {
  }

  /** Taking the first cell, and whatever is constructed in it, leaves the rest of the list. */
  lemma TakeFirst(memory: seq<Word64>, head: Word64, payload: Word64)
    requires WellFormed(memory, head) && Unpack(head).index != SENTINEL
    ensures var idx := Unpack(head).index;
            && CellsFrom(memory, head) != [] && CellsFrom(memory, head)[0] == idx < |memory|
            && BumpWord(head, memory[idx]) < B64
            && WellFormed(memory[idx := payload], BumpWord(head, memory[idx]))
            && CellsFrom(memory[idx := payload], BumpWord(head, memory[idx])) == CellsFrom(memory, head)[1..]
  {
    var low, idx, xs := LowHalves(memory), Unpack(head).index, CellsFrom(memory, head);
    BumpedHead(head, memory[idx]);
    assert xs[0] !in xs[1..];
    ChainFrame(low, low[idx], xs[1..], idx, Wrap32(payload));
    LowHalvesUpdate(memory, idx, payload);
    ListWitness(memory[idx := payload], BumpWord(head, memory[idx]), xs[1..]);
  }

  /** Linking a cell to the current first one and installing it puts it on the list. */
  lemma PutFirst(memory: seq<Word64>, head: Word64, first: Word32, idx: nat)
    requires WellFormed(memory, head) && first == Unpack(head).index
    requires idx < |memory| && idx !in CellsFrom(memory, head)
    ensures BumpWord(head, idx) < B64
    ensures WellFormed(memory[idx := first], BumpWord(head, idx))
    ensures CellsFrom(memory[idx := first], BumpWord(head, idx)) == [idx] + CellsFrom(memory, head)
  {
    var low, xs := LowHalves(memory), CellsFrom(memory, head);
    BumpedHead(head, idx);
    WrapSmall(idx);
    WrapSmall(first);
    LowHalvesUpdate(memory, idx, first);
    ChainFrame(low, first, xs, idx, first);
    PushOntoChain(low[idx := first], idx, first, xs);
    ListWitness(memory[idx := first], BumpWord(head, idx), [idx] + xs);
  }

  lemma WrapSmall(n: nat)
    requires n < B32
    ensures Wrap32(n) == n
  {
  }

  // ---------- the protocol's steps ----------

  /** This memory and head word as a state of the protocol with one thread, which is idle. */
  function Alone(memory: seq<Word64>, head: Word64, taken: set<nat>, ops: nat): TaggedStack.State {
    TaggedStack.State(LowHalves(memory), Unpack(head), taken, [TaggedStack.Idle], ops)
  }

  /** The change is an undisturbed `make` of the protocol: load, read, swap, then the payload written. */
  ghost predicate MakesAlone(
    memory: seq<Word64>, head: Word64, payload: Word64, memory': seq<Word64>, head': Word64)
  {
    var s, c := Alone(memory, head, {}, 0), Unpack(head).index;
    var steps := TaggedStack.MakeSteps(0) + [TaggedStack.Scribble(c, Wrap32(payload))];
    TaggedStack.Can(s, steps) && TaggedStack.After(s, steps) == Alone(memory', head', {c}, 1)
  }

  /** The change is an undisturbed `free` of the protocol: load, link, swap. */
  ghost predicate FreesAlone(memory: seq<Word64>, head: Word64, c: nat, memory': seq<Word64>, head': Word64) {
    var s, steps := Alone(memory, head, {c}, 0), TaggedStack.FreeSteps(0, c);
    TaggedStack.Can(s, steps) && TaggedStack.After(s, steps) == Alone(memory', head', {}, 1)
  }

  lemma MakeIsProtocol(memory: seq<Word64>, head: Word64, payload: Word64)
    requires Unpack(head).index < |memory| <= SENTINEL
    ensures BumpWord(head, memory[Unpack(head).index]) < B64
    ensures var c := Unpack(head).index;
            MakesAlone(memory, head, payload, memory[c := payload], BumpWord(head, memory[c]))
  {
    var c, s := Unpack(head).index, Alone(memory, head, {}, 0);
    TaggedStack.MakeStepsDo(s, 0);
    TaggedStack.OneStepMore(s, TaggedStack.MakeSteps(0), TaggedStack.Scribble(c, Wrap32(payload)));
    BumpedHead(head, memory[c]);
    LowHalvesUpdate(memory, c, payload);
  }

  lemma FreeIsProtocol(memory: seq<Word64>, head: Word64, first: Word32, c: nat)
    requires c < |memory| <= SENTINEL && first == Unpack(head).index
    ensures BumpWord(head, c) < B64 && FreesAlone(memory, head, c, memory[c := first], BumpWord(head, c))
  {
    TaggedStack.FreeStepsDo(Alone(memory, head, {c}, 0), 0, c);
    BumpedHead(head, c);
    WrapSmall(c);
    WrapSmall(first);
    LowHalvesUpdate(memory, c, first);
  }

  /** What a `free` that has linked its cell and swapped the head has done. */
  lemma FreeDone(memory: seq<Word64>, head: Word64, c: nat, memory': seq<Word64>)
    requires WellFormed(memory, head) && c < |memory| && c !in CellsFrom(memory, head)
    requires memory' == memory[c := Unpack(head).index]
    ensures BumpWord(head, c) < B64 && WellFormed(memory', BumpWord(head, c))
    ensures CellsFrom(memory', BumpWord(head, c)) == [c] + CellsFrom(memory, head)
    ensures Unpack(BumpWord(head, c)).tag == (Unpack(head).tag + 1) % 0x1_0000_0000
    ensures FreesAlone(memory, head, c, memory', BumpWord(head, c))
  {
    PutFirst(memory, head, Unpack(head).index, c);
    FreeIsProtocol(memory, head, Unpack(head).index, c);
    BumpedHead(head, c);
  }

  class Pool {
    const memory: array<Word64>
    var freeHead: Word64

    ghost predicate Valid()
      reads this, memory
    {
      WellFormed(memory[..], freeHead)
    }

    /** The free cells, first to be handed out first. */
    ghost function Cells(): seq<nat>
      reads this, memory
    {
      CellsFrom(memory[..], freeHead)
    }

    constructor (capacity: nat)
      requires 1 <= capacity <= SENTINEL
      ensures Valid() && fresh(memory) && memory.Length == capacity
      ensures Cells() == Range(0, capacity)
    {
      memory := new Word64[capacity];
      freeHead := 0;
      new;
      for i := 0 to capacity - 1
        invariant freeHead == 0 && forall k :: 0 <= k < i ==> memory[k] == k + 1
      {
        memory[i] := i + 1;
      }
      memory[capacity - 1] := SENTINEL;
      FreshPool(memory[..]);
    }

    /** `make`: null when no cell is free, otherwise the first free cell, overwritten by its payload.
        The CAS fails `failures` times for no reason before it is allowed to succeed. */
    method Make(payload: Word64, failures: nat) returns (cell: Option<nat>)
      requires Valid()
      modifies this, memory
      ensures Valid()
      ensures old(Cells()) == [] ==>
                cell == None && Cells() == [] && freeHead == old(freeHead) && memory[..] == old(memory[..])
      ensures old(Cells()) != [] ==>
                && cell == Some(old(Cells())[0])
                && Cells() == old(Cells())[1..]
                && cell.value < memory.Length && memory[..] == old(memory[..])[cell.value := payload]
                && Unpack(freeHead).tag == (Unpack(old(freeHead)).tag + 1) % 0x1_0000_0000
                && MakesAlone(old(memory[..]), old(freeHead), payload, memory[..], freeHead)
    {
      var head, attempt := freeHead, 0;
      while true
        invariant head == freeHead == old(freeHead) && memory[..] == old(memory[..]) && attempt <= failures
        decreases failures - attempt
      {
        var idx := BitAnd(head, SENTINEL);
        UnpackByMask(head);
        if idx == SENTINEL {
          return None;
        }
        TakeFirst(memory[..], head, payload);
        var next := memory[idx];
        var newHead := BumpWord(head, next);
        if freeHead == head && attempt == failures {
          BumpedHead(head, next);
          MakeIsProtocol(memory[..], head, payload);
          freeHead := newHead;
          memory[idx] := payload;
          return Some(idx);
        }
        head, attempt := freeHead, attempt + 1;
      }
    }

    /** `free`: null is ignored; any other cell goes back to the front of the list. */
    method Free(cell: Option<nat>, failures: nat)
      requires Valid()
      requires cell.Some? ==> cell.value < memory.Length && cell.value !in Cells()
      modifies this, memory
      ensures Valid()
      ensures Cells() == if cell.Some? then [cell.value] + old(Cells()) else old(Cells())
      ensures forall i :: 0 <= i < memory.Length && cell != Some(i) ==> memory[i] == old(memory[i])
      ensures cell.None? ==> freeHead == old(freeHead)
      ensures cell.Some? ==>
                && Unpack(freeHead).tag == (Unpack(old(freeHead)).tag + 1) % 0x1_0000_0000
                && FreesAlone(old(memory[..]), old(freeHead), cell.value, memory[..], freeHead)
    {
      if cell.None? {
        return;
      }
      var idx, head, attempt := cell.value, freeHead, 0;
      ghost var before, linked := memory[..], memory[..][idx := Unpack(head).index];
      FreeDone(before, head, idx, linked);
      while true
        invariant head == freeHead == old(freeHead) && attempt <= failures
        invariant memory[..] == before || memory[..] == linked
        decreases failures - attempt
      {
        UnpackByMask(head);
        memory[idx] := BitAnd(head, SENTINEL);
        assert memory[..] == linked;
        var newHead := BumpWord(head, idx);
        if freeHead == head && attempt == failures {
          freeHead := newHead;
          return;
        }
        head, attempt := freeHead, attempt + 1;
      }
    }
  }
}
