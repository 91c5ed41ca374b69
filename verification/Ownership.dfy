/** Where every cell of a pool is, across all threads: in the free list, owned by one `event_ptr`, or in
one ring slot.

Each step is one linearization point of the components: a successful `make` or `free`, the publication of
a pushed pointer, the removal of a popped one.  A call of the switch is a sequence of pushes, all refused
but perhaps the last, and a call of the poller a sequence of pops, all null but perhaps the last; other
threads may act between them.  Pushing takes two steps, as in the source: the pointer is published while
the `event_ptr` still holds it, and only then released; in between, another thread may pop the event, free
its cell and even get it again from `make`. */
module Ownership {
  import opened FreeLists
  import opened Options
  import opened Rings

  /** An `event_ptr`: null, owning, or still naming a cell it has already pushed. */
  datatype Handle = Null | Owns(cell: nat) | Lent(cell: nat)

  /** `tracks[k]` is a bounded queue of pointers, which may be null.  `lost` is history: cells whose bare
      pointer was dropped. */
  datatype System = System(
    free: seq<nat>, handles: seq<Handle>, tracks: seq<seq<Option<nat>>>, bounds: seq<nat>, lost: seq<nat>)

  datatype Action =
    | Make(h: nat)                 // make into a null handle; stays null when no cell is free
    | Reset(h: nat)                // reset, or the destructor
    | Move(h: nat, g: nat)         // move assignment g = move(h)
    | Push(h: nat, k: nat)         // publish what the handle holds, null too, to track k; refused when it is full
    | Release(h: nat)              // release after a successful push
    | PushReleased(h: nat, k: nat) // release first, then publish the bare pointer, null too, to track k
    | Pop(k: nat, h: nat)          // pop track k into a null handle, which stays null if the pointer is

  predicate Ok(s: System, h: nat) { h < |s.handles| }

  /** What the programs do: they never reset, move or push a handle between publication and release. */
  predicate Enabled(s: System, a: Action) {
    match a
    case Make(h) => Ok(s, h) && s.handles[h].Null?
    case Reset(h) => Ok(s, h) && !s.handles[h].Lent?
    case Move(h, g) => Ok(s, h) && Ok(s, g) && !s.handles[h].Lent? && !s.handles[g].Lent?
    case Push(h, k) => Ok(s, h) && !s.handles[h].Lent? && k < |s.tracks|
    case Release(h) => Ok(s, h) && s.handles[h].Lent?
    case PushReleased(h, k) => Ok(s, h) && !s.handles[h].Lent? && k < |s.tracks|
    case Pop(k, h) => Ok(s, h) && s.handles[h].Null? && k < |s.tracks|
  }

  function Limit(s: System, k: nat): nat { if k < |s.bounds| then s.bounds[k] else 0 }

  predicate Room(s: System, k: nat) { k < |s.tracks| && |s.tracks[k]| < Limit(s, k) }

  /** Runs the deleter of a handle that names a cell, and leaves it null. */
  function ResetHandle(s: System, h: nat): System
    requires Ok(s, h)
  {
    if s.handles[h].Null? then s else s.(free := [s.handles[h].cell] + s.free, handles := s.handles[h := Null])
  }

  /** What `get` and `release` return. */
  function Pointer(h: Handle): Option<nat> { if h.Null? then None else Some(h.cell) }

  function PushTo(s: System, h: nat, k: nat): System
    requires Ok(s, h) && !s.handles[h].Lent? && k < |s.tracks|
  {
    var (q, ok) := Offer(s.tracks[k], Limit(s, k), Pointer(s.handles[h]));
    if !ok then s
    else if s.handles[h].Null? then s.(tracks := s.tracks[k := q])
    else s.(tracks := s.tracks[k := q], handles := s.handles[h := Lent(s.handles[h].cell)])
  }

  /** The bare pointer is all there is: when the track refuses it, it is dropped. */
  function PushReleasedTo(s: System, h: nat, k: nat): System
    requires Ok(s, h) && !s.handles[h].Lent? && k < |s.tracks|
  {
    var p, s' := Pointer(s.handles[h]), s.(handles := s.handles[h := Null]);
    var (q, ok) := Offer(s.tracks[k], Limit(s, k), p);
    if ok then s'.(tracks := s.tracks[k := q])
    else if p.Some? then s'.(lost := s.lost + [p.value])
    else s'
  }

  function PopFrom(s: System, k: nat, h: nat): System
    requires Ok(s, h) && s.handles[h].Null? && k < |s.tracks|
  {
    var (q, item) := Take(s.tracks[k]);
    s.(tracks := s.tracks[k := q], handles := if item.Some? then s.handles[h := Owns(item.value)] else s.handles)
  }

  function Apply(s: System, a: Action): System
    requires Enabled(s, a)
  {
    match a
    case Make(h) => if s.free == [] then s else s.(free := s.free[1..], handles := s.handles[h := Owns(s.free[0])])
    case Reset(h) => ResetHandle(s, h)
    case Move(h, g) =>
      if h == g then s
      else
        var s' := ResetHandle(s, g);
        s'.(handles := s'.handles[g := s.handles[h]][h := Null])
    case Push(h, k) => PushTo(s, h, k)
    case Release(h) => s.(handles := s.handles[h := Null])
    case PushReleased(h, k) => PushReleasedTo(s, h, k)
    case Pop(k, h) => PopFrom(s, k, h)
  }

  // ---------- the account ----------

  /** How often `c` occurs in a sequence, among the owning handles, and in all rings. */
  function Among(xs: seq<nat>, c: nat): nat {
    if xs == [] then 0 else (if xs[0] == c then 1 else 0) + Among(xs[1..], c)
  }

  function Owners(handles: seq<Handle>, c: nat): nat {
    if handles == [] then 0 else Share(handles[0], c) + Owners(handles[1..], c)
  }

  function Share(h: Handle, c: nat): nat { if h == Owns(c) then 1 else 0 }

  /** How often a track names `c`. */
  function Naming(q: seq<Option<nat>>, c: nat): nat {
    if q == [] then 0 else (if q[0] == Some(c) then 1 else 0) + Naming(q[1..], c)
  }

  function Slots(tracks: seq<seq<Option<nat>>>, c: nat): nat {
    if tracks == [] then 0 else Naming(tracks[0], c) + Slots(tracks[1..], c)
  }

  /** The number of places cell `c` is in: free list entries, owning handles and ring slots. */
  function Places(s: System, c: nat): nat { Among(s.free, c) + Owners(s.handles, c) + Slots(s.tracks, c) }

  lemma {:induction false} AmongAppend(xs: seq<nat>, x: nat, c: nat)
    ensures Among(xs + [x], c) == Among(xs, c) + if x == c then 1 else 0
  {
    if xs == [] {
      assert [x][1..] == [];
    } else {
      AmongAppend(xs[1..], x, c);
      assert (xs + [x])[1..] == xs[1..] + [x];
    }
  }

  lemma AmongPrepend(xs: seq<nat>, x: nat, c: nat)
    ensures Among([x] + xs, c) == (if x == c then 1 else 0) + Among(xs, c)
  {
    assert ([x] + xs)[1..] == xs;
  }

  lemma {:induction false} NamingAppend(q: seq<Option<nat>>, p: Option<nat>, c: nat)
    ensures Naming(q + [p], c) == Naming(q, c) + if p == Some(c) then 1 else 0
  {
    if q == [] {
      assert [p][1..] == [];
    } else {
      NamingAppend(q[1..], p, c);
      assert (q + [p])[1..] == q[1..] + [p];
    }
  }

  lemma {:induction false} OwnersUpdate(handles: seq<Handle>, h: nat, x: Handle, c: nat)
    requires h < |handles|
    ensures Owners(handles[h := x], c) + Share(handles[h], c) == Owners(handles, c) + Share(x, c)
  {
    if h == 0 {
      assert handles[0 := x][1..] == handles[1..];
    } else {
      OwnersUpdate(handles[1..], h - 1, x, c);
      assert handles[h := x][1..] == handles[1..][h - 1 := x];
    }
  }

  lemma {:induction false} SlotsUpdate(tracks: seq<seq<Option<nat>>>, k: nat, q: seq<Option<nat>>, c: nat)
    requires k < |tracks|
    ensures Slots(tracks[k := q], c) + Naming(tracks[k], c) == Slots(tracks, c) + Naming(q, c)
  {
    if k == 0 {
      assert tracks[0 := q][1..] == tracks[1..];
    } else {
      SlotsUpdate(tracks[1..], k - 1, q, c);
      assert tracks[k := q][1..] == tracks[1..][k - 1 := q];
    }
  }

  /** What resetting a handle does to the account, legal or not. */
  lemma ResetAccount(s: System, h: nat, c: nat)
    requires Ok(s, h)
    ensures Places(ResetHandle(s, h), c) == Places(s, c) + if s.handles[h] == Lent(c) then 1 else 0
  {
    if !s.handles[h].Null? {
      OwnersUpdate(s.handles, h, Null, c);
      AmongPrepend(s.free, s.handles[h].cell, c);
    }
  }

  lemma PushConserves(s: System, h: nat, k: nat, c: nat)
    requires Ok(s, h) && !s.handles[h].Lent? && k < |s.tracks|
    ensures Places(PushTo(s, h, k), c) == Places(s, c)
  {
    var p := Pointer(s.handles[h]);
    SlotsUpdate(s.tracks, k, s.tracks[k] + [p], c);
    NamingAppend(s.tracks[k], p, c);
    if p.Some? {
      OwnersUpdate(s.handles, h, Lent(p.value), c);
    }
  }

  /** The push drops the only pointer to a cell. */
  predicate DropsPointer(s: System, h: nat, k: nat)
    requires Ok(s, h)
  {
    s.handles[h].Owns? && !Room(s, k)
  }

  lemma PushReleasedAccount(s: System, h: nat, k: nat, c: nat)
    requires Ok(s, h) && !s.handles[h].Lent? && k < |s.tracks|
    ensures var s' := PushReleasedTo(s, h, k);
            if DropsPointer(s, h, k) then
              && Places(s', c) + (if c == s.handles[h].cell then 1 else 0) == Places(s, c)
              && s'.lost == s.lost + [s.handles[h].cell]
            else Places(s', c) == Places(s, c) && s'.lost == s.lost
  {
    var p := Pointer(s.handles[h]);
    OwnersUpdate(s.handles, h, Null, c);
    SlotsUpdate(s.tracks, k, s.tracks[k] + [p], c);
    NamingAppend(s.tracks[k], p, c);
  }

  /** Releasing before the push keeps the account right if and only if the track has room or the pointer is
      null, as it is when the pool was exhausted. */
  lemma PushReleasedSafeIffRoom(s: System, h: nat, k: nat)
    requires Enabled(s, PushReleased(h, k))
    ensures (forall c :: Places(Apply(s, PushReleased(h, k)), c) == Places(s, c)) <==> Room(s, k) || s.handles[h].Null?
  {
    if DropsPointer(s, h, k) {
      PushReleasedAccount(s, h, k, s.handles[h].cell);
    } else {
      forall c ensures Places(Apply(s, PushReleased(h, k)), c) == Places(s, c) {
        PushReleasedAccount(s, h, k, c);
      }
    }
  }

  lemma PopConserves(s: System, k: nat, h: nat, c: nat)
    requires Ok(s, h) && s.handles[h].Null? && k < |s.tracks|
    ensures Places(PopFrom(s, k, h), c) == Places(s, c)
  {
    var (q, item) := Take(s.tracks[k]);
    SlotsUpdate(s.tracks, k, q, c);
    if item.Some? {
      OwnersUpdate(s.handles, h, Owns(item.value), c);
    }
  }

  lemma MoveConserves(s: System, h: nat, g: nat, c: nat)
    requires Enabled(s, Move(h, g)) && h != g
    ensures Places(Apply(s, Move(h, g)), c) == Places(s, c)
  {
    var s' := ResetHandle(s, g);
    ResetAccount(s, g, c);
    OwnersUpdate(s'.handles, g, s.handles[h], c);
    OwnersUpdate(s'.handles[g := s.handles[h]], h, Null, c);
  }

  /** The step drops a bare pointer. */
  predicate Drops(s: System, a: Action)
    requires Enabled(s, a)
  {
    a.PushReleased? && DropsPointer(s, a.h, a.k)
  }

  /** No step makes a second copy of a cell, and only dropping a bare pointer loses one. */
  lemma StepConserves(s: System, a: Action, c: nat)
    requires Enabled(s, a)
    ensures Places(Apply(s, a), c) + Among(Apply(s, a).lost, c) == Places(s, c) + Among(s.lost, c)
    ensures if Drops(s, a) then |Apply(s, a).lost| > |s.lost| else Apply(s, a).lost == s.lost
  {
    match a
    case PushReleased(h, k) =>
      PushReleasedAccount(s, h, k, c);
      if DropsPointer(s, h, k) {
        AmongAppend(s.lost, s.handles[h].cell, c);
      }
    case Make(h) => if s.free != [] { OwnersUpdate(s.handles, h, Owns(s.free[0]), c); }
    case Reset(h) => ResetAccount(s, h, c);
    case Move(h, g) => if h != g { MoveConserves(s, h, g, c); }
    case Push(h, k) => PushConserves(s, h, k, c);
    case Release(h) => OwnersUpdate(s.handles, h, Null, c);
    case Pop(k, h) => PopConserves(s, k, h, c);
  }

  // ---------- runs ----------

  function Nulls(n: nat): (hs: seq<Handle>)
    ensures |hs| == n
  {
    if n == 0 then [] else [Null] + Nulls(n - 1)
  }

  function Empties(n: nat): (qs: seq<seq<Option<nat>>>)
    ensures |qs| == n
  {
    if n == 0 then [] else [[]] + Empties(n - 1)
  }

  /** A pool of `capacity` free cells, null handles and empty rings. */
  function Init(capacity: nat, handles: nat, bounds: seq<nat>): System {
    System(Range(0, capacity), Nulls(handles), Empties(|bounds|), bounds, [])
  }

  ghost predicate IsRun(capacity: nat, handles: nat, bounds: seq<nat>, trace: seq<System>, actions: seq<Action>) {
    && |trace| == |actions| + 1
    && trace[0] == Init(capacity, handles, bounds)
    && forall i {:trigger actions[i]} :: 0 <= i < |actions| ==>
         Enabled(trace[i], actions[i]) && trace[i + 1] == Apply(trace[i], actions[i])
  }

  lemma {:induction false} NobodyOwns(n: nat, c: nat)
    ensures Owners(Nulls(n), c) == 0 && Slots(Empties(n), c) == 0
  {
    if n > 0 {
      NobodyOwns(n - 1, c);
      assert Nulls(n)[1..] == Nulls(n - 1) && Empties(n)[1..] == Empties(n - 1);
    }
  }

  lemma {:induction false} AmongRange(lo: nat, hi: nat, c: nat)
    requires lo <= hi
    ensures Among(Range(lo, hi), c) == if lo <= c < hi then 1 else 0
    decreases hi - lo
  {
    if lo < hi {
      AmongRange(lo + 1, hi, c);
      assert Range(lo, hi)[1..] == Range(lo + 1, hi);
    }
  }

  /** In every run each cell of the pool is in exactly one place, or was dropped once: nothing is freed
      twice, whatever other threads do between a publication and its release. */
  lemma {:induction false} EveryCellInOnePlace(capacity: nat, handles: nat, bounds: seq<nat>, trace: seq<System>,
                                               actions: seq<Action>, k: nat, c: nat)
    requires IsRun(capacity, handles, bounds, trace, actions) && k < |trace|
    ensures Places(trace[k], c) + Among(trace[k].lost, c) == if c < capacity then 1 else 0
  {
    if k == 0 {
      NobodyOwns(handles, c);
      NobodyOwns(|bounds|, c);
      AmongRange(0, capacity, c);
    } else {
      EveryCellInOnePlace(capacity, handles, bounds, trace, actions, k - 1, c);
      StepConserves(trace[k - 1], actions[k - 1], c);
    }
  }

  /** No step up to `k` drops a bare pointer. */
  ghost predicate NeverDrops(trace: seq<System>, actions: seq<Action>, k: nat)
    requires |trace| == |actions| + 1 && k <= |actions|
    requires forall i {:trigger actions[i]} :: 0 <= i < |actions| ==> Enabled(trace[i], actions[i])
  {
    forall i {:trigger actions[i]} :: 0 <= i < k ==> !Drops(trace[i], actions[i])
  }

  lemma {:induction false} LostIffDropped(capacity: nat, handles: nat, bounds: seq<nat>, trace: seq<System>,
                                          actions: seq<Action>, k: nat)
    requires IsRun(capacity, handles, bounds, trace, actions) && k < |trace|
    ensures trace[k].lost == [] <==> NeverDrops(trace, actions, k)
  {
    if k > 0 {
      LostIffDropped(capacity, handles, bounds, trace, actions, k - 1);
      StepConserves(trace[k - 1], actions[k - 1], 0);
    }
  }

  /** Nothing is lost, and each cell is in exactly one place, if and only if no pointer was ever released
      and then pushed to a full track. */
  lemma OnePlaceIffNothingDropped(capacity: nat, handles: nat, bounds: seq<nat>, trace: seq<System>,
                                  actions: seq<Action>, k: nat)
    requires IsRun(capacity, handles, bounds, trace, actions) && k < |trace|
    ensures (forall c: nat :: Places(trace[k], c) == if c < capacity then 1 else 0) <==> NeverDrops(trace, actions, k)
  {
    LostIffDropped(capacity, handles, bounds, trace, actions, k);
    if trace[k].lost == [] {
      forall c: nat ensures Places(trace[k], c) == if c < capacity then 1 else 0 {
        EveryCellInOnePlace(capacity, handles, bounds, trace, actions, k, c);
      }
    } else {
      EveryCellInOnePlace(capacity, handles, bounds, trace, actions, k, trace[k].lost[0]);
    }
  }

  /** Resetting a handle keeps the account right if and only if the handle is not between the
      publication of its pointer and `release`: why a successful push must be followed by a release. */
  lemma ResetSafeIffNotLent(s: System, h: nat)
    requires Ok(s, h)
    ensures (forall c :: Places(ResetHandle(s, h), c) == Places(s, c)) <==> !s.handles[h].Lent?
  {
    if s.handles[h].Lent? {
      ResetAccount(s, h, s.handles[h].cell);
    } else {
      forall c ensures Places(ResetHandle(s, h), c) == Places(s, c) {
        ResetAccount(s, h, c);
      }
    }
  }

  /** A drop: when no track has room, every push of the switch's scan leaves everything as it was, the event
      with its owner, and resetting it gives the cell straight back to the pool, first to be handed out again. */
  lemma DropReturnsCell(s: System, h: nat)
    requires Ok(s, h) && s.handles[h].Owns? && forall k :: 0 <= k < |s.tracks| ==> !Room(s, k)
    ensures forall k :: 0 <= k < |s.tracks| ==> Apply(s, Push(h, k)) == s
    ensures Apply(s, Reset(h)).free == [s.handles[h].cell] + s.free
  {
    forall k | 0 <= k < |s.tracks| ensures Apply(s, Push(h, k)) == s {
      assert !Room(s, k);
    }
  }

  /** A call of the poller that meets only empty tracks and null pointers gives its caller nothing and takes no
      cell from anywhere. */
  lemma NullPopTakesNoCell(s: System, k: nat, h: nat)
    requires Enabled(s, Pop(k, h))
    ensures Apply(s, Pop(k, h)).handles[h].Null? <==> NullInFront(s.tracks[k])
    ensures NullInFront(s.tracks[k]) ==> forall c :: Slots(Apply(s, Pop(k, h)).tracks, c) == Slots(s.tracks, c)
  {
    if NullInFront(s.tracks[k]) {
      forall c ensures Slots(Apply(s, Pop(k, h)).tracks, c) == Slots(s.tracks, c) {
        SlotsUpdate(s.tracks, k, Take(s.tracks[k]).0, c);
      }
    }
  }

  // ---------- what each action does ----------

  /** Nothing but the handles in `hs` and the tracks in `ks` may differ. */
  ghost predicate OnlyTouches(s: System, s': System, hs: set<nat>, ks: set<nat>) {
    && |s'.handles| == |s.handles| && |s'.tracks| == |s.tracks| && s'.bounds == s.bounds
    && (forall i :: 0 <= i < |s.handles| && i !in hs ==> s'.handles[i] == s.handles[i])
    && (forall i :: 0 <= i < |s.tracks| && i !in ks ==> s'.tracks[i] == s.tracks[i])
  }

  /** `make` gives the first free cell to its handle, or null when there is none; `reset` puts what the handle
      owns in front of the free list. */
  lemma MakeAndResetDo(s: System, a: Action)
    requires Enabled(s, a) && (a.Make? || a.Reset?)
    ensures OnlyTouches(s, Apply(s, a), {a.h}, {})
    ensures a.Make? && s.free == [] ==> Apply(s, a).handles[a.h] == Null && Apply(s, a).free == []
    ensures a.Make? && s.free != [] ==>
              Apply(s, a).handles[a.h] == Owns(s.free[0]) && [s.free[0]] + Apply(s, a).free == s.free
    ensures a.Reset? ==> Apply(s, a).handles[a.h] == Null
    ensures a.Reset? && s.handles[a.h].Owns? ==> Apply(s, a).free == [s.handles[a.h].cell] + s.free
    ensures a.Reset? && s.handles[a.h].Null? ==> Apply(s, a).free == s.free
  {
  }

  /** A move puts into the target what the source held and empties the source; what the target owned is freed. */
  lemma MoveDoes(s: System, h: nat, g: nat)
    requires Enabled(s, Move(h, g))
    ensures var s' := Apply(s, Move(h, g));
            && OnlyTouches(s, s', {h, g}, {}) && s'.handles[g] == s.handles[h]
            && (h == g ==> s' == s)
            && (h != g ==> s'.handles[h] == Null)
            && (h != g && s.handles[g].Owns? ==> s'.free == [s.handles[g].cell] + s.free)
            && (h != g && s.handles[g].Null? ==> s'.free == s.free)
  {
  }

  /** A push appends what the handle names if there is room, and the handle goes on naming it until it is
      released; a full track changes nothing. */
  lemma PushDoes(s: System, h: nat, k: nat)
    requires Enabled(s, Push(h, k))
    ensures var s' := Apply(s, Push(h, k));
            && OnlyTouches(s, s', {h}, {k}) && s'.free == s.free
            && (!Room(s, k) ==> s' == s)
            && (Room(s, k) && s.handles[h].Null? ==>
                  s'.tracks[k] == s.tracks[k] + [None] && s'.handles[h] == Null)
            && (Room(s, k) && s.handles[h].Owns? ==>
                  && s'.tracks[k] == s.tracks[k] + [Some(s.handles[h].cell)]
                  && s'.handles[h] == Lent(s.handles[h].cell)
                  && Apply(s', Release(h)).handles[h] == Null && OnlyTouches(s', Apply(s', Release(h)), {h}, {}))
  {
  }

  /** Releasing first and then pushing empties the handle either way; what it named is appended if there is
      room, and lost if there is not. */
  lemma PushReleasedDoes(s: System, h: nat, k: nat)
    requires Enabled(s, PushReleased(h, k))
    ensures var s' := Apply(s, PushReleased(h, k));
            && OnlyTouches(s, s', {h}, {k}) && s'.free == s.free && s'.handles[h] == Null
            && (Room(s, k) ==> s'.tracks[k] == s.tracks[k] + [Pointer(s.handles[h])] && s'.lost == s.lost)
            && (!Room(s, k) ==> s'.tracks[k] == s.tracks[k])
            && (!Room(s, k) && s.handles[h].Owns? ==> s'.lost == s.lost + [s.handles[h].cell])
  {
  }

  /** A pop takes the front off its track and gives it to its handle. */
  lemma PopDoes(s: System, k: nat, h: nat)
    requires Enabled(s, Pop(k, h))
    ensures var s' := Apply(s, Pop(k, h));
            && OnlyTouches(s, s', {h}, {k}) && s'.free == s.free
            && (s.tracks[k] == [] ==> s' == s)
            && (s.tracks[k] != [] ==>
                  && [s.tracks[k][0]] + s'.tracks[k] == s.tracks[k]
                  && s'.handles[h] == if s.tracks[k][0].Some? then Owns(s.tracks[k][0].value) else Null)
  {
  }

  ghost predicate Can(s: System, steps: seq<Action>)
    decreases steps
  {
    steps == [] || (Enabled(s, steps[0]) && Can(Apply(s, steps[0]), steps[1..]))
  }

  ghost function After(s: System, steps: seq<Action>): System
    requires Can(s, steps)
    decreases steps
  {
    if steps == [] then s else After(Apply(s, steps[0]), steps[1..])
  }

  lemma OneStepMore(s: System, a: Action, steps: seq<Action>)
    requires Enabled(s, a) && Can(Apply(s, a), steps)
    ensures Can(s, [a] + steps) && After(s, [a] + steps) == After(Apply(s, a), steps)
  {
    assert ([a] + steps)[1..] == steps;
  }

  lemma Trip(s: System, h: nat, k: nat, g: nat, c: nat, s1: System, s2: System, s3: System, s4: System)
    requires Ok(s, h) && Ok(s, g) && s.handles[h].Null? && s.handles[g].Null? && s.free != [] && c == s.free[0]
    requires k < |s.tracks| && s.tracks[k] == [] && Room(s, k)
    requires s1 == s.(free := s.free[1..], handles := s.handles[h := Owns(c)])
    requires s2 == s1.(tracks := s.tracks[k := [Some(c)]], handles := s.handles[h := Lent(c)])
    requires s3 == s2.(handles := s.handles) && s4 == s1.(handles := s.handles[g := Owns(c)])
    ensures Apply(s, Make(h)) == s1 && Enabled(s1, Push(h, k)) && Apply(s1, Push(h, k)) == s2
    ensures Enabled(s2, Release(h)) && Apply(s2, Release(h)) == s3
    ensures Enabled(s3, Pop(k, g)) && Apply(s3, Pop(k, g)) == s4 && Enabled(s4, Reset(g)) && Apply(s4, Reset(g)) == s
  {
    assert s.handles[h := Null] == s.handles && s.handles[g := Null] == s.handles;
    assert s1.handles[h := Lent(c)] == s2.handles && s2.handles[h := Null] == s.handles;
    assert s4.handles[g := Null] == s.handles;
    assert [] + [Some(c)] == [Some(c)] && [Some(c)][1..] == [];
    assert s2.tracks[k := []] == s.tracks;
    assert [c] + s.free[1..] == s.free;
  }

  /** A cell's round trip: made into one handle, pushed, released, popped into the same or another handle and
      reset there, it is back where it was, and so is everything else. */
  lemma RoundTrip(s: System, h: nat, k: nat, g: nat)
    requires Ok(s, h) && Ok(s, g) && s.handles[h].Null? && s.handles[g].Null? && s.free != []
    requires k < |s.tracks| && s.tracks[k] == [] && Room(s, k)
    ensures Can(s, [Make(h), Push(h, k), Release(h), Pop(k, g), Reset(g)])
    ensures After(s, [Make(h), Push(h, k), Release(h), Pop(k, g), Reset(g)]) == s
  {
    var c := s.free[0];
    var s1 := s.(free := s.free[1..], handles := s.handles[h := Owns(c)]);
    var s2 := s1.(tracks := s.tracks[k := [Some(c)]], handles := s.handles[h := Lent(c)]);
    var s3, s4 := s2.(handles := s.handles), s1.(handles := s.handles[g := Owns(c)]);
    Trip(s, h, k, g, c, s1, s2, s3, s4);
    OneStepMore(s4, Reset(g), []);
    assert [Reset(g)] + [] == [Reset(g)];
    OneStepMore(s3, Pop(k, g), [Reset(g)]);
    assert [Pop(k, g)] + [Reset(g)] == [Pop(k, g), Reset(g)];
    OneStepMore(s2, Release(h), [Pop(k, g), Reset(g)]);
    assert [Release(h)] + [Pop(k, g), Reset(g)] == [Release(h), Pop(k, g), Reset(g)];
    OneStepMore(s1, Push(h, k), [Release(h), Pop(k, g), Reset(g)]);
    assert [Push(h, k)] + [Release(h), Pop(k, g), Reset(g)] == [Push(h, k), Release(h), Pop(k, g), Reset(g)];
    OneStepMore(s, Make(h), [Push(h, k), Release(h), Pop(k, g), Reset(g)]);
    assert [Make(h)] + [Push(h, k), Release(h), Pop(k, g), Reset(g)] ==
           [Make(h), Push(h, k), Release(h), Pop(k, g), Reset(g)];
  }
}
