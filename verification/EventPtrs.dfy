/** `event_ptr` as an object: a pointer, the deleter that makes it an owner, and the pool it came from. */
module EventPtrs {
  import opened Options
  import opened Words
  import opened Pool

  class EventPtr {
    var cell: Option<nat>
    var owning: bool
    var pool: Pool?

    /** Dropping this pointer hands a cell back. */
    ghost predicate Owner()
      reads this
    {
      cell.Some? && owning && pool != null
    }

    ghost function Footprint(): set<object>
      reads this
    {
      if pool != null then {pool, pool.memory} else {}
    }

    /** A pointer that owns a cell owns one its pool has handed out and not got back. */
    ghost predicate Valid()
      reads this, Footprint()
    {
      && (owning ==> pool != null)
      && (Owner() ==> pool.Valid() && cell.value < pool.memory.Length && cell.value !in pool.Cells())
    }

    constructor (cell: Option<nat>, owning: bool, pool: Pool?)
      ensures this.cell == cell && this.owning == owning && this.pool == pool
    {
      this.cell := cell;
      this.owning := owning;
      this.pool := pool;
    }

    constructor MoveFrom(other: EventPtr)
      modifies other
      ensures cell == old(other.cell) && owning == old(other.owning) && pool == old(other.pool)
      ensures other.cell == None && !other.owning && other.pool == old(other.pool)
    {
      cell := other.cell;
      owning := other.owning;
      pool := other.pool;
      new;
      other.cell := None;
      other.owning := false;
    }

    /** A view of the same cell that will never hand it back. */
    constructor ViewOf(other: EventPtr)
      ensures cell == other.cell && !owning && pool == null && !Owner() && Valid()
    {
      cell := other.cell;
      owning := false;
      pool := null;
    }

    /** `reset`, and the destructor: an owner's cell goes back to its pool, once. */
    method Reset(failures: nat)
      requires Valid()
      modifies this, Footprint()
      ensures cell == None && !owning && pool == old(pool) && Valid()
      ensures old(Owner()) ==> pool.Valid() && pool.Cells() == [old(cell.value)] + old(pool.Cells())
      ensures !old(Owner()) && pool != null ==> unchanged(pool) && unchanged(pool.memory)
    {
      if cell.Some? && owning {
        pool.Free(cell, failures);
      }
      cell := None;
      owning := false;
    }

    /** `release` gives the pointer up and hands nothing back. */
    method Release() returns (p: Option<nat>)
      modifies this
      ensures p == old(cell) && cell == None && !owning && pool == old(pool) && Valid()
    {
      p := cell;
      cell := None;
      owning := false;
    }

    /** Move assignment: what was held is dropped first, unless the pointer is assigned to itself. */
    method Assign(other: EventPtr, failures: nat)
      requires Valid()
      modifies this, other, Footprint()
      ensures other == this ==> cell == old(cell) && owning == old(owning) && pool == old(pool)
      ensures (other == this || !old(Owner())) && old(pool) != null ==>
                unchanged(old(pool)) && unchanged(old(pool).memory)
      ensures other != this ==>
                && cell == old(other.cell) && owning == old(other.owning) && pool == old(other.pool)
                && other.cell == None && !other.owning && other.pool == old(other.pool)
      ensures other != this && old(Owner()) ==>
                old(pool).Valid() && old(pool).Cells() == [old(cell.value)] + old(pool.Cells())
    {
      if this != other {
        Reset(failures);
        cell := other.cell;
        owning := other.owning;
        pool := other.pool;
        other.cell := None;
        other.owning := false;
      }
    }
  }

  /** A cell made, moved from one pointer to another, looked at through a view and dropped by all three
      pointers goes back to the pool exactly once: the pool is as it was before `make`. */
  method MakeMoveDropAll(pool: Pool, payload: Word64, failures: nat)
    requires pool.Valid()
    modifies pool, pool.memory
    ensures pool.Valid() && pool.Cells() == old(pool.Cells())
  {
    var cell := pool.Make(payload, failures);
    var p := new EventPtr(cell, cell.Some?, pool);
    assert old(pool.Cells()) != [] ==> old(pool.Cells())[0] !in old(pool.Cells())[1..];
    var q := new EventPtr.MoveFrom(p);
    var v := new EventPtr.ViewOf(q);
    v.Reset(failures);
    p.Reset(failures);
    q.Reset(failures);
  }
}
