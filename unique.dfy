/** Unique: process-wide 32-bit identifiers. Every Unique claims the smallest free id in a
    shared table of claimed ids, and gives it back when it is destroyed while still valid.
    Moving a Unique hands its id over and invalidates the source, so an id is given back
    at most once. */
module UniqueIds {
  import opened Wrappers

  const UNIQUE_ENTITY_LIMIT: nat := 4096
  const LIMIT_MESSAGE: string := "Unique(): Unique entity limit exceeded"

  /** is_taken on a table of claimed ids. */
  predicate TakenIn(claimed: seq<bool>, id: nat)
  {
    id < |claimed| && claimed[id]
  }

  /** The id the scan from position i would pick: the first position below the limit that
      is one past the table or an unclaimed slot. */
  function FreeFrom(claimed: seq<bool>, i: nat): (r: Option<nat>)
    requires i <= UNIQUE_ENTITY_LIMIT
    ensures r.Some? ==> i <= r.value < UNIQUE_ENTITY_LIMIT && !TakenIn(claimed, r.value)
    ensures r.Some? ==> forall j :: i <= j < r.value ==> TakenIn(claimed, j)
    ensures r.None? ==> forall j :: i <= j < UNIQUE_ENTITY_LIMIT ==> TakenIn(claimed, j)
    decreases UNIQUE_ENTITY_LIMIT - i
  {
    if i == UNIQUE_ENTITY_LIMIT then None
    else if i >= |claimed| || !claimed[i] then Some(i)
    else FreeFrom(claimed, i + 1)
  }

  function FreeSlot(claimed: seq<bool>): (r: Option<nat>)
  {
    FreeFrom(claimed, 0)
  }

  /** The table after claiming `id`: one slot appended when it is past the end. */
  function ClaimIn(claimed: seq<bool>, id: nat): (r: seq<bool>)
    requires id <= |claimed|
  {
    if id == |claimed| then claimed + [true] else claimed[id := true]
  }

  /** The table after giving `id` back. */
  function ReleaseIn(claimed: seq<bool>, id: nat): (r: seq<bool>)
    requires id < |claimed|
  {
    claimed[id := false]
  }

  /** The shared table of claimed ids (a static vector of bools). */
  class Registry {
    var claimed: seq<bool>

    constructor ()
      ensures claimed == []
    {
      claimed := [];
    }

    /** is_taken */
    predicate IsTaken(id: nat)
      reads this
    {
      TakenIn(claimed, id)
    }
  }

  class Unique {
    const registry: Registry
    var id: nat
    var valid: bool

    /** The object the allocating constructor builds once an id has been found. */
    constructor Claimed(registry: Registry, id: nat)
      ensures this.registry == registry && this.id == id && valid
    {
      this.registry := registry;
      this.id := id;
      valid := true;
    }

    /** The move constructor: takes the id and validity of `other` and invalidates it. */
    constructor Moved(other: Unique)
      modifies other
      ensures registry == other.registry && id == old(other.id) && valid == old(other.valid)
      ensures !other.valid && other.id == old(other.id)
    {
      registry := other.registry;
      id := other.id;
      valid := other.valid;
      new;
      other.valid := false;
    }

    /** Move assignment: as the move constructor, and the id this object held before is
        not given back. */
    method MoveAssign(other: Unique) returns (self: Unique)
      modifies this, other
      ensures self == this && !other.valid
      ensures id == old(other.id) && other.id == old(other.id)
      ensures other != this ==> valid == old(other.valid)
      ensures unchanged(registry)
    {
      id := other.id;
      valid := other.valid;
      other.valid := false;
      return this;
    }

    /** The destructor: a valid Unique gives its id back; an invalid one changes nothing. */
    method Destroy()
      requires valid ==> id < |registry.claimed|
      modifies registry
      ensures registry.claimed == if old(valid) then ReleaseIn(old(registry.claimed), id) else old(registry.claimed)
    {
      if valid {
        registry.claimed := registry.claimed[id := false];
      }
    }

    function GetUid(): nat
      reads this
    {
      id
    }

    function IsValid(): bool
      reads this
    {
      valid
    }

    /** Equality with another Unique or with a number compares ids only. */
    predicate Equals(other: Unique)
      reads this, other
    {
      other.id == id
    }

    predicate EqualsId(n: nat)
      reads this
    {
      n == id
    }
  }

  /** The allocating constructor: claims the smallest free id below the limit, or throws
      when every id is claimed. */
  method NewUnique(registry: Registry) returns (r: Result<Unique>)
    modifies registry
    ensures r.Success? <==> FreeSlot(old(registry.claimed)).Some?
    ensures r.Success? ==> var id := FreeSlot(old(registry.claimed)).value;
      && fresh(r.value) && r.value.registry == registry && r.value.id == id && r.value.valid
      && id <= |old(registry.claimed)| && registry.claimed == ClaimIn(old(registry.claimed), id)
    ensures r.Failure? ==> r.error == RuntimeError(LIMIT_MESSAGE) && registry.claimed == old(registry.claimed)
  {
    var i := 0;
    while i < UNIQUE_ENTITY_LIMIT
      invariant i <= UNIQUE_ENTITY_LIMIT && i <= |registry.claimed|
      invariant registry.claimed == old(registry.claimed)
      invariant FreeSlot(registry.claimed) == FreeFrom(registry.claimed, i)
    {
      if i == |registry.claimed| {
        registry.claimed := registry.claimed + [true];
        var u := new Unique.Claimed(registry, i);
        return Success(u);
      }
      if !registry.claimed[i] {
        registry.claimed := registry.claimed[i := true];
        var u := new Unique.Claimed(registry, i);
        return Success(u);
      }
      i := i + 1;
    }
    return Failure(RuntimeError(LIMIT_MESSAGE));
  }

  /** An id is given back at most once: a Unique is claimed and moved, then the new
      object and the moved-from one are both destroyed, and the table ends with that id
      released once and every id taken exactly when it was taken before the claim. */
  method MovedIdReleasedOnce(registry: Registry) returns (id: nat)
    requires FreeSlot(registry.claimed).Some?
    modifies registry
    ensures id == FreeSlot(old(registry.claimed)).value && id <= |old(registry.claimed)|
    ensures registry.claimed == ReleaseIn(ClaimIn(old(registry.claimed), id), id)
    ensures forall k :: TakenIn(registry.claimed, k) == TakenIn(old(registry.claimed), k)
  {
    ClaimTakesLeastFree(registry.claimed);
    var r := NewUnique(registry);
    var u := r.value;
    id := u.id;
    var moved := new Unique.Moved(u);
    moved.Destroy();
    u.Destroy();
  }

  // ---------------------------------------------------------------------------
  // Properties of the id table

  /** Comparing two Uniques is comparing one with the other's uid, and is symmetric. */
  lemma EqualityIsById(a: Unique, b: Unique)
    ensures a.Equals(b) <==> a.EqualsId(b.GetUid())
    ensures a.Equals(b) <==> b.Equals(a)
  {
  }

  /** A claim picks the least id that is not taken, takes it and leaves every other id as
      it was; the table grows by at most one slot, and only when every slot was claimed. */
  lemma ClaimTakesLeastFree(claimed: seq<bool>)
    requires FreeSlot(claimed).Some?
    ensures var id := FreeSlot(claimed).value;
      && id < UNIQUE_ENTITY_LIMIT && id <= |claimed|
      && !TakenIn(claimed, id) && (forall j :: 0 <= j < id ==> TakenIn(claimed, j))
      && TakenIn(ClaimIn(claimed, id), id)
      && (forall k :: k != id ==> TakenIn(ClaimIn(claimed, id), k) == TakenIn(claimed, k))
      && |claimed| <= |ClaimIn(claimed, id)| <= |claimed| + 1
      && (|ClaimIn(claimed, id)| > |claimed| ==> forall j :: 0 <= j < |claimed| ==> claimed[j])
  {
    var id := FreeSlot(claimed).value;
    assert !TakenIn(claimed, |claimed|);
    if id == |claimed| {
      forall j | 0 <= j < |claimed|
        ensures claimed[j]
      {
        assert TakenIn(claimed, j);
      }
    }
  }

  /** A claim fails exactly when all 4096 ids are taken. */
  lemma ClaimFailsWhenFull(claimed: seq<bool>)
    ensures FreeSlot(claimed).None? <==> forall j :: 0 <= j < UNIQUE_ENTITY_LIMIT ==> TakenIn(claimed, j)
  {
    if FreeSlot(claimed).Some? {
      var id := FreeSlot(claimed).value;
      assert !TakenIn(claimed, id);
    }
  }

  /** Giving an id back frees exactly that id; claiming it again restores the table. */
  lemma ReleaseFreesOnlyIt(claimed: seq<bool>, id: nat)
    requires id < |claimed|
    ensures !TakenIn(ReleaseIn(claimed, id), id)
    ensures forall k :: k != id ==> TakenIn(ReleaseIn(claimed, id), k) == TakenIn(claimed, k)
    ensures TakenIn(claimed, id) ==> ClaimIn(ReleaseIn(claimed, id), id) == claimed
  {
  }

  /** After a release, the next claim reuses the released id when all smaller ids are
      still taken. */
  lemma ReleasedIdReused(claimed: seq<bool>, id: nat)
    requires id < |claimed| && id < UNIQUE_ENTITY_LIMIT
    requires forall j :: 0 <= j < id ==> TakenIn(claimed, j)
    ensures FreeSlot(ReleaseIn(claimed, id)) == Some(id)
  {
    var c := ReleaseIn(claimed, id);
    forall j | 0 <= j < id
      ensures TakenIn(c, j)
    {
      assert TakenIn(claimed, j);
    }
    FirstFree(c, 0, id);
  }

  /** The scan stops at the first free id. */
  lemma {:induction false} FirstFree(claimed: seq<bool>, i: nat, id: nat)
    requires i <= id < UNIQUE_ENTITY_LIMIT && !TakenIn(claimed, id)
    requires forall j :: i <= j < id ==> TakenIn(claimed, j)
    ensures FreeFrom(claimed, i) == Some(id)
    decreases id - i
  {
    if i < id {
      assert TakenIn(claimed, i);
      FirstFree(claimed, i + 1, id);
    }
  }
}
