/**
 * `VecEntityList`: an unfinished entity-id allocator over a vector of slots.
 * Only `claim_entity_id` exists; it never marks a slot as claimed, and
 * discarding an id is not written yet.
 */
module EntityLists {
  import opened Wrappers

  /** A slot is either claimed by an entity or empty with a forward link. */
  datatype EntitySlot<T> = Claimed(entity: T) | Empty(next: nat)

  /** `ClaimEntityIdError`; its optional detail text only feeds its message. */
  datatype ClaimEntityIdError = ClaimEntityIdError

  /** The successor the free-slot cursor moves to after claiming `slot`. */
  function NextAfter<T>(entityList: seq<EntitySlot<T>>, slot: nat): (r: Option<nat>)
    ensures r.Some? <==> slot < |entityList| && entityList[slot].Empty?
    ensures r.Some? ==> entityList[slot] == Empty(r.value)
  {
    if slot < |entityList| && entityList[slot].Empty? then Some(entityList[slot].next) else None
  }

  class VecEntityList<T> {
    var nextEmptySlot: Option<nat>
    var lastEmptySlot: Option<nat>
    var entityList: seq<EntitySlot<T>>

    /** The struct has no constructor of its own; this stands for its literal. */
    constructor (nextEmptySlot: Option<nat>, lastEmptySlot: Option<nat>, entityList: seq<EntitySlot<T>>)
      ensures this.nextEmptySlot == nextEmptySlot
      ensures this.lastEmptySlot == lastEmptySlot
      ensures this.entityList == entityList
    {
      this.nextEmptySlot := nextEmptySlot;
      this.lastEmptySlot := lastEmptySlot;
      this.entityList := entityList;
    }

    /**
     * `claim_entity_id`, as written. It always succeeds. With a free slot
     * `s` it returns `s`, leaves the slots untouched and moves the cursor
     * along `s`'s link (or to `None` if `s` is out of range or claimed).
     * Without one it appends an `Empty(0)` slot, returns its index, relinks
     * the recorded last empty slot to it when that slot exists, and keeps the
     * cursor at `None`. `last_empty_slot` never changes.
     */
    method ClaimEntityId() returns (r: Result<nat, ClaimEntityIdError>)
      modifies this
      ensures r.Ok?
      ensures lastEmptySlot == old(lastEmptySlot)
      ensures old(nextEmptySlot).Some? ==>
        && r.value == old(nextEmptySlot).value
        && entityList == old(entityList)
        && nextEmptySlot == NextAfter(entityList, r.value)
      ensures old(nextEmptySlot).None? ==>
        && r.value == |old(entityList)|
        && |entityList| == |old(entityList)| + 1
        && nextEmptySlot.None?
        && entityList == if lastEmptySlot.Some? && lastEmptySlot.value <= r.value
                         then (old(entityList) + [Empty(0)])[lastEmptySlot.value := Empty(r.value)]
                         else old(entityList) + [Empty(0)]
    {
      var claimedSlot: nat;
      match nextEmptySlot {
        case Some(slot) =>
          claimedSlot := slot;
        case None =>
          entityList := entityList + [Empty(0)];
          var lastIndex := |entityList| - 1;
          if lastEmptySlot.Some? && lastEmptySlot.value < |entityList| {
            entityList := entityList[lastEmptySlot.value := Empty(lastIndex)];
          }
          claimedSlot := lastIndex;
      }
      match nextEmptySlot {
        case Some(slot) =>
          nextEmptySlot := NextAfter(entityList, slot);
        case None =>
      }
      r := Ok(claimedSlot);
    }
  }

  /**
   * Without a free slot, every claim hands out an id no existing slot has:
   * two claims from an empty list with no recorded last slot return 0 and 1.
   */
  method ClaimsFromEmptyListAreNew<T>() returns (first: Result<nat, ClaimEntityIdError>, second: Result<nat, ClaimEntityIdError>)
    ensures first == Ok(0) && second == Ok(1)
  {
    var list := new VecEntityList<T>(None, None, []);
    first := list.ClaimEntityId();
    second := list.ClaimEntityId();
  }

  /**
   * The unfinished part shows: a free slot that links to itself is handed
   * out again by every claim, because claiming never marks the slot.
   */
  method SelfLinkedSlotIsClaimedTwice<T>() returns (first: Result<nat, ClaimEntityIdError>, second: Result<nat, ClaimEntityIdError>)
    ensures first == Ok(0) && second == Ok(0)
  {
    var list := new VecEntityList<T>(Some(0), None, [Empty(0)]);
    first := list.ClaimEntityId();
    second := list.ClaimEntityId();
  }
}
