/**
 * `VecDepot`: a depot over a growable vector. `put` pops the free list when
 * it can and otherwise appends, so it never fails.
 */
module VecDepots {
  import opened Wrappers
  import opened Links
  import opened Spaces
  import opened Depot

  class VecDepot<T> {
    var nextEmpty: Link
    var spaces: seq<Space<T>>
    /** The free list, top first: the walk from `nextEmpty`. */
    ghost var freeChain: seq<nat>

    ghost predicate Valid()
      reads this
    {
      FreeList(spaces, nextEmpty, freeChain)
    }

    /** `default`: no spaces and an empty free list. */
    constructor ()
      ensures Valid()
      ensures spaces == [] && nextEmpty == NewEnd() && freeChain == []
    {
      nextEmpty := NewEnd();
      spaces := [];
      freeChain := [];
    }

    /** `get`: the value at `index` if it is in range and full. */
    function Get(index: nat): (r: Option<T>)
      reads this
      ensures r.Some? <==> index < |spaces| && spaces[index].IsFull()
      ensures r.Some? ==> spaces[index] == Full(r.value)
    {
      if index < |spaces| && spaces[index].Full? then Some(spaces[index].value) else None
    }

    /**
     * `put`: with a non-empty free list, stores `value` at the top index and
     * pops it; otherwise appends a full space at the old length. Never fails.
     */
    method Put(value: T) returns (r: Result<nat, PutError>)
      requires Valid()
      modifies this
      ensures Valid()
      ensures r.Ok? && Get(r.value) == Some(value)
      ensures old(nextEmpty).next.Some? ==>
        && r.value == old(nextEmpty).next.value
        && spaces == old(spaces)[r.value := Full(value)]
        && nextEmpty == old(spaces)[r.value].link
        && freeChain == old(freeChain)[1..]
      ensures old(nextEmpty).next.None? ==>
        && r.value == |old(spaces)|
        && spaces == old(spaces) + [Full(value)]
        && nextEmpty == old(nextEmpty)
        && freeChain == old(freeChain) == []
    {
      match nextEmpty.next {
        case Some(index) =>
          PopKeepsFreeList(spaces, nextEmpty, freeChain, value);
          var space', head' := PutSpace(spaces[index], nextEmpty, value);
          spaces := spaces[index := space'];
          nextEmpty := head';
          freeChain := freeChain[1..];
          r := Ok(index);
        case None =>
          AppendKeepsFreeList(spaces, nextEmpty, freeChain, value);
          spaces := spaces + [Full(value)];
          r := Ok(|spaces| - 1);
      }
    }

    /**
     * `delete`: out of range is `NotFound(index)` and changes nothing; in
     * range it is `Ok`, a full space is freed and pushed on the free list,
     * and an empty one is left alone. Afterwards `get(index)` is `None`.
     */
    method Delete(index: nat) returns (r: Result<(), DeleteError>)
      requires Valid()
      modifies this
      ensures Valid()
      ensures r == if index < |old(spaces)| then Ok(()) else Err(NotFound(index))
      ensures Get(index) == None
      ensures index < |old(spaces)| && old(spaces)[index].IsFull() ==>
        && spaces == old(spaces)[index := Empty(old(nextEmpty))]
        && nextEmpty == New(index)
        && freeChain == [index] + old(freeChain)
      ensures !(index < |old(spaces)| && old(spaces)[index].IsFull()) ==>
        && spaces == old(spaces)
        && nextEmpty == old(nextEmpty)
        && freeChain == old(freeChain)
    {
      if index < |spaces| {
        var space', head' := DeleteSpace(spaces[index], nextEmpty, index);
        if spaces[index].IsFull() {
          PushKeepsFreeList(spaces, nextEmpty, freeChain, index);
          freeChain := [index] + freeChain;
        } else {
          assert spaces[index := space'] == spaces;
        }
        spaces := spaces[index := space'];
        nextEmpty := head';
        r := Ok(());
      } else {
        r := Err(NotFound(index));
      }
    }
  }

  /**
   * The deletion test: putting into a fresh depot and deleting that index
   * succeeds, and the value is gone afterwards.
   */
  method CanDeleteElements<T>(value: T) returns (put: Result<nat, PutError>, deleted: Result<(), DeleteError>, after: Option<T>)
    ensures put == Ok(0)
    ensures deleted == Ok(())
    ensures after == None
  {
    var depot := new VecDepot<T>();
    put := depot.Put(value);
    deleted := depot.Delete(put.value);
    after := depot.Get(put.value);
  }

  /**
   * Reuse is last-in, first-out: deleting the full space at `index` and then
   * putting returns `index`, leaves every other space as it was, and restores
   * the free list to what it was before the delete.
   */
  method ReuseIsLifo<T>(depot: VecDepot<T>, index: nat, value: T) returns (r: Result<nat, PutError>)
    requires depot.Valid()
    requires index < |depot.spaces| && depot.spaces[index].IsFull()
    modifies depot
    ensures depot.Valid()
    ensures r == Ok(index)
    ensures depot.spaces == old(depot.spaces)[index := Full(value)]
    ensures depot.nextEmpty == old(depot.nextEmpty) && depot.freeChain == old(depot.freeChain)
  {
    var _ := depot.Delete(index);
    r := depot.Put(value);
  }
}
