/**
 * `ArrayDepot`: a depot over a fixed-size array whose spaces start out
 * chained `0 -> 1 -> ... -> size - 1`. `put` fails once the free list is
 * exhausted, and the length never changes.
 */
module ArrayDepots {
  import opened Wrappers
  import opened Links
  import opened Spaces
  import opened Depot

  /** The spaces `default` builds: all empty, each linking to the next index. */
  function DefaultSpaces<T>(size: nat): (r: seq<Space<T>>)
    ensures |r| == size
    ensures forall i :: 0 <= i < size ==> r[i].IsEmpty()
  {
    seq(size, i requires 0 <= i < size => if i == size - 1 then Empty(NewEnd()) else Empty(New(i + 1)))
  }

  /** The indices `lo`, `lo + 1`, ..., `hi - 1`. */
  function Ascending(lo: nat, hi: nat): (r: seq<nat>)
    requires lo <= hi
    ensures |r| == hi - lo
    ensures forall k :: 0 <= k < |r| ==> r[k] == lo + k
  {
    seq(hi - lo, k => lo + k)
  }

  /**
   * For a size of at least one, the default spaces with the head at index 0
   * form a free list that visits every index in ascending order.
   */
  lemma DefaultFreeList<T>(size: nat)
    requires size >= 1
    ensures FreeList(DefaultSpaces<T>(size), New(0), Ascending(0, size))
  {
    DefaultChainedFrom<T>(size, 0);
    var chain := Ascending(0, size);
    forall i | 0 <= i < size
      ensures i in chain
    {
      assert chain[i] == i;
    }
  }

  lemma {:induction false} DefaultChainedFrom<T>(size: nat, lo: nat)
    requires lo < size
    ensures Chained(DefaultSpaces<T>(size), New(lo), Ascending(lo, size))
    decreases size - lo
  {
    var chain := Ascending(lo, size);
    assert chain[1..] == Ascending(lo + 1, size);
    if lo + 1 < size {
      DefaultChainedFrom<T>(size, lo + 1);
    }
  }

  /**
   * For a size of zero the default head `Some(0)` points outside the array,
   * so no chain satisfies the invariant (and `put` would index out of bounds).
   */
  lemma ZeroSizeDefaultIsBroken<T>(chain: seq<nat>)
    ensures !Chained(DefaultSpaces<T>(0), New(0), chain)
  {
  }

  class ArrayDepot<T> {
    var nextEmpty: Link
    const spaces: array<Space<T>>
    /** The free list, top first: the walk from `nextEmpty`. */
    ghost var freeChain: seq<nat>

    ghost predicate Valid()
      reads this, spaces
    {
      FreeList(spaces[..], nextEmpty, freeChain)
    }

    /**
     * `default`: every space empty and chained in ascending order, the head
     * at index 0. That is a valid free list exactly when `size >= 1`.
     */
    constructor (size: nat)
      ensures fresh(spaces) && spaces.Length == size
      ensures spaces[..] == DefaultSpaces(size) && nextEmpty == New(0)
      ensures size >= 1 ==> Valid() && freeChain == Ascending(0, size)
    {
      nextEmpty := New(0);
      spaces := new Space<T>[size](i requires 0 <= i < size =>
        if i == size - 1 then Empty(NewEnd()) else Empty(New(i + 1)));
      freeChain := Ascending(0, size);
      new;
      assert spaces[..] == DefaultSpaces(size);
      if size >= 1 {
        DefaultFreeList<T>(size);
      }
    }

    /** `get`: the value at `index` if it is in range and full. */
    function Get(index: nat): (r: Option<T>)
      reads this, spaces
      ensures r.Some? <==> index < spaces.Length && spaces[index].IsFull()
      ensures r.Some? ==> spaces[index] == Full(r.value)
    {
      if index < spaces.Length && spaces[index].Full? then Some(spaces[index].value) else None
    }

    /**
     * `put`: `OutOfSpace` exactly when the free list is empty, changing
     * nothing; otherwise stores `value` at the top index and pops it.
     */
    method Put(value: T) returns (r: Result<nat, PutError>)
      requires Valid()
      modifies this, spaces
      ensures Valid()
      ensures r.Ok? <==> old(nextEmpty).next.Some?
      ensures r.Ok? ==>
        && r.value == old(nextEmpty).next.value
        && Get(r.value) == Some(value)
        && spaces[..] == old(spaces[..])[r.value := Full(value)]
        && nextEmpty == old(spaces[r.value]).link
        && freeChain == old(freeChain)[1..]
      ensures r.Err? ==>
        && r.error == OutOfSpace
        && spaces[..] == old(spaces[..])
        && nextEmpty == old(nextEmpty)
        && freeChain == old(freeChain)
    {
      match nextEmpty.next {
        case Some(index) =>
          PopKeepsFreeList(spaces[..], nextEmpty, freeChain, value);
          var space', head' := PutSpace(spaces[index], nextEmpty, value);
          spaces[index] := space';
          nextEmpty := head';
          freeChain := freeChain[1..];
          r := Ok(index);
        case None =>
          r := Err(OutOfSpace);
      }
    }

    /**
     * `delete`: out of range is `NotFound(index)` and changes nothing; in
     * range it is `Ok`, a full space is freed and pushed on the free list,
     * and an empty one is left alone. Afterwards `get(index)` is `None`.
     */
    method Delete(index: nat) returns (r: Result<(), DeleteError>)
      requires Valid() || spaces.Length == 0
      modifies this, spaces
      ensures old(Valid()) ==> Valid()
      ensures r == if index < spaces.Length then Ok(()) else Err(NotFound(index))
      ensures Get(index) == None
      ensures index < spaces.Length && old(spaces[index]).IsFull() ==>
        && spaces[..] == old(spaces[..])[index := Empty(old(nextEmpty))]
        && nextEmpty == New(index)
        && freeChain == [index] + old(freeChain)
      ensures !(index < spaces.Length && old(spaces[index]).IsFull()) ==>
        && spaces[..] == old(spaces[..])
        && nextEmpty == old(nextEmpty)
        && freeChain == old(freeChain)
    {
      if index < spaces.Length {
        var space', head' := DeleteSpace(spaces[index], nextEmpty, index);
        if spaces[index].IsFull() {
          PushKeepsFreeList(spaces[..], nextEmpty, freeChain, index);
          freeChain := [index] + freeChain;
        }
        spaces[index] := space';
        nextEmpty := head';
        r := Ok(());
      } else {
        r := Err(NotFound(index));
      }
    }
  }

  /**
   * The capacity test: a fresh depot of `size >= 1` spaces accepts exactly
   * `size` puts, which return the indices 0, 1, ..., size - 1 in order, and
   * the next put fails with `OutOfSpace`.
   */
  method CanFitExactlyN(size: nat) returns (indices: seq<nat>, overflow: Result<nat, PutError>)
    requires size >= 1
    ensures indices == Ascending(0, size)
    ensures overflow == Err(OutOfSpace)
  {
    var depot := new ArrayDepot<nat>(size);
    indices := [];
    var i := 0;
    while i < size
      invariant i <= size
      invariant depot.Valid() && depot.spaces.Length == size
      invariant depot.nextEmpty == if i < size then New(i) else NewEnd()
      invariant forall j :: i <= j < size ==> depot.spaces[j] == DefaultSpaces<nat>(size)[j]
      invariant indices == Ascending(0, i)
    {
      var r := depot.Put(i);
      indices := indices + [r.value];
      i := i + 1;
    }
    overflow := depot.Put(size);
  }

  /**
   * The deletion test: on a fresh one-space depot, putting and then deleting
   * that index succeeds, and the value is gone afterwards.
   */
  method CanDeleteElements<T>(value: T) returns (put: Result<nat, PutError>, deleted: Result<(), DeleteError>, after: Option<T>)
    ensures put == Ok(0)
    ensures deleted == Ok(())
    ensures after == None
  {
    var depot := new ArrayDepot<T>(1);
    put := depot.Put(value);
    deleted := depot.Delete(put.value);
    after := depot.Get(put.value);
  }

  /**
   * A zero-size depot is built without complaint, and although its free
   * list is broken, deleting from it is well defined: every index is
   * `NotFound`.
   */
  method ZeroSizeDeleteIsNotFound<T>(index: nat) returns (r: Result<(), DeleteError>)
    ensures r == Err(NotFound(index))
  {
    var depot := new ArrayDepot<T>(0);
    r := depot.Delete(index);
  }
}
