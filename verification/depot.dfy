/**
 * The depot internals shared by every backing (`put_space`, `delete_space`)
 * and the free-list invariant they keep.
 *
 * The empty spaces of a depot form an intrusive, singly linked free list used
 * as a LIFO stack: `nextEmpty` is the top, each empty space links to the next
 * one, `None` ends it. `delete` pushes a freed index, `put` pops the top.
 */
module Depot {
  import opened Wrappers
  import opened Links
  import opened Spaces

  /** `PutError`: the bounded depot is out of space. */
  datatype PutError = OutOfSpace

  /** `DeleteError`: the index is outside the storage; it carries that index. */
  datatype DeleteError = NotFound(index: nat)

  /**
   * `put_space`: stores `value` in an empty space and pops the free list, i.e.
   * the head becomes the link the space held. The source panics with
   * "next_empty pointed to a non-empty space" on a full space: a precondition.
   */
  method PutSpace<T>(space: Space<T>, head: Link, value: T) returns (space': Space<T>, head': Link)
    requires space.IsEmpty()
    ensures space' == Full(value)
    ensures head' == space.link
  {
    var replaced := space;
    space' := Full(value);
    head' := replaced.ExpectEmpty();
  }

  /**
   * `delete_space`: a full space at `index` becomes empty, linked to the old
   * head, and `index` becomes the head (a push). An empty space is left alone.
   */
  method DeleteSpace<T>(space: Space<T>, head: Link, index: nat) returns (space': Space<T>, head': Link)
    ensures space.IsFull() ==> space' == Empty(head) && head' == New(index)
    ensures space.IsEmpty() ==> space' == space && head' == head
  {
    space', head' := space, head;
    if space.IsFull() {
      var link;
      link, head' := PushNew(index, head);
      space' := Empty(link);
    }
  }

  /**
   * Deleting a full space and then putting into it restores the head the
   * free list had before the delete.
   */
  method DeleteThenPutSpace<T>(space: Space<T>, head: Link, index: nat, value: T)
    returns (space': Space<T>, head': Link)
    requires space.IsFull()
    ensures space' == Full(value) && head' == head
  {
    var freed, pushed := DeleteSpace(space, head, index);
    space', head' := PutSpace(freed, pushed, value);
  }

  /**
   * Starting at `head` and following the links visits exactly the indices of
   * `chain`, in order; each is an in-bounds empty space, and the last one
   * links to `None`.
   */
  ghost predicate Chained<T>(spaces: seq<Space<T>>, head: Link, chain: seq<nat>)
    decreases |chain|
  {
    if chain == [] then head == NewEnd()
    else
      && head == New(chain[0])
      && chain[0] < |spaces|
      && spaces[chain[0]].Empty?
      && Chained(spaces, spaces[chain[0]].link, chain[1..])
  }

  /** No index occurs twice in `chain`. */
  ghost predicate Distinct(chain: seq<nat>)
  {
    forall k, l :: 0 <= k < l < |chain| ==> chain[k] != chain[l]
  }

  /**
   * The free-list invariant: the walk from `head` is `chain`, it visits no
   * space twice, and every empty space is on it.
   */
  ghost predicate FreeList<T>(spaces: seq<Space<T>>, head: Link, chain: seq<nat>)
  {
    && Chained(spaces, head, chain)
    && Distinct(chain)
    && (forall i :: 0 <= i < |spaces| && spaces[i].Empty? ==> i in chain)
  }

  /** Every index on a walk is an in-bounds empty space. */
  lemma {:induction false} ChainedInBounds<T>(spaces: seq<Space<T>>, head: Link, chain: seq<nat>)
    requires Chained(spaces, head, chain)
    ensures forall x :: x in chain ==> x < |spaces| && spaces[x].Empty?
    decreases |chain|
  {
    if chain != [] {
      ChainedInBounds(spaces, spaces[chain[0]].link, chain[1..]);
      assert forall x :: x in chain ==> x == chain[0] || x in chain[1..];
    }
  }

  /** A walk only depends on the spaces it visits. */
  lemma {:induction false} ChainedFrame<T>(spaces: seq<Space<T>>, spaces': seq<Space<T>>, head: Link, chain: seq<nat>)
    requires Chained(spaces, head, chain)
    requires forall x :: x in chain && x < |spaces| ==> x < |spaces'| && spaces'[x] == spaces[x]
    ensures Chained(spaces', head, chain)
    decreases |chain|
  {
    if chain != [] {
      assert chain[0] in chain;
      assert forall x :: x in chain[1..] ==> x in chain;
      ChainedFrame(spaces, spaces', spaces[chain[0]].link, chain[1..]);
    }
  }

  /**
   * The chain is determined by the spaces and the head alone: two chains
   * that both satisfy the walk are equal.
   */
  lemma {:induction false} FreeListUnique<T>(spaces: seq<Space<T>>, head: Link, chain1: seq<nat>, chain2: seq<nat>)
    requires Chained(spaces, head, chain1) && Chained(spaces, head, chain2)
    ensures chain1 == chain2
    decreases |chain1|
  {
    if chain1 != [] && chain2 != [] {
      assert chain1[0] == chain2[0];
      FreeListUnique(spaces, spaces[chain1[0]].link, chain1[1..], chain2[1..]);
      assert chain1 == [chain1[0]] + chain1[1..];
      assert chain2 == [chain2[0]] + chain2[1..];
    }
  }

  /** The free list of a default growable depot: no spaces, a `None` head. */
  lemma EmptyFreeList<T>()
    ensures FreeList<T>([], NewEnd(), [])
  {
  }

  /**
   * Popping (what `put` does with a non-empty free list): the head is an
   * in-bounds empty space, so `put_space` cannot panic, and filling it while
   * moving the head to its link leaves a free list whose chain is the tail.
   */
  lemma PopKeepsFreeList<T>(spaces: seq<Space<T>>, head: Link, chain: seq<nat>, value: T)
    requires FreeList(spaces, head, chain)
    requires head.next.Some?
    ensures chain != [] && chain[0] == head.next.value
    ensures head.next.value < |spaces| && spaces[head.next.value].IsEmpty()
    ensures FreeList(spaces[chain[0] := Full(value)], spaces[chain[0]].link, chain[1..])
  {
    var spaces' := spaces[chain[0] := Full(value)];
    var tail := chain[1..];
    forall x | x in tail && x < |spaces|
      ensures x < |spaces'| && spaces'[x] == spaces[x]
    {
      var k :| 0 <= k < |tail| && tail[k] == x;
      assert chain[k + 1] == x;
    }
    ChainedFrame(spaces, spaces', spaces[chain[0]].link, tail);
    forall i | 0 <= i < |spaces'| && spaces'[i].Empty?
      ensures i in tail
    {
      assert i in chain;
      var k :| 0 <= k < |chain| && chain[k] == i;
      assert tail[k - 1] == i;
    }
  }

  /**
   * Pushing (what `delete` does to a full space): the space at `index`
   * becomes empty, linked to the old head, and the chain grows at the front.
   */
  lemma PushKeepsFreeList<T>(spaces: seq<Space<T>>, head: Link, chain: seq<nat>, index: nat)
    requires FreeList(spaces, head, chain)
    requires index < |spaces| && spaces[index].IsFull()
    ensures FreeList(spaces[index := Empty(head)], New(index), [index] + chain)
  {
    var spaces' := spaces[index := Empty(head)];
    var chain' := [index] + chain;
    ChainedInBounds(spaces, head, chain);
    ChainedFrame(spaces, spaces', head, chain);
    assert chain'[1..] == chain;
    forall k, l | 0 <= k < l < |chain'|
      ensures chain'[k] != chain'[l]
    {
      assert chain'[l] == chain[l - 1] && chain[l - 1] in chain;
      if k > 0 {
        assert chain'[k] == chain[k - 1];
      }
    }
  }

  /**
   * Appending a full space (what the growable `put` does when the free list
   * is empty) keeps the free list empty.
   */
  lemma AppendKeepsFreeList<T>(spaces: seq<Space<T>>, head: Link, chain: seq<nat>, value: T)
    requires FreeList(spaces, head, chain)
    requires head.next.None?
    ensures chain == []
    ensures FreeList(spaces + [Full(value)], head, [])
  {
    var spaces' := spaces + [Full(value)];
    forall i | 0 <= i < |spaces'|
      ensures !spaces'[i].Empty?
    {
      if i < |spaces| {
        assert spaces'[i] == spaces[i];
      }
    }
  }

  /** The number of empty spaces equals the length of the chain. */
  lemma FreeListCountsEmptySpaces<T>(spaces: seq<Space<T>>, head: Link, chain: seq<nat>)
    requires FreeList(spaces, head, chain)
    ensures |chain| == |set i | 0 <= i < |spaces| && spaces[i].Empty?|
  {
    ChainedInBounds(spaces, head, chain);
    var empties := set i | 0 <= i < |spaces| && spaces[i].Empty?;
    var listed := set k | 0 <= k < |chain| :: chain[k];
    forall i | i in empties ensures i in listed {
      assert i in chain;
      var k :| 0 <= k < |chain| && chain[k] == i;
    }
    forall i | i in listed ensures i in empties {
      var k :| 0 <= k < |chain| && chain[k] == i;
      assert chain[k] in chain;
    }
    assert empties == listed;
    DistinctCard(chain);
  }

  /** A sequence without repetitions has as many elements as its set. */
  lemma {:induction false} DistinctCard(s: seq<nat>)
    requires Distinct(s)
    ensures |set k | 0 <= k < |s| :: s[k]| == |s|
  {
    if s != [] {
      var rest := s[1..];
      DistinctCard(rest);
      var whole := set k | 0 <= k < |s| :: s[k];
      var tail := set k | 0 <= k < |rest| :: rest[k];
      assert whole == tail + {s[0]} by {
        forall x | x in whole ensures x in tail + {s[0]} {
          var k :| 0 <= k < |s| && s[k] == x;
          if k > 0 { assert rest[k - 1] == x; }
        }
        forall x | x in tail ensures x in whole {
          var k :| 0 <= k < |rest| && rest[k] == x;
          assert s[k + 1] == x;
        }
      }
      forall k | 0 <= k < |rest|
        ensures rest[k] != s[0]
      {
        assert rest[k] == s[k + 1];
      }
    }
  }
}
