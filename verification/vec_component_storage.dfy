/**
 * `VecComponentStorage`: components indexed by entity id in a growable vector
 * of optional cells. Writes beyond the end grow the vector, filling the new
 * cells with `None`; nothing ever shrinks it.
 */
module VecComponentStorages {
  import opened Wrappers
  import opened ComponentErrors

  /** `max(a, b)` on lengths. */
  function Max(a: nat, b: nat): (r: nat)
    ensures r >= a && r >= b && (r == a || r == b)
  {
    if a < b then b else a
  }

  class VecComponentStorage<T> {
    var components: seq<Option<T>>

    /**
     * `new_with_initial_size`: an empty storage; the reserved capacity is a
     * performance hint with no observable effect.
     */
    constructor NewWithInitialSize(initialSize: nat)
      ensures components == []
    {
      components := [];
    }

    /**
     * `resize`: grows to exactly `max(len, minSize)`, keeps the existing
     * cells and fills the new ones with `None`.
     */
    method Resize(minSize: nat)
      modifies this
      ensures |components| == Max(|old(components)|, minSize)
      ensures components[..|old(components)|] == old(components)
      ensures forall i :: |old(components)| <= i < |components| ==> components[i].None?
    {
      var currentLength := |components|;
      if currentLength < minSize {
        components := components + seq(minSize - currentLength, _ => None);
      }
    }

    /** `get_component`: the component at `index` if in range and present. */
    function GetComponent(index: nat): (r: Option<T>)
      reads this
      ensures r.Some? <==> index < |components| && components[index].Some?
      ensures r.Some? ==> components[index] == r
    {
      if index < |components| then components[index] else None
    }

    /**
     * `set_component`: always `Ok`. Grows the storage to cover `index`,
     * stores the component there, and leaves every other existing cell as it
     * was; cells added by the growth are `None`.
     */
    method SetComponent(index: nat, component: T) returns (r: Result<(), ComponentWriteError>)
      modifies this
      ensures r == Ok(())
      ensures |components| == Max(|old(components)|, index + 1)
      ensures GetComponent(index) == Some(component)
      ensures forall i :: 0 <= i < |components| && i != index ==>
        components[i] == if i < |old(components)| then old(components)[i] else None
    {
      if index >= |components| {
        Resize(index + 1);
      }
      if index < |components| {
        components := components[index := Some(component)];
      }
      r := Ok(());
    }

    /**
     * `delete_component`: always `Ok`; clears the cell at `index` when it is
     * in range and never changes the length.
     */
    method DeleteComponent(index: nat) returns (r: Result<(), ComponentWriteError>)
      modifies this
      ensures r == Ok(())
      ensures GetComponent(index) == None
      ensures components == if index < |old(components)| then old(components)[index := None] else old(components)
    {
      if index < |components| {
        components := components[index := None];
      }
      r := Ok(());
    }
  }
}
