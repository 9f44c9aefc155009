/**
 * `ArrayComponentStorage`: components indexed by entity id in a fixed-size
 * array of optional cells; writes outside the array fail with the entity id.
 */
module ArrayComponentStorages {
  import opened Wrappers
  import opened ComponentErrors

  class ArrayComponentStorage<T> {
    const components: array<Option<T>>

    /** `default`: every cell `None`. */
    constructor (size: nat)
      ensures fresh(components) && components.Length == size
      ensures forall i :: 0 <= i < size ==> components[i].None?
    {
      components := new Option<T>[size](_ => None);
    }

    /** `get_component`: the component at `index` if in range and present. */
    function GetComponent(index: nat): (r: Option<T>)
      reads components
      ensures r.Some? <==> index < components.Length && components[index].Some?
      ensures r.Some? ==> components[index] == r
    {
      if index < components.Length then components[index] else None
    }

    /**
     * `set_component`: in range, stores the component and returns `Ok`; out
     * of range, returns an error carrying `index` and changes nothing. No
     * other cell changes.
     */
    method SetComponent(index: nat, component: T) returns (r: Result<(), ComponentWriteError>)
      modifies components
      ensures r == if index < components.Length then Ok(()) else Err(ComponentWriteError(index))
      ensures r.Ok? ==> GetComponent(index) == Some(component)
      ensures components[..] == if r.Ok? then old(components[..])[index := Some(component)] else old(components[..])
    {
      if index < components.Length {
        components[index] := Some(component);
        return Ok(());
      }
      r := Err(ComponentWriteError(index));
    }

    /**
     * `delete_component`: in range, clears the cell and returns `Ok`; out of
     * range, returns an error carrying `index`. No other cell changes, and
     * afterwards there is no component at `index`.
     */
    method DeleteComponent(index: nat) returns (r: Result<(), ComponentWriteError>)
      modifies components
      ensures r == if index < components.Length then Ok(()) else Err(ComponentWriteError(index))
      ensures GetComponent(index) == None
      ensures components[..] == if r.Ok? then old(components[..])[index := None] else old(components[..])
    {
      if index < components.Length {
        components[index] := None;
        return Ok(());
      }
      r := Err(ComponentWriteError(index));
    }
  }
}
