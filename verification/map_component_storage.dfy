/**
 * The map-backed component storages (`BTreeMapComponentStorage` and
 * `HashMapComponentStorage`): components keyed by entity id. Both behave as
 * a finite map; their ordering and hashing are not observable here.
 */
module MapComponentStorages {
  import opened Wrappers
  import opened ComponentErrors

  class MapComponentStorage<T> {
    var components: map<nat, T>

    /** `new` / `default`: the empty map, so every `get` is `None`. */
    constructor ()
      ensures components == map[]
      ensures forall index :: Get(index) == None
    {
      components := map[];
    }

    /** `get`: the component stored under `index`, if any. */
    function Get(index: nat): (r: Option<T>)
      reads this
      ensures r.Some? <==> index in components
      ensures r.Some? ==> components[index] == r.value
    {
      if index in components then Some(components[index]) else None
    }

    /**
     * `insert`: never fails; returns the previous component under `index`
     * (`None` for a first insert), and afterwards `get(index)` is the new one
     * while every other key keeps its component.
     */
    method Insert(index: nat, component: T) returns (r: Result<Option<T>, ComponentWriteError>)
      modifies this
      ensures r == Ok(old(Get(index)))
      ensures Get(index) == Some(component)
      ensures components == old(components)[index := component]
    {
      var previous := Get(index);
      components := components[index := component];
      r := Ok(previous);
    }

    /**
     * `delete`: never fails; returns the removed component (`None` if there
     * was none), and afterwards the key is absent while every other key keeps
     * its component.
     */
    method Delete(index: nat) returns (r: Result<Option<T>, ComponentWriteError>)
      modifies this
      ensures r == Ok(old(Get(index)))
      ensures Get(index) == None
      ensures components == old(components) - {index}
    {
      var removed := Get(index);
      components := components - {index};
      r := Ok(removed);
    }
  }

  /**
   * The shared insertion test: inserting into an empty key returns `None`,
   * reading it back gives the component, updating it returns the first
   * component, and reading it back gives the update.
   */
  method InsertAndUpdateBehavior<T>(storage: MapComponentStorage<T>, index: nat, first: T, update: T)
    returns (inserted: Result<Option<T>, ComponentWriteError>, read: Option<T>,
             updated: Result<Option<T>, ComponentWriteError>, reread: Option<T>)
    requires storage.Get(index) == None
    modifies storage
    ensures inserted == Ok(None) && read == Some(first)
    ensures updated == Ok(Some(first)) && reread == Some(update)
  {
    inserted := storage.Insert(index, first);
    read := storage.Get(index);
    updated := storage.Insert(index, update);
    reread := storage.Get(index);
  }
}
