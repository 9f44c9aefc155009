/**
 * `EntityStorage`: each entity is a space in a parking lot holding the
 * entity's 64-bit component flags. Creating an entity stores zero flags,
 * deleting it frees its space; both return the parking lot's own result.
 */
module EntityStorages {
  import opened Wrappers
  import opened Links
  import opened Spaces
  import opened Depot
  import VecDepots
  import ArrayDepots
  import ComponentFlags

  /** `VecEntityStorage`: the entity table is a growable parking lot. */
  class VecEntityStorage {
    const entityTable: VecDepots.VecDepot<bv64>

    ghost predicate Valid()
      reads this, entityTable
    {
      entityTable.Valid()
    }

    /** The struct has no constructor of its own; this stands for its literal. */
    constructor (entityTable: VecDepots.VecDepot<bv64>)
      ensures this.entityTable == entityTable
    {
      this.entityTable := entityTable;
    }

    /**
     * `create_entity`: the put of zero flags, which never fails here; the
     * new entity's flags are zero and it reuses the most recently freed
     * space, or else gets a new one at the end.
     */
    method CreateEntity() returns (r: Result<nat, PutError>)
      requires Valid()
      modifies entityTable
      ensures Valid()
      ensures r == Ok(if old(entityTable.nextEmpty).next.Some? then old(entityTable.nextEmpty).next.value
                      else |old(entityTable.spaces)|)
      ensures entityTable.Get(r.value) == Some(0)
      ensures old(entityTable.nextEmpty).next.Some? ==>
        && entityTable.spaces == old(entityTable.spaces)[r.value := Full(0)]
        && entityTable.nextEmpty == old(entityTable.spaces)[r.value].link
      ensures old(entityTable.nextEmpty).next.None? ==>
        && entityTable.spaces == old(entityTable.spaces) + [Full(0)]
        && entityTable.nextEmpty == old(entityTable.nextEmpty)
    {
      var put := entityTable.Put(0);
      match put {
        case Ok(entityId) => r := Ok(entityId);
        case Err(err) => r := Err(err);
      }
    }

    /**
     * `delete_entity`: the parking lot's delete; `NotFound` exactly when the
     * id is out of range, and the entity is gone afterwards.
     */
    method DeleteEntity(entityId: nat) returns (r: Result<(), DeleteError>)
      requires Valid()
      modifies entityTable
      ensures Valid()
      ensures r == if entityId < |old(entityTable.spaces)| then Ok(()) else Err(NotFound(entityId))
      ensures entityTable.Get(entityId) == None
      ensures entityId < |old(entityTable.spaces)| && old(entityTable.spaces)[entityId].IsFull() ==>
        && entityTable.spaces == old(entityTable.spaces)[entityId := Empty(old(entityTable.nextEmpty))]
        && entityTable.nextEmpty == New(entityId)
      ensures !(entityId < |old(entityTable.spaces)| && old(entityTable.spaces)[entityId].IsFull()) ==>
        && entityTable.spaces == old(entityTable.spaces)
        && entityTable.nextEmpty == old(entityTable.nextEmpty)
    {
      var deleted := entityTable.Delete(entityId);
      match deleted {
        case Ok(_) => r := Ok(());
        case Err(err) => r := Err(err);
      }
    }
  }

  /** `ArrayEntityStorage`: the entity table is a fixed-size parking lot. */
  class ArrayEntityStorage {
    const entityTable: ArrayDepots.ArrayDepot<bv64>

    ghost predicate Valid()
      reads this, entityTable, entityTable.spaces
    {
      entityTable.Valid()
    }

    /** The struct has no constructor of its own; this stands for its literal. */
    constructor (entityTable: ArrayDepots.ArrayDepot<bv64>)
      ensures this.entityTable == entityTable
    {
      this.entityTable := entityTable;
    }

    /**
     * `create_entity`: the put of zero flags; `OutOfSpace` exactly when no
     * space is free, and otherwise the most recently freed space now holds
     * the new entity's zero flags.
     */
    method CreateEntity() returns (r: Result<nat, PutError>)
      requires Valid()
      modifies entityTable, entityTable.spaces
      ensures Valid()
      ensures r == if old(entityTable.nextEmpty).next.Some? then Ok(old(entityTable.nextEmpty).next.value) else Err(OutOfSpace)
      ensures r.Ok? ==>
        && entityTable.Get(r.value) == Some(0)
        && entityTable.spaces[..] == old(entityTable.spaces[..])[r.value := Full(0)]
        && entityTable.nextEmpty == old(entityTable.spaces[r.value]).link
      ensures r.Err? ==>
        && entityTable.spaces[..] == old(entityTable.spaces[..])
        && entityTable.nextEmpty == old(entityTable.nextEmpty)
    {
      var put := entityTable.Put(0);
      match put {
        case Ok(entityId) => r := Ok(entityId);
        case Err(err) => r := Err(err);
      }
    }

    /**
     * `delete_entity`: the parking lot's delete; `NotFound` exactly when the
     * id is out of range, and the entity is gone afterwards.
     */
    method DeleteEntity(entityId: nat) returns (r: Result<(), DeleteError>)
      requires Valid() || entityTable.spaces.Length == 0
      modifies entityTable, entityTable.spaces
      ensures old(Valid()) ==> Valid()
      ensures r == if entityId < entityTable.spaces.Length then Ok(()) else Err(NotFound(entityId))
      ensures entityTable.Get(entityId) == None
      ensures entityId < entityTable.spaces.Length && old(entityTable.spaces[entityId]).IsFull() ==>
        && entityTable.spaces[..] == old(entityTable.spaces[..])[entityId := Empty(old(entityTable.nextEmpty))]
        && entityTable.nextEmpty == New(entityId)
      ensures !(entityId < entityTable.spaces.Length && old(entityTable.spaces[entityId]).IsFull()) ==>
        && entityTable.spaces[..] == old(entityTable.spaces[..])
        && entityTable.nextEmpty == old(entityTable.nextEmpty)
    {
      var deleted := entityTable.Delete(entityId);
      match deleted {
        case Ok(_) => r := Ok(());
        case Err(err) => r := Err(err);
      }
    }
  }

  /**
   * A new entity has no components: after creating an entity in an empty
   * storage, its flags are zero and it lacks any list of components below 64.
   * The source does not link the parking lot's words to a flag table (the
   * unused extensions field would hold one), so the flag table here is built
   * from the entity's own word, and that it sits at the entity's index holds
   * only because the first id is 0.
   */
  method NewEntityLacksComponents(componentIds: seq<nat>) returns (entityId: nat, lacks: bool)
    requires forall k :: 0 <= k < |componentIds| ==> componentIds[k] < 64
    ensures entityId == 0 && lacks
  {
    var table := new VecDepots.VecDepot<bv64>();
    var storage := new VecEntityStorage(table);
    var created := storage.CreateEntity();
    entityId := created.value;
    var flags := [storage.entityTable.spaces[entityId].value];
    ComponentFlags.ZeroFlagsLackEverything(flags, entityId, componentIds);
    lacks := ComponentFlags.EntityLacksComponents(flags, entityId, componentIds);
  }

  /**
   * Entity ids are reused last-in, first-out: after deleting two live
   * entities `a` and then `b`, the next two creations return `b` and then `a`.
   */
  method DeletedEntitiesAreReusedLifo(storage: VecEntityStorage, a: nat, b: nat)
    returns (first: Result<nat, PutError>, second: Result<nat, PutError>)
    requires storage.Valid()
    requires a != b
    requires storage.entityTable.Get(a).Some? && storage.entityTable.Get(b).Some?
    modifies storage.entityTable
    ensures first == Ok(b) && second == Ok(a)
  {
    var _ := storage.DeleteEntity(a);
    var _ := storage.DeleteEntity(b);
    first := storage.CreateEntity();
    second := storage.CreateEntity();
  }
}
