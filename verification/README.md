# Wyrd ECS core, modelled in Dafny

This project models the storage core of the Wyrd entity-component system:

- the **depot** (also called the **parking lot**), a slot allocator;
- the component storages;
- the half-finished entity-id list;
- the component registry with its flag-id counter;
- the entity storage built on a parking lot;
- the per-entity component flag queries.

A depot keeps values in numbered *spaces*. A space is either `Full(value)` or `Empty(link)`. The empty spaces form an intrusive, singly linked, unsorted free list whose head is the depot's `next_empty` link:

- `put` pops the head of the list and fills that space;
- `delete` of a full space empties it and pushes it on the list;
- deleting an empty space changes nothing;
- freed indices are reused last-in, first-out;
- the growable backing appends a space when the list is empty, so its `put` never fails;
- the fixed backing starts with every space chained `0 -> 1 -> ... -> SIZE-1` and answers `OutOfSpace` when the list runs dry.

The free-list invariant is the ghost predicate `Depot.FreeList`. It says three things:

- walking the links from `next_empty` visits distinct, in-range, empty spaces and ends at a `None` link;
- that walk is recorded as a ghost field `freeChain`;
- every empty space is on it.

Every depot operation is proved to keep this invariant. The invariant also fixes the walk uniquely, and makes its length equal to the number of empty spaces.

The depot exists four times in the repository:

- `src/memory/depot/`;
- `src/memory/parking_lot/`;
- `src/data_structure/parking_lot/`;
- the single file `src/data_structure/parking_lot.rs`, which is generic over the index type.

They differ only in names and in the detail text of their errors, so one model (`Links`, `Spaces`, `Depot`, `VecDepots`, `ArrayDepots`) stands for all four. Each table row cites one copy. The matching lines of the other copies are:

- `link.rs`: `src/data_structure/parking_lot/link.rs:8-22` and `src/data_structure/parking_lot.rs:7-26`;
- `space.rs`: `src/data_structure/parking_lot/space.rs:11-69` and `src/data_structure/parking_lot.rs:29-92`;
- `put_space`/`delete_space`: `src/memory/parking_lot/mod.rs:17-28`, `src/data_structure/parking_lot/mod.rs:13-23` and `src/data_structure/parking_lot.rs:104-114`;
- the growable backing: `src/memory/parking_lot/vec_parking_lot.rs:17-55`, `src/data_structure/parking_lot/vec_parking_lot.rs:17-55` and `src/data_structure/parking_lot.rs:122-166`;
- the fixed backing: `src/data_structure/parking_lot/array_parking_lot.rs:14-52` and `src/data_structure/parking_lot.rs:168-212`.

`src/memory/depot/space.rs` is taken to define the same `Space` as `src/memory/parking_lot/space.rs`; the depot files import it in the same way.

The Vec and Array component storages are also duplicated:

- in `src/component.rs:80-117` and `src/component.rs:125-173`;
- in `src/lib.rs:124-161` and `src/lib.rs:168-218`.

These copies are identical to `src/component/*`, which is what the rows cite.

Integer widths: `usize` is `nat`. An entity's flag word is `bv64` (`u64`). Rust's `1 << id` overflows from 64 on, so `component_id < 64` is a precondition, and it is demanded only where the source evaluates the shift.

## Model

| member | source | states |
|---|---|---|
| Links.New | src/memory/depot/link.rs:13-15 | the link points at the given index |
| Links.NewEnd | src/memory/depot/link.rs:20-22 | the link ends the chain |
| Links.PushNew | src/memory/depot/link.rs:27-31 | the old head is handed back for the freed space, and the head now points at the freed index |
| Spaces.Space.ExpectEmpty | src/memory/parking_lot/space.rs:19-24 | defined only on an empty space (a full one panics); returns the link the space holds |
| Spaces.Space.ExpectFull | src/memory/parking_lot/space.rs:28-33 | defined only on a full space (an empty one panics); returns the value the space holds |
| Spaces.Space.IsEmpty | src/memory/parking_lot/space.rs:77-85 | a space is empty exactly when it is not full |
| Depot.PutSpace | src/memory/depot/mod.rs:17-20 | needs an empty space (else panic); the space becomes `Full(value)` and the head becomes the link the space held |
| Depot.DeleteSpace | src/memory/depot/mod.rs:23-28 | a full space becomes `Empty(old head)` and the head points at its index; an empty space and the head are left unchanged |
| Depot.DeleteThenPutSpace | src/memory/depot/mod.rs:17-28 | deleting a full space and putting into it again restores the head and leaves the new value there |
| Depot.ChainedInBounds | src/memory/depot/vec_depot.rs:25-29 | every index on the free list is in range and names an empty space, so `put` indexes a valid space |
| Depot.FreeListUnique | src/memory/depot/vec_depot.rs:24-45 | the free list is determined by the spaces and the head: two valid walks are equal |
| Depot.EmptyFreeList | src/memory/depot/vec_depot.rs:48-55 | no spaces with an end link is a valid, empty free list |
| Depot.PopKeepsFreeList | src/memory/depot/vec_depot.rs:25-29 | with a non-empty list, the head index is the first entry, in range and empty; filling it and following its link leaves a valid list minus that entry |
| Depot.PushKeepsFreeList | src/memory/depot/mod.rs:23-28 | emptying a full in-range space and pointing the head at it leaves a valid list with that index in front |
| Depot.AppendKeepsFreeList | src/memory/depot/vec_depot.rs:30-33 | with an end head the list is empty, and appending a full space keeps it valid |
| Depot.FreeListCountsEmptySpaces | src/memory/depot/vec_depot.rs:24-45 | the free list has exactly as many entries as there are empty spaces |
| VecDepots.VecDepot.constructor | src/memory/depot/vec_depot.rs:48-55 | no spaces, end head, and the invariant holds |
| VecDepots.VecDepot.Get | src/memory/depot/vec_depot.rs:17-22 | `Some` exactly for an in-range full space, carrying its value |
| VecDepots.VecDepot.Put | src/memory/depot/vec_depot.rs:24-35 | always `Ok`, and `get` returns the value afterwards; reuses the head index, otherwise appends at the old length; keeps the invariant and states the whole new state |
| VecDepots.VecDepot.Delete | src/memory/depot/vec_depot.rs:37-45 | `NotFound(index)` exactly when out of range; `get(index)` is `None` afterwards; frees a full space onto the list and otherwise changes nothing; keeps the invariant |
| VecDepots.CanDeleteElements | src/memory/depot/vec_depot.rs:65-76 | put into a new depot gives 0, deleting it succeeds, and the value is gone |
| VecDepots.ReuseIsLifo | src/memory/depot/vec_depot.rs:24-45 | deleting a full index and then putting returns that same index, restores head and free list, and changes only that space |
| ArrayDepots.DefaultSpaces | src/memory/depot/array_depot.rs:17-27 | `size` spaces, all empty |
| ArrayDepots.DefaultFreeList | src/memory/depot/array_depot.rs:17-27 | for size at least 1, the initial spaces with head 0 form a valid free list visiting 0, 1, ..., size-1 in order |
| ArrayDepots.ZeroSizeDefaultIsBroken | src/memory/depot/array_depot.rs:20-24 | with size 0 the initial head points at a space that does not exist, so there is no valid free list |
| ArrayDepots.ArrayDepot.constructor | src/memory/depot/array_depot.rs:17-27 | the initial chained spaces and head 0; for size at least 1 the invariant holds with list 0..size-1 |
| ArrayDepots.ArrayDepot.Get | src/memory/depot/array_depot.rs:30-35 | `Some` exactly for an in-range full space, carrying its value |
| ArrayDepots.ArrayDepot.Put | src/memory/depot/array_depot.rs:37-45 | `Ok` exactly when the list is non-empty, and then the head index now holds the value and is popped; otherwise `OutOfSpace` and nothing changes; keeps the invariant |
| ArrayDepots.ArrayDepot.Delete | src/memory/depot/array_depot.rs:47-55 | also defined on a zero-size depot; `NotFound(index)` exactly when out of range; `get(index)` is `None` afterwards; frees a full space onto the list, otherwise no change; keeps the invariant when it held |
| ArrayDepots.CanFitExactlyN | src/memory/depot/array_depot.rs:58-68 | a new depot of size n accepts exactly n puts, returning 0, 1, ..., n-1, and the next put is `OutOfSpace` |
| ArrayDepots.ZeroSizeDeleteIsNotFound | src/memory/depot/array_depot.rs:47-55 | deleting any index from a zero-size depot returns `NotFound(index)` |
| ArrayDepots.CanDeleteElements | src/memory/depot/array_depot.rs:70-81 | in a one-space depot, put gives 0, deleting it succeeds, and the value is gone |
| VecComponentStorages.VecComponentStorage.NewWithInitialSize | src/component/vec_component_storage.rs:16-20 | starts with no cells |
| VecComponentStorages.VecComponentStorage.Resize | src/component/vec_component_storage.rs:23-28 | length becomes max(length, min size); old cells are kept and new cells are `None` |
| VecComponentStorages.VecComponentStorage.GetComponent | src/component/vec_component_storage.rs:35-40 | `Some` exactly for an in-range cell holding a component |
| VecComponentStorages.VecComponentStorage.SetComponent | src/component/vec_component_storage.rs:42-50 | always `Ok`; grows to cover the index, stores the component there, keeps every other old cell, and grown cells are `None` |
| VecComponentStorages.VecComponentStorage.DeleteComponent | src/component/vec_component_storage.rs:52-57 | always `Ok`; clears an in-range cell, never changes the length, and leaves no component at the index |
| ArrayComponentStorages.ArrayComponentStorage.constructor | src/component/array_component_storage.rs:39-48 | every cell `None` |
| ArrayComponentStorages.ArrayComponentStorage.GetComponent | src/component/array_component_storage.rs:15-20 | `Some` exactly for an in-range cell holding a component |
| ArrayComponentStorages.ArrayComponentStorage.SetComponent | src/component/array_component_storage.rs:22-28 | in range: stores the component and returns `Ok`; out of range: an error carrying the index, and nothing changes |
| ArrayComponentStorages.ArrayComponentStorage.DeleteComponent | src/component/array_component_storage.rs:30-36 | in range: clears the cell and returns `Ok`; out of range: an error carrying the index; no other cell changes |
| MapComponentStorages.MapComponentStorage.constructor | src/component/hash_map_component_storage.rs:35-44 | the empty map: every `get` is `None` |
| MapComponentStorages.MapComponentStorage.Get | src/component/hash_map_component_storage.rs:22-24 | `Some` exactly for a stored key, carrying its component |
| MapComponentStorages.MapComponentStorage.Insert | src/component/hash_map_component_storage.rs:26-28 | never fails; returns the previous component; the key now maps to the new component and other keys are unchanged |
| MapComponentStorages.MapComponentStorage.Delete | src/component/hash_map_component_storage.rs:30-32 | never fails; returns the removed component; the key is absent afterwards and other keys are unchanged |
| MapComponentStorages.InsertAndUpdateBehavior | src/component/mod.rs:53-110 | inserting into an empty key returns `None` and reads back; updating returns the first component and reads back the update |
| EntityLists.NextAfter | src/entity.rs:95-106 | the cursor moves to `Some(n)` exactly when the claimed slot is in range and `Empty(n)`, otherwise to `None` |
| EntityLists.VecEntityList.constructor | src/entity.rs:74-78 | the three fields take the given values |
| EntityLists.VecEntityList.ClaimEntityId | src/entity.rs:81-108 | always `Ok`; with a free slot: returns it, changes no slot, and advances the cursor along its link; without one: appends `Empty(0)`, returns the old length, relinks the recorded last slot when it exists, and the cursor stays `None`; the last-slot field never changes |
| EntityLists.ClaimsFromEmptyListAreNew | src/entity.rs:84-94 | with no free slot, successive claims hand out new ids 0, 1 |
| EntityLists.SelfLinkedSlotIsClaimedTwice | src/entity.rs:81-106 | a claim never marks its slot, so a free slot that links to itself is handed out by two claims in a row |
| ComponentRegistries.Successor | src/entity/mod.rs:45-55 | the counter step is the least (set, flag) id after the current one whose flag index is at most `bits` |
| ComponentRegistries.Registrations | src/entity/mod.rs:43-57 | the first n ids from a counter start with the counter itself |
| ComponentRegistries.RegistrationsIncrease | src/entity/mod.rs:43-57 | successive registrations strictly increase in (set, flag) order |
| ComponentRegistries.RegistrationsFrom | src/entity/mod.rs:43-57 | no registration comes before the starting counter |
| ComponentRegistries.SetRollsOverAfterBitsPlusOne | src/entity/mod.rs:45-54 | starting at flag 0 of set s, the ids are flags 0 to `bits` of s (`bits + 1` flags), then flag 0 of set s+1 |
| ComponentRegistries.LastFlagOfSetIsNotQueryable | src/entity/mod.rs:45-47 | as written, with a 64-bit word the 65th id of a set is flag 64, which no flag query about a known entity may shift by |
| ComponentRegistries.CorrectedSuccessor | src/entity/mod.rs:45-55 | the intended step: the least (set, flag) id after the current one whose flag index is below `bits` |
| ComponentRegistries.CorrectedRegistrations | src/entity/mod.rs:43-57 | the first n ids of the intended counter start with the counter itself |
| ComponentRegistries.CorrectedSetRollsOverAfterBits | src/entity/mod.rs:45-54 | intended: from flag 0 of set s, the ids are flags 0 to `bits - 1` of s (`bits` flags), then flag 0 of set s+1 |
| ComponentRegistries.CorrectedFlagsAreQueryable | src/entity/mod.rs:45-47 | intended: every flag the counter hands out from a valid start can be queried without an overflowing shift |
| ComponentRegistries.ComponentRegistry.constructor | src/entity/mod.rs:22-29 | the fields take the given values |
| ComponentRegistries.ComponentRegistry.GetComponentFlagId | src/entity/mod.rs:32-35 | the id stored under the registry's own type, if any |
| ComponentRegistries.ComponentRegistry.GetNextRegistration | src/entity/mod.rs:43-57 | returns the counter as it was, advances it one step to a strictly later id, and leaves the map alone |
| ComponentRegistries.ComponentRegistry.GetNextRegistrationInWord | src/entity/mod.rs:43-57 | intended counter: returns the counter as it was, advances it by the corrected step, and leaves the map alone |
| ComponentRegistries.ComponentRegistry.RegisterComponent | src/entity/mod.rs:37-41 | as written: advances the counter once, stores the old counter under the registry's own type, and returns that key's previous entry |
| ComponentRegistries.ComponentRegistry.RegisterComponentOf | src/entity/mod.rs:37-41 | as intended: advances the corrected counter once, stores the old counter under the registered component's type, and returns that key's previous entry |
| ComponentRegistries.RegisteringTwoComponentsCollides | src/entity/mod.rs:37-41 | as written, a second registration reports the first one's id as the previous entry, and only the second id can be looked up |
| ComponentRegistries.RegisteringTwoComponentsOfKeepsBoth | src/entity/mod.rs:37-41 | keyed by component type, two new components both register fresh, both are retrievable, the second holds the corrected successor of the first, and their ids increase |
| EntityStorages.VecEntityStorage.constructor | src/entity/mod.rs:61-71 | wraps the given entity table |
| EntityStorages.VecEntityStorage.CreateEntity | src/entity/mod.rs:80-85 | the table's put of zero flags: always `Ok` with the reused or appended index, whose flags are now zero; the new spaces and the new head (the reused space's link, or unchanged after an append) are stated |
| EntityStorages.VecEntityStorage.DeleteEntity | src/entity/mod.rs:87-92 | the table's delete: `NotFound` exactly out of range; the entity is gone; a full space becomes empty and heads the free list, and otherwise the table is unchanged |
| EntityStorages.ArrayEntityStorage.constructor | src/entity/mod.rs:61-71 | wraps the given entity table |
| EntityStorages.ArrayEntityStorage.CreateEntity | src/entity/mod.rs:80-85 | the table's put of zero flags: `OutOfSpace` exactly when no space is free, with nothing changed; otherwise the head index with zero flags, and the head moves to that space's old link |
| EntityStorages.ArrayEntityStorage.DeleteEntity | src/entity/mod.rs:87-92 | the table's delete, also on a zero-size table: `NotFound` exactly out of range; the entity is gone; a full space becomes empty and heads the free list, and otherwise the table is unchanged |
| EntityStorages.NewEntityLacksComponents | src/entity/mod.rs:80-85 | a newly created entity gets id 0 in an empty storage and lacks every component (its word is read as a one-entry flag table, since the source links the table to no flag store) |
| EntityStorages.DeletedEntitiesAreReusedLifo | src/entity/mod.rs:80-92 | after deleting two live entities a then b, the next two creations return b then a |
| ComponentFlags.GetFlagsForEntity | src/entity/component_flags.rs:42-44 | `Some(table[id])` exactly when the id is in range |
| ComponentFlags.EntityHasComponent | src/entity/component_flags.rs:11-16 | false for an unknown entity; otherwise true exactly when bit `component_id` of its flags is set |
| ComponentFlags.EntityHasComponents | src/entity/component_flags.rs:17-21 | true exactly when every listed component's bit is set for a known entity (true for an empty list) |
| ComponentFlags.EntityLacksComponents | src/entity/component_flags.rs:23-27 | true exactly when no listed component's bit is set (true for an empty list and for an unknown entity) |
| ComponentFlags.SmallIdsInRange | src/entity/component_flags.rs:17-27 | queries with every id below 64 never overflow a shift |
| ComponentFlags.UnknownEntityInRange | src/entity_bit_table.rs:3-8 | queries about an unknown entity evaluate no shift, so any ids are allowed |
| ComponentFlags.UnknownEntityLacksEverything | src/entity/component_flags.rs:11-27 | an unknown entity lacks every list, and has a list only when it is empty |
| ComponentFlags.ZeroFlagsLackEverything | src/entity/component_flags.rs:23-27 | an entity whose flags are zero lacks every list of components |
| ComponentFlags.HasAndLacksExclusive | src/entity_bit_table.rs:9-19 | for a non-empty list, having all and lacking all never hold together |
| ComponentFlags.HasComponentsConcat | src/entity_bit_table.rs:9-13 | having `a + b` is having `a` and having `b` |
| ComponentFlags.SetFlagAddsOnlyThatComponent | src/entity_bit_table.rs:3-8 | setting bit c of an entity's word makes it have component c, and no other entity/component answer changes |

## Findings

| source | as written | input that shows it | evidently intended | confidence | as-written member | corrected member |
|---|---|---|---|---|---|---|
| src/entity/mod.rs:37-41 | `register_component::<C>` keys the map by `TypeId::of::<T>()`, the registry's own word type, and never uses `C` | register two different components in turn: the second returns `Some(first id)`, and afterwards only the second id is stored | key the entry by `TypeId::of::<C>()`, so that each component keeps its own id | high, not executed | ComponentRegistries.RegisteringTwoComponentsCollides | ComponentRegistries.RegisteringTwoComponentsOfKeepsBoth |
| src/entity/mod.rs:45-47 | the counter increments `flag_index` while it is below `size_of::<T>() * 8`, so it hands out flag index `bits` itself: a set gets `bits + 1` flags | a `u64` registry's 65th registration in a set is flag 64, and `entity_has_component` with id 64 shifts `1u64` by 64 | increment only while `flag_index + 1 < bits`, so a set holds exactly the `bits` flags of its word | medium, not executed | ComponentRegistries.LastFlagOfSetIsNotQueryable | ComponentRegistries.CorrectedFlagsAreQueryable |

`ComponentRegistry.RegisterComponent` and `ComponentRegistry.GetNextRegistration` model the code as written. `ComponentRegistry.RegisterComponentOf` is the corrected operation: it keys by component type and advances the counter with `CorrectedSuccessor` (through `GetNextRegistrationInWord`).

## Left out

- Error structs and their `Display` implementations are message formatting only. Errors are plain datatypes carrying the index or entity id, and their detail strings are dropped.
- The single-file copy's `DeleteError::NotFound` carries no index. The shared model's `NotFound(index)` covers it; the extra index is the only difference.
- The single file's generic index type `I` is taken to be `usize`.
- `usize` overflow is not modelled. This affects `index + 1` in `set_component`, the flag counter and `len() - 1`. All integers are unbounded.
- The `_ref` and `_mut` accessors of `Space` return a borrow of what `expect_empty`/`expect_full` return by value. References are not modelled, so these are the same functions `ExpectEmpty`/`ExpectFull`.
- Rust's `panic` becomes a precondition: `PutSpace` and `ExpectEmpty` require an empty space, and the depot methods require the free-list invariant.
- ArrayDepots.ArrayDepot.Put: a zero-size depot is built as written but does not satisfy the free-list invariant, so its `put` is not covered (the source would index out of bounds). Its `delete` is covered.
- `Vec::reserve` in `new_with_initial_size` is a capacity hint with no observable effect, so it is dropped.
- The million-element stress test of the growable depot is captured by `VecDepot.Put` always returning `Ok`.
- The Vec and Array component storages define `get_component`, `set_component` and `delete_component`, while the `ComponentStorage` trait declares `get`, `insert` and `delete`. Each storage is modelled with the methods it defines. The shared test harness is modelled only for the map storages, whose methods match it.
- The BTreeMap and HashMap storages differ only in their backing map. Iteration order and hashing are not observable through their methods, so both are `MapComponentStorage` (the BTreeMap file has the same lines).
- Type-erased storage sets (`ComponentStorageSet`, lib's `EntityStorage`) store `Box<dyn Any>` and downcast at runtime. They are left out as reflection.
- `discard_entity_id` and all of `ArrayEntityList` are `todo!()`.
- `VecEntityList`, `ComponentRegistry` and `EntityStorage` have no constructor in the source. The Dafny constructors stand for struct literals.
- `EntityStorage`'s `entity_table_extensions` field is never read or written by its methods, so it is dropped.
- `src/memory/parking_lot/array_parking_lot.rs` and `src/memory/parking_lot/link.rs` are taken to be the same as their counterparts in the other copies, so `ArrayEntityStorage` uses the depot model's fixed backing.
- The flag word of `ComponentFlags<T>` is generic in the source and fixed to 64 bits here. The entity storage aliases are generic too; the model fixes their word to `u64`, the word of the bit table.
- `TypeId` and `size_of` come from the compiler. They are the registry fields `typeId` and `bits`.
