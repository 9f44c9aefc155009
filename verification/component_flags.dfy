/**
 * The per-entity component flag queries (`ComponentFlags` and its `u64`
 * twin `EntityBitTable`): an entity's flags are one 64-bit word in a table
 * indexed by entity id, and component `c` is present when bit `c` is set.
 * A vector-backed and an array-backed table answer `get` alike, so both are
 * one sequence here.
 */
module ComponentFlags {
  import opened Wrappers

  /** Bit `c` of `flags` is set; no bit at or beyond 64 is. */
  predicate BitSet(flags: bv64, c: nat)
  {
    c < 64 && flags & ((1 as bv64) << c) != 0
  }

  /** `get_flags_for_entity` / `get_entity_flags`: the entity's word if it is in range. */
  function GetFlagsForEntity(table: seq<bv64>, entityId: nat): (r: Option<bv64>)
    ensures r.Some? <==> entityId < |table|
    ensures r.Some? ==> r.value == table[entityId]
  {
    if entityId < |table| then Some(table[entityId]) else None
  }

  /**
   * The shift `1 << componentId` is evaluated only for a known entity, and
   * it overflows from 64 on.
   */
  predicate ShiftInRange(table: seq<bv64>, entityId: nat, componentId: nat)
  {
    entityId < |table| ==> componentId < 64
  }

  /**
   * `entity_has_component`: false for an unknown entity; otherwise whether
   * bit `componentId` of its flags is set.
   */
  function EntityHasComponent(table: seq<bv64>, entityId: nat, componentId: nat): (r: bool)
    requires ShiftInRange(table, entityId, componentId)
    ensures r <==> GetFlagsForEntity(table, entityId).Some? && BitSet(table[entityId], componentId)
  {
    var flags := GetFlagsForEntity(table, entityId);
    flags.Some? && flags.value & ((1 as bv64) << componentId) != 0
  }

  /**
   * `iter().all(...)` stops at the first id whose answer differs from
   * `expected`, so only the shifts up to there are evaluated.
   */
  predicate EvaluatedShiftsInRange(table: seq<bv64>, entityId: nat, ids: seq<nat>, expected: bool)
    decreases |ids|
  {
    ids == [] ||
    (ShiftInRange(table, entityId, ids[0]) &&
     (EntityHasComponent(table, entityId, ids[0]) == expected ==> EvaluatedShiftsInRange(table, entityId, ids[1..], expected)))
  }

  /** `entity_has_components`: every listed component is present (true for none). */
  function EntityHasComponents(table: seq<bv64>, entityId: nat, componentIds: seq<nat>): (r: bool)
    requires EvaluatedShiftsInRange(table, entityId, componentIds, true)
    ensures r <==> forall k :: 0 <= k < |componentIds| ==> entityId < |table| && BitSet(table[entityId], componentIds[k])
    decreases |componentIds|
  {
    if componentIds == [] then true
    else EntityHasComponent(table, entityId, componentIds[0]) && EntityHasComponents(table, entityId, componentIds[1..])
  }

  /** `entity_lacks_components`: no listed component is present (true for none). */
  function EntityLacksComponents(table: seq<bv64>, entityId: nat, componentIds: seq<nat>): (r: bool)
    requires EvaluatedShiftsInRange(table, entityId, componentIds, false)
    ensures r <==> forall k :: 0 <= k < |componentIds| ==> !(entityId < |table| && BitSet(table[entityId], componentIds[k]))
    decreases |componentIds|
  {
    if componentIds == [] then true
    else !EntityHasComponent(table, entityId, componentIds[0]) && EntityLacksComponents(table, entityId, componentIds[1..])
  }

  /** Ids all below 64 are always safe to query. */
  lemma {:induction false} SmallIdsInRange(table: seq<bv64>, entityId: nat, ids: seq<nat>, expected: bool)
    requires forall k :: 0 <= k < |ids| ==> ids[k] < 64
    ensures EvaluatedShiftsInRange(table, entityId, ids, expected)
    decreases |ids|
  {
    if ids != [] {
      SmallIdsInRange(table, entityId, ids[1..], expected);
    }
  }

  /** An unknown entity can be queried with any ids. */
  lemma {:induction false} UnknownEntityInRange(table: seq<bv64>, entityId: nat, ids: seq<nat>, expected: bool)
    requires entityId >= |table|
    ensures EvaluatedShiftsInRange(table, entityId, ids, expected)
    decreases |ids|
  {
    if ids != [] {
      UnknownEntityInRange(table, entityId, ids[1..], expected);
    }
  }

  /**
   * An unknown entity has no component: it lacks every list, and it has a
   * list only when the list is empty.
   */
  lemma UnknownEntityLacksEverything(table: seq<bv64>, entityId: nat, ids: seq<nat>)
    requires entityId >= |table|
    ensures EvaluatedShiftsInRange(table, entityId, ids, false) && EntityLacksComponents(table, entityId, ids)
    ensures EvaluatedShiftsInRange(table, entityId, ids, true) && (EntityHasComponents(table, entityId, ids) <==> ids == [])
  {
    UnknownEntityInRange(table, entityId, ids, false);
    UnknownEntityInRange(table, entityId, ids, true);
  }

  /** An entity whose flags are zero, as a newly created one's are, lacks every component. */
  lemma ZeroFlagsLackEverything(table: seq<bv64>, entityId: nat, ids: seq<nat>)
    requires entityId < |table| && table[entityId] == 0
    requires forall k :: 0 <= k < |ids| ==> ids[k] < 64
    ensures EvaluatedShiftsInRange(table, entityId, ids, false) && EntityLacksComponents(table, entityId, ids)
  {
    SmallIdsInRange(table, entityId, ids, false);
  }

  /** For a non-empty list, having all and lacking all exclude each other. */
  lemma HasAndLacksExclusive(table: seq<bv64>, entityId: nat, ids: seq<nat>)
    requires ids != []
    requires EvaluatedShiftsInRange(table, entityId, ids, true) && EvaluatedShiftsInRange(table, entityId, ids, false)
    ensures !(EntityHasComponents(table, entityId, ids) && EntityLacksComponents(table, entityId, ids))
  {
  }

  /** `all` splits over concatenation: having `a + b` is having `a` and having `b`. */
  lemma HasComponentsConcat(table: seq<bv64>, entityId: nat, a: seq<nat>, b: seq<nat>)
    requires forall k :: 0 <= k < |a| ==> a[k] < 64
    requires forall k :: 0 <= k < |b| ==> b[k] < 64
    ensures EvaluatedShiftsInRange(table, entityId, a + b, true)
    ensures EvaluatedShiftsInRange(table, entityId, a, true) && EvaluatedShiftsInRange(table, entityId, b, true)
    ensures EntityHasComponents(table, entityId, a + b) <==>
      EntityHasComponents(table, entityId, a) && EntityHasComponents(table, entityId, b)
  {
    var ab := a + b;
    forall k | 0 <= k < |ab|
      ensures ab[k] < 64
    {
      if k >= |a| {
        assert ab[k] == b[k - |a|];
      }
    }
    SmallIdsInRange(table, entityId, ab, true);
    SmallIdsInRange(table, entityId, a, true);
    SmallIdsInRange(table, entityId, b, true);
    var present := set c | 0 <= c < 64 && entityId < |table| && BitSet(table[entityId], c);
    AllInConcat(a, b, present);
  }

  /** Every element of `a + b` is in `s` exactly when every element of `a` and of `b` is. */
  lemma AllInConcat(a: seq<nat>, b: seq<nat>, s: set<nat>)
    ensures (forall k :: 0 <= k < |a + b| ==> (a + b)[k] in s) <==>
      (forall k :: 0 <= k < |a| ==> a[k] in s) && (forall k :: 0 <= k < |b| ==> b[k] in s)
  {
    var ab := a + b;
    if forall k :: 0 <= k < |ab| ==> ab[k] in s {
      forall k | 0 <= k < |a|
        ensures a[k] in s
      {
        assert a[k] == ab[k];
      }
      forall k | 0 <= k < |b|
        ensures b[k] in s
      {
        assert b[k] == ab[|a| + k];
      }
    }
    if (forall k :: 0 <= k < |a| ==> a[k] in s) && (forall k :: 0 <= k < |b| ==> b[k] in s) {
      forall k | 0 <= k < |ab|
        ensures ab[k] in s
      {
        if k < |a| {
          assert ab[k] == a[k];
        } else {
          assert ab[k] == b[k - |a|];
        }
      }
    }
  }

  /**
   * Setting bit `c` in an entity's word makes it have component `c`, and no
   * other answer about any entity or component changes.
   */
  lemma SetFlagAddsOnlyThatComponent(table: seq<bv64>, entityId: nat, c: nat, e: nat, d: nat)
    requires entityId < |table| && c < 64 && d < 64
    ensures var table' := table[entityId := table[entityId] | ((1 as bv64) << c)];
      && EntityHasComponent(table', entityId, c)
      && ((e, d) != (entityId, c) ==> EntityHasComponent(table', e, d) == EntityHasComponent(table, e, d))
  {
    var w := table[entityId];
    var table' := table[entityId := w | ((1 as bv64) << c)];
    SetBitSetsIt(w, c);
    assert EntityHasComponent(table', entityId, c);
    if e == entityId && d != c {
      SetBitKeepsOtherBits(w, c, d);
    } else if e != entityId {
      assert e < |table'| ==> table'[e] == table[e];
    }
  }

  /** Or-ing in bit `c` sets it. */
  lemma SetBitSetsIt(w: bv64, c: nat)
    requires c < 64
    ensures BitSet(w | ((1 as bv64) << c), c)
  {
    var cb := c as bv8;
    assert (1 as bv64) << c == (1 as bv64) << cb;
  }

  /** Or-ing in bit `c` leaves every other bit as it was. */
  lemma SetBitKeepsOtherBits(w: bv64, c: nat, d: nat)
    requires c < 64 && d < 64 && c != d
    ensures BitSet(w | ((1 as bv64) << c), d) == BitSet(w, d)
  {
    var cb, db := c as bv8, d as bv8;
    assert (1 as bv64) << c == (1 as bv64) << cb;
    assert (1 as bv64) << d == (1 as bv64) << db;
  }
}
