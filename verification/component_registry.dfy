/**
 * `ComponentRegistry`: hands out `ComponentFlagId`s (a flag set and a bit in
 * it) in order and remembers them per type. The flag word is `bits` wide,
 * the size of the registry's word type in bits.
 */
module ComponentRegistries {
  import opened Wrappers
  import ComponentFlags

  datatype ComponentFlagId = ComponentFlagId(setIndex: nat, flagIndex: nat)

  /** Strict lexicographic order on (set index, flag index). */
  predicate Precedes(a: ComponentFlagId, b: ComponentFlagId)
  {
    a.setIndex < b.setIndex || (a.setIndex == b.setIndex && a.flagIndex < b.flagIndex)
  }

  /**
   * The counter step of `get_next_registration`: the next flag index in the
   * same set while the index is below `bits`, else flag 0 of the next set.
   * It is the least id after `id` whose flag index does not exceed `bits`.
   */
  function Successor(id: ComponentFlagId, bits: nat): (r: ComponentFlagId)
    ensures Precedes(id, r) && r.flagIndex <= bits
    ensures forall x :: Precedes(id, x) && x.flagIndex <= bits ==> x == r || Precedes(r, x)
  {
    if id.flagIndex < bits then id.(flagIndex := id.flagIndex + 1)
    else ComponentFlagId(id.setIndex + 1, 0)
  }

  /** The first `n` ids handed out from a counter at `start`. */
  function Registrations(start: ComponentFlagId, bits: nat, n: nat): (r: seq<ComponentFlagId>)
    ensures |r| == n
    ensures n > 0 ==> r[0] == start
    decreases n
  {
    if n == 0 then [] else [start] + Registrations(Successor(start, bits), bits, n - 1)
  }

  /** Successive registrations strictly increase. */
  lemma {:induction false} RegistrationsIncrease(start: ComponentFlagId, bits: nat, n: nat)
    ensures forall i, j :: 0 <= i < j < n ==> Precedes(Registrations(start, bits, n)[i], Registrations(start, bits, n)[j])
    decreases n
  {
    if n > 0 {
      var next := Successor(start, bits);
      RegistrationsIncrease(next, bits, n - 1);
      RegistrationsFrom(next, bits, n - 1);
      var r := Registrations(start, bits, n);
      assert r == [start] + Registrations(next, bits, n - 1);
      forall i, j | 0 <= i < j < n
        ensures Precedes(r[i], r[j])
      {
        if i > 0 {
          assert r[i] == Registrations(next, bits, n - 1)[i - 1];
        }
        assert r[j] == Registrations(next, bits, n - 1)[j - 1];
      }
    }
  }

  /** Every registration from `start` on is `start` itself or after it. */
  lemma {:induction false} RegistrationsFrom(start: ComponentFlagId, bits: nat, n: nat)
    ensures forall k :: 0 <= k < n ==> Registrations(start, bits, n)[k] == start || Precedes(start, Registrations(start, bits, n)[k])
    decreases n
  {
    if n > 0 {
      var next := Successor(start, bits);
      RegistrationsFrom(next, bits, n - 1);
      var r := Registrations(start, bits, n);
      forall k | 0 < k < n
        ensures Precedes(start, r[k])
      {
        assert r[k] == Registrations(next, bits, n - 1)[k - 1];
      }
    }
  }

  /**
   * A set holds `bits + 1` flags: from flag 0 of set `s`, the first
   * `bits + 1` registrations are flags 0 to `bits` of `s`, and the one after
   * them is flag 0 of set `s + 1`.
   */
  lemma SetRollsOverAfterBitsPlusOne(s: nat, bits: nat)
    ensures forall k :: 0 <= k <= bits ==> Registrations(ComponentFlagId(s, 0), bits, bits + 2)[k] == ComponentFlagId(s, k)
    ensures Registrations(ComponentFlagId(s, 0), bits, bits + 2)[bits + 1] == ComponentFlagId(s + 1, 0)
  {
    SetTail(s, bits, 0);
    var r := Registrations(ComponentFlagId(s, 0), bits, bits + 2);
    forall k | 0 <= k <= bits
      ensures r[k] == ComponentFlagId(s, k)
    {
      assert r[k] == FlagRun(s, 0, bits + 1)[k];
    }
  }

  /** Flags `from` to `from + count - 1` of set `s`, in order. */
  function FlagRun(s: nat, from: nat, count: nat): (r: seq<ComponentFlagId>)
    ensures |r| == count
    ensures forall k :: 0 <= k < count ==> r[k] == ComponentFlagId(s, from + k)
  {
    seq(count, k requires 0 <= k < count => ComponentFlagId(s, from + k))
  }

  /** From flag `f` of set `s`, the run to the end of the set and the rollover. */
  lemma {:induction false} SetTail(s: nat, bits: nat, f: nat)
    requires f <= bits
    ensures Registrations(ComponentFlagId(s, f), bits, bits - f + 2)
      == FlagRun(s, f, bits - f + 1) + [ComponentFlagId(s + 1, 0)]
    decreases bits - f
  {
    var start := ComponentFlagId(s, f);
    var r := Registrations(start, bits, bits - f + 2);
    var tail := Registrations(Successor(start, bits), bits, bits - f + 1);
    assert r == [start] + tail;
    if f == bits {
      assert Successor(start, bits) == ComponentFlagId(s + 1, 0);
    } else {
      assert Successor(start, bits) == ComponentFlagId(s, f + 1);
      SetTail(s, bits, f + 1);
      assert tail == FlagRun(s, f + 1, bits - f) + [ComponentFlagId(s + 1, 0)];
    }
  }

  /**
   * As written, the counter hands out flag index `bits` itself: with a 64-bit
   * word, the 65th registration of a set is flag 64, and no flag query about
   * a known entity can shift by 64.
   */
  lemma LastFlagOfSetIsNotQueryable(s: nat, table: seq<bv64>, entityId: nat)
    requires entityId < |table|
    ensures Registrations(ComponentFlagId(s, 0), 64, 65)[64] == ComponentFlagId(s, 64)
    ensures !ComponentFlags.ShiftInRange(table, entityId, Registrations(ComponentFlagId(s, 0), 64, 65)[64].flagIndex)
  {
    SetTail(s, 64, 0);
    assert Registrations(ComponentFlagId(s, 0), 64, 66)[64] == FlagRun(s, 0, 65)[64];
    RegistrationsPrefix(ComponentFlagId(s, 0), 64, 65, 66);
  }

  /** Fewer registrations are a prefix of more. */
  lemma {:induction false} RegistrationsPrefix(start: ComponentFlagId, bits: nat, m: nat, n: nat)
    requires m <= n
    ensures Registrations(start, bits, m) == Registrations(start, bits, n)[..m]
    decreases m
  {
    if m > 0 {
      RegistrationsPrefix(Successor(start, bits), bits, m - 1, n - 1);
    }
  }

  /**
   * The counter step as evidently intended: flag indices stay below `bits`,
   * so every flag names a bit of the word. It is the least id after `id`
   * whose flag index is below `bits`.
   */
  function CorrectedSuccessor(id: ComponentFlagId, bits: nat): (r: ComponentFlagId)
    ensures Precedes(id, r)
    ensures bits >= 1 ==> r.flagIndex < bits
    ensures bits >= 1 ==> forall x :: Precedes(id, x) && x.flagIndex < bits ==> x == r || Precedes(r, x)
  {
    if id.flagIndex + 1 < bits then id.(flagIndex := id.flagIndex + 1)
    else ComponentFlagId(id.setIndex + 1, 0)
  }

  /** The first `n` ids handed out by the corrected counter from `start`. */
  function CorrectedRegistrations(start: ComponentFlagId, bits: nat, n: nat): (r: seq<ComponentFlagId>)
    ensures |r| == n
    ensures n > 0 ==> r[0] == start
    decreases n
  {
    if n == 0 then [] else [start] + CorrectedRegistrations(CorrectedSuccessor(start, bits), bits, n - 1)
  }

  /** The corrected counter over `bits` is the written one over `bits - 1`. */
  lemma {:induction false} CorrectedIsWrittenOneLess(start: ComponentFlagId, bits: nat, n: nat)
    requires bits >= 1
    ensures CorrectedRegistrations(start, bits, n) == Registrations(start, bits - 1, n)
    decreases n
  {
    if n > 0 {
      assert CorrectedSuccessor(start, bits) == Successor(start, bits - 1);
      CorrectedIsWrittenOneLess(CorrectedSuccessor(start, bits), bits, n - 1);
    }
  }

  /**
   * Corrected, a set holds exactly `bits` flags: from flag 0 of set `s`, the
   * first `bits` registrations are flags 0 to `bits - 1` of `s`, and the
   * next is flag 0 of set `s + 1`.
   */
  lemma CorrectedSetRollsOverAfterBits(s: nat, bits: nat)
    requires bits >= 1
    ensures forall k :: 0 <= k < bits ==> CorrectedRegistrations(ComponentFlagId(s, 0), bits, bits + 1)[k] == ComponentFlagId(s, k)
    ensures CorrectedRegistrations(ComponentFlagId(s, 0), bits, bits + 1)[bits] == ComponentFlagId(s + 1, 0)
  {
    CorrectedIsWrittenOneLess(ComponentFlagId(s, 0), bits, bits + 1);
    SetRollsOverAfterBitsPlusOne(s, bits - 1);
  }

  /**
   * Corrected, every flag the counter hands out from a valid start can be
   * queried: with a 64-bit word no shift overflows.
   */
  lemma {:induction false} CorrectedFlagsAreQueryable(start: ComponentFlagId, n: nat, table: seq<bv64>, entityId: nat)
    requires start.flagIndex < 64
    ensures forall k :: 0 <= k < n ==> ComponentFlags.ShiftInRange(table, entityId, CorrectedRegistrations(start, 64, n)[k].flagIndex)
    decreases n
  {
    if n > 0 {
      var next := CorrectedSuccessor(start, 64);
      CorrectedFlagsAreQueryable(next, n - 1, table, entityId);
      var r := CorrectedRegistrations(start, 64, n);
      forall k | 0 < k < n
        ensures r[k] == CorrectedRegistrations(next, 64, n - 1)[k - 1]
      {
      }
    }
  }

  /**
   * The registry. `typeId` stands for `TypeId::of::<T>()` of the registry's
   * word type `T`, and `bits` for `size_of::<T>() * 8`.
   */
  class ComponentRegistry<K(==)> {
    var componentToIdMap: map<K, ComponentFlagId>
    var nextRegistration: ComponentFlagId
    const typeId: K
    const bits: nat

    /** The struct has no constructor of its own; this stands for its literal. */
    constructor (typeId: K, bits: nat, componentToIdMap: map<K, ComponentFlagId>, nextRegistration: ComponentFlagId)
      ensures this.typeId == typeId && this.bits == bits
      ensures this.componentToIdMap == componentToIdMap
      ensures this.nextRegistration == nextRegistration
    {
      this.typeId := typeId;
      this.bits := bits;
      this.componentToIdMap := componentToIdMap;
      this.nextRegistration := nextRegistration;
    }

    /** The id stored under `key`, if any. */
    function Lookup(key: K): (r: Option<ComponentFlagId>)
      reads this
      ensures r.Some? <==> key in componentToIdMap
      ensures r.Some? ==> componentToIdMap[key] == r.value
    {
      if key in componentToIdMap then Some(componentToIdMap[key]) else None
    }

    /** `get_component_flag_id`, as written: the id stored under the registry's own type. */
    function GetComponentFlagId(): (r: Option<ComponentFlagId>)
      reads this
      ensures r.Some? <==> typeId in componentToIdMap
      ensures r.Some? ==> componentToIdMap[typeId] == r.value
    {
      Lookup(typeId)
    }

    /**
     * `get_next_registration`: returns the counter as it was and advances it
     * one step; nothing else changes.
     */
    method GetNextRegistration() returns (reg: ComponentFlagId)
      modifies this
      ensures reg == old(nextRegistration)
      ensures nextRegistration == Successor(reg, bits)
      ensures Precedes(reg, nextRegistration)
      ensures componentToIdMap == old(componentToIdMap)
    {
      reg := nextRegistration;
      if nextRegistration.flagIndex < bits {
        nextRegistration := nextRegistration.(flagIndex := nextRegistration.flagIndex + 1);
      } else {
        nextRegistration := ComponentFlagId(nextRegistration.setIndex + 1, 0);
      }
    }

    /**
     * `get_next_registration` as evidently intended: the counter advances by
     * the corrected step, so it never hands out flag index `bits`.
     */
    method GetNextRegistrationInWord() returns (reg: ComponentFlagId)
      modifies this
      ensures reg == old(nextRegistration)
      ensures nextRegistration == CorrectedSuccessor(reg, bits)
      ensures componentToIdMap == old(componentToIdMap)
    {
      reg := nextRegistration;
      if nextRegistration.flagIndex + 1 < bits {
        nextRegistration := nextRegistration.(flagIndex := nextRegistration.flagIndex + 1);
      } else {
        nextRegistration := ComponentFlagId(nextRegistration.setIndex + 1, 0);
      }
    }

    /**
     * `register_component`, as written: advances the counter once and stores
     * the handed-out id under the registry's own type, whatever component is
     * being registered; returns the entry that key held before.
     */
    method RegisterComponent() returns (r: Option<ComponentFlagId>)
      modifies this
      ensures r == old(Lookup(typeId))
      ensures nextRegistration == Successor(old(nextRegistration), bits)
      ensures componentToIdMap == old(componentToIdMap)[typeId := old(nextRegistration)]
    {
      var nextReg := GetNextRegistration();
      r := Lookup(typeId);
      componentToIdMap := componentToIdMap[typeId := nextReg];
    }

    /**
     * `register_component` as evidently intended: the id is stored under the
     * component's own type `componentType`, and the counter advances by the
     * corrected step.
     */
    method RegisterComponentOf(componentType: K) returns (r: Option<ComponentFlagId>)
      modifies this
      ensures r == old(Lookup(componentType))
      ensures nextRegistration == CorrectedSuccessor(old(nextRegistration), bits)
      ensures componentToIdMap == old(componentToIdMap)[componentType := old(nextRegistration)]
    {
      var nextReg := GetNextRegistrationInWord();
      r := Lookup(componentType);
      componentToIdMap := componentToIdMap[componentType := nextReg];
    }
  }

  /**
   * As written, registering two components stores both under one key: the
   * second registration reports the first one's id as the previous entry,
   * and only the second id can be looked up afterwards.
   */
  method RegisteringTwoComponentsCollides<K(==)>(registry: ComponentRegistry<K>)
    returns (first: Option<ComponentFlagId>, second: Option<ComponentFlagId>, found: Option<ComponentFlagId>)
    modifies registry
    ensures second == Some(old(registry.nextRegistration))
    ensures found == Some(Successor(old(registry.nextRegistration), registry.bits))
    ensures found != second
  {
    first := registry.RegisterComponent();
    second := registry.RegisterComponent();
    found := registry.GetComponentFlagId();
  }

  /**
   * Keyed by the component's own type, two distinct unregistered components
   * each register fresh and keep distinct, increasing ids.
   */
  method RegisteringTwoComponentsOfKeepsBoth<K(==)>(registry: ComponentRegistry<K>, a: K, b: K)
    returns (first: Option<ComponentFlagId>, second: Option<ComponentFlagId>)
    requires a != b && a !in registry.componentToIdMap && b !in registry.componentToIdMap
    modifies registry
    ensures first == None && second == None
    ensures registry.Lookup(a) == Some(old(registry.nextRegistration))
    ensures registry.Lookup(b) == Some(CorrectedSuccessor(old(registry.nextRegistration), registry.bits))
    ensures Precedes(registry.Lookup(a).value, registry.Lookup(b).value)
  {
    first := registry.RegisterComponentOf(a);
    second := registry.RegisterComponentOf(b);
  }
}
