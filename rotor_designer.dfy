/**
 * The turbine rotor-blade designer of `overhauled/turbine_rotor_blade/designer.py`: id lists become blade
 * sequences, and the caller's per-name limits become per-id max-appearance constraints.
 */
module RotorDesigner {
  import opened Wrappers

  /** A rotor blade: the designer reads its name, its efficiency and its expansion. */
  datatype RotorBlade = RotorBlade(name: string, efficiency: real, expansion: real)

  /** Every id picks a blade type or is negative (an empty slot). */
  predicate IdsInRange(types: seq<RotorBlade>, ids: seq<int>) {
    forall i :: 0 <= i < |ids| ==> ids[i] < |types|
  }

  /** `ids_to_blades`: the id `i` becomes the `i`-th blade type and a negative id an empty slot. */
  function IdsToBlades(types: seq<RotorBlade>, ids: seq<int>): (blades: seq<Option<RotorBlade>>)
    requires IdsInRange(types, ids)
    ensures |blades| == |ids|
    ensures forall i :: 0 <= i < |ids| ==> (blades[i].None? <==> ids[i] < 0)
    ensures forall i :: 0 <= i < |ids| && ids[i] >= 0 ==> blades[i] == Some(types[ids[i]])
  {
    seq(|ids|, i requires 0 <= i < |ids| => if ids[i] >= 0 then Some(types[ids[i]]) else None)
  }

  /**
   * With pairwise different blade types, two id lists give the same blades exactly when they agree on every
   * position up to the choice of negative id.
   */
  lemma IdsToBladesInjective(types: seq<RotorBlade>, a: seq<int>, b: seq<int>)
    requires forall i, j :: 0 <= i < j < |types| ==> types[i] != types[j]
    requires IdsInRange(types, a) && IdsInRange(types, b)
    ensures IdsToBlades(types, a) == IdsToBlades(types, b) <==>
      |a| == |b| && forall i :: 0 <= i < |a| ==> a[i] == b[i] || (a[i] < 0 && b[i] < 0)
  {
    var ba, bb := IdsToBlades(types, a), IdsToBlades(types, b);
    if ba == bb {
      forall i | 0 <= i < |a|
        ensures a[i] == b[i] || (a[i] < 0 && b[i] < 0)
      {
        assert ba[i] == bb[i];
        if a[i] >= 0 && b[i] >= 0 {
          assert types[a[i]] == types[b[i]];
        }
      }
    }
    if |a| == |b| && forall i :: 0 <= i < |a| ==> a[i] == b[i] || (a[i] < 0 && b[i] < 0) {
      assert ba == bb;
    }
  }

  /** The limit the caller gives for a type's name, -1 (no limit) when the name is not mentioned. */
  function LimitFor(limits: map<string, int>, name: string): int {
    if name in limits then limits[name] else -1
  }

  /**
   * The translation of `type_limits` at the start of `design_generator`: a list with one -1 per blade type,
   * then, for each named limit, every index whose type carries that name receives the limit. Names that match
   * no type are ignored. Dictionary order does not matter, as the keys are distinct.
   */
  method TypeLimits(types: seq<RotorBlade>, limits: map<string, int>) returns (r: seq<int>)
    ensures |r| == |types|
    ensures forall i :: 0 <= i < |types| ==> r[i] == LimitFor(limits, types[i].name)
  {
    var a := new int[|types|](_ => -1);
    var remaining := limits.Keys;
    while remaining != {}
      invariant remaining <= limits.Keys
      invariant forall j :: 0 <= j < a.Length ==>
        a[j] == if types[j].name in limits.Keys - remaining then limits[types[j].name] else -1
      decreases |remaining|
    {
      var name :| name in remaining;
      for i := 0 to |types|
        invariant forall j :: 0 <= j < a.Length ==>
          a[j] == if types[j].name in limits.Keys - remaining || (j < i && types[j].name == name)
                  then limits[types[j].name] else -1
      {
        if name == types[i].name {
          a[i] := limits[name];
        }
      }
      remaining := remaining - {name};
    }
    return a[..];
  }

  /**
   * The arguments of one `optimizer.max_appearances_constraint(id, limit)` call; the optimizer module that
   * interprets them is not part of this model.
   */
  datatype MaxAppearances = MaxAppearances(id: int, limit: int)

  /** The constraints built from the translated limits from index `k` on. */
  function MaxAppearancesFrom(typeLimits: seq<int>, k: nat): (cs: seq<MaxAppearances>)
    requires k <= |typeLimits|
    ensures forall c :: c in cs <==> k <= c.id < |typeLimits| && c.limit == typeLimits[c.id] && c.limit >= 0
    ensures forall p, q :: 0 <= p < q < |cs| ==> cs[p].id < cs[q].id
    decreases |typeLimits| - k
  {
    if k == |typeLimits| then []
    else
      var rest := MaxAppearancesFrom(typeLimits, k + 1);
      if typeLimits[k] >= 0 then [MaxAppearances(k, typeLimits[k])] + rest else rest
  }

  /**
   * The comprehension over `enumerate(type_limits_)`: one constraint `(i, limit)` for each non-negative limit,
   * in index order; a negative limit (including the -1 of an unmentioned type) gives none.
   */
  function MaxAppearancesConstraints(typeLimits: seq<int>): (cs: seq<MaxAppearances>)
    ensures forall c :: c in cs <==> 0 <= c.id < |typeLimits| && c.limit == typeLimits[c.id] && c.limit >= 0
    ensures forall p, q :: 0 <= p < q < |cs| ==> cs[p].id < cs[q].id
  {
    MaxAppearancesFrom(typeLimits, 0)
  }

  /**
   * Together: a type gets exactly one constraint when the caller names it with a non-negative limit, and that
   * constraint carries the caller's limit; a type the caller does not name, or names with a negative limit, gets
   * none.
   */
  lemma ConstraintsFromLimits(types: seq<RotorBlade>, limits: map<string, int>, typeLimits: seq<int>, i: int)
    requires |typeLimits| == |types|
    requires forall j :: 0 <= j < |types| ==> typeLimits[j] == LimitFor(limits, types[j].name)
    requires 0 <= i < |types|
    ensures var cs := MaxAppearancesConstraints(typeLimits);
      (exists c :: c in cs && c.id == i) <==> types[i].name in limits && limits[types[i].name] >= 0
    ensures var cs := MaxAppearancesConstraints(typeLimits);
      forall p :: 0 <= p < |cs| && cs[p].id == i ==> cs[p].limit == limits[types[i].name]
    ensures var cs := MaxAppearancesConstraints(typeLimits);
      forall p, q :: 0 <= p < |cs| && 0 <= q < |cs| && cs[p].id == i && cs[q].id == i ==> p == q
  {
    var cs := MaxAppearancesConstraints(typeLimits);
    if types[i].name in limits && limits[types[i].name] >= 0 {
      assert MaxAppearances(i, typeLimits[i]) in cs;
    }
  }
}
