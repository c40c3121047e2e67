/** The turbine dynamo-coil catalogue of `overhauled/turbine_dynamo_coil/data_structures.py`. */
module DynamoCoils {
  import opened Wrappers
  import opened UtilsPlacementRule

  /** A coil: its name, its conductivity (negative for the structural parts) and its placement rule. */
  datatype DynamoCoil = DynamoCoil(name: string, conductivity: real, placementRule: Rule)

  /** `SimplePlacementRule(name, 1)`: at least one neighbour called `name`, neither exact nor axial. */
  function AtLeastOne(name: string): Rule {
    Simple(name, 1, false, false)
  }

  const Casing := DynamoCoil("casing", -1.0, Base)
  const Bearing := DynamoCoil("bearing", -1.0, Base)
  const Connector := DynamoCoil("connector", -1.0, Compound([
    AtLeastOne("magnesium"),
    AtLeastOne("beryllium"),
    AtLeastOne("aluminum"),
    AtLeastOne("gold"),
    AtLeastOne("copper"),
    AtLeastOne("silver")
  ], Or))
  const Magnesium := DynamoCoil("magnesium", 0.88, Compound([AtLeastOne("bearing"), AtLeastOne("connector")], Or))
  const Beryllium := DynamoCoil("beryllium", 0.9, AtLeastOne("magnesium"))
  const Aluminum := DynamoCoil("aluminum", 1.0, Simple("magnesium", 2, false, false))
  const Gold := DynamoCoil("gold", 1.04, AtLeastOne("aluminum"))
  const Copper := DynamoCoil("copper", 1.06, AtLeastOne("beryllium"))
  const Silver := DynamoCoil("silver", 1.12, Compound([AtLeastOne("gold"), AtLeastOne("copper")], And))

  /** `DYNAMO_COIL_TYPES`: the catalogue in id order. */
  const DynamoCoilTypes: seq<DynamoCoil> :=
    [Casing, Bearing, Connector, Magnesium, Beryllium, Aluminum, Gold, Copper, Silver]

  /** The six metals, in catalogue order. */
  const Metals: seq<string> := ["magnesium", "beryllium", "aluminum", "gold", "copper", "silver"]

  /** The rule demands neither an exact count nor an axial pair anywhere in it. */
  predicate NoExactOrAxial(rule: Rule)
    decreases rule
  {
    match rule
    case Base => true
    case Simple(_, _, exact, axial) => !exact && !axial
    case Compound(rules, _) => forall i :: 0 <= i < |rules| ==> NoExactOrAxial(rules[i])
  }

  /**
   * Nine coils: casing at 0, bearing at 1, connector at 2, then the six metals; names are distinct; the three
   * structural parts conduct negatively and the metals positively; no rule is exact or axial.
   */
  lemma CatalogueShape()
    ensures |DynamoCoilTypes| == 9
    ensures DynamoCoilTypes[0].name == "casing" && DynamoCoilTypes[1].name == "bearing"
    ensures DynamoCoilTypes[2].name == "connector"
    ensures forall i :: 0 <= i < 6 ==> DynamoCoilTypes[3 + i].name == Metals[i]
    ensures forall i, j :: 0 <= i < j < 9 ==> DynamoCoilTypes[i].name != DynamoCoilTypes[j].name
    ensures forall i :: 0 <= i < 3 ==> DynamoCoilTypes[i].conductivity < 0.0
    ensures forall i :: 3 <= i < 9 ==> DynamoCoilTypes[i].conductivity > 0.0
    ensures forall i :: 0 <= i < 9 ==> NoExactOrAxial(DynamoCoilTypes[i].placementRule)
  {
    assert NoExactOrAxial(Connector.placementRule);
    assert NoExactOrAxial(Magnesium.placementRule);
    assert NoExactOrAxial(Silver.placementRule);
  }

  /** At least `k` neighbours are called `name`. */
  predicate Has(nb: Neighbours, name: string, k: nat) {
    Quantity(nb, name) >= k
  }

  /** Some neighbour is reported as "incomplete", which every simple rule lets pass. */
  predicate Unfinished(nb: Neighbours) {
    Some("incomplete") in Components(nb)
  }

  /** Casing and bearing can go anywhere. */
  lemma StructuralAlwaysPlaceable(nb: Neighbours)
    ensures Holds(Casing.placementRule, nb) && Holds(Bearing.placementRule, nb)
  {
  }

  /** A connector needs at least one metal neighbour (or an unfinished neighbourhood). */
  lemma ConnectorRule(nb: Neighbours)
    ensures Holds(Connector.placementRule, nb) <==>
      Unfinished(nb) || exists i :: 0 <= i < |Metals| && Has(nb, Metals[i], 1)
  {
    var rules := Connector.placementRule.rules;
    forall j | 0 <= j < |rules|
      ensures Holds(rules[j], nb) <==> Unfinished(nb) || Has(nb, Metals[j], 1)
    {
      assert rules[j] == AtLeastOne(Metals[j]);
    }
    if Unfinished(nb) {
      assert Holds(rules[0], nb);
    }
    if exists i :: 0 <= i < |Metals| && Has(nb, Metals[i], 1) {
      var i :| 0 <= i < |Metals| && Has(nb, Metals[i], 1);
      assert Holds(rules[i], nb);
    }
    if Holds(Connector.placementRule, nb) && !Unfinished(nb) {
      var i :| 0 <= i < |rules| && Holds(rules[i], nb);
      assert Has(nb, Metals[i], 1);
    }
  }

  /**
   * The metals' rules: magnesium next to a bearing or a connector; beryllium next to magnesium; aluminum next
   * to two magnesium; gold next to aluminum; copper next to beryllium; silver next to both gold and copper; each
   * also passes while its neighbourhood is unfinished.
   */
  lemma MetalRules(nb: Neighbours)
    ensures Holds(Magnesium.placementRule, nb) <==>
      Unfinished(nb) || Has(nb, "bearing", 1) || Has(nb, "connector", 1)
    ensures Holds(Beryllium.placementRule, nb) <==> Unfinished(nb) || Has(nb, "magnesium", 1)
    ensures Holds(Aluminum.placementRule, nb) <==> Unfinished(nb) || Has(nb, "magnesium", 2)
    ensures Holds(Gold.placementRule, nb) <==> Unfinished(nb) || Has(nb, "aluminum", 1)
    ensures Holds(Copper.placementRule, nb) <==> Unfinished(nb) || Has(nb, "beryllium", 1)
    ensures Holds(Silver.placementRule, nb) <==>
      Unfinished(nb) || (Has(nb, "gold", 1) && Has(nb, "copper", 1))
  {
    var mg := Magnesium.placementRule.rules;
    if Holds(Magnesium.placementRule, nb) {
      var i :| 0 <= i < |mg| && Holds(mg[i], nb);
    }
    assert Has(nb, "bearing", 1) ==> Holds(mg[0], nb);
    assert Has(nb, "connector", 1) ==> Holds(mg[1], nb);
    var ag := Silver.placementRule.rules;
    assert Holds(Silver.placementRule, nb) <==> Holds(ag[0], nb) && Holds(ag[1], nb);
  }
}
