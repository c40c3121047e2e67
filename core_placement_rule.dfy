/**
 * Placement rules of `core/placement_rule.py`: a rule is judged against the names of a cell's
 * neighbours, given as a tuple ordered `(+x, -x, +y, -y, +z, -z)`.
 */
module CorePlacementRule {
  import opened Counting

  datatype LogicMode = And | Or

  /** The rule classes: the base rule, a count of one named neighbour, and an AND/OR of sub-rules. */
  datatype Rule =
    | Base
    | Simple(name: string, quantity: int, exact: bool, axial: bool)
    | Compound(rules: seq<Rule>, mode: LogicMode)

  /** The number of neighbours called `name`. */
  function Quantity(names: seq<string>, name: string): nat {
    Count(names, name)
  }

  /** Opposite neighbours `2i` and `2i + 1` are both called `name`. */
  predicate AxialAt(names: seq<string>, name: string, i: int) {
    0 <= i < |names| / 2 && names[2 * i] == name && names[2 * i + 1] == name
  }

  /** Some opposite pair of neighbours is called `name`. */
  predicate HasAxialPair(names: seq<string>, name: string) {
    exists i :: 0 <= i < |names| / 2 && AxialAt(names, name, i)
  }

  /** What a simple rule demands: an unfinished neighbourhood passes; otherwise the count test and, if asked, an axial pair. */
  predicate SimpleHolds(name: string, quantity: int, exact: bool, axial: bool, names: seq<string>) {
    "incomplete" in names
    || ((if exact then Quantity(names, name) == quantity else Quantity(names, name) >= quantity)
        && (!axial || HasAxialPair(names, name)))
  }

  /** Whether `rule` accepts the neighbour names: the base rule always, AND every sub-rule, OR some sub-rule. */
  predicate Holds(rule: Rule, names: seq<string>)
    decreases rule
  {
    match rule
    case Base => true
    case Simple(name, quantity, exact, axial) => SimpleHolds(name, quantity, exact, axial, names)
    case Compound(rules, mode) =>
      if mode == And then forall i :: 0 <= i < |rules| ==> Holds(rules[i], names)
      else exists i :: 0 <= i < |rules| && Holds(rules[i], names)
  }

  /** `SimplePlacementRule.__call__`: a counting loop and a search for an axial pair. */
  method CallSimple(name: string, quantity: int, exact: bool, axial: bool, compNames: seq<string>)
    returns (ok: bool)
    ensures ok <==> "incomplete" in compNames
                    || ((if exact then Quantity(compNames, name) == quantity
                         else Quantity(compNames, name) >= quantity)
                        && (!axial || HasAxialPair(compNames, name)))
  {
    if "incomplete" in compNames {
      return true;
    }

    var count := 0;
    for i := 0 to |compNames|
      invariant count == Count(compNames[..i], name)
    {
      assert compNames[..i + 1][..i] == compNames[..i];
      if compNames[i] == name {
        count := count + 1;
      }
    }
    assert compNames[..|compNames|] == compNames;

    var axialFound := false;
    var i := 0;
    while i < |compNames| / 2
      invariant 0 <= i <= |compNames| / 2
      invariant forall j :: 0 <= j < i ==> !AxialAt(compNames, name, j)
    {
      if compNames[i * 2] == compNames[i * 2 + 1] == name {
        axialFound := true;
        break;
      }
      i := i + 1;
    }
    assert axialFound ==> AxialAt(compNames, name, i);
    assert !axialFound ==> forall j :: !AxialAt(compNames, name, j);

    if exact {
      if count != quantity {
        return false;
      }
    } else {
      if count < quantity {
        return false;
      }
    }
    if axial && !axialFound {
      return false;
    }
    return true;
  }

  /** `__call__` of any rule: compound rules scan their sub-rules and stop at the first that decides. */
  method Call(rule: Rule, compNames: seq<string>) returns (ok: bool)
    ensures ok == Holds(rule, compNames)
    decreases rule
  {
    match rule
    case Base =>
      return true;
    case Simple(name, quantity, exact, axial) =>
      ok := CallSimple(name, quantity, exact, axial, compNames);
    case Compound(rules, mode) =>
      if mode == And {
        for i := 0 to |rules|
          invariant forall j :: 0 <= j < i ==> Holds(rules[j], compNames)
        {
          var sub := Call(rules[i], compNames);
          if !sub {
            return false;
          }
        }
        return true;
      } else {
        for i := 0 to |rules|
          invariant forall j :: 0 <= j < i ==> !Holds(rules[j], compNames)
        {
          var sub := Call(rules[i], compNames);
          if sub {
            return true;
          }
        }
        return false;
      }
  }

  /** An unpaired trailing neighbour never makes an axial pair. */
  lemma UnpairedTrailingIgnored(names: seq<string>, name: string)
    requires |names| % 2 == 1
    ensures HasAxialPair(names, name) == HasAxialPair(names[..|names| - 1], name)
  {
    var short := names[..|names| - 1];
    var half := |names| / 2;
    assert |names| == 2 * half + 1;
    assert |short| / 2 == half;
    if HasAxialPair(names, name) {
      var i :| 0 <= i < |names| / 2 && AxialAt(names, name, i);
      assert 0 <= i < |short| / 2;
      assert short[2 * i] == names[2 * i] && short[2 * i + 1] == names[2 * i + 1];
      assert AxialAt(short, name, i);
    }
    if HasAxialPair(short, name) {
      var i :| 0 <= i < |short| / 2 && AxialAt(short, name, i);
      assert AxialAt(names, name, i);
    }
  }

  /** `b` keeps every neighbour name of `a` except those `a` reports as "incomplete". */
  predicate CompletesNames(a: seq<string>, b: seq<string>) {
    |a| == |b| && forall i :: 0 <= i < |a| && a[i] != "incomplete" ==> b[i] == a[i]
  }

  /**
   * Filling in unfinished neighbours never makes a rejecting rule accept: a simple rule rejects only when no
   * neighbour is unfinished, and AND/OR pass rejection up from their sub-rules.
   */
  lemma {:induction false} RejectionKept(rule: Rule, a: seq<string>, b: seq<string>)
    requires CompletesNames(a, b) && !Holds(rule, a)
    ensures !Holds(rule, b)
    decreases rule
  {
    match rule
    case Simple(_, _, _, _) =>
      assert a == b;
    case Compound(rules, mode) =>
      if mode == And {
        var i :| 0 <= i < |rules| && !Holds(rules[i], a);
        RejectionKept(rules[i], a, b);
      } else {
        forall i | 0 <= i < |rules|
          ensures !Holds(rules[i], b)
        {
          RejectionKept(rules[i], a, b);
        }
      }
  }
}
