/**
 * Placement rules of `utils/placement_rule.py`: the same rules as the core module, judged against six
 * named neighbours. `front` and `back` default to Python's `None`, which is `None` here.
 */
module UtilsPlacementRule {
  import opened Wrappers
  import opened Counting

  datatype LogicMode = And | Or

  datatype Rule =
    | Base
    | Simple(name: string, quantity: int, exact: bool, axial: bool)
    | Compound(rules: seq<Rule>, mode: LogicMode)

  /** The neighbours of a cell; a 2D caller leaves `front` and `back` as `None`. */
  datatype Neighbours = Neighbours(
    up: string, right: string, down: string, left: string,
    front: Option<string>, back: Option<string>)

  /** The tuple `(up, right, down, left, front, back)` that the simple rule scans. */
  function Components(nb: Neighbours): (cs: seq<Option<string>>)
    ensures |cs| == 6
  {
    [Some(nb.up), Some(nb.right), Some(nb.down), Some(nb.left), nb.front, nb.back]
  }

  /** The number of the six neighbours called `name`. */
  function Quantity(nb: Neighbours, name: string): nat {
    Count(Components(nb), Some(name))
  }

  /** Some opposite pair (up/down, right/left, front/back) is called `name`. */
  predicate Axial(nb: Neighbours, name: string) {
    (nb.up == name && nb.down == name)
    || (nb.right == name && nb.left == name)
    || (nb.front == Some(name) && nb.back == Some(name))
  }

  /** What a simple rule demands. */
  predicate SimpleHolds(name: string, quantity: int, exact: bool, axial: bool, nb: Neighbours) {
    Some("incomplete") in Components(nb)
    || ((if exact then Quantity(nb, name) == quantity else Quantity(nb, name) >= quantity)
        && (!axial || Axial(nb, name)))
  }

  /** Whether `rule` accepts the neighbours. */
  predicate Holds(rule: Rule, nb: Neighbours)
    decreases rule
  {
    match rule
    case Base => true
    case Simple(name, quantity, exact, axial) => SimpleHolds(name, quantity, exact, axial, nb)
    case Compound(rules, mode) =>
      if mode == And then forall i :: 0 <= i < |rules| ==> Holds(rules[i], nb)
      else exists i :: 0 <= i < |rules| && Holds(rules[i], nb)
  }

  /** `SimplePlacementRule.__call__`: a counting loop over the six neighbours and the axial test. */
  method CallSimple(name: string, quantity: int, exact: bool, axial: bool, nb: Neighbours)
    returns (ok: bool)
    ensures ok <==> Some("incomplete") in Components(nb)
                    || ((if exact then Quantity(nb, name) == quantity else Quantity(nb, name) >= quantity)
                        && (!axial || Axial(nb, name)))
  {
    var components := Components(nb);
    if Some("incomplete") in components {
      return true;
    }

    var count := 0;
    for i := 0 to |components|
      invariant count == Count(components[..i], Some(name))
    {
      assert components[..i + 1][..i] == components[..i];
      if components[i] == Some(name) {
        count := count + 1;
      }
    }
    assert components[..|components|] == components;

    var isAxial := false;
    if (nb.up == nb.down && nb.down == name) || (nb.right == nb.left && nb.left == name)
       || (nb.front == nb.back && nb.back == Some(name)) {
      isAxial := true;
    }

    if exact {
      if count != quantity {
        return false;
      }
    } else {
      if count < quantity {
        return false;
      }
    }
    if axial && !isAxial {
      return false;
    }
    return true;
  }

  /** `__call__` of any rule: compound rules stop at the first sub-rule that decides. */
  method Call(rule: Rule, nb: Neighbours) returns (ok: bool)
    ensures ok == Holds(rule, nb)
    decreases rule
  {
    match rule
    case Base =>
      return true;
    case Simple(name, quantity, exact, axial) =>
      ok := CallSimple(name, quantity, exact, axial, nb);
    case Compound(rules, mode) =>
      if mode == And {
        for i := 0 to |rules|
          invariant forall j :: 0 <= j < i ==> Holds(rules[j], nb)
        {
          var sub := Call(rules[i], nb);
          if !sub {
            return false;
          }
        }
        return true;
      } else {
        for i := 0 to |rules|
          invariant forall j :: 0 <= j < i ==> !Holds(rules[j], nb)
        {
          var sub := Call(rules[i], nb);
          if sub {
            return true;
          }
        }
        return false;
      }
  }

  /** How many of the first `k` neighbours, in the order `(up, right, down, left, front, back)`, are called `name`. */
  function CountOfFirst(nb: Neighbours, name: string, k: int): int {
    (if k > 0 && nb.up == name then 1 else 0) + (if k > 1 && nb.right == name then 1 else 0)
    + (if k > 2 && nb.down == name then 1 else 0) + (if k > 3 && nb.left == name then 1 else 0)
    + (if k > 4 && nb.front == Some(name) then 1 else 0) + (if k > 5 && nb.back == Some(name) then 1 else 0)
  }

  /** The count of a name is the count over the four sides plus a front and a back that are present and match. */
  lemma QuantityBySide(nb: Neighbours, name: string)
    ensures Quantity(nb, name)
            == (if nb.up == name then 1 else 0) + (if nb.right == name then 1 else 0)
             + (if nb.down == name then 1 else 0) + (if nb.left == name then 1 else 0)
             + (if nb.front == Some(name) then 1 else 0) + (if nb.back == Some(name) then 1 else 0)
  {
    var cs := Components(nb);
    for i := 0 to 6
      invariant Count(cs[..i], Some(name)) == CountOfFirst(nb, name, i)
    {
      CountPrefixStep(cs, i, Some(name));
    }
    assert cs[..6] == cs;
  }

  /** An absent front and back (the 2D call) never count and never make a pair. */
  lemma MissingFrontBackNeverMatch(nb: Neighbours, name: string)
    requires nb.front == None && nb.back == None
    ensures Quantity(nb, name) == Count([nb.up, nb.right, nb.down, nb.left], name)
    ensures Axial(nb, name) <==> (nb.up == name && nb.down == name) || (nb.right == name && nb.left == name)
  {
    QuantityBySide(nb, name);
    var four := [nb.up, nb.right, nb.down, nb.left];
    for i := 0 to 4
      invariant Count(four[..i], name) == CountOfFirst(nb, name, i)
    {
      CountPrefixStep(four, i, name);
    }
    assert four[..4] == four;
  }

  /** `b` keeps every neighbour of `a` except those `a` reports as "incomplete". */
  predicate CompletesNeighbours(a: Neighbours, b: Neighbours) {
    forall i :: 0 <= i < 6 && Components(a)[i] != Some("incomplete") ==> Components(b)[i] == Components(a)[i]
  }

  /**
   * Filling in unfinished neighbours never makes a rejecting rule accept: a simple rule rejects only when no
   * neighbour is unfinished, and AND/OR pass rejection up from their sub-rules.
   */
  lemma {:induction false} RejectionKept(rule: Rule, a: Neighbours, b: Neighbours)
    requires CompletesNeighbours(a, b) && !Holds(rule, a)
    ensures !Holds(rule, b)
    decreases rule
  {
    match rule
    case Simple(_, _, _, _) =>
      assert Components(a) == Components(b);
    case Compound(rules, mode) =>
      if mode == And {
        var i :| 0 <= i < |rules| && !Holds(rules[i], a);
        RejectionKept(rules[i], a, b);
      } else {
        forall i | 0 <= i < |rules|
          ensures !Holds(rules[i], b)
        {
          RejectionKept(rules[i], a, b);
        }
      }
  }
}
