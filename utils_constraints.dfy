/** Constraints of `utils/constraints.py`, judged on a flat list of optional components. */
module UtilsConstraints {
  import opened Wrappers
  import opened Counting

  /** `utils/component.py`: a component is known by its name. */
  datatype Component = Component(name: string)

  datatype Constraint =
    | Base
    | MaxQuantity(targetName: string, maxQuantity: int)

  /** The name at each position, `None` where the position is empty. */
  function Names(cells: seq<Option<Component>>): (ns: seq<Option<string>>)
    ensures |ns| == |cells|
    ensures forall i :: 0 <= i < |cells| ==> (ns[i].Some? <==> cells[i].Some?)
    ensures forall i :: 0 <= i < |cells| && cells[i].Some? ==> ns[i] == Some(cells[i].value.name)
  {
    seq(|cells|, i requires 0 <= i < |cells| => if cells[i].Some? then Some(cells[i].value.name) else None)
  }

  /** The number of present components called `target`. */
  function Quantity(cells: seq<Option<Component>>, target: string): nat {
    Count(Names(cells), Some(target))
  }

  /** Whether a constraint accepts the list. */
  predicate Holds(c: Constraint, cells: seq<Option<Component>>) {
    match c
    case Base => true
    case MaxQuantity(targetName, maxQuantity) => Quantity(cells, targetName) <= maxQuantity
  }

  /** `MaxQuantityConstraint.__call__`: count the present components called `targetName`, skipping `None`. */
  method CallMaxQuantity(targetName: string, maxQuantity: int, cells: seq<Option<Component>>) returns (ok: bool)
    ensures ok <==> Quantity(cells, targetName) <= maxQuantity
  {
    ghost var names := Names(cells);
    var n := 0;
    for i := 0 to |cells|
      invariant n == Count(names[..i], Some(targetName))
    {
      CountPrefixStep(names, i, Some(targetName));
      if cells[i].None? {
        continue;
      }
      if cells[i].value.name == targetName {
        n := n + 1;
      }
    }
    assert names[..|cells|] == names;
    return n <= maxQuantity;
  }

  /** `Constraint.__call__` and its override, dispatched on the kind of constraint. */
  method Call(c: Constraint, cells: seq<Option<Component>>) returns (ok: bool)
    ensures ok == Holds(c, cells)
  {
    match c
    case Base =>
      ok := true;
    case MaxQuantity(targetName, maxQuantity) =>
      ok := CallMaxQuantity(targetName, maxQuantity, cells);
  }

  /** A list with no component at all (in particular the empty list) passes a quantity limit iff it is not negative. */
  lemma AllEmptyAccepted(targetName: string, maxQuantity: int, cells: seq<Option<Component>>)
    requires forall i :: 0 <= i < |cells| ==> cells[i].None?
    ensures Holds(MaxQuantity(targetName, maxQuantity), cells) <==> maxQuantity >= 0
  {
    CountZero(Names(cells), Some(targetName));
  }

  /** A negative limit rejects every list, and a limit of at least the list's length accepts every list. */
  lemma LimitExtremes(targetName: string, maxQuantity: int, cells: seq<Option<Component>>)
    ensures maxQuantity < 0 ==> !Holds(MaxQuantity(targetName, maxQuantity), cells)
    ensures maxQuantity >= |cells| ==> Holds(MaxQuantity(targetName, maxQuantity), cells)
  {
  }

  /**
   * Placing components into empty positions never turns a rejected list into an accepted one, so a search may
   * prune a partial list that fails.
   */
  lemma RejectionKept(c: Constraint, a: seq<Option<Component>>, b: seq<Option<Component>>)
    requires Refines(a, b) && !Holds(c, a)
    ensures !Holds(c, b)
  {
    var target := c.targetName;
    assert Refines(Names(a), Names(b));
    CountRefines(Names(a), Names(b), target);
  }
}
