/**
 * Layout constraints of `common/constraints.py`, judged on a first-index-fastest grid (`CommonMultiSequence`)
 * of optional components whose placement rules take named neighbours (`UtilsPlacementRule`).
 *
 * The symmetry and placement-rule checks ask the grid for `int_to_tuple`, which the common grid does not
 * define: as written they fail on every non-empty grid. The checks below that do the intended work borrow the
 * row-major `int_to_tuple` of `CoreMultiSequence` to enumerate the cells, and index the grid with its own
 * first-index-fastest tuple keys.
 */
module CommonConstraints {
  import opened Wrappers
  import opened IndexArith
  import opened Counting
  import opened CommonMultiSequence
  import CMS = CoreMultiSequence
  import CoreConstraints
  import UPR = UtilsPlacementRule
  import UtilsConstraints
  import Shaft

  /** A component: its name and the rule its named neighbours must satisfy. */
  datatype Component = Component(name: string, placementRule: UPR.Rule)

  /** A grid of cells; `None` marks a cell not yet assigned. */
  type Grid = MultiSequence<Option<Component>>

  // ---------------------------------------------------------------------------------------------
  // Maximum quantity

  /** The name in each cell, `None` where the cell is empty. */
  function Names(cells: seq<Option<Component>>): (ns: seq<Option<string>>)
    ensures |ns| == |cells|
    ensures forall i :: 0 <= i < |cells| ==> (ns[i].Some? <==> cells[i].Some?)
    ensures forall i :: 0 <= i < |cells| && cells[i].Some? ==> ns[i] == Some(cells[i].value.name)
  {
    seq(|cells|, i requires 0 <= i < |cells| => if cells[i].Some? then Some(cells[i].value.name) else None)
  }

  /** The number of present components called `target`. */
  function Quantity(g: Grid, target: string): nat {
    Count(Names(g.items), Some(target))
  }

  /** `MaxQuantityConstraint.__call__`: count the present components called `targetName`, skipping `None`. */
  method CallMaxQuantity(targetName: string, maxQuantity: int, g: Grid) returns (ok: bool)
    ensures ok <==> Quantity(g, targetName) <= maxQuantity
  {
    ghost var names := Names(g.items);
    var n := 0;
    for i := 0 to |g.items|
      invariant n == Count(names[..i], Some(targetName))
    {
      CountPrefixStep(names, i, Some(targetName));
      var comp := g.items[i];
      if comp.None? {
        continue;
      }
      if comp.value.name == targetName {
        n := n + 1;
      }
    }
    assert names[..|g.items|] == names;
    return n <= maxQuantity;
  }

  /** The cells seen as the flat list of name-only components that the list constraints take. */
  function AsList(cells: seq<Option<Component>>): (l: seq<Option<UtilsConstraints.Component>>)
    ensures |l| == |cells|
  {
    seq(|cells|, i requires 0 <= i < |cells| =>
      if cells[i].Some? then Some(UtilsConstraints.Component(cells[i].value.name)) else None)
  }

  /** The grid's quantity limit agrees with the flat list's: both count present components by name only. */
  lemma MaxQuantityAgreesWithList(targetName: string, maxQuantity: int, g: Grid)
    ensures Quantity(g, targetName) <= maxQuantity
        <==> UtilsConstraints.Holds(UtilsConstraints.MaxQuantity(targetName, maxQuantity), AsList(g.items))
  {
    assert Names(g.items) == UtilsConstraints.Names(AsList(g.items));
  }

  // ---------------------------------------------------------------------------------------------
  // Symmetry

  /** The cell at the in-range tuple `t` and its reflection in dimension `d` are not two differently named components. */
  predicate SymmetricTuple(g: Grid, t: seq<int>, d: int)
    requires g.Valid() && InBounds(g.dims, t) && 0 <= d < |g.dims|
  {
    CoreConstraints.MirrorInvolution(g.dims, t, d);
    var here := At(g, t);
    var there := At(g, CoreConstraints.Mirror(g.dims, t, d));
    here.None? || there.None? || here.value.name == there.value.name
  }

  /** The check of flat position `k`, whose tuple the borrowed row-major `int_to_tuple` gives. */
  predicate SymmetricAt(g: Grid, k: int, d: int)
    requires g.Valid() && 0 <= d < |g.dims|
  {
    CMS.IntToTupleInBounds(g.dims, k);
    SymmetricTuple(g, CMS.IntToTuple(g.dims, k), d)
  }

  predicate SymmetryHolds(g: Grid)
    requires g.Valid()
  {
    forall k, d :: 0 <= k < |g.items| && 0 <= d < |g.dims| ==> SymmetricAt(g, k, d)
  }

  /**
   * Which `int_to_tuple` enumerates the cells does not matter: the check holds exactly when every cell of the grid
   * agrees with each of its reflections.
   */
  lemma SymmetryOverTuples(g: Grid)
    requires g.Valid()
    ensures SymmetryHolds(g) <==>
      forall t, d :: InBounds(g.dims, t) && 0 <= d < |g.dims| ==> SymmetricTuple(g, t, d)
  {
    if SymmetryHolds(g) {
      forall t, d | InBounds(g.dims, t) && 0 <= d < |g.dims|
        ensures SymmetricTuple(g, t, d)
      {
        var k := CMS.TupleToInt(g.dims, t);
        CMS.TupleToIntRange(g.dims, t);
        CMS.TupleToIntRoundTrip(g.dims, t);
        assert SymmetricAt(g, k, d);
      }
    } else {
      var k, d :| 0 <= k < |g.items| && 0 <= d < |g.dims| && !SymmetricAt(g, k, d);
      CMS.IntToTupleInBounds(g.dims, k);
      var t := CMS.IntToTuple(g.dims, k);
      assert !SymmetricTuple(g, t, d);
    }
  }

  /** `SymmetryConstraint.__call__` with the borrowed `int_to_tuple`: compare each occupied cell with its occupied mirror cells. */
  method CallSymmetry(g: Grid) returns (ok: bool)
    requires g.Valid()
    ensures ok == SymmetryHolds(g)
  {
    for i := 0 to |g.items|
      invariant forall k, d :: 0 <= k < i && 0 <= d < |g.dims| ==> SymmetricAt(g, k, d)
    {
      CMS.IntToTupleInBounds(g.dims, i);
      var coords := CMS.IntToTuple(g.dims, i);
      var agrees := CompareMirrors(g, coords);
      if !agrees {
        var d :| 0 <= d < |g.dims| && !SymmetricTuple(g, coords, d);
        assert !SymmetricAt(g, i, d);
        return false;
      }
      assert forall d :: 0 <= d < |g.dims| ==> SymmetricAt(g, i, d);
    }
    return true;
  }

  /** The body of the scan for one cell: skip it when empty, else compare it with each occupied mirror cell. */
  method CompareMirrors(g: Grid, coords: seq<int>) returns (ok: bool)
    requires g.Valid() && InBounds(g.dims, coords)
    ensures ok <==> forall d :: 0 <= d < |g.dims| ==> SymmetricTuple(g, coords, d)
  {
    var here := At(g, coords);
    if here.None? {
      return true;
    }
    for d := 0 to |g.dims|
      invariant forall e :: 0 <= e < d ==> SymmetricTuple(g, coords, e)
    {
      CoreConstraints.MirrorInvolution(g.dims, coords, d);
      var there := At(g, CoreConstraints.Mirror(g.dims, coords, d));
      if there.None? {
        continue;
      }
      if here.value.name != there.value.name {
        assert !SymmetricTuple(g, coords, d);
        return false;
      }
    }
    return true;
  }

  /** The outcome of a scan whose first step asks the grid for `int_to_tuple`: only an empty grid gets past it. */
  function MissingIntToTuple(g: Grid): Result<bool> {
    if |g.items| == 0 then Ok(true) else Err(AttributeError("int_to_tuple"))
  }

  /**
   * `SymmetryConstraint.__call__` and `PlacementRuleConstraint.__call__` as written, on the common grid that has no
   * `int_to_tuple`: both scan the cells and ask for `int_to_tuple` of the first one before anything else.
   */
  method CallAsWritten(g: Grid) returns (r: Result<bool>)
    ensures r == MissingIntToTuple(g)
  {
    for i := 0 to |g.items| {
      return Err(AttributeError("int_to_tuple"));
    }
    return Ok(true);
  }

  // ---------------------------------------------------------------------------------------------
  // Placement rules

  /** `component_name`: the name of a component, "incomplete" for an empty cell. */
  function NameOf(c: Option<Component>): (name: string)
    ensures c.None? ==> name == "incomplete"
    ensures c.Some? ==> name == c.value.name
  {
    if c.None? then "incomplete" else c.value.name
  }

  /** The named neighbours of the cell at row `y`, column `x` of a 2D grid; a 2D grid has no front or back. */
  function Neighbours2D(g: Grid, y: int, x: int): UPR.Neighbours
    requires g.Valid() && |g.dims| == 2 && InBounds(g.dims, [y, x])
  {
    UPR.Neighbours(
      if y > 0 then NameOf(At(g, [y - 1, x])) else "wall",
      if x < g.dims[1] - 1 then NameOf(At(g, [y, x + 1])) else "wall",
      if y < g.dims[0] - 1 then NameOf(At(g, [y + 1, x])) else "wall",
      if x > 0 then NameOf(At(g, [y, x - 1])) else "wall",
      None, None)
  }

  /** The named neighbours of the cell `(x, y, z)` of a 3D grid: `(y+, x+, y-, x-, z+, z-)` in the rule's six slots. */
  function Neighbours3D(g: Grid, x: int, y: int, z: int): UPR.Neighbours
    requires g.Valid() && |g.dims| == 3 && InBounds(g.dims, [x, y, z])
  {
    UPR.Neighbours(
      if y < g.dims[1] - 1 then NameOf(At(g, [x, y + 1, z])) else "wall",
      if x < g.dims[0] - 1 then NameOf(At(g, [x + 1, y, z])) else "wall",
      if y > 0 then NameOf(At(g, [x, y - 1, z])) else "wall",
      if x > 0 then NameOf(At(g, [x - 1, y, z])) else "wall",
      Some(if z < g.dims[2] - 1 then NameOf(At(g, [x, y, z + 1])) else "wall"),
      Some(if z > 0 then NameOf(At(g, [x, y, z - 1])) else "wall"))
  }

  /** The cell `(y, x)` of a 2D grid is empty or its rule accepts its neighbours. */
  predicate Placed2D(g: Grid, y: int, x: int)
    requires g.Valid() && |g.dims| == 2 && InBounds(g.dims, [y, x])
  {
    var cell := At(g, [y, x]);
    cell.None? || UPR.Holds(cell.value.placementRule, Neighbours2D(g, y, x))
  }

  /** The cell `(x, y, z)` of a 3D grid is empty or its rule accepts its neighbours. */
  predicate Placed3D(g: Grid, x: int, y: int, z: int)
    requires g.Valid() && |g.dims| == 3 && InBounds(g.dims, [x, y, z])
  {
    var cell := At(g, [x, y, z]);
    cell.None? || UPR.Holds(cell.value.placementRule, Neighbours3D(g, x, y, z))
  }

  /** The cell at flat position `k` (its tuple from the borrowed `int_to_tuple`) is empty or its rule accepts its neighbours. */
  predicate CellPlaced(g: Grid, k: int)
    requires g.Valid() && (|g.dims| == 2 || |g.dims| == 3)
  {
    CMS.IntToTupleInBounds(g.dims, k);
    var c := CMS.IntToTuple(g.dims, k);
    if |c| == 2 then
      assert c == [c[0], c[1]];
      Placed2D(g, c[0], c[1])
    else
      assert c == [c[0], c[1], c[2]];
      Placed3D(g, c[0], c[1], c[2])
  }

  /**
   * The placement-rule verdict: a non-empty grid that is neither 2D nor 3D raises `NotImplementedError`; otherwise
   * every occupied cell's rule must accept its neighbours.
   */
  function PlacementResult(g: Grid): (r: Result<bool>)
    requires g.Valid()
  {
    if |g.items| > 0 && |g.dims| != 2 && |g.dims| != 3 then
      Err(NotImplementedError("Placement rule constraint only supports 2 and 3 dimensions!"))
    else
      Ok(|g.items| == 0 || forall k :: 0 <= k < |g.items| ==> CellPlaced(g, k))
  }

  /** The 2D branch of `PlacementRuleConstraint.__call__` for one cell: `x = coords[1]`, `y = coords[0]`. */
  method CheckCell2D(g: Grid, y: int, x: int) returns (ok: bool)
    requires g.Valid() && |g.dims| == 2 && InBounds(g.dims, [y, x])
    ensures ok == Placed2D(g, y, x)
  {
    var up := if y > 0 then NameOf(At(g, [y - 1, x])) else "wall";
    var right := if x < g.dims[1] - 1 then NameOf(At(g, [y, x + 1])) else "wall";
    var down := if y < g.dims[0] - 1 then NameOf(At(g, [y + 1, x])) else "wall";
    var left := if x > 0 then NameOf(At(g, [y, x - 1])) else "wall";
    var cell := At(g, [y, x]);
    ok := true;
    if cell.Some? {
      ok := UPR.Call(cell.value.placementRule, UPR.Neighbours(up, right, down, left, None, None));
    }
  }

  /** The 3D branch for one cell: the neighbours go to the rule as `(y+, x+, y-, x-, z+, z-)`. */
  method CheckCell3D(g: Grid, x: int, y: int, z: int) returns (ok: bool)
    requires g.Valid() && |g.dims| == 3 && InBounds(g.dims, [x, y, z])
    ensures ok == Placed3D(g, x, y, z)
  {
    var xp := if x < g.dims[0] - 1 then NameOf(At(g, [x + 1, y, z])) else "wall";
    var xn := if x > 0 then NameOf(At(g, [x - 1, y, z])) else "wall";
    var yp := if y < g.dims[1] - 1 then NameOf(At(g, [x, y + 1, z])) else "wall";
    var yn := if y > 0 then NameOf(At(g, [x, y - 1, z])) else "wall";
    var zp := if z < g.dims[2] - 1 then NameOf(At(g, [x, y, z + 1])) else "wall";
    var zn := if z > 0 then NameOf(At(g, [x, y, z - 1])) else "wall";
    var cell := At(g, [x, y, z]);
    ok := true;
    if cell.Some? {
      ok := UPR.Call(cell.value.placementRule, UPR.Neighbours(yp, xp, yn, xn, Some(zp), Some(zn)));
    }
  }

  /** One round of the loop: turn the flat position into coordinates and check that cell by their number. */
  method CheckCell(g: Grid, i: int) returns (r: Result<bool>)
    requires g.Valid() && 0 <= i < |g.items|
    ensures |g.dims| != 2 && |g.dims| != 3 ==>
      r == Err(NotImplementedError("Placement rule constraint only supports 2 and 3 dimensions!"))
    ensures (|g.dims| == 2 || |g.dims| == 3) ==> r == Ok(CellPlaced(g, i))
  {
    CMS.IntToTupleInBounds(g.dims, i);
    var coords := CMS.IntToTuple(g.dims, i);
    var ok;
    if |coords| == 2 {
      assert coords == [coords[0], coords[1]];
      ok := CheckCell2D(g, coords[0], coords[1]);
    } else if |coords| == 3 {
      assert coords == [coords[0], coords[1], coords[2]];
      ok := CheckCell3D(g, coords[0], coords[1], coords[2]);
    } else {
      return Err(NotImplementedError("Placement rule constraint only supports 2 and 3 dimensions!"));
    }
    return Ok(ok);
  }

  /** `PlacementRuleConstraint.__call__` with the borrowed `int_to_tuple`, branching on the number of coordinates. */
  method CallPlacementRule(g: Grid) returns (r: Result<bool>)
    requires g.Valid()
    ensures r == PlacementResult(g)
  {
    for i := 0 to |g.items|
      invariant i > 0 ==> |g.dims| == 2 || |g.dims| == 3
      invariant forall k :: 0 <= k < i ==> (|g.dims| == 2 || |g.dims| == 3) && CellPlaced(g, k)
    {
      var cell := CheckCell(g, i);
      if cell.Err? {
        return cell;
      }
      if !cell.value {
        return Ok(false);
      }
    }
    return Ok(true);
  }

  /**
   * The missing `int_to_tuple` makes both checks fail on a single empty cell, which the intended checks accept:
   * an empty cell is never compared and never asked about its neighbours.
   */
  lemma MissingIntToTupleFails()
    ensures var g: Grid := MultiSequence([None], [1, 1]);
      && g.Valid()
      && MissingIntToTuple(g).Err?
      && SymmetryHolds(g) && PlacementResult(g) == Ok(true)
  {
    var g: Grid := MultiSequence([None], [1, 1]);
    assert Prod([1]) == 1 * Prod([]);
    assert Prod([1, 1]) == 1 * Prod([1]);
    CMS.IntToTupleInBounds(g.dims, 0);
    var c := CMS.IntToTuple(g.dims, 0);
    assert c == [c[0], c[1]];
    FlatIndexRange(g.dims, c);
    assert At(g, [c[0], c[1]]) == None;
    assert CellPlaced(g, 0);
  }

  /**
   * In a 2D grid neighbourhood is mutual: the cell to the right of `(y, x)` sees `(y, x)` on its left, and the cell
   * below sees it above.
   */
  lemma Neighbours2DDuality(g: Grid, y: int, x: int)
    requires g.Valid() && |g.dims| == 2 && InBounds(g.dims, [y, x])
    ensures x < g.dims[1] - 1 ==>
      Neighbours2D(g, y, x).right == NameOf(At(g, [y, x + 1]))
      && Neighbours2D(g, y, x + 1).left == NameOf(At(g, [y, x]))
    ensures y < g.dims[0] - 1 ==>
      Neighbours2D(g, y, x).down == NameOf(At(g, [y + 1, x]))
      && Neighbours2D(g, y + 1, x).up == NameOf(At(g, [y, x]))
  {
    assert x + 1 - 1 == x && y + 1 - 1 == y;
  }

  // ---------------------------------------------------------------------------------------------
  // Centred bearings

  function NameIn(c: Option<Component>): Option<string> {
    if c.Some? then Some(c.value.name) else None
  }

  /** The centred-bearings constraint on a two-dimensional grid, sized by its first dimension. */
  predicate BearingsHold(g: Grid, w: int)
    requires g.Valid() && |g.dims| == 2
  {
    forall y, x :: 0 <= y < g.dims[0] && 0 <= x < g.dims[1] ==>
      Shaft.BearingOk(g.dims[0], w, x, y, NameIn(At(g, [y, x])))
  }

  /** `CenteredBearingsConstraint.__call__`: scan the grid, with the block offsets chosen by the parity of its size. */
  method CallCenteredBearings(shaftWidth: int, g: Grid) returns (ok: bool)
    requires g.Valid() && |g.dims| == 2
    ensures ok == BearingsHold(g, shaftWidth)
  {
    var n := g.dims[0];
    for y := 0 to g.dims[0]
      invariant forall y', x :: 0 <= y' < y && 0 <= x < g.dims[1] ==>
        Shaft.BearingOk(n, shaftWidth, x, y', NameIn(At(g, [y', x])))
    {
      for x := 0 to g.dims[1]
        invariant forall x' :: 0 <= x' < x ==> Shaft.BearingOk(n, shaftWidth, x', y, NameIn(At(g, [y, x'])))
      {
        var cell := At(g, [y, x]);
        var inBlock;
        if n % 2 == 1 {
          var mid := (n - 1) / 2;
          var r := (shaftWidth - 1) / 2;
          inBlock := mid - r <= x <= mid + r && mid - r <= y <= mid + r;
        } else {
          var mid := n / 2 - 1;
          var rLeft := shaftWidth / 2 - 1;
          var rRight := shaftWidth / 2;
          inBlock := mid - rLeft <= x <= mid + rRight && mid - rLeft <= y <= mid + rRight;
        }
        if inBlock {
          if cell.Some? && cell.value.name != "bearing" {
            return false;
          }
        } else {
          if cell.Some? && cell.value.name == "bearing" {
            return false;
          }
        }
      }
    }
    return true;
  }
}
