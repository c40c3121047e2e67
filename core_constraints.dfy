/**
 * Layout constraints of `core/constraints.py`, judged on a row-major grid (`CoreMultiSequence`) of optional
 * components. Every check reads the grid and never changes it; each is a scan with an early `return False`.
 */
module CoreConstraints {
  import opened Wrappers
  import opened IndexArith
  import opened Counting
  import opened CoreMultiSequence
  import CorePlacementRule
  import Shaft

  /** A component: its name and the rule its neighbours must satisfy. */
  datatype Component = Component(name: string, placementRule: CorePlacementRule.Rule)

  /** A grid of cells; `None` marks a cell not yet assigned. */
  type Grid = MultiSequence<Option<Component>>

  datatype Constraint =
    | Base
    | MaxQuantity(targetName: string, maxQuantity: int)
    | Symmetry
    | PlacementRule
    | CenteredBearings(shaftWidth: int)

  // ---------------------------------------------------------------------------------------------
  // Maximum quantity

  /** The name in each cell, `None` where the cell is empty. */
  function Names(cells: seq<Option<Component>>): (ns: seq<Option<string>>)
    ensures |ns| == |cells|
    ensures forall i :: 0 <= i < |cells| ==> (ns[i].Some? <==> cells[i].Some?)
    ensures forall i :: 0 <= i < |cells| && cells[i].Some? ==> ns[i] == Some(cells[i].value.name)
  {
    seq(|cells|, i requires 0 <= i < |cells| => if cells[i].Some? then Some(cells[i].value.name) else None)
  }

  /** The number of present components called `target`. */
  function Quantity(g: Grid, target: string): nat {
    Count(Names(g.items), Some(target))
  }

  /** `MaxQuantityConstraint.__call__`: count the present components called `targetName`, skipping `None`. */
  method CallMaxQuantity(targetName: string, maxQuantity: int, g: Grid) returns (ok: bool)
    ensures ok <==> Quantity(g, targetName) <= maxQuantity
  {
    ghost var names := Names(g.items);
    var n := 0;
    for i := 0 to |g.items|
      invariant n == Count(names[..i], Some(targetName))
    {
      CountPrefixStep(names, i, Some(targetName));
      var comp := g.items[i];
      if comp.None? {
        continue;
      }
      if comp.value.name == targetName {
        n := n + 1;
      }
    }
    assert names[..|g.items|] == names;
    return n <= maxQuantity;
  }

  // ---------------------------------------------------------------------------------------------
  // Symmetry

  /** The coordinates reflected in dimension `d`: coordinate `c` becomes `dims[d] - c - 1`. */
  function Mirror(dims: seq<int>, coords: seq<int>, d: int): (m: seq<int>)
    requires |coords| == |dims| && 0 <= d < |dims|
    ensures |m| == |dims|
  {
    seq(|dims|, i requires 0 <= i < |dims| => if i == d then dims[i] - coords[i] - 1 else coords[i])
  }

  /** Reflection keeps a cell inside the grid, and reflecting twice gives the cell back. */
  lemma MirrorInvolution(dims: seq<int>, coords: seq<int>, d: int)
    requires InBounds(dims, coords) && 0 <= d < |dims|
    ensures InBounds(dims, Mirror(dims, coords, d))
    ensures Mirror(dims, Mirror(dims, coords, d), d) == coords
    ensures Mirror(dims, coords, d)[d] == dims[d] - 1 - coords[d]
  {
  }

  /** The cell with flat index `k` and its reflection in dimension `d` are not two components with different names. */
  predicate SymmetricAt(g: Grid, k: int, d: int)
    requires g.Valid() && 0 <= k < |g.items| && 0 <= d < |g.dims|
  {
    IntToTupleInBounds(g.dims, k);
    var coords := IntToTuple(g.dims, k);
    MirrorInvolution(g.dims, coords, d);
    var here := At(g, TupleKey(coords));
    var there := At(g, TupleKey(Mirror(g.dims, coords, d)));
    here.None? || there.None? || here.value.name == there.value.name
  }

  /** The symmetry constraint: every cell agrees with its reflection in every dimension. */
  predicate SymmetryHolds(g: Grid)
    requires g.Valid()
  {
    forall k, d :: 0 <= k < |g.items| && 0 <= d < |g.dims| ==> SymmetricAt(g, k, d)
  }

  /** `SymmetryConstraint.__call__`: for each occupied cell and dimension, compare with the occupied mirror cell. */
  method CallSymmetry(g: Grid) returns (ok: bool)
    requires g.Valid()
    ensures ok == SymmetryHolds(g)
  {
    for i := 0 to |g.items|
      invariant forall k, d :: 0 <= k < i && 0 <= d < |g.dims| ==> SymmetricAt(g, k, d)
    {
      IntToTupleInBounds(g.dims, i);
      var coords := IntToTuple(g.dims, i);
      if At(g, TupleKey(coords)).None? {
        continue;
      }
      for d := 0 to |g.dims|
        invariant forall e :: 0 <= e < d ==> SymmetricAt(g, i, e)
      {
        MirrorInvolution(g.dims, coords, d);
        var mirrored := Mirror(g.dims, coords, d);
        if At(g, TupleKey(mirrored)).None? {
          continue;
        }
        if At(g, TupleKey(coords)).value.name != At(g, TupleKey(mirrored)).value.name {
          assert !SymmetricAt(g, i, d);
          return false;
        }
      }
    }
    return true;
  }

  // ---------------------------------------------------------------------------------------------
  // Placement rules

  /** `component_name`: the name of a component, "incomplete" for an empty cell. */
  function NameOf(c: Option<Component>): (name: string)
    ensures c.None? ==> name == "incomplete"
    ensures c.Some? ==> name == c.value.name
  {
    if c.None? then "incomplete" else c.value.name
  }

  /** The coordinates moved by `delta` in dimension `d`. */
  function Shift(idx: seq<int>, d: int, delta: int): (r: seq<int>)
    requires 0 <= d < |idx|
    ensures |r| == |idx| && r[d] == idx[d] + delta
    ensures forall i :: 0 <= i < |idx| && i != d ==> r[i] == idx[i]
  {
    seq(|idx|, i requires 0 <= i < |idx| => if i == d then idx[i] + delta else idx[i])
  }

  /**
   * Entry `j` of a cell's neighbour tuple: entry `2d` is the cell one step up dimension `d`, entry `2d + 1` the
   * cell one step down; "wall" where that step leaves the grid.
   */
  function NeighbourName(g: Grid, idx: seq<int>, j: int): string
    requires g.Valid() && InBounds(g.dims, idx) && 0 <= j < 2 * |g.dims|
  {
    var d := j / 2;
    if j % 2 == 0 then
      if idx[d] < g.dims[d] - 1 then NameOf(At(g, TupleKey(Shift(idx, d, 1)))) else "wall"
    else
      if idx[d] > 0 then NameOf(At(g, TupleKey(Shift(idx, d, -1)))) else "wall"
  }

  /** The neighbour tuple of the cell at `idx`, two entries per dimension. */
  function NeighbourNames(g: Grid, idx: seq<int>): (names: seq<string>)
    requires g.Valid() && InBounds(g.dims, idx)
    ensures |names| == 2 * |g.dims|
  {
    seq(2 * |g.dims|, j requires 0 <= j < 2 * |g.dims| => NeighbourName(g, idx, j))
  }

  /** Neighbourhood is mutual: the cell above `idx` in dimension `d` sees the cell at `idx` below it. */
  lemma NeighbourDuality(g: Grid, idx: seq<int>, d: int)
    requires g.Valid() && InBounds(g.dims, idx) && 0 <= d < |g.dims| && idx[d] < g.dims[d] - 1
    ensures InBounds(g.dims, Shift(idx, d, 1))
    ensures NeighbourName(g, idx, 2 * d) == NameOf(At(g, TupleKey(Shift(idx, d, 1))))
    ensures NeighbourName(g, Shift(idx, d, 1), 2 * d + 1) == NameOf(At(g, TupleKey(idx)))
  {
    var up := Shift(idx, d, 1);
    assert (2 * d + 1) / 2 == d && (2 * d + 1) % 2 == 1;
    assert Shift(up, d, -1) == idx;
  }

  /** The cell with flat index `k` is empty or its rule accepts its neighbour tuple. */
  predicate CellPlaced(g: Grid, k: int)
    requires g.Valid() && 0 <= k < |g.items|
  {
    IntToTupleInBounds(g.dims, k);
    var idx := IntToTuple(g.dims, k);
    var c := At(g, TupleKey(idx));
    c.None? || CorePlacementRule.Holds(c.value.placementRule, NeighbourNames(g, idx))
  }

  /** The placement-rule constraint: every occupied cell's rule accepts its neighbours. */
  predicate PlacementHolds(g: Grid)
    requires g.Valid()
  {
    forall k :: 0 <= k < |g.items| ==> CellPlaced(g, k)
  }

  /** The inner loop of `PlacementRuleConstraint.__call__`: append the `+d` and `-d` neighbours of each dimension. */
  method CollectNeighbours(g: Grid, idx: seq<int>) returns (compNames: seq<string>)
    requires g.Valid() && InBounds(g.dims, idx)
    ensures compNames == NeighbourNames(g, idx)
  {
    compNames := [];
    for d := 0 to |g.dims|
      invariant |compNames| == 2 * d
      invariant forall j :: 0 <= j < 2 * d ==> compNames[j] == NeighbourName(g, idx, j)
    {
      assert (2 * d) / 2 == d && (2 * d) % 2 == 0 && (2 * d + 1) / 2 == d && (2 * d + 1) % 2 == 1;
      if idx[d] < g.dims[d] - 1 {
        var next := At(g, TupleKey(Shift(idx, d, 1)));
        compNames := compNames + [if next.Some? then next.value.name else "incomplete"];
      } else {
        compNames := compNames + ["wall"];
      }
      if idx[d] > 0 {
        var prev := At(g, TupleKey(Shift(idx, d, -1)));
        compNames := compNames + [if prev.Some? then prev.value.name else "incomplete"];
      } else {
        compNames := compNames + ["wall"];
      }
    }
  }

  /** `PlacementRuleConstraint.__call__`: build each cell's neighbour tuple and ask the cell's rule. */
  method CallPlacementRule(g: Grid) returns (ok: bool)
    requires g.Valid()
    ensures ok == PlacementHolds(g)
  {
    for i := 0 to |g.items|
      invariant forall k :: 0 <= k < i ==> CellPlaced(g, k)
    {
      IntToTupleInBounds(g.dims, i);
      var idx := IntToTuple(g.dims, i);
      var compNames := CollectNeighbours(g, idx);
      var cell := At(g, TupleKey(idx));
      if cell.Some? {
        var accepted := CorePlacementRule.Call(cell.value.placementRule, compNames);
        if !accepted {
          assert !CellPlaced(g, i);
          return false;
        }
      }
    }
    return true;
  }

  // ---------------------------------------------------------------------------------------------
  // Centred bearings

  /** The name in a cell, `None` when it is empty. */
  function NameIn(c: Option<Component>): Option<string> {
    if c.Some? then Some(c.value.name) else None
  }

  /** The centred-bearings constraint on a two-dimensional grid, sized by its first dimension. */
  predicate BearingsHold(g: Grid, w: int)
    requires g.Valid() && |g.dims| == 2
  {
    forall y, x :: 0 <= y < g.dims[0] && 0 <= x < g.dims[1] ==>
      Shaft.BearingOk(g.dims[0], w, x, y, NameIn(At(g, TupleKey([y, x]))))
  }

  /** `CenteredBearingsConstraint.__call__`: scan the grid, with the block offsets chosen by the parity of its size. */
  method CallCenteredBearings(shaftWidth: int, g: Grid) returns (ok: bool)
    requires g.Valid() && |g.dims| == 2
    ensures ok == BearingsHold(g, shaftWidth)
  {
    var n := g.dims[0];
    for y := 0 to g.dims[0]
      invariant forall y', x :: 0 <= y' < y && 0 <= x < g.dims[1] ==>
        Shaft.BearingOk(n, shaftWidth, x, y', NameIn(At(g, TupleKey([y', x]))))
    {
      for x := 0 to g.dims[1]
        invariant forall x' :: 0 <= x' < x ==>
          Shaft.BearingOk(n, shaftWidth, x', y, NameIn(At(g, TupleKey([y, x']))))
      {
        var cell := At(g, TupleKey([y, x]));
        var inBlock;
        if n % 2 == 1 {
          var mid := (n - 1) / 2;
          var r := (shaftWidth - 1) / 2;
          inBlock := mid - r <= x <= mid + r && mid - r <= y <= mid + r;
        } else {
          var mid := n / 2 - 1;
          var rLeft := shaftWidth / 2 - 1;
          var rRight := shaftWidth / 2;
          inBlock := mid - rLeft <= x <= mid + rRight && mid - rLeft <= y <= mid + rRight;
        }
        if inBlock {
          if cell.Some? && cell.value.name != "bearing" {
            return false;
          }
        } else {
          if cell.Some? && cell.value.name == "bearing" {
            return false;
          }
        }
      }
    }
    return true;
  }

  // ---------------------------------------------------------------------------------------------
  // Dispatch and pruning

  /** What each constraint demands; the centred-bearings check indexes the grid with two coordinates. */
  predicate Holds(c: Constraint, g: Grid)
    requires g.Valid() && (c.CenteredBearings? ==> |g.dims| == 2)
  {
    match c
    case Base => true
    case MaxQuantity(targetName, maxQuantity) => Quantity(g, targetName) <= maxQuantity
    case Symmetry => SymmetryHolds(g)
    case PlacementRule => PlacementHolds(g)
    case CenteredBearings(w) => BearingsHold(g, w)
  }

  /** `Constraint.__call__` and its overrides, dispatched on the kind of constraint. */
  method Call(c: Constraint, g: Grid) returns (ok: bool)
    requires g.Valid() && (c.CenteredBearings? ==> |g.dims| == 2)
    ensures ok == Holds(c, g)
  {
    match c
    case Base =>
      ok := true;
    case MaxQuantity(targetName, maxQuantity) =>
      ok := CallMaxQuantity(targetName, maxQuantity, g);
    case Symmetry =>
      ok := CallSymmetry(g);
    case PlacementRule =>
      ok := CallPlacementRule(g);
    case CenteredBearings(w) =>
      ok := CallCenteredBearings(w, g);
  }

  /** `b` is the grid `a` with some empty cells assigned. */
  predicate GridRefines(a: Grid, b: Grid) {
    a.dims == b.dims && Refines(a.items, b.items)
  }

  /** Assigning empty cells keeps every neighbour name except those reported as "incomplete". */
  lemma NeighboursRefine(a: Grid, b: Grid, idx: seq<int>)
    requires a.Valid() && GridRefines(a, b) && InBounds(a.dims, idx)
    ensures b.Valid()
    ensures CorePlacementRule.CompletesNames(NeighbourNames(a, idx), NeighbourNames(b, idx))
  {
    forall j | 0 <= j < 2 * |a.dims| && NeighbourName(a, idx, j) != "incomplete"
      ensures NeighbourName(b, idx, j) == NeighbourName(a, idx, j)
    {
      var d := j / 2;
      var t := Shift(idx, d, if j % 2 == 0 then 1 else -1);
      if InBounds(a.dims, t) {
        TupleToIntRange(a.dims, t);
      }
    }
  }

  /**
   * Assigning empty cells never turns a rejected grid into an accepted one, for every constraint: this is what
   * lets the search discard a partial grid that fails.
   */
  lemma RejectionKept(c: Constraint, a: Grid, b: Grid)
    requires a.Valid() && (c.CenteredBearings? ==> |a.dims| == 2)
    requires GridRefines(a, b) && !Holds(c, a)
    ensures b.Valid() && !Holds(c, b)
  {
    match c
    case MaxQuantity(targetName, _) =>
      assert Refines(Names(a.items), Names(b.items));
      CountRefines(Names(a.items), Names(b.items), targetName);
    case Symmetry =>
      var k, d :| 0 <= k < |a.items| && 0 <= d < |a.dims| && !SymmetricAt(a, k, d);
      IntToTupleInBounds(a.dims, k);
      var coords := IntToTuple(a.dims, k);
      MirrorInvolution(a.dims, coords, d);
      TupleToIntRange(a.dims, coords);
      TupleToIntRange(a.dims, Mirror(a.dims, coords, d));
      assert !SymmetricAt(b, k, d);
    case PlacementRule =>
      var k :| 0 <= k < |a.items| && !CellPlaced(a, k);
      IntToTupleInBounds(a.dims, k);
      var idx := IntToTuple(a.dims, k);
      TupleToIntRange(a.dims, idx);
      NeighboursRefine(a, b, idx);
      var cell := At(a, TupleKey(idx));
      CorePlacementRule.RejectionKept(cell.value.placementRule, NeighbourNames(a, idx), NeighbourNames(b, idx));
      assert !CellPlaced(b, k);
    case CenteredBearings(w) =>
      var y, x :| 0 <= y < a.dims[0] && 0 <= x < a.dims[1]
        && !Shaft.BearingOk(a.dims[0], w, x, y, NameIn(At(a, TupleKey([y, x]))));
      TupleToIntRange(a.dims, [y, x]);
  }
}
