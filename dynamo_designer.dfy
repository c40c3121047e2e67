/**
 * The turbine dynamo-coil designer of `overhauled/turbine_dynamo_coil/designer.py`: id lists become square
 * coil grids, which are judged by the centred-bearings check, the placement-rule check and the caller's
 * constraints, and scored by their mean positive conductivity.
 */
module DynamoDesigner {
  import opened Wrappers
  import opened Counting
  import opened CommonMultiSequence
  import opened DynamoCoils
  import UPR = UtilsPlacementRule
  import UtilsConstraints
  import Shaft
  import IndexArith

  type Configuration = Sequence2D<Option<DynamoCoil>>

  /** Every id picks a coil type or is negative (an empty cell). */
  predicate IdsInRange(types: seq<DynamoCoil>, ids: seq<int>) {
    forall i :: 0 <= i < |ids| ==> ids[i] < |types|
  }

  /** The grid is square: `cols` rows of `cols` cells. */
  predicate Square(conf: Configuration) {
    conf.cols >= 0 && |conf.rep| == conf.cols * conf.cols
  }

  /**
   * `ids_to_coils`: the id `i` becomes the `i`-th coil type and a negative id an empty cell, laid out in rows
   * of `cols` (the source's `round(len(sequence) ** (1 / 2))`, which is `cols` for a list of `cols * cols` ids).
   */
  function IdsToCoils(types: seq<DynamoCoil>, ids: seq<int>, cols: int): (conf: Configuration)
    requires IdsInRange(types, ids)
    ensures conf.cols == cols && |conf.rep| == |ids|
    ensures forall i :: 0 <= i < |ids| ==> (conf.rep[i].None? <==> ids[i] < 0)
    ensures forall i :: 0 <= i < |ids| && ids[i] >= 0 ==> conf.rep[i] == Some(types[ids[i]])
  {
    Sequence2D(seq(|ids|, i requires 0 <= i < |ids| => if ids[i] >= 0 then Some(types[ids[i]]) else None), cols)
  }

  /**
   * With pairwise different coil types, two id lists give the same grid exactly when they agree on every
   * position up to the choice of negative id: the id list is the grid's full description.
   */
  lemma IdsToCoilsInjective(types: seq<DynamoCoil>, a: seq<int>, b: seq<int>, cols: int)
    requires forall i, j :: 0 <= i < j < |types| ==> types[i] != types[j]
    requires IdsInRange(types, a) && IdsInRange(types, b)
    ensures IdsToCoils(types, a, cols) == IdsToCoils(types, b, cols) <==>
      |a| == |b| && forall i :: 0 <= i < |a| ==> a[i] == b[i] || (a[i] < 0 && b[i] < 0)
  {
    var ca, cb := IdsToCoils(types, a, cols), IdsToCoils(types, b, cols);
    if ca == cb {
      assert |a| == |ca.rep| == |cb.rep| == |b|;
      forall i | 0 <= i < |a|
        ensures a[i] == b[i] || (a[i] < 0 && b[i] < 0)
      {
        assert ca.rep[i] == cb.rep[i];
        if a[i] >= 0 && b[i] >= 0 {
          assert types[a[i]] == types[b[i]];
        }
      }
    }
    if |a| == |b| && forall i :: 0 <= i < |a| ==> a[i] == b[i] || (a[i] < 0 && b[i] < 0) {
      assert ca.rep == cb.rep;
    }
  }

  /** A square grid has `cols` rows. */
  lemma SquareRows(conf: Configuration)
    requires Square(conf) && conf.cols > 0
    ensures conf.Rows() == conf.cols
  {
    IndexArith.DivModUnique(conf.cols * conf.cols, conf.cols, conf.cols, 0);
  }

  /** `configuration[x, y]` for an in-range `(x, y)`. */
  function Cell(conf: Configuration, x: int, y: int): Option<DynamoCoil>
    requires Square(conf) && 0 <= x < conf.cols && 0 <= y < conf.cols
  {
    SquareRows(conf);
    conf.At(x, y)
  }

  /** The name of the coil in a cell, `None` for an empty cell. */
  function NameIn(c: Option<DynamoCoil>): Option<string> {
    if c.Some? then Some(c.value.name) else None
  }

  // ---------------------------------------------------------------------------------------------
  // Centred bearings

  /**
   * The centred-bearings check on a square grid: every cell passes `Shaft.BearingOk`, so bearings fill exactly
   * the centred block of the shaft (see `Shaft.BearingOkCentred`).
   */
  predicate BearingsHold(conf: Configuration, shaftWidth: int)
    requires Square(conf)
  {
    forall x, y :: 0 <= x < conf.cols && 0 <= y < conf.cols ==>
      Shaft.BearingOk(conf.cols, shaftWidth, x, y, NameIn(Cell(conf, x, y)))
  }

  /** `centered_bearings_constraint`: scan columns, then rows, and stop at the first misplaced or missing bearing. */
  method CenteredBearingsConstraint(types: seq<DynamoCoil>, ids: seq<int>, cols: int, shaftWidth: int)
    returns (ok: bool)
    requires IdsInRange(types, ids) && cols >= 0 && |ids| == cols * cols
    ensures ok == BearingsHold(IdsToCoils(types, ids, cols), shaftWidth)
  {
    var conf := IdsToCoils(types, ids, cols);
    var n := conf.cols;
    for x := 0 to n
      invariant forall x', y' :: 0 <= x' < x && 0 <= y' < n ==>
        Shaft.BearingOk(n, shaftWidth, x', y', NameIn(Cell(conf, x', y')))
    {
      for y := 0 to n
        invariant forall x', y' :: 0 <= x' < x && 0 <= y' < n ==>
          Shaft.BearingOk(n, shaftWidth, x', y', NameIn(Cell(conf, x', y')))
        invariant forall y' :: 0 <= y' < y ==> Shaft.BearingOk(n, shaftWidth, x, y', NameIn(Cell(conf, x, y')))
      {
        var cell := Cell(conf, x, y);
        if n % 2 == 1 {
          var mid := (n - 1) / 2;
          var r := (shaftWidth - 1) / 2;
          if mid - r <= x <= mid + r && mid - r <= y <= mid + r {
            if cell.Some? && cell.value.name != "bearing" {
              assert !Shaft.BearingOk(n, shaftWidth, x, y, NameIn(Cell(conf, x, y)));
              return false;
            }
          } else {
            if cell.Some? {
              if cell.value.name == "bearing" {
                assert !Shaft.BearingOk(n, shaftWidth, x, y, NameIn(Cell(conf, x, y)));
                return false;
              }
            }
          }
        } else {
          var mid := n / 2 - 1;
          var rLeft := shaftWidth / 2 - 1;
          var rRight := shaftWidth / 2;
          if mid - rLeft <= x <= mid + rRight && mid - rLeft <= y <= mid + rRight {
            if cell.Some? && cell.value.name != "bearing" {
              assert !Shaft.BearingOk(n, shaftWidth, x, y, NameIn(Cell(conf, x, y)));
              return false;
            }
          } else {
            if cell.Some? {
              if cell.value.name == "bearing" {
                assert !Shaft.BearingOk(n, shaftWidth, x, y, NameIn(Cell(conf, x, y)));
                return false;
              }
            }
          }
        }
        assert Shaft.BearingOk(n, shaftWidth, x, y, NameIn(Cell(conf, x, y)));
      }
    }
    return true;
  }

  // ---------------------------------------------------------------------------------------------
  // Placement rules

  /** `coil_name`: "incomplete" for an empty cell, the coil's name otherwise. */
  function CoilName(c: Option<DynamoCoil>): (name: string)
    ensures c.None? ==> name == "incomplete"
    ensures c.Some? ==> name == c.value.name
  {
    if c.None? then "incomplete" else c.value.name
  }

  /**
   * The four neighbours of `(x, y)` in the order up, right, down, left, each "wall" past the grid's edge;
   * there is no front or back in two dimensions.
   */
  function NeighboursAt(conf: Configuration, x: int, y: int): UPR.Neighbours
    requires Square(conf) && 0 <= x < conf.cols && 0 <= y < conf.cols
  {
    var n := conf.cols;
    UPR.Neighbours(
      if y > 0 then CoilName(Cell(conf, x, y - 1)) else "wall",
      if x < n - 1 then CoilName(Cell(conf, x + 1, y)) else "wall",
      if y < n - 1 then CoilName(Cell(conf, x, y + 1)) else "wall",
      if x > 0 then CoilName(Cell(conf, x - 1, y)) else "wall",
      None, None)
  }

  /**
   * Neighbourhood is mutual: the cell above `(x, y)` sees `(x, y)` below it, the cell to its left sees it on
   * its right; and the sides on the grid's edge are walls.
   */
  lemma NeighbourDuality(conf: Configuration, x: int, y: int)
    requires Square(conf) && 0 <= x < conf.cols && 0 <= y < conf.cols
    ensures y > 0 ==> (NeighboursAt(conf, x, y).up == CoilName(Cell(conf, x, y - 1))
      && NeighboursAt(conf, x, y - 1).down == CoilName(Cell(conf, x, y)))
    ensures x > 0 ==> (NeighboursAt(conf, x, y).left == CoilName(Cell(conf, x - 1, y))
      && NeighboursAt(conf, x - 1, y).right == CoilName(Cell(conf, x, y)))
    ensures y == 0 ==> NeighboursAt(conf, x, y).up == "wall"
    ensures y == conf.cols - 1 ==> NeighboursAt(conf, x, y).down == "wall"
    ensures x == 0 ==> NeighboursAt(conf, x, y).left == "wall"
    ensures x == conf.cols - 1 ==> NeighboursAt(conf, x, y).right == "wall"
  {
  }

  /** An empty cell passes; a coil passes when its placement rule accepts its neighbours. */
  predicate Placed(conf: Configuration, x: int, y: int)
    requires Square(conf) && 0 <= x < conf.cols && 0 <= y < conf.cols
  {
    Cell(conf, x, y).None? || UPR.Holds(Cell(conf, x, y).value.placementRule, NeighboursAt(conf, x, y))
  }

  /** The placement-rule check: every cell passes. */
  predicate PlacementHolds(conf: Configuration)
    requires Square(conf)
  {
    forall x, y :: 0 <= x < conf.cols && 0 <= y < conf.cols ==> Placed(conf, x, y)
  }

  /** `placement_rule_constraint`: scan columns, then rows, and stop at the first coil whose rule rejects. */
  method PlacementRuleConstraint(types: seq<DynamoCoil>, ids: seq<int>, cols: int) returns (ok: bool)
    requires IdsInRange(types, ids) && cols >= 0 && |ids| == cols * cols
    ensures ok == PlacementHolds(IdsToCoils(types, ids, cols))
  {
    var conf := IdsToCoils(types, ids, cols);
    var n := conf.cols;
    for x := 0 to n
      invariant forall x', y' :: 0 <= x' < x && 0 <= y' < n ==> Placed(conf, x', y')
    {
      for y := 0 to n
        invariant forall x', y' :: 0 <= x' < x && 0 <= y' < n ==> Placed(conf, x', y')
        invariant forall y' :: 0 <= y' < y ==> Placed(conf, x, y')
      {
        var up := if y > 0 then CoilName(Cell(conf, x, y - 1)) else "wall";
        var right := if x < n - 1 then CoilName(Cell(conf, x + 1, y)) else "wall";
        var down := if y < n - 1 then CoilName(Cell(conf, x, y + 1)) else "wall";
        var left := if x > 0 then CoilName(Cell(conf, x - 1, y)) else "wall";
        var cell := Cell(conf, x, y);
        if cell.Some? {
          var accepted := UPR.Call(cell.value.placementRule, UPR.Neighbours(up, right, down, left, None, None));
          if !accepted {
            assert !Placed(conf, x, y);
            return false;
          }
        }
        assert Placed(conf, x, y);
      }
    }
    return true;
  }

  // ---------------------------------------------------------------------------------------------
  // Pruning: filling empty cells never rescues a rejected grid

  /** `b` keeps every coil of `a` and may fill some of its empty cells. */
  predicate ConfRefines(a: Configuration, b: Configuration) {
    a.cols == b.cols && Refines(a.rep, b.rep)
  }

  /** Replacing negative ids by coil ids refines the grid. */
  lemma IdsRefineConf(types: seq<DynamoCoil>, a: seq<int>, b: seq<int>, cols: int)
    requires IdsInRange(types, a) && IdsInRange(types, b) && |a| == |b|
    requires forall i :: 0 <= i < |a| && a[i] >= 0 ==> b[i] == a[i]
    ensures ConfRefines(IdsToCoils(types, a, cols), IdsToCoils(types, b, cols))
  {
  }

  /** A grid the centred-bearings check rejects stays rejected however its empty cells are filled. */
  lemma BearingsRejectionKept(a: Configuration, b: Configuration, shaftWidth: int)
    requires Square(a) && ConfRefines(a, b) && !BearingsHold(a, shaftWidth)
    ensures Square(b) && !BearingsHold(b, shaftWidth)
  {
    var x, y :| 0 <= x < a.cols && 0 <= y < a.cols && !Shaft.BearingOk(a.cols, shaftWidth, x, y, NameIn(Cell(a, x, y)));
    SquareRows(a);
    Sequence2DIndexRange(a, x, y);
    assert Cell(b, x, y) == Cell(a, x, y);
  }

  /** A refinement keeps every coil of the grid in its place. */
  lemma CellKept(a: Configuration, b: Configuration, x: int, y: int)
    requires Square(a) && ConfRefines(a, b) && 0 <= x < a.cols && 0 <= y < a.cols
    ensures Square(b) && (Cell(a, x, y).Some? ==> Cell(b, x, y) == Cell(a, x, y))
  {
    SquareRows(a);
    Sequence2DIndexRange(a, x, y);
  }

  /** Neighbours agree side by side, except where the first reports "incomplete". */
  lemma CompletesBySide(na: UPR.Neighbours, nb: UPR.Neighbours)
    requires na.up != "incomplete" ==> nb.up == na.up
    requires na.right != "incomplete" ==> nb.right == na.right
    requires na.down != "incomplete" ==> nb.down == na.down
    requires na.left != "incomplete" ==> nb.left == na.left
    requires na.front == nb.front && na.back == nb.back
    ensures UPR.CompletesNeighbours(na, nb)
  {
    var ca, cb := UPR.Components(na), UPR.Components(nb);
    assert ca == [Some(na.up), Some(na.right), Some(na.down), Some(na.left), na.front, na.back];
    assert cb == [Some(nb.up), Some(nb.right), Some(nb.down), Some(nb.left), nb.front, nb.back];
  }

  /** A refinement keeps every neighbour name except the "incomplete" ones. */
  lemma NeighboursCompleted(a: Configuration, b: Configuration, x: int, y: int)
    requires Square(a) && ConfRefines(a, b) && 0 <= x < a.cols && 0 <= y < a.cols
    ensures Square(b) && UPR.CompletesNeighbours(NeighboursAt(a, x, y), NeighboursAt(b, x, y))
  {
    var n := a.cols;
    var na, nb := NeighboursAt(a, x, y), NeighboursAt(b, x, y);
    if y > 0 { CellKept(a, b, x, y - 1); }
    assert na.up != "incomplete" ==> nb.up == na.up;
    if x < n - 1 { CellKept(a, b, x + 1, y); }
    assert na.right != "incomplete" ==> nb.right == na.right;
    if y < n - 1 { CellKept(a, b, x, y + 1); }
    assert na.down != "incomplete" ==> nb.down == na.down;
    if x > 0 { CellKept(a, b, x - 1, y); }
    assert na.left != "incomplete" ==> nb.left == na.left;
    CompletesBySide(na, nb);
  }

  /** A grid the placement-rule check rejects stays rejected however its empty cells are filled. */
  lemma PlacementRejectionKept(a: Configuration, b: Configuration)
    requires Square(a) && ConfRefines(a, b) && !PlacementHolds(a)
    ensures Square(b) && !PlacementHolds(b)
  {
    var x, y :| 0 <= x < a.cols && 0 <= y < a.cols && !Placed(a, x, y);
    CellKept(a, b, x, y);
    NeighboursCompleted(a, b, x, y);
    UPR.RejectionKept(Cell(a, x, y).value.placementRule, NeighboursAt(a, x, y), NeighboursAt(b, x, y));
    assert !Placed(b, x, y);
  }

  // ---------------------------------------------------------------------------------------------
  // Efficiency

  /** A present coil's conductivity when positive, 0 otherwise. */
  function Contribution(c: Option<DynamoCoil>): real {
    if c.Some? && c.value.conductivity > 0.0 then c.value.conductivity else 0.0
  }

  /** The sum of the positive conductivities. */
  function PositiveSum(cs: seq<Option<DynamoCoil>>): real {
    if |cs| == 0 then 0.0 else PositiveSum(cs[..|cs| - 1]) + Contribution(cs[|cs| - 1])
  }

  /** The number of coils with a positive conductivity. */
  function PositiveCount(cs: seq<Option<DynamoCoil>>): nat {
    if |cs| == 0 then 0
    else PositiveCount(cs[..|cs| - 1]) + (if Contribution(cs[|cs| - 1]) > 0.0 then 1 else 0)
  }

  /** The mean of the positive conductivities, 0 when there are none. */
  function Efficiency(cs: seq<Option<DynamoCoil>>): real {
    var n := PositiveCount(cs);
    if n > 0 then PositiveSum(cs) / (n as real) else 0.0
  }

  /**
   * `total_efficiency`: sum and count the positive conductivities. It reads `.conductivity` of every cell, so an
   * empty cell raises `AttributeError`.
   */
  method TotalEfficiency(conf: Configuration) returns (r: Result<real>)
    ensures r.Err? <==> exists i :: 0 <= i < |conf.rep| && conf.rep[i].None?
    ensures r.Err? ==> r.error == AttributeError("conductivity")
    ensures r.Ok? ==> r.value == Efficiency(conf.rep)
  {
    var cs := conf.rep;
    var total := 0.0;
    var count := 0;
    for i := 0 to |cs|
      invariant total == PositiveSum(cs[..i]) && count == PositiveCount(cs[..i])
      invariant forall j :: 0 <= j < i ==> cs[j].Some?
    {
      assert cs[..i + 1][..i] == cs[..i];
      if cs[i].None? {
        return Err(AttributeError("conductivity"));
      }
      if cs[i].value.conductivity > 0.0 {
        total := total + cs[i].value.conductivity;
        count := count + 1;
      }
    }
    assert cs[..|cs|] == cs;
    if count > 0 {
      return Ok(total / (count as real));
    }
    return Ok(0.0);
  }

  /** The sum is never negative, and positive exactly when some coil is counted. */
  lemma {:induction false} SumSign(cs: seq<Option<DynamoCoil>>)
    ensures PositiveSum(cs) >= 0.0
    ensures PositiveSum(cs) > 0.0 <==> PositiveCount(cs) > 0
  {
    if |cs| > 0 {
      SumSign(cs[..|cs| - 1]);
    }
  }

  /**
   * Sum and count agree: when every positive conductivity lies in `[lo, hi]`, the sum lies between `lo` and
   * `hi` times the count.
   */
  lemma {:induction false} SumBounds(cs: seq<Option<DynamoCoil>>, lo: real, hi: real)
    requires forall i :: 0 <= i < |cs| && Contribution(cs[i]) > 0.0 ==> lo <= Contribution(cs[i]) <= hi
    ensures lo * (PositiveCount(cs) as real) <= PositiveSum(cs) <= hi * (PositiveCount(cs) as real)
  {
    if |cs| > 0 {
      var init := cs[..|cs| - 1];
      SumBounds(init, lo, hi);
      var n := PositiveCount(init) as real;
      if Contribution(cs[|cs| - 1]) > 0.0 {
        assert lo * (n + 1.0) == lo * n + lo;
        assert hi * (n + 1.0) == hi * n + hi;
      }
    }
  }

  /** The efficiency is never negative, and positive exactly when some present coil conducts. */
  lemma EfficiencySign(cs: seq<Option<DynamoCoil>>)
    ensures Efficiency(cs) >= 0.0
    ensures Efficiency(cs) > 0.0 <==> exists i :: 0 <= i < |cs| && Contribution(cs[i]) > 0.0
  {
    SumSign(cs);
    CountMeansSome(cs);
    var n := PositiveCount(cs);
    if n > 0 {
      MeanPositive(PositiveSum(cs), n as real);
    }
  }

  /** The efficiency is the mean of the positive conductivities, so it lies within any bounds on them. */
  lemma EfficiencyWithin(cs: seq<Option<DynamoCoil>>, lo: real, hi: real)
    requires forall i :: 0 <= i < |cs| && Contribution(cs[i]) > 0.0 ==> lo <= Contribution(cs[i]) <= hi
    ensures PositiveCount(cs) > 0 ==> lo <= Efficiency(cs) <= hi
  {
    SumBounds(cs, lo, hi);
    var n := PositiveCount(cs);
    if n > 0 {
      MeanAtLeast(PositiveSum(cs), n as real, lo);
      MeanAtMost(PositiveSum(cs), n as real, hi);
    }
  }

  /** A sum of at least `lo` times a positive count has a mean of at least `lo`. */
  lemma MeanAtLeast(s: real, n: real, lo: real)
    requires n > 0.0 && lo * n <= s
    ensures lo <= s / n
  {
    var e := s / n;
    assert e * n == s;
    assert (e - lo) * n == s - lo * n;
    ProductSign(e - lo, n);
  }

  /** A sum of at most `hi` times a positive count has a mean of at most `hi`. */
  lemma MeanAtMost(s: real, n: real, hi: real)
    requires n > 0.0 && s <= hi * n
    ensures s / n <= hi
  {
    var e := s / n;
    assert e * n == s;
    assert (hi - e) * n == hi * n - s;
    ProductSign(hi - e, n);
  }

  /** A positive sum over a positive count has a positive mean. */
  lemma MeanPositive(s: real, n: real)
    requires n > 0.0
    ensures s > 0.0 ==> s / n > 0.0
  {
    var e := s / n;
    assert e * n == s;
    ProductSign(e, n);
  }

  /** A product with a positive factor has the sign of the other factor. */
  lemma ProductSign(a: real, b: real)
    requires b > 0.0
    ensures a * b >= 0.0 ==> a >= 0.0
    ensures a * b > 0.0 ==> a > 0.0
  {
  }

  /** Some coil is counted exactly when some coil conducts. */
  lemma {:induction false} CountMeansSome(cs: seq<Option<DynamoCoil>>)
    ensures PositiveCount(cs) > 0 <==> exists i :: 0 <= i < |cs| && Contribution(cs[i]) > 0.0
  {
    if |cs| > 0 {
      var init := cs[..|cs| - 1];
      CountMeansSome(init);
      if exists i :: 0 <= i < |init| && Contribution(init[i]) > 0.0 {
        var i :| 0 <= i < |init| && Contribution(init[i]) > 0.0;
        assert Contribution(cs[i]) > 0.0;
      }
      if exists i :: 0 <= i < |cs| && Contribution(cs[i]) > 0.0 {
        var i :| 0 <= i < |cs| && Contribution(cs[i]) > 0.0;
        if i < |cs| - 1 {
          assert Contribution(init[i]) > 0.0;
        }
      }
    }
  }

  /** With the standard catalogue a grid holding some metal scores between 0.88 (magnesium) and 1.12 (silver). */
  lemma CatalogueEfficiency(ids: seq<int>, cols: int)
    requires IdsInRange(DynamoCoilTypes, ids)
    requires exists i :: 0 <= i < |ids| && ids[i] >= 3
    ensures 0.88 <= Efficiency(IdsToCoils(DynamoCoilTypes, ids, cols).rep) <= 1.12
  {
    var cs := IdsToCoils(DynamoCoilTypes, ids, cols).rep;
    CatalogueShape();
    forall i | 0 <= i < |cs| && Contribution(cs[i]) > 0.0
      ensures 0.88 <= Contribution(cs[i]) <= 1.12
    {
      assert 3 <= ids[i] < 9;
    }
    var k :| 0 <= k < |ids| && ids[k] >= 3;
    assert Contribution(cs[k]) > 0.0;
    CountMeansSome(cs);
    EfficiencyWithin(cs, 0.88, 1.12);
  }

  // ---------------------------------------------------------------------------------------------
  // The generator's constraint list

  /** One entry of the constraint list `design_generator` hands to the optimiser. */
  datatype Check =
    | CenteredBearingsCheck(shaftWidth: int)
    | PlacementCheck
    | UserCheck(constraint: UtilsConstraints.Constraint)

  /** `list(configuration)` as the caller's constraints see it: each coil known by its name. */
  function AsList(conf: Configuration): (l: seq<Option<UtilsConstraints.Component>>)
    ensures |l| == |conf.rep|
    ensures forall i :: 0 <= i < |l| ==> (l[i].Some? <==> conf.rep[i].Some?)
    ensures forall i :: 0 <= i < |l| && l[i].Some? ==> l[i].value.name == conf.rep[i].value.name
  {
    seq(|conf.rep|, i requires 0 <= i < |conf.rep| =>
      if conf.rep[i].Some? then Some(UtilsConstraints.Component(conf.rep[i].value.name)) else None)
  }

  /** Whether one entry of the list accepts the grid. */
  predicate CheckHolds(conf: Configuration, check: Check)
    requires Square(conf)
  {
    match check
    case CenteredBearingsCheck(w) => BearingsHold(conf, w)
    case PlacementCheck => PlacementHolds(conf)
    case UserCheck(c) => UtilsConstraints.Holds(c, AsList(conf))
  }

  /** Whether every entry of the list accepts the grid. */
  predicate AllHold(conf: Configuration, checks: seq<Check>)
    requires Square(conf)
  {
    forall i :: 0 <= i < |checks| ==> CheckHolds(conf, checks[i])
  }

  /**
   * The list as written: the lambdas `lambda seq: constraint(...)` built in a comprehension all read the loop
   * variable after the loop has ended, so every one of them applies the LAST caller constraint.
   */
  function ChecksAsWritten(shaftWidth: int, user: seq<UtilsConstraints.Constraint>): (checks: seq<Check>)
    ensures |checks| == 2 + |user|
  {
    [CenteredBearingsCheck(shaftWidth), PlacementCheck]
      + seq(|user|, k requires 0 <= k < |user| => UserCheck(user[|user| - 1]))
  }

  /** The list as intended: the centred-bearings check, the placement-rule check, then each caller constraint. */
  function Checks(shaftWidth: int, user: seq<UtilsConstraints.Constraint>): (checks: seq<Check>)
    ensures |checks| == 2 + |user|
  {
    [CenteredBearingsCheck(shaftWidth), PlacementCheck] + seq(|user|, k requires 0 <= k < |user| => UserCheck(user[k]))
  }

  /** The intended list accepts exactly the grids that pass both checks and every caller constraint. */
  lemma ChecksMeaning(conf: Configuration, shaftWidth: int, user: seq<UtilsConstraints.Constraint>)
    requires Square(conf)
    ensures AllHold(conf, Checks(shaftWidth, user)) <==>
      BearingsHold(conf, shaftWidth) && PlacementHolds(conf)
      && forall k :: 0 <= k < |user| ==> UtilsConstraints.Holds(user[k], AsList(conf))
  {
    var checks := Checks(shaftWidth, user);
    assert CheckHolds(conf, checks[0]) == BearingsHold(conf, shaftWidth);
    assert CheckHolds(conf, checks[1]) == PlacementHolds(conf);
    if forall k :: 0 <= k < |user| ==> UtilsConstraints.Holds(user[k], AsList(conf)) {
      forall i | 2 <= i < |checks|
        ensures CheckHolds(conf, checks[i])
      {
        assert checks[i] == UserCheck(user[i - 2]);
      }
    }
    if AllHold(conf, checks) {
      forall k | 0 <= k < |user|
        ensures UtilsConstraints.Holds(user[k], AsList(conf))
      {
        assert CheckHolds(conf, checks[k + 2]);
      }
    }
  }

  /** The list as written checks only the last caller constraint, as often as there are caller constraints. */
  lemma ChecksAsWrittenMeaning(conf: Configuration, shaftWidth: int, user: seq<UtilsConstraints.Constraint>)
    requires Square(conf)
    ensures AllHold(conf, ChecksAsWritten(shaftWidth, user)) <==>
      BearingsHold(conf, shaftWidth) && PlacementHolds(conf)
      && (|user| > 0 ==> UtilsConstraints.Holds(user[|user| - 1], AsList(conf)))
  {
    var checks := ChecksAsWritten(shaftWidth, user);
    assert CheckHolds(conf, checks[0]) == BearingsHold(conf, shaftWidth);
    assert CheckHolds(conf, checks[1]) == PlacementHolds(conf);
    if |user| > 0 {
      assert checks[2] == UserCheck(user[|user| - 1]);
      if UtilsConstraints.Holds(user[|user| - 1], AsList(conf)) {
        forall i | 2 <= i < |checks|
          ensures CheckHolds(conf, checks[i])
        {
          assert checks[i] == UserCheck(user[|user| - 1]);
        }
      }
    }
  }

  /**
   * A one-cell grid holding a casing, with no shaft and the caller constraints "at most 0 casings" then "no
   * limit": the list as written accepts it, the intended list rejects it.
   */
  lemma LateBindingCounterexample()
    ensures var conf := IdsToCoils(DynamoCoilTypes, [0], 1);
      var user := [UtilsConstraints.MaxQuantity("casing", 0), UtilsConstraints.Base];
      Square(conf) && AllHold(conf, ChecksAsWritten(0, user)) && !AllHold(conf, Checks(0, user))
  {
    var conf := IdsToCoils(DynamoCoilTypes, [0], 1);
    var user := [UtilsConstraints.MaxQuantity("casing", 0), UtilsConstraints.Base];
    SquareRows(conf);
    assert Cell(conf, 0, 0) == Some(Casing);
    assert !Shaft.InBlock(1, 0, 0, 0);
    assert BearingsHold(conf, 0);
    assert PlacementHolds(conf);
    ChecksAsWrittenMeaning(conf, 0, user);
    ChecksMeaning(conf, 0, user);
    var names := UtilsConstraints.Names(AsList(conf));
    assert names == [Some("casing")];
    assert Count(names, Some("casing")) == 1;
    assert !UtilsConstraints.Holds(user[0], AsList(conf));
    assert UtilsConstraints.Holds(user[|user| - 1], AsList(conf));
    assert AllHold(conf, ChecksAsWritten(0, user));
    assert !AllHold(conf, Checks(0, user));
  }
}
