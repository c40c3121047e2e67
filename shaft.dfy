/**
 * The bearing block of the centred-bearings checks: a square of bearings around the middle of an `n`-wide
 * grid for a shaft of width `w`, located with offsets that depend on the parity of `n`.
 */
module Shaft {
  import opened Wrappers

  /** The block test as the checks compute it, with Python's floor division (Euclidean for divisor 2). */
  predicate InBlock(n: int, w: int, x: int, y: int) {
    if n % 2 == 1 then
      var mid := (n - 1) / 2;
      var r := (w - 1) / 2;
      mid - r <= x <= mid + r && mid - r <= y <= mid + r
    else
      var mid := n / 2 - 1;
      var rLeft := w / 2 - 1;
      var rRight := w / 2;
      mid - rLeft <= x <= mid + rRight && mid - rLeft <= y <= mid + rRight
  }

  /** The side of the block: the shaft width when it has the grid's parity, one less otherwise. */
  function Side(n: int, w: int): int {
    if n % 2 == w % 2 then w else w - 1
  }

  /** The first row and column of a block of side `Side(n, w)` placed in the middle of the grid. */
  function Lo(n: int, w: int): int {
    (n - Side(n, w)) / 2
  }

  /**
   * The block is the centred square of side `Side(n, w)`: it starts as far from one edge as it ends from the
   * other, since `n - Side(n, w)` is even.
   */
  lemma BlockIsCentredSquare(n: int, w: int, x: int, y: int)
    ensures (n - Side(n, w)) % 2 == 0
    ensures InBlock(n, w, x, y) <==>
      Lo(n, w) <= x < Lo(n, w) + Side(n, w) && Lo(n, w) <= y < Lo(n, w) + Side(n, w)
  {
    var a, pn := n / 2, n % 2;
    var b, pw := w / 2, w % 2;
    assert n == 2 * a + pn && w == 2 * b + pw;
    if pn == 1 {
      assert (n - 1) / 2 == a;
      if pw == 1 {
        assert (w - 1) / 2 == b;
        assert Lo(n, w) == a - b;
      } else {
        assert (w - 1) / 2 == b - 1;
        assert Lo(n, w) == a - b + 1;
      }
    } else {
      if pw == 1 {
        assert Lo(n, w) == a - b;
      } else {
        assert Lo(n, w) == a - b;
      }
    }
  }

  /** With a shaft of width 0 no cell is in the block. */
  lemma NoShaftNoBlock(n: int, x: int, y: int)
    ensures !InBlock(n, 0, x, y)
  {
    BlockIsCentredSquare(n, 0, x, y);
  }

  /** A shaft no wider than the grid keeps the block inside the grid. */
  lemma BlockInGrid(n: int, w: int, x: int, y: int)
    requires 0 <= w <= n && InBlock(n, w, x, y)
    ensures 0 <= x < n && 0 <= y < n
  {
    BlockIsCentredSquare(n, w, x, y);
  }

  /**
   * What a centred-bearings check demands of the cell `(x, y)` holding the component called `name` (`None`
   * when empty): an empty cell always passes; inside the block only a bearing, outside it anything but one.
   */
  predicate BearingOk(n: int, w: int, x: int, y: int, name: Option<string>) {
    name.None? || (if InBlock(n, w, x, y) then name.value == "bearing" else name.value != "bearing")
  }

  /**
   * A cell passes exactly when it is empty, or when it holds a bearing if and only if it lies in the centred
   * square of side `Side(n, w)`.
   */
  lemma BearingOkCentred(n: int, w: int, x: int, y: int, name: Option<string>)
    ensures BearingOk(n, w, x, y, name) <==>
      name.None? || (name.value == "bearing" <==>
        Lo(n, w) <= x < Lo(n, w) + Side(n, w) && Lo(n, w) <= y < Lo(n, w) + Side(n, w))
  {
    BlockIsCentredSquare(n, w, x, y);
  }
}
