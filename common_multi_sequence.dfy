/**
 * Multidimensional lists of `common/multi_sequence.py`: a `MultiSequence` whose tuple keys are
 * first-index-fastest (the opposite of the row-major core module), and a two-dimensional
 * `Sequence2D` addressed by `(x, y)`.
 */
module CommonMultiSequence {
  import opened Wrappers
  import opened IndexArith

  /** A flat list viewed through `dims`, the first coordinate varying fastest. */
  datatype MultiSequence<E> = MultiSequence(items: seq<E>, dims: seq<int>) {
    predicate Valid() {
      AllPositive(dims) && Prod(dims) == |items|
    }
  }

  /** The constructor: fails its assertion unless the product of the dimensions is the flat length. */
  function New<E>(items: seq<E>, dims: seq<int>): (r: Option<MultiSequence<E>>)
    ensures r.Some? <==> Prod(dims) == |items|
    ensures r.Some? ==> r.value.items == items && r.value.dims == dims
  {
    if Prod(dims) == |items| then Some(MultiSequence(items, dims)) else None
  }

  /** The flat index of a tuple key: the sum of `key[i] * prod(dims[:i])`, written as the sum up to the last term. */
  function FlatIndex(dims: seq<int>, key: seq<int>): int
    requires |key| == |dims|
  {
    if |dims| == 0 then 0
    else
      var n := |dims| - 1;
      FlatIndex(dims[..n], key[..n]) + key[n] * Prod(dims[..n])
  }

  /** `MultiSequence.__getitem__` with a tuple key. */
  function At<E>(ms: MultiSequence<E>, key: seq<int>): E
    requires ms.Valid() && InBounds(ms.dims, key)
  {
    FlatIndexRange(ms.dims, key);
    ms.items[FlatIndex(ms.dims, key)]
  }

  /** `__getitem__` with an integer key, for both classes: the flat element (negative keys count from the end). */
  function AtIndex<E>(items: seq<E>, i: int): (e: E)
    requires -|items| <= i < |items|
    ensures 0 <= i ==> e == items[i]
    ensures i < 0 ==> e == items[|items| + i]
  {
    if i < 0 then items[|items| + i] else items[i]
  }

  /** For in-range tuples the first-index-fastest flat index lies in `[0, len)`. */
  lemma {:induction false} FlatIndexRange(dims: seq<int>, key: seq<int>)
    requires AllPositive(dims) && InBounds(dims, key)
    ensures 0 <= FlatIndex(dims, key) < Prod(dims)
  {
    if |dims| > 0 {
      var n := |dims| - 1;
      assert AllPositive(dims[..n]) && InBounds(dims[..n], key[..n]);
      FlatIndexRange(dims[..n], key[..n]);
      ProdSnoc(dims);
      MixedRadix(key[n], dims[n], Prod(dims[..n]), FlatIndex(dims[..n], key[..n]));
    }
  }

  /** Distinct in-range tuples have distinct flat indices. */
  lemma {:induction false} FlatIndexInjective(dims: seq<int>, a: seq<int>, b: seq<int>)
    requires AllPositive(dims) && InBounds(dims, a) && InBounds(dims, b)
    requires FlatIndex(dims, a) == FlatIndex(dims, b)
    ensures a == b
  {
    if |dims| > 0 {
      var n := |dims| - 1;
      var p := Prod(dims[..n]);
      assert AllPositive(dims[..n]) && InBounds(dims[..n], a[..n]) && InBounds(dims[..n], b[..n]);
      FlatIndexRange(dims[..n], a[..n]);
      FlatIndexRange(dims[..n], b[..n]);
      var k := FlatIndex(dims, a);
      DivModUnique(k, p, a[n], FlatIndex(dims[..n], a[..n]));
      DivModUnique(k, p, b[n], FlatIndex(dims[..n], b[..n]));
      FlatIndexInjective(dims[..n], a[..n], b[..n]);
      assert a == a[..n] + [a[n]] && b == b[..n] + [b[n]];
    }
  }

  /** A flat list shown as a grid with `cols` columns. */
  datatype Sequence2D<E> = Sequence2D(rep: seq<E>, cols: int) {

    /** The `rows` property: the flat length divided by the number of columns. */
    function Rows(): int
      requires cols > 0
    {
      |rep| / cols
    }

    /** `__len__`: the total number of elements. */
    function Len(): int {
      |rep|
    }

    /** `(x, y)` lies in a full row of the grid. */
    predicate InGrid(x: int, y: int)
      requires cols > 0
    {
      0 <= x < cols && 0 <= y < Rows()
    }

    /** `__getitem__` with a tuple key `(x, y)`: `rep[y * cols + x]`. */
    function At(x: int, y: int): E
      requires cols > 0 && InGrid(x, y)
    {
      Sequence2DIndexRange(this, x, y);
      rep[y * cols + x]
    }
  }

  /** `rows` times `cols` never exceeds the flat length, and falls short of it by less than one row. */
  lemma RowsCover<E>(g: Sequence2D<E>)
    requires g.cols > 0
    ensures 0 <= g.Rows() * g.cols <= g.Len() < (g.Rows() + 1) * g.cols
  {
    DivMod(|g.rep|, g.cols);
  }

  /** For `0 <= x < cols` and `0 <= y < rows` the index `y * cols + x` is in range. */
  lemma Sequence2DIndexRange<E>(g: Sequence2D<E>, x: int, y: int)
    requires g.cols > 0 && g.InGrid(x, y)
    ensures 0 <= y * g.cols + x < |g.rep|
  {
    RowsCover(g);
    MixedRadix(y, g.Rows(), g.cols, x);
  }

  /** Distinct in-grid pairs address distinct elements. */
  lemma Sequence2DInjective<E>(g: Sequence2D<E>, x1: int, y1: int, x2: int, y2: int)
    requires g.cols > 0 && g.InGrid(x1, y1) && g.InGrid(x2, y2)
    requires y1 * g.cols + x1 == y2 * g.cols + x2
    ensures x1 == x2 && y1 == y2
  {
    DivModUnique(y1 * g.cols + x1, g.cols, y1, x1);
    DivModUnique(y2 * g.cols + x2, g.cols, y2, x2);
  }
}
