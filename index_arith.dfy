/** Products of dimension tuples and the facts about Euclidean division the index maps rest on. */
module IndexArith {

  /** `math.prod(dims)`: 1 for the empty tuple; positive when every dimension is. */
  function Prod(dims: seq<int>): (p: int)
    ensures AllPositive(dims) ==> p > 0
  {
    if |dims| == 0 then 1 else dims[0] * Prod(dims[1..])
  }

  predicate AllPositive(dims: seq<int>) {
    forall i :: 0 <= i < |dims| ==> dims[i] > 0
  }

  /** A tuple key that lies inside the grid: one coordinate per dimension, each in range. */
  predicate InBounds(dims: seq<int>, key: seq<int>) {
    |key| == |dims| && forall i :: 0 <= i < |dims| ==> 0 <= key[i] < dims[i]
  }

  /** The product of a concatenation is the product of the products. */
  lemma {:induction false} ProdAppend(a: seq<int>, b: seq<int>)
    ensures Prod(a + b) == Prod(a) * Prod(b)
  {
    if |a| > 0 {
      assert (a + b)[1..] == a[1..] + b;
      ProdAppend(a[1..], b);
      calc {
        Prod(a + b);
        a[0] * Prod(a[1..] + b);
        a[0] * (Prod(a[1..]) * Prod(b));
        (a[0] * Prod(a[1..])) * Prod(b);
      }
    } else {
      assert a + b == b;
    }
  }

  /** Splitting off the last dimension. */
  lemma ProdSnoc(dims: seq<int>)
    requires |dims| > 0
    ensures Prod(dims) == Prod(dims[..|dims| - 1]) * dims[|dims| - 1]
  {
    var n := |dims|;
    assert dims == dims[..n - 1] + [dims[n - 1]];
    ProdAppend(dims[..n - 1], [dims[n - 1]]);
    assert Prod([dims[n - 1]]) == dims[n - 1] * Prod([]);
  }

  /** Splitting a suffix product at position i. */
  lemma ProdSplit(dims: seq<int>, i: int, j: int)
    requires 0 <= i <= j <= |dims|
    ensures Prod(dims[i..]) == Prod(dims[i..j]) * Prod(dims[j..])
  {
    assert dims[i..] == dims[i..j] + dims[j..];
    ProdAppend(dims[i..j], dims[j..]);
  }

  /** Multiplying by a factor of at least one does not shrink a non-negative number. */
  lemma MulAtLeast(a: int, b: int)
    requires a >= 1 && b >= 0
    ensures a * b >= b
  {
    assert a * b == (a - 1) * b + b;
    assert (a - 1) * b >= 0;
  }

  /** Euclidean division by a positive divisor. */
  lemma DivMod(k: int, b: int)
    requires b > 0
    ensures k == (k / b) * b + k % b && 0 <= k % b < b
  {
  }

  /** A mixed-radix digit followed by a smaller remainder stays below the next radix position. */
  lemma MixedRadix(a: int, d: int, p: int, rest: int)
    requires 0 <= a < d && p > 0 && 0 <= rest < p
    ensures 0 <= a * p + rest < d * p
  {
    assert a * p + rest < (a + 1) * p;
    assert (a + 1) * p <= d * p by {
      MulAtLeast(d - a, p);
      assert d * p - (a + 1) * p == (d - a - 1) * p;
    }
  }

  /** Quotient and remainder are unique: they are the ones Dafny's `/` and `%` give. */
  lemma {:induction false} DivModUnique(k: int, b: int, q: int, r: int)
    requires b > 0 && 0 <= r < b && k == q * b + r
    ensures k / b == q && k % b == r
  {
    var q0, r0 := k / b, k % b;
    assert k == q0 * b + r0;
    if q0 < q {
      MulAtLeast(q - q0, b);
      assert false;
    } else if q < q0 {
      MulAtLeast(q0 - q, b);
      assert false;
    }
  }

  /** A remainder below `a * b`, divided by `b`, is below `a`. */
  lemma DivBelow(r: int, a: int, b: int)
    requires b > 0 && 0 <= r < a * b
    ensures 0 <= r / b < a
  {
    var q := r / b;
    assert r == q * b + r % b;
  }

  /** Reducing modulo a multiple of `b` first does not change the remainder modulo `b`. */
  lemma ModOfMod(k: int, a: int, b: int)
    requires a > 0 && b > 0
    ensures (k % (a * b)) % b == k % b
  {
    var r := k % (a * b);
    var q := k / (a * b);
    assert k == q * (a * b) + r;
    assert k == (q * a + r / b) * b + r % b by {
      assert r == (r / b) * b + r % b;
      assert q * (a * b) == (q * a) * b;
      assert (q * a + r / b) * b == (q * a) * b + (r / b) * b;
    }
    DivModUnique(k, b, q * a + r / b, r % b);
  }
}
