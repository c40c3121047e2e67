/**
 * Row-major multidimensional sequences (`core/multi_sequence.py`): a flat list viewed as a grid
 * with dimensions `dims`, the last coordinate varying fastest.
 */
module CoreMultiSequence {
  import opened Wrappers
  import opened IndexArith

  /** A flat list of elements and the grid dimensions it is viewed through. */
  datatype MultiSequence<E> = MultiSequence(items: seq<E>, dims: seq<int>) {
    /** The construction assertion holds, and the dimensions are positive so that the index maps divide. */
    predicate Valid() {
      AllPositive(dims) && Prod(dims) == |items|
    }
  }

  /** A key is either a flat index or a coordinate tuple. */
  datatype Key = IntKey(index: int) | TupleKey(coords: seq<int>)

  /** The constructor: fails its assertion unless the product of the dimensions is the flat length. */
  function New<E>(items: seq<E>, dims: seq<int>): (r: Option<MultiSequence<E>>)
    ensures r.Some? <==> Prod(dims) == |items|
    ensures r.Some? ==> r.value.items == items && r.value.dims == dims
  {
    if Prod(dims) == |items| then Some(MultiSequence(items, dims)) else None
  }

  /** `int_to_tuple`: coordinate i is `(key mod prod(dims[i:])) div prod(dims[i+1:])`. */
  function IntToTuple(dims: seq<int>, key: int): (t: seq<int>)
    requires AllPositive(dims)
    ensures |t| == |dims|
  {
    seq(|dims|, i requires 0 <= i < |dims| =>
      assert AllPositive(dims[i..]) && AllPositive(dims[i + 1..]);
      (key % Prod(dims[i..])) / Prod(dims[i + 1..]))
  }

  /** `tuple_to_int`: coordinate i has stride `prod(dims[i+1:])`. */
  function TupleToInt(dims: seq<int>, key: seq<int>): int
    requires |key| == |dims|
  {
    if |dims| == 0 then 0 else key[0] * Prod(dims[1..]) + TupleToInt(dims[1..], key[1..])
  }

  /** `__getitem__`: an integer key indexes the flat list (negative keys count from the end, as in Python); a tuple key goes through `tuple_to_int`. */
  function At<E>(ms: MultiSequence<E>, key: Key): E
    requires ms.Valid()
    requires key.IntKey? ==> -|ms.items| <= key.index < |ms.items|
    requires key.TupleKey? ==> InBounds(ms.dims, key.coords)
  {
    match key
    case IntKey(i) => if i < 0 then ms.items[|ms.items| + i] else ms.items[i]
    case TupleKey(t) =>
      TupleToIntRange(ms.dims, t);
      ms.items[TupleToInt(ms.dims, t)]
  }

  /** Every coordinate of `int_to_tuple(k)` lies in `[0, dims[i])`, for any integer k. */
  lemma IntToTupleInBounds(dims: seq<int>, key: int)
    requires AllPositive(dims)
    ensures InBounds(dims, IntToTuple(dims, key))
  {
    var t := IntToTuple(dims, key);
    forall i | 0 <= i < |dims|
      ensures 0 <= t[i] < dims[i]
    {
      assert AllPositive(dims[i + 1..]);
      assert dims[i..][1..] == dims[i + 1..];
      assert Prod(dims[i..]) == dims[i] * Prod(dims[i + 1..]);
      DivBelow(key % Prod(dims[i..]), dims[i], Prod(dims[i + 1..]));
    }
  }

  /** For in-range tuples `0 <= tuple_to_int(t) < len`. */
  lemma {:induction false} TupleToIntRange(dims: seq<int>, key: seq<int>)
    requires AllPositive(dims) && InBounds(dims, key)
    ensures 0 <= TupleToInt(dims, key) < Prod(dims)
  {
    if |dims| > 0 {
      var p := Prod(dims[1..]);
      assert AllPositive(dims[1..]) && InBounds(dims[1..], key[1..]);
      TupleToIntRange(dims[1..], key[1..]);
      var rest := TupleToInt(dims[1..], key[1..]);
      MixedRadix(key[0], dims[0], p, rest);
    }
  }

  /** The first coordinate of `int_to_tuple` and the rest, which is `int_to_tuple` over the remaining dimensions. */
  lemma IntToTupleCons(dims: seq<int>, key: int)
    requires AllPositive(dims) && |dims| > 0
    ensures IntToTuple(dims, key)[0] == (key % Prod(dims)) / Prod(dims[1..])
    ensures IntToTuple(dims, key)[1..] == IntToTuple(dims[1..], key % Prod(dims[1..]))
  {
    var t := IntToTuple(dims, key);
    var p1 := Prod(dims[1..]);
    assert AllPositive(dims[1..]);
    var u := IntToTuple(dims[1..], key % p1);
    assert |t[1..]| == |u|;
    forall i | 0 <= i < |u|
      ensures t[1..][i] == u[i]
    {
      assert dims[1..][i..] == dims[i + 1..];
      assert dims[1..][i + 1..] == dims[i + 2..];
      assert AllPositive(dims[i + 1..]) && AllPositive(dims[1..i + 1]);
      ProdSplit(dims, 1, i + 1);
      ModOfMod(key, Prod(dims[1..i + 1]), Prod(dims[i + 1..]));
    }
  }

  /** For `0 <= k < len`, `tuple_to_int(int_to_tuple(k)) == k`. */
  lemma {:induction false} IntToTupleRoundTrip(dims: seq<int>, key: int)
    requires AllPositive(dims) && 0 <= key < Prod(dims)
    ensures TupleToInt(dims, IntToTuple(dims, key)) == key
  {
    if |dims| > 0 {
      var t := IntToTuple(dims, key);
      var p, p1 := Prod(dims), Prod(dims[1..]);
      assert AllPositive(dims[1..]);
      IntToTupleCons(dims, key);
      DivModUnique(key, p, 0, key);
      DivMod(key, p1);
      IntToTupleRoundTrip(dims[1..], key % p1);
      assert TupleToInt(dims, t) == t[0] * p1 + TupleToInt(dims[1..], t[1..]);
    }
  }

  /** For in-range tuples, `int_to_tuple(tuple_to_int(t)) == t`. */
  lemma {:induction false} TupleToIntRoundTrip(dims: seq<int>, key: seq<int>)
    requires AllPositive(dims) && InBounds(dims, key)
    ensures IntToTuple(dims, TupleToInt(dims, key)) == key
  {
    if |dims| > 0 {
      var k := TupleToInt(dims, key);
      var p1 := Prod(dims[1..]);
      assert AllPositive(dims[1..]) && InBounds(dims[1..], key[1..]);
      TupleToIntRange(dims, key);
      TupleToIntRange(dims[1..], key[1..]);
      DivModUnique(k, p1, key[0], TupleToInt(dims[1..], key[1..]));
      DivModUnique(k, Prod(dims), 0, k);
      IntToTupleCons(dims, k);
      TupleToIntRoundTrip(dims[1..], key[1..]);
      var t := IntToTuple(dims, k);
      assert t == [t[0]] + t[1..];
      assert key == [key[0]] + key[1..];
    }
  }

  /** Tuple and integer indexing agree: `self[int_to_tuple(k)] == self[k]`. */
  lemma TupleIndexingAgrees<E>(ms: MultiSequence<E>, k: int)
    requires ms.Valid() && 0 <= k < |ms.items|
    ensures InBounds(ms.dims, IntToTuple(ms.dims, k))
    ensures At(ms, TupleKey(IntToTuple(ms.dims, k))) == At(ms, IntKey(k))
  {
    IntToTupleInBounds(ms.dims, k);
    IntToTupleRoundTrip(ms.dims, k);
  }
}
