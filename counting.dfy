/** Counting the entries of a sequence that equal a value, as the source's `n += 1` loops do. */
module Counting {
  import opened Wrappers

  /** The number of entries of `s` equal to `x`, counted from the front as a loop would. */
  function Count<T(==)>(s: seq<T>, x: T): (n: nat)
    ensures n <= |s|
    decreases |s|
  {
    if |s| == 0 then 0
    else Count(s[..|s| - 1], x) + (if s[|s| - 1] == x then 1 else 0)
  }

  /** Extending a prefix by one entry adds one exactly when that entry matches. */
  lemma CountPrefixStep<T>(s: seq<T>, i: int, x: T)
    requires 0 <= i < |s|
    ensures Count(s[..i + 1], x) == Count(s[..i], x) + (if s[i] == x then 1 else 0)
  {
    assert s[..i + 1][..i] == s[..i];
  }

  /** Counting distributes over concatenation. */
  lemma {:induction false} CountAppend<T>(a: seq<T>, b: seq<T>, x: T)
    ensures Count(a + b, x) == Count(a, x) + Count(b, x)
    decreases |b|
  {
    if |b| > 0 {
      var ab := a + b;
      assert ab[..|ab| - 1] == a + b[..|b| - 1];
      CountAppend(a, b[..|b| - 1], x);
    } else {
      assert a + b == a;
    }
  }

  /** The count is the multiplicity of `x` in the multiset of `s`. */
  lemma {:induction false} CountIsMultiplicity<T>(s: seq<T>, x: T)
    ensures Count(s, x) == multiset(s)[x]
    decreases |s|
  {
    if |s| > 0 {
      var init := s[..|s| - 1];
      assert s == init + [s[|s| - 1]];
      CountIsMultiplicity(init, x);
    }
  }

  /** Nothing is counted exactly when the value does not occur. */
  lemma CountZero<T>(s: seq<T>, x: T)
    ensures Count(s, x) == 0 <==> x !in s
  {
    CountIsMultiplicity(s, x);
  }

  /** `b` assigns some of the empty (`None`) entries of `a` and keeps every other entry. */
  predicate Refines<T(==)>(a: seq<Option<T>>, b: seq<Option<T>>) {
    |a| == |b| && forall i :: 0 <= i < |a| && a[i].Some? ==> b[i] == a[i]
  }

  /** Assigning empty entries never lowers the count of a present value. */
  lemma {:induction false} CountRefines<T>(a: seq<Option<T>>, b: seq<Option<T>>, x: T)
    requires Refines(a, b)
    ensures Count(a, Some(x)) <= Count(b, Some(x))
    decreases |a|
  {
    if |a| > 0 {
      var n := |a|;
      CountRefines(a[..n - 1], b[..n - 1], x);
    }
  }
}
