/**
 * The depth-first enumeration that `OptimizableSequence` performs, stated on values.
 *
 * A state is a fixed-length sequence: `0` marks a position not yet assigned and `1..m` are the choices. The
 * assigned positions always form a prefix. The moves `Advance`, `NextRow` and `PrevRow` walk these prefixes
 * in depth-first preorder, which is lexicographic order on the padded states, and `NextSequence` prunes the
 * subtree below a state that fails a constraint.
 */
module Enumeration {
  import opened IndexArith

  /** The outcome of a move: whether it succeeded and the state it leaves. */
  datatype Step = Step(ok: bool, state: seq<int>)

  function Zeros(n: nat): (z: seq<int>)
    ensures |z| == n && forall i :: 0 <= i < n ==> z[i] == 0
  {
    seq(n, _ => 0)
  }

  predicate InRange(s: seq<int>, m: int) {
    forall i :: 0 <= i < |s| ==> 0 <= s[i] <= m
  }

  /** The assigned (non-zero) entries form a prefix. */
  predicate PrefixForm(s: seq<int>) {
    forall i, j :: 0 <= i < j < |s| && s[i] == 0 ==> s[j] == 0
  }

  /** The shape every state of the buffer keeps. */
  predicate Wf(s: seq<int>, m: int) {
    InRange(s, m) && PrefixForm(s)
  }

  /** One past the last non-zero entry, 0 when there is none: where the scan from the end stops. */
  function Filled(s: seq<int>): (k: nat)
    ensures k <= |s|
    ensures k > 0 ==> s[k - 1] != 0
    ensures forall i :: k <= i < |s| ==> s[i] == 0
  {
    if |s| == 0 then 0
    else if s[|s| - 1] != 0 then |s|
    else Filled(s[..|s| - 1])
  }

  /** The first zero entry, `|s|` when there is none: where the scan from the front stops. */
  function FirstEmpty(s: seq<int>): (k: nat)
    ensures k <= |s|
    ensures k < |s| ==> s[k] == 0
    ensures forall i :: 0 <= i < k ==> s[i] != 0
  {
    if |s| == 0 then 0
    else if s[0] == 0 then 0
    else 1 + FirstEmpty(s[1..])
  }

  /** `advance`: increment the last assigned entry unless there is none or it is already `m`. */
  function Advance(s: seq<int>, m: int): Step {
    var k := Filled(s);
    if k == 0 || s[k - 1] == m then Step(false, s)
    else Step(true, s[k - 1 := s[k - 1] + 1])
  }

  /** `next_row`: assign 1 to the first unassigned entry, if there is one. */
  function NextRow(s: seq<int>): Step {
    var k := FirstEmpty(s);
    if k == |s| then Step(false, s)
    else Step(true, s[k := 1])
  }

  /** `prev_row`: clear the last assigned entry, then advance; when that fails, back up once more. */
  function PrevRow(s: seq<int>, m: int): Step
    decreases Filled(s)
  {
    var k := Filled(s);
    if k == 0 then Step(false, s)
    else
      var t := s[k - 1 := 0];
      var a := Advance(t, m);
      if a.ok then a else PrevRow(t, m)
  }

  /** `next_sequence`: descend from a valid state; from an invalid one only advance or back up. */
  function NextSequence(s: seq<int>, m: int, valid: bool): Step {
    if valid && NextRow(s).ok then NextRow(s)
    else if Advance(s, m).ok then Advance(s, m)
    else PrevRow(s, m)
  }

  // ---------------------------------------------------------------------------------------------
  // Lexicographic order

  predicate AgreeBelow(a: seq<int>, b: seq<int>, k: int) {
    k <= |a| && k <= |b| && forall i :: 0 <= i < k ==> a[i] == b[i]
  }

  /** `a` and `b` first differ at `i`, where `a` is smaller. */
  predicate LexLessAt(a: seq<int>, b: seq<int>, i: int) {
    |a| == |b| && 0 <= i < |a| && AgreeBelow(a, b, i) && a[i] < b[i]
  }

  ghost predicate LexLess(a: seq<int>, b: seq<int>) {
    exists i :: LexLessAt(a, b, i)
  }

  lemma LexAsymmetric(a: seq<int>, b: seq<int>)
    requires LexLess(a, b)
    ensures !LexLess(b, a)
  {
  }

  lemma LexTransitive(a: seq<int>, b: seq<int>, c: seq<int>)
    requires LexLess(a, b) && LexLess(b, c)
    ensures LexLess(a, c)
  {
    var i :| LexLessAt(a, b, i);
    var j :| LexLessAt(b, c, j);
    if i <= j {
      assert LexLessAt(a, c, i);
    } else {
      assert LexLessAt(a, c, j);
    }
  }

  /** Two states of the same length are equal or ordered one way or the other. */
  lemma {:induction false} LexTrichotomy(a: seq<int>, b: seq<int>)
    requires |a| == |b|
    ensures a == b || LexLess(a, b) || LexLess(b, a)
    decreases |a|
  {
    if |a| > 0 && a != b {
      if a[0] < b[0] {
        assert LexLessAt(a, b, 0);
      } else if b[0] < a[0] {
        assert LexLessAt(b, a, 0);
      } else {
        assert a[1..] != b[1..] by {
          assert a == [a[0]] + a[1..] && b == [b[0]] + b[1..];
        }
        LexTrichotomy(a[1..], b[1..]);
        if LexLess(a[1..], b[1..]) {
          var i :| LexLessAt(a[1..], b[1..], i);
          assert LexLessAt(a, b, i + 1);
        } else {
          var i :| LexLessAt(b[1..], a[1..], i);
          assert LexLessAt(b, a, i + 1);
        }
      }
    }
  }

  // ---------------------------------------------------------------------------------------------
  // The moves on well-formed states

  /** In prefix form the two scans agree: every entry before `Filled(s)` is assigned. */
  lemma FilledPrefix(s: seq<int>)
    requires PrefixForm(s)
    ensures forall i :: 0 <= i < Filled(s) ==> s[i] != 0
    ensures FirstEmpty(s) == Filled(s)
  {
  }

  /** `Filled` is pinned down by its two defining facts. */
  lemma FilledUnique(s: seq<int>, k: int)
    requires 0 <= k <= |s|
    requires k > 0 ==> s[k - 1] != 0
    requires forall i :: k <= i < |s| ==> s[i] == 0
    ensures Filled(s) == k
  {
  }

  /** `is_complete`: no entry is left unassigned. */
  predicate Complete(s: seq<int>) {
    forall i :: 0 <= i < |s| ==> s[i] != 0
  }

  /** In prefix form a state is complete exactly when the scan from the end finds its last entry assigned. */
  lemma CompleteIffFilled(s: seq<int>)
    requires PrefixForm(s)
    ensures Complete(s) <==> Filled(s) == |s|
  {
    FilledPrefix(s);
    if Complete(s) {
      FilledUnique(s, |s|);
    }
  }

  /** `advance` increments only the last assigned entry, and fails without change on an empty state or a spent entry. */
  lemma AdvanceSpec(s: seq<int>, m: int)
    requires Wf(s, m)
    ensures var r := Advance(s, m);
      && (r.ok <==> Filled(s) > 0 && s[Filled(s) - 1] < m)
      && (r.ok ==> r.state == s[Filled(s) - 1 := s[Filled(s) - 1] + 1] && LexLessAt(s, r.state, Filled(s) - 1))
      && (!r.ok ==> r.state == s)
      && Wf(r.state, m) && Filled(r.state) == Filled(s)
  {
  }

  /** `next_row` assigns 1 to the first free entry and fails, unchanged, exactly on a complete state. */
  lemma NextRowSpec(s: seq<int>, m: int)
    requires Wf(s, m) && m >= 1
    ensures var r := NextRow(s);
      && (r.ok <==> Filled(s) < |s|)
      && (r.ok ==> r.state == s[Filled(s) := 1] && LexLessAt(s, r.state, Filled(s))
                   && Filled(r.state) == Filled(s) + 1)
      && (!r.ok ==> r.state == s)
      && Wf(r.state, m)
  {
    FilledPrefix(s);
    var k := Filled(s);
    if k < |s| {
      var r := s[k := 1];
      assert PrefixForm(r) by {
        forall i, j | 0 <= i < j < |r| && r[i] == 0
          ensures r[j] == 0
        {
          assert k < i;
        }
      }
      FilledUnique(r, k + 1);
      assert LexLessAt(s, r, k);
    }
  }

  /** Clearing the last assigned entry leaves one entry fewer, agreeing with the state before it. */
  lemma ClearLast(s: seq<int>, m: int)
    requires Wf(s, m) && Filled(s) > 0
    ensures var t := s[Filled(s) - 1 := 0];
      Wf(t, m) && Filled(t) == Filled(s) - 1 && AgreeBelow(t, s, Filled(s) - 1)
  {
    FilledPrefix(s);
    var k := Filled(s);
    var t := s[k - 1 := 0];
    FilledUnique(t, k - 1);
  }

  /** The first attempt of `prev_row`: clear the last assigned entry and advance the one before it. */
  lemma ClearThenAdvance(s: seq<int>, m: int)
    requires Wf(s, m) && Filled(s) > 0
    ensures var t := s[Filled(s) - 1 := 0];
      && Wf(t, m) && Filled(t) == Filled(s) - 1 && AgreeBelow(t, s, Filled(s) - 1)
      && var a := Advance(t, m);
      && Wf(a.state, m)
      && (a.ok ==> Filled(a.state) < Filled(s) && LexLessAt(s, a.state, Filled(s) - 2))
      && (!a.ok ==> a.state == t)
  {
    var k := Filled(s);
    var t := s[k - 1 := 0];
    ClearLast(s, m);
    AdvanceSpec(t, m);
    if Advance(t, m).ok {
      assert Advance(t, m).state == t[k - 2 := t[k - 2] + 1];
    }
  }

  /** One round of `prev_row` from a state whose last assigned entry is at `i`. */
  lemma PrevRowStep(s: seq<int>, i: int, m: int)
    requires Wf(s, m) && 0 <= i < |s| && s[i] != 0 && forall j :: i < j < |s| ==> s[j] == 0
    ensures var t := s[i := 0];
      && Filled(s) == i + 1 && Wf(t, m) && Filled(t) < Filled(s)
      && PrevRow(s, m) == (if Advance(t, m).ok then Advance(t, m) else PrevRow(t, m))
  {
    FilledUnique(s, i + 1);
    ClearLast(s, m);
  }

  /**
   * `prev_row` keeps the shape of the state and assigns fewer entries when it succeeds; when it fails the state
   * is empty.
   */
  lemma {:induction false} PrevRowSpec(s: seq<int>, m: int)
    requires Wf(s, m)
    ensures var r := PrevRow(s, m);
      && Wf(r.state, m)
      && (r.ok ==> Filled(r.state) < Filled(s))
      && (!r.ok ==> r.state == Zeros(|s|))
    decreases Filled(s)
  {
    var k := Filled(s);
    if k == 0 {
      assert s == Zeros(|s|);
    } else {
      PrevRowStep(s, k - 1, m);
      var t := s[k - 1 := 0];
      AdvanceSpec(t, m);
      if !Advance(t, m).ok {
        PrevRowSpec(t, m);
      }
    }
  }

  /** A successful `prev_row` leaves the subtree of `s`: it moves above `s` at a position before its last entry. */
  lemma {:induction false} PrevRowLeavesSubtree(s: seq<int>, m: int)
    requires Wf(s, m) && PrevRow(s, m).ok
    ensures exists i :: 0 <= i < Filled(s) - 1 && LexLessAt(s, PrevRow(s, m).state, i)
    decreases Filled(s)
  {
    var k := Filled(s);
    ClearThenAdvance(s, m);
    var t := s[k - 1 := 0];
    if !Advance(t, m).ok {
      PrevRowLeavesSubtree(t, m);
      var r := PrevRow(t, m);
      var i :| 0 <= i < Filled(t) - 1 && LexLessAt(t, r.state, i);
      assert LexLessAt(s, r.state, i);
    }
  }

  /**
   * `next_sequence` moves strictly upwards in lexicographic order, empties the state when it fails, and from an
   * invalid state never assigns more entries than it had.
   */
  lemma NextSequenceSpec(s: seq<int>, m: int, valid: bool)
    requires Wf(s, m) && m >= 1
    ensures var r := NextSequence(s, m, valid);
      && Wf(r.state, m)
      && (r.ok ==> LexLess(s, r.state))
      && (!r.ok ==> r.state == Zeros(|s|))
      && (!valid ==> Filled(r.state) <= Filled(s))
  {
    NextRowSpec(s, m);
    AdvanceSpec(s, m);
    PrevRowSpec(s, m);
    if PrevRow(s, m).ok {
      PrevRowLeavesSubtree(s, m);
    }
  }

  // ---------------------------------------------------------------------------------------------
  // What the search is for: candidates, and the guarantee that none is skipped

  /** `s` with every entry from position `i` on cleared: a state the search passes on its way down to `s`. */
  function PrefixState(s: seq<int>, i: int): seq<int>
    requires 0 <= i <= |s|
  {
    s[..i] + Zeros(|s| - i)
  }

  /** `is_valid`: every constraint accepts the state. */
  predicate AllHold(cs: seq<seq<int> -> bool>, s: seq<int>) {
    forall j :: 0 <= j < |cs| ==> cs[j](s)
  }

  /**
   * A complete assignment of length `n` every prefix state of which, from the empty state to itself, satisfies
   * the constraints: the complete states a depth-first search from the empty state can reach.
   */
  ghost predicate Candidate(c: seq<int>, n: int, m: int, cs: seq<seq<int> -> bool>) {
    && |c| == n
    && (forall i :: 0 <= i < n ==> 1 <= c[i] <= m)
    && (forall i :: 0 <= i <= n ==> AllHold(cs, PrefixState(c, i)))
  }

  /** Every proper prefix state of `s` satisfies the constraints, so the search can reach `s`. */
  ghost predicate Reachable(s: seq<int>, cs: seq<seq<int> -> bool>) {
    forall i :: 0 <= i < Filled(s) ==> AllHold(cs, PrefixState(s, i))
  }

  ghost predicate NoCandidateBetween(lo: seq<int>, hi: seq<int>, m: int, cs: seq<seq<int> -> bool>) {
    forall c :: Candidate(c, |lo|, m, cs) ==> !(LexLess(lo, c) && LexLess(c, hi))
  }

  ghost predicate NoCandidateAbove(lo: seq<int>, m: int, cs: seq<seq<int> -> bool>) {
    forall c :: Candidate(c, |lo|, m, cs) ==> !LexLess(lo, c)
  }

  /** `c` lies in the subtree of `s`: it keeps every entry `s` has assigned. */
  ghost predicate Extends(c: seq<int>, s: seq<int>) {
    |c| == |s| && AgreeBelow(c, s, Filled(s))
  }

  /** No candidate in the subtree of `s` lies above `s0`. */
  ghost predicate Exhausted(s: seq<int>, s0: seq<int>, m: int, cs: seq<seq<int> -> bool>) {
    forall c :: Candidate(c, |s|, m, cs) && Extends(c, s) ==> !LexLess(s0, c)
  }

  lemma PrefixStatesAgree(a: seq<int>, b: seq<int>, i: int)
    requires |a| == |b| && 0 <= i <= |a| && AgreeBelow(a, b, i)
    ensures PrefixState(a, i) == PrefixState(b, i)
  {
    assert a[..i] == b[..i];
  }

  /** Cutting a state in its subtree at the depth of `s` gives back `s`. */
  lemma ExtendsPrefixState(c: seq<int>, s: seq<int>)
    requires Extends(c, s)
    ensures PrefixState(c, Filled(s)) == s
  {
    var k := Filled(s);
    assert forall i :: 0 <= i < |s| ==> PrefixState(c, k)[i] == s[i];
  }

  /** Every candidate of a positive length lies above the empty state, where the search starts. */
  lemma CandidateAboveEmpty(c: seq<int>, n: int, m: int, cs: seq<seq<int> -> bool>)
    requires Candidate(c, n, m, cs) && n >= 1
    ensures LexLess(Zeros(n), c)
  {
    assert LexLessAt(Zeros(n), c, 0);
  }

  /** A complete, valid and reachable state is a candidate. */
  lemma CandidateIntro(s: seq<int>, m: int, cs: seq<seq<int> -> bool>)
    requires Wf(s, m) && Filled(s) == |s| && Reachable(s, cs) && AllHold(cs, s)
    ensures Candidate(s, |s|, m, cs)
  {
    FilledPrefix(s);
    assert PrefixState(s, |s|) == s;
  }

  /** Between a valid state and the state `next_row` makes of it there is nothing a candidate could be. */
  lemma NextRowGap(s: seq<int>, m: int, c: seq<int>)
    requires Wf(s, m) && m >= 1 && NextRow(s).ok
    requires |c| == |s| && (forall i :: 0 <= i < |c| ==> c[i] >= 1) && LexLess(s, c)
    ensures c == NextRow(s).state || LexLess(NextRow(s).state, c)
  {
    NextRowSpec(s, m);
    var k := Filled(s);
    var r := NextRow(s).state;
    var i :| LexLessAt(s, c, i);
    if i < k {
      assert LexLessAt(r, c, i);
    } else if c[k] > 1 {
      assert LexLessAt(r, c, k);
    } else if k + 1 < |s| {
      assert LexLessAt(r, c, k + 1);
    } else {
      assert c == r;
    }
  }

  /**
   * A state above `s0` (which lies in the subtree of `s`) and not in that subtree is at least the state `advance`
   * makes of `s`.
   */
  lemma AdvanceGap(s: seq<int>, s0: seq<int>, m: int, c: seq<int>)
    requires Wf(s, m) && Advance(s, m).ok && Extends(s0, s)
    requires |c| == |s| && (forall i :: 0 <= i < |c| ==> c[i] >= 1) && LexLess(s0, c)
    ensures Extends(c, s) || c == Advance(s, m).state || LexLess(Advance(s, m).state, c)
  {
    AdvanceSpec(s, m);
    var k := Filled(s);
    var r := Advance(s, m).state;
    var i :| LexLessAt(s0, c, i);
    if i < k - 1 {
      assert LexLessAt(r, c, i);
    } else if i == k - 1 {
      if c[k - 1] > r[k - 1] {
        assert LexLessAt(r, c, k - 1);
      } else if k < |s| {
        assert LexLessAt(r, c, k);
      } else {
        assert c == r;
      }
    } else {
      assert Extends(c, s);
    }
  }

  lemma NextRowSkips(s: seq<int>, m: int, cs: seq<seq<int> -> bool>)
    requires Wf(s, m) && m >= 1 && NextRow(s).ok
    ensures NoCandidateBetween(s, NextRow(s).state, m, cs)
  {
    var r := NextRow(s).state;
    forall c | Candidate(c, |s|, m, cs) && LexLess(s, c)
      ensures c == r || LexLess(r, c)
    {
      NextRowGap(s, m, c);
    }
    forall c | LexLess(r, c)
      ensures !LexLess(c, r)
    {
      LexAsymmetric(r, c);
    }
  }

  lemma AdvanceSkips(s: seq<int>, s0: seq<int>, m: int, cs: seq<seq<int> -> bool>)
    requires Wf(s, m) && Advance(s, m).ok && Extends(s0, s) && Exhausted(s, s0, m, cs)
    ensures NoCandidateBetween(s0, Advance(s, m).state, m, cs)
  {
    var r := Advance(s, m).state;
    forall c | Candidate(c, |s|, m, cs) && LexLess(s0, c)
      ensures Extends(c, s) || c == r || LexLess(r, c)
    {
      AdvanceGap(s, s0, m, c);
    }
    forall c | LexLess(r, c)
      ensures !LexLess(c, r)
    {
      LexAsymmetric(r, c);
    }
  }

  /** Once the last entry of `s` is spent, exhausting `s` exhausts its parent. */
  lemma ExhaustedParent(s: seq<int>, s0: seq<int>, m: int, cs: seq<seq<int> -> bool>)
    requires Wf(s, m) && Filled(s) > 0 && s[Filled(s) - 1] == m
    requires Extends(s0, s) && Exhausted(s, s0, m, cs)
    ensures var t := s[Filled(s) - 1 := 0];
      Extends(s0, t) && Exhausted(t, s0, m, cs)
  {
    var k := Filled(s);
    var t := s[k - 1 := 0];
    ClearLast(s, m);
    forall c | Candidate(c, |t|, m, cs) && Extends(c, t)
      ensures !LexLess(s0, c)
    {
      if c[k - 1] == m {
        assert Extends(c, s);
      } else {
        assert LexLessAt(c, s0, k - 1);
        LexAsymmetric(c, s0);
      }
    }
  }

  /**
   * Backing up from a spent state skips no candidate above the state `s0` the search left: the state it
   * reaches is the next place a candidate can be, and when it fails there is none.
   */
  lemma {:induction false} PrevRowSkips(s: seq<int>, s0: seq<int>, m: int, cs: seq<seq<int> -> bool>)
    requires Wf(s, m) && Extends(s0, s) && Exhausted(s, s0, m, cs)
    requires Filled(s) == 0 || s[Filled(s) - 1] == m
    ensures PrevRow(s, m).ok ==> NoCandidateBetween(s0, PrevRow(s, m).state, m, cs)
    ensures !PrevRow(s, m).ok ==> NoCandidateAbove(s0, m, cs)
    decreases Filled(s)
  {
    var k := Filled(s);
    if k == 0 {
      EmptyExhausted(s, s0, m, cs);
    } else {
      var t := s[k - 1 := 0];
      ExhaustedParent(s, s0, m, cs);
      PrevRowStep(s, k - 1, m);
      AdvanceSpec(t, m);
      if Advance(t, m).ok {
        AdvanceSkips(t, s0, m, cs);
      } else {
        PrevRowSkips(t, s0, m, cs);
      }
    }
  }

  /** Exhausting the empty state leaves no candidate above `s0`. */
  lemma EmptyExhausted(s: seq<int>, s0: seq<int>, m: int, cs: seq<seq<int> -> bool>)
    requires Filled(s) == 0 && Exhausted(s, s0, m, cs) && |s0| == |s|
    ensures NoCandidateAbove(s0, m, cs)
  {
    forall c | Candidate(c, |s0|, m, cs)
      ensures Extends(c, s)
    {
    }
  }

  /**
   * `next_sequence` skips no candidate: none lies strictly between a state and the next one, and when it fails
   * none lies above the state it started from.
   */
  lemma NextSequenceSkipsNothing(s: seq<int>, m: int, cs: seq<seq<int> -> bool>)
    requires Wf(s, m) && m >= 1
    ensures var r := NextSequence(s, m, AllHold(cs, s));
      && (r.ok ==> NoCandidateBetween(s, r.state, m, cs))
      && (!r.ok ==> NoCandidateAbove(s, m, cs))
  {
    var valid := AllHold(cs, s);
    NextRowSpec(s, m);
    AdvanceSpec(s, m);
    forall c | Candidate(c, |s|, m, cs) && Extends(c, s)
      ensures AllHold(cs, s)
    {
      ExtendsPrefixState(c, s);
    }
    if valid && NextRow(s).ok {
      NextRowSkips(s, m, cs);
    } else {
      if valid {
        forall c | Candidate(c, |s|, m, cs) && Extends(c, s)
          ensures c == s
        {
        }
      }
      assert Exhausted(s, s, m, cs);
      if Advance(s, m).ok {
        AdvanceSkips(s, s, m, cs);
      } else {
        PrevRowSkips(s, s, m, cs);
      }
    }
  }

  // ---------------------------------------------------------------------------------------------
  // Reachability: the search only passes through states whose every prefix state it has accepted

  lemma AdvanceReachable(s: seq<int>, m: int, cs: seq<seq<int> -> bool>)
    requires Wf(s, m) && Reachable(s, cs)
    ensures Reachable(Advance(s, m).state, cs)
  {
    AdvanceSpec(s, m);
    var r := Advance(s, m).state;
    forall i | 0 <= i < Filled(r)
      ensures AllHold(cs, PrefixState(r, i))
    {
      PrefixStatesAgree(r, s, i);
    }
  }

  lemma NextRowReachable(s: seq<int>, m: int, cs: seq<seq<int> -> bool>)
    requires Wf(s, m) && m >= 1 && Reachable(s, cs) && AllHold(cs, s)
    ensures Reachable(NextRow(s).state, cs)
  {
    NextRowSpec(s, m);
    var r := NextRow(s).state;
    ExtendsPrefixState(s, s);
    forall i | 0 <= i < Filled(r)
      ensures AllHold(cs, PrefixState(r, i))
    {
      PrefixStatesAgree(r, s, i);
    }
  }

  lemma {:induction false} PrevRowReachable(s: seq<int>, m: int, cs: seq<seq<int> -> bool>)
    requires Wf(s, m) && Reachable(s, cs)
    ensures Reachable(PrevRow(s, m).state, cs)
    decreases Filled(s)
  {
    var k := Filled(s);
    if k > 0 {
      var t := s[k - 1 := 0];
      ClearLast(s, m);
      forall i | 0 <= i < Filled(t)
        ensures AllHold(cs, PrefixState(t, i))
      {
        PrefixStatesAgree(t, s, i);
      }
      if Advance(t, m).ok {
        AdvanceReachable(t, m, cs);
      } else {
        PrevRowReachable(t, m, cs);
      }
    }
  }

  /** `next_sequence` only descends from a valid state, so it keeps every state reachable. */
  lemma NextSequenceReachable(s: seq<int>, m: int, cs: seq<seq<int> -> bool>)
    requires Wf(s, m) && m >= 1 && Reachable(s, cs)
    ensures Reachable(NextSequence(s, m, AllHold(cs, s)).state, cs)
  {
    if AllHold(cs, s) && NextRow(s).ok {
      NextRowReachable(s, m, cs);
    } else if Advance(s, m).ok {
      AdvanceReachable(s, m, cs);
    } else {
      PrevRowReachable(s, m, cs);
    }
  }

  // ---------------------------------------------------------------------------------------------
  // Chaining steps

  /** Two gaps without candidates join across a state that is the start or fails the constraints. */
  lemma GapsJoin(s0: seq<int>, s: seq<int>, s1: seq<int>, m: int, cs: seq<seq<int> -> bool>)
    requires |s0| == |s| == |s1|
    requires s == s0 || (LexLess(s0, s) && !AllHold(cs, s))
    requires NoCandidateBetween(s0, s, m, cs) && NoCandidateBetween(s, s1, m, cs)
    ensures NoCandidateBetween(s0, s1, m, cs)
  {
    forall c | Candidate(c, |s0|, m, cs) && LexLess(s0, c)
      ensures !LexLess(c, s1)
    {
      LexTrichotomy(c, s);
      assert PrefixState(c, |c|) == c;
      if s == s0 && LexLess(c, s) {
        LexAsymmetric(s0, c);
      }
    }
  }

  /** A gap without candidates followed by nothing above leaves nothing above the start. */
  lemma GapThenNothing(s0: seq<int>, s: seq<int>, m: int, cs: seq<seq<int> -> bool>)
    requires |s0| == |s|
    requires s == s0 || (LexLess(s0, s) && !AllHold(cs, s))
    requires NoCandidateBetween(s0, s, m, cs) && NoCandidateAbove(s, m, cs)
    ensures NoCandidateAbove(s0, m, cs)
  {
    forall c | Candidate(c, |s0|, m, cs)
      ensures !LexLess(s0, c)
    {
      LexTrichotomy(c, s);
      CandidateComplete(c, |s0|, m, cs);
    }
  }

  // ---------------------------------------------------------------------------------------------
  // The best candidate so far

  /** `c` lies above the start `s0` and no later than the current state `s`. */
  ghost predicate Seen(c: seq<int>, s0: seq<int>, s: seq<int>) {
    LexLess(s0, c) && (LexLess(c, s) || c == s)
  }

  /**
   * The record `(found, best, bestScore)` accounts for every candidate seen: it scores no higher than the record,
   * and strictly lower when it comes before the record, so that the record is the first highest one.
   */
  ghost predicate BestOfSeen(s0: seq<int>, s: seq<int>, found: bool, best: seq<int>, bestScore: real,
                             score: seq<int> -> real, m: int, cs: seq<seq<int> -> bool>) {
    forall c :: Candidate(c, |s0|, m, cs) && Seen(c, s0, s) ==>
      found && score(c) <= bestScore && (LexLess(c, best) ==> score(c) < bestScore)
  }

  /** A candidate is complete. */
  lemma CandidateComplete(c: seq<int>, n: int, m: int, cs: seq<seq<int> -> bool>)
    requires Candidate(c, n, m, cs)
    ensures Filled(c) == |c| && PrefixState(c, |c|) == c && AllHold(cs, c)
  {
    FilledUnique(c, |c|);
    assert PrefixState(c, |c|) == c;
  }

  /**
   * Each constraint keeps its rejections: once it rejects a state it rejects every state in that state's subtree.
   * The layout constraints have this property (their `RejectionKept` lemmas), and it is what makes pruning safe.
   */
  ghost predicate KeepsRejections(cs: seq<seq<int> -> bool>) {
    forall j, s, t :: 0 <= j < |cs| && Extends(t, s) && !cs[j](s) ==> !cs[j](t)
  }

  /**
   * When every constraint keeps its rejections, pruning loses nothing: the candidates are exactly the complete
   * sequences over `1..m` that every constraint accepts, so `optimize` returns the first best of all of them.
   */
  lemma CandidateIffValid(c: seq<int>, m: int, cs: seq<seq<int> -> bool>)
    requires KeepsRejections(cs)
    ensures Candidate(c, |c|, m, cs) <==> (forall i :: 0 <= i < |c| ==> 1 <= c[i] <= m) && AllHold(cs, c)
  {
    if Candidate(c, |c|, m, cs) {
      CandidateComplete(c, |c|, m, cs);
    }
    if (forall i :: 0 <= i < |c| ==> 1 <= c[i] <= m) && AllHold(cs, c) {
      forall i | 0 <= i <= |c|
        ensures AllHold(cs, PrefixState(c, i))
      {
        var p := PrefixState(c, i);
        FilledUnique(p, i);
        assert Extends(c, p);
        forall j | 0 <= j < |cs|
          ensures cs[j](p)
        {
          assert cs[j](c);
        }
      }
    }
  }

  /** Recording a new state that beats the record keeps every candidate seen accounted for. */
  lemma BestAfterRecord(s0: seq<int>, s: seq<int>, s1: seq<int>, found: bool, best: seq<int>, bestScore: real,
                        score: seq<int> -> real, m: int, cs: seq<seq<int> -> bool>)
    requires |s0| == |s| == |s1| && LexLess(s, s1)
    requires BestOfSeen(s0, s, found, best, bestScore, score, m, cs) && NoCandidateBetween(s, s1, m, cs)
    requires found ==> bestScore < score(s1)
    ensures BestOfSeen(s0, s1, true, s1, score(s1), score, m, cs)
  {
    forall c | Candidate(c, |s0|, m, cs) && Seen(c, s0, s1) && c != s1
      ensures score(c) < score(s1)
    {
      LexTrichotomy(c, s);
    }
  }

  /** Passing over a state that does not beat the record keeps every candidate seen accounted for. */
  lemma BestAfterSkip(s0: seq<int>, s: seq<int>, s1: seq<int>, found: bool, best: seq<int>, bestScore: real,
                      score: seq<int> -> real, m: int, cs: seq<seq<int> -> bool>)
    requires |s0| == |s| == |s1| && LexLess(s, s1)
    requires BestOfSeen(s0, s, found, best, bestScore, score, m, cs) && NoCandidateBetween(s, s1, m, cs)
    requires found ==> LexLess(best, s) || best == s
    requires Filled(s1) == |s1| && AllHold(cs, s1) ==> found && score(s1) <= bestScore
    ensures BestOfSeen(s0, s1, found, best, bestScore, score, m, cs)
  {
    forall c | Candidate(c, |s0|, m, cs) && Seen(c, s0, s1)
      ensures found && score(c) <= bestScore && (LexLess(c, best) ==> score(c) < bestScore)
    {
      if c == s1 {
        CandidateComplete(c, |s0|, m, cs);
        if LexLess(best, s) {
          LexTransitive(best, s, s1);
        }
        LexAsymmetric(best, s1);
      } else {
        LexTrichotomy(c, s);
      }
    }
  }

  /** When nothing lies above the last state, the record accounts for every candidate above the start. */
  lemma BestOverall(s0: seq<int>, s: seq<int>, found: bool, best: seq<int>, bestScore: real,
                    score: seq<int> -> real, m: int, cs: seq<seq<int> -> bool>)
    requires |s0| == |s|
    requires BestOfSeen(s0, s, found, best, bestScore, score, m, cs) && NoCandidateAbove(s, m, cs)
    ensures forall c :: Candidate(c, |s0|, m, cs) && LexLess(s0, c) ==>
      found && score(c) <= bestScore && (LexLess(c, best) ==> score(c) < bestScore)
  {
    forall c | Candidate(c, |s0|, m, cs) && LexLess(s0, c)
      ensures Seen(c, s0, s)
    {
      LexTrichotomy(c, s);
    }
  }

  // ---------------------------------------------------------------------------------------------
  // A measure for termination: the state read as a number in base m + 1

  function Pow(b: int, e: nat): (p: int)
    ensures b >= 1 ==> p >= 1
  {
    if e == 0 then 1 else b * Pow(b, e - 1)
  }

  function Val(s: seq<int>, b: int): int {
    if |s| == 0 then 0 else s[0] * Pow(b, |s| - 1) + Val(s[1..], b)
  }

  lemma {:induction false} ValBounds(s: seq<int>, m: int)
    requires InRange(s, m) && m >= 0
    ensures 0 <= Val(s, m + 1) < Pow(m + 1, |s|)
    decreases |s|
  {
    if |s| > 0 {
      ValBounds(s[1..], m);
      MixedRadix(s[0], m + 1, Pow(m + 1, |s| - 1), Val(s[1..], m + 1));
    }
  }

  /** Lexicographic order on states in range is numeric order on their values. */
  lemma {:induction false} LexLessVal(a: seq<int>, b: seq<int>, m: int, i: int)
    requires InRange(a, m) && InRange(b, m) && m >= 0 && LexLessAt(a, b, i)
    ensures Val(a, m + 1) < Val(b, m + 1)
    decreases i
  {
    var p := Pow(m + 1, |a| - 1);
    if i == 0 {
      ValBounds(a[1..], m);
      ValBounds(b[1..], m);
      MulAtLeast(b[0] - a[0], p);
      assert (b[0] - a[0]) * p == b[0] * p - a[0] * p;
    } else {
      assert LexLessAt(a[1..], b[1..], i - 1);
      LexLessVal(a[1..], b[1..], m, i - 1);
    }
  }

  // ---------------------------------------------------------------------------------------------
  // The two search loops, one iteration at a time

  /**
   * What `next_valid_sequence` knows before each move: the state is the start or an invalid state above it, no
   * candidate was passed on the way, and reachability from the start is kept.
   */
  ghost predicate ProbeInv(s0: seq<int>, s: seq<int>, m: int, cs: seq<seq<int> -> bool>) {
    && m >= 1 && Wf(s, m) && |s| == |s0|
    && (s == s0 || (LexLess(s0, s) && !AllHold(cs, s)))
    && NoCandidateBetween(s0, s, m, cs)
    && (Reachable(s0, cs) ==> Reachable(s, cs))
  }

  /**
   * One move of `next_valid_sequence`: on failure nothing lies above the start; on success the new state is above
   * the start and, numerically, above the state before the move, and either it is valid or the loop goes on.
   */
  lemma ProbeStep(s0: seq<int>, s: seq<int>, m: int, cs: seq<seq<int> -> bool>)
    requires ProbeInv(s0, s, m, cs)
    ensures var r := NextSequence(s, m, AllHold(cs, s));
      && (!r.ok ==> r.state == Zeros(|s|) && NoCandidateAbove(s0, m, cs))
      && (Reachable(s0, cs) ==> Reachable(r.state, cs))
      && (r.ok ==>
            && Wf(r.state, m) && |r.state| == |s0| && LexLess(s0, r.state)
            && NoCandidateBetween(s0, r.state, m, cs)
            && 0 <= Val(s, m + 1) < Val(r.state, m + 1) < Pow(m + 1, |s|)
            && (!AllHold(cs, r.state) ==> ProbeInv(s0, r.state, m, cs)))
  {
    var r := NextSequence(s, m, AllHold(cs, s));
    NextSequenceSpec(s, m, AllHold(cs, s));
    NextSequenceSkipsNothing(s, m, cs);
    if Reachable(s0, cs) {
      NextSequenceReachable(s, m, cs);
    }
    ValBounds(s, m);
    if r.ok {
      GapsJoin(s0, s, r.state, m, cs);
      if s != s0 {
        LexTransitive(s0, s, r.state);
      }
      var i :| LexLessAt(s, r.state, i);
      LexLessVal(s, r.state, m, i);
      ValBounds(r.state, m);
    } else {
      GapThenNothing(s0, s, m, cs);
    }
  }

  /**
   * What `optimize` knows after each valid state: the record accounts for every candidate seen so far, and when
   * there is one it is a complete valid state above the start, no later than the current state, with the recorded
   * score.
   */
  ghost predicate RecordInv(s0: seq<int>, s: seq<int>, found: bool, best: seq<int>, bestScore: real,
                            score: seq<int> -> real, m: int, cs: seq<seq<int> -> bool>) {
    && m >= 1 && Wf(s, m) && |s| == |s0|
    && (s == s0 || LexLess(s0, s))
    && (Reachable(s0, cs) ==> Reachable(s, cs))
    && BestOfSeen(s0, s, found, best, bestScore, score, m, cs)
    && (found ==>
          && Wf(best, m) && |best| == |s0| && Complete(best) && AllHold(cs, best)
          && score(best) == bestScore
          && LexLess(s0, best) && (LexLess(best, s) || best == s)
          && (Reachable(s0, cs) ==> Candidate(best, |s0|, m, cs)))
  }

  /** Before the first move the record is empty and accounts for nothing. */
  lemma RecordStart(s0: seq<int>, m: int, score: seq<int> -> real, cs: seq<seq<int> -> bool>)
    requires m >= 1 && Wf(s0, m)
    ensures RecordInv(s0, s0, false, [], 0.0, score, m, cs)
  {
    forall c | Candidate(c, |s0|, m, cs) && Seen(c, s0, s0)
      ensures false
    {
      LexAsymmetric(s0, c);
    }
  }

  /**
   * One iteration of `optimize` after `next_valid_sequence` reached the valid state `s1`: the record is replaced
   * exactly when `s1` is complete and beats it (or there is none yet), and either way the invariant is kept.
   */
  lemma RecordStep(s0: seq<int>, s: seq<int>, s1: seq<int>, found: bool, best: seq<int>, bestScore: real,
                   score: seq<int> -> real, m: int, cs: seq<seq<int> -> bool>)
    requires RecordInv(s0, s, found, best, bestScore, score, m, cs)
    requires Wf(s1, m) && |s1| == |s| && AllHold(cs, s1) && LexLess(s, s1) && NoCandidateBetween(s, s1, m, cs)
    requires Reachable(s, cs) ==> Reachable(s1, cs)
    ensures 0 <= Val(s, m + 1) < Val(s1, m + 1) < Pow(m + 1, |s|)
    ensures Complete(s1) && (!found || score(s1) > bestScore) ==>
      RecordInv(s0, s1, true, s1, score(s1), score, m, cs)
    ensures !(Complete(s1) && (!found || score(s1) > bestScore)) ==>
      RecordInv(s0, s1, found, best, bestScore, score, m, cs)
  {
    var i :| LexLessAt(s, s1, i);
    LexLessVal(s, s1, m, i);
    ValBounds(s, m);
    ValBounds(s1, m);
    if s != s0 {
      LexTransitive(s0, s, s1);
    }
    CompleteIffFilled(s1);
    if Complete(s1) && (!found || score(s1) > bestScore) {
      BestAfterRecord(s0, s, s1, found, best, bestScore, score, m, cs);
      if Reachable(s0, cs) {
        CandidateIntro(s1, m, cs);
      }
    } else {
      BestAfterSkip(s0, s, s1, found, best, bestScore, score, m, cs);
      if found && LexLess(best, s) {
        LexTransitive(best, s, s1);
      }
    }
  }

  /**
   * When the search ends the record is the first highest-scoring candidate above the start; with no record,
   * there is no candidate above the start at all.
   */
  lemma RecordFinal(s0: seq<int>, s: seq<int>, found: bool, best: seq<int>, bestScore: real,
                    score: seq<int> -> real, m: int, cs: seq<seq<int> -> bool>)
    requires RecordInv(s0, s, found, best, bestScore, score, m, cs) && NoCandidateAbove(s, m, cs)
    ensures forall c :: Candidate(c, |s0|, m, cs) && LexLess(s0, c) ==>
      found && score(c) <= bestScore && (LexLess(c, best) ==> score(c) < bestScore)
    ensures !found ==> NoCandidateAbove(s0, m, cs)
    ensures found ==> |s0| > 0
  {
    BestOverall(s0, s, found, best, bestScore, score, m, cs);
  }
}
