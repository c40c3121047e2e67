/**
 * `OptimizableSequence` of `optimizer.py`: a fixed-length integer buffer searched depth-first by in-place moves,
 * pruned by constraints, keeping the first complete state with the strictly highest score.
 *
 * Each move is proved against its counterpart in `Enumeration`; what the search achieves is proved there.
 */
module Optimizer {
  import opened Wrappers
  import opened Enumeration

  class OptimizableSequence {
    const length: nat
    const maxValue: int
    const constraints: seq<seq<int> -> bool>
    const scoringFunc: seq<int> -> real
    var sequence: array<int>

    /** The buffer has `length` entries in `0..maxValue`, and its assigned entries form a prefix. */
    ghost predicate Valid()
      reads this, sequence
    {
      maxValue >= 1 && sequence.Length == length && Wf(sequence[..], maxValue)
    }

    constructor (length: nat, maxValue: int, constraints: seq<seq<int> -> bool>, scoringFunc: seq<int> -> real)
      requires maxValue >= 1
      ensures Valid()
      ensures this.length == length && this.maxValue == maxValue
      ensures this.constraints == constraints && this.scoringFunc == scoringFunc
      ensures sequence[..] == Zeros(length)
    {
      this.length := length;
      this.maxValue := maxValue;
      this.constraints := constraints;
      this.scoringFunc := scoringFunc;
      sequence := new int[length](_ => 0);
    }

    /** `is_valid`: every constraint accepts the buffer. */
    method IsValid() returns (ok: bool)
      ensures ok == AllHold(constraints, sequence[..])
    {
      var s := sequence[..];
      for i := 0 to |constraints|
        invariant forall j :: 0 <= j < i ==> constraints[j](s)
      {
        if !constraints[i](s) {
          return false;
        }
      }
      return true;
    }

    /** `advance`: scan from the end for the last assigned entry and increment it unless it is spent. */
    method Advance() returns (ok: bool)
      requires Valid()
      modifies sequence
      ensures Valid()
      ensures Step(ok, sequence[..]) == Enumeration.Advance(old(sequence[..]), maxValue)
    {
      ghost var s0 := sequence[..];
      AdvanceSpec(s0, maxValue);
      var i: int := length - 1;
      while i >= 0
        invariant -1 <= i < length
        invariant sequence[..] == s0
        invariant forall j :: i < j < length ==> sequence[j] == 0
      {
        if sequence[i] != 0 {
          FilledUnique(s0, i + 1);
          if sequence[i] == maxValue {
            return false;
          }
          sequence[i] := sequence[i] + 1;
          return true;
        }
        i := i - 1;
      }
      FilledUnique(s0, 0);
      return false;
    }

    /** `next_row`: scan from the front for the first free entry and assign 1 to it. */
    method NextRow() returns (ok: bool)
      requires Valid()
      modifies sequence
      ensures Valid()
      ensures Step(ok, sequence[..]) == Enumeration.NextRow(old(sequence[..]))
    {
      ghost var s0 := sequence[..];
      NextRowSpec(s0, maxValue);
      FilledPrefix(s0);
      for i := 0 to length
        invariant sequence[..] == s0
        invariant forall j :: 0 <= j < i ==> sequence[j] != 0
      {
        if sequence[i] == 0 {
          sequence[i] := 1;
          return true;
        }
      }
      return false;
    }

    /** `prev_row`: clear the last assigned entry, then advance, backing up again while that fails. */
    method PrevRow() returns (ok: bool)
      requires Valid()
      modifies sequence
      ensures Valid()
      ensures Step(ok, sequence[..]) == Enumeration.PrevRow(old(sequence[..]), maxValue)
      decreases Filled(sequence[..])
    {
      ghost var s0 := sequence[..];
      var i: int := length - 1;
      while i >= 0
        invariant -1 <= i < length
        invariant sequence[..] == s0
        invariant forall j :: i < j < length ==> sequence[j] == 0
      {
        if sequence[i] != 0 {
          PrevRowStep(s0, i, maxValue);
          sequence[i] := 0;
          assert sequence[..] == s0[i := 0];
          var advanced := Advance();
          if advanced {
            return true;
          }
          ok := PrevRow();
          return;
        }
        i := i - 1;
      }
      FilledUnique(s0, 0);
      return false;
    }

    /** `next_sequence`: descend when the buffer is valid, otherwise advance or back up. */
    method NextSequence() returns (ok: bool)
      requires Valid()
      modifies sequence
      ensures Valid()
      ensures Step(ok, sequence[..])
              == Enumeration.NextSequence(old(sequence[..]), maxValue, AllHold(constraints, old(sequence[..])))
    {
      ghost var s0 := sequence[..];
      NextRowSpec(s0, maxValue);
      var valid := IsValid();
      if valid {
        ok := NextRow();
        if ok {
          return;
        }
      }
      ok := Advance();
      if ok {
        return;
      }
      ok := PrevRow();
    }

    /**
     * `next_valid_sequence`: move until the buffer satisfies every constraint. It succeeds only on a valid state
     * above the one it started from, passing no candidate on the way; when it fails the buffer is empty and no
     * candidate lies above the starting state.
     */
    method NextValidSequence() returns (ok: bool)
      requires Valid()
      modifies sequence
      ensures Valid()
      ensures ok ==> AllHold(constraints, sequence[..]) && LexLess(old(sequence[..]), sequence[..])
      ensures ok ==> NoCandidateBetween(old(sequence[..]), sequence[..], maxValue, constraints)
      ensures !ok ==> sequence[..] == Zeros(length) && NoCandidateAbove(old(sequence[..]), maxValue, constraints)
      ensures Reachable(old(sequence[..]), constraints) ==> Reachable(sequence[..], constraints)
    {
      ghost var s0 := sequence[..];
      while true
        invariant Valid()
        invariant ProbeInv(s0, sequence[..], maxValue, constraints)
        decreases Pow(maxValue + 1, length) - Val(sequence[..], maxValue + 1)
      {
        ProbeStep(s0, sequence[..], maxValue, constraints);
        var moved := NextSequence();
        if !moved {
          return false;
        }
        var valid := IsValid();
        if valid {
          return true;
        }
      }
    }

    /** `is_complete`: no entry of the buffer is unassigned. */
    method IsComplete() returns (ok: bool)
      ensures ok == Complete(sequence[..])
    {
      for i := 0 to sequence.Length
        invariant forall j :: 0 <= j < i ==> sequence[j] != 0
      {
        if sequence[i] == 0 {
          return false;
        }
      }
      return true;
    }

    /**
     * `optimize`: run the search to its end, keeping a copy of the first complete valid state whose score beats
     * every earlier one; on success the buffer becomes that copy.
     *
     * The result scores at least as high as every candidate above the starting state, and strictly higher than
     * every such candidate that comes before it. Started from a reachable state (the empty buffer is one), the
     * result is itself a candidate. On failure there is no candidate above the starting state.
     */
    method Optimize() returns (ok: bool)
      requires Valid()
      modifies this, sequence
      ensures Valid()
      ensures var start := old(sequence[..]);
        ok ==> && Complete(sequence[..])
               && AllHold(constraints, sequence[..])
               && LexLess(start, sequence[..])
               && (Reachable(start, constraints) ==> Candidate(sequence[..], length, maxValue, constraints))
               && forall c :: Candidate(c, length, maxValue, constraints) && LexLess(start, c) ==>
                    && scoringFunc(c) <= scoringFunc(sequence[..])
                    && (LexLess(c, sequence[..]) ==> scoringFunc(c) < scoringFunc(sequence[..]))
      ensures !ok ==> sequence[..] == Zeros(length) && NoCandidateAbove(old(sequence[..]), maxValue, constraints)
    {
      ghost var start := sequence[..];
      var optSeq: Option<seq<int>> := None;
      var optScore: real := 0.0;
      ghost var best: seq<int> := [];
      RecordStart(start, maxValue, scoringFunc, constraints);

      while true
        invariant Valid() && sequence == old(sequence)
        invariant optSeq.Some? ==> optSeq.value == best
        invariant RecordInv(start, sequence[..], optSeq.Some?, best, optScore, scoringFunc, maxValue, constraints)
        decreases Pow(maxValue + 1, length) - Val(sequence[..], maxValue + 1)
      {
        ghost var s := sequence[..];
        var more := NextValidSequence();
        if !more {
          RecordFinal(start, s, optSeq.Some?, best, optScore, scoringFunc, maxValue, constraints);
          break;
        }
        RecordStep(start, s, sequence[..], optSeq.Some?, best, optScore, scoringFunc, maxValue, constraints);
        var complete := IsComplete();
        if complete {
          var score := scoringFunc(sequence[..]);
          if optSeq.None? || score > optScore {
            optSeq := Some(sequence[..]);
            optScore := score;
            best := sequence[..];
          }
        }
      }

      if optSeq.Some? && |optSeq.value| > 0 {
        var v := optSeq.value;
        sequence := new int[|v|](i requires 0 <= i < |v| => v[i]);
        assert sequence[..] == v;
        return true;
      }
      return false;
    }
  }
}
