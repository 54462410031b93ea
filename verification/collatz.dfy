/** The Collatz sequence: from `n`, halve even values and map odd values
    to 3n + 1, collecting every value until 1 is reached.  Whether every
    start reaches 1 is the open Collatz conjecture, so the loop carries a
    step budget `fuel` and reports `None` when the budget runs out. */
module Collatz {
  import opened Results

  /** One step.  For an even value C++'s truncating `n / 2` is exact, and
      `n % 2 == 0` holds for the same values under C++'s truncating
      remainder as under Dafny's, negative values included. */
  function Next(n: int): (r: int)
    ensures n % 2 == 0 ==> 2 * r == n
    ensures n % 2 != 0 ==> r == 3 * n + 1
  {
    if n % 2 == 0 then n / 2 else n * 3 + 1
  }

  /** The value after `k` steps from `n`. */
  function Iter(n: int, k: nat): int
    decreases k
  {
    if k == 0 then n else Next(Iter(n, k - 1))
  }

  /** `s` is the sequence the program returns for `n`: the values of the
      orbit up to and including the first 1. */
  predicate IsSequence(n: int, s: seq<int>) {
    && |s| >= 1
    && (forall i :: 0 <= i < |s| ==> s[i] == Iter(n, i))
    && s[|s| - 1] == 1
    && (forall i :: 0 <= i < |s| - 1 ==> s[i] != 1)
  }

  /** The program's loop under a budget of `fuel` steps. */
  method CollatzSequence(n: int, fuel: nat) returns (r: Option<seq<int>>)
    ensures r.Some? ==> IsSequence(n, r.value)
    ensures r.Some? <==> exists k :: 0 <= k <= fuel && Iter(n, k) == 1
  {
    var sequence: seq<int> := [];
    var m := n;
    var steps: nat := 0;
    while m != 1 && steps < fuel
      invariant steps <= fuel
      invariant |sequence| == steps
      invariant m == Iter(n, steps)
      invariant forall i :: 0 <= i < steps ==> sequence[i] == Iter(n, i) && sequence[i] != 1
      decreases fuel - steps
    {
      OrbitGrows(n, sequence, steps);
      sequence := sequence + [m];
      if m % 2 == 0 {
        m := m / 2;
      } else {
        m := m * 3 + 1;
      }
      steps := steps + 1;
    }
    if m == 1 {
      OrbitEnds(n, sequence, steps);
      r := Some(sequence + [1]);
    } else {
      OrbitMisses(n, sequence, steps);
      r := None;
    }
  }

  /** Appending the current value keeps the collected values the orbit's
      first values, none of them 1, and the step moves to the next one. */
  lemma OrbitGrows(n: int, sequence: seq<int>, steps: nat)
    requires |sequence| == steps
    requires forall i :: 0 <= i < steps ==> sequence[i] == Iter(n, i) && sequence[i] != 1
    requires Iter(n, steps) != 1
    ensures forall i :: 0 <= i < steps + 1 ==>
      (sequence + [Iter(n, steps)])[i] == Iter(n, i) && (sequence + [Iter(n, steps)])[i] != 1
    ensures Next(Iter(n, steps)) == Iter(n, steps + 1)
  {
  }

  /** Reaching 1 completes the sequence. */
  lemma OrbitEnds(n: int, sequence: seq<int>, steps: nat)
    requires |sequence| == steps
    requires forall i :: 0 <= i < steps ==> sequence[i] == Iter(n, i) && sequence[i] != 1
    requires Iter(n, steps) == 1
    ensures IsSequence(n, sequence + [1])
  {
  }

  /** A budget that runs out before 1 means no step up to it reaches 1. */
  lemma OrbitMisses(n: int, sequence: seq<int>, steps: nat)
    requires |sequence| == steps
    requires forall i :: 0 <= i < steps ==> sequence[i] == Iter(n, i) && sequence[i] != 1
    requires Iter(n, steps) != 1
    ensures forall k :: 0 <= k <= steps ==> Iter(n, k) != 1
  {
    forall k | 0 <= k <= steps ensures Iter(n, k) != 1 {
      if k < steps {
        assert sequence[k] == Iter(n, k);
      }
    }
  }

  /** The sequence starts at `n`, every later value is the step of the one
      before, and it is `[1]` exactly when `n` is 1. */
  lemma SequenceShape(n: int, s: seq<int>)
    requires IsSequence(n, s)
    ensures s[0] == n
    ensures forall i :: 0 <= i < |s| - 1 ==>
      s[i + 1] == (if s[i] % 2 == 0 then s[i] / 2 else 3 * s[i] + 1)
    ensures n == 1 <==> s == [1]
  {
    assert s[0] == Iter(n, 0);
    forall i | 0 <= i < |s| - 1
      ensures s[i + 1] == (if s[i] % 2 == 0 then s[i] / 2 else 3 * s[i] + 1)
    {
      assert s[i + 1] == Iter(n, i + 1) == Next(Iter(n, i));
    }
  }

  /** The sequence of `n` is unique: any budget large enough yields the
      same list. */
  lemma SequenceUnique(n: int, s: seq<int>, t: seq<int>)
    requires IsSequence(n, s) && IsSequence(n, t)
    ensures s == t
  {
    FirstOne(n, s);
    FirstOne(n, t);
  }

  /** The length of a sequence is fixed by the orbit: its last index is the
      first step count at which the orbit is 1. */
  lemma FirstOne(n: int, s: seq<int>)
    requires IsSequence(n, s)
    ensures Iter(n, |s| - 1) == 1
    ensures forall k :: 0 <= k < |s| - 1 ==> Iter(n, k) != 1
  {
    forall k | 0 <= k < |s| - 1 ensures Iter(n, k) != 1 {
      assert s[k] == Iter(n, k);
    }
  }

  /** Starting at 0 or below, the orbit never leaves the non-positive
      numbers: 0 stays 0 and -1 cycles through -2. */
  lemma {:induction false} NonPositiveStays(n: int, k: nat)
    requires n <= 0
    ensures Iter(n, k) <= 0
    decreases k
  {
    if k > 0 {
      NonPositiveStays(n, k - 1);
    }
  }

  /** Hence no budget ever produces a sequence for `n <= 0`. */
  lemma NonPositiveNeverReturns(n: int, fuel: nat)
    requires n <= 0
    ensures !exists k :: 0 <= k <= fuel && Iter(n, k) == 1
  {
    forall k | 0 <= k <= fuel ensures Iter(n, k) != 1 {
      NonPositiveStays(n, k);
    }
  }

  /** The figures `main` reports: the step count, one less than the
      sequence length, and the largest value. */
  method Report(s: seq<int>) returns (steps: int, maximum: int)
    requires |s| >= 1
    ensures steps == |s| - 1
    ensures maximum in s
    ensures forall i :: 0 <= i < |s| ==> s[i] <= maximum
  {
    steps := |s| - 1;
    maximum := s[0];
    var i := 1;
    while i < |s|
      invariant 1 <= i <= |s|
      invariant maximum in s[..i]
      invariant forall j :: 0 <= j < i ==> s[j] <= maximum
    {
      if s[i] > maximum {
        maximum := s[i];
      }
      assert s[..i + 1] == s[..i] + [s[i]];
      i := i + 1;
    }
    assert s[..i] == s;
  }

  /** For a sequence, the step count is the number of steps from `n` to 1,
      and the maximum is at least the start. */
  lemma ReportFacts(n: int, s: seq<int>, steps: int, maximum: int)
    requires IsSequence(n, s)
    requires steps == |s| - 1
    requires forall i :: 0 <= i < |s| ==> s[i] <= maximum
    ensures steps >= 0 && Iter(n, steps) == 1
    ensures forall k :: 0 <= k < steps ==> Iter(n, k) != 1
    ensures maximum >= n
  {
    assert s[0] == n;
    forall k | 0 <= k < steps ensures Iter(n, k) != 1 {
      assert s[k] == Iter(n, k);
    }
  }
}
