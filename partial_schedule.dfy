/**
 * The single-int form of the partial-schedule fingerprint (solution/helpers/PartialSchedule.java).
 * The stacks are built exactly as for the set fingerprint; the int is Java's `Set.hashCode` of
 * the set of stacks: the 32-bit wrapped sum of each stack's `List.hashCode`, which starts at 1 and
 * folds every element in as `31 * h + e`, also wrapped to 32 bits.
 */
module PartialSchedules {
  import opened Fingerprints

  const TwoTo31 := 0x8000_0000
  const TwoTo32 := 0x1_0000_0000

  /** Java `int` arithmetic: the value congruent to x modulo 2^32 in [-2^31, 2^31). */
  function Int32(x: int): (r: int)
    ensures -TwoTo31 <= r < TwoTo31
    ensures (x - r) % TwoTo32 == 0
  {
    (x + TwoTo31) % TwoTo32 - TwoTo31
  }

  /** Wrapping an intermediate result does not change the wrapped total. */
  lemma Int32Add(a: int, b: int)
    ensures Int32(Int32(a) + b) == Int32(a + b)
  {
    var k := (a + TwoTo31) / TwoTo32;
    assert Int32(a) == a - k * TwoTo32;
    ShiftMod(a + b + TwoTo31, k);
  }

  /** A value already in `int` range is left as it is. */
  lemma Int32InRange(x: int)
    requires -TwoTo31 <= x < TwoTo31
    ensures Int32(x) == x
  {
    assert 0 <= x + TwoTo31 < TwoTo32;
  }

  lemma ShiftMod(x: int, k: int)
    ensures (x - k * TwoTo32) % TwoTo32 == x % TwoTo32
  {
    var q := x / TwoTo32;
    var r := x % TwoTo32;
    assert x - k * TwoTo32 == (q - k) * TwoTo32 + r;
  }

  /** `List.hashCode` of a stack of `Integer`s (an `Integer` hashes to its own value). */
  function ListHash(s: seq<int>): (h: int)
    ensures -TwoTo31 <= h < TwoTo31
  {
    if s == [] then 1 else Int32(31 * ListHash(s[..|s| - 1]) + Int32(s[|s| - 1]))
  }

  /** A non-empty set has an element. */
  lemma Inhabited<T>(s: set<T>)
    ensures s == {} || exists x :: x in s
  {
    if forall x :: x !in s {
      assert s == {};
    }
  }

  /** The unwrapped sum of the stacks' hash codes, taken in some order of the set. */
  ghost function SetSum(s: set<seq<int>>): int
    decreases |s|
  {
    if s == {} then 0
    else
      Inhabited(s);
      var x :| x in s;
      ListHash(x) + SetSum(s - {x})
  }

  /** The sum does not depend on the order: any element can be taken out first. */
  lemma {:induction false} SetSumRemove(s: set<seq<int>>, y: seq<int>)
    requires y in s
    ensures SetSum(s) == ListHash(y) + SetSum(s - {y})
    decreases |s|
  {
    Inhabited(s);
    var x :| x in s && SetSum(s) == ListHash(x) + SetSum(s - {x});
    if x != y {
      SetSumRemove(s - {x}, y);
      SetSumRemove(s - {y}, x);
      assert s - {x} - {y} == s - {y} - {x};
    }
  }

  /** `Set.hashCode`: the sum of the elements' hash codes in `int` arithmetic. */
  ghost function SetHash(s: set<seq<int>>): int
  {
    Int32(SetSum(s))
  }

  /**
   * Iterates over a set of stacks in whatever order the set yields them, adding each stack's
   * hash code with 32-bit wrap-around.
   */
  method HashCodeOf(schedule: set<seq<int>>) returns (hash: int)
    ensures hash == SetHash(schedule)
  {
    hash := 0;
    var rest := schedule;
    while rest != {}
      invariant rest <= schedule
      invariant -TwoTo31 <= hash < TwoTo31
      invariant Int32(hash + SetSum(rest)) == SetHash(schedule)
      decreases |rest|
    {
      Inhabited(rest);
      var x :| x in rest;
      SetSumRemove(rest, x);
      Int32Add(hash + ListHash(x), SetSum(rest - {x}));
      hash := Int32(hash + ListHash(x));
      rest := rest - {x};
    }
    Int32InRange(hash);
  }

  /**
   * generateHashCode (PartialSchedule.java:18-41): the int hash code of the set of per-processor
   * stacks.  The input arrays are only read.
   */
  method GenerateHashCode(startTimes: array<int>, scheduledOn: array<int>, numProcessors: nat)
    returns (hash: int)
    requires ProcessorsInRange(startTimes[..], scheduledOn[..], numProcessors)
    ensures -TwoTo31 <= hash < TwoTo31
    ensures hash == SetHash(Fingerprint(startTimes[..], scheduledOn[..], numProcessors))
  {
    var schedule := Fingerprints.GenerateHashCode(startTimes, scheduledOn, numProcessors);
    hash := HashCodeOf(schedule);
  }

  /** Relabelling the processors leaves the int unchanged, as it leaves the set of stacks. */
  lemma RelabelledSameHash(startTimes: seq<int>, scheduledOn: seq<int>, relabelled: seq<int>,
                           perm: seq<int>, numProcessors: int)
    requires ProcessorsInRange(startTimes, scheduledOn, numProcessors)
    requires IsPermutation(perm, numProcessors)
    requires |relabelled| == |scheduledOn|
    requires forall i :: 0 <= i < |startTimes| && startTimes[i] != Unscheduled ==> relabelled[i] == perm[scheduledOn[i]]
    ensures SetHash(Fingerprint(startTimes, relabelled, numProcessors)) == SetHash(Fingerprint(startTimes, scheduledOn, numProcessors))
  {
    RelabelFingerprint(startTimes, scheduledOn, relabelled, perm, numProcessors);
  }

  /**
   * The converse does not hold: on one processor, task 0 starting at 31 and task 1 starting at 0
   * give different stacks, [0, 31] and [1, 0], with the same hash code 992.
   */
  lemma HashCollision()
    ensures Fingerprint([31, -1], [0, 0], 1) == {[0, 31]}
    ensures Fingerprint([-1, 0], [0, 0], 1) == {[1, 0]}
    ensures SetHash({[0, 31]}) == SetHash({[1, 0]}) == 992
  {
    assert Stack([31, -1], [0, 0], 0, 2) == [0, 31] by {
      assert Stack([31, -1], [0, 0], 0, 1) == [0, 31];
    }
    assert Stack([-1, 0], [0, 0], 0, 2) == [1, 0] by {
      assert Stack([-1, 0], [0, 0], 0, 1) == [];
    }
    SingletonHash([0, 31]);
    SingletonHash([1, 0]);
    PairHash(0, 31);
    PairHash(1, 0);
    Int32InRange(992);
  }

  lemma SingletonHash(s: seq<int>)
    ensures SetSum({s}) == ListHash(s)
  {
    SetSumRemove({s}, s);
    assert {s} - {s} == {};
  }

  /** The hash code of a two-element stack of small non-negative numbers, before wrapping. */
  lemma PairHash(a: int, b: int)
    requires 0 <= a < 1000 && 0 <= b < 1000
    ensures ListHash([a, b]) == 961 + 31 * a + b
  {
    assert [a, b][..1] == [a];
    assert [a][..0] == [];
    Int32InRange(a);
    Int32InRange(b);
    Int32InRange(31 + a);
    Int32InRange(961 + 31 * a + b);
    assert ListHash([a]) == 31 + a;
    assert 31 * (31 + a) + b == 961 + 31 * a + b;
  }
}
