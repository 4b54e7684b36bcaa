/**
 * The partial-schedule fingerprint (solution/helpers/PartialScheduleHashGenerator.java).  Each
 * processor gets a stack of (task id, start time) pairs for the tasks placed on it, in increasing
 * task id, and the fingerprint is the set of those stacks.  The hash code Java takes of each
 * stack is kept abstract: the stack itself stands for it, so two fingerprints are equal exactly
 * when the sets of stacks are.
 */
module Fingerprints {

  /** A start time of -1 marks a task that is not scheduled. */
  const Unscheduled := -1

  /** Every scheduled task names a processor in range. */
  predicate ProcessorsInRange(startTimes: seq<int>, scheduledOn: seq<int>, numProcessors: int)
  {
    |scheduledOn| >= |startTimes| &&
    forall i :: 0 <= i < |startTimes| && startTimes[i] != Unscheduled ==> 0 <= scheduledOn[i] < numProcessors
  }

  /** The stack of processor p after the first k tasks: id then start time of each task placed on p. */
  function Stack(startTimes: seq<int>, scheduledOn: seq<int>, p: int, k: nat): seq<int>
    requires k <= |startTimes| <= |scheduledOn|
  {
    if k == 0 then []
    else Stack(startTimes, scheduledOn, p, k - 1)
         + (if startTimes[k - 1] != Unscheduled && scheduledOn[k - 1] == p then [k - 1, startTimes[k - 1]] else [])
  }

  /** The fingerprint: the set of all processors' stacks. */
  function Fingerprint(startTimes: seq<int>, scheduledOn: seq<int>, numProcessors: int): set<seq<int>>
    requires |startTimes| <= |scheduledOn|
  {
    set p | 0 <= p < numProcessors :: Stack(startTimes, scheduledOn, p, |startTimes|)
  }

  /**
   * generateHashCode (PartialScheduleHashGenerator.java:26-48): fills one stack per processor in
   * task order and collects the stacks in a set.  The input arrays are only read.
   */
  method GenerateHashCode(startTimes: array<int>, scheduledOn: array<int>, numProcessors: nat)
    returns (schedule: set<seq<int>>)
    requires ProcessorsInRange(startTimes[..], scheduledOn[..], numProcessors)
    ensures schedule == Fingerprint(startTimes[..], scheduledOn[..], numProcessors)
  {
    var stacks := new seq<int>[numProcessors](_ => []);
    var i := 0;
    while i < startTimes.Length
      invariant 0 <= i <= startTimes.Length
      invariant forall p :: 0 <= p < numProcessors ==> stacks[p] == Stack(startTimes[..], scheduledOn[..], p, i)
    {
      if startTimes[i] != Unscheduled {
        var p := scheduledOn[i];
        stacks[p] := stacks[p] + [i];
        stacks[p] := stacks[p] + [startTimes[i]];
      }
      i := i + 1;
    }

    schedule := {};
    var q := 0;
    while q < numProcessors
      invariant 0 <= q <= numProcessors
      invariant schedule == set p | 0 <= p < q :: stacks[p]
    {
      schedule := schedule + {stacks[q]};
      q := q + 1;
    }
  }

  /** A stack holds pairs: each id of a scheduled task on its processor, followed by that task's start time. */
  lemma {:induction false} StackEntries(startTimes: seq<int>, scheduledOn: seq<int>, p: int, k: nat)
    requires k <= |startTimes| <= |scheduledOn|
    ensures var s := Stack(startTimes, scheduledOn, p, k);
      && |s| % 2 == 0
      && forall m :: 0 <= m < |s| / 2 ==>
           0 <= s[2 * m] < k && startTimes[s[2 * m]] != Unscheduled && scheduledOn[s[2 * m]] == p
           && s[2 * m + 1] == startTimes[s[2 * m]]
  {
    if k > 0 {
      StackEntries(startTimes, scheduledOn, p, k - 1);
      var prev := Stack(startTimes, scheduledOn, p, k - 1);
      var s := Stack(startTimes, scheduledOn, p, k);
      if startTimes[k - 1] != Unscheduled && scheduledOn[k - 1] == p {
        assert s == prev + [k - 1, startTimes[k - 1]];
        forall m | 0 <= m < |prev| / 2 ensures s[2 * m] == prev[2 * m] && s[2 * m + 1] == prev[2 * m + 1] {
        }
      } else {
        assert s == prev;
      }
    }
  }

  /** The ids in a stack are strictly increasing, so a stack names each task at most once. */
  lemma {:induction false} StackIncreasing(startTimes: seq<int>, scheduledOn: seq<int>, p: int, k: nat)
    requires k <= |startTimes| <= |scheduledOn|
    ensures var s := Stack(startTimes, scheduledOn, p, k);
      forall m :: 0 <= m < |s| / 2 - 1 ==> s[2 * m] < s[2 * m + 2]
  {
    if k > 0 {
      StackIncreasing(startTimes, scheduledOn, p, k - 1);
      var prev := Stack(startTimes, scheduledOn, p, k - 1);
      var s := Stack(startTimes, scheduledOn, p, k);
      if startTimes[k - 1] != Unscheduled && scheduledOn[k - 1] == p {
        StackEntries(startTimes, scheduledOn, p, k - 1);
        assert s == prev + [k - 1, startTimes[k - 1]];
        forall m | 0 <= m < |s| / 2 - 1 ensures s[2 * m] < s[2 * m + 2] {
          assert s[2 * m] == prev[2 * m];
          if m + 1 < |prev| / 2 {
            assert s[2 * m + 2] == prev[2 * m + 2];
          } else {
            assert s[2 * m + 2] == k - 1;
          }
        }
      } else {
        assert s == prev;
      }
    }
  }

  /** A stack has an even length. */
  lemma {:induction false} StackEven(startTimes: seq<int>, scheduledOn: seq<int>, p: int, k: nat)
    requires k <= |startTimes| <= |scheduledOn|
    ensures |Stack(startTimes, scheduledOn, p, k)| % 2 == 0
  {
    if k > 0 {
      StackEven(startTimes, scheduledOn, p, k - 1);
    }
  }

  /** Task i is one of the ids listed in stack s. */
  predicate Listed(s: seq<int>, i: int)
  {
    exists m :: 0 <= m < |s| / 2 && s[2 * m] == i
  }

  /** Every scheduled task among the first k that sits on processor p appears in p's stack. */
  lemma {:induction false} StackComplete(startTimes: seq<int>, scheduledOn: seq<int>, p: int, k: nat)
    requires k <= |startTimes| <= |scheduledOn|
    ensures forall i :: 0 <= i < k && startTimes[i] != Unscheduled && scheduledOn[i] == p ==>
              Listed(Stack(startTimes, scheduledOn, p, k), i)
  {
    if k > 0 {
      StackComplete(startTimes, scheduledOn, p, k - 1);
      StackEven(startTimes, scheduledOn, p, k - 1);
      var prev := Stack(startTimes, scheduledOn, p, k - 1);
      var s := Stack(startTimes, scheduledOn, p, k);
      forall i | 0 <= i < k && startTimes[i] != Unscheduled && scheduledOn[i] == p ensures Listed(s, i) {
        if i < k - 1 {
          assert Listed(prev, i);
          var m :| 0 <= m < |prev| / 2 && prev[2 * m] == i;
          assert s[2 * m] == i;
        } else {
          assert s == prev + [k - 1, startTimes[k - 1]];
          assert s[2 * (|prev| / 2)] == i;
        }
      }
    }
  }

  /** Only scheduled tasks contribute: the processor recorded for an unscheduled task does not matter. */
  lemma {:induction false} UnscheduledIgnored(startTimes: seq<int>, scheduledOn: seq<int>, other: seq<int>, p: int, k: nat)
    requires k <= |startTimes| <= |scheduledOn| && |other| == |scheduledOn|
    requires forall i :: 0 <= i < |startTimes| && startTimes[i] != Unscheduled ==> other[i] == scheduledOn[i]
    ensures Stack(startTimes, other, p, k) == Stack(startTimes, scheduledOn, p, k)
  {
    if k > 0 {
      UnscheduledIgnored(startTimes, scheduledOn, other, p, k - 1);
    }
  }

  /** `perm` is a bijection of the processor indices 0..n-1. */
  predicate IsPermutation(perm: seq<int>, n: int)
  {
    |perm| == n &&
    (forall p :: 0 <= p < n ==> 0 <= perm[p] < n) &&
    (forall p, q :: 0 <= p < q < n ==> perm[p] != perm[q])
  }

  /** Relabelling the processors of every scheduled task moves each stack to the new label unchanged. */
  lemma {:induction false} RelabelStack(startTimes: seq<int>, scheduledOn: seq<int>, relabelled: seq<int>,
                                        perm: seq<int>, numProcessors: int, p: int, k: nat)
    requires ProcessorsInRange(startTimes, scheduledOn, numProcessors) && IsPermutation(perm, numProcessors)
    requires |relabelled| >= |startTimes| && 0 <= p < numProcessors && k <= |startTimes|
    requires forall i :: 0 <= i < |startTimes| && startTimes[i] != Unscheduled ==> relabelled[i] == perm[scheduledOn[i]]
    ensures Stack(startTimes, relabelled, perm[p], k) == Stack(startTimes, scheduledOn, p, k)
  {
    if k > 0 {
      RelabelStack(startTimes, scheduledOn, relabelled, perm, numProcessors, p, k - 1);
    }
  }

  /** The fingerprint does not depend on the processors' labels. */
  lemma RelabelFingerprint(startTimes: seq<int>, scheduledOn: seq<int>, relabelled: seq<int>,
                           perm: seq<int>, numProcessors: int)
    requires ProcessorsInRange(startTimes, scheduledOn, numProcessors) && IsPermutation(perm, numProcessors)
    requires |relabelled| >= |startTimes|
    requires forall i :: 0 <= i < |startTimes| && startTimes[i] != Unscheduled ==> relabelled[i] == perm[scheduledOn[i]]
    ensures Fingerprint(startTimes, relabelled, numProcessors) == Fingerprint(startTimes, scheduledOn, numProcessors)
  {
    var n := |startTimes|;
    forall p | 0 <= p < numProcessors
      ensures Stack(startTimes, relabelled, perm[p], n) == Stack(startTimes, scheduledOn, p, n)
    {
      RelabelStack(startTimes, scheduledOn, relabelled, perm, numProcessors, p, n);
    }
    forall s | s in Fingerprint(startTimes, relabelled, numProcessors)
      ensures s in Fingerprint(startTimes, scheduledOn, numProcessors)
    {
      var q :| 0 <= q < numProcessors && s == Stack(startTimes, relabelled, q, n);
      var p := PreImage(perm, numProcessors, q);
      assert Stack(startTimes, relabelled, perm[p], n) == Stack(startTimes, scheduledOn, p, n);
    }
    forall s | s in Fingerprint(startTimes, scheduledOn, numProcessors)
      ensures s in Fingerprint(startTimes, relabelled, numProcessors)
    {
      var p :| 0 <= p < numProcessors && s == Stack(startTimes, scheduledOn, p, n);
      assert s == Stack(startTimes, relabelled, perm[p], n);
    }
  }

  /** Every label is the image of some label under a permutation. */
  lemma PreImage(perm: seq<int>, n: int, q: int) returns (p: int)
    requires IsPermutation(perm, n) && 0 <= q < n
    ensures 0 <= p < n && perm[p] == q
  {
    var image := set p | 0 <= p < n :: perm[p];
    ImageSize(perm, n, n);
    RangeSize(n);
    if q !in image {
      SubsetSize(image, RangeSet(n) - {q});
      assert false;
    }
    p :| 0 <= p < n && perm[p] == q;
  }

  /** The indices 0..n-1 as a set. */
  function RangeSet(n: int): (r: set<int>)
    ensures forall x :: x in r <==> 0 <= x < n
    decreases n
  {
    if n <= 0 then {} else RangeSet(n - 1) + {n - 1}
  }

  lemma {:induction false} RangeSize(n: int)
    ensures n >= 0 ==> |RangeSet(n)| == n
    decreases n
  {
    if n > 0 {
      RangeSize(n - 1);
    }
  }

  /** A subset is no larger than the set containing it. */
  lemma SubsetSize(a: set<int>, b: set<int>)
    requires a <= b
    ensures |a| <= |b|
  {
    assert b == a + (b - a);
    assert a * (b - a) == {};
  }

  /** An injective sequence of labels has as many distinct images as labels. */
  lemma {:induction false} ImageSize(perm: seq<int>, n: int, k: int)
    requires IsPermutation(perm, n) && 0 <= k <= n
    ensures |set p | 0 <= p < k :: perm[p]| == k
  {
    if k > 0 {
      ImageSize(perm, n, k - 1);
      var before := set p | 0 <= p < k - 1 :: perm[p];
      assert (set p | 0 <= p < k :: perm[p]) == before + {perm[k - 1]};
      assert perm[k - 1] !in before;
    }
  }

  /** There are at most as many distinct stacks as processors. */
  lemma {:induction false} FingerprintSize(startTimes: seq<int>, scheduledOn: seq<int>, numProcessors: int)
    requires |startTimes| <= |scheduledOn| && numProcessors >= 0
    ensures |Fingerprint(startTimes, scheduledOn, numProcessors)| <= numProcessors
  {
    if numProcessors > 0 {
      FingerprintSize(startTimes, scheduledOn, numProcessors - 1);
      assert Fingerprint(startTimes, scheduledOn, numProcessors) ==
             Fingerprint(startTimes, scheduledOn, numProcessors - 1) + {Stack(startTimes, scheduledOn, numProcessors - 1, |startTimes|)};
    }
  }

  /** With nothing scheduled every stack is empty, so all processors collapse into one element. */
  lemma {:induction false} NothingScheduled(startTimes: seq<int>, scheduledOn: seq<int>, numProcessors: int)
    requires |startTimes| <= |scheduledOn| && numProcessors >= 1
    requires forall i :: 0 <= i < |startTimes| ==> startTimes[i] == Unscheduled
    ensures Fingerprint(startTimes, scheduledOn, numProcessors) == {[]}
  {
    forall p, k | 0 <= k <= |startTimes| ensures Stack(startTimes, scheduledOn, p, k) == [] {
      EmptyStack(startTimes, scheduledOn, p, k);
    }
    assert Stack(startTimes, scheduledOn, 0, |startTimes|) in Fingerprint(startTimes, scheduledOn, numProcessors);
  }

  lemma {:induction false} EmptyStack(startTimes: seq<int>, scheduledOn: seq<int>, p: int, k: nat)
    requires k <= |startTimes| <= |scheduledOn|
    requires forall i :: 0 <= i < |startTimes| ==> startTimes[i] == Unscheduled
    ensures Stack(startTimes, scheduledOn, p, k) == []
  {
    if k > 0 {
      EmptyStack(startTimes, scheduledOn, p, k - 1);
    }
  }
}
