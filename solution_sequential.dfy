/**
 * The sequential branch-and-bound scheduler (solution/SolutionSequential.java, with the fields it
 * inherits from solution/Solution.java).  A depth-first search over one mutable state: the
 * in-degrees, start times, processors and processor finish times of the tasks, the remaining
 * duration and the candidate list.  Every change made on the way down is undone on the way back,
 * the best complete schedule is recorded, and equivalent partial schedules are recognised by their
 * fingerprint.  What the search keeps true of its state is stated on the schedule the arrays
 * describe (`SearchRules.View`); the ghost `graph` is the graph as given, before its lists were
 * sorted, and the ghost `rank` witnesses that it is acyclic.
 */
module Search {
  import opened Wrappers
  import opened Seqs
  import opened Graph
  import opened Tasks
  import opened Schedules
  import opened Frontiers
  import opened PreProcessing
  import opened Fingerprints
  import opened SearchRules

  /** findMaxInArray (SolutionSequential.java:258-265): the largest entry, `Integer.MIN_VALUE` when there is none. */
  method FindMaxInArray(arr: array<int>) returns (max: int)
    ensures max == MaxFrom(IntMin, arr[..])
  {
    max := IntMin;
    for j := 0 to arr.Length
      invariant max == MaxFrom(IntMin, arr[..j])
    {
      assert arr[..j + 1][..j] == arr[..j];
      max := Max(max, arr[j]);
    }
    assert arr[..arr.Length] == arr[..];
  }

  /**
   * The loop over the processors that opens every search step (SolutionSequential.java:72-77,
   * 406-411): the smallest finish time, starting from `Integer.MAX_VALUE`, and the largest, from 0.
   */
  method FinishTimeRange(processorFinishTimes: array<int>) returns (earliest: int, latest: int)
    ensures earliest == MinFrom(IntMax, processorFinishTimes[..])
    ensures latest == MaxFrom(0, processorFinishTimes[..])
  {
    earliest := IntMax;
    latest := 0;
    for l := 0 to processorFinishTimes.Length
      invariant earliest == MinFrom(IntMax, processorFinishTimes[..l])
      invariant latest == MaxFrom(0, processorFinishTimes[..l])
    {
      assert processorFinishTimes[..l + 1][..l] == processorFinishTimes[..l];
      earliest := Min(processorFinishTimes[l], earliest);
      latest := Max(processorFinishTimes[l], latest);
    }
    assert processorFinishTimes[..processorFinishTimes.Length] == processorFinishTimes[..];
  }

  /**
   * calculateLongestCriticalPath (SolutionSequential.java:522-532, repeated inline at 413-419):
   * the largest bottom level among the candidates, or 0.
   */
  method CalculateLongestCriticalPath(maxLengthToExitNode: array<int>, candidateTasks: seq<int>)
    returns (longestCriticalPath: int)
    requires AllBelow(candidateTasks, maxLengthToExitNode.Length)
    ensures longestCriticalPath == MaxFrom(0, CriticalPaths(maxLengthToExitNode[..], candidateTasks))
  {
    longestCriticalPath := 0;
    for k := 0 to |candidateTasks|
      invariant longestCriticalPath == MaxFrom(0, CriticalPaths(maxLengthToExitNode[..], candidateTasks[..k]))
    {
      assert CriticalPaths(maxLengthToExitNode[..], candidateTasks[..k + 1])[..k]
          == CriticalPaths(maxLengthToExitNode[..], candidateTasks[..k]);
      var criticalPath := maxLengthToExitNode[candidateTasks[k]];
      if criticalPath > longestCriticalPath {
        longestCriticalPath := criticalPath;
      }
    }
    assert candidateTasks[..|candidateTasks|] == candidateTasks;
  }

  /**
   * The data-arrival loop of a search step (SolutionSequential.java:117-135): the latest arrival of
   * a parent's data, the processor of that parent, and the latest arrival from any parent on
   * another processor.  Every parent is bounded by the first figure, every parent off the
   * processor causing it by the last, and the first is 0 or attained by a parent on that processor.
   */
  method DataArrivals(taskGraph: TaskGraph, taskStartTimes: array<int>, scheduledOn: array<int>, candidateTask: int)
    returns (maxDataArrival: int, processorCausingMaxDataArrival: int, secondMaxDataArrival: int)
    requires taskGraph.WellFormed() && 0 <= candidateTask < taskGraph.numberOfTasks
    requires taskStartTimes.Length == taskGraph.numberOfTasks && scheduledOn.Length == taskGraph.numberOfTasks
    ensures 0 <= secondMaxDataArrival <= maxDataArrival
    ensures forall q :: q in taskGraph.parentsList[candidateTask] ==>
              && Arrival(taskGraph, taskStartTimes[..], q, candidateTask) <= maxDataArrival
              && (scheduledOn[q] != processorCausingMaxDataArrival ==>
                    Arrival(taskGraph, taskStartTimes[..], q, candidateTask) <= secondMaxDataArrival)
    ensures maxDataArrival == 0 ||
            exists q :: q in taskGraph.parentsList[candidateTask] && scheduledOn[q] == processorCausingMaxDataArrival &&
                        Arrival(taskGraph, taskStartTimes[..], q, candidateTask) == maxDataArrival
  {
    maxDataArrival := 0;
    processorCausingMaxDataArrival := 0;
    secondMaxDataArrival := 0;
    var parents := taskGraph.GetParentsList(candidateTask);
    for k := 0 to |parents|
      invariant 0 <= secondMaxDataArrival <= maxDataArrival
      invariant forall j :: 0 <= j < k ==>
                  && Arrival(taskGraph, taskStartTimes[..], parents[j], candidateTask) <= maxDataArrival
                  && (scheduledOn[parents[j]] != processorCausingMaxDataArrival ==>
                        Arrival(taskGraph, taskStartTimes[..], parents[j], candidateTask) <= secondMaxDataArrival)
      invariant maxDataArrival == 0 ||
                exists j :: 0 <= j < k && scheduledOn[parents[j]] == processorCausingMaxDataArrival &&
                            Arrival(taskGraph, taskStartTimes[..], parents[j], candidateTask) == maxDataArrival
    {
      var parent := parents[k];
      var dataArrival := taskStartTimes[parent] + taskGraph.GetDuration(parent) + taskGraph.GetCommCost(parent, candidateTask);
      assert dataArrival == Arrival(taskGraph, taskStartTimes[..], parent, candidateTask);
      if dataArrival >= maxDataArrival {
        if scheduledOn[parent] != processorCausingMaxDataArrival {
          secondMaxDataArrival := maxDataArrival;
        }
        maxDataArrival := dataArrival;
        processorCausingMaxDataArrival := scheduledOn[parent];
      } else if dataArrival >= secondMaxDataArrival {
        if scheduledOn[parent] != processorCausingMaxDataArrival {
          secondMaxDataArrival := dataArrival;
        }
      }
    }
    forall q | q in taskGraph.parentsList[candidateTask]
      ensures && Arrival(taskGraph, taskStartTimes[..], q, candidateTask) <= maxDataArrival
              && (scheduledOn[q] != processorCausingMaxDataArrival ==>
                    Arrival(taskGraph, taskStartTimes[..], q, candidateTask) <= secondMaxDataArrival)
    {
      var j :| 0 <= j < |parents| && parents[j] == q;
    }
  }

  /** Lowering the in-degrees of a task's children and raising them again gives the in-degrees back. */
  lemma Unlowered(before: seq<int>, lowered: seq<int>, after: seq<int>, children: seq<int>)
    requires |lowered| == |before| && |after| == |before|
    requires forall c :: 0 <= c < |before| ==> lowered[c] == before[c] - (if c in children then 1 else 0)
    requires forall c :: 0 <= c < |before| ==> after[c] == lowered[c] + (if c in children then 1 else 0)
    ensures after == before
  {
  }

  /**
   * The backtracking loop over the children (SolutionSequential.java:190-196): each child's
   * in-degree goes back up by one, and each child whose in-degree comes back to 1 (it was
   * released) is taken off the end of the list, which gives back the list before the release.
   */
  method RestoreChildren(taskGraph: TaskGraph, inDegrees: array<int>, candidateTask: int, released: seq<int>,
                         ghost before: seq<int>)
    returns (candidateTasks: seq<int>)
    requires taskGraph.WellFormed() && 0 <= candidateTask < taskGraph.numberOfTasks
    requires inDegrees.Length == taskGraph.numberOfTasks
    requires |before| <= |released| && released[..|before|] == before
    requires |released| == |before| + Zeros(taskGraph.childrenList[candidateTask], inDegrees[..])
    modifies inDegrees
    ensures forall c :: 0 <= c < inDegrees.Length ==>
              inDegrees[c] == old(inDegrees[c]) + (if c in taskGraph.childrenList[candidateTask] then 1 else 0)
    ensures candidateTasks == before
  {
    var candidateChildren := taskGraph.GetChildrenList(candidateTask);
    ghost var lowered := inDegrees[..];
    candidateTasks := released;
    for i := 0 to |candidateChildren|
      invariant |inDegrees[..]| == |lowered|
      invariant RestoredSoFar(candidateChildren, lowered, inDegrees[..], i, released, candidateTasks)
    {
      candidateTasks := RestoreChild(inDegrees, candidateChildren, i, candidateTasks, lowered, released);
    }
    assert candidateChildren[..|candidateChildren|] == candidateChildren;
  }

  /**
   * Where the backtracking loop stands after its first i turns: each of the first i children has
   * its in-degree back up by one, and one task has come off the end of the list for each of them
   * that had been released.
   */
  ghost predicate RestoredSoFar(children: seq<int>, lowered: seq<int>, inDegrees: seq<int>, i: int,
                                released: seq<int>, candidateTasks: seq<int>)
    requires 0 <= i <= |children| && AllBelow(children, |lowered|) && |inDegrees| == |lowered|
  {
    && (forall c :: 0 <= c < |inDegrees| ==> inDegrees[c] == lowered[c] + (if c in children[..i] then 1 else 0))
    && |candidateTasks| == |released| - Zeros(children[..i], lowered)
    && candidateTasks == released[..|candidateTasks|]
  }

  /**
   * Turn p of a processor loop placed the task exactly when the isomorphism rule keeps p, `kept`
   * lets p through, and the start `starts[p]` plus the task's bottom level stays below
   * `bestAt[p]`, the best finish time at the start of that turn.
   */
  ghost predicate TriedAt(finishTimes: seq<int>, starts: seq<int>, kept: seq<bool>, bLevel: int, tried: seq<bool>,
                          bestAt: seq<int>, p: int)
  {
    && 0 <= p < |finishTimes| && p < |starts| && p < |kept| && p < |tried| && p < |bestAt|
    && (tried[p] <==> NotIsomorphic(finishTimes, p) && kept[p] && starts[p] + bLevel < bestAt[p])
  }

  /** The best finish time recorded at a later turn j is at most the one at turn i. */
  ghost predicate BestsAt(bestAt: seq<int>, best: int, best0: int, i: int, j: int)
  {
    0 <= i <= j < |bestAt| ==> best <= bestAt[j] <= bestAt[i] <= best0
  }

  /**
   * Where a processor loop stands after its first k turns (SolutionSequential.java:141-169,
   * 446-463).  The flag says whether an idle processor has come up, the first k turns are as
   * `TriedAt` says, and the recorded best finish times begin at `best0`, never go up, and the
   * current `best` is at most all of them.
   */
  ghost predicate TriedSoFar(finishTimes: seq<int>, starts: seq<int>, kept: seq<bool>, bLevel: int, k: int,
                             hasBeenScheduledAtStart: bool, tried: seq<bool>, bestAt: seq<int>, best: int, best0: int)
  {
    && 0 <= k <= |finishTimes| && |starts| == |finishTimes| && |kept| == |finishTimes|
    && |tried| == k && |bestAt| == k
    && (hasBeenScheduledAtStart <==> FirstIdle(finishTimes) < k)
    && (forall p :: 0 <= p < k ==> TriedAt(finishTimes, starts, kept, bLevel, tried, bestAt, p))
    && (k == 0 ==> best == best0)
    && (k > 0 ==> bestAt[0] == best0)
    && forall i, j :: BestsAt(bestAt, best, best0, i, j)
  }

  /** One more turn of a processor loop, placing the task or not as the turn's rules say. */
  lemma TriedStep(finishTimes: seq<int>, starts: seq<int>, kept: seq<bool>, bLevel: int, k: int,
                  hasBeenScheduledAtStart: bool, scheduledAtStart: bool, tried: seq<bool>, tried': seq<bool>,
                  bestAt: seq<int>, bestAt': seq<int>, best: int, best': int, best0: int, placed: bool)
    requires TriedSoFar(finishTimes, starts, kept, bLevel, k, hasBeenScheduledAtStart, tried, bestAt, best, best0)
    requires k < |finishTimes| && (scheduledAtStart <==> FirstIdle(finishTimes) < k + 1)
    requires placed <==> NotIsomorphic(finishTimes, k) && kept[k] && starts[k] + bLevel < best
    requires best' <= best
    requires tried' == tried + [placed] && bestAt' == bestAt + [best]
    ensures TriedSoFar(finishTimes, starts, kept, bLevel, k + 1, scheduledAtStart, tried', bestAt', best', best0)
  {
    forall p | 0 <= p < k + 1 ensures TriedAt(finishTimes, starts, kept, bLevel, tried', bestAt', p) {
      if p < k {
        assert TriedAt(finishTimes, starts, kept, bLevel, tried, bestAt, p);
      }
    }
    assert best <= best0 by {
      if k > 0 {
        assert BestsAt(bestAt, best, best0, 0, 0);
      }
    }
    forall i, j ensures BestsAt(bestAt', best', best0, i, j) {
      if 0 <= i <= j < k {
        assert BestsAt(bestAt, best, best0, i, j);
      } else if 0 <= i < k {
        assert BestsAt(bestAt, best, best0, i, i);
      }
    }
  }

  /** What a finished processor loop has tried, with its rules written out. */
  lemma TriedAll(finishTimes: seq<int>, starts: seq<int>, kept: seq<bool>, bLevel: int, hasBeenScheduledAtStart: bool,
                 tried: seq<bool>, bestAt: seq<int>, best: int, best0: int)
    requires TriedSoFar(finishTimes, starts, kept, bLevel, |finishTimes|, hasBeenScheduledAtStart, tried, bestAt, best,
                        best0)
    ensures |tried| == |finishTimes|
    ensures forall p :: 0 <= p < |finishTimes| ==>
              (tried[p] <==> NotIsomorphic(finishTimes, p) && kept[p] && starts[p] + bLevel < bestAt[p])
    ensures forall i, j :: 0 <= i <= j < |bestAt| ==> best <= bestAt[j] <= bestAt[i] <= best0
  {
    forall p | 0 <= p < |finishTimes|
      ensures tried[p] <==> NotIsomorphic(finishTimes, p) && kept[p] && starts[p] + bLevel < bestAt[p]
    {
      assert TriedAt(finishTimes, starts, kept, bLevel, tried, bestAt, p);
    }

    forall i, j | 0 <= i <= j < |bestAt| ensures best <= bestAt[j] <= bestAt[i] <= best0 {
      assert BestsAt(bestAt, best, best0, i, j);
    }
  }

  /** A finished processor loop of the general search, with its three rules written out. */
  lemma ExploreTriedAll(finishTimes: seq<int>, starts: seq<int>, kept: seq<bool>, bLevel: int,
                        hasBeenScheduledAtStart: bool, tried: seq<bool>, bestAt: seq<int>, best: int, best0: int,
                        maxDataArrival: int, processorCausingMaxDataArrival: int, secondMaxDataArrival: int,
                        childAdded: bool, previousProcessor: int)
    requires TriedSoFar(finishTimes, starts, kept, bLevel, |finishTimes|, hasBeenScheduledAtStart, tried, bestAt, best,
                        best0)
    requires forall p :: 0 <= p < |finishTimes| ==>
               starts[p] == ArrivalStart(finishTimes[p], p, maxDataArrival, processorCausingMaxDataArrival,
                                         secondMaxDataArrival)
    requires forall p :: 0 <= p < |finishTimes| ==> kept[p] == (childAdded || p >= previousProcessor)
    ensures |tried| == |finishTimes| && |bestAt| == |finishTimes|
    ensures |finishTimes| > 0 ==> bestAt[0] == best0
    ensures forall i, j :: 0 <= i <= j < |bestAt| ==> best <= bestAt[j] <= bestAt[i] <= best0
    ensures forall p :: 0 <= p < |finishTimes| ==>
              (tried[p] <==> NotIsomorphic(finishTimes, p) && (childAdded || p >= previousProcessor) &&
                             ArrivalStart(finishTimes[p], p, maxDataArrival, processorCausingMaxDataArrival,
                                          secondMaxDataArrival) + bLevel < bestAt[p])
    ensures forall p :: 0 <= p < |finishTimes| && tried[p] && finishTimes[p] == 0 ==> p == FirstIdle(finishTimes)
  {
    TriedAll(finishTimes, starts, kept, bLevel, hasBeenScheduledAtStart, tried, bestAt, best, best0);
  }

  /** A finished processor loop of the FTO search, with its two rules written out. */
  lemma FtoTriedAll(g: TaskGraph, starts0: seq<int>, on0: seq<int>, t: int, finishTimes: seq<int>, starts: seq<int>,
                    kept: seq<bool>, bLevel: int, hasBeenScheduledAtStart: bool, tried: seq<bool>, bestAt: seq<int>,
                    best: int, best0: int)
    requires g.Shaped() && |starts0| == g.numberOfTasks && |on0| == g.numberOfTasks && 0 <= t < g.numberOfTasks
    requires TriedSoFar(finishTimes, starts, kept, bLevel, |finishTimes|, hasBeenScheduledAtStart, tried, bestAt, best,
                        best0)
    requires forall p :: 0 <= p < |finishTimes| ==> starts[p] == EarliestStartOn(g, starts0, on0, finishTimes, p, t)
    requires forall p :: 0 <= p < |finishTimes| ==> kept[p]
    ensures |tried| == |finishTimes| && |bestAt| == |finishTimes|
    ensures |finishTimes| > 0 ==> bestAt[0] == best0
    ensures forall i, j :: 0 <= i <= j < |bestAt| ==> best <= bestAt[j] <= bestAt[i] <= best0
    ensures forall p :: 0 <= p < |finishTimes| ==>
              (tried[p] <==> NotIsomorphic(finishTimes, p) &&
                             EarliestStartOn(g, starts0, on0, finishTimes, p, t) + bLevel < bestAt[p])
    ensures forall p :: 0 <= p < |finishTimes| && tried[p] && finishTimes[p] == 0 ==> p == FirstIdle(finishTimes)
  {
    TriedAll(finishTimes, starts, kept, bLevel, hasBeenScheduledAtStart, tried, bestAt, best, best0);
  }
  /** One turn of the backtracking loop, stated as the step from the first i children to the first i + 1. */
  method RestoreChild(inDegrees: array<int>, children: seq<int>, i: int, candidateTasks: seq<int>,
                      ghost lowered: seq<int>, ghost released: seq<int>)
    returns (restored: seq<int>)
    requires Distinct(children) && AllBelow(children, inDegrees.Length) && 0 <= i < |children|
    requires |lowered| == inDegrees.Length && Zeros(children, lowered) <= |released|
    requires RestoredSoFar(children, lowered, inDegrees[..], i, released, candidateTasks)
    modifies inDegrees
    ensures RestoredSoFar(children, lowered, inDegrees[..], i + 1, released, restored)
  {
    var candidateChild := children[i];
    ghost var before := inDegrees[..];
    DistinctOnce(children, i);
    assert before[candidateChild] == lowered[candidateChild];
    ZerosPrefix(children, lowered, i + 1);
    assert children[..i + 1][..i] == children[..i];
    inDegrees[candidateChild] := inDegrees[candidateChild] + 1;
    restored := candidateTasks;
    if inDegrees[candidateChild] == 1 {
      restored := candidateTasks[..|candidateTasks| - 1];
    }
    RestoredStep(children, i, lowered, before, inDegrees[..], released, candidateTasks, restored);
  }

  /** The bookkeeping of one turn of the backtracking loop, on the in-degrees before and after the turn. */
  lemma RestoredStep(children: seq<int>, i: int, lowered: seq<int>, before: seq<int>, after: seq<int>,
                     released: seq<int>, candidateTasks: seq<int>, restored: seq<int>)
    requires Distinct(children) && AllBelow(children, |lowered|) && 0 <= i < |children|
    requires |before| == |lowered| && RestoredSoFar(children, lowered, before, i, released, candidateTasks)
    requires after == before[children[i] := before[children[i]] + 1]
    requires |candidateTasks| >= (if after[children[i]] == 1 then 1 else 0)
    requires restored == if after[children[i]] == 1 then candidateTasks[..|candidateTasks| - 1] else candidateTasks
    ensures RestoredSoFar(children, lowered, after, i + 1, released, restored)
  {
    var child := children[i];
    assert children[..i + 1][..i] == children[..i];
    DistinctOnce(children, i);
    assert children[..i + 1] == children[..i] + [child];
    forall c | 0 <= c < |after| ensures after[c] == lowered[c] + (if c in children[..i + 1] then 1 else 0) {
      assert c in children[..i + 1] <==> c in children[..i] || c == child;
    }
  }

  /**
   * The first loop of toFTOList (SolutionSequential.java:275-301): every candidate has at most
   * one parent and one child, the first child met is the child of every candidate that has one,
   * and the processor of the first parent met is that of every candidate's parent.  `-1` marks
   * "none met yet"; processors of placed parents are never negative.
   */
  method CheckFtoShape(taskGraph: TaskGraph, scheduledOn: seq<int>, candidateTasks: seq<int>) returns (ok: bool)
    requires taskGraph.WellFormed() && |scheduledOn| == taskGraph.numberOfTasks
    requires AllBelow(candidateTasks, taskGraph.numberOfTasks)
    requires forall k, q :: 0 <= k < |candidateTasks| && q in taskGraph.parentsList[candidateTasks[k]] ==> scheduledOn[q] >= 0
    ensures ok <==> FtoCandidates(taskGraph, scheduledOn, candidateTasks)
  {
    var child := -1;
    var parentProcessor := -1;
    ghost var childWitness := 0;
    ghost var parentWitness := 0;
    for i := 0 to |candidateTasks|
      invariant forall k :: 0 <= k < i ==>
                  |taskGraph.parentsList[candidateTasks[k]]| <= 1 && |taskGraph.childrenList[candidateTasks[k]]| <= 1
      invariant ChildSoFar(taskGraph, candidateTasks, i, child, childWitness)
      invariant ParentSoFar(taskGraph, scheduledOn, candidateTasks, i, parentProcessor, parentWitness)
    {
      var task := candidateTasks[i];
      var parents := taskGraph.GetParentsList(task);
      var children := taskGraph.GetChildrenList(task);
      if |parents| > 1 || |children| > 1 {
        return false;
      }
      var agree;
      agree, child, childWitness := TrackChild(taskGraph, candidateTasks, i, child, childWitness);
      if !agree {
        return false;
      }
      agree, parentProcessor, parentWitness :=
        TrackParent(taskGraph, scheduledOn, candidateTasks, i, parentProcessor, parentWitness);
      if !agree {
        return false;
      }
    }
    ShapeFound(taskGraph, scheduledOn, candidateTasks, child, childWitness, parentProcessor, parentWitness);
    return true;
  }

  /**
   * The child tracked by toFTOList's first loop after i candidates: `-1` when none of them has a
   * child, otherwise the first child of each of them that has one (`at` is one such).
   */
  ghost predicate ChildSoFar(g: TaskGraph, candidateTasks: seq<int>, i: int, child: int, at: int)
    requires g.Shaped() && AllBelow(candidateTasks, g.numberOfTasks) && 0 <= i <= |candidateTasks|
  {
    && (forall k :: 0 <= k < i && g.childrenList[candidateTasks[k]] != [] ==> g.childrenList[candidateTasks[k]][0] == child)
    && (child != -1 ==> 0 <= at < i && g.childrenList[candidateTasks[at]] != [])
  }

  /**
   * The parent processor tracked by toFTOList's first loop after i candidates: `-1` when none of
   * them has a parent, otherwise the processor of the first parent of each of them that has one.
   */
  ghost predicate ParentSoFar(g: TaskGraph, on: seq<int>, candidateTasks: seq<int>, i: int, processor: int, at: int)
    requires g.Shaped() && |on| == g.numberOfTasks && AllBelow(candidateTasks, g.numberOfTasks)
    requires 0 <= i <= |candidateTasks|
  {
    && (forall k :: 0 <= k < i && g.parentsList[candidateTasks[k]] != [] ==> on[g.parentsList[candidateTasks[k]][0]] == processor)
    && (processor != -1 ==> 0 <= at < i && g.parentsList[candidateTasks[at]] != [])
  }

  /**
   * The child check of toFTOList's first loop (SolutionSequential.java:286-293): candidate i's
   * child is recorded when it is the first met, and otherwise must be the one recorded.
   */
  method TrackChild(g: TaskGraph, candidateTasks: seq<int>, i: int, child: int, ghost at: int)
    returns (agree: bool, child': int, ghost at': int)
    requires g.Shaped() && AllBelow(candidateTasks, g.numberOfTasks) && 0 <= i < |candidateTasks|
    requires ChildSoFar(g, candidateTasks, i, child, at)
    ensures agree ==> ChildSoFar(g, candidateTasks, i + 1, child', at')
    ensures !agree ==> 0 <= at < i && !ChildrenAgree(g, candidateTasks, at, i)
  {
    agree, child', at' := true, child, at;
    var children := g.childrenList[candidateTasks[i]];
    if |children| > 0 {
      var taskChild := children[0];
      if child == -1 {
        child', at' := taskChild, i;
      } else if child != taskChild {
        agree := false;
      }
    }
  }

  /**
   * The parent check of toFTOList's first loop (SolutionSequential.java:294-301): the processor
   * of candidate i's parent is recorded when it is the first met, and otherwise must be the one
   * recorded.
   */
  method TrackParent(g: TaskGraph, on: seq<int>, candidateTasks: seq<int>, i: int, processor: int, ghost at: int)
    returns (agree: bool, processor': int, ghost at': int)
    requires g.Shaped() && |on| == g.numberOfTasks && AllBelow(candidateTasks, g.numberOfTasks)
    requires 0 <= i < |candidateTasks|
    requires forall k, q :: 0 <= k < |candidateTasks| && q in g.parentsList[candidateTasks[k]] ==> on[q] >= 0
    requires ParentSoFar(g, on, candidateTasks, i, processor, at)
    ensures agree ==> ParentSoFar(g, on, candidateTasks, i + 1, processor', at')
    ensures !agree ==> 0 <= at < i && !ParentsTogether(g, on, candidateTasks, at, i)
  {
    agree, processor', at' := true, processor, at;
    var parents := g.parentsList[candidateTasks[i]];
    if |parents| > 0 {
      var taskParentProcessor := on[parents[0]];
      if processor == -1 {
        processor', at' := taskParentProcessor, i;
      } else if processor != taskParentProcessor {
        agree := false;
      }
    }
  }

  /** Once every candidate agrees with the tracked child and parent processor, they all agree pairwise. */
  lemma ShapeFound(g: TaskGraph, on: seq<int>, candidateTasks: seq<int>, child: int, childWitness: int,
                   processor: int, parentWitness: int)
    requires g.Shaped() && |on| == g.numberOfTasks && AllBelow(candidateTasks, g.numberOfTasks)
    requires ChildSoFar(g, candidateTasks, |candidateTasks|, child, childWitness)
    requires ParentSoFar(g, on, candidateTasks, |candidateTasks|, processor, parentWitness)
    ensures forall i, j {:trigger ChildrenAgree(g, candidateTasks, i, j)} ::
              0 <= i < |candidateTasks| && 0 <= j < |candidateTasks| ==> ChildrenAgree(g, candidateTasks, i, j)
    ensures forall i, j {:trigger ParentsTogether(g, on, candidateTasks, i, j)} ::
              0 <= i < |candidateTasks| && 0 <= j < |candidateTasks| ==> ParentsTogether(g, on, candidateTasks, i, j)
  {
  }

  /**
   * The second loop of toFTOList (SolutionSequential.java:309-326): the out-edge costs of the
   * sorted list never go up, starting from `Integer.MAX_VALUE`.
   */
  method CheckOutCosts(taskGraph: TaskGraph, sorted: seq<int>) returns (ok: bool)
    requires taskGraph.WellFormed() && AllBelow(sorted, taskGraph.numberOfTasks)
    ensures ok <==> OutCostsNonIncreasing(taskGraph, sorted)
  {
    var prevOutEdgeCost := IntMax;
    for i := 0 to |sorted|
      invariant forall k :: 0 <= k < i ==> CostFallsAt(taskGraph, sorted, k)
      invariant prevOutEdgeCost == if i == 0 then IntMax else OutEdgeCost(taskGraph, sorted[i - 1])
    {
      var task := sorted[i];
      var edgeCost;
      if taskGraph.GetChildrenList(task) == [] {
        edgeCost := 0;
      } else {
        var taskChild := taskGraph.GetChildrenList(task)[0];
        edgeCost := taskGraph.GetCommCost(task, taskChild);
      }
      assert edgeCost == OutEdgeCost(taskGraph, sorted[i]);
      if edgeCost > prevOutEdgeCost {
        assert !CostFallsAt(taskGraph, sorted, i);
        return false;
      }
      prevOutEdgeCost := edgeCost;
    }
    return true;
  }

  /**
   * The loop of initialize (SolutionSequential.java:224-232) on its own: the total duration, each
   * task's in-degree set to its number of parents, and the parentless tasks in increasing id.
   */
  method CountParents(taskGraph: TaskGraph, inDegrees: array<int>) returns (totalDuration: int, candidateTasks: seq<int>)
    requires taskGraph.WellFormed() && inDegrees.Length == taskGraph.numberOfTasks
    modifies inDegrees
    ensures totalDuration == Sum(taskGraph.durations)
    ensures forall i :: 0 <= i < inDegrees.Length ==> inDegrees[i] == |taskGraph.parentsList[i]|
    ensures Increasing(candidateTasks) && AllBelow(candidateTasks, taskGraph.numberOfTasks)
    ensures forall c :: 0 <= c < inDegrees.Length ==> (c in candidateTasks <==> |taskGraph.parentsList[c]| == 0)
  {
    totalDuration := 0;
    candidateTasks := [];
    for i := 0 to inDegrees.Length
      invariant totalDuration == Sum(taskGraph.durations[..i])
      invariant forall c :: 0 <= c < i ==> inDegrees[c] == |taskGraph.parentsList[c]|
      invariant Increasing(candidateTasks) && forall k :: 0 <= k < |candidateTasks| ==> 0 <= candidateTasks[k] < i
      invariant forall c :: 0 <= c < i ==> (c in candidateTasks <==> |taskGraph.parentsList[c]| == 0)
    {
      assert taskGraph.durations[..i + 1][..i] == taskGraph.durations[..i];
      totalDuration := totalDuration + taskGraph.GetDuration(i);
      inDegrees[i] := |taskGraph.GetParentsList(i)|;
      if inDegrees[i] == 0 {
        candidateTasks := candidateTasks + [i];
      }
    }
    assert taskGraph.durations[..inDegrees.Length] == taskGraph.durations;
  }

  class SolutionSequential {
    /** The graph with its lists sorted by the equivalence pass; `graph` is the graph as given. */
    const taskGraph: TaskGraph
    const numProcessors: int
    const numTasks: int
    /** The bottom level of every task; it is also the priority the candidates are sorted by. */
    const maxLengthToExitNode: array<int>
    const equivalentNodesList: array<seq<int>>
    const bestStartTime: array<int>
    const bestScheduledOn: array<int>
    const inDegrees: array<int>
    const taskStartTimes: array<int>
    const scheduledOn: array<int>
    const processorFinishTimes: array<int>
    ghost const graph: TaskGraph
    ghost const rank: seq<nat>
    var bestFinishTime: int
    var seenSchedules: set<set<seq<int>>>
    var remainingDuration: int
    var previousProcessor: int
    var childAddedLastRound: bool
    /** Whether the best arrays hold a schedule the search found. */
    ghost var found: bool
    /** The finish time handed over before the search, the bound it has to beat. */
    ghost var initialFinishTime: int

    /**
     * The constructor (SolutionSequential.java:24-26) together with the set-up half of initialize
     * (SolutionSequential.java:207-223): bottom levels of the graph as given, the equivalence
     * lists (which sort the graph's lists), new state arrays with every start time -1 and every
     * processor finish time 0, and the other new arrays zero-filled as Java's are.  The ghost
     * `rank` witnesses that the graph is acyclic.
     */
    constructor(taskGraph: TaskGraph, numProcessors: int, ghost rank: seq<nat>)
      requires taskGraph.WellFormed() && Ranked(taskGraph, rank) && numProcessors >= 1
      ensures this.graph == taskGraph && this.numProcessors == numProcessors && this.rank == rank
      ensures Fixed() && Origin() && Unstarted()
      ensures bestFinishTime == 0 && initialFinishTime == 0 && !found && seenSchedules == {}
      ensures previousProcessor == -1 && !childAddedLastRound
      ensures BestZeroed() && forall i :: 0 <= i < numTasks ==> scheduledOn[i] == 0
    {
      graph := taskGraph;
      this.rank := rank;
      this.numProcessors := numProcessors;
      var lengths := MaxLengthToExitNode(taskGraph, rank);
      maxLengthToExitNode := lengths;
      numTasks := taskGraph.GetNumberOfTasks();
      var equivalent, sorted := GetNodeEquivalence(taskGraph);
      forall i | 0 <= i < taskGraph.numberOfTasks ensures AllBelow(equivalent[i], taskGraph.numberOfTasks) {
        forall k | 0 <= k < |equivalent[i]| ensures 0 <= equivalent[i][k] < taskGraph.numberOfTasks {
          assert equivalent[i][k] in equivalent[i];
        }
      }
      equivalentNodesList := equivalent;
      this.taskGraph := sorted;
      SameGraphKeeps(taskGraph, sorted, rank);
      inDegrees := new int[taskGraph.numberOfTasks];
      bestStartTime := new int[taskGraph.numberOfTasks](_ => 0);
      bestScheduledOn := new int[taskGraph.numberOfTasks](_ => 0);
      processorFinishTimes := new int[numProcessors](_ => 0);
      taskStartTimes := new int[taskGraph.numberOfTasks](_ => Unscheduled);
      scheduledOn := new int[taskGraph.numberOfTasks](_ => 0);
      bestFinishTime := 0;
      seenSchedules := {};
      remainingDuration := 0;
      previousProcessor := -1;
      childAddedLastRound := false;
      found := false;
      initialFinishTime := 0;
    }

    /** setInitialSchedule (Solution.java:84-85): the finish time of an initial schedule becomes the bound to beat. */
    method SetInitialSchedule(schedule: Schedule)
      requires Fixed() && BestZeroed()
      modifies this`bestFinishTime, this`initialFinishTime, this`found
      ensures Valid() && bestFinishTime == schedule.finishTime && !found
    {
      bestFinishTime := schedule.finishTime;
      initialFinishTime := schedule.finishTime;
      found := false;
    }

    /** The seven integer arrays are distinct objects. */
    ghost predicate Separate() {
      && maxLengthToExitNode != bestStartTime && maxLengthToExitNode != bestScheduledOn
      && maxLengthToExitNode != inDegrees && maxLengthToExitNode != taskStartTimes
      && maxLengthToExitNode != scheduledOn && maxLengthToExitNode != processorFinishTimes
      && bestStartTime != bestScheduledOn && bestStartTime != inDegrees && bestStartTime != taskStartTimes
      && bestStartTime != scheduledOn && bestStartTime != processorFinishTimes
      && bestScheduledOn != inDegrees && bestScheduledOn != taskStartTimes
      && bestScheduledOn != scheduledOn && bestScheduledOn != processorFinishTimes
      && inDegrees != taskStartTimes && inDegrees != scheduledOn && inDegrees != processorFinishTimes
      && taskStartTimes != scheduledOn && taskStartTimes != processorFinishTimes
      && scheduledOn != processorFinishTimes
    }

    /*
     * Shape, Valid and Searching name their conjunction in a `var` before returning it: that keeps
     * the verifier from splitting each use into one goal per conjunct, which the many calls of the
     * search methods could not afford.
     */

    /** The graph is well formed and every array has its length. */
    ghost predicate Shape() {
      var shaped :=
        && taskGraph.WellFormed() && numProcessors >= 1 && numTasks == taskGraph.numberOfTasks
        && maxLengthToExitNode.Length == numTasks && equivalentNodesList.Length == numTasks
        && bestStartTime.Length == numTasks && bestScheduledOn.Length == numTasks
        && inDegrees.Length == numTasks && taskStartTimes.Length == numTasks && scheduledOn.Length == numTasks
        && processorFinishTimes.Length == numProcessors
        && Separate();
      shaped
    }

    /**
     * What set-up establishes and the search relies on: the sorted graph is acyclic and every
     * equivalence list names tasks.
     */
    ghost predicate Fixed()
      reads equivalentNodesList
    {
      && Shape() && Ranked(taskGraph, rank)
      && (forall i :: 0 <= i < numTasks ==> AllBelow(equivalentNodesList[i], numTasks))
    }

    /**
     * What else set-up establishes and nothing writes again: the sorted graph is a reordering of
     * the acyclic graph given, and the bottom levels are those of that graph.
     */
    ghost predicate Origin()
      reads maxLengthToExitNode
    {
      && Shape()
      && graph.WellFormed() && Ranked(graph, rank) && SameGraph(graph, taskGraph)
      && (forall i :: 0 <= i < numTasks ==> maxLengthToExitNode[i] == BLevel(graph, rank, i))
    }

    /**
     * What holds between search steps: the set-up facts, and the best finish time is the bound
     * handed over, with the best arrays still zero-filled, or, once the search has found a
     * better schedule, the finish time of the complete feasible schedule held in the best arrays.
     */
    ghost predicate Valid()
      reads this`bestFinishTime, this`found, this`initialFinishTime, equivalentNodesList, bestStartTime, bestScheduledOn
    {
      var valid :=
        && Fixed()
        && bestFinishTime <= initialFinishTime
        && (!found ==> bestFinishTime == initialFinishTime && BestZeroed())
        && (found ==> bestFinishTime < initialFinishTime && BestIsSchedule());
      valid
    }

    /** The best arrays hold a complete feasible schedule that finishes at the best finish time. */
    ghost predicate BestIsSchedule()
      reads this`bestFinishTime, bestStartTime, bestScheduledOn
      requires Shape()
    {
      var best := View(taskGraph, bestStartTime[..], bestScheduledOn[..]);
      Feasible(taskGraph, numProcessors, best) && Complete(best) && LatestFinish(best, bestFinishTime)
    }

    /** The best arrays as allocated: every start time and every processor 0. */
    ghost predicate BestZeroed()
      reads bestStartTime, bestScheduledOn
    {
      forall i :: 0 <= i < bestStartTime.Length ==> bestStartTime[i] == 0 && (i < bestScheduledOn.Length ==> bestScheduledOn[i] == 0)
    }

    /** Nothing is placed yet, no processor is busy and no duration has been counted. */
    ghost predicate Unstarted()
      reads this`remainingDuration, taskStartTimes, processorFinishTimes
    {
      && remainingDuration == 0
      && (forall i :: 0 <= i < taskStartTimes.Length ==> taskStartTimes[i] == Unscheduled)
      && (forall p :: 0 <= p < processorFinishTimes.Length ==> processorFinishTimes[p] == 0)
    }

    /** The partial schedule the state arrays describe. */
    ghost function Current(): seq<Option<Task>>
      reads taskStartTimes, scheduledOn
      requires Shape()
    {
      View(taskGraph, taskStartTimes[..], scheduledOn[..])
    }

    /** The state is a search state whose free tasks are the candidate list. */
    ghost predicate Searching(candidateTasks: seq<int>)
      reads this`remainingDuration, inDegrees, taskStartTimes, scheduledOn, processorFinishTimes
      requires Shape()
    {
      var searching := SearchInvariant(taskGraph, numProcessors, Current(), processorFinishTimes[..], inDegrees[..],
                                       remainingDuration, candidateTasks);
      searching
    }

    /** Every change to the state has been undone; only processors recorded for unplaced tasks may differ. */
    twostate predicate Restored()
      reads this`remainingDuration, this`previousProcessor, this`childAddedLastRound, inDegrees, taskStartTimes, scheduledOn, processorFinishTimes
    {
      var restored :=
        && inDegrees[..] == old(inDegrees[..]) && taskStartTimes[..] == old(taskStartTimes[..])
        && processorFinishTimes[..] == old(processorFinishTimes[..])
        && SameOnPlaced(taskStartTimes[..], old(scheduledOn[..]), scheduledOn[..])
        && remainingDuration == old(remainingDuration) && previousProcessor == old(previousProcessor)
        && childAddedLastRound == old(childAddedLastRound);
      restored
    }

    /** The best finish time never goes up and no fingerprint is forgotten. */
    twostate predicate Progress()
      reads this`bestFinishTime, this`seenSchedules
    {
      bestFinishTime <= old(bestFinishTime) && old(seenSchedules) <= seenSchedules
    }

    /**
     * Nothing the search records has changed: neither the best schedule, nor the seen set, nor the
     * start and processor of any task.
     */
    twostate predicate Untouched()
      reads this`bestFinishTime, this`found, this`seenSchedules, taskStartTimes, scheduledOn, bestStartTime,
            bestScheduledOn
    {
      && bestFinishTime == old(bestFinishTime) && found == old(found) && seenSchedules == old(seenSchedules)
      && taskStartTimes[..] == old(taskStartTimes[..]) && scheduledOn[..] == old(scheduledOn[..])
      && bestStartTime[..] == old(bestStartTime[..]) && bestScheduledOn[..] == old(bestScheduledOn[..])
    }

    /**
     * run (SolutionSequential.java:32-37): set up, search, build the output.  The result finishes
     * no later than the bound handed over; if it finishes strictly earlier it is a complete,
     * feasible schedule of the given graph whose finish time is that of its last task, and
     * otherwise every task is reported at start 0 on processor 0, from the untouched best arrays.
     */
    method Run() returns (schedule: Schedule)
      requires Valid() && Origin() && Unstarted() && !found
      modifies this`remainingDuration, this`previousProcessor, this`childAddedLastRound, this`bestFinishTime,
               this`seenSchedules, this`found, inDegrees, taskStartTimes, scheduledOn, processorFinishTimes,
               bestStartTime, bestScheduledOn
      ensures |schedule.tasks| == graph.numberOfTasks
      ensures schedule.finishTime <= old(bestFinishTime)
      ensures schedule.finishTime < old(bestFinishTime) ==>
                && Feasible(graph, numProcessors, schedule.tasks)
                && Complete(schedule.tasks)
                && LatestFinish(schedule.tasks, schedule.finishTime)
      ensures schedule.finishTime == old(bestFinishTime) ==>
                forall i :: 0 <= i < graph.numberOfTasks ==> schedule.tasks[i] == Some(NewTask(i, 0, graph.durations[i], 0))
    {
      var candidateTasks := Initialize();
      var _ := RecursiveSearch(candidateTasks, Unplaced(Current()));
      schedule := CreateOutput();
      FeasibleSameGraph(graph, taskGraph, numProcessors, schedule.tasks);
    }

    /**
     * The loop of initialize (SolutionSequential.java:224-234): the remaining duration summed over
     * all tasks, each in-degree the number of parents, and the parentless tasks as candidates in
     * increasing id, which makes the untouched state a search state.
     */
    method Initialize() returns (candidateTasks: seq<int>)
      requires Valid() && Origin() && Unstarted()
      modifies inDegrees, this`remainingDuration
      ensures Valid() && Searching(candidateTasks)
      ensures remainingDuration == Sum(graph.durations)
      ensures forall i :: 0 <= i < numTasks ==> inDegrees[i] == |taskGraph.parentsList[i]|
      ensures Increasing(candidateTasks)
      ensures forall i :: 0 <= i < numTasks ==> (i in candidateTasks <==> taskGraph.parentsList[i] == [])
    {
      var totalDuration;
      totalDuration, candidateTasks := CountParents(taskGraph, inDegrees);
      remainingDuration := remainingDuration + totalDuration;
      StartIsSearchState(candidateTasks);
    }

    /** The untouched state with in-degrees counting all parents is a search state over the parentless tasks. */
    lemma StartIsSearchState(candidateTasks: seq<int>)
      requires Shape() && taskStartTimes.Length == numTasks
      requires forall i :: 0 <= i < numTasks ==> taskStartTimes[i] == Unscheduled
      requires forall p :: 0 <= p < numProcessors ==> processorFinishTimes[p] == 0
      requires remainingDuration == Sum(taskGraph.durations)
      requires forall i :: 0 <= i < numTasks ==> inDegrees[i] == |taskGraph.parentsList[i]|
      requires Increasing(candidateTasks) && AllBelow(candidateTasks, numTasks)
      requires forall c :: 0 <= c < numTasks ==> (c in candidateTasks <==> |taskGraph.parentsList[c]| == 0)
      ensures Searching(candidateTasks)
    {
      var tasks := Current();
      forall i | 0 <= i < numTasks ensures tasks[i].None? {
        ViewAt(taskGraph, taskStartTimes[..], scheduledOn[..], i);
      }
      assert Placed(tasks) == {};
      WorkNothingPlaced(taskGraph, tasks);
      assert taskGraph.durations[..numTasks] == taskGraph.durations;
      forall c | 0 <= c < numTasks ensures inDegrees[c] == Pending(taskGraph.parentsList[c], {}) {
        PendingNone(taskGraph.parentsList[c]);
      }
      forall i, j | 0 <= i < j < |candidateTasks| ensures candidateTasks[i] != candidateTasks[j] {
      }
    }

    /**
     * createOutput (SolutionSequential.java:242-251): one task per id from the best arrays, and the
     * best finish time.  When the search found a schedule this is exactly that schedule, and
     * otherwise every task starts at 0 on processor 0.
     */
    method CreateOutput() returns (schedule: Schedule)
      requires Valid()
      ensures schedule.finishTime == bestFinishTime && |schedule.tasks| == numTasks
      ensures forall i :: 0 <= i < numTasks ==>
                schedule.tasks[i] == Some(NewTask(i, bestStartTime[i], bestStartTime[i] + taskGraph.durations[i], bestScheduledOn[i]))
      ensures found ==> schedule.tasks == View(taskGraph, bestStartTime[..], bestScheduledOn[..])
      ensures !found ==> forall i :: 0 <= i < numTasks ==> schedule.tasks[i] == Some(NewTask(i, 0, taskGraph.durations[i], 0))
    {
      var optimalSchedule: seq<Option<Task>> := [];
      for i := 0 to numTasks
        invariant |optimalSchedule| == i
        invariant forall k :: 0 <= k < i ==>
                    optimalSchedule[k] == Some(NewTask(k, bestStartTime[k], bestStartTime[k] + taskGraph.durations[k], bestScheduledOn[k]))
      {
        var t := NewTask(i, bestStartTime[i], bestStartTime[i] + taskGraph.GetDuration(i), bestScheduledOn[i]);
        optimalSchedule := optimalSchedule + [Some(t)];
      }
      schedule := Schedule(optimalSchedule, bestFinishTime);
      if found {
        ghost var best := View(taskGraph, bestStartTime[..], bestScheduledOn[..]);
        forall i | 0 <= i < numTasks ensures schedule.tasks[i] == best[i] {
          ViewAt(taskGraph, bestStartTime[..], bestScheduledOn[..], i);
        }
      }
    }

    /**
     * updateBestSchedule (SolutionSequential.java:501-514), called once every task is placed: the
     * largest processor finish time becomes the best finish time, and the arrays are copied into
     * the best arrays, only when it is strictly smaller than the best so far.
     */
    method UpdateBestSchedule()
      requires Valid() && Searching([])
      modifies this`bestFinishTime, this`found, bestStartTime, bestScheduledOn
      ensures Valid() && Searching([]) && Current() == old(Current())
      ensures taskStartTimes[..] == old(taskStartTimes[..]) && scheduledOn[..] == old(scheduledOn[..])
      ensures processorFinishTimes[..] == old(processorFinishTimes[..]) && inDegrees[..] == old(inDegrees[..])
      ensures bestFinishTime == Min(old(bestFinishTime), old(MaxFrom(IntMin, processorFinishTimes[..])))
      ensures bestFinishTime < old(bestFinishTime) ==>
                bestStartTime[..] == taskStartTimes[..] && bestScheduledOn[..] == scheduledOn[..]
      ensures bestFinishTime == old(bestFinishTime) ==>
                bestStartTime[..] == old(bestStartTime[..]) && bestScheduledOn[..] == old(bestScheduledOn[..])
    {
      var finishTime := FindMaxInArray(processorFinishTimes);
      if finishTime < bestFinishTime {
        FinishedSchedule(taskGraph, rank, numProcessors, Current(), processorFinishTimes[..], inDegrees[..], remainingDuration);
        RecordBest(finishTime);
      }
    }

    /**
     * The improving branch of updateBestSchedule (SolutionSequential.java:504-512): a complete
     * schedule that finishes earlier becomes the best one.
     */
    method RecordBest(finishTime: int)
      requires Valid() && finishTime < bestFinishTime
      requires Feasible(taskGraph, numProcessors, Current()) && Complete(Current()) && LatestFinish(Current(), finishTime)
      modifies this`bestFinishTime, this`found, bestStartTime, bestScheduledOn
      ensures Valid() && bestFinishTime == finishTime && found
      ensures bestStartTime[..] == taskStartTimes[..] && bestScheduledOn[..] == scheduledOn[..]
    {
      ghost var tasks := Current();
      bestFinishTime := finishTime;
      CopyBest();
      found := true;
      assert View(taskGraph, bestStartTime[..], bestScheduledOn[..]) == tasks;
    }

    /** The copy loop of updateBestSchedule (SolutionSequential.java:508-511): the state arrays into the best arrays. */
    method CopyBest()
      requires Shape()
      modifies bestStartTime, bestScheduledOn
      ensures bestStartTime[..] == taskStartTimes[..] && bestScheduledOn[..] == scheduledOn[..]
    {
      for i := 0 to bestStartTime.Length
        invariant forall k :: 0 <= k < i ==> bestScheduledOn[k] == scheduledOn[k] && bestStartTime[k] == taskStartTimes[k]
      {
        bestScheduledOn[i] := scheduledOn[i];
        bestStartTime[i] := taskStartTimes[i];
      }
    }

    /**
     * toFTOList (SolutionSequential.java:272-330): a Fixed Task Order exists when every candidate
     * has at most one parent and one child, all children are the same task, all parents sit on
     * the same processor, and after sorting by data-ready time the out-edge costs do not increase;
     * then the sorted list is returned.  The state is only read.
     */
    method ToFtoList(candidateTasks: seq<int>) returns (ftoSorted: Option<seq<int>>)
      requires Shape() && AllBelow(candidateTasks, numTasks)
      requires forall k, q :: 0 <= k < |candidateTasks| && q in taskGraph.parentsList[candidateTasks[k]] ==>
                 0 <= q < numTasks && scheduledOn[q] >= 0
      ensures ftoSorted.Some? <==>
                FtoCandidates(taskGraph, scheduledOn[..], candidateTasks) &&
                OutCostsNonIncreasing(taskGraph, SortByDataReadyTime(taskGraph, taskStartTimes[..], candidateTasks))
      ensures ftoSorted.Some? ==> ftoSorted.value == SortByDataReadyTime(taskGraph, taskStartTimes[..], candidateTasks)
    {
      var shaped := CheckFtoShape(taskGraph, scheduledOn[..], candidateTasks);
      if !shaped {
        return None;
      }
      var sorted := SortByDataReadyTime(taskGraph, taskStartTimes[..], candidateTasks);
      var ordered := CheckOutCosts(taskGraph, sorted);
      if !ordered {
        return None;
      }
      return Some(sorted);
    }

    /**
     * recursiveSearch (SolutionSequential.java:44-201).  With no candidate left the schedule is
     * complete and may become the best one.  A state whose fingerprint was seen is dropped; a
     * state in Fixed Task Order goes to the FTO search; otherwise its fingerprint is recorded, the
     * bounds are computed once, and each candidate in order of priority is tried in turn.  The
     * state comes back as it was, and the list comes back rearranged (the caller's list is this
     * same list, which the sort and the rotations leave in sorted order).
     */
    method RecursiveSearch(candidateTasks: seq<int>, ghost u: nat) returns (reordered: seq<int>)
      requires Valid() && Searching(candidateTasks) && u == Unplaced(Current())
      modifies this`remainingDuration, this`previousProcessor, this`childAddedLastRound, this`bestFinishTime,
               this`seenSchedules, this`found, inDegrees, taskStartTimes, scheduledOn, processorFinishTimes,
               bestStartTime, bestScheduledOn
      decreases u, 12
      ensures Valid() && Restored() && Progress()
      ensures multiset(reordered) == multiset(candidateTasks)
      ensures candidateTasks == [] ==>
                bestFinishTime == Min(old(bestFinishTime), old(MaxFrom(IntMin, processorFinishTimes[..])))
      ensures candidateTasks != [] ==>
                old(Fingerprint(taskStartTimes[..], scheduledOn[..], numProcessors)) in seenSchedules
      ensures candidateTasks != [] && old(Fingerprint(taskStartTimes[..], scheduledOn[..], numProcessors) in seenSchedules) ==>
                bestFinishTime == old(bestFinishTime) && seenSchedules == old(seenSchedules) && reordered == candidateTasks
    {
      if candidateTasks == [] {
        UpdateBestSchedule();
        return candidateTasks;
      }
      reordered := VisitState(candidateTasks, u);
    }

    /**
     * The fingerprint check of the search (SolutionSequential.java:53-57): a state whose
     * fingerprint was seen before is dropped with nothing changed.
     */
    method VisitState(candidateTasks: seq<int>, ghost u: nat) returns (reordered: seq<int>)
      requires Valid() && Searching(candidateTasks) && u == Unplaced(Current()) && candidateTasks != []
      modifies this`remainingDuration, this`previousProcessor, this`childAddedLastRound, this`bestFinishTime,
               this`seenSchedules, this`found, inDegrees, taskStartTimes, scheduledOn, processorFinishTimes,
               bestStartTime, bestScheduledOn
      decreases u, 11
      ensures Valid() && Restored() && Progress()
      ensures multiset(reordered) == multiset(candidateTasks)
      ensures old(Fingerprint(taskStartTimes[..], scheduledOn[..], numProcessors)) in seenSchedules
      ensures old(Fingerprint(taskStartTimes[..], scheduledOn[..], numProcessors) in seenSchedules) ==>
                bestFinishTime == old(bestFinishTime) && seenSchedules == old(seenSchedules) && reordered == candidateTasks
    {
      PlacedInRange(taskGraph, numProcessors, taskStartTimes[..], scheduledOn[..]);
      var hashCodes := GenerateHashCode(taskStartTimes, scheduledOn, numProcessors);
      if hashCodes in seenSchedules {
        return candidateTasks;
      }
      reordered := ChooseSearch(candidateTasks, hashCodes, u);
    }

    /**
     * A state seen for the first time (SolutionSequential.java:58-66): when the candidates can be
     * put in a fixed order the FTO search takes over, otherwise the fingerprint is recorded and the
     * general search follows.
     */
    method ChooseSearch(candidateTasks: seq<int>, hashCodes: set<seq<int>>, ghost u: nat) returns (reordered: seq<int>)
      requires Valid() && Searching(candidateTasks) && u == Unplaced(Current()) && candidateTasks != []
      requires hashCodes == Fingerprint(taskStartTimes[..], scheduledOn[..], numProcessors)
      modifies this`remainingDuration, this`previousProcessor, this`childAddedLastRound, this`bestFinishTime,
               this`seenSchedules, this`found, inDegrees, taskStartTimes, scheduledOn, processorFinishTimes,
               bestStartTime, bestScheduledOn
      decreases u, 10
      ensures Valid() && Restored() && Progress()
      ensures multiset(reordered) == multiset(candidateTasks)
      ensures hashCodes in seenSchedules
    {
      ghost var starts0 := taskStartTimes[..];
      ghost var on0 := scheduledOn[..];
      ghost var tasks0 := Current();
      ghost var finishTimes0 := processorFinishTimes[..];
      ghost var inDegrees0 := inDegrees[..];
      ghost var remaining0 := remainingDuration;
      PlacedInRange(taskGraph, numProcessors, starts0, on0);
      CandidateParentsPlaced(taskGraph, numProcessors, starts0, on0, finishTimes0, inDegrees0, remaining0, candidateTasks);
      var ftoSorted := ToFtoList(candidateTasks);
      if ftoSorted.Some? {
        FrontierPermutation(taskGraph, inDegrees0, Placed(tasks0), candidateTasks, ftoSorted.value);
        OneNeighbourSubset(taskGraph, candidateTasks, ftoSorted.value);
        GetFtoSchedule(ftoSorted.value, u);
        return candidateTasks;
      }
      seenSchedules := seenSchedules + {hashCodes};
      reordered := SearchCandidates(candidateTasks, u);
    }

    /**
     * The general search on a state not seen before (SolutionSequential.java:72-199): compute the
     * bounds once, sort the candidates by priority and try each in turn.  The state comes back as
     * it was and the list comes back rearranged.
     */
    method SearchCandidates(candidateTasks: seq<int>, ghost u: nat) returns (reordered: seq<int>)
      requires Valid() && Searching(candidateTasks) && u == Unplaced(Current())
      modifies this`remainingDuration, this`previousProcessor, this`childAddedLastRound, this`bestFinishTime,
               this`seenSchedules, this`found, inDegrees, taskStartTimes, scheduledOn, processorFinishTimes,
               bestStartTime, bestScheduledOn
      decreases u, 8
      ensures Valid() && Restored() && Progress()
      ensures multiset(reordered) == multiset(candidateTasks)
    {
      ghost var tasks0 := Current();
      ghost var inDegrees0 := inDegrees[..];
      PlacedInRange(taskGraph, numProcessors, taskStartTimes[..], scheduledOn[..]);
      CandidateParentsPlaced(taskGraph, numProcessors, taskStartTimes[..], scheduledOn[..], processorFinishTimes[..],
                             inDegrees0, remainingDuration, candidateTasks);
      var loadBalancedRemainingTime := CeilDiv(remainingDuration, numProcessors);
      var earliestProcessorFinishTime, latestProcessorFinishTime := FinishTimeRange(processorFinishTimes);
      var longestCriticalPath := CalculateLongestCriticalPath(maxLengthToExitNode, candidateTasks);
      var sorted := SortByPriority(candidateTasks, maxLengthToExitNode[..]);
      FrontierPermutation(taskGraph, inDegrees0, Placed(tasks0), candidateTasks, sorted);
      reordered := TryCandidates(sorted, loadBalancedRemainingTime, earliestProcessorFinishTime, longestCriticalPath,
                                 latestProcessorFinishTime, u);
    }

    /**
     * The candidate loop (SolutionSequential.java:84-199): every candidate in turn is expanded or
     * skipped and moved to the end of the list, so the list comes back a rotation of itself.
     */
    method TryCandidates(candidateTasks: seq<int>, loadBalancedRemainingTime: int, earliestProcessorFinishTime: int,
                         longestCriticalPath: int, latestProcessorFinishTime: int, ghost u: nat)
      returns (reordered: seq<int>)
      requires Valid() && Searching(candidateTasks) && u == Unplaced(Current())
      modifies this`remainingDuration, this`previousProcessor, this`childAddedLastRound, this`bestFinishTime,
               this`seenSchedules, this`found, inDegrees, taskStartTimes, scheduledOn, processorFinishTimes,
               bestStartTime, bestScheduledOn
      decreases u, 7
      ensures Valid() && Restored() && Progress()
      ensures multiset(reordered) == multiset(candidateTasks)
    {
      ghost var starts0 := taskStartTimes[..];
      ghost var on0 := scheduledOn[..];
      ghost var tasks0 := Current();
      ghost var finishTimes0 := processorFinishTimes[..];
      ghost var inDegrees0 := inDegrees[..];
      ghost var remaining0 := remainingDuration;
      reordered := candidateTasks;
      var seenTasks: set<int> := {};
      var size := |reordered|;
      for i := 0 to size
        invariant Valid() && Restored() && Progress()
        invariant |reordered| == size && multiset(reordered) == multiset(candidateTasks)
        invariant SearchInvariant(taskGraph, numProcessors, tasks0, finishTimes0, inDegrees0, remaining0, reordered)
      {
        ViewSameOn(taskGraph, starts0, on0, scheduledOn[..]);
        var previous := reordered;
        reordered, seenTasks := ExpandNext(reordered, seenTasks, loadBalancedRemainingTime, earliestProcessorFinishTime,
                                           longestCriticalPath, latestProcessorFinishTime, u);
        FrontierRotate(taskGraph, inDegrees0, Placed(tasks0), previous);
      }
    }

    /**
     * One turn of the candidate loop (SolutionSequential.java:84-199): the head of the list is
     * skipped when an equivalent task was already tried and when the bounds rule the state out;
     * otherwise it is placed in turn on every processor worth trying, with its children released
     * for the recursion and taken back afterwards.  Either way the state is as before and the head
     * goes to the end of the list.
     */
    method ExpandNext(candidateTasks: seq<int>, seenTasks: set<int>, loadBalancedRemainingTime: int,
                      earliestProcessorFinishTime: int, longestCriticalPath: int, latestProcessorFinishTime: int,
                      ghost u: nat)
      returns (rotated: seq<int>, seenTasks': set<int>)
      requires Valid() && Searching(candidateTasks) && candidateTasks != [] && u == Unplaced(Current())
      modifies this`remainingDuration, this`previousProcessor, this`childAddedLastRound, this`bestFinishTime,
               this`seenSchedules, this`found, inDegrees, taskStartTimes, scheduledOn, processorFinishTimes,
               bestStartTime, bestScheduledOn
      decreases u, 6
      ensures Valid() && Restored() && Progress()
      ensures rotated == candidateTasks[1..] + [candidateTasks[0]]
      ensures seenTasks' == if candidateTasks[0] in seenTasks then seenTasks
                            else seenTasks + set x | x in equivalentNodesList[candidateTasks[0]]
      ensures candidateTasks[0] in seenTasks ||
              !IsPotentialOptimal(earliestProcessorFinishTime, loadBalancedRemainingTime, longestCriticalPath,
                                  latestProcessorFinishTime, old(bestFinishTime)) ==>
                bestFinishTime == old(bestFinishTime) && seenSchedules == old(seenSchedules)
    {
      var candidateTask := candidateTasks[0];
      var rest := candidateTasks[1..];
      if candidateTask in seenTasks {
        return rest + [candidateTask], seenTasks;
      }
      seenTasks' := seenTasks + set x | x in equivalentNodesList[candidateTask];
      if !IsPotentialOptimal(earliestProcessorFinishTime, loadBalancedRemainingTime, longestCriticalPath,
                             latestProcessorFinishTime, bestFinishTime) {
        return rest + [candidateTask], seenTasks';
      }

      var restored := Expand(candidateTasks, u);
      rotated := restored + [candidateTask];
    }

    /**
     * A search step for a candidate worth trying (SolutionSequential.java:89-199): take the head
     * of the list out and release its children, try it on the processors, then take the children
     * back and unplace the head.  The state comes back as it was and so does the rest of the list.
     */
    method Expand(candidateTasks: seq<int>, ghost u: nat) returns (restored: seq<int>)
      requires Valid() && Searching(candidateTasks) && candidateTasks != [] && u == Unplaced(Current())
      modifies this`remainingDuration, this`previousProcessor, this`childAddedLastRound, this`bestFinishTime,
               this`seenSchedules, this`found, inDegrees, taskStartTimes, scheduledOn, processorFinishTimes,
               bestStartTime, bestScheduledOn
      decreases u, 5
      ensures Valid() && Restored() && Progress()
      ensures restored == candidateTasks[1..]
    {
      var candidateTask := candidateTasks[0];
      ghost var inDegrees0 := inDegrees[..];
      var released, maxDataArrival, processorCausingMaxDataArrival, secondMaxDataArrival := TakeCandidate(candidateTasks);
      ghost var lowered := inDegrees[..];
      var childAddedThisRound := |released| > |candidateTasks| - 1;
      restored := ExploreAndPutBack(candidateTask, released, candidateTasks[1..], childAddedThisRound, maxDataArrival,
                                    processorCausingMaxDataArrival, secondMaxDataArrival, u);
      Unlowered(inDegrees0, lowered, inDegrees[..], taskGraph.childrenList[candidateTask]);
    }

    /**
     * The rest of a search step once the candidate is taken (SolutionSequential.java:129-198):
     * try it on the processors, then put back its children and unplace it.  Only the in-degrees
     * and the remaining work are left to restore to the state before the step.
     */
    method ExploreAndPutBack(candidateTask: int, released: seq<int>, ghost rest: seq<int>, childAddedThisRound: bool,
                             maxDataArrival: int,
                             processorCausingMaxDataArrival: int, secondMaxDataArrival: int, ghost u: nat)
      returns (restored: seq<int>)
      requires Valid() && 0 <= candidateTask < numTasks
      requires Prepared(taskGraph, numProcessors, Current(), processorFinishTimes[..], inDegrees[..], remainingDuration,
                        released, candidateTask)
      requires ArrivalBounds(taskGraph, Current(), candidateTask, maxDataArrival, processorCausingMaxDataArrival,
                             secondMaxDataArrival)
      requires u == Unplaced(Current())
      requires |rest| <= |released| && released[..|rest|] == rest
      requires |released| == |rest| + Zeros(taskGraph.childrenList[candidateTask], inDegrees[..])
      modifies this`remainingDuration, this`previousProcessor, this`childAddedLastRound, this`bestFinishTime,
               this`seenSchedules, this`found, inDegrees, taskStartTimes, scheduledOn, processorFinishTimes,
               bestStartTime, bestScheduledOn
      decreases u, 4
      ensures Valid() && Progress()
      ensures restored == rest
      ensures taskStartTimes[..] == old(taskStartTimes[..])
      ensures SameOnPlaced(taskStartTimes[..], old(scheduledOn[..]), scheduledOn[..])
      ensures processorFinishTimes[..] == old(processorFinishTimes[..])
      ensures forall c :: 0 <= c < numTasks ==>
                inDegrees[c] == old(inDegrees[c]) + (if c in taskGraph.childrenList[candidateTask] then 1 else 0)
      ensures remainingDuration == old(remainingDuration) + taskGraph.durations[candidateTask]
      ensures previousProcessor == old(previousProcessor) && childAddedLastRound == old(childAddedLastRound)
    {
      ghost var starts0 := taskStartTimes[..];
      ghost var tried, bestAt := ExploreProcessors(candidateTask, released, childAddedThisRound, maxDataArrival,
                                                   processorCausingMaxDataArrival, secondMaxDataArrival, u, starts0);
      restored := PutBackCandidate(candidateTask, released, rest);
    }

    /**
     * The first half of a search step (SolutionSequential.java:89-128): the head of the list
     * leaves the remaining work, its children's in-degrees drop and the children that become free
     * join the end of the list; then the data arrival times the head would see are read off its
     * placed parents.  The state is left prepared for placing the head.
     */
    method TakeCandidate(candidateTasks: seq<int>)
      returns (released: seq<int>, maxDataArrival: int, processorCausingMaxDataArrival: int, secondMaxDataArrival: int)
      requires Shape() && Searching(candidateTasks) && candidateTasks != []
      modifies this`remainingDuration, inDegrees
      ensures 0 <= candidateTasks[0] < numTasks
      ensures Prepared(taskGraph, numProcessors, Current(), processorFinishTimes[..], inDegrees[..], remainingDuration,
                       released, candidateTasks[0])
      ensures ArrivalBounds(taskGraph, Current(), candidateTasks[0], maxDataArrival, processorCausingMaxDataArrival,
                            secondMaxDataArrival)
      ensures remainingDuration == old(remainingDuration) - taskGraph.durations[candidateTasks[0]]
      ensures |candidateTasks| - 1 <= |released| && released[..|candidateTasks| - 1] == candidateTasks[1..]
      ensures |released| == |candidateTasks| - 1 + Zeros(taskGraph.childrenList[candidateTasks[0]], inDegrees[..])
      ensures forall c :: 0 <= c < numTasks ==>
                inDegrees[c] == old(inDegrees[c]) - (if c in taskGraph.childrenList[candidateTasks[0]] then 1 else 0)
      ensures taskStartTimes[..] == old(taskStartTimes[..]) && scheduledOn[..] == old(scheduledOn[..])
      ensures processorFinishTimes[..] == old(processorFinishTimes[..])
    {
      var candidateTask := candidateTasks[0];
      var rest := candidateTasks[1..];
      ghost var starts0 := taskStartTimes[..];
      ghost var tasks0 := Current();
      ghost var inDegrees0 := inDegrees[..];
      QueuedIsFree(taskGraph, tasks0, inDegrees0, candidateTasks, 0);
      TakeQueued(taskGraph, numProcessors, tasks0, inDegrees0, candidateTasks, 0);
      assert candidateTasks[..0] + candidateTasks[1..] == rest;
      forall q | q in taskGraph.parentsList[candidateTask] ensures 0 <= q < numTasks && starts0[q] != Unscheduled {
        ViewAt(taskGraph, starts0, scheduledOn[..], q);
      }
      ViewAt(taskGraph, starts0, scheduledOn[..], candidateTask);

      remainingDuration := remainingDuration - taskGraph.GetDuration(candidateTask);
      released := ReleaseChildren(taskGraph, inDegrees, candidateTask, rest, Placed(tasks0) + {candidateTask});
      maxDataArrival, processorCausingMaxDataArrival, secondMaxDataArrival :=
        DataArrivals(taskGraph, taskStartTimes, scheduledOn, candidateTask);
      ArrivalsInView(taskGraph, starts0, scheduledOn[..], candidateTask, maxDataArrival, processorCausingMaxDataArrival,
                     secondMaxDataArrival);
    }

    /**
     * The second half of a search step (SolutionSequential.java:188-198): the children released
     * for the candidate are taken off the end of the list and their in-degrees go back up, the
     * candidate's duration returns to the remaining work, and the candidate is unplaced.
     */
    method PutBackCandidate(candidateTask: int, released: seq<int>, ghost rest: seq<int>) returns (restored: seq<int>)
      requires Shape() && 0 <= candidateTask < numTasks
      requires |rest| <= |released| && released[..|rest|] == rest
      requires |released| == |rest| + Zeros(taskGraph.childrenList[candidateTask], inDegrees[..])
      modifies this`remainingDuration, inDegrees, taskStartTimes
      ensures restored == rest
      ensures forall c :: 0 <= c < numTasks ==>
                inDegrees[c] == old(inDegrees[c]) + (if c in taskGraph.childrenList[candidateTask] then 1 else 0)
      ensures remainingDuration == old(remainingDuration) + taskGraph.durations[candidateTask]
      ensures taskStartTimes[..] == old(taskStartTimes[..])[candidateTask := Unscheduled]
      ensures scheduledOn[..] == old(scheduledOn[..]) && processorFinishTimes[..] == old(processorFinishTimes[..])
    {
      restored := RestoreChildren(taskGraph, inDegrees, candidateTask, released, rest);
      remainingDuration := remainingDuration + taskGraph.GetDuration(candidateTask);
      taskStartTimes[candidateTask] := Unscheduled;
    }

    /**
     * The processor loop of a search step (SolutionSequential.java:139-187).  Of the processors
     * still idle only the first is tried; without a child released last round, processors below
     * the previous one are skipped; the start is the later of the processor's finish time and the
     * data arrival that applies to it; a start whose bottom level reaches the best finish time is
     * pruned against the best finish time of that turn.  Every placement is undone before the next,
     * except the candidate's start time, which the caller resets.  In the ghost results, `tried[p]`
     * says whether the candidate was placed on processor p, and `bestAt[p]` is the best finish
     * time at the start of turn p.
     */
    method ExploreProcessors(candidateTask: int, nextCandidateList: seq<int>, childAddedThisRound: bool,
                             maxDataArrival: int, processorCausingMaxDataArrival: int, secondMaxDataArrival: int,
                             ghost u: nat, ghost starts0: seq<int>)
      returns (ghost tried: seq<bool>, ghost bestAt: seq<int>)
      requires Valid() && 0 <= candidateTask < numTasks && taskStartTimes[..] == starts0
      requires Prepared(taskGraph, numProcessors, View(taskGraph, starts0, scheduledOn[..]), processorFinishTimes[..],
                        inDegrees[..], remainingDuration, nextCandidateList, candidateTask)
      requires ArrivalBounds(taskGraph, View(taskGraph, starts0, scheduledOn[..]), candidateTask, maxDataArrival,
                             processorCausingMaxDataArrival, secondMaxDataArrival)
      requires u == Unplaced(View(taskGraph, starts0, scheduledOn[..]))
      modifies this`remainingDuration, this`previousProcessor, this`childAddedLastRound, this`bestFinishTime,
               this`seenSchedules, this`found, inDegrees, taskStartTimes, scheduledOn, processorFinishTimes,
               bestStartTime, bestScheduledOn
      decreases u, 3
      ensures Valid() && Progress()
      ensures taskStartTimes[..][candidateTask := Unscheduled] == starts0
      ensures SameOnPlaced(starts0, old(scheduledOn[..]), scheduledOn[..])
      ensures processorFinishTimes[..] == old(processorFinishTimes[..]) && inDegrees[..] == old(inDegrees[..])
      ensures remainingDuration == old(remainingDuration) && previousProcessor == old(previousProcessor)
      ensures childAddedLastRound == old(childAddedLastRound)
      ensures |bestAt| == numProcessors && (numProcessors > 0 ==> bestAt[0] == old(bestFinishTime))
      ensures forall i, j :: 0 <= i <= j < |bestAt| ==> bestFinishTime <= bestAt[j] <= bestAt[i] <= old(bestFinishTime)
      ensures |tried| == numProcessors
      ensures forall p :: 0 <= p < numProcessors ==>
                (tried[p] <==> NotIsomorphic(old(processorFinishTimes[..]), p) &&
                               (old(childAddedLastRound) || p >= old(previousProcessor)) &&
                               ArrivalStart(old(processorFinishTimes[..])[p], p, maxDataArrival,
                                            processorCausingMaxDataArrival, secondMaxDataArrival)
                               + old(maxLengthToExitNode[candidateTask]) < bestAt[p])
      ensures forall p :: 0 <= p < numProcessors && tried[p] && old(processorFinishTimes[..])[p] == 0 ==>
                p == FirstIdle(old(processorFinishTimes[..]))
    {
      ghost var on0 := scheduledOn[..];
      ghost var tasks0 := View(taskGraph, starts0, on0);
      ghost var finishTimes0 := processorFinishTimes[..];
      ghost var inDegrees0 := inDegrees[..];
      ghost var bLevel, best0 := maxLengthToExitNode[candidateTask], bestFinishTime;
      ghost var starts := seq(numProcessors, p requires 0 <= p < numProcessors =>
                                ArrivalStart(finishTimes0[p], p, maxDataArrival, processorCausingMaxDataArrival,
                                             secondMaxDataArrival));
      ghost var childAdded0, prev0 := childAddedLastRound, previousProcessor;
      ghost var kept := seq(numProcessors, p => childAdded0 || p >= prev0);
      var next := nextCandidateList;
      var hasBeenScheduledAtStart := false;
      tried, bestAt := [], [];
      for candidateProcessor := 0 to numProcessors
        invariant Valid() && Progress()
        invariant taskStartTimes[..][candidateTask := Unscheduled] == starts0
        invariant SameOnPlaced(starts0, on0, scheduledOn[..])
        invariant processorFinishTimes[..] == finishTimes0 && inDegrees[..] == inDegrees0
        invariant remainingDuration == old(remainingDuration) && previousProcessor == old(previousProcessor)
        invariant childAddedLastRound == old(childAddedLastRound)
        invariant Prepared(taskGraph, numProcessors, tasks0, finishTimes0, inDegrees0, remainingDuration, next, candidateTask)
        invariant TriedSoFar(finishTimes0, starts, kept, bLevel, candidateProcessor, hasBeenScheduledAtStart, tried,
                             bestAt, bestFinishTime, best0)
      {
        ghost var best := bestFinishTime;
        ghost var has := hasBeenScheduledAtStart;
        var placed;
        next, hasBeenScheduledAtStart, placed :=
          ExploreOnProcessor(candidateTask, candidateProcessor, next, childAddedThisRound, maxDataArrival,
                             processorCausingMaxDataArrival, secondMaxDataArrival, hasBeenScheduledAtStart, u, starts0,
                             on0, finishTimes0, starts, kept, bLevel);
        ghost var tried', bestAt' := tried + [placed], bestAt + [best];
        TriedStep(finishTimes0, starts, kept, bLevel, candidateProcessor, has, hasBeenScheduledAtStart, tried, tried',
                  bestAt, bestAt', best, bestFinishTime, best0, placed);
        tried, bestAt := tried', bestAt';
      }
      ExploreTriedAll(finishTimes0, starts, kept, bLevel, hasBeenScheduledAtStart, tried, bestAt, bestFinishTime, best0,
                      maxDataArrival, processorCausingMaxDataArrival, secondMaxDataArrival, childAdded0, prev0);
    }

    /**
     * One turn of the processor loop of a search step (SolutionSequential.java:142-186): an idle
     * processor is skipped once an idle one has come up; without a child released last round a
     * processor below the previous one is skipped; otherwise the start is the later of the
     * processor's finish time and the data arrival that applies to it, and when it may still beat
     * the best schedule the candidate is placed there and the search recurses.  `tried` says
     * whether it was placed.  The ghost `finishTimes`, `starts`, `kept` and `bLevel` are the
     * loop's own records of this turn's inputs, so that its bookkeeping can name them.
     */
    method ExploreOnProcessor(candidateTask: int, candidateProcessor: int, next: seq<int>, childAddedThisRound: bool,
                              maxDataArrival: int, processorCausingMaxDataArrival: int, secondMaxDataArrival: int,
                              hasBeenScheduledAtStart: bool, ghost u: nat, ghost starts0: seq<int>, ghost on0: seq<int>,
                              ghost finishTimes: seq<int>, ghost starts: seq<int>, ghost kept: seq<bool>, ghost bLevel: int)
      returns (next': seq<int>, scheduledAtStart: bool, tried: bool)
      requires Valid() && 0 <= candidateTask < numTasks && 0 <= candidateProcessor < numProcessors
      requires finishTimes == processorFinishTimes[..] && bLevel == maxLengthToExitNode[candidateTask]
      requires |starts| == numProcessors && |kept| == numProcessors
      requires starts[candidateProcessor] == ArrivalStart(processorFinishTimes[candidateProcessor], candidateProcessor,
                 maxDataArrival, processorCausingMaxDataArrival, secondMaxDataArrival)
      requires kept[candidateProcessor] == (childAddedLastRound || candidateProcessor >= previousProcessor)
      requires taskStartTimes[..][candidateTask := Unscheduled] == starts0 && SameOnPlaced(starts0, on0, scheduledOn[..])
      requires Prepared(taskGraph, numProcessors, View(taskGraph, starts0, on0), processorFinishTimes[..],
                        inDegrees[..], remainingDuration, next, candidateTask)
      requires ArrivalBounds(taskGraph, View(taskGraph, starts0, on0), candidateTask, maxDataArrival,
                             processorCausingMaxDataArrival, secondMaxDataArrival)
      requires u == Unplaced(View(taskGraph, starts0, on0))
      requires hasBeenScheduledAtStart <==> FirstIdle(processorFinishTimes[..]) < candidateProcessor
      modifies this`remainingDuration, this`previousProcessor, this`childAddedLastRound, this`bestFinishTime,
               this`seenSchedules, this`found, inDegrees, taskStartTimes, scheduledOn, processorFinishTimes,
               bestStartTime, bestScheduledOn
      decreases u, 2
      ensures Valid() && Progress()
      ensures taskStartTimes[..][candidateTask := Unscheduled] == starts0
      ensures SameOnPlaced(starts0, on0, scheduledOn[..])
      ensures processorFinishTimes[..] == old(processorFinishTimes[..]) && inDegrees[..] == old(inDegrees[..])
      ensures remainingDuration == old(remainingDuration) && previousProcessor == old(previousProcessor)
      ensures childAddedLastRound == old(childAddedLastRound)
      ensures Prepared(taskGraph, numProcessors, View(taskGraph, starts0, on0), processorFinishTimes[..],
                       inDegrees[..], remainingDuration, next', candidateTask)
      ensures scheduledAtStart <==> FirstIdle(old(processorFinishTimes[..])) < candidateProcessor + 1
      ensures tried <==> NotIsomorphic(old(processorFinishTimes[..]), candidateProcessor) &&
                         (old(childAddedLastRound) || candidateProcessor >= old(previousProcessor)) &&
                         ArrivalStart(old(processorFinishTimes[candidateProcessor]), candidateProcessor, maxDataArrival,
                                      processorCausingMaxDataArrival, secondMaxDataArrival)
                         + old(maxLengthToExitNode[candidateTask]) < old(bestFinishTime)
      ensures tried ==>
                taskStartTimes[candidateTask] ==
                ArrivalStart(old(processorFinishTimes[candidateProcessor]), candidateProcessor, maxDataArrival,
                             processorCausingMaxDataArrival, secondMaxDataArrival)
      ensures !tried ==> next' == next && Untouched()
      ensures tried <==> NotIsomorphic(finishTimes, candidateProcessor) && kept[candidateProcessor] &&
                         starts[candidateProcessor] + bLevel < old(bestFinishTime)
    {
      next', scheduledAtStart, tried := next, hasBeenScheduledAtStart, false;
      IsomorphismTurn(processorFinishTimes[..], candidateProcessor, hasBeenScheduledAtStart);
      if processorFinishTimes[candidateProcessor] == 0 {
        if hasBeenScheduledAtStart {
          return;
        }
        scheduledAtStart := true;
      }
      if !childAddedLastRound && candidateProcessor < previousProcessor {
        return;
      }
      var earliestStartTimeOnCurrentProcessor := processorFinishTimes[candidateProcessor];
      if processorCausingMaxDataArrival != candidateProcessor {
        earliestStartTimeOnCurrentProcessor := Max(earliestStartTimeOnCurrentProcessor, maxDataArrival);
      } else {
        earliestStartTimeOnCurrentProcessor := Max(earliestStartTimeOnCurrentProcessor, secondMaxDataArrival);
      }
      if earliestStartTimeOnCurrentProcessor + maxLengthToExitNode[candidateTask] >= bestFinishTime {
        return;
      }
      ghost var tasks0 := View(taskGraph, starts0, on0);
      ghost var finishTimes0 := processorFinishTimes[..];
      ghost var inDegrees0 := inDegrees[..];
      ArrivalsSuffice(taskGraph, tasks0, finishTimes0, candidateTask, maxDataArrival, processorCausingMaxDataArrival,
                      secondMaxDataArrival, candidateProcessor, earliestStartTimeOnCurrentProcessor);
      ViewSameOn(taskGraph, starts0, on0, scheduledOn[..]);
      tried := true;
      next' := PlaceAndRecurse(candidateTask, candidateProcessor, earliestStartTimeOnCurrentProcessor, next,
                               childAddedThisRound, false, u, starts0);
      PreparedReorder(taskGraph, numProcessors, tasks0, finishTimes0, inDegrees0, remainingDuration, next, next',
                      candidateTask);
    }

    /**
     * Location 2 of both searches (SolutionSequential.java:171-186, 466-486): place the candidate
     * at the given start on the given processor, recurse (into the FTO search when `fixedOrder`),
     * and put back the processor's finish time, the previous processor and the child flag.  The
     * start and processor of the candidate stay written.
     */
    method PlaceAndRecurse(candidateTask: int, candidateProcessor: int, earliestStartTimeOnCurrentProcessor: int,
                           nextCandidateList: seq<int>, childAddedThisRound: bool, fixedOrder: bool,
                           ghost u: nat, ghost starts0: seq<int>)
      returns (reordered: seq<int>)
      requires Valid() && 0 <= candidateTask < numTasks && 0 <= candidateProcessor < numProcessors
      requires taskStartTimes[..][candidateTask := Unscheduled] == starts0
      requires Prepared(taskGraph, numProcessors, View(taskGraph, starts0, scheduledOn[..]), processorFinishTimes[..],
                        inDegrees[..], remainingDuration, nextCandidateList, candidateTask)
      requires earliestStartTimeOnCurrentProcessor >= processorFinishTimes[candidateProcessor]
      requires var tasks := View(taskGraph, starts0, scheduledOn[..]);
        forall q :: q in taskGraph.parentsList[candidateTask] ==>
          0 <= q < |tasks| && tasks[q].Some? &&
          earliestStartTimeOnCurrentProcessor >= ReadyTime(taskGraph, tasks[q].value, q, candidateTask, candidateProcessor)
      requires fixedOrder ==> AllBelow(nextCandidateList, numTasks) && OneNeighbour(taskGraph, nextCandidateList)
      requires u == Unplaced(View(taskGraph, starts0, scheduledOn[..]))
      modifies this`remainingDuration, this`previousProcessor, this`childAddedLastRound, this`bestFinishTime,
               this`seenSchedules, this`found, inDegrees, taskStartTimes, scheduledOn, processorFinishTimes,
               bestStartTime, bestScheduledOn
      decreases u, 1
      ensures Valid() && Progress()
      ensures taskStartTimes[..] == starts0[candidateTask := earliestStartTimeOnCurrentProcessor]
      ensures taskStartTimes[..][candidateTask := Unscheduled] == starts0
      ensures SameOnPlaced(starts0, old(scheduledOn[..]), scheduledOn[..])
      ensures processorFinishTimes[..] == old(processorFinishTimes[..]) && inDegrees[..] == old(inDegrees[..])
      ensures remainingDuration == old(remainingDuration) && previousProcessor == old(previousProcessor)
      ensures childAddedLastRound == old(childAddedLastRound)
      ensures multiset(reordered) == multiset(nextCandidateList)
      ensures fixedOrder ==> reordered == nextCandidateList
    {
      ghost var starts1 := taskStartTimes[..];
      ghost var on0 := scheduledOn[..];
      ghost var finishTimes0 := processorFinishTimes[..];
      var prevFinishTime := processorFinishTimes[candidateProcessor];
      var oldPreviousProcessor := previousProcessor;
      var oldChildAddedLastRound := childAddedLastRound;
      Place(candidateTask, candidateProcessor, earliestStartTimeOnCurrentProcessor, childAddedThisRound);
      UpdateTwice(starts1, candidateTask, Unscheduled, earliestStartTimeOnCurrentProcessor);
      PlacedSearching(nextCandidateList, starts0, on0, finishTimes0, candidateTask, candidateProcessor,
                      earliestStartTimeOnCurrentProcessor);
      reordered := Recur(nextCandidateList, fixedOrder, u, candidateProcessor, prevFinishTime, oldPreviousProcessor,
                         oldChildAddedLastRound);
      SameOnAfterPlace(starts0, on0, candidateTask, earliestStartTimeOnCurrentProcessor, candidateProcessor, scheduledOn[..]);
      UpdateUndone(starts0, candidateTask, earliestStartTimeOnCurrentProcessor);
    }

    /**
     * Placing a prepared candidate on the arrays of a search state gives a search state for the
     * next candidate list, with one task fewer left unplaced.
     */
    lemma PlacedSearching(nextCandidateList: seq<int>, starts0: seq<int>, on0: seq<int>, finishTimes0: seq<int>,
                          t: int, p: int, s: int)
      requires Shape() && 0 <= t < numTasks && 0 <= p < numProcessors
      requires |starts0| == numTasks && |on0| == numTasks && |finishTimes0| == numProcessors
      requires taskStartTimes[..] == starts0[t := s] && scheduledOn[..] == on0[t := p]
      requires processorFinishTimes[..] == finishTimes0[p := s + taskGraph.durations[t]]
      requires Prepared(taskGraph, numProcessors, View(taskGraph, starts0, on0), finishTimes0, inDegrees[..],
                        remainingDuration, nextCandidateList, t)
      requires s >= finishTimes0[p]
      requires var tasks := View(taskGraph, starts0, on0);
        forall q :: q in taskGraph.parentsList[t] ==>
          0 <= q < |tasks| && tasks[q].Some? && s >= ReadyTime(taskGraph, tasks[q].value, q, t, p)
      ensures Searching(nextCandidateList)
      ensures Unplaced(Current()) == Unplaced(View(taskGraph, starts0, on0)) - 1
    {
      PlaceInView(taskGraph, numProcessors, starts0, on0, finishTimes0, inDegrees[..], remainingDuration,
                  nextCandidateList, t, p, s, taskStartTimes[..], scheduledOn[..], processorFinishTimes[..]);
    }

    /**
     * Location 2 from the recursive call on (SolutionSequential.java:178-186, 473-485): search on
     * from the state with the candidate placed, then give the processor, the previous processor and
     * the child flag their saved values back.
     */
    method Recur(nextCandidateList: seq<int>, fixedOrder: bool, ghost u: nat, candidateProcessor: int,
                 prevFinishTime: int, oldPreviousProcessor: int, oldChildAddedLastRound: bool)
      returns (reordered: seq<int>)
      requires Valid() && Searching(nextCandidateList) && u == Unplaced(Current()) + 1
      requires fixedOrder ==> AllBelow(nextCandidateList, numTasks) && OneNeighbour(taskGraph, nextCandidateList)
      requires 0 <= candidateProcessor < numProcessors
      modifies this`remainingDuration, this`previousProcessor, this`childAddedLastRound, this`bestFinishTime,
               this`seenSchedules, this`found, inDegrees, taskStartTimes, scheduledOn, processorFinishTimes,
               bestStartTime, bestScheduledOn
      decreases u, 0
      ensures Valid() && Progress()
      ensures taskStartTimes[..] == old(taskStartTimes[..]) && inDegrees[..] == old(inDegrees[..])
      ensures SameOnPlaced(taskStartTimes[..], old(scheduledOn[..]), scheduledOn[..])
      ensures processorFinishTimes[..] == old(processorFinishTimes[..])[candidateProcessor := prevFinishTime]
      ensures remainingDuration == old(remainingDuration)
      ensures previousProcessor == oldPreviousProcessor && childAddedLastRound == oldChildAddedLastRound
      ensures multiset(reordered) == multiset(nextCandidateList)
      ensures fixedOrder ==> reordered == nextCandidateList
    {
      reordered := Descend(nextCandidateList, fixedOrder, u - 1);
      Unplace(candidateProcessor, prevFinishTime, oldPreviousProcessor, oldChildAddedLastRound);
    }

    /** The recursion of location 2: into the FTO search when the order is fixed, else the general search. */
    method Descend(nextCandidateList: seq<int>, fixedOrder: bool, ghost u: nat) returns (reordered: seq<int>)
      requires Valid() && Searching(nextCandidateList) && u == Unplaced(Current())
      requires fixedOrder ==> AllBelow(nextCandidateList, numTasks) && OneNeighbour(taskGraph, nextCandidateList)
      modifies this`remainingDuration, this`previousProcessor, this`childAddedLastRound, this`bestFinishTime,
               this`seenSchedules, this`found, inDegrees, taskStartTimes, scheduledOn, processorFinishTimes,
               bestStartTime, bestScheduledOn
      decreases u, 13
      ensures Valid() && Restored() && Progress()
      ensures multiset(reordered) == multiset(nextCandidateList)
      ensures fixedOrder ==> reordered == nextCandidateList
    {
      if fixedOrder {
        GetFtoSchedule(nextCandidateList, u);
        reordered := nextCandidateList;
      } else {
        reordered := RecursiveSearch(nextCandidateList, u);
      }
    }

    /**
     * Location 2 going down (SolutionSequential.java:171-177, 466-472): the candidate starts at the
     * given time on the given processor, which is busy until it finishes, and becomes the previous
     * processor.
     */
    method Place(candidateTask: int, candidateProcessor: int, earliestStartTimeOnCurrentProcessor: int,
                 childAddedThisRound: bool)
      requires Valid() && 0 <= candidateTask < numTasks && 0 <= candidateProcessor < numProcessors
      modifies this`previousProcessor, this`childAddedLastRound, taskStartTimes, scheduledOn, processorFinishTimes
      ensures Valid()
      ensures taskStartTimes[..] == old(taskStartTimes[..])[candidateTask := earliestStartTimeOnCurrentProcessor]
      ensures scheduledOn[..] == old(scheduledOn[..])[candidateTask := candidateProcessor]
      ensures processorFinishTimes[..] == old(processorFinishTimes[..])[candidateProcessor :=
                earliestStartTimeOnCurrentProcessor + taskGraph.durations[candidateTask]]
      ensures inDegrees[..] == old(inDegrees[..])
      ensures previousProcessor == candidateProcessor && childAddedLastRound == childAddedThisRound
    {
      var finish := earliestStartTimeOnCurrentProcessor + taskGraph.GetDuration(candidateTask);
      previousProcessor := candidateProcessor;
      childAddedLastRound := childAddedThisRound;
      processorFinishTimes[candidateProcessor] := finish;
      scheduledOn[candidateTask] := candidateProcessor;
      taskStartTimes[candidateTask] := earliestStartTimeOnCurrentProcessor;
    }

    /**
     * Location 2 coming back (SolutionSequential.java:181-186, 480-485): the processor's finish
     * time, the previous processor and the child flag get their saved values back.
     */
    method Unplace(candidateProcessor: int, prevFinishTime: int, oldPreviousProcessor: int, oldChildAddedLastRound: bool)
      requires Valid() && 0 <= candidateProcessor < numProcessors
      modifies this`previousProcessor, this`childAddedLastRound, processorFinishTimes
      ensures Valid()
      ensures processorFinishTimes[..] == old(processorFinishTimes[..])[candidateProcessor := prevFinishTime]
      ensures taskStartTimes[..] == old(taskStartTimes[..]) && scheduledOn[..] == old(scheduledOn[..])
      ensures inDegrees[..] == old(inDegrees[..])
      ensures previousProcessor == oldPreviousProcessor && childAddedLastRound == oldChildAddedLastRound
    {
      processorFinishTimes[candidateProcessor] := prevFinishTime;
      previousProcessor := oldPreviousProcessor;
      childAddedLastRound := oldChildAddedLastRound;
    }

    /**
     * getFTOSchedule (SolutionSequential.java:385-495): the search on a Fixed Task Order, which
     * only ever places the head of the list.  On an empty list the schedule is complete and may
     * become the best one; there is no return after that, but the best finish time is then at most
     * the latest processor finish time, so the bound test below ends the call before the empty
     * list is touched.  The head's only child is released when its in-degree drops to zero; while
     * no child is released the order stays fixed and the FTO search goes on, otherwise the general
     * search takes over.
     */
    method GetFtoSchedule(ftoSortedList: seq<int>, ghost u: nat)
      requires Valid() && Searching(ftoSortedList) && u == Unplaced(Current())
      requires AllBelow(ftoSortedList, numTasks) && OneNeighbour(taskGraph, ftoSortedList)
      modifies this`remainingDuration, this`previousProcessor, this`childAddedLastRound, this`bestFinishTime,
               this`seenSchedules, this`found, inDegrees, taskStartTimes, scheduledOn, processorFinishTimes,
               bestStartTime, bestScheduledOn
      decreases u, 9
      ensures Valid() && Restored() && Progress()
      ensures old(Fingerprint(taskStartTimes[..], scheduledOn[..], numProcessors)) in seenSchedules
      ensures ftoSortedList != [] && old(Fingerprint(taskStartTimes[..], scheduledOn[..], numProcessors) in seenSchedules) ==>
                bestFinishTime == old(bestFinishTime) && seenSchedules == old(seenSchedules)
    {
      if ftoSortedList == [] {
        FtoAllPlaced(u);
      } else {
        VisitFto(ftoSortedList, u);
      }
    }

    /**
     * The FTO search on an empty list (SolutionSequential.java:389-415): every task is
     * placed, so the schedule may become the best one, after which the fingerprint check and the
     * bound test follow and the bound test ends the call.
     */
    method FtoAllPlaced(ghost u: nat)
      requires Valid() && Searching([]) && u == Unplaced(Current())
      modifies this`remainingDuration, this`previousProcessor, this`childAddedLastRound, this`bestFinishTime,
               this`seenSchedules, this`found, inDegrees, taskStartTimes, scheduledOn, processorFinishTimes,
               bestStartTime, bestScheduledOn
      decreases u, 8
      ensures Valid() && Restored() && Progress()
      ensures old(Fingerprint(taskStartTimes[..], scheduledOn[..], numProcessors)) in seenSchedules
    {
      ghost var finishTimes0 := processorFinishTimes[..];
      UpdateBestSchedule();
      MaxFromFloor(IntMin, 0, finishTimes0);
      VisitFto([], u);
    }

    /**
     * The FTO search from the fingerprint check on (SolutionSequential.java:397-494): a state
     * whose fingerprint was seen is dropped, otherwise the fingerprint is recorded and the bound
     * test and the step follow.
     */
    method VisitFto(ftoSortedList: seq<int>, ghost u: nat)
      requires Valid() && Searching(ftoSortedList) && u == Unplaced(Current())
      requires AllBelow(ftoSortedList, numTasks) && OneNeighbour(taskGraph, ftoSortedList)
      requires ftoSortedList == [] ==> bestFinishTime <= MaxFrom(0, processorFinishTimes[..])
      modifies this`remainingDuration, this`previousProcessor, this`childAddedLastRound, this`bestFinishTime,
               this`seenSchedules, this`found, inDegrees, taskStartTimes, scheduledOn, processorFinishTimes,
               bestStartTime, bestScheduledOn
      decreases u, 7
      ensures Valid() && Restored() && Progress()
      ensures old(Fingerprint(taskStartTimes[..], scheduledOn[..], numProcessors)) in seenSchedules
      ensures old(Fingerprint(taskStartTimes[..], scheduledOn[..], numProcessors) in seenSchedules) ==>
                bestFinishTime == old(bestFinishTime) && seenSchedules == old(seenSchedules)
    {
      PlacedInRange(taskGraph, numProcessors, taskStartTimes[..], scheduledOn[..]);
      var hashCodes := GenerateHashCode(taskStartTimes, scheduledOn, numProcessors);
      if hashCodes in seenSchedules {
        return;
      }
      seenSchedules := seenSchedules + {hashCodes};
      FtoBounded(ftoSortedList, u);
    }

    /**
     * The bound test of the FTO search (SolutionSequential.java:407-415) and, when it passes, one
     * step.  On an empty list the best finish time is already at most the latest processor finish
     * time, so the test fails and the empty list is never taken apart.
     */
    method FtoBounded(ftoSortedList: seq<int>, ghost u: nat)
      requires Valid() && Searching(ftoSortedList) && u == Unplaced(Current())
      requires AllBelow(ftoSortedList, numTasks) && OneNeighbour(taskGraph, ftoSortedList)
      requires ftoSortedList == [] ==> bestFinishTime <= MaxFrom(0, processorFinishTimes[..])
      modifies this`remainingDuration, this`previousProcessor, this`childAddedLastRound, this`bestFinishTime,
               this`seenSchedules, this`found, inDegrees, taskStartTimes, scheduledOn, processorFinishTimes,
               bestStartTime, bestScheduledOn
      decreases u, 6
      ensures Valid() && Restored() && Progress()
    {
      var loadBalancedRemainingTime := CeilDiv(remainingDuration, numProcessors);
      var earliestProcessorFinishTime, latestProcessorFinishTime := FinishTimeRange(processorFinishTimes);
      var longestCriticalPath := CalculateLongestCriticalPath(maxLengthToExitNode, ftoSortedList);
      if !IsPotentialOptimal(earliestProcessorFinishTime, loadBalancedRemainingTime, longestCriticalPath,
                             latestProcessorFinishTime, bestFinishTime) {
        return;
      }

      FtoStep(ftoSortedList, u);
    }

    /**
     * One step of the FTO search for a state worth expanding (SolutionSequential.java:417-494):
     * take the head, try it on the processors, put it back.  The state comes back as it was.
     */
    method FtoStep(ftoSortedList: seq<int>, ghost u: nat)
      requires Valid() && Searching(ftoSortedList) && ftoSortedList != [] && u == Unplaced(Current())
      requires AllBelow(ftoSortedList, numTasks) && OneNeighbour(taskGraph, ftoSortedList)
      modifies this`remainingDuration, this`previousProcessor, this`childAddedLastRound, this`bestFinishTime,
               this`seenSchedules, this`found, inDegrees, taskStartTimes, scheduledOn, processorFinishTimes,
               bestStartTime, bestScheduledOn
      decreases u, 5
      ensures Valid() && Restored() && Progress()
    {
      ghost var inDegrees0 := inDegrees[..];
      var firstTask := ftoSortedList[0];
      FtoHeadFree(ftoSortedList);
      var duplicate, taskChildAdded := TakeFtoHead(ftoSortedList);
      ghost var lowered := inDegrees[..];
      FtoExploreAndPutBack(firstTask, duplicate, taskChildAdded, u);
      Unlowered(inDegrees0, lowered, inDegrees[..], taskGraph.childrenList[firstTask]);
    }

    /**
     * The first half of an FTO search step (SolutionSequential.java:417-441): the head of the
     * list leaves the remaining work and the in-degree of its only child, if any, drops, the child
     * joining the end of the list when that makes it free.  The state is left prepared for placing
     * the head, and while no child was added the list keeps the one-neighbour shape.
     */
    method TakeFtoHead(ftoSortedList: seq<int>) returns (duplicate: seq<int>, taskChildAdded: bool)
      requires Shape() && Searching(ftoSortedList) && ftoSortedList != []
      requires AllBelow(ftoSortedList, numTasks) && OneNeighbour(taskGraph, ftoSortedList)
      modifies this`remainingDuration, inDegrees
      ensures Prepared(taskGraph, numProcessors, Current(), processorFinishTimes[..], inDegrees[..], remainingDuration,
                       duplicate, ftoSortedList[0])
      ensures !taskChildAdded ==> AllBelow(duplicate, numTasks) && OneNeighbour(taskGraph, duplicate)
      ensures remainingDuration == old(remainingDuration) - taskGraph.durations[ftoSortedList[0]]
      ensures forall c :: 0 <= c < numTasks ==>
                inDegrees[c] == old(inDegrees[c]) - (if c in taskGraph.childrenList[ftoSortedList[0]] then 1 else 0)
      ensures taskStartTimes[..] == old(taskStartTimes[..]) && scheduledOn[..] == old(scheduledOn[..])
      ensures processorFinishTimes[..] == old(processorFinishTimes[..])
    {
      ghost var tasks0 := Current();
      ghost var inDegrees0 := inDegrees[..];
      duplicate := ftoSortedList[1..];
      var firstTask := ftoSortedList[0];
      QueuedIsFree(taskGraph, tasks0, inDegrees0, ftoSortedList, 0);
      TakeQueued(taskGraph, numProcessors, tasks0, inDegrees0, ftoSortedList, 0);
      assert ftoSortedList[..0] + ftoSortedList[1..] == duplicate;
      ghost var placed := Placed(tasks0) + {firstTask};
      duplicate, taskChildAdded := ReleaseOnlyChild(taskGraph, inDegrees, firstTask, duplicate, placed);
      remainingDuration := remainingDuration - taskGraph.GetDuration(firstTask);
      if !taskChildAdded {
        OneNeighbourSubset(taskGraph, ftoSortedList, duplicate);
      }
    }

    /** The head of an FTO list is an unplaced task with at most one parent, already placed, and at most one child. */
    lemma FtoHeadFree(ftoSortedList: seq<int>)
      requires Shape() && Searching(ftoSortedList) && ftoSortedList != []
      requires AllBelow(ftoSortedList, numTasks) && OneNeighbour(taskGraph, ftoSortedList)
      ensures var t := ftoSortedList[0];
        && 0 <= t < numTasks && |taskGraph.parentsList[t]| <= 1 && |taskGraph.childrenList[t]| <= 1
        && taskStartTimes[t] == Unscheduled
        && (forall q :: q in taskGraph.parentsList[t] ==> 0 <= q < numTasks && taskStartTimes[q] != Unscheduled)
    {
      var starts, on := taskStartTimes[..], scheduledOn[..];
      var firstTask := ftoSortedList[0];
      QueuedIsFree(taskGraph, Current(), inDegrees[..], ftoSortedList, 0);
      ViewAt(taskGraph, starts, on, firstTask);
      forall q | q in taskGraph.parentsList[firstTask] ensures 0 <= q < numTasks && starts[q] != Unscheduled {
        ViewAt(taskGraph, starts, on, q);
      }
    }

    /**
     * The rest of an FTO search step once the head is taken (SolutionSequential.java:443-494):
     * try it on the processors, then raise its child's in-degree again, return its duration to
     * the remaining work and unplace it.
     */
    method FtoExploreAndPutBack(firstTask: int, duplicate: seq<int>, taskChildAdded: bool, ghost u: nat)
      requires Valid() && 0 <= firstTask < numTasks && |taskGraph.parentsList[firstTask]| <= 1
      requires |taskGraph.childrenList[firstTask]| <= 1 && taskStartTimes[firstTask] == Unscheduled
      requires forall q :: q in taskGraph.parentsList[firstTask] ==> 0 <= q < numTasks && taskStartTimes[q] != Unscheduled
      requires Prepared(taskGraph, numProcessors, Current(), processorFinishTimes[..], inDegrees[..], remainingDuration,
                        duplicate, firstTask)
      requires !taskChildAdded ==> AllBelow(duplicate, numTasks) && OneNeighbour(taskGraph, duplicate)
      requires u == Unplaced(Current())
      modifies this`remainingDuration, this`previousProcessor, this`childAddedLastRound, this`bestFinishTime,
               this`seenSchedules, this`found, inDegrees, taskStartTimes, scheduledOn, processorFinishTimes,
               bestStartTime, bestScheduledOn
      decreases u, 4
      ensures Valid() && Progress()
      ensures taskStartTimes[..] == old(taskStartTimes[..])
      ensures SameOnPlaced(taskStartTimes[..], old(scheduledOn[..]), scheduledOn[..])
      ensures processorFinishTimes[..] == old(processorFinishTimes[..])
      ensures forall c :: 0 <= c < numTasks ==>
                inDegrees[c] == old(inDegrees[c]) + (if c in taskGraph.childrenList[firstTask] then 1 else 0)
      ensures remainingDuration == old(remainingDuration) + taskGraph.durations[firstTask]
      ensures previousProcessor == old(previousProcessor) && childAddedLastRound == old(childAddedLastRound)
    {
      ghost var starts0 := taskStartTimes[..];
      ghost var tried, bestAt := FtoProcessors(firstTask, duplicate, taskChildAdded, u, starts0);
      PutBackFtoHead(firstTask);
    }

    /**
     * The end of an FTO search step (SolutionSequential.java:488-494): the in-degree of the head's
     * child, if any, goes back up, the head's duration returns to the remaining work and the head
     * is unplaced.
     */
    method PutBackFtoHead(firstTask: int)
      requires Shape() && 0 <= firstTask < numTasks && |taskGraph.childrenList[firstTask]| <= 1
      modifies this`remainingDuration, inDegrees, taskStartTimes
      ensures forall c :: 0 <= c < numTasks ==>
                inDegrees[c] == old(inDegrees[c]) + (if c in taskGraph.childrenList[firstTask] then 1 else 0)
      ensures remainingDuration == old(remainingDuration) + taskGraph.durations[firstTask]
      ensures taskStartTimes[..] == old(taskStartTimes[..])[firstTask := Unscheduled]
      ensures scheduledOn[..] == old(scheduledOn[..]) && processorFinishTimes[..] == old(processorFinishTimes[..])
    {
      var children := taskGraph.GetChildrenList(firstTask);
      if children != [] {
        var child := children[0];
        inDegrees[child] := inDegrees[child] + 1;
      }
      remainingDuration := remainingDuration + taskGraph.GetDuration(firstTask);
      taskStartTimes[firstTask] := Unscheduled;
    }

    /**
     * The processor loop of the FTO search (SolutionSequential.java:444-487): as in the general
     * search, of the idle processors only the first is tried; there is no duplicate-avoidance rule;
     * the start is `EarliestStartOn`, the later of the processor's finish time and the head's single
     * parent's data; a start whose bottom level reaches the best finish time of that turn is pruned.
     * In the ghost results, `tried[p]` says whether the head was placed on processor p, and
     * `bestAt[p]` is the best finish time at the start of turn p.
     */
    method FtoProcessors(firstTask: int, duplicate: seq<int>, taskChildAdded: bool, ghost u: nat, ghost starts0: seq<int>)
      returns (ghost tried: seq<bool>, ghost bestAt: seq<int>)
      requires Valid() && 0 <= firstTask < numTasks && taskStartTimes[..] == starts0
      requires |taskGraph.parentsList[firstTask]| <= 1
      requires forall q :: q in taskGraph.parentsList[firstTask] ==> 0 <= q < numTasks && starts0[q] != Unscheduled
      requires starts0[firstTask] == Unscheduled
      requires Prepared(taskGraph, numProcessors, View(taskGraph, starts0, scheduledOn[..]), processorFinishTimes[..],
                        inDegrees[..], remainingDuration, duplicate, firstTask)
      requires !taskChildAdded ==> AllBelow(duplicate, numTasks) && OneNeighbour(taskGraph, duplicate)
      requires u == Unplaced(View(taskGraph, starts0, scheduledOn[..]))
      modifies this`remainingDuration, this`previousProcessor, this`childAddedLastRound, this`bestFinishTime,
               this`seenSchedules, this`found, inDegrees, taskStartTimes, scheduledOn, processorFinishTimes,
               bestStartTime, bestScheduledOn
      decreases u, 3
      ensures Valid() && Progress()
      ensures taskStartTimes[..][firstTask := Unscheduled] == starts0
      ensures SameOnPlaced(starts0, old(scheduledOn[..]), scheduledOn[..])
      ensures processorFinishTimes[..] == old(processorFinishTimes[..]) && inDegrees[..] == old(inDegrees[..])
      ensures remainingDuration == old(remainingDuration) && previousProcessor == old(previousProcessor)
      ensures childAddedLastRound == old(childAddedLastRound)
      ensures |bestAt| == numProcessors && (numProcessors > 0 ==> bestAt[0] == old(bestFinishTime))
      ensures forall i, j :: 0 <= i <= j < |bestAt| ==> bestFinishTime <= bestAt[j] <= bestAt[i] <= old(bestFinishTime)
      ensures |tried| == numProcessors
      ensures forall p :: 0 <= p < numProcessors ==>
                (tried[p] <==> NotIsomorphic(old(processorFinishTimes[..]), p) &&
                               EarliestStartOn(taskGraph, starts0, old(scheduledOn[..]), old(processorFinishTimes[..]),
                                               p, firstTask)
                               + old(maxLengthToExitNode[firstTask]) < bestAt[p])
      ensures forall p :: 0 <= p < numProcessors && tried[p] && old(processorFinishTimes[..])[p] == 0 ==>
                p == FirstIdle(old(processorFinishTimes[..]))
    {
      ghost var on0 := scheduledOn[..];
      ghost var tasks0 := View(taskGraph, starts0, on0);
      ghost var finishTimes0 := processorFinishTimes[..];
      ghost var inDegrees0 := inDegrees[..];
      ghost var bLevel, best0 := maxLengthToExitNode[firstTask], bestFinishTime;
      ghost var starts := seq(numProcessors, p requires 0 <= p < numProcessors =>
                                EarliestStartOn(taskGraph, starts0, on0, finishTimes0, p, firstTask));
      ghost var kept := seq(numProcessors, p => true);
      var next := duplicate;
      var hasBeenScheduledAtStart := false;
      tried, bestAt := [], [];
      for candidateProcessor := 0 to numProcessors
        invariant Valid() && Progress()
        invariant taskStartTimes[..][firstTask := Unscheduled] == starts0
        invariant SameOnPlaced(starts0, on0, scheduledOn[..])
        invariant processorFinishTimes[..] == finishTimes0 && inDegrees[..] == inDegrees0
        invariant remainingDuration == old(remainingDuration) && previousProcessor == old(previousProcessor)
        invariant childAddedLastRound == old(childAddedLastRound)
        invariant Prepared(taskGraph, numProcessors, tasks0, finishTimes0, inDegrees0, remainingDuration, next, firstTask)
        invariant !taskChildAdded ==> next == duplicate
        invariant TriedSoFar(finishTimes0, starts, kept, bLevel, candidateProcessor, hasBeenScheduledAtStart, tried,
                             bestAt, bestFinishTime, best0)
      {
        ghost var best := bestFinishTime;
        ghost var has := hasBeenScheduledAtStart;
        var placed;
        next, hasBeenScheduledAtStart, placed :=
          FtoOnProcessor(firstTask, candidateProcessor, next, taskChildAdded, hasBeenScheduledAtStart, u, starts0, on0,
                         finishTimes0, starts, kept, bLevel);
        ghost var tried', bestAt' := tried + [placed], bestAt + [best];
        TriedStep(finishTimes0, starts, kept, bLevel, candidateProcessor, has, hasBeenScheduledAtStart, tried, tried',
                  bestAt, bestAt', best, bestFinishTime, best0, placed);
        tried, bestAt := tried', bestAt';
      }
      FtoTriedAll(taskGraph, starts0, on0, firstTask, finishTimes0, starts, kept, bLevel, hasBeenScheduledAtStart, tried,
                  bestAt, bestFinishTime, best0);
    }

    /**
     * One turn of the FTO search's processor loop (SolutionSequential.java:447-486): an idle
     * processor is skipped once an idle one has come up; otherwise the head's earliest start on the
     * processor is computed, and when it may still beat the best schedule the head is placed there
     * and the search recurses.  `tried` says whether it was placed.  The ghost `finishTimes`,
     * `starts`, `kept` and `bLevel` are the loop's own records of this turn's inputs.
     */
    method FtoOnProcessor(firstTask: int, candidateProcessor: int, next: seq<int>, taskChildAdded: bool,
                          hasBeenScheduledAtStart: bool, ghost u: nat, ghost starts0: seq<int>, ghost on0: seq<int>,
                          ghost finishTimes: seq<int>, ghost starts: seq<int>, ghost kept: seq<bool>, ghost bLevel: int)
      returns (next': seq<int>, scheduledAtStart: bool, tried: bool)
      requires Valid() && 0 <= firstTask < numTasks && 0 <= candidateProcessor < numProcessors
      requires finishTimes == processorFinishTimes[..] && bLevel == maxLengthToExitNode[firstTask]
      requires |starts| == numProcessors && |kept| == numProcessors && kept[candidateProcessor]
      requires taskStartTimes[..][firstTask := Unscheduled] == starts0 && SameOnPlaced(starts0, on0, scheduledOn[..])
      requires |taskGraph.parentsList[firstTask]| <= 1
      requires forall q :: q in taskGraph.parentsList[firstTask] ==> 0 <= q < numTasks && starts0[q] != Unscheduled
      requires starts0[firstTask] == Unscheduled
      requires Prepared(taskGraph, numProcessors, View(taskGraph, starts0, on0), processorFinishTimes[..],
                        inDegrees[..], remainingDuration, next, firstTask)
      requires !taskChildAdded ==> AllBelow(next, numTasks) && OneNeighbour(taskGraph, next)
      requires starts[candidateProcessor] ==
               EarliestStartOn(taskGraph, starts0, on0, finishTimes, candidateProcessor, firstTask)
      requires u == Unplaced(View(taskGraph, starts0, on0))
      requires hasBeenScheduledAtStart <==> FirstIdle(processorFinishTimes[..]) < candidateProcessor
      modifies this`remainingDuration, this`previousProcessor, this`childAddedLastRound, this`bestFinishTime,
               this`seenSchedules, this`found, inDegrees, taskStartTimes, scheduledOn, processorFinishTimes,
               bestStartTime, bestScheduledOn
      decreases u, 2
      ensures Valid() && Progress()
      ensures taskStartTimes[..][firstTask := Unscheduled] == starts0
      ensures SameOnPlaced(starts0, on0, scheduledOn[..])
      ensures processorFinishTimes[..] == old(processorFinishTimes[..]) && inDegrees[..] == old(inDegrees[..])
      ensures remainingDuration == old(remainingDuration) && previousProcessor == old(previousProcessor)
      ensures childAddedLastRound == old(childAddedLastRound)
      ensures Prepared(taskGraph, numProcessors, View(taskGraph, starts0, on0), processorFinishTimes[..],
                       inDegrees[..], remainingDuration, next', firstTask)
      ensures !taskChildAdded ==> next' == next
      ensures scheduledAtStart <==> FirstIdle(old(processorFinishTimes[..])) < candidateProcessor + 1
      ensures tried <==> NotIsomorphic(old(processorFinishTimes[..]), candidateProcessor) &&
                         EarliestStartOn(taskGraph, starts0, on0, old(processorFinishTimes[..]), candidateProcessor, firstTask)
                         + old(maxLengthToExitNode[firstTask]) < old(bestFinishTime)
      ensures tried ==>
                taskStartTimes[firstTask] ==
                EarliestStartOn(taskGraph, starts0, on0, old(processorFinishTimes[..]), candidateProcessor, firstTask)
      ensures !tried ==> next' == next && Untouched()
      ensures tried <==> NotIsomorphic(finishTimes, candidateProcessor) && kept[candidateProcessor] &&
                         starts[candidateProcessor] + bLevel < old(bestFinishTime)
    {
      next', scheduledAtStart, tried := next, hasBeenScheduledAtStart, false;
      IsomorphismTurn(processorFinishTimes[..], candidateProcessor, hasBeenScheduledAtStart);
      if processorFinishTimes[candidateProcessor] == 0 {
        if hasBeenScheduledAtStart {
          return;
        }
        scheduledAtStart := true;
      }
      EarliestStartUnplaced(taskGraph, taskStartTimes[..], starts0, scheduledOn[..], processorFinishTimes[..],
                            candidateProcessor, firstTask);
      EarliestStartSameOn(taskGraph, starts0, on0, scheduledOn[..], processorFinishTimes[..], candidateProcessor, firstTask);
      var earliestStartTimeOnCurrentProcessor :=
        EarliestStartOn(taskGraph, taskStartTimes[..], scheduledOn[..], processorFinishTimes[..], candidateProcessor, firstTask);
      if earliestStartTimeOnCurrentProcessor + maxLengthToExitNode[firstTask] >= bestFinishTime {
        return;
      }
      ghost var tasks0 := View(taskGraph, starts0, on0);
      ghost var finishTimes0 := processorFinishTimes[..];
      ghost var inDegrees0 := inDegrees[..];
      FtoStartSuffices(taskGraph, starts0, scheduledOn[..], processorFinishTimes[..], candidateProcessor, firstTask);
      ViewSameOn(taskGraph, starts0, on0, scheduledOn[..]);
      tried := true;
      next' := PlaceAndRecurse(firstTask, candidateProcessor, earliestStartTimeOnCurrentProcessor, next,
                               taskChildAdded, !taskChildAdded, u, starts0);
      PreparedReorder(taskGraph, numProcessors, tasks0, finishTimes0, inDegrees0, remainingDuration, next, next',
                      firstTask);
    }
  }
}
