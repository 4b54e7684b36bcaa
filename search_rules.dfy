/**
 * The side-effect-free rules of the branch-and-bound search (solution/SolutionSequential.java):
 * the schedule that the search's state arrays describe and the invariant the search keeps about
 * it, the pruning test and the lower bounds behind it, the per-parent data-arrival bounds, the
 * Fixed Task Order test and the two orders the search sorts its candidates into.
 */
module SearchRules {
  import opened Wrappers
  import opened Seqs
  import opened Graph
  import opened Tasks
  import opened Schedules
  import opened Frontiers
  import opened PreProcessing
  import opened Fingerprints

  /** Java's `Integer.MAX_VALUE` and `Integer.MIN_VALUE`, used as starting values of min and max loops. */
  const IntMax := 2147483647
  const IntMin := -2147483648

  // ---------------------------------------------------------------------------------------------
  // Arithmetic of the bounds.

  /**
   * The load-balanced remaining time (SolutionSequential.java:70, 404):
   * `(int) Math.ceil(r / (double) p)`, the least q with q * p >= r.
   */
  function CeilDiv(r: int, p: int): (q: int)
    requires p >= 1
    ensures (q - 1) * p < r <= q * p
  {
    var m := (-r) / p;
    assert m * p <= -r < m * p + p;
    -m
  }

  /**
   * isPotentialOptimal (SolutionSequential.java:540-551): the partial schedule is worth extending
   * only while each of its three lower bounds stays strictly below the best finish time so far.
   */
  function IsPotentialOptimal(earliestProcessorFinishTime: int, loadBalancedRemainingTime: int,
                              longestCriticalPath: int, latestProcessorFinishTime: int, bestFinishTime: int): (r: bool)
    ensures r <==> && earliestProcessorFinishTime + loadBalancedRemainingTime < bestFinishTime
                   && earliestProcessorFinishTime + longestCriticalPath < bestFinishTime
                   && latestProcessorFinishTime < bestFinishTime
  {
    var loadBalancingConstraint := earliestProcessorFinishTime + loadBalancedRemainingTime >= bestFinishTime;
    var criticalPathConstraint := earliestProcessorFinishTime + longestCriticalPath >= bestFinishTime;
    var latestFinishTimeConstraint := latestProcessorFinishTime >= bestFinishTime;
    !(loadBalancingConstraint || criticalPathConstraint || latestFinishTimeConstraint)
  }

  /** The bottom levels of the listed tasks, in list order. */
  function CriticalPaths(lengths: seq<int>, candidateTasks: seq<int>): (paths: seq<int>)
    requires AllBelow(candidateTasks, |lengths|)
    ensures |paths| == |candidateTasks|
  {
    seq(|candidateTasks|, k requires 0 <= k < |candidateTasks| => lengths[candidateTasks[k]])
  }

  // ---------------------------------------------------------------------------------------------
  // The schedule held in the state arrays, and what the search keeps true of it.

  /**
   * The partial schedule the arrays describe: task i is placed exactly when its start time is not
   * -1, and then runs for its duration on processor `on[i]`.
   */
  function View(g: TaskGraph, starts: seq<int>, on: seq<int>): (tasks: seq<Option<Task>>)
    requires |starts| <= |on| && |starts| <= |g.durations|
    ensures |tasks| == |starts|
  {
    seq(|starts|, i requires 0 <= i < |starts| =>
      if starts[i] == Unscheduled then None else Some(NewTask(i, starts[i], starts[i] + g.durations[i], on[i])))
  }

  /** One entry of the view. */
  lemma ViewAt(g: TaskGraph, starts: seq<int>, on: seq<int>, i: int)
    requires |starts| <= |on| && |starts| <= |g.durations| && 0 <= i < |starts|
    ensures View(g, starts, on)[i].Some? <==> starts[i] != Unscheduled
    ensures View(g, starts, on)[i].Some? ==>
              View(g, starts, on)[i].value == NewTask(i, starts[i], starts[i] + g.durations[i], on[i])
  {
  }

  /** Two processor arrays that agree on every placed task. */
  predicate SameOnPlaced(starts: seq<int>, on: seq<int>, on': seq<int>)
  {
    |on'| == |on| && |starts| <= |on| &&
    forall i :: 0 <= i < |starts| && starts[i] != Unscheduled ==> on'[i] == on[i]
  }

  /** Every placed task ends by the finish time recorded for its processor. */
  predicate Busy(tasks: seq<Option<Task>>, processorFinishTimes: seq<int>)
  {
    forall i :: 0 <= i < |tasks| && tasks[i].Some? ==>
      && 0 <= tasks[i].value.processor < |processorFinishTimes|
      && tasks[i].value.finishTime <= processorFinishTimes[tasks[i].value.processor]
  }

  /** A processor's recorded finish time is non-negative, and 0 or the finish of a task placed on it. */
  predicate Attained(tasks: seq<Option<Task>>, processorFinishTimes: seq<int>)
  {
    forall p :: 0 <= p < |processorFinishTimes| ==>
      && processorFinishTimes[p] >= 0
      && (processorFinishTimes[p] == 0 ||
          exists i :: 0 <= i < |tasks| && tasks[i].Some? && tasks[i].value.processor == p &&
                      tasks[i].value.finishTime == processorFinishTimes[p])
  }

  /** The total duration of the tasks not yet placed. */
  function Work(g: TaskGraph, tasks: seq<Option<Task>>): int
    requires |tasks| <= |g.durations|
  {
    if tasks == [] then 0
    else Work(g, tasks[..|tasks| - 1]) + (if tasks[|tasks| - 1].None? then g.durations[|tasks| - 1] else 0)
  }

  /** The placed tasks form a feasible partial schedule and the processor finish times match it. */
  predicate Consistent(g: TaskGraph, numProcessors: int, tasks: seq<Option<Task>>, processorFinishTimes: seq<int>)
    requires g.Shaped()
  {
    && |tasks| == g.numberOfTasks && |processorFinishTimes| == numProcessors
    && Feasible(g, numProcessors, tasks)
    && Busy(tasks, processorFinishTimes)
    && Attained(tasks, processorFinishTimes)
  }

  /**
   * What holds on entry to every search step: a consistent partial schedule, the remaining
   * duration is the work left, the in-degrees count unplaced parents and the candidate list holds
   * exactly the free tasks.
   */
  predicate SearchInvariant(g: TaskGraph, numProcessors: int, tasks: seq<Option<Task>>, processorFinishTimes: seq<int>,
                            inDegrees: seq<int>, remainingDuration: int, candidateTasks: seq<int>)
  {
    // Named so that a use is one goal for the verifier rather than one per conjunct.
    var holds :=
      && g.WellFormed()
      && Consistent(g, numProcessors, tasks, processorFinishTimes)
      && remainingDuration == Work(g, tasks)
      && InDegreesMatch(g, inDegrees, Placed(tasks))
      && IsFrontier(g, inDegrees, Placed(tasks), candidateTasks);
    holds
  }

  /**
   * Half-way through a search step on task t: t is not placed yet, but its duration is already
   * off the remaining duration and its children are already released, so the in-degrees and the
   * next candidate list are those of the schedule with t placed.
   */
  predicate Prepared(g: TaskGraph, numProcessors: int, tasks: seq<Option<Task>>, processorFinishTimes: seq<int>,
                     inDegrees: seq<int>, remainingDuration: int, nextCandidates: seq<int>, t: int)
  {
    // Named so that a use is one goal for the verifier rather than one per conjunct.
    var prepared :=
      && g.WellFormed()
      && Consistent(g, numProcessors, tasks, processorFinishTimes)
      && 0 <= t < g.numberOfTasks && tasks[t].None?
      && remainingDuration == Work(g, tasks) - g.durations[t]
      && InDegreesMatch(g, inDegrees, Placed(tasks) + {t})
      && IsFrontier(g, inDegrees, Placed(tasks) + {t}, nextCandidates);
    prepared
  }

  /** The time parent q's data reaches task t on processor p, read off the state arrays. */
  function ParentReady(g: TaskGraph, starts: seq<int>, on: seq<int>, q: int, t: int, p: int): int
    requires g.Shaped() && |starts| == g.numberOfTasks && |on| == g.numberOfTasks
    requires 0 <= q < g.numberOfTasks && 0 <= t < g.numberOfTasks
  {
    starts[q] + g.durations[q] + (if on[q] == p then 0 else g.commCosts[q][t])
  }

  /** The arrival of parent q's data at t off q's processor: its finish plus the edge cost. */
  function Arrival(g: TaskGraph, starts: seq<int>, q: int, t: int): int
    requires g.Shaped() && |starts| == g.numberOfTasks && 0 <= q < g.numberOfTasks && 0 <= t < g.numberOfTasks
  {
    starts[q] + g.durations[q] + g.commCosts[q][t]
  }

  /**
   * The three data-arrival figures bound the parents of t: every parent's data arrives by
   * `maxDataArrival`, and that of every parent off `processorCausingMaxDataArrival` arrives by
   * `secondMaxDataArrival`.
   */
  predicate ArrivalBounds(g: TaskGraph, tasks: seq<Option<Task>>, t: int, maxDataArrival: int,
                          processorCausingMaxDataArrival: int, secondMaxDataArrival: int)
    requires g.Shaped() && |tasks| == g.numberOfTasks && 0 <= t < g.numberOfTasks
  {
    forall q :: q in g.parentsList[t] ==>
      && 0 <= q < |tasks| && tasks[q].Some?
      && tasks[q].value.finishTime + g.commCosts[q][t] <= maxDataArrival
      && (tasks[q].value.processor != processorCausingMaxDataArrival ==>
            tasks[q].value.finishTime + g.commCosts[q][t] <= secondMaxDataArrival)
  }

  // ---------------------------------------------------------------------------------------------
  // Lemmas about the schedule view.

  /** Writing a start time and a processor for task t places t in the view. */
  lemma ViewUpdate(g: TaskGraph, starts: seq<int>, on: seq<int>, t: int, s: int, p: int)
    requires |starts| == |on| == |g.durations| && 0 <= t < |starts| && s != Unscheduled
    ensures View(g, starts[t := s], on[t := p]) == View(g, starts, on)[t := Some(NewTask(t, s, s + g.durations[t], p))]
  {
  }

  /** The view ignores the processor entries of tasks that are not placed. */
  lemma ViewSameOn(g: TaskGraph, starts: seq<int>, on: seq<int>, on': seq<int>)
    requires |starts| == |on| <= |g.durations| && SameOnPlaced(starts, on, on')
    ensures View(g, starts, on') == View(g, starts, on)
  {
  }

  /** Placing task t and then leaving the placed tasks' processors alone leaves them alone before t was placed, too. */
  lemma SameOnAfterPlace(starts: seq<int>, on: seq<int>, t: int, s: int, p: int, on': seq<int>)
    requires 0 <= t < |starts| <= |on| && starts[t] == Unscheduled && s != Unscheduled
    requires SameOnPlaced(starts[t := s], on[t := p], on')
    ensures SameOnPlaced(starts, on, on')
  {
    forall i | 0 <= i < |starts| && starts[i] != Unscheduled ensures on'[i] == on[i] {
      assert i != t && starts[t := s][i] == starts[i];
    }
  }

  /** Placing one task takes its duration off the remaining work. */
  lemma {:induction false} WorkPlace(g: TaskGraph, tasks: seq<Option<Task>>, t: int, task: Task)
    requires |tasks| <= |g.durations| && 0 <= t < |tasks| && tasks[t].None?
    ensures Work(g, tasks[t := Some(task)]) == Work(g, tasks) - g.durations[t]
    decreases |tasks|
  {
    var last := |tasks| - 1;
    var updated := tasks[t := Some(task)];
    if t == last {
      assert updated[..last] == tasks[..last];
    } else {
      assert updated[..last] == tasks[..last][t := Some(task)];
      WorkPlace(g, tasks[..last], t, task);
    }
  }

  /** With nothing placed the remaining work is the sum of all durations. */
  lemma {:induction false} WorkNothingPlaced(g: TaskGraph, tasks: seq<Option<Task>>)
    requires |tasks| <= |g.durations| && forall i :: 0 <= i < |tasks| ==> tasks[i].None?
    ensures Work(g, tasks) == Sum(g.durations[..|tasks|])
  {
    if tasks != [] {
      var last := |tasks| - 1;
      WorkNothingPlaced(g, tasks[..last]);
      assert g.durations[..|tasks|][..last] == g.durations[..last];
    }
  }

  /**
   * The start the general search gives a prepared candidate on processor p
   * (SolutionSequential.java:156-162): the later of p's finish time and the data arrival that
   * applies to p, which is the second largest when p itself caused the largest.
   */
  function ArrivalStart(finishTime: int, p: int, maxDataArrival: int, processorCausingMaxDataArrival: int,
                        secondMaxDataArrival: int): (r: int)
    ensures r >= finishTime
    ensures r >= (if processorCausingMaxDataArrival != p then maxDataArrival else secondMaxDataArrival)
    ensures r == finishTime || r == (if processorCausingMaxDataArrival != p then maxDataArrival else secondMaxDataArrival)
  {
    Max(finishTime, if processorCausingMaxDataArrival != p then maxDataArrival else secondMaxDataArrival)
  }

  /**
   * The idle processor both processor loops keep (SolutionSequential.java:142-149, 447-454): the
   * lowest one with finish time 0, or the processor count when none is idle.
   */
  function FirstIdle(processorFinishTimes: seq<int>): (p: nat)
    ensures p <= |processorFinishTimes|
    ensures forall q :: 0 <= q < p ==> processorFinishTimes[q] != 0
    ensures p < |processorFinishTimes| ==> processorFinishTimes[p] == 0
  {
    if processorFinishTimes == [] then 0
    else if processorFinishTimes[0] == 0 then 0
    else 1 + FirstIdle(processorFinishTimes[1..])
  }

  /**
   * The isomorphism rule of both processor loops: processor p is tried only when it is busy or is
   * the first idle one, since all idle processors lead to the same schedules up to relabelling.
   */
  predicate NotIsomorphic(processorFinishTimes: seq<int>, p: int)
    requires 0 <= p < |processorFinishTimes|
  {
    processorFinishTimes[p] != 0 || p == FirstIdle(processorFinishTimes)
  }

  /**
   * Turn k of a processor loop, whose flag says whether an idle processor came up in an earlier
   * turn: the isomorphism rule keeps k unless k is idle and the flag is set, and the flag then
   * tells the same for the first k + 1 turns.
   */
  lemma IsomorphismTurn(processorFinishTimes: seq<int>, k: int, hasBeenScheduledAtStart: bool)
    requires 0 <= k < |processorFinishTimes|
    requires hasBeenScheduledAtStart <==> FirstIdle(processorFinishTimes) < k
    ensures NotIsomorphic(processorFinishTimes, k) <==> !(processorFinishTimes[k] == 0 && hasBeenScheduledAtStart)
    ensures hasBeenScheduledAtStart || processorFinishTimes[k] == 0 <==> FirstIdle(processorFinishTimes) < k + 1
  {
  }

  /**
   * The data-arrival figures are enough for a feasible start: on any processor p, a start no
   * earlier than p's finish time and than `maxDataArrival` (or `secondMaxDataArrival` when p is
   * the processor causing the maximum) is at or after the ready time of every parent.
   */
  lemma ArrivalsSuffice(g: TaskGraph, tasks: seq<Option<Task>>, processorFinishTimes: seq<int>, t: int,
                        maxDataArrival: int, processorCausingMaxDataArrival: int, secondMaxDataArrival: int,
                        p: int, start: int)
    requires g.Shaped() && |tasks| == g.numberOfTasks && 0 <= t < g.numberOfTasks
    requires Busy(tasks, processorFinishTimes) && 0 <= p < |processorFinishTimes|
    requires ArrivalBounds(g, tasks, t, maxDataArrival, processorCausingMaxDataArrival, secondMaxDataArrival)
    requires start >= processorFinishTimes[p]
    requires start >= (if processorCausingMaxDataArrival != p then maxDataArrival else secondMaxDataArrival)
    ensures forall q :: q in g.parentsList[t] ==>
              0 <= q < |tasks| && tasks[q].Some? && start >= ReadyTime(g, tasks[q].value, q, t, p)
  {
  }

  /**
   * One search step: placing task t at `start` on processor p, where the start is no earlier than
   * p's finish time and every parent's ready time, gives again a state of the search invariant
   * (with p's finish time moved to t's finish) and one task fewer to place.
   */
  lemma PlaceCandidate(g: TaskGraph, numProcessors: int, tasks: seq<Option<Task>>, processorFinishTimes: seq<int>,
                       inDegrees: seq<int>, remainingDuration: int, nextCandidates: seq<int>, t: int,
                       p: int, start: int, task: Task)
    requires Prepared(g, numProcessors, tasks, processorFinishTimes, inDegrees, remainingDuration, nextCandidates, t)
    requires 0 <= p < numProcessors && start >= processorFinishTimes[p]
    requires forall q :: q in g.parentsList[t] ==>
               0 <= q < |tasks| && tasks[q].Some? && start >= ReadyTime(g, tasks[q].value, q, t, p)
    requires task == NewTask(t, start, start + g.durations[t], p)
    ensures SearchInvariant(g, numProcessors, tasks[t := Some(task)], processorFinishTimes[p := start + g.durations[t]],
                            inDegrees, remainingDuration, nextCandidates)
    ensures Unplaced(tasks[t := Some(task)]) == Unplaced(tasks) - 1
  {
    var updated := tasks[t := Some(task)];
    PlaceConsistent(g, numProcessors, tasks, processorFinishTimes, t, p, start, task);
    WorkPlace(g, tasks, t, task);
    assert Placed(updated) == Placed(tasks) + {t};
    PlaceOne(tasks, t, task);
  }

  /** The consistency half of one search step. */
  lemma PlaceConsistent(g: TaskGraph, numProcessors: int, tasks: seq<Option<Task>>, processorFinishTimes: seq<int>,
                        t: int, p: int, start: int, task: Task)
    requires g.WellFormed() && Consistent(g, numProcessors, tasks, processorFinishTimes)
    requires 0 <= t < |tasks| && tasks[t].None?
    requires 0 <= p < numProcessors && start >= processorFinishTimes[p]
    requires forall q :: q in g.parentsList[t] ==>
               0 <= q < |tasks| && tasks[q].Some? && start >= ReadyTime(g, tasks[q].value, q, t, p)
    requires task == NewTask(t, start, start + g.durations[t], p)
    ensures 0 <= start
    ensures Consistent(g, numProcessors, tasks[t := Some(task)], processorFinishTimes[p := start + g.durations[t]])
  {
    assert 0 <= start by {
      assert Attained(tasks, processorFinishTimes);
    }
    assert task.processor == p && task.startTime == start && task.finishTime == start + g.durations[t];
    ExtendAfterProcessor(g, numProcessors, tasks, processorFinishTimes, t, task);
    BusyPlace(tasks, processorFinishTimes, t, task);
    AttainedPlace(tasks, processorFinishTimes, t, task);
  }

  /**
   * One search step read off the state arrays: writing t's start and processor into arrays in
   * which t is unplaced moves the view on by exactly the step `PlaceCandidate` describes.
   */
  lemma PlaceInView(g: TaskGraph, numProcessors: int, starts: seq<int>, on: seq<int>, processorFinishTimes: seq<int>,
                    inDegrees: seq<int>, remainingDuration: int, nextCandidates: seq<int>, t: int, p: int, start: int,
                    startsAfter: seq<int>, onAfter: seq<int>, finishTimesAfter: seq<int>)
    requires g.Shaped() && |starts| == |on| == g.numberOfTasks && 0 <= t < g.numberOfTasks
    requires Prepared(g, numProcessors, View(g, starts, on), processorFinishTimes, inDegrees, remainingDuration,
                      nextCandidates, t)
    requires 0 <= p < numProcessors && start >= processorFinishTimes[p]
    requires var tasks := View(g, starts, on);
      forall q :: q in g.parentsList[t] ==>
        0 <= q < |tasks| && tasks[q].Some? && start >= ReadyTime(g, tasks[q].value, q, t, p)
    requires startsAfter == starts[t := start] && onAfter == on[t := p]
    requires finishTimesAfter == processorFinishTimes[p := start + g.durations[t]]
    ensures SearchInvariant(g, numProcessors, View(g, startsAfter, onAfter), finishTimesAfter, inDegrees,
                            remainingDuration, nextCandidates)
    ensures Unplaced(View(g, startsAfter, onAfter)) == Unplaced(View(g, starts, on)) - 1
  {
    var tasks := View(g, starts, on);
    var task := NewTask(t, start, start + g.durations[t], p);
    PlaceConsistent(g, numProcessors, tasks, processorFinishTimes, t, p, start, task);
    PlaceCandidate(g, numProcessors, tasks, processorFinishTimes, inDegrees, remainingDuration, nextCandidates,
                   t, p, start, task);
    ViewUpdate(g, starts, on, t, start, p);
  }

  /**
   * A task placed no earlier than its processor's finish time, and no earlier than the ready time
   * of any parent, extends a feasible partial schedule to a feasible one.
   */
  lemma ExtendAfterProcessor(g: TaskGraph, numProcessors: int, tasks: seq<Option<Task>>,
                             processorFinishTimes: seq<int>, t: int, task: Task)
    requires g.WellFormed() && Consistent(g, numProcessors, tasks, processorFinishTimes)
    requires 0 <= t < |tasks| && tasks[t].None?
    requires 0 <= task.processor < numProcessors && 0 <= task.startTime
    requires task.startTime >= processorFinishTimes[task.processor]
    requires task.finishTime == task.startTime + g.durations[t]
    requires forall q :: q in g.parentsList[t] ==>
               0 <= q < |tasks| && tasks[q].Some? && task.startTime >= ReadyTime(g, tasks[q].value, q, t, task.processor)
    ensures Feasible(g, numProcessors, tasks[t := Some(task)])
  {
    assert Busy(tasks, processorFinishTimes);
    Extend(g, numProcessors, tasks, t, task);
  }

  /** Placing a task and raising its processor's finish time to the task's finish keeps `Busy`. */
  lemma BusyPlace(tasks: seq<Option<Task>>, processorFinishTimes: seq<int>, t: int, task: Task)
    requires Busy(tasks, processorFinishTimes) && 0 <= t < |tasks|
    requires 0 <= task.processor < |processorFinishTimes| && task.finishTime >= processorFinishTimes[task.processor]
    ensures Busy(tasks[t := Some(task)], processorFinishTimes[task.processor := task.finishTime])
  {
  }

  /** Setting a processor's finish time to that of the task just placed on it keeps `Attained`. */
  lemma AttainedPlace(tasks: seq<Option<Task>>, processorFinishTimes: seq<int>, t: int, task: Task)
    requires Attained(tasks, processorFinishTimes) && 0 <= t < |tasks| && tasks[t].None?
    requires 0 <= task.processor < |processorFinishTimes| && task.finishTime >= 0
    ensures Attained(tasks[t := Some(task)], processorFinishTimes[task.processor := task.finishTime])
  {
    var updated := tasks[t := Some(task)];
    var finishTimes := processorFinishTimes[task.processor := task.finishTime];
    forall q | 0 <= q < |finishTimes|
      ensures finishTimes[q] >= 0
      ensures finishTimes[q] == 0 ||
              exists i :: 0 <= i < |updated| && updated[i].Some? && updated[i].value.processor == q &&
                          updated[i].value.finishTime == finishTimes[q]
    {
      if q == task.processor {
        assert updated[t].Some? && updated[t].value.processor == q;
      } else if finishTimes[q] != 0 {
        var i :| 0 <= i < |tasks| && tasks[i].Some? && tasks[i].value.processor == q &&
                 tasks[i].value.finishTime == processorFinishTimes[q];
        assert updated[i] == tasks[i];
      }
    }
  }

  /** Moving the head of a candidate list to its end keeps it the list of free tasks. */
  lemma FrontierRotate(g: TaskGraph, inDegrees: seq<int>, placed: set<int>, queue: seq<int>)
    requires g.Shaped() && |inDegrees| == g.numberOfTasks && queue != []
    requires IsFrontier(g, inDegrees, placed, queue)
    ensures IsFrontier(g, inDegrees, placed, queue[1..] + [queue[0]])
    ensures multiset(queue[1..] + [queue[0]]) == multiset(queue)
  {
    assert queue == [queue[0]] + queue[1..];
    assert multiset(queue[1..] + [queue[0]]) == multiset(queue);
    FrontierPermutation(g, inDegrees, placed, queue, queue[1..] + [queue[0]]);
  }

  /** Any rearrangement of the list of free tasks is again the list of free tasks. */
  lemma FrontierPermutation(g: TaskGraph, inDegrees: seq<int>, placed: set<int>, queue: seq<int>, queue': seq<int>)
    requires g.Shaped() && |inDegrees| == g.numberOfTasks
    requires IsFrontier(g, inDegrees, placed, queue) && multiset(queue') == multiset(queue)
    ensures IsFrontier(g, inDegrees, placed, queue')
  {
    DistinctPermutation(queue, queue');
    forall x ensures x in queue' <==> x in queue {
      assert x in queue' <==> x in multiset(queue');
      assert x in queue <==> x in multiset(queue);
    }
    forall k | 0 <= k < |queue'| ensures 0 <= queue'[k] < g.numberOfTasks && queue'[k] !in placed {
      assert queue'[k] in queue;
    }
  }

  /**
   * When the candidate list runs empty on an acyclic graph, every task is placed and the largest
   * processor finish time is the finish time of the schedule: the latest finish of a task.
   */
  lemma FinishedSchedule(g: TaskGraph, rank: seq<nat>, numProcessors: int, tasks: seq<Option<Task>>,
                         processorFinishTimes: seq<int>, inDegrees: seq<int>, remainingDuration: int)
    requires Ranked(g, rank) && numProcessors >= 1
    requires SearchInvariant(g, numProcessors, tasks, processorFinishTimes, inDegrees, remainingDuration, [])
    ensures Complete(tasks)
    ensures LatestFinish(tasks, MaxFrom(IntMin, processorFinishTimes))
  {
    forall c | 0 <= c < g.numberOfTasks && tasks[c].None? ensures Pending(g.parentsList[c], Placed(tasks)) != 0 {
      assert c !in Placed(tasks);
    }
    AllPlaced(g, rank, tasks);
    var finishTime := MaxFrom(IntMin, processorFinishTimes);
    MaxFromBounds(IntMin, processorFinishTimes);
    assert processorFinishTimes[0] >= 0;
    var p :| 0 <= p < |processorFinishTimes| && processorFinishTimes[p] == finishTime;
    assert finishTime == 0 ||
           exists i :: 0 <= i < |tasks| && tasks[i].Some? && tasks[i].value.processor == p &&
                       tasks[i].value.finishTime == finishTime;
  }

  // ---------------------------------------------------------------------------------------------
  // Why the prunes are safe.

  /**
   * A bottom level is a lower bound: in a complete feasible schedule finishing by `finishTime`,
   * a task starting at s keeps the schedule busy until at least s plus its bottom level, since
   * each child starts after its parent has finished.
   */
  lemma {:induction false} CriticalPathBound(g: TaskGraph, rank: seq<nat>, numProcessors: int,
                                             tasks: seq<Option<Task>>, finishTime: int, t: int)
    requires g.WellFormed() && Ranked(g, rank) && Feasible(g, numProcessors, tasks) && Complete(tasks)
    requires FinishesBy(tasks, finishTime) && 0 <= t < g.numberOfTasks
    ensures tasks[t].value.startTime + BLevel(g, rank, t) <= finishTime
    decreases rank[t]
  {
    BLevelIsLongestPath(g, rank, t);
    if BLevel(g, rank, t) != g.durations[t] {
      var c :| c in g.childrenList[t] && BLevel(g, rank, t) == g.durations[t] + BLevel(g, rank, c);
      var j :| 0 <= j < |g.childrenList[t]| && g.childrenList[t][j] == c;
      assert 0 <= c < g.numberOfTasks && rank[c] < rank[t];
      assert t in g.parentsList[c] && DataArrived(g, tasks, c, t);
      assert tasks[c].value.startTime >= ReadyTime(g, tasks[t].value, t, c, tasks[c].value.processor);
      CriticalPathBound(g, rank, numProcessors, tasks, finishTime, c);
    }
  }

  /**
   * The latest-finish and critical-path prunes never discard an improvement.  Take any complete
   * feasible schedule that keeps every task already placed and starts each free task no earlier
   * than the earliest processor finish time (the search only appends after a processor's last
   * task).  If it finishes strictly before the best finish time, `IsPotentialOptimal` can only be
   * false because of the load-balancing bound.
   */
  lemma NecessaryForImprovement(g: TaskGraph, rank: seq<nat>, numProcessors: int, tasks: seq<Option<Task>>,
                                processorFinishTimes: seq<int>, lengths: seq<int>, candidateTasks: seq<int>,
                                full: seq<Option<Task>>, finishTime: int, loadBalancedRemainingTime: int,
                                bestFinishTime: int)
    requires g.WellFormed() && Ranked(g, rank) && numProcessors >= 1
    requires Consistent(g, numProcessors, tasks, processorFinishTimes)
    requires |lengths| == g.numberOfTasks && forall i :: 0 <= i < g.numberOfTasks ==> lengths[i] == BLevel(g, rank, i)
    requires |full| == g.numberOfTasks && Feasible(g, numProcessors, full) && Complete(full)
    requires finishTime >= 0 && FinishesBy(full, finishTime) && finishTime < bestFinishTime
    requires forall i :: 0 <= i < |tasks| && tasks[i].Some? ==> full[i] == tasks[i]
    requires AllBelow(candidateTasks, g.numberOfTasks)
    requires forall k :: 0 <= k < |candidateTasks| ==>
               full[candidateTasks[k]].value.startTime >= MinFrom(IntMax, processorFinishTimes)
    ensures IsPotentialOptimal(MinFrom(IntMax, processorFinishTimes), loadBalancedRemainingTime,
                               MaxFrom(0, CriticalPaths(lengths, candidateTasks)), MaxFrom(0, processorFinishTimes),
                               bestFinishTime)
            <==> MinFrom(IntMax, processorFinishTimes) + loadBalancedRemainingTime < bestFinishTime
  {
    var earliest := MinFrom(IntMax, processorFinishTimes);
    var latest := MaxFrom(0, processorFinishTimes);
    var paths := CriticalPaths(lengths, candidateTasks);
    MaxFromBounds(0, processorFinishTimes);
    MinFromBounds(IntMax, processorFinishTimes);
    MaxFromBounds(0, paths);
    assert latest <= finishTime by {
      if latest != 0 {
        var p :| 0 <= p < |processorFinishTimes| && processorFinishTimes[p] == latest;
        var i :| 0 <= i < |tasks| && tasks[i].Some? && tasks[i].value.processor == p &&
                 tasks[i].value.finishTime == processorFinishTimes[p];
        assert full[i] == tasks[i];
      }
    }
    assert earliest + MaxFrom(0, paths) <= finishTime by {
      if MaxFrom(0, paths) == 0 {
        assert earliest <= processorFinishTimes[0] <= latest;
      } else {
        var k :| 0 <= k < |paths| && paths[k] == MaxFrom(0, paths);
        CriticalPathBound(g, rank, numProcessors, full, finishTime, candidateTasks[k]);
      }
    }
  }

  /** Reordering the lists of a graph does not change which schedules are feasible. */
  lemma FeasibleSameGraph(g: TaskGraph, h: TaskGraph, numProcessors: int, tasks: seq<Option<Task>>)
    requires g.WellFormed() && SameGraph(g, h)
    ensures h.Shaped()
    ensures Feasible(h, numProcessors, tasks) <==> Feasible(g, numProcessors, tasks)
  {
    SameGraphKeeps(g, h, []);
    forall c, p | 0 <= c < g.numberOfTasks ensures p in h.parentsList[c] <==> p in g.parentsList[c] {
      assert p in h.parentsList[c] <==> p in multiset(h.parentsList[c]);
      assert p in g.parentsList[c] <==> p in multiset(g.parentsList[c]);
    }
    if |tasks| == g.numberOfTasks {
      forall c, p | 0 <= c < |tasks| && 0 <= p < |tasks|
        ensures DataArrived(h, tasks, c, p) <==> DataArrived(g, tasks, c, p)
      {
      }
    }
  }

  // ---------------------------------------------------------------------------------------------
  // Sorting by a pair of keys, as `List.sort` does with the search's two comparators.

  /** Task a may go before task b: its key pair is lexicographically at most b's. */
  predicate KeyLe(k1: seq<int>, k2: seq<int>, a: int, b: int)
    requires 0 <= a < |k1| && 0 <= b < |k1| && |k2| == |k1|
  {
    k1[a] < k1[b] || (k1[a] == k1[b] && k2[a] <= k2[b])
  }

  /** The list is ordered by the key pair. */
  predicate SortedByKeys(s: seq<int>, k1: seq<int>, k2: seq<int>)
    requires AllBelow(s, |k1|) && |k2| == |k1|
  {
    forall i, j :: 0 <= i < j < |s| ==> KeyLe(k1, k2, s[i], s[j])
  }

  /** Inserts x after every element whose key pair is at most x's, so equal keys keep their order. */
  function InsertByKeys(x: int, s: seq<int>, k1: seq<int>, k2: seq<int>): (r: seq<int>)
    requires 0 <= x < |k1| && AllBelow(s, |k1|) && |k2| == |k1|
    ensures multiset(r) == multiset(s) + multiset{x} && AllBelow(r, |k1|)
  {
    if s == [] then [x]
    else if KeyLe(k1, k2, s[0], x) then
      assert s == [s[0]] + s[1..];
      [s[0]] + InsertByKeys(x, s[1..], k1, k2)
    else [x] + s
  }

  /** A stable insertion sort by the key pair; the result is a rearrangement of the input. */
  function SortByKeys(s: seq<int>, k1: seq<int>, k2: seq<int>): (r: seq<int>)
    requires AllBelow(s, |k1|) && |k2| == |k1|
    ensures multiset(r) == multiset(s) && AllBelow(r, |k1|)
  {
    if s == [] then []
    else
      assert s == s[..|s| - 1] + [s[|s| - 1]];
      InsertByKeys(s[|s| - 1], SortByKeys(s[..|s| - 1], k1, k2), k1, k2)
  }

  /** Inserting into an ordered list keeps it ordered. */
  lemma {:induction false} InsertSorted(x: int, s: seq<int>, k1: seq<int>, k2: seq<int>)
    requires 0 <= x < |k1| && AllBelow(s, |k1|) && |k2| == |k1| && SortedByKeys(s, k1, k2)
    ensures SortedByKeys(InsertByKeys(x, s, k1, k2), k1, k2)
  {
    if s != [] && KeyLe(k1, k2, s[0], x) {
      var rest := InsertByKeys(x, s[1..], k1, k2);
      InsertSorted(x, s[1..], k1, k2);
      forall j | 0 <= j < |rest| ensures KeyLe(k1, k2, s[0], rest[j]) {
        assert rest[j] in multiset(rest);
        assert rest[j] == x || rest[j] in multiset(s[1..]);
        if rest[j] != x {
          var m :| 0 <= m < |s[1..]| && s[1..][m] == rest[j];
          assert s[m + 1] == rest[j];
        }
      }
    }
  }

  /** The sort orders its result by the key pair. */
  lemma {:induction false} SortByKeysSorted(s: seq<int>, k1: seq<int>, k2: seq<int>)
    requires AllBelow(s, |k1|) && |k2| == |k1|
    ensures SortedByKeys(SortByKeys(s, k1, k2), k1, k2)
  {
    if s != [] {
      SortByKeysSorted(s[..|s| - 1], k1, k2);
      InsertSorted(s[|s| - 1], SortByKeys(s[..|s| - 1], k1, k2), k1, k2);
    }
  }

  /** The elements of s whose key pair is (a, b), in their order in s. */
  function WithKeys(s: seq<int>, k1: seq<int>, k2: seq<int>, a: int, b: int): seq<int>
    requires AllBelow(s, |k1|) && |k2| == |k1|
  {
    if s == [] then []
    else
      var x := s[|s| - 1];
      WithKeys(s[..|s| - 1], k1, k2, a, b) + (if k1[x] == a && k2[x] == b then [x] else [])
  }

  /** Picking the elements with one key pair distributes over concatenation. */
  lemma {:induction false} WithKeysAppend(s: seq<int>, t: seq<int>, k1: seq<int>, k2: seq<int>, a: int, b: int)
    requires AllBelow(s, |k1|) && AllBelow(t, |k1|) && |k2| == |k1|
    ensures AllBelow(s + t, |k1|)
    ensures WithKeys(s + t, k1, k2, a, b) == WithKeys(s, k1, k2, a, b) + WithKeys(t, k1, k2, a, b)
    decreases |t|
  {
    if t != [] {
      var n := |t| - 1;
      WithKeysAppend(s, t[..n], k1, k2, a, b);
      assert (s + t)[..|s + t| - 1] == s + t[..n];
    } else {
      assert s + t == s;
    }
  }

  /** A list none of whose elements has the key pair (a, b) contributes nothing. */
  lemma {:induction false} WithKeysNone(s: seq<int>, k1: seq<int>, k2: seq<int>, a: int, b: int)
    requires AllBelow(s, |k1|) && |k2| == |k1|
    requires forall i :: 0 <= i < |s| ==> !(k1[s[i]] == a && k2[s[i]] == b)
    ensures WithKeys(s, k1, k2, a, b) == []
    decreases |s|
  {
    if s != [] {
      WithKeysNone(s[..|s| - 1], k1, k2, a, b);
    }
  }

  /** Inserting x into an ordered list puts it after every element with its key pair. */
  lemma {:induction false} InsertKeepsTies(x: int, s: seq<int>, k1: seq<int>, k2: seq<int>, a: int, b: int)
    requires 0 <= x < |k1| && AllBelow(s, |k1|) && |k2| == |k1| && SortedByKeys(s, k1, k2)
    ensures WithKeys(InsertByKeys(x, s, k1, k2), k1, k2, a, b) ==
              WithKeys(s, k1, k2, a, b) + (if k1[x] == a && k2[x] == b then [x] else [])
    decreases |s|
  {
    if s == [] {
      assert [x][..0] == [];
    } else if KeyLe(k1, k2, s[0], x) {
      SortedTail(s, k1, k2);
      InsertKeepsTies(x, s[1..], k1, k2, a, b);
      var tie := if k1[x] == a && k2[x] == b then [x] else [];
      PrependTies(s[0], s[1..], InsertByKeys(x, s[1..], k1, k2), tie, k1, k2, a, b);
      assert s == [s[0]] + s[1..];
    } else {
      InsertBeforeAll(x, s, k1, k2, a, b);
    }
  }

  /** The tail of an ordered list is ordered. */
  lemma SortedTail(s: seq<int>, k1: seq<int>, k2: seq<int>)
    requires AllBelow(s, |k1|) && |k2| == |k1| && SortedByKeys(s, k1, k2) && s != []
    ensures AllBelow(s[1..], |k1|) && SortedByKeys(s[1..], k1, k2)
  {
    var rest := s[1..];
    forall i, j | 0 <= i < j < |rest| ensures KeyLe(k1, k2, rest[i], rest[j]) {
      assert rest[i] == s[i + 1] && rest[j] == s[j + 1];
    }
  }

  /** Putting one element in front of two lists that agree on a key pair up to `tie` keeps them agreeing. */
  lemma PrependTies(h: int, rest: seq<int>, inserted: seq<int>, tie: seq<int>, k1: seq<int>, k2: seq<int>, a: int, b: int)
    requires 0 <= h < |k1| && AllBelow(rest, |k1|) && AllBelow(inserted, |k1|) && |k2| == |k1|
    requires WithKeys(inserted, k1, k2, a, b) == WithKeys(rest, k1, k2, a, b) + tie
    ensures AllBelow([h] + inserted, |k1|) && AllBelow([h] + rest, |k1|)
    ensures WithKeys([h] + inserted, k1, k2, a, b) == WithKeys([h] + rest, k1, k2, a, b) + tie
  {
    WithKeysAppend([h], rest, k1, k2, a, b);
    WithKeysAppend([h], inserted, k1, k2, a, b);
    var head := WithKeys([h], k1, k2, a, b);
    assert head + (WithKeys(rest, k1, k2, a, b) + tie) == (head + WithKeys(rest, k1, k2, a, b)) + tie;
  }

  /** Inserting x before a sorted list whose head is above x puts nothing with x's key pair before it. */
  lemma InsertBeforeAll(x: int, s: seq<int>, k1: seq<int>, k2: seq<int>, a: int, b: int)
    requires 0 <= x < |k1| && AllBelow(s, |k1|) && |k2| == |k1| && SortedByKeys(s, k1, k2)
    requires s != [] && !KeyLe(k1, k2, s[0], x)
    ensures WithKeys([x] + s, k1, k2, a, b) == WithKeys(s, k1, k2, a, b) + (if k1[x] == a && k2[x] == b then [x] else [])
  {
    assert [x][..0] == [];
    WithKeysAppend([x], s, k1, k2, a, b);
    if k1[x] == a && k2[x] == b {
      forall i | 0 <= i < |s| ensures !(k1[s[i]] == a && k2[s[i]] == b) {
        if i > 0 {
          assert KeyLe(k1, k2, s[0], s[i]);
        }
      }
      WithKeysNone(s, k1, k2, a, b);
    }
  }

  /** The sort is stable: the elements with any one key pair keep their order. */
  lemma {:induction false} SortByKeysStable(s: seq<int>, k1: seq<int>, k2: seq<int>, a: int, b: int)
    requires AllBelow(s, |k1|) && |k2| == |k1|
    ensures WithKeys(SortByKeys(s, k1, k2), k1, k2, a, b) == WithKeys(s, k1, k2, a, b)
    decreases |s|
  {
    if s != [] {
      var n := |s| - 1;
      SortByKeysStable(s[..n], k1, k2, a, b);
      SortByKeysSorted(s[..n], k1, k2);
      InsertKeepsTies(s[n], SortByKeys(s[..n], k1, k2), k1, k2, a, b);
    }
  }

  // ---------------------------------------------------------------------------------------------
  // The Fixed Task Order test (SolutionSequential.java:272-378) as predicates.

  /**
   * The data-ready time of task a: its first parent's finish plus the cost of the edge to a, or 0
   * for a task without parents.
   */
  function DataReadyTime(g: TaskGraph, starts: seq<int>, a: int): int
    requires g.Shaped() && |starts| == g.numberOfTasks && 0 <= a < g.numberOfTasks
  {
    if g.parentsList[a] == [] then 0
    else
      var parent := g.parentsList[a][0];
      starts[parent] + g.durations[parent] + g.commCosts[parent][a]
  }

  /** The cost of a's edge to its first child, or 0 for a task without children. */
  function OutEdgeCost(g: TaskGraph, a: int): int
    requires g.Shaped() && 0 <= a < g.numberOfTasks
  {
    if g.childrenList[a] == [] then 0 else g.commCosts[a][g.childrenList[a][0]]
  }

  /**
   * sortByDataReadyTime (SolutionSequential.java:340-378): by non-decreasing data-ready time, ties
   * by non-increasing out-edge cost, equal keys in their original order as `List.sort` keeps
   * them (`SortByKeysStable`).
   */
  function SortByDataReadyTime(g: TaskGraph, starts: seq<int>, candidateTasks: seq<int>): (r: seq<int>)
    requires g.Shaped() && |starts| == g.numberOfTasks && AllBelow(candidateTasks, g.numberOfTasks)
    ensures multiset(r) == multiset(candidateTasks) && AllBelow(r, g.numberOfTasks)
  {
    SortByKeys(candidateTasks, ReadyKeys(g, starts), CostKeys(g))
  }

  /** The primary sort key of every task: its data-ready time. */
  function ReadyKeys(g: TaskGraph, starts: seq<int>): (keys: seq<int>)
    requires g.Shaped() && |starts| == g.numberOfTasks
    ensures |keys| == g.numberOfTasks
  {
    seq(g.numberOfTasks, a requires 0 <= a < g.numberOfTasks => DataReadyTime(g, starts, a))
  }

  /** The tie-breaking key of every task: its out-edge cost, negated so that larger costs go first. */
  function CostKeys(g: TaskGraph): (keys: seq<int>)
    requires g.Shaped()
    ensures |keys| == g.numberOfTasks
  {
    seq(g.numberOfTasks, a requires 0 <= a < g.numberOfTasks => -OutEdgeCost(g, a))
  }

  /** The data-ready-time sort orders by data-ready time, then by non-increasing out-edge cost. */
  lemma DataReadyOrder(g: TaskGraph, starts: seq<int>, candidateTasks: seq<int>)
    requires g.Shaped() && |starts| == g.numberOfTasks && AllBelow(candidateTasks, g.numberOfTasks)
    ensures var r := SortByDataReadyTime(g, starts, candidateTasks);
      forall i, j :: 0 <= i < j < |r| ==>
        || DataReadyTime(g, starts, r[i]) < DataReadyTime(g, starts, r[j])
        || (DataReadyTime(g, starts, r[i]) == DataReadyTime(g, starts, r[j]) && OutEdgeCost(g, r[i]) >= OutEdgeCost(g, r[j]))
  {
    SortByKeysSorted(candidateTasks, ReadyKeys(g, starts), CostKeys(g));
  }

  /**
   * The shape a Fixed Task Order needs: each task has at most one parent and at most one child,
   * all tasks with a child share it, and all tasks with a parent have it on the same processor.
   */
  predicate FtoCandidates(g: TaskGraph, on: seq<int>, candidateTasks: seq<int>)
    requires g.Shaped() && |on| == g.numberOfTasks && AllBelow(candidateTasks, g.numberOfTasks)
  {
    && (forall k :: 0 <= k < |candidateTasks| ==>
          |g.parentsList[candidateTasks[k]]| <= 1 && |g.childrenList[candidateTasks[k]]| <= 1)
    && (forall i, j {:trigger ChildrenAgree(g, candidateTasks, i, j)} ::
          0 <= i < |candidateTasks| && 0 <= j < |candidateTasks| ==> ChildrenAgree(g, candidateTasks, i, j))
    && (forall i, j {:trigger ParentsTogether(g, on, candidateTasks, i, j)} ::
          0 <= i < |candidateTasks| && 0 <= j < |candidateTasks| ==> ParentsTogether(g, on, candidateTasks, i, j))
  }

  /** Candidates i and j, when both have a child, have the same first child. */
  predicate ChildrenAgree(g: TaskGraph, candidateTasks: seq<int>, i: int, j: int)
    requires g.Shaped() && AllBelow(candidateTasks, g.numberOfTasks)
    requires 0 <= i < |candidateTasks| && 0 <= j < |candidateTasks|
  {
    g.childrenList[candidateTasks[i]] != [] && g.childrenList[candidateTasks[j]] != [] ==>
      g.childrenList[candidateTasks[i]][0] == g.childrenList[candidateTasks[j]][0]
  }

  /** Candidates i and j, when both have a parent, have their first parents on the same processor. */
  predicate ParentsTogether(g: TaskGraph, on: seq<int>, candidateTasks: seq<int>, i: int, j: int)
    requires g.Shaped() && |on| == g.numberOfTasks && AllBelow(candidateTasks, g.numberOfTasks)
    requires 0 <= i < |candidateTasks| && 0 <= j < |candidateTasks|
  {
    g.parentsList[candidateTasks[i]] != [] && g.parentsList[candidateTasks[j]] != [] ==>
      on[g.parentsList[candidateTasks[i]][0]] == on[g.parentsList[candidateTasks[j]][0]]
  }

  /** Each out-edge cost is at most the previous one (the first at most `Integer.MAX_VALUE`). */
  predicate OutCostsNonIncreasing(g: TaskGraph, s: seq<int>)
    requires g.Shaped() && AllBelow(s, g.numberOfTasks)
  {
    forall k :: 0 <= k < |s| ==> CostFallsAt(g, s, k)
  }

  /** The out-edge cost at position k is at most the one before it (the first at most `Integer.MAX_VALUE`). */
  predicate CostFallsAt(g: TaskGraph, s: seq<int>, k: int)
    requires g.Shaped() && AllBelow(s, g.numberOfTasks) && 0 <= k < |s|
  {
    OutEdgeCost(g, s[k]) <= (if k == 0 then IntMax else OutEdgeCost(g, s[k - 1]))
  }

  /** Consecutive non-increasing costs are non-increasing between any two positions. */
  lemma {:induction false} CostsOrdered(g: TaskGraph, s: seq<int>, i: int, j: int)
    requires g.Shaped() && AllBelow(s, g.numberOfTasks) && OutCostsNonIncreasing(g, s) && 0 <= i <= j < |s|
    ensures OutEdgeCost(g, s[j]) <= OutEdgeCost(g, s[i])
    decreases j - i
  {
    if i < j {
      assert CostFallsAt(g, s, j);
      CostsOrdered(g, s, i, j - 1);
    }
  }

  /** Fewer candidates keep the Fixed Task Order shape. */
  lemma FtoTail(g: TaskGraph, on: seq<int>, candidateTasks: seq<int>)
    requires g.Shaped() && |on| == g.numberOfTasks && AllBelow(candidateTasks, g.numberOfTasks)
    requires FtoCandidates(g, on, candidateTasks) && candidateTasks != []
    ensures FtoCandidates(g, on, candidateTasks[1..])
  {
    var tail := candidateTasks[1..];
    assert forall k :: 0 <= k < |tail| ==> tail[k] == candidateTasks[k + 1];
    forall i, j | 0 <= i < |tail| && 0 <= j < |tail|
      ensures ChildrenAgree(g, tail, i, j) && ParentsTogether(g, on, tail, i, j)
    {
      assert ChildrenAgree(g, candidateTasks, i + 1, j + 1);
      assert ParentsTogether(g, on, candidateTasks, i + 1, j + 1);
    }
  }

  /**
   * findEarliestStartTimeOnCurrentProcessor (SolutionSequential.java:559-574): the later of
   * processor p's finish time and the ready time of t's first parent on p.
   */
  function EarliestStartOn(g: TaskGraph, starts: seq<int>, on: seq<int>, processorFinishTimes: seq<int>,
                           p: int, t: int): (r: int)
    requires g.Shaped() && |starts| == g.numberOfTasks && |on| == g.numberOfTasks
    requires 0 <= p < |processorFinishTimes| && 0 <= t < g.numberOfTasks
    ensures r >= processorFinishTimes[p]
    ensures g.parentsList[t] != [] ==> r >= ParentReady(g, starts, on, g.parentsList[t][0], t, p)
    ensures r == processorFinishTimes[p] ||
            (g.parentsList[t] != [] && r == ParentReady(g, starts, on, g.parentsList[t][0], t, p))
  {
    var earliestStartTimeOnCurrentProcessor := processorFinishTimes[p];
    if g.parentsList[t] == [] then earliestStartTimeOnCurrentProcessor
    else
      var parent := g.parentsList[t][0];
      if on[parent] == p then Max(earliestStartTimeOnCurrentProcessor, starts[parent] + g.durations[parent])
      else Max(earliestStartTimeOnCurrentProcessor, starts[parent] + g.durations[parent] + g.commCosts[parent][t])
  }

  /**
   * The start `EarliestStartOn` picks for t does not depend on t's own start, since t is not its
   * own parent.
   */
  lemma EarliestStartUnplaced(g: TaskGraph, starts: seq<int>, starts0: seq<int>, on: seq<int>,
                              processorFinishTimes: seq<int>, p: int, t: int)
    requires g.Shaped() && |starts| == g.numberOfTasks && |on| == g.numberOfTasks
    requires 0 <= p < |processorFinishTimes| && 0 <= t < g.numberOfTasks
    requires starts[t := Unscheduled] == starts0 && starts0[t] == Unscheduled
    requires forall q :: q in g.parentsList[t] ==> 0 <= q < g.numberOfTasks && starts0[q] != Unscheduled
    ensures EarliestStartOn(g, starts, on, processorFinishTimes, p, t) == EarliestStartOn(g, starts0, on, processorFinishTimes, p, t)
  {
    if g.parentsList[t] != [] {
      assert g.parentsList[t][0] in g.parentsList[t];
    }
  }

  /**
   * The start `EarliestStartOn` picks for t does not depend on where unplaced tasks were last put,
   * since it reads only t's parents, which are placed.
   */
  lemma EarliestStartSameOn(g: TaskGraph, starts: seq<int>, on: seq<int>, on': seq<int>,
                            processorFinishTimes: seq<int>, p: int, t: int)
    requires g.Shaped() && |starts| == g.numberOfTasks && |on| == g.numberOfTasks
    requires 0 <= p < |processorFinishTimes| && 0 <= t < g.numberOfTasks
    requires SameOnPlaced(starts, on, on')
    requires forall q :: q in g.parentsList[t] ==> 0 <= q < g.numberOfTasks && starts[q] != Unscheduled
    ensures EarliestStartOn(g, starts, on, processorFinishTimes, p, t) == EarliestStartOn(g, starts, on', processorFinishTimes, p, t)
  {
    if g.parentsList[t] != [] {
      assert g.parentsList[t][0] in g.parentsList[t];
    }
  }

  /**
   * For a task with at most one parent, all placed, the start `EarliestStartOn` picks is at or
   * after the ready time of every parent, on the view of the arrays.
   */
  lemma FtoStartSuffices(g: TaskGraph, starts: seq<int>, on: seq<int>, processorFinishTimes: seq<int>, p: int, t: int)
    requires g.Shaped() && |starts| == g.numberOfTasks && |on| == g.numberOfTasks
    requires 0 <= p < |processorFinishTimes| && 0 <= t < g.numberOfTasks && |g.parentsList[t]| <= 1
    requires forall q :: q in g.parentsList[t] ==> 0 <= q < g.numberOfTasks && starts[q] != Unscheduled
    ensures var tasks := View(g, starts, on);
      forall q :: q in g.parentsList[t] ==>
        0 <= q < |tasks| && tasks[q].Some? &&
        EarliestStartOn(g, starts, on, processorFinishTimes, p, t) >= ReadyTime(g, tasks[q].value, q, t, p)
  {
    forall q | q in g.parentsList[t] ensures q == g.parentsList[t][0] {
    }
  }
  // ---------------------------------------------------------------------------------------------
  // Further facts the search relies on.

  /** The candidates sorted by priority (`Comparator.comparingInt`, a stable sort on one key). */
  function SortByPriority(candidateTasks: seq<int>, nodePriorities: seq<int>): (r: seq<int>)
    requires AllBelow(candidateTasks, |nodePriorities|)
    ensures multiset(r) == multiset(candidateTasks) && AllBelow(r, |nodePriorities|)
  {
    SortByKeys(candidateTasks, nodePriorities, nodePriorities)
  }

  /** The priority sort orders by non-decreasing priority. */
  lemma PriorityOrder(candidateTasks: seq<int>, nodePriorities: seq<int>)
    requires AllBelow(candidateTasks, |nodePriorities|)
    ensures var r := SortByPriority(candidateTasks, nodePriorities);
      forall i, j :: 0 <= i < j < |r| ==> nodePriorities[r[i]] <= nodePriorities[r[j]]
  {
    SortByKeysSorted(candidateTasks, nodePriorities, nodePriorities);
  }

  /** Every listed task has at most one parent and at most one child. */
  predicate OneNeighbour(g: TaskGraph, candidateTasks: seq<int>)
    requires g.Shaped() && AllBelow(candidateTasks, g.numberOfTasks)
  {
    forall k :: 0 <= k < |candidateTasks| ==>
      |g.parentsList[candidateTasks[k]]| <= 1 && |g.childrenList[candidateTasks[k]]| <= 1
  }

  /** A rearrangement, or a list of fewer tasks, keeps the one-neighbour shape. */
  lemma OneNeighbourSubset(g: TaskGraph, candidateTasks: seq<int>, other: seq<int>)
    requires g.Shaped() && AllBelow(candidateTasks, g.numberOfTasks) && OneNeighbour(g, candidateTasks)
    requires forall x :: x in other ==> x in candidateTasks
    ensures AllBelow(other, g.numberOfTasks) && OneNeighbour(g, other)
  {
    forall k | 0 <= k < |other| ensures 0 <= other[k] < g.numberOfTasks && |g.parentsList[other[k]]| <= 1 && |g.childrenList[other[k]]| <= 1 {
      assert other[k] in other;
      var m :| 0 <= m < |candidateTasks| && candidateTasks[m] == other[k];
    }
  }

  /** The state arrays name a processor in range for every placed task. */
  lemma PlacedInRange(g: TaskGraph, numProcessors: int, starts: seq<int>, on: seq<int>)
    requires g.Shaped() && |starts| == g.numberOfTasks && |on| == g.numberOfTasks
    requires Placement(g, numProcessors, View(g, starts, on))
    ensures ProcessorsInRange(starts, on, numProcessors)
  {
    var tasks := View(g, starts, on);
    forall i | 0 <= i < |starts| && starts[i] != Unscheduled ensures 0 <= on[i] < numProcessors {
      assert tasks[i].Some? && tasks[i].value.processor == on[i];
    }
  }

  /** Every parent of a free task is placed on a processor in range. */
  lemma CandidateParentsPlaced(g: TaskGraph, numProcessors: int, starts: seq<int>, on: seq<int>, processorFinishTimes: seq<int>,
                               inDegrees: seq<int>, remainingDuration: int, candidateTasks: seq<int>)
    requires |starts| == g.numberOfTasks && |on| == g.numberOfTasks && g.Shaped()
    requires SearchInvariant(g, numProcessors, View(g, starts, on), processorFinishTimes, inDegrees, remainingDuration, candidateTasks)
    ensures forall k, q :: 0 <= k < |candidateTasks| && q in g.parentsList[candidateTasks[k]] ==>
              0 <= q < g.numberOfTasks && starts[q] != Unscheduled && 0 <= on[q] < numProcessors
  {
    var tasks := View(g, starts, on);
    assert g.WellFormed() && Placement(g, numProcessors, tasks);
    assert InDegreesMatch(g, inDegrees, Placed(tasks)) && IsFrontier(g, inDegrees, Placed(tasks), candidateTasks);
    forall k, q | 0 <= k < |candidateTasks| && q in g.parentsList[candidateTasks[k]]
      ensures 0 <= q < g.numberOfTasks && starts[q] != Unscheduled && 0 <= on[q] < numProcessors
    {
      QueuedIsFree(g, tasks, inDegrees, candidateTasks, k);
      ViewAt(g, starts, on, q);
    }
  }

  /** The raw arrival figures of the arrays become bounds on the placed parents in the view. */
  lemma ArrivalsInView(g: TaskGraph, starts: seq<int>, on: seq<int>, t: int, maxDataArrival: int,
                       processorCausingMaxDataArrival: int, secondMaxDataArrival: int)
    requires g.Shaped() && |starts| == g.numberOfTasks && |on| == g.numberOfTasks && 0 <= t < g.numberOfTasks
    requires forall q :: q in g.parentsList[t] ==> 0 <= q < g.numberOfTasks && starts[q] != Unscheduled
    requires forall q :: q in g.parentsList[t] ==>
               && Arrival(g, starts, q, t) <= maxDataArrival
               && (on[q] != processorCausingMaxDataArrival ==> Arrival(g, starts, q, t) <= secondMaxDataArrival)
    ensures ArrivalBounds(g, View(g, starts, on), t, maxDataArrival, processorCausingMaxDataArrival, secondMaxDataArrival)
  {
  }

  /** A rearranged list of the tasks released so far is as good as the original one. */
  lemma PreparedReorder(g: TaskGraph, numProcessors: int, tasks: seq<Option<Task>>, processorFinishTimes: seq<int>,
                        inDegrees: seq<int>, remainingDuration: int, nextCandidates: seq<int>, reordered: seq<int>, t: int)
    requires Prepared(g, numProcessors, tasks, processorFinishTimes, inDegrees, remainingDuration, nextCandidates, t)
    requires multiset(reordered) == multiset(nextCandidates)
    ensures Prepared(g, numProcessors, tasks, processorFinishTimes, inDegrees, remainingDuration, reordered, t)
  {
    FrontierPermutation(g, inDegrees, Placed(tasks) + {t}, nextCandidates, reordered);
  }
}
