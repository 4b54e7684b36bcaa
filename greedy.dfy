/**
 * The greedy list schedulers (solution/helpers/Greedy.java) that give the search its first bound.
 * Free tasks wait in a queue (first-in first-out, or ordered by a priority); each task taken out
 * runs on the processor where it can start earliest, lowest index first on a tie.  The table
 * `earliestScheduleTimes[i][j]` is an n-by-P array: after a task finishes, every task's entry for
 * its processor is raised to that finish, and every child's entries are raised to the time the
 * task's data reaches each processor.
 */
module Greedy {
  import opened Wrappers
  import opened Seqs
  import opened Graph
  import opened Tasks
  import opened Schedules
  import opened Frontiers
  import opened PreProcessing

  /** How the candidate queue hands out free tasks. */
  datatype QueueOrder =
    | Fifo
      /** A `PriorityQueue` polling the least `reverse * nodePriorities[a]`. */
    | ByPriority(nodePriorities: seq<int>, reverse: int)

  /** The key the priority queue's comparator compares. */
  function Key(queueOrder: QueueOrder, a: int): int
    requires queueOrder.ByPriority? && 0 <= a < |queueOrder.nodePriorities|
  {
    queueOrder.reverse * queueOrder.nodePriorities[a]
  }

  /** Every queued task has a priority. */
  predicate Keyed(queueOrder: QueueOrder, queue: seq<int>)
  {
    queueOrder.ByPriority? ==> forall k :: 0 <= k < |queue| ==> 0 <= queue[k] < |queueOrder.nodePriorities|
  }

  /**
   * `poll`: the position in the queue of the task handed out next.  A first-in first-out queue
   * gives its head; a priority queue a task of least key, here the earliest queued among equals.
   */
  method Poll(queue: seq<int>, queueOrder: QueueOrder) returns (k: int)
    requires queue != [] && Keyed(queueOrder, queue)
    ensures 0 <= k < |queue|
    ensures queueOrder.Fifo? ==> k == 0
    ensures queueOrder.ByPriority? ==> forall j :: 0 <= j < |queue| ==> Key(queueOrder, queue[k]) <= Key(queueOrder, queue[j])
    ensures queueOrder.ByPriority? ==> forall j :: 0 <= j < k ==> Key(queueOrder, queue[k]) < Key(queueOrder, queue[j])
  {
    k := 0;
    if queueOrder.ByPriority? {
      var j := 1;
      while j < |queue|
        invariant 1 <= j <= |queue| && 0 <= k < j
        invariant forall i :: 0 <= i < j ==> Key(queueOrder, queue[k]) <= Key(queueOrder, queue[i])
        invariant forall i :: 0 <= i < k ==> Key(queueOrder, queue[k]) < Key(queueOrder, queue[i])
      {
        if Key(queueOrder, queue[j]) < Key(queueOrder, queue[k]) {
          k := j;
        }
        j := j + 1;
      }
    }
  }

  /** The earliest-start table as a value: one row per task, one column per processor. */
  ghost function Grid(est: array2<int>): (e: seq<seq<int>>)
    reads est
    ensures |e| == est.Length0
    ensures forall i :: 0 <= i < est.Length0 ==> |e[i]| == est.Length1
    ensures forall i, j :: 0 <= i < est.Length0 && 0 <= j < est.Length1 ==> e[i][j] == est[i, j]
  {
    seq(est.Length0, i reads est =>
      seq(est.Length1, j reads est => if 0 <= i < est.Length0 && 0 <= j < est.Length1 then est[i, j] else 0))
  }

  /** An n-by-P table of non-negative entries. */
  ghost predicate Table(e: seq<seq<int>>, n: int, numProcessors: int)
  {
    && |e| == n
    && (forall i :: 0 <= i < n ==> |e[i]| == numProcessors)
    && (forall i, j :: 0 <= i < n && 0 <= j < numProcessors ==> e[i][j] >= 0)
  }

  /** No task can start on a processor before every task already placed there has finished. */
  ghost predicate ProcessorsBusy(tasks: seq<Option<Task>>, e: seq<seq<int>>)
  {
    forall s, i :: 0 <= s < |tasks| && tasks[s].Some? && 0 <= i < |e| && 0 <= tasks[s].value.processor < |e[i]| ==>
      e[i][tasks[s].value.processor] >= tasks[s].value.finishTime
  }

  /** No child of a placed task can start on a processor before that task's data has arrived there. */
  ghost predicate DataArrives(g: TaskGraph, tasks: seq<Option<Task>>, e: seq<seq<int>>)
    requires g.Shaped() && |tasks| == g.numberOfTasks
  {
    forall s, c, j :: 0 <= s < |tasks| && tasks[s].Some? && c in g.childrenList[s] && 0 <= c < |e| && 0 <= j < |e[c]| ==>
      e[c][j] >= ReadyTime(g, tasks[s].value, s, c, j)
  }

  /** What the loop of the list scheduler keeps between iterations. */
  ghost predicate Scheduling(g: TaskGraph, numProcessors: int, tasks: seq<Option<Task>>, e: seq<seq<int>>,
                             inDegrees: seq<int>, queue: seq<int>, finishTime: int)
  {
    && g.WellFormed() && numProcessors >= 1
    && Feasible(g, numProcessors, tasks)
    && InDegreesMatch(g, inDegrees, Placed(tasks))
    && IsFrontier(g, inDegrees, Placed(tasks), queue)
    && Table(e, g.numberOfTasks, numProcessors)
    && ProcessorsBusy(tasks, e)
    && DataArrives(g, tasks, e)
    && LatestFinish(tasks, finishTime)
  }

  /**
   * The list scheduler shared by runSchedule (Greedy.java:50-120) and runScheduleWithPriority
   * (Greedy.java:122-194); the two differ only in the queue.  The output is a feasible schedule and
   * the reported finish time is the latest finish of a placed task.  A task left unplaced (possible
   * only on a cyclic graph) still has an unplaced parent.
   */
  method ListSchedule(taskGraph: TaskGraph, numProcessors: int, queueOrder: QueueOrder) returns (schedule: Schedule)
    requires taskGraph.WellFormed() && numProcessors >= 1
    requires queueOrder.ByPriority? ==> |queueOrder.nodePriorities| >= taskGraph.numberOfTasks
    ensures Feasible(taskGraph, numProcessors, schedule.tasks)
    ensures LatestFinish(schedule.tasks, schedule.finishTime)
    ensures forall c :: 0 <= c < taskGraph.numberOfTasks && schedule.tasks[c].None? ==>
              Pending(taskGraph.parentsList[c], Placed(schedule.tasks)) != 0
  {
    var n := taskGraph.GetNumberOfTasks();
    var finalFinishTime := 0;
    var output: seq<Option<Task>> := seq(n, _ => None);
    var earliestScheduleTimes := new int[n, numProcessors]((i, j) => 0);
    var inDegrees, scheduleCandidates := InitialFrontier(taskGraph);
    assert Placed(output) == {};
    assert Table(Grid(earliestScheduleTimes), n, numProcessors);
    NothingPlaced(taskGraph, numProcessors, output, Grid(earliestScheduleTimes), inDegrees[..], scheduleCandidates);

    while scheduleCandidates != []
      invariant Scheduling(taskGraph, numProcessors, output, Grid(earliestScheduleTimes), inDegrees[..],
                           scheduleCandidates, finalFinishTime)
      invariant earliestScheduleTimes.Length0 == n && earliestScheduleTimes.Length1 == numProcessors
      decreases Unplaced(output)
    {
      output, scheduleCandidates, finalFinishTime :=
        ScheduleNext(taskGraph, numProcessors, queueOrder, output, earliestScheduleTimes, inDegrees,
                     scheduleCandidates, finalFinishTime);
    }
    schedule := Schedule(output, finalFinishTime);
  }

  /** Before the first iteration nothing is placed, so the loop's invariant holds with finish time 0. */
  lemma NothingPlaced(g: TaskGraph, numProcessors: int, tasks: seq<Option<Task>>, e: seq<seq<int>>,
                      inDegrees: seq<int>, queue: seq<int>)
    requires g.WellFormed() && numProcessors >= 1 && Table(e, g.numberOfTasks, numProcessors)
    requires |tasks| == g.numberOfTasks && forall i :: 0 <= i < |tasks| ==> tasks[i].None?
    requires InDegreesMatch(g, inDegrees, Placed(tasks)) && IsFrontier(g, inDegrees, Placed(tasks), queue)
    ensures Scheduling(g, numProcessors, tasks, e, inDegrees, queue, 0)
  {
  }

  /**
   * One iteration of the list scheduler: poll a task, place it, raise the table, release its
   * children.  Greedy.java raises a child's row and lowers its in-degree in one loop over the
   * children; the two steps touch different arrays, so here the rows are raised first and the
   * children released after.
   */
  method ScheduleNext(taskGraph: TaskGraph, numProcessors: int, queueOrder: QueueOrder, output: seq<Option<Task>>,
                      earliestScheduleTimes: array2<int>, inDegrees: array<int>, scheduleCandidates: seq<int>,
                      finalFinishTime: int)
    returns (output': seq<Option<Task>>, scheduleCandidates': seq<int>, finalFinishTime': int)
    requires Scheduling(taskGraph, numProcessors, output, Grid(earliestScheduleTimes), inDegrees[..],
                        scheduleCandidates, finalFinishTime)
    requires earliestScheduleTimes.Length0 == taskGraph.numberOfTasks && earliestScheduleTimes.Length1 == numProcessors
    requires scheduleCandidates != []
    requires queueOrder.ByPriority? ==> |queueOrder.nodePriorities| >= taskGraph.numberOfTasks
    modifies earliestScheduleTimes, inDegrees
    ensures Scheduling(taskGraph, numProcessors, output', Grid(earliestScheduleTimes), inDegrees[..],
                       scheduleCandidates', finalFinishTime')
    ensures Unplaced(output') < Unplaced(output)
  {
    ghost var e0 := Grid(earliestScheduleTimes);
    var k := Poll(scheduleCandidates, queueOrder);
    var candidate := scheduleCandidates[k];
    QueuedIsFree(taskGraph, output, inDegrees[..], scheduleCandidates, k);
    TakeQueued(taskGraph, numProcessors, output, inDegrees[..], scheduleCandidates, k);

    var minStartTime, minProcessor := ChooseProcessor(earliestScheduleTimes, candidate);
    var finishTime := minStartTime + taskGraph.GetDuration(candidate);
    finalFinishTime' := Max(finalFinishTime, finishTime);
    var placedTask := NewTask(candidate, minStartTime, finishTime, minProcessor);
    PlaceGreedy(taskGraph, numProcessors, output, e0, candidate, placedTask);
    output' := output[candidate := Some(placedTask)];
    RaiseLatest(output, finalFinishTime, candidate, placedTask);

    RaiseChildren(taskGraph, earliestScheduleTimes, candidate, minProcessor, finishTime);
    ghost var e1 := Grid(earliestScheduleTimes);
    scheduleCandidates' := ReleaseChildren(taskGraph, inDegrees, candidate,
                                           scheduleCandidates[..k] + scheduleCandidates[k + 1..], Placed(output'));
    RaiseColumn(earliestScheduleTimes, minProcessor, finishTime);
    assert finishTime >= 0;
    RaiseKeeps(taskGraph, numProcessors, output, e0, e1, Grid(earliestScheduleTimes), candidate, placedTask);
  }

  /**
   * The processor on which a task can start earliest (Greedy.java:77-85): the first column holding
   * the least entry of the task's row.
   */
  method ChooseProcessor(earliestScheduleTimes: array2<int>, candidate: int) returns (minStartTime: int, minProcessor: int)
    requires 0 <= candidate < earliestScheduleTimes.Length0 && earliestScheduleTimes.Length1 >= 1
    ensures 0 <= minProcessor < earliestScheduleTimes.Length1
    ensures minStartTime == earliestScheduleTimes[candidate, minProcessor]
    ensures forall i :: 0 <= i < earliestScheduleTimes.Length1 ==> minStartTime <= earliestScheduleTimes[candidate, i]
    ensures forall i :: 0 <= i < minProcessor ==> minStartTime < earliestScheduleTimes[candidate, i]
  {
    minStartTime := earliestScheduleTimes[candidate, 0];
    minProcessor := 0;
    var i := 1;
    while i < earliestScheduleTimes.Length1
      invariant 1 <= i <= earliestScheduleTimes.Length1 && 0 <= minProcessor < i
      invariant minStartTime == earliestScheduleTimes[candidate, minProcessor]
      invariant forall j :: 0 <= j < i ==> minStartTime <= earliestScheduleTimes[candidate, j]
      invariant forall j :: 0 <= j < minProcessor ==> minStartTime < earliestScheduleTimes[candidate, j]
    {
      var currStartTime := earliestScheduleTimes[candidate, i];
      if currStartTime < minStartTime {
        minStartTime := currStartTime;
        minProcessor := i;
      }
      i := i + 1;
    }
  }

  /** Each entry of a child's row after the task t, finishing at f on processor q, has been taken into account. */
  ghost predicate ChildrenRaised(g: TaskGraph, t: int, q: int, f: int, e0: seq<seq<int>>, e1: seq<seq<int>>, done: seq<int>)
    requires g.Shaped() && 0 <= t < g.numberOfTasks
  {
    && |e1| == |e0|
    && (forall i :: 0 <= i < |e0| ==> |e1[i]| == |e0[i]|)
    && forall i, j :: 0 <= i < |e0| && 0 <= j < |e0[i]| ==>
         e1[i][j] == (if i in done && i < g.numberOfTasks then Max(e0[i][j], f + (if j == q then 0 else g.commCosts[t][i]))
                      else e0[i][j])
  }

  /**
   * The update of the children's rows (Greedy.java:94-105): for each child and each processor,
   * the entry is raised to the time the data of t reaches that processor.
   */
  method RaiseChildren(taskGraph: TaskGraph, earliestScheduleTimes: array2<int>, candidate: int, minProcessor: int,
                       finishTime: int)
    requires taskGraph.WellFormed() && 0 <= candidate < taskGraph.numberOfTasks
    requires earliestScheduleTimes.Length0 == taskGraph.numberOfTasks
    modifies earliestScheduleTimes
    ensures ChildrenRaised(taskGraph, candidate, minProcessor, finishTime, old(Grid(earliestScheduleTimes)),
                           Grid(earliestScheduleTimes), taskGraph.childrenList[candidate])
  {
    ghost var e0 := Grid(earliestScheduleTimes);
    var children := taskGraph.GetChildrenList(candidate);
    var k := 0;
    while k < |children|
      invariant 0 <= k <= |children|
      invariant ChildrenRaised(taskGraph, candidate, minProcessor, finishTime, e0, Grid(earliestScheduleTimes), children[..k])
    {
      var child := children[k];
      DistinctOnce(children, k);
      RaiseRow(taskGraph, earliestScheduleTimes, candidate, child, minProcessor, finishTime);
      assert children[..k + 1] == children[..k] + [child];
      k := k + 1;
    }
    assert children[..k] == children;
  }

  /** One child's row: the candidate's own processor gets its finish, the others finish plus the communication cost. */
  method RaiseRow(taskGraph: TaskGraph, earliestScheduleTimes: array2<int>, candidate: int, child: int,
                  minProcessor: int, finishTime: int)
    requires taskGraph.WellFormed() && 0 <= candidate < taskGraph.numberOfTasks && 0 <= child < taskGraph.numberOfTasks
    requires earliestScheduleTimes.Length0 == taskGraph.numberOfTasks
    modifies earliestScheduleTimes
    ensures forall i, j :: 0 <= i < earliestScheduleTimes.Length0 && 0 <= j < earliestScheduleTimes.Length1 ==>
              earliestScheduleTimes[i, j] ==
                if i == child then Max(old(earliestScheduleTimes[i, j]),
                                       finishTime + (if j == minProcessor then 0 else taskGraph.commCosts[candidate][child]))
                else old(earliestScheduleTimes[i, j])
  {
    var i := 0;
    while i < earliestScheduleTimes.Length1
      invariant 0 <= i <= earliestScheduleTimes.Length1
      invariant forall r, j :: 0 <= r < earliestScheduleTimes.Length0 && 0 <= j < earliestScheduleTimes.Length1 ==>
                  earliestScheduleTimes[r, j] ==
                    if r == child && j < i then Max(old(earliestScheduleTimes[r, j]),
                                                    finishTime + (if j == minProcessor then 0 else taskGraph.commCosts[candidate][child]))
                    else old(earliestScheduleTimes[r, j])
    {
      if i == minProcessor {
        earliestScheduleTimes[child, minProcessor] := Max(finishTime, earliestScheduleTimes[child, minProcessor]);
      } else {
        earliestScheduleTimes[child, i] := Max(finishTime + taskGraph.GetCommCost(candidate, child), earliestScheduleTimes[child, i]);
      }
      i := i + 1;
    }
  }

  /**
   * The update of the chosen processor's column (Greedy.java:114-116): no task can start there
   * before the candidate finishes.
   */
  method RaiseColumn(earliestScheduleTimes: array2<int>, minProcessor: int, finishTime: int)
    requires 0 <= minProcessor < earliestScheduleTimes.Length1
    modifies earliestScheduleTimes
    ensures ColumnRaised(minProcessor, finishTime, old(Grid(earliestScheduleTimes)), Grid(earliestScheduleTimes))
  {
    var i := 0;
    while i < earliestScheduleTimes.Length0
      invariant 0 <= i <= earliestScheduleTimes.Length0
      invariant forall r, j :: 0 <= r < earliestScheduleTimes.Length0 && 0 <= j < earliestScheduleTimes.Length1 ==>
                  earliestScheduleTimes[r, j] ==
                    if j == minProcessor && r < i then Max(finishTime, old(earliestScheduleTimes[r, j]))
                    else old(earliestScheduleTimes[r, j])
    {
      earliestScheduleTimes[i, minProcessor] := Max(finishTime, earliestScheduleTimes[i, minProcessor]);
      i := i + 1;
    }
  }

  /** Every entry of column q has been raised to at least f, and nothing else has changed. */
  ghost predicate ColumnRaised(q: int, f: int, e1: seq<seq<int>>, e2: seq<seq<int>>)
  {
    && |e2| == |e1|
    && (forall i :: 0 <= i < |e1| ==> |e2[i]| == |e1[i]|)
    && forall i, j :: 0 <= i < |e1| && 0 <= j < |e1[i]| ==> e2[i][j] == (if j == q then Max(f, e1[i][j]) else e1[i][j])
  }

  /**
   * A task placed at the earliest entry of its row on some processor keeps the schedule feasible:
   * the table's entry already accounts for every task on that processor and every parent's data.
   */
  lemma PlaceGreedy(g: TaskGraph, numProcessors: int, tasks: seq<Option<Task>>, e: seq<seq<int>>, t: int, task: Task)
    requires g.WellFormed() && Feasible(g, numProcessors, tasks) && Table(e, g.numberOfTasks, numProcessors)
    requires ProcessorsBusy(tasks, e) && DataArrives(g, tasks, e)
    requires 0 <= t < |tasks| && tasks[t].None? && forall p :: p in g.parentsList[t] ==> tasks[p].Some?
    requires 0 <= task.processor < numProcessors && task.startTime == e[t][task.processor]
    requires task.finishTime == task.startTime + g.durations[t]
    ensures Feasible(g, numProcessors, tasks[t := Some(task)])
    ensures Placed(tasks[t := Some(task)]) == Placed(tasks) + {t}
    ensures Unplaced(tasks[t := Some(task)]) < Unplaced(tasks)
  {
    var q := task.processor;
    forall j | 0 <= j < |tasks| && tasks[j].Some? && tasks[j].value.processor == q
      ensures tasks[j].value.finishTime <= task.startTime
    {
      assert e[t][tasks[j].value.processor] >= tasks[j].value.finishTime;
    }
    forall p | p in g.parentsList[t]
      ensures task.startTime >= ReadyTime(g, tasks[p].value, p, t, q)
    {
      assert 0 <= p < |tasks|;
      assert t in g.childrenList[p];
    }
    Extend(g, numProcessors, tasks, t, task);
    PlaceOne(tasks, t, task);
    assert Placed(tasks[t := Some(task)]) == Placed(tasks) + {t};
  }

  /** Raising the children's rows and then the chosen column keeps the table's guarantees, now for t as well. */
  lemma RaiseKeeps(g: TaskGraph, numProcessors: int, tasks: seq<Option<Task>>, e0: seq<seq<int>>, e1: seq<seq<int>>,
                   e2: seq<seq<int>>, t: int, task: Task)
    requires g.WellFormed() && |tasks| == g.numberOfTasks && Table(e0, g.numberOfTasks, numProcessors)
    requires ProcessorsBusy(tasks, e0) && DataArrives(g, tasks, e0)
    requires 0 <= t < g.numberOfTasks && 0 <= task.processor < numProcessors && task.finishTime >= 0
    requires ChildrenRaised(g, t, task.processor, task.finishTime, e0, e1, g.childrenList[t])
    requires ColumnRaised(task.processor, task.finishTime, e1, e2)
    ensures Table(e2, g.numberOfTasks, numProcessors)
    ensures ProcessorsBusy(tasks[t := Some(task)], e2)
    ensures DataArrives(g, tasks[t := Some(task)], e2)
  {
    var n := g.numberOfTasks;
    var q, f := task.processor, task.finishTime;
    var after := tasks[t := Some(task)];
    assert forall i, j :: 0 <= i < n && 0 <= j < numProcessors ==> e2[i][j] >= e1[i][j] >= e0[i][j];
    forall s, i | 0 <= s < |after| && after[s].Some? && 0 <= i < |e2| && 0 <= after[s].value.processor < |e2[i]|
      ensures e2[i][after[s].value.processor] >= after[s].value.finishTime
    {
      if s != t {
        assert e0[i][tasks[s].value.processor] >= tasks[s].value.finishTime;
      }
    }
    forall s, c, j | 0 <= s < |after| && after[s].Some? && c in g.childrenList[s] && 0 <= c < |e2| && 0 <= j < |e2[c]|
      ensures e2[c][j] >= ReadyTime(g, after[s].value, s, c, j)
    {
      if s != t {
        assert e0[c][j] >= ReadyTime(g, tasks[s].value, s, c, j);
      } else {
        assert e1[c][j] == Max(e0[c][j], f + (if j == q then 0 else g.commCosts[t][c]));
      }
    }
  }

  /** Taking the larger of the old finish time and the new task's keeps it the latest finish. */
  lemma RaiseLatest(tasks: seq<Option<Task>>, finishTime: int, t: int, task: Task)
    requires LatestFinish(tasks, finishTime) && 0 <= t < |tasks| && tasks[t].None?
    ensures LatestFinish(tasks[t := Some(task)], Max(finishTime, task.finishTime))
  {
    var after := tasks[t := Some(task)];
    var latest := Max(finishTime, task.finishTime);
    assert after[t].Some? && after[t].value.finishTime == task.finishTime;
    if latest != task.finishTime && finishTime != 0 {
      var i :| 0 <= i < |tasks| && tasks[i].Some? && tasks[i].value.finishTime == finishTime;
      assert after[i] == tasks[i];
    }
  }

  /** runSchedule (Greedy.java:50-120): the list scheduler with a first-in first-out queue. */
  method RunSchedule(taskGraph: TaskGraph, numProcessors: int) returns (schedule: Schedule)
    requires taskGraph.WellFormed() && numProcessors >= 1
    ensures Feasible(taskGraph, numProcessors, schedule.tasks)
    ensures LatestFinish(schedule.tasks, schedule.finishTime)
    ensures forall c :: 0 <= c < taskGraph.numberOfTasks && schedule.tasks[c].None? ==>
              Pending(taskGraph.parentsList[c], Placed(schedule.tasks)) != 0
  {
    schedule := ListSchedule(taskGraph, numProcessors, Fifo);
  }

  /**
   * runScheduleWithPriority (Greedy.java:122-194): the list scheduler whose queue polls the task
   * of least `reverse * nodePriorities[a]`, with `reverse` -1 when `reversed` holds and 1 otherwise.
   */
  method RunScheduleWithPriority(taskGraph: TaskGraph, numProcessors: int, nodePriorities: seq<int>, reversed: bool)
    returns (schedule: Schedule)
    requires taskGraph.WellFormed() && numProcessors >= 1 && |nodePriorities| >= taskGraph.numberOfTasks
    ensures Feasible(taskGraph, numProcessors, schedule.tasks)
    ensures LatestFinish(schedule.tasks, schedule.finishTime)
    ensures forall c :: 0 <= c < taskGraph.numberOfTasks && schedule.tasks[c].None? ==>
              Pending(taskGraph.parentsList[c], Placed(schedule.tasks)) != 0
  {
    var reverse := if reversed then -1 else 1;
    schedule := ListSchedule(taskGraph, numProcessors, ByPriority(nodePriorities, reverse));
  }

  /** A complete feasible schedule whose reported finish time is the latest finish of its tasks. */
  ghost predicate Valid(g: TaskGraph, numProcessors: int, schedule: Schedule)
    requires g.Shaped()
  {
    Feasible(g, numProcessors, schedule.tasks) && Complete(schedule.tasks) && LatestFinish(schedule.tasks, schedule.finishTime)
  }

  /**
   * run (Greedy.java:14-41): the best of five greedy schedules, first-in first-out and then by
   * reversed and plain bottom level and by reversed and plain weight, a later one replacing the best
   * only when strictly earlier.  The ghost `candidates` are the five schedules in that order.
   */
  method Run(taskGraph: TaskGraph, numProcessors: int, ghost rank: seq<nat>)
    returns (bestSchedule: Schedule, ghost candidates: seq<Schedule>)
    requires taskGraph.WellFormed() && Ranked(taskGraph, rank) && numProcessors >= 1
    ensures |candidates| == 5
    ensures forall k :: 0 <= k < 5 ==> Valid(taskGraph, numProcessors, candidates[k])
    ensures Valid(taskGraph, numProcessors, bestSchedule)
    ensures forall k :: 0 <= k < 5 ==> bestSchedule.finishTime <= candidates[k].finishTime
    ensures exists k :: 0 <= k < 5 && candidates[k] == bestSchedule &&
              forall j :: 0 <= j < k ==> candidates[j].finishTime > bestSchedule.finishTime
  {
    bestSchedule := RunSchedule(taskGraph, numProcessors);
    AllPlaced(taskGraph, rank, bestSchedule.tasks);
    candidates := [bestSchedule];
    ghost var best := 0;

    var bLevels := MaxLengthToExitNode(taskGraph, rank);
    var weights := taskGraph.durations;
    var priorities := [bLevels[..], bLevels[..], weights, weights];
    var i := 0;
    while i < 4
      invariant 0 <= i <= 4 && |candidates| == i + 1 && 0 <= best <= i
      invariant forall k :: 0 <= k <= i ==> Valid(taskGraph, numProcessors, candidates[k])
      invariant candidates[best] == bestSchedule
      invariant forall k :: 0 <= k <= i ==> bestSchedule.finishTime <= candidates[k].finishTime
      invariant forall j :: 0 <= j < best ==> candidates[j].finishTime > bestSchedule.finishTime
    {
      var schedule := RunScheduleWithPriority(taskGraph, numProcessors, priorities[i], i % 2 == 0);
      AllPlaced(taskGraph, rank, schedule.tasks);
      candidates := candidates + [schedule];
      if schedule.finishTime < bestSchedule.finishTime {
        bestSchedule := schedule;
        best := i + 1;
      }
      i := i + 1;
    }
  }
}
