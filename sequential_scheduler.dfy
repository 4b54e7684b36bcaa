/**
 * The one-processor scheduler (solution/helpers/SequentialScheduler.java): tasks are taken from
 * a first-in first-out queue of free tasks and run back to back on processor 0.
 */
module SequentialSchedulers {
  import opened Wrappers
  import opened Seqs
  import opened Graph
  import opened Tasks
  import opened Schedules
  import opened Frontiers

  /**
   * getSchedule (SequentialScheduler.java:27-63).  The local array of placed tasks is a sequence
   * value here, updated one entry per iteration.  The ghost `order` is the order in which tasks
   * were taken from the queue.  Every placed task runs on processor 0, starts when the previous one
   * finishes, and the reported finish time is the total duration of the placed tasks.  A task left
   * unplaced (possible only on a cyclic graph) still has an unplaced parent.
   */
  method GetSchedule(taskGraph: TaskGraph) returns (schedule: Schedule, ghost order: seq<int>)
    requires taskGraph.WellFormed()
    ensures Feasible(taskGraph, 1, schedule.tasks)
    ensures forall i :: 0 <= i < |schedule.tasks| && schedule.tasks[i].Some? ==> schedule.tasks[i].value.processor == 0
    ensures Distinct(order) && AllBelow(order, taskGraph.numberOfTasks)
    ensures forall i :: i in order <==> 0 <= i < taskGraph.numberOfTasks && schedule.tasks[i].Some?
    ensures forall k :: 0 <= k < |order| ==>
              schedule.tasks[order[k]].value.startTime == SumAt(taskGraph.durations, order[..k])
    ensures schedule.finishTime == SumAt(taskGraph.durations, order)
    ensures FinishesBy(schedule.tasks, schedule.finishTime)
    ensures forall c :: 0 <= c < taskGraph.numberOfTasks && schedule.tasks[c].None? ==>
              Pending(taskGraph.parentsList[c], Placed(schedule.tasks)) != 0
  {
    var numTasks := taskGraph.GetNumberOfTasks();
    var finishTime := 0;
    var tasks: seq<Option<Task>> := seq(numTasks, _ => None);
    var inDegrees, candidateTasks := InitialFrontier(taskGraph);
    assert Placed(tasks) == {};

    order := [];
    while candidateTasks != []
      invariant Scheduling(taskGraph, tasks, inDegrees[..], candidateTasks, order, finishTime)
      decreases Unplaced(tasks)
    {
      tasks, candidateTasks, finishTime, order := RunHead(taskGraph, tasks, inDegrees, candidateTasks, finishTime, order);
    }
    schedule := Schedule(tasks, finishTime);
    ChainSums(taskGraph, schedule.tasks, order, finishTime);
  }

  /** The state the loop of getSchedule keeps between iterations. */
  ghost predicate Scheduling(g: TaskGraph, tasks: seq<Option<Task>>, inDegrees: seq<int>, queue: seq<int>,
                             order: seq<int>, finishTime: int)
  {
    && g.WellFormed()
    && Feasible(g, 1, tasks)
    && InDegreesMatch(g, inDegrees, Placed(tasks))
    && IsFrontier(g, inDegrees, Placed(tasks), queue)
    && BackToBack(tasks, order, finishTime) && finishTime >= 0
    && FinishesBy(tasks, finishTime)
  }

  /** One iteration of getSchedule's loop: run the head of the queue next and release its children. */
  method RunHead(taskGraph: TaskGraph, tasks: seq<Option<Task>>, inDegrees: array<int>, candidateTasks: seq<int>,
                 finishTime: int, ghost order: seq<int>)
    returns (tasks': seq<Option<Task>>, candidateTasks': seq<int>, finishTime': int, ghost order': seq<int>)
    requires Scheduling(taskGraph, tasks, inDegrees[..], candidateTasks, order, finishTime) && candidateTasks != []
    modifies inDegrees
    ensures Scheduling(taskGraph, tasks', inDegrees[..], candidateTasks', order', finishTime')
    ensures Unplaced(tasks') < Unplaced(tasks)
  {
    var task := candidateTasks[0];
    ghost var degrees := inDegrees[..];
    ghost var placed := Placed(tasks) + {task};
    QueuedIsFree(taskGraph, tasks, degrees, candidateTasks, 0);
    TakeQueued(taskGraph, 1, tasks, degrees, candidateTasks, 0);
    var rest := candidateTasks[1..];
    assert candidateTasks[..0] + candidateTasks[1..] == rest;
    assert Releasing(taskGraph, degrees, placed, task, 0, rest);

    var startTime := finishTime;
    var placedTask := NewTask(task, startTime, startTime + taskGraph.GetDuration(task), 0);
    PlaceNext(taskGraph, tasks, task, startTime, placedTask);
    AppendToOrder(tasks, order, startTime, task, placedTask);
    tasks' := tasks[task := Some(placedTask)];
    finishTime' := placedTask.finishTime;
    order' := order + [task];
    assert Placed(tasks') == placed;
    candidateTasks' := ReleaseChildren(taskGraph, inDegrees, task, rest, placed);
  }

  /**
   * `order` lists the placed tasks once each, in the order they were placed: the first starts at 0,
   * each later one when the one before it finishes, and the last finishes at `finishTime`.
   */
  ghost predicate BackToBack(tasks: seq<Option<Task>>, order: seq<int>, finishTime: int)
  {
    && Distinct(order) && AllBelow(order, |tasks|)
    && (forall i :: i in order <==> 0 <= i < |tasks| && tasks[i].Some?)
    && (forall k :: 0 <= k < |order| ==> tasks[order[k]].Some?)
    && (forall j, k :: 0 <= j < |order| && 0 <= k < |order| && k == j + 1 ==>
          tasks[order[k]].value.startTime == tasks[order[j]].value.finishTime)
    && (order == [] ==> finishTime == 0)
    && (order != [] ==> tasks[order[0]].value.startTime == 0 && tasks[order[|order| - 1]].value.finishTime == finishTime)
  }

  /** Running task t from the current finish time extends the back-to-back order by t. */
  lemma AppendToOrder(tasks: seq<Option<Task>>, order: seq<int>, finishTime: int, t: int, task: Task)
    requires BackToBack(tasks, order, finishTime) && 0 <= t < |tasks| && tasks[t].None?
    requires task.startTime == finishTime
    ensures BackToBack(tasks[t := Some(task)], order + [t], task.finishTime)
  {
    var updated := tasks[t := Some(task)];
    var extended := order + [t];
    assert t !in order;
    DistinctSnoc(order, t);
    forall k | 0 <= k < |extended| ensures updated[extended[k]].Some? {
      if k < |order| {
        assert order[k] in order;
      }
    }
    forall j, k | 0 <= j < |extended| && 0 <= k < |extended| && k == j + 1
      ensures updated[extended[k]].value.startTime == updated[extended[j]].value.finishTime
    {
      assert order[j] in order;
      if k < |order| {
        assert order[k] in order;
      }
    }
    if order != [] {
      assert order[0] in order;
    }
  }

  /** In a back-to-back order each task finishes once the durations of it and of those before it have elapsed. */
  lemma {:induction false} ChainPrefix(g: TaskGraph, tasks: seq<Option<Task>>, order: seq<int>, finishTime: int, k: int)
    requires g.Shaped() && Placement(g, 1, tasks) && BackToBack(tasks, order, finishTime)
    requires 0 < k <= |order|
    ensures tasks[order[k - 1]].value.finishTime == SumAt(g.durations, order[..k])
  {
    assert order[..k][..k - 1] == order[..k - 1];
    if k > 1 {
      assert tasks[order[k - 1]].value.startTime == tasks[order[k - 2]].value.finishTime;
      ChainPrefix(g, tasks, order, finishTime, k - 1);
    }
  }

  /** The start times and the finish time of a back-to-back order, as sums of durations. */
  lemma ChainSums(g: TaskGraph, tasks: seq<Option<Task>>, order: seq<int>, finishTime: int)
    requires g.Shaped() && Placement(g, 1, tasks) && BackToBack(tasks, order, finishTime)
    ensures forall k :: 0 <= k < |order| ==> tasks[order[k]].value.startTime == SumAt(g.durations, order[..k])
    ensures finishTime == SumAt(g.durations, order)
  {
    forall k | 0 <= k < |order|
      ensures tasks[order[k]].value.startTime == SumAt(g.durations, order[..k])
    {
      if k > 0 {
        ChainPrefix(g, tasks, order, finishTime, k);
      }
    }
    if order != [] {
      ChainPrefix(g, tasks, order, finishTime, |order|);
      assert order[..|order|] == order;
    }
  }

  /** A task whose parents are all placed can run on processor 0 once every placed task has finished. */
  lemma PlaceNext(g: TaskGraph, tasks: seq<Option<Task>>, t: int, finishTime: int, task: Task)
    requires g.WellFormed() && Feasible(g, 1, tasks)
    requires 0 <= t < |tasks| && tasks[t].None?
    requires forall p :: p in g.parentsList[t] ==> tasks[p].Some?
    requires FinishesBy(tasks, finishTime) && finishTime >= 0
    requires task == NewTask(t, finishTime, finishTime + g.durations[t], 0)
    ensures Feasible(g, 1, tasks[t := Some(task)])
    ensures FinishesBy(tasks[t := Some(task)], task.finishTime) && task.finishTime >= 0
    ensures Placed(tasks[t := Some(task)]) == Placed(tasks) + {t}
    ensures Unplaced(tasks[t := Some(task)]) < Unplaced(tasks)
  {
    var after := tasks[t := Some(task)];
    forall p | p in g.parentsList[t]
      ensures task.startTime >= ReadyTime(g, tasks[p].value, p, t, task.processor)
    {
      assert 0 <= p < |tasks|;
    }
    Extend(g, 1, tasks, t, task);
    PlaceOne(tasks, t, task);
    assert Placed(after) == Placed(tasks) + {t};
  }

  /**
   * On an acyclic graph the sequential schedule places every task, and its finish time is the sum
   * of all durations.
   */
  lemma AcyclicSequential(g: TaskGraph, rank: seq<nat>, schedule: Schedule, order: seq<int>)
    requires g.WellFormed() && Ranked(g, rank)
    requires |schedule.tasks| == g.numberOfTasks
    requires Distinct(order)
    requires forall i :: i in order <==> 0 <= i < g.numberOfTasks && schedule.tasks[i].Some?
    requires forall c :: 0 <= c < g.numberOfTasks && schedule.tasks[c].None? ==>
               Pending(g.parentsList[c], Placed(schedule.tasks)) != 0
    requires AllBelow(order, g.numberOfTasks) && schedule.finishTime == SumAt(g.durations, order)
    ensures Complete(schedule.tasks)
    ensures schedule.finishTime == Sum(g.durations)
  {
    AllPlaced(g, rank, schedule.tasks);
    CoverSum(g.durations, order, g.numberOfTasks);
    assert g.durations[..g.numberOfTasks] == g.durations;
  }

  /**
   * The listed tasks are placed, without repeats, start at or after 0, and every one of them that
   * takes time finishes by f.
   */
  ghost predicate Fits(g: TaskGraph, tasks: seq<Option<Task>>, order: seq<int>, f: int)
    requires g.Shaped() && |tasks| == g.numberOfTasks
  {
    && Distinct(order) && AllBelow(order, |tasks|) && f >= 0
    && forall x :: x in order ==>
         && 0 <= x < |tasks| && tasks[x].Some? && tasks[x].value.startTime >= 0
         && (g.durations[x] > 0 ==> tasks[x].value.finishTime <= f)
  }

  /** A listed task that finishes no earlier than any other listed task. */
  lemma {:induction false} LatestListed(tasks: seq<Option<Task>>, order: seq<int>) returns (k: int)
    requires order != [] && forall x :: x in order ==> 0 <= x < |tasks| && tasks[x].Some?
    ensures 0 <= k < |order| && order[k] in order
    ensures forall x :: x in order ==> tasks[x].value.finishTime <= tasks[order[k]].value.finishTime
    decreases |order|
  {
    var last := |order| - 1;
    assert order[last] in order;
    if last == 0 {
      k := 0;
    } else {
      var front := order[..last];
      assert forall x :: x in front ==> x in order;
      var j := LatestListed(tasks, front);
      assert front[j] == order[j];
      assert forall x :: x in order ==> x in front || x == order[last];
      k := if tasks[order[j]].value.finishTime >= tasks[order[last]].value.finishTime then j else last;
    }
  }

  /**
   * Tasks that do not overlap on one processor inside [0, f] take at most f time in total: the one
   * that finishes last starts after every other task that takes time has finished.
   */
  lemma {:induction false} FitsSum(g: TaskGraph, tasks: seq<Option<Task>>, order: seq<int>, f: int)
    requires g.WellFormed() && Placement(g, 1, tasks) && NoOverlap(tasks) && Fits(g, tasks, order, f)
    ensures SumAt(g.durations, order) <= f
    decreases |order|
  {
    if order != [] {
      var k: int;
      if zero :| 0 <= zero < |order| && g.durations[order[zero]] == 0 {
        k := zero;
      } else {
        k := LatestListed(tasks, order);
      }
      var m := order[k];
      assert m in order;
      var rest := order[..k] + order[k + 1..];
      RemoveAt(order, k);
      SumAtRemove(g.durations, order, k);
      var bound := if g.durations[m] == 0 then f else tasks[m].value.startTime;
      forall x | x in rest
        ensures g.durations[x] > 0 ==> tasks[x].value.finishTime <= bound
      {
        if g.durations[m] > 0 && g.durations[x] > 0 {
          assert Apart(tasks, x, m);
        }
      }
      assert Fits(g, tasks, rest, bound);
      FitsSum(g, tasks, rest, bound);
    }
  }

  /**
   * The schedule of getSchedule is optimal for one processor (SequentialScheduler.java:23-25): no
   * feasible one-processor schedule of every task finishes before the sum of all durations, which is
   * exactly when the back-to-back schedule finishes (AcyclicSequential).
   */
  lemma SumIsOptimal(g: TaskGraph, tasks: seq<Option<Task>>, f: int)
    requires g.WellFormed() && Feasible(g, 1, tasks) && Complete(tasks)
    requires FinishesBy(tasks, f) && f >= 0
    ensures f >= Sum(g.durations)
  {
    var order := seq(g.numberOfTasks, i => i);
    forall x ensures x in order <==> 0 <= x < g.numberOfTasks {
      if 0 <= x < g.numberOfTasks {
        assert order[x] == x;
      }
    }
    CoverSum(g.durations, order, g.numberOfTasks);
    assert g.durations[..g.numberOfTasks] == g.durations;
    forall x | x in order ensures 0 <= x < |tasks| && tasks[x].Some? {
      var i :| 0 <= i < |order| && order[i] == x;
    }
    FitsSum(g, tasks, order, f);
  }
}
