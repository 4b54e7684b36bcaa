/**
 * Schedules (data/Schedule.java) and what it means for one to be feasible.  A schedule holds one
 * task record per task id, null (`None`) for a task never placed, and the finish time the
 * scheduler reports.  Feasibility is the standard condition for scheduling a task graph with
 * communication costs: every task sits on a processor in range for exactly its duration, starts
 * no earlier than each parent's finish plus the communication cost when the parent ran on another
 * processor, and never overlaps another task on its processor.
 */
module Schedules {
  import opened Wrappers
  import opened Seqs
  import opened Graph
  import opened Tasks
  import opened Frontiers

  datatype Schedule = Schedule(tasks: seq<Option<Task>>, finishTime: int)

  /** The time the output of parent p (placed as `parent`) reaches a child c running on processor `on`. */
  function ReadyTime(g: TaskGraph, parent: Task, p: int, c: int, on: int): int
    requires g.Shaped() && 0 <= p < g.numberOfTasks && 0 <= c < g.numberOfTasks
  {
    parent.finishTime + (if parent.processor == on then 0 else g.commCosts[p][c])
  }

  /** Every placed task is on a processor in range, starts at or after 0 and runs for its duration. */
  predicate Placement(g: TaskGraph, numProcessors: int, tasks: seq<Option<Task>>)
    requires g.Shaped()
  {
    && |tasks| == g.numberOfTasks
    && forall i :: 0 <= i < |tasks| && tasks[i].Some? ==>
         && 0 <= tasks[i].value.processor < numProcessors
         && 0 <= tasks[i].value.startTime
         && tasks[i].value.finishTime == tasks[i].value.startTime + g.durations[i]
  }

  /** If task c is placed, its parent p is placed too and c starts once p's data has arrived. */
  predicate DataArrived(g: TaskGraph, tasks: seq<Option<Task>>, c: int, p: int)
    requires g.Shaped() && |tasks| == g.numberOfTasks && 0 <= c < |tasks| && 0 <= p < |tasks|
  {
    tasks[c].Some? ==>
      && tasks[p].Some?
      && tasks[c].value.startTime >= ReadyTime(g, tasks[p].value, p, c, tasks[c].value.processor)
  }

  /** Every placed task has all its parents placed and starts once their data has arrived. */
  predicate RespectsPrecedence(g: TaskGraph, tasks: seq<Option<Task>>)
    requires g.Shaped() && |tasks| == g.numberOfTasks
  {
    forall c, p {:trigger DataArrived(g, tasks, c, p)} ::
      0 <= c < |tasks| && 0 <= p < |tasks| && p in g.parentsList[c] ==> DataArrived(g, tasks, c, p)
  }

  /** When tasks i and j are both placed on the same processor, one finishes before the other starts. */
  predicate Apart(tasks: seq<Option<Task>>, i: int, j: int)
    requires 0 <= i < |tasks| && 0 <= j < |tasks|
  {
    tasks[i].Some? && tasks[j].Some? && tasks[i].value.processor == tasks[j].value.processor ==>
      tasks[i].value.finishTime <= tasks[j].value.startTime || tasks[j].value.finishTime <= tasks[i].value.startTime
  }

  /** Two placed tasks on the same processor do not overlap in time. */
  predicate NoOverlap(tasks: seq<Option<Task>>)
  {
    forall i, j {:trigger Apart(tasks, i, j)} :: 0 <= i < |tasks| && 0 <= j < |tasks| && i != j ==> Apart(tasks, i, j)
  }

  /** A partial schedule that can be extended: the placed tasks obey every constraint among themselves. */
  predicate Feasible(g: TaskGraph, numProcessors: int, tasks: seq<Option<Task>>)
    requires g.Shaped()
  {
    Placement(g, numProcessors, tasks) && RespectsPrecedence(g, tasks) && NoOverlap(tasks)
  }

  /** Every task has been placed. */
  predicate Complete(tasks: seq<Option<Task>>)
  {
    forall i :: 0 <= i < |tasks| ==> tasks[i].Some?
  }

  /** No placed task finishes after `finishTime`. */
  predicate FinishesBy(tasks: seq<Option<Task>>, finishTime: int)
  {
    forall i :: 0 <= i < |tasks| && tasks[i].Some? ==> tasks[i].value.finishTime <= finishTime
  }

  /** The largest finish time of a placed task, or 0 when none is placed. */
  ghost predicate LatestFinish(tasks: seq<Option<Task>>, finishTime: int)
  {
    && finishTime >= 0
    && FinishesBy(tasks, finishTime)
    && (finishTime == 0 || exists i :: 0 <= i < |tasks| && tasks[i].Some? && tasks[i].value.finishTime == finishTime)
  }

  /** The ids of the placed tasks. */
  function Placed(tasks: seq<Option<Task>>): (r: set<int>)
    ensures forall i :: i in r <==> 0 <= i < |tasks| && tasks[i].Some?
  {
    set i | 0 <= i < |tasks| && tasks[i].Some?
  }

  /** The number of tasks not yet placed. */
  function Unplaced(tasks: seq<Option<Task>>): (r: nat)
    ensures r <= |tasks|
  {
    if tasks == [] then 0 else Unplaced(tasks[..|tasks| - 1]) + (if tasks[|tasks| - 1].None? then 1 else 0)
  }

  /** Placing one more task lowers the count of unplaced tasks by one. */
  lemma {:induction false} PlaceOne(tasks: seq<Option<Task>>, t: int, task: Task)
    requires 0 <= t < |tasks| && tasks[t].None?
    ensures Unplaced(tasks[t := Some(task)]) == Unplaced(tasks) - 1
    decreases |tasks|
  {
    var last := |tasks| - 1;
    var updated := tasks[t := Some(task)];
    if t == last {
      assert updated[..last] == tasks[..last];
    } else {
      assert updated[..last] == tasks[..last][t := Some(task)];
      PlaceOne(tasks[..last], t, task);
    }
  }

  /**
   * Placing an unplaced task keeps a schedule feasible when it runs for its duration on a processor
   * in range, starts after every placed task on that processor has finished, and starts once the
   * data of every parent has arrived.
   */
  lemma Extend(g: TaskGraph, numProcessors: int, tasks: seq<Option<Task>>, t: int, task: Task)
    requires g.WellFormed() && Feasible(g, numProcessors, tasks)
    requires 0 <= t < |tasks| && tasks[t].None?
    requires 0 <= task.processor < numProcessors && 0 <= task.startTime
    requires task.finishTime == task.startTime + g.durations[t]
    requires forall j :: 0 <= j < |tasks| && tasks[j].Some? && tasks[j].value.processor == task.processor ==>
               tasks[j].value.finishTime <= task.startTime
    requires forall p :: p in g.parentsList[t] ==>
               tasks[p].Some? && task.startTime >= ReadyTime(g, tasks[p].value, p, t, task.processor)
    ensures Feasible(g, numProcessors, tasks[t := Some(task)])
  {
    var updated := tasks[t := Some(task)];
    forall c, p | 0 <= c < |updated| && 0 <= p < |updated| && p in g.parentsList[c]
      ensures DataArrived(g, updated, c, p)
    {
      if c != t {
        assert DataArrived(g, tasks, c, p);
      }
    }
    forall i, j | 0 <= i < |updated| && 0 <= j < |updated| && i != j ensures Apart(updated, i, j) {
      if i != t && j != t {
        assert Apart(tasks, i, j);
      }
    }
  }

  /** In a feasible schedule every placed task has all of its parents placed. */
  lemma FeasibleClosed(g: TaskGraph, numProcessors: int, tasks: seq<Option<Task>>)
    requires g.Shaped() && Feasible(g, numProcessors, tasks)
    ensures Closed(g, Placed(tasks))
  {
    forall x, p | x in Placed(tasks) && 0 <= x < g.numberOfTasks && p in g.parentsList[x]
      ensures p in Placed(tasks)
    {
      assert tasks[x].Some?;
      assert 0 <= p < g.numberOfTasks;
      assert DataArrived(g, tasks, x, p);
    }
  }

  /**
   * On an acyclic graph a scheduler whose queue ran empty has placed every task: a task left out
   * would still have a parent left out.
   */
  lemma AllPlaced(g: TaskGraph, rank: seq<nat>, tasks: seq<Option<Task>>)
    requires g.WellFormed() && Ranked(g, rank) && |tasks| == g.numberOfTasks
    requires forall c :: 0 <= c < g.numberOfTasks && tasks[c].None? ==> Pending(g.parentsList[c], Placed(tasks)) != 0
    ensures Complete(tasks)
  {
    forall u | 0 <= u < g.numberOfTasks ensures tasks[u].Some? {
      NothingLeft(g, rank, Placed(tasks), u);
    }
  }

  /** A task in the queue is unplaced and free: every parent of it has been placed. */
  lemma QueuedIsFree(g: TaskGraph, tasks: seq<Option<Task>>, inDegrees: seq<int>, queue: seq<int>, k: int)
    requires g.WellFormed() && |tasks| == g.numberOfTasks
    requires InDegreesMatch(g, inDegrees, Placed(tasks)) && IsFrontier(g, inDegrees, Placed(tasks), queue)
    requires 0 <= k < |queue|
    ensures 0 <= queue[k] < |tasks| && tasks[queue[k]].None?
    ensures forall p :: p in g.parentsList[queue[k]] ==> tasks[p].Some?
  {
    var t := queue[k];
    assert t in queue && t !in Placed(tasks);
    FreeMeansParentsPlaced(g, inDegrees, Placed(tasks), t);
  }

  /** Taking a queued task out of the queue and placing it starts the release of its children. */
  lemma TakeQueued(g: TaskGraph, numProcessors: int, tasks: seq<Option<Task>>, inDegrees: seq<int>, queue: seq<int>,
                   k: int)
    requires g.WellFormed() && Feasible(g, numProcessors, tasks)
    requires InDegreesMatch(g, inDegrees, Placed(tasks)) && IsFrontier(g, inDegrees, Placed(tasks), queue)
    requires 0 <= k < |queue|
    ensures 0 <= queue[k] < g.numberOfTasks
    ensures Releasing(g, inDegrees, Placed(tasks) + {queue[k]}, queue[k], 0, queue[..k] + queue[k + 1..])
  {
    FeasibleClosed(g, numProcessors, tasks);
    StartRelease(g, inDegrees, Placed(tasks), queue, k);
  }
}
