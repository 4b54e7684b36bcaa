/**
 * The in-degree bookkeeping every scheduler here shares (Kahn's topological order): a task's
 * in-degree counts its parents not yet placed, a task becomes free when that count reaches zero,
 * and the free tasks waiting to be placed form the frontier.
 */
module Frontiers {
  import opened Seqs
  import opened Graph

  /** The number of entries of `parents` not in `placed`. */
  function Pending(parents: seq<int>, placed: set<int>): (r: nat)
    ensures r <= |parents|
  {
    if parents == [] then 0
    else Pending(parents[..|parents| - 1], placed) + (if parents[|parents| - 1] in placed then 0 else 1)
  }

  /** No parent is pending exactly when every parent has been placed. */
  lemma {:induction false} PendingZero(parents: seq<int>, placed: set<int>)
    ensures Pending(parents, placed) == 0 <==> forall p :: p in parents ==> p in placed
  {
    if parents != [] {
      var init := parents[..|parents| - 1];
      PendingZero(init, placed);
      assert parents == init + [parents[|parents| - 1]];
      assert forall p :: p in parents <==> p in init || p == parents[|parents| - 1];
    }
  }

  /** Placing t removes one pending parent from each list holding t once, and none from the others. */
  lemma {:induction false} PendingPlace(parents: seq<int>, placed: set<int>, t: int)
    requires Distinct(parents) && t !in placed
    ensures Pending(parents, placed + {t}) == Pending(parents, placed) - (if t in parents then 1 else 0)
  {
    if parents != [] {
      var init := parents[..|parents| - 1];
      DistinctSlice(parents, 0, |parents| - 1);
      assert parents[0..|parents| - 1] == init;
      DistinctOnce(parents, |parents| - 1);
      PendingPlace(init, placed, t);
      assert parents == init + [parents[|parents| - 1]];
    }
  }

  /** The in-degree array agrees with the placed set. */
  predicate InDegreesMatch(g: TaskGraph, inDegrees: seq<int>, placed: set<int>)
    requires g.Shaped()
  {
    && |inDegrees| == g.numberOfTasks
    && forall c :: 0 <= c < g.numberOfTasks ==> inDegrees[c] == Pending(g.parentsList[c], placed)
  }

  /** The queue holds, once each, exactly the unplaced tasks whose in-degree is zero. */
  predicate IsFrontier(g: TaskGraph, inDegrees: seq<int>, placed: set<int>, queue: seq<int>)
    requires g.Shaped() && |inDegrees| == g.numberOfTasks
  {
    && Distinct(queue)
    && (forall k :: 0 <= k < |queue| ==> 0 <= queue[k] < g.numberOfTasks && queue[k] !in placed)
    && (forall c :: 0 <= c < g.numberOfTasks && c !in placed ==> (c in queue <==> inDegrees[c] == 0))
  }

  /** A free task may be placed: all of its parents are. */
  lemma FreeMeansParentsPlaced(g: TaskGraph, inDegrees: seq<int>, placed: set<int>, t: int)
    requires g.Shaped() && InDegreesMatch(g, inDegrees, placed) && 0 <= t < g.numberOfTasks
    requires inDegrees[t] == 0
    ensures forall p :: p in g.parentsList[t] ==> p in placed
  {
    PendingZero(g.parentsList[t], placed);
  }

  /** A child of an unplaced task is itself unplaced when every placed task has all its parents placed. */
  lemma ChildUnplaced(g: TaskGraph, placed: set<int>, t: int, c: int)
    requires g.WellFormed() && 0 <= t < g.numberOfTasks && c in g.childrenList[t]
    requires t !in placed
    requires forall x, p :: x in placed && 0 <= x < g.numberOfTasks && p in g.parentsList[x] ==> p in placed
    ensures c !in placed
  {
    assert 0 <= c < g.numberOfTasks;
    assert t in g.parentsList[c];
  }

  /**
   * On an acyclic graph a frontier that has run empty leaves nothing unplaced: an unplaced task
   * of highest rank would have every parent placed, hence in-degree zero, hence be queued.
   */
  lemma {:induction false} NothingLeft(g: TaskGraph, rank: seq<nat>, placed: set<int>, u: int)
    requires g.WellFormed() && Ranked(g, rank) && 0 <= u < g.numberOfTasks
    requires forall c :: 0 <= c < g.numberOfTasks && c !in placed ==> Pending(g.parentsList[c], placed) != 0
    ensures u in placed
    decreases MaxFrom(0, rank) - rank[u]
  {
    if u !in placed {
      PendingZero(g.parentsList[u], placed);
      var p :| p in g.parentsList[u] && p !in placed;
      assert 0 <= p < g.numberOfTasks;
      assert u in g.childrenList[p];
      var j :| 0 <= j < |g.childrenList[p]| && g.childrenList[p][j] == u;
      assert rank[u] < rank[p];
      MaxFromBounds(0, rank);
      NothingLeft(g, rank, placed, p);
      assert false;
    }
  }

  /** Every placed task has all of its parents placed. */
  predicate Closed(g: TaskGraph, placed: set<int>)
    requires g.Shaped()
  {
    forall x, p :: x in placed && 0 <= x < g.numberOfTasks && p in g.parentsList[x] ==> p in placed
  }

  /**
   * Half-way through releasing the children of t, the task just placed: the first i children have
   * had their in-degree lowered, the rest still count t as pending, and the queue is the frontier.
   */
  predicate Releasing(g: TaskGraph, inDegrees: seq<int>, placed: set<int>, t: int, i: int, queue: seq<int>)
    requires g.Shaped() && 0 <= t < g.numberOfTasks && 0 <= i <= |g.childrenList[t]|
  {
    && |inDegrees| == g.numberOfTasks
    && t in placed
    && (forall c :: 0 <= c < g.numberOfTasks ==>
          inDegrees[c] == Pending(g.parentsList[c], placed) + (if c in g.childrenList[t][i..] then 1 else 0))
    && (forall k :: i <= k < |g.childrenList[t]| ==> g.childrenList[t][k] !in placed)
    && IsFrontier(g, inDegrees, placed, queue)
  }

  /** Taking a free task t off the queue and placing it starts the release of its children. */
  lemma StartRelease(g: TaskGraph, inDegrees: seq<int>, placed: set<int>, queue: seq<int>, k: int)
    requires g.WellFormed() && InDegreesMatch(g, inDegrees, placed) && IsFrontier(g, inDegrees, placed, queue)
    requires Closed(g, placed) && 0 <= k < |queue|
    ensures Releasing(g, inDegrees, placed + {queue[k]}, queue[k], 0, queue[..k] + queue[k + 1..])
  {
    var t := queue[k];
    var rest := queue[..k] + queue[k + 1..];
    var after := placed + {t};
    assert queue == queue[..k] + [t] + queue[k + 1..];
    forall c | 0 <= c < g.numberOfTasks
      ensures inDegrees[c] == Pending(g.parentsList[c], after) + (if c in g.childrenList[t][0..] then 1 else 0)
    {
      PendingPlace(g.parentsList[c], placed, t);
      assert g.childrenList[t][0..] == g.childrenList[t];
    }
    forall j | 0 <= j < |g.childrenList[t]|
      ensures g.childrenList[t][j] !in after
    {
      ChildUnplaced(g, placed, t, g.childrenList[t][j]);
    }
    RemoveAt(queue, k);
    forall c | 0 <= c < g.numberOfTasks && c !in after
      ensures c in rest <==> inDegrees[c] == 0
    {
      assert c in queue <==> c in rest;
    }
  }

  /** Lowering the in-degree of the next child, and queueing it when it reaches zero, keeps the release going. */
  lemma ReleaseStep(g: TaskGraph, inDegrees: seq<int>, placed: set<int>, t: int, i: int, queue: seq<int>)
    requires g.WellFormed() && 0 <= t < g.numberOfTasks && 0 <= i < |g.childrenList[t]|
    requires Releasing(g, inDegrees, placed, t, i, queue)
    ensures var c := g.childrenList[t][i];
      var lowered := inDegrees[c := inDegrees[c] - 1];
      Releasing(g, lowered, placed, t, i + 1, queue + (if lowered[c] == 0 then [c] else []))
  {
    var ch := g.childrenList[t];
    var c := ch[i];
    var lowered := inDegrees[c := inDegrees[c] - 1];
    var queue' := queue + (if lowered[c] == 0 then [c] else []);
    assert ch[i..] == [c] + ch[i + 1..];
    DistinctOnce(ch, i);
    assert 0 <= c < g.numberOfTasks;
    assert c !in queue;
    if lowered[c] == 0 {
      DistinctSnoc(queue, c);
    } else {
      assert queue' == queue;
    }
    forall x | 0 <= x < g.numberOfTasks
      ensures lowered[x] == Pending(g.parentsList[x], placed) + (if x in ch[i + 1..] then 1 else 0)
    {
    }
    forall x | 0 <= x < g.numberOfTasks && x !in placed
      ensures x in queue' <==> lowered[x] == 0
    {
      if x != c && x in ch[i + 1..] {
        assert inDegrees[x] != 0;
      }
    }
  }

  /** Once every child has been released, the in-degrees agree with the placed set again. */
  lemma FinishRelease(g: TaskGraph, inDegrees: seq<int>, placed: set<int>, t: int, queue: seq<int>)
    requires g.WellFormed() && 0 <= t < g.numberOfTasks
    requires Releasing(g, inDegrees, placed, t, |g.childrenList[t]|, queue)
    ensures InDegreesMatch(g, inDegrees, placed) && IsFrontier(g, inDegrees, placed, queue)
  {
    assert forall c :: c !in g.childrenList[t][|g.childrenList[t]|..];
  }

  /** Before anything is placed a task's in-degree is its number of parents. */
  lemma {:induction false} PendingNone(parents: seq<int>)
    ensures Pending(parents, {}) == |parents|
  {
    if parents != [] {
      PendingNone(parents[..|parents| - 1]);
    }
  }

  /** Tasks listed in strictly increasing id. */
  predicate Increasing(s: seq<int>) {
    forall i, j :: 0 <= i < j < |s| ==> s[i] < s[j]
  }

  /**
   * The set-up loop every scheduler opens with: each task's in-degree is its number of parents, and
   * the parentless tasks are queued in increasing id.
   */
  method InitialFrontier(taskGraph: TaskGraph) returns (inDegrees: array<int>, candidateTasks: seq<int>)
    requires taskGraph.WellFormed()
    ensures fresh(inDegrees)
    ensures InDegreesMatch(taskGraph, inDegrees[..], {}) && IsFrontier(taskGraph, inDegrees[..], {}, candidateTasks)
    ensures Increasing(candidateTasks)
  {
    var numTasks := taskGraph.GetNumberOfTasks();
    inDegrees := new int[numTasks];
    candidateTasks := [];
    var task := 0;
    while task < numTasks
      invariant 0 <= task <= numTasks
      invariant forall c :: 0 <= c < task ==> inDegrees[c] == |taskGraph.parentsList[c]|
      invariant Increasing(candidateTasks)
      invariant forall k :: 0 <= k < |candidateTasks| ==> 0 <= candidateTasks[k] < task
      invariant forall c :: 0 <= c < task ==> (c in candidateTasks <==> |taskGraph.parentsList[c]| == 0)
    {
      var inDegree := |taskGraph.GetParentsList(task)|;
      if inDegree == 0 {
        candidateTasks := candidateTasks + [task];
      }
      inDegrees[task] := inDegree;
      task := task + 1;
    }
    forall c | 0 <= c < numTasks ensures inDegrees[c] == Pending(taskGraph.parentsList[c], {}) {
      PendingNone(taskGraph.parentsList[c]);
    }
  }

  /**
   * The release loop: every child of the task just placed loses one pending parent, and those
   * reaching zero are appended to the queue in child-list order.
   */
  method ReleaseChildren(taskGraph: TaskGraph, inDegrees: array<int>, task: int, queue: seq<int>, ghost placed: set<int>)
    returns (released: seq<int>)
    requires taskGraph.WellFormed() && 0 <= task < taskGraph.numberOfTasks
    requires Releasing(taskGraph, inDegrees[..], placed, task, 0, queue)
    modifies inDegrees
    ensures InDegreesMatch(taskGraph, inDegrees[..], placed) && IsFrontier(taskGraph, inDegrees[..], placed, released)
    ensures |queue| <= |released| && released[..|queue|] == queue
    ensures forall c :: 0 <= c < inDegrees.Length ==>
              inDegrees[c] == old(inDegrees[c]) - (if c in taskGraph.childrenList[task] then 1 else 0)
    ensures |released| == |queue| + Zeros(taskGraph.childrenList[task], inDegrees[..])
  {
    var children := taskGraph.GetChildrenList(task);
    ghost var start := inDegrees[..];
    released := queue;
    var i := 0;
    while i < |children|
      invariant 0 <= i <= |children| && |inDegrees[..]| == |start|
      invariant ReleasedSoFar(taskGraph, start, inDegrees[..], placed, task, i, queue, released)
    {
      released := ReleaseNext(taskGraph, inDegrees, task, i, queue, released, placed, start);
      i := i + 1;
    }
    assert children[..i] == children;
    FinishRelease(taskGraph, inDegrees[..], placed, task, released);
  }

  /**
   * Where the release loop stands after its first i turns: `released` extends the queue it started
   * from, each of the first i children has lost one pending parent, and one task was queued for
   * each of those children left with none.
   */
  ghost predicate ReleasedSoFar(taskGraph: TaskGraph, start: seq<int>, inDegrees: seq<int>, placed: set<int>,
                                task: int, i: int, queue: seq<int>, released: seq<int>)
    requires taskGraph.Shaped() && 0 <= task < taskGraph.numberOfTasks
    requires 0 <= i <= |taskGraph.childrenList[task]| && |inDegrees| == |start|
  {
    && Releasing(taskGraph, inDegrees, placed, task, i, released)
    && |queue| <= |released| && released[..|queue|] == queue
    && (forall c :: 0 <= c < |inDegrees| ==>
          inDegrees[c] == start[c] - (if c in taskGraph.childrenList[task][..i] then 1 else 0))
    && |released| == |queue| + Zeros(taskGraph.childrenList[task][..i], inDegrees)
  }

  /** One turn of the release loop, stated as the step from the first i children to the first i + 1. */
  method ReleaseNext(taskGraph: TaskGraph, inDegrees: array<int>, task: int, i: int, queue: seq<int>,
                     soFar: seq<int>, ghost placed: set<int>, ghost start: seq<int>)
    returns (released: seq<int>)
    requires taskGraph.WellFormed() && 0 <= task < taskGraph.numberOfTasks && 0 <= i < |taskGraph.childrenList[task]|
    requires |inDegrees[..]| == |start|
    requires ReleasedSoFar(taskGraph, start, inDegrees[..], placed, task, i, queue, soFar)
    modifies inDegrees
    ensures ReleasedSoFar(taskGraph, start, inDegrees[..], placed, task, i + 1, queue, released)
  {
    ghost var before := inDegrees[..];
    released := ReleaseChild(taskGraph, inDegrees, task, i, soFar, placed);
    SoFarStep(taskGraph, start, before, inDegrees[..], placed, task, i, queue, soFar, released);
  }

  /** The bookkeeping of one turn of the release loop, on the in-degrees before and after the turn. */
  lemma SoFarStep(taskGraph: TaskGraph, start: seq<int>, before: seq<int>, after: seq<int>, placed: set<int>,
                  task: int, i: int, queue: seq<int>, soFar: seq<int>, released: seq<int>)
    requires taskGraph.Shaped() && 0 <= task < taskGraph.numberOfTasks && 0 <= i < |taskGraph.childrenList[task]|
    requires Distinct(taskGraph.childrenList[task])
    requires |before| == |start| && ReleasedSoFar(taskGraph, start, before, placed, task, i, queue, soFar)
    requires var child := taskGraph.childrenList[task][i];
      && 0 <= child < |before|
      && after == before[child := before[child] - 1]
      && released == soFar + (if after[child] == 0 then [child] else [])
    requires Releasing(taskGraph, after, placed, task, i + 1, released)
    ensures ReleasedSoFar(taskGraph, start, after, placed, task, i + 1, queue, released)
  {
    var children := taskGraph.childrenList[task];
    CountStep(children, i, before, after);
    LoweredStep(children, i, start, before, after);
    assert released[..|queue|] == soFar[..|queue|];
  }

  /** After i + 1 turns of the release loop, exactly the first i + 1 children have lost one pending parent. */
  lemma LoweredStep(children: seq<int>, i: int, start: seq<int>, before: seq<int>, after: seq<int>)
    requires Distinct(children) && AllBelow(children, |before|) && 0 <= i < |children|
    requires |start| == |before| == |after|
    requires forall c :: 0 <= c < |before| ==> before[c] == start[c] - (if c in children[..i] then 1 else 0)
    requires after == before[children[i] := before[children[i]] - 1]
    ensures forall c :: 0 <= c < |after| ==> after[c] == start[c] - (if c in children[..i + 1] then 1 else 0)
  {
    assert children[..i + 1] == children[..i] + [children[i]];
    DistinctOnce(children, i);
    forall c | 0 <= c < |after|
      ensures after[c] == start[c] - (if c in children[..i + 1] then 1 else 0)
    {
      assert c in children[..i + 1] <==> c in children[..i] || c == children[i];
    }
  }

  /** One turn of the release loop: the i-th child loses a pending parent and is queued when none is left. */
  method ReleaseChild(taskGraph: TaskGraph, inDegrees: array<int>, task: int, i: int, queue: seq<int>,
                      ghost placed: set<int>)
    returns (released: seq<int>)
    requires taskGraph.WellFormed() && 0 <= task < taskGraph.numberOfTasks && 0 <= i < |taskGraph.childrenList[task]|
    requires Releasing(taskGraph, inDegrees[..], placed, task, i, queue)
    modifies inDegrees
    ensures var child := taskGraph.childrenList[task][i];
      && 0 <= child < inDegrees.Length
      && inDegrees[..] == old(inDegrees[..])[child := old(inDegrees[child]) - 1]
      && released == queue + (if inDegrees[child] == 0 then [child] else [])
    ensures Releasing(taskGraph, inDegrees[..], placed, task, i + 1, released)
  {
    var child := taskGraph.childrenList[task][i];
    ReleaseStep(taskGraph, inDegrees[..], placed, task, i, queue);
    inDegrees[child] := inDegrees[child] - 1;
    released := queue;
    if inDegrees[child] == 0 {
      released := released + [child];
    }
  }

  /**
   * The release step of the fixed-task-order search, where the task just placed has at most one
   * child: that child loses a pending parent and joins the end of the queue when none is left.
   */
  method ReleaseOnlyChild(taskGraph: TaskGraph, inDegrees: array<int>, task: int, queue: seq<int>, ghost placed: set<int>)
    returns (released: seq<int>, childAdded: bool)
    requires taskGraph.WellFormed() && 0 <= task < taskGraph.numberOfTasks && |taskGraph.childrenList[task]| <= 1
    requires Releasing(taskGraph, inDegrees[..], placed, task, 0, queue)
    modifies inDegrees
    ensures InDegreesMatch(taskGraph, inDegrees[..], placed) && IsFrontier(taskGraph, inDegrees[..], placed, released)
    ensures forall c :: 0 <= c < inDegrees.Length ==>
              inDegrees[c] == old(inDegrees[c]) - (if c in taskGraph.childrenList[task] then 1 else 0)
    ensures childAdded ==> |taskGraph.childrenList[task]| == 1
    ensures released == queue + (if childAdded then [taskGraph.childrenList[task][0]] else [])
  {
    var children := taskGraph.GetChildrenList(task);
    released, childAdded := queue, false;
    if children != [] {
      var child := children[0];
      released := ReleaseChild(taskGraph, inDegrees, task, 0, queue, placed);
      childAdded := inDegrees[child] == 0;
      assert children == [child];
    } else {
      assert queue + [] == queue;
    }
    FinishRelease(taskGraph, inDegrees[..], placed, task, released);
  }

  /** How many of the listed tasks have in-degree zero. */
  function Zeros(children: seq<int>, inDegrees: seq<int>): (r: nat)
    requires AllBelow(children, |inDegrees|)
    ensures r <= |children|
  {
    if children == [] then 0
    else Zeros(children[..|children| - 1], inDegrees) + (if inDegrees[children[|children| - 1]] == 0 then 1 else 0)
  }

  /** Lowering the in-degree of the next listed task extends the count over the listed prefix by that task alone. */
  lemma CountStep(children: seq<int>, i: int, before: seq<int>, after: seq<int>)
    requires Distinct(children) && AllBelow(children, |before|) && 0 <= i < |children| && |after| == |before|
    requires forall c :: 0 <= c < |before| && c != children[i] ==> after[c] == before[c]
    ensures Zeros(children[..i + 1], after) == Zeros(children[..i], before) + (if after[children[i]] == 0 then 1 else 0)
  {
    assert children[..i + 1][..i] == children[..i];
    DistinctOnce(children, i);
    ZerosFrame(children[..i], before, after);
  }

  /** The count reads only the entries of the listed tasks. */
  lemma {:induction false} ZerosFrame(children: seq<int>, a: seq<int>, b: seq<int>)
    requires AllBelow(children, |a|) && |a| == |b|
    requires forall c :: c in children ==> a[c] == b[c]
    ensures Zeros(children, a) == Zeros(children, b)
  {
    if children != [] {
      ZerosFrame(children[..|children| - 1], a, b);
    }
  }
  /** A prefix of the list counts no more zeros than the whole list. */
  lemma {:induction false} ZerosPrefix(children: seq<int>, inDegrees: seq<int>, i: int)
    requires AllBelow(children, |inDegrees|) && 0 <= i <= |children|
    ensures Zeros(children[..i], inDegrees) <= Zeros(children, inDegrees)
    decreases |children|
  {
    if i < |children| {
      assert children[..|children| - 1][..i] == children[..i];
      ZerosPrefix(children[..|children| - 1], inDegrees, i);
    } else {
      assert children[..i] == children;
    }
  }
}
