/**
 * The schedule validator (src/main/java/test/ValidateSolution.java).  It works on the
 * validator's own task record, which carries a task id, and records busy intervals in one
 * `Processor` object per processor.
 */
module Validation {
  import opened Wrappers
  import opened Processors

  /** A scheduled task as the validator sees it (main.Task): id, start, finish and processor. */
  datatype SolutionTask = SolutionTask(id: int, startTime: int, finishTime: int, processor: int)

  /** The half-open busy intervals of two tasks intersect. */
  predicate Overlap(task: SolutionTask, other: SolutionTask)
  {
    task.startTime < other.finishTime && task.finishTime > other.startTime
  }

  /** Some earlier entry sits on the same processor as entry k and overlaps it. */
  predicate OverlapsEarlier(solution: seq<Option<SolutionTask>>, k: nat)
    requires k < |solution| && solution[k].Some?
  {
    exists j :: 0 <= j < k && solution[j].Some? && solution[j].value.processor == solution[k].value.processor
                && Overlap(solution[k].value, solution[j].value)
  }

  /** Entry k is present, overlaps no earlier entry on its processor and lasts its task's duration. */
  predicate Passes(durations: seq<int>, solution: seq<Option<SolutionTask>>, k: nat)
    requires k < |solution|
  {
    solution[k].Some? && !OverlapsEarlier(solution, k)
    && 0 <= solution[k].value.id < |durations|
    && solution[k].value.finishTime - solution[k].value.startTime == durations[solution[k].value.id]
  }

  /** Every entry before k passes, so the validator's loop reaches entry k. */
  predicate Reaches(durations: seq<int>, solution: seq<Option<SolutionTask>>, k: nat)
    requires k <= |solution|
  {
    forall i :: 0 <= i < k ==> Passes(durations, solution, i)
  }

  /** The search for a task with id `parent` meets that task before it meets any null entry. */
  predicate ParentScanSafe(solution: seq<Option<SolutionTask>>, parent: int)
  {
    forall j :: 0 <= j < |solution| && solution[j].None? ==>
      exists i :: 0 <= i < j && solution[i].Some? && solution[i].value.id == parent
  }

  /**
   * What the validator needs from its caller to finish without an exception: the durations
   * exist when the solution is non-empty, the processor count is not negative, and every
   * entry the loop reaches is safe to process.
   */
  predicate SafeInputs(inList: Option<seq<Option<seq<int>>>>, durations: Option<seq<int>>, numProcessors: int,
                       solution: Option<seq<Option<SolutionTask>>>)
  {
    solution.Some? && |solution.value| > 0 ==>
      durations.Some? &&
      (|solution.value| == |durations.value| ==>
        numProcessors >= 0 &&
        forall k :: 0 <= k < |solution.value| && Reaches(durations.value, solution.value, k) ==>
          SafeAt(inList, durations.value, numProcessors, solution.value, k))
  }

  /**
   * Entry k, once reached, names a processor in range, a task id in range of `durations` when
   * the overlap test passes, and, when the entry passes, a task id in range of `inList` whose
   * parents are each met by the search before any null entry.
   */
  predicate SafeAt(inList: Option<seq<Option<seq<int>>>>, durations: seq<int>, numProcessors: int,
                   solution: seq<Option<SolutionTask>>, k: nat)
    requires k < |solution|
  {
    solution[k].Some? ==>
      0 <= solution[k].value.processor < numProcessors &&
      (!OverlapsEarlier(solution, k) ==> 0 <= solution[k].value.id < |durations|) &&
      (Passes(durations, solution, k) ==>
        inList.Some? && solution[k].value.id < |inList.value| &&
        (inList.value[solution[k].value.id].Some? ==>
          forall parent :: parent in inList.value[solution[k].value.id].value ==> ParentScanSafe(solution, parent)))
  }

  /**
   * The validator's verdict: an absent or empty solution is valid exactly when the durations are
   * absent or empty; otherwise the solution must have one entry per duration and every entry
   * must pass.  Neither the parent lists nor the communication costs take part.
   */
  predicate Verdict(durations: Option<seq<int>>, solution: Option<seq<Option<SolutionTask>>>)
  {
    if solution.None? || |solution.value| == 0 then
      durations.None? || |durations.value| == 0
    else
      durations.Some? && |solution.value| == |durations.value| &&
      forall k :: 0 <= k < |solution.value| ==> Passes(durations.value, solution.value, k)
  }

  /** The start times recorded on processor p after the first k entries (all present). */
  function StartsOn(solution: seq<Option<SolutionTask>>, k: nat, p: int): (starts: seq<int>)
    requires k <= |solution|
    ensures |starts| <= k
  {
    if k == 0 then []
    else StartsOn(solution, k - 1, p)
         + (if solution[k - 1].Some? && solution[k - 1].value.processor == p then [solution[k - 1].value.startTime] else [])
  }

  /** The end times recorded on processor p after the first k entries: start plus (finish - start). */
  function EndsOn(solution: seq<Option<SolutionTask>>, k: nat, p: int): (ends: seq<int>)
    requires k <= |solution|
    ensures |ends| == |StartsOn(solution, k, p)|
  {
    if k == 0 then []
    else EndsOn(solution, k - 1, p)
         + (if solution[k - 1].Some? && solution[k - 1].value.processor == p then [solution[k - 1].value.finishTime] else [])
  }

  /** Asking processor p about a task's interval finds exactly the earlier overlapping entries on p. */
  lemma {:induction false} OccupiedIffOverlap(solution: seq<Option<SolutionTask>>, k: nat, p: int, task: SolutionTask)
    requires k <= |solution|
    ensures Occupied(StartsOn(solution, k, p), EndsOn(solution, k, p), task.startTime, task.finishTime - task.startTime) <==>
            exists j :: 0 <= j < k && solution[j].Some? && solution[j].value.processor == p && Overlap(task, solution[j].value)
  {
    if k > 0 {
      OccupiedIffOverlap(solution, k - 1, p, task);
      var d := task.finishTime - task.startTime;
      var starts, ends := StartsOn(solution, k - 1, p), EndsOn(solution, k - 1, p);
      var last := solution[k - 1];
      if last.Some? && last.value.processor == p {
        OccupiedAppend(starts, ends, last.value.startTime, last.value.finishTime, task.startTime, d);
      } else {
        assert StartsOn(solution, k, p) == starts && EndsOn(solution, k, p) == ends;
      }
      if exists j :: 0 <= j < k && solution[j].Some? && solution[j].value.processor == p && Overlap(task, solution[j].value) {
        var j :| 0 <= j < k && solution[j].Some? && solution[j].value.processor == p && Overlap(task, solution[j].value);
        if j < k - 1 {
          assert Occupied(starts, ends, task.startTime, d);
        }
      }
    }
  }

  /**
   * The parent check as written: it answers false as soon as some parent's finish (plus the
   * communication cost when it ran on another processor) is at or before the task's start.
   */
  predicate ParentsCompleteAsWritten(parents: seq<SolutionTask>, task: SolutionTask, commCosts: seq<seq<int>>)
    requires CostsIndexable(parents, task, commCosts)
  {
    forall i :: 0 <= i < |parents| ==> parents[i].finishTime + ArrivalCost(parents[i], task, commCosts) > task.startTime
  }

  /** The parent check as its documentation describes it: every parent's data arrives by the task's start. */
  predicate ParentsComplete(parents: seq<SolutionTask>, task: SolutionTask, commCosts: seq<seq<int>>)
    requires CostsIndexable(parents, task, commCosts)
  {
    forall i :: 0 <= i < |parents| ==> parents[i].finishTime + ArrivalCost(parents[i], task, commCosts) <= task.startTime
  }

  /** Every parent on another processor indexes the cost matrix. */
  predicate CostsIndexable(parents: seq<SolutionTask>, task: SolutionTask, commCosts: seq<seq<int>>)
  {
    forall i :: 0 <= i < |parents| && parents[i].processor != task.processor ==>
      0 <= parents[i].id < |commCosts| && 0 <= task.id < |commCosts[parents[i].id]|
  }

  /** Zero on the same processor, the edge's cost otherwise. */
  function ArrivalCost(parent: SolutionTask, task: SolutionTask, commCosts: seq<seq<int>>): int
    requires parent.processor != task.processor ==> 0 <= parent.id < |commCosts| && 0 <= task.id < |commCosts[parent.id]|
  {
    if parent.processor != task.processor then commCosts[parent.id][task.id] else 0
  }

  /** parentsCompleteBeforeTask as written (ValidateSolution.java:98-115). */
  method ParentsCompleteBeforeTaskAsWritten(parents: seq<SolutionTask>, task: SolutionTask, commCosts: seq<seq<int>>)
    returns (complete: bool)
    requires CostsIndexable(parents, task, commCosts)
    ensures complete <==> ParentsCompleteAsWritten(parents, task, commCosts)
  {
    var i := 0;
    while i < |parents|
      invariant 0 <= i <= |parents|
      invariant forall j :: 0 <= j < i ==> parents[j].finishTime + ArrivalCost(parents[j], task, commCosts) > task.startTime
    {
      var parent := parents[i];
      var commCost := 0;
      if parent.processor != task.processor {
        commCost := commCosts[parent.id][task.id];
      }
      if parent.finishTime + commCost <= task.startTime {
        return false;
      }
      i := i + 1;
    }
    return true;
  }

  /** parentsCompleteBeforeTask with the comparison its documentation asks for. */
  method ParentsCompleteBeforeTask(parents: seq<SolutionTask>, task: SolutionTask, commCosts: seq<seq<int>>)
    returns (complete: bool)
    requires CostsIndexable(parents, task, commCosts)
    ensures complete <==> ParentsComplete(parents, task, commCosts)
  {
    var i := 0;
    while i < |parents|
      invariant 0 <= i <= |parents|
      invariant forall j :: 0 <= j < i ==> parents[j].finishTime + ArrivalCost(parents[j], task, commCosts) <= task.startTime
    {
      var parent := parents[i];
      var commCost := 0;
      if parent.processor != task.processor {
        commCost := commCosts[parent.id][task.id];
      }
      if parent.finishTime + commCost > task.startTime {
        return false;
      }
      i := i + 1;
    }
    return true;
  }

  /** A parent that finishes exactly when its child starts on the same processor is rejected by the check as written and accepted by the corrected one. */
  lemma BackToBackParentRejected()
    ensures var parent, child := SolutionTask(0, 0, 2, 0), SolutionTask(1, 2, 4, 0);
            !ParentsCompleteAsWritten([parent], child, []) && ParentsComplete([parent], child, [])
  {
    var parent, child := SolutionTask(0, 0, 2, 0), SolutionTask(1, 2, 4, 0);
    assert [parent][0] == parent && ArrivalCost(parent, child, []) == 0;
  }

  /** A task starting before its parent finishes: the corrected check rejects it, whatever the costs. */
  lemma EarlyChildRejected(parent: SolutionTask, child: SolutionTask, commCosts: seq<seq<int>>)
    requires CostsIndexable([parent], child, commCosts)
    requires parent.processor == child.processor && child.startTime < parent.finishTime
    ensures !ParentsComplete([parent], child, commCosts)
  {
    assert [parent][0] == parent && ArrivalCost(parent, child, commCosts) == 0;
  }

  /** With no parents attached both versions of the parent check accept. */
  lemma ParentCheckOfNoParents(task: SolutionTask, commCosts: seq<seq<int>>)
    ensures ParentsCompleteAsWritten([], task, commCosts) && ParentsComplete([], task, commCosts)
  {
  }

  /** Whether a solution entry is present and carries the given id. */
  predicate HasId(entry: Option<SolutionTask>, id: int) {
    entry.Some? && entry.value.id == id
  }

  /** Whether some entry of the solution carries the id. */
  predicate Carried(solution: seq<Option<SolutionTask>>, id: int) {
    exists i :: 0 <= i < |solution| && HasId(solution[i], id)
  }

  /** The index of the first entry from `from` on that carries the id, or the solution's length when none does. */
  function FirstWithId(solution: seq<Option<SolutionTask>>, id: int, from: nat): (k: nat)
    requires from <= |solution|
    ensures from <= k <= |solution|
    ensures forall i :: from <= i < k ==> !HasId(solution[i], id)
    ensures k < |solution| ==> HasId(solution[k], id)
    decreases |solution| - from
  {
    if from == |solution| || HasId(solution[from], id) then from else FirstWithId(solution, id, from + 1)
  }

  /**
   * The parents the search of validate attaches (ValidateSolution.java:79-86): for each listed id
   * in turn, the first solution entry with that id, and nothing for an id no entry carries.
   */
  function ParentsFound(solution: seq<Option<SolutionTask>>, parentIds: seq<int>): (found: seq<SolutionTask>)
    ensures |found| <= |parentIds|
    ensures forall t :: t in found ==> t.id in parentIds && Some(t) in solution
    decreases |parentIds|
  {
    if |parentIds| == 0 then []
    else
      var last := parentIds[|parentIds| - 1];
      var k := FirstWithId(solution, last, 0);
      ParentsFound(solution, parentIds[..|parentIds| - 1]) + (if k < |solution| then [solution[k].value] else [])
  }

  /** An id some entry carries is found. */
  lemma FirstFound(solution: seq<Option<SolutionTask>>, id: int)
    requires Carried(solution, id)
    ensures FirstWithId(solution, id, 0) < |solution|
  {
    var i :| 0 <= i < |solution| && HasId(solution[i], id);
    assert FirstWithId(solution, id, 0) <= i;
  }

  /**
   * When every listed id is carried by some entry, one parent is attached per id, and the q-th is
   * the first entry with the q-th id.
   */
  lemma {:induction false} ParentsFoundAt(solution: seq<Option<SolutionTask>>, parentIds: seq<int>, q: nat)
    requires forall r :: 0 <= r < |parentIds| ==> Carried(solution, parentIds[r])
    requires q < |parentIds|
    ensures |ParentsFound(solution, parentIds)| == |parentIds|
    ensures FirstWithId(solution, parentIds[q], 0) < |solution|
    ensures ParentsFound(solution, parentIds)[q] == solution[FirstWithId(solution, parentIds[q], 0)].value
    decreases |parentIds|
  {
    var n := |parentIds| - 1;
    var init := parentIds[..n];
    FirstFound(solution, parentIds[n]);
    var k := FirstWithId(solution, parentIds[n], 0);
    var found, prev := ParentsFound(solution, parentIds), ParentsFound(solution, init);
    assert found == prev + [solution[k].value];
    if q < n {
      assert init[q] == parentIds[q];
      ParentsFoundAt(solution, init, q);
      assert found[q] == prev[q];
    } else if n > 0 {
      ParentsFoundAt(solution, init, n - 1);
    } else {
      assert prev == [];
    }
  }

  /**
   * The parent search of validate (ValidateSolution.java:79-86): for each parent id, the first
   * entry with that id, if any.  Every entry it inspects is present.
   */
  method FindParents(solution: seq<Option<SolutionTask>>, parentIds: seq<int>) returns (found: seq<SolutionTask>)
    requires forall parent :: parent in parentIds ==> ParentScanSafe(solution, parent)
    ensures found == ParentsFound(solution, parentIds)
  {
    found := [];
    var q := 0;
    while q < |parentIds|
      invariant 0 <= q <= |parentIds|
      invariant found == ParentsFound(solution, parentIds[..q])
    {
      var parent := parentIds[q];
      assert parentIds[..q + 1][..q] == parentIds[..q];
      assert ParentScanSafe(solution, parent);
      var j := 0;
      while j < |solution|
        invariant 0 <= j <= |solution|
        invariant forall i :: 0 <= i < j ==> solution[i].Some? && solution[i].value.id != parent
      {
        assert solution[j].Some?;
        if solution[j].value.id == parent {
          assert FirstWithId(solution, parent, 0) == j;
          found := found + [solution[j].value];
          break;
        }
        j := j + 1;
      }
      assert found == ParentsFound(solution, parentIds[..q + 1]);
      q := q + 1;
    }
    assert parentIds[..q] == parentIds;
  }

  /**
   * The processor objects hold, one per processor and none shared, the intervals of the entries
   * before k on that processor.
   */
  ghost predicate Recorded(processors: array<Processor?>, solution: seq<Option<SolutionTask>>, k: nat)
    requires k <= |solution|
    reads processors, set p | 0 <= p < processors.Length :: processors[p]
  {
    && (forall p :: 0 <= p < processors.Length ==>
          && processors[p] != null && processors[p].Valid()
          && processors[p].startTimes == StartsOn(solution, k, p) && processors[p].endTimes == EndsOn(solution, k, p))
    && (forall p, q :: 0 <= p < q < processors.Length ==> processors[p] != processors[q])
  }

  /** One new, empty processor object per processor (ValidateSolution.java:40-44). */
  method NewProcessors(numProcessors: nat) returns (processors: array<Processor?>)
    ensures fresh(processors) && processors.Length == numProcessors
    ensures forall p :: 0 <= p < numProcessors ==>
              && processors[p] != null && fresh(processors[p])
              && processors[p].Valid() && processors[p].startTimes == [] && processors[p].endTimes == []
    ensures forall p, q :: 0 <= p < q < numProcessors ==> processors[p] != processors[q]
  {
    processors := new Processor?[numProcessors];
    var i := 0;
    while i < numProcessors
      invariant 0 <= i <= numProcessors
      invariant forall p :: 0 <= p < i ==>
                  (processors[p] != null && fresh(processors[p])
                   && processors[p].Valid() && processors[p].startTimes == [] && processors[p].endTimes == [])
      invariant forall p, q :: 0 <= p < q < i ==> processors[p] != processors[q]
    {
      processors[i] := new Processor();
      i := i + 1;
    }
  }

  /**
   * The overlap test and the recording of one entry of validate (ValidateSolution.java:52-58): the
   * entry's processor reports whether an earlier entry overlaps it, and records the entry when none does.
   */
  method RecordEntry(processors: array<Processor?>, solution: seq<Option<SolutionTask>>, k: nat)
    returns (occupied: bool)
    requires k < |solution| && solution[k].Some? && 0 <= solution[k].value.processor < processors.Length
    requires Recorded(processors, solution, k)
    modifies processors[solution[k].value.processor]
    ensures occupied == OverlapsEarlier(solution, k)
    ensures !occupied ==> Recorded(processors, solution, k + 1)
  {
    var task := solution[k].value;
    var processor := processors[task.processor];
    occupied := processor.IsOccupied(task.startTime, task.finishTime - task.startTime);
    OccupiedIffOverlap(solution, k, task.processor, task);
    if !occupied {
      processor.Add(task.startTime, task.finishTime - task.startTime);
      forall p | 0 <= p < processors.Length
        ensures processors[p].startTimes == StartsOn(solution, k + 1, p) && processors[p].endTimes == EndsOn(solution, k + 1, p)
      {
        if p != task.processor {
          assert processors[p] != processor;
        }
      }
    }
  }

  /**
   * validate (ValidateSolution.java:23-89).  Parents are attached to a task only after that task
   * has been checked, so each task's parent list is empty when it is checked, and the verdict
   * depends on the durations and the solution alone.
   */
  method Validate(inList: Option<seq<Option<seq<int>>>>, commCosts: seq<seq<int>>, durations: Option<seq<int>>,
                  numProcessors: int, solution: Option<seq<Option<SolutionTask>>>)
    returns (valid: bool)
    requires SafeInputs(inList, durations, numProcessors, solution)
    ensures valid == Verdict(durations, solution)
  {
    if solution.None? || |solution.value| == 0 {
      return durations.None? || |durations.value| == 0;
    }
    var tasks := solution.value;
    var lengths := durations.value;
    if |tasks| != |lengths| {
      return false;
    }

    valid := CheckAll(inList, commCosts, lengths, numProcessors, tasks);
  }

  /**
   * The loop of validate (ValidateSolution.java:40-88) over a solution with one entry per
   * duration: it answers whether every entry passes.
   */
  method CheckAll(inList: Option<seq<Option<seq<int>>>>, commCosts: seq<seq<int>>, lengths: seq<int>,
                  numProcessors: nat, tasks: seq<Option<SolutionTask>>)
    returns (valid: bool)
    requires forall k :: 0 <= k < |tasks| && Reaches(lengths, tasks, k) ==> SafeAt(inList, lengths, numProcessors, tasks, k)
    ensures valid <==> Reaches(lengths, tasks, |tasks|)
  {
    var processors := NewProcessors(numProcessors);
    assert Recorded(processors, tasks, 0);

    // The parents attached to each entry's task; all lists start empty.
    var attached: seq<seq<SolutionTask>> := seq(|tasks|, _ => []);
    var k := 0;
    while k < |tasks|
      invariant 0 <= k <= |tasks|
      invariant Reaches(lengths, tasks, k)
      invariant Recorded(processors, tasks, k)
      invariant forall p :: 0 <= p < numProcessors ==> fresh(processors[p])
      invariant |attached| == |tasks| && forall j :: k <= j < |tasks| ==> attached[j] == []
    {
      if tasks[k].None? {
        assert !Passes(lengths, tasks, k);
        return false;
      }
      var passes;
      passes, attached := CheckEntry(inList, commCosts, lengths, numProcessors, tasks, processors, attached, k);
      if !passes {
        return false;
      }
      k := k + 1;
    }
    return true;
  }

  /**
   * One turn of validate's loop over a present entry (ValidateSolution.java:52-86): the overlap
   * test, the parent check, the duration check and the attaching of the task's parents.
   */
  method CheckEntry(inList: Option<seq<Option<seq<int>>>>, commCosts: seq<seq<int>>, lengths: seq<int>,
                    numProcessors: int, tasks: seq<Option<SolutionTask>>, processors: array<Processor?>,
                    attached: seq<seq<SolutionTask>>, k: nat)
    returns (passes: bool, attached': seq<seq<SolutionTask>>)
    requires k < |tasks| && tasks[k].Some? && processors.Length == numProcessors && Reaches(lengths, tasks, k)
    requires SafeAt(inList, lengths, numProcessors, tasks, k) && Recorded(processors, tasks, k)
    requires |attached| == |tasks| && forall j :: k <= j < |tasks| ==> attached[j] == []
    modifies processors[tasks[k].value.processor]
    ensures passes == Passes(lengths, tasks, k)
    ensures passes ==> Reaches(lengths, tasks, k + 1) && Recorded(processors, tasks, k + 1)
    ensures |attached'| == |tasks| && forall j :: k < j < |tasks| ==> attached'[j] == []
  {
    attached' := attached;
    var task := tasks[k].value;
    var occupied := RecordEntry(processors, tasks, k);
    if occupied {
      return false, attached';
    }
    var complete := ParentsCompleteBeforeTask(attached[k], task, commCosts);
    if !complete || task.finishTime - task.startTime != lengths[task.id] {
      return false, attached';
    }
    var parents := inList.value[task.id];
    if parents.Some? {
      var found := FindParents(tasks, parents.value);
      attached' := attached[k := attached[k] + found];
    }
    return true, attached';
  }

  /** A null or empty solution is valid exactly when the durations are null or empty. */
  lemma EmptySolutionVerdict(durations: Option<seq<int>>)
    ensures Verdict(durations, None) <==> durations.None? || |durations.value| == 0
    ensures Verdict(durations, Some([])) <==> durations.None? || |durations.value| == 0
  {
  }

  /** A solution with a null entry, or with the wrong number of entries, is rejected. */
  lemma DefectiveSolutionRejected(durations: Option<seq<int>>, solution: seq<Option<SolutionTask>>)
    requires |solution| > 0
    requires (exists k :: 0 <= k < |solution| && solution[k].None?) ||
             durations.None? || |solution| != |durations.value|
    ensures !Verdict(durations, Some(solution))
  {
    if durations.Some? && |solution| == |durations.value| {
      var k :| 0 <= k < |solution| && solution[k].None?;
      assert !Passes(durations.value, solution, k);
    }
  }

  /** In a valid solution no two tasks on one processor overlap, and each lasts its duration. */
  lemma ValidMeansNoOverlap(durations: seq<int>, solution: seq<Option<SolutionTask>>, j: nat, k: nat)
    requires Verdict(Some(durations), Some(solution)) && |solution| > 0
    requires j < |solution| && k < |solution| && j != k
    ensures solution[j].Some? && solution[k].Some?
    ensures solution[j].value.processor == solution[k].value.processor ==> !Overlap(solution[j].value, solution[k].value)
    ensures 0 <= solution[k].value.id < |durations|
    ensures solution[k].value.finishTime - solution[k].value.startTime == durations[solution[k].value.id]
  {
    assert Passes(durations, solution, j) && Passes(durations, solution, k);
    if j > k {
      assert !OverlapsEarlier(solution, j);
    } else {
      assert !OverlapsEarlier(solution, k);
    }
  }

  /** A task that starts while its parent, on another processor, is still running is accepted: precedence is never checked. */
  lemma PrecedenceNotChecked()
    ensures Verdict(Some([2, 2]), Some([Some(SolutionTask(1, 0, 2, 0)), Some(SolutionTask(0, 0, 2, 1))]))
  {
    var s := [Some(SolutionTask(1, 0, 2, 0)), Some(SolutionTask(0, 0, 2, 1))];
    assert Passes([2, 2], s, 0);
    assert !OverlapsEarlier(s, 1);
    assert Passes([2, 2], s, 1);
  }

  /** The chain A -> B -> C placed back to back on processor 0 is valid, and the validator may be called on it. */
  lemma ChainIsValid()
    ensures var solution := Some([Some(SolutionTask(0, 0, 2, 0)), Some(SolutionTask(1, 2, 4, 0)), Some(SolutionTask(2, 4, 6, 0))]);
            var inList := Some([None, Some([0]), Some([1])]);
            SafeInputs(inList, Some([2, 2, 2]), 2, solution) && Verdict(Some([2, 2, 2]), solution)
  {
    var s := [Some(SolutionTask(0, 0, 2, 0)), Some(SolutionTask(1, 2, 4, 0)), Some(SolutionTask(2, 4, 6, 0))];
    assert !OverlapsEarlier(s, 0);
    assert !OverlapsEarlier(s, 1);
    assert !OverlapsEarlier(s, 2);
    assert forall k :: 0 <= k < 3 ==> Passes([2, 2, 2], s, k);
  }
}
