/**
 * The search-state record (solution/SearchState.java; solution/State.java and
 * solution/SolutionState.java hold the same code under other class names): the candidate list,
 * the four state arrays and the remaining duration of one branch of the search.  The parallel
 * engines hand such records to worker threads as deep copies.  The candidate `LinkedList` is a
 * sequence value here, so copying it is copying the value.
 */
module States {

  class SearchState {
    var candidateTasks: seq<int>
    var inDegrees: array<int>
    var taskStartTimes: array<int>
    var scheduledOn: array<int>
    var processorFinishTimes: array<int>
    var remainingDuration: int

    /** Stores every argument as given: the arrays are shared with the caller, not copied. */
    constructor(candidateTasks: seq<int>, inDegrees: array<int>, taskStartTimes: array<int>,
                scheduledOn: array<int>, processorFinishTimes: array<int>, remainingDuration: int)
      ensures this.candidateTasks == candidateTasks && this.remainingDuration == remainingDuration
      ensures this.inDegrees == inDegrees && this.taskStartTimes == taskStartTimes
      ensures this.scheduledOn == scheduledOn && this.processorFinishTimes == processorFinishTimes
    {
      this.candidateTasks := candidateTasks;
      this.inDegrees := inDegrees;
      this.taskStartTimes := taskStartTimes;
      this.scheduledOn := scheduledOn;
      this.processorFinishTimes := processorFinishTimes;
      this.remainingDuration := remainingDuration;
    }

    /**
     * getDeepCopy: a new record over four new arrays.  The number of tasks is read off
     * `inDegrees`, and that many entries of the three task arrays are copied, so the other two
     * task arrays must be at least as long; the processor array is copied whole.  The original
     * record and its arrays are only read (there is no modifies clause), and since every array of
     * the copy is new, writing to the copy never reaches the original.
     */
    method GetDeepCopy() returns (duplicate: SearchState)
      requires taskStartTimes.Length >= inDegrees.Length && scheduledOn.Length >= inDegrees.Length
      ensures fresh(duplicate) && fresh(duplicate.inDegrees) && fresh(duplicate.taskStartTimes)
      ensures fresh(duplicate.scheduledOn) && fresh(duplicate.processorFinishTimes)
      ensures duplicate.inDegrees != duplicate.taskStartTimes && duplicate.inDegrees != duplicate.scheduledOn
      ensures duplicate.inDegrees != duplicate.processorFinishTimes
      ensures duplicate.taskStartTimes != duplicate.scheduledOn
      ensures duplicate.taskStartTimes != duplicate.processorFinishTimes
      ensures duplicate.scheduledOn != duplicate.processorFinishTimes
      ensures duplicate.inDegrees[..] == inDegrees[..]
      ensures duplicate.taskStartTimes[..] == taskStartTimes[..inDegrees.Length]
      ensures duplicate.scheduledOn[..] == scheduledOn[..inDegrees.Length]
      ensures duplicate.processorFinishTimes[..] == processorFinishTimes[..]
      ensures duplicate.candidateTasks == candidateTasks && duplicate.remainingDuration == remainingDuration
    {
      var n := inDegrees.Length;
      var inDegreeDuplicate := new int[n];
      var taskStartTimesDuplicate := new int[n];
      var scheduledOnDuplicate := new int[n];
      var processorFinishTimesDuplicate := new int[processorFinishTimes.Length];
      var remainingDurationDuplicate := remainingDuration;

      for i := 0 to n
        invariant forall k :: 0 <= k < i ==> inDegreeDuplicate[k] == inDegrees[k]
        invariant forall k :: 0 <= k < i ==> taskStartTimesDuplicate[k] == taskStartTimes[k]
        invariant forall k :: 0 <= k < i ==> scheduledOnDuplicate[k] == scheduledOn[k]
      {
        inDegreeDuplicate[i] := inDegrees[i];
        taskStartTimesDuplicate[i] := taskStartTimes[i];
        scheduledOnDuplicate[i] := scheduledOn[i];
      }

      for i := 0 to processorFinishTimes.Length
        invariant forall k :: 0 <= k < i ==> processorFinishTimesDuplicate[k] == processorFinishTimes[k]
        invariant forall k :: 0 <= k < n ==> inDegreeDuplicate[k] == inDegrees[k]
        invariant forall k :: 0 <= k < n ==> taskStartTimesDuplicate[k] == taskStartTimes[k]
        invariant forall k :: 0 <= k < n ==> scheduledOnDuplicate[k] == scheduledOn[k]
      {
        processorFinishTimesDuplicate[i] := processorFinishTimes[i];
      }
      var candidateTasksDuplicate := candidateTasks;
      duplicate := new SearchState(candidateTasksDuplicate, inDegreeDuplicate, taskStartTimesDuplicate,
                                   scheduledOnDuplicate, processorFinishTimesDuplicate, remainingDurationDuplicate);
    }
  }
}
