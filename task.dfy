/**
 * The scheduled-task record (data/Task.java).  Every field is set by a constructor and never
 * written again, so a task is a value.
 */
module Tasks {

  datatype Task = Task(startTime: int, finishTime: int, duration: int, processor: int, isIdle: bool)

  /**
   * The four-argument constructor: the id is not stored, the duration is derived from the two times
   * and `isIdle` keeps its field initialiser `true`, although the comment calls that a proper task.
   */
  function NewTask(id: int, startTime: int, finishTime: int, processor: int): (t: Task)
    ensures t.startTime == startTime && t.finishTime == finishTime && t.processor == processor
    ensures t.duration == finishTime - startTime
    ensures t.isIdle
  {
    Task(startTime, finishTime, finishTime - startTime, processor, true)
  }

  /** The constructor for visual tasks: the finish time is derived and the processor stays -1. */
  function VisualTask(startTime: int, duration: int, isIdle: bool): (t: Task)
    ensures t.startTime == startTime && t.duration == duration && t.isIdle == isIdle
    ensures t.finishTime == startTime + duration
    ensures t.processor == -1
  {
    Task(startTime, startTime + duration, duration, -1, isIdle)
  }

  /** Orders tasks by start time: negative, zero or positive as this start is below, equal to or above the other's. */
  function CompareTo(task: Task, otherTask: Task): (r: int)
    ensures r < 0 <==> task.startTime < otherTask.startTime
    ensures r == 0 <==> task.startTime == otherTask.startTime
    ensures r > 0 <==> task.startTime > otherTask.startTime
  {
    task.startTime - otherTask.startTime
  }

  /** `CompareTo` is a valid comparator: antisymmetric in sign and transitive. */
  lemma CompareToIsComparator(a: Task, b: Task, c: Task)
    ensures (CompareTo(a, b) < 0) == (CompareTo(b, a) > 0)
    ensures CompareTo(a, b) <= 0 && CompareTo(b, c) <= 0 ==> CompareTo(a, c) <= 0
  {
  }
}
