# Optimal task scheduling: a verified model of the sequential search

The repository schedules a task graph onto a fixed number of identical processors so that the
finish time of the last task is as small as possible. A task graph is a directed acyclic graph
whose nodes carry durations and whose edges carry communication costs. A child task may start
once each parent has finished, plus the edge's communication cost when the parent ran on another
processor. A processor runs one task at a time.

The program first builds an upper bound with list-scheduling heuristics (`Greedy`). It then runs a
depth-first branch-and-bound search (`SolutionSequential`) that:

- places one free task at a time on each processor in turn, trying only the first of the idle
  processors;
- prunes with a load-balance bound and a critical-path (bottom-level) bound;
- skips equivalent tasks (`PreProcessor.getNodeEquivalence`);
- skips partial schedules already seen, using a processor-order-free fingerprint
  (`PartialScheduleHashGenerator`);
- switches to a fixed task order ("FTO") when the free tasks form fork/join chains.

A single-processor scheduler (`SequentialScheduler`) and a solution validator
(`test/ValidateSolution`, with its `Processor` helper) complete the core.

The model keeps the source's form:

- **Read-only values** are datatypes: the task graph (`Graph.TaskGraph`), the task record
  (`Tasks.Task`) and the schedule (`Schedules.Schedule`).
- **Mutable objects** are classes over arrays:
  - the search's state (`Search.SolutionSequential`): start times, processor assignment,
    processor finish times, in-degrees, the best schedule found and the set of seen
    fingerprints;
  - the search-state snapshot (`States.SearchState`);
  - the validator's `Processors.Processor`.
- **Loops** are methods with loop invariants:
  - in-degree initialisation and child release (`Frontiers`);
  - b-level memoisation and equivalence classes (`PreProcessing`);
  - the heuristic and sequential schedulers;
  - fingerprint generation;
  - the search's bound, arrival and restore loops.

Each method is proved against a specification:

- feasibility of a (partial) schedule (`Schedules.Feasible`);
- the frontier of free tasks (`Frontiers.IsFrontier`);
- the bottom level as the longest path to an exit task (`PreProcessing.BLevel`);
- equivalence of two tasks (`PreProcessing.Equivalent`);
- the fingerprint as the set of per-processor stacks (`Fingerprints.Fingerprint`);
- the search invariant (`SearchRules.SearchInvariant`).

The main results are:

- every schedule the heuristics produce is feasible and complete;
- the sequential scheduler yields a feasible single-processor schedule whose finish time is the
  sum of all durations;
- the branch-and-bound search:
  - keeps every partial schedule feasible;
  - restores its whole state after each branch;
  - records each visited fingerprint;
  - returns a schedule no worse than the initial bound, and one that is feasible, complete and
    finishes at its reported time whenever it improves on that bound.

## Model

| member | source | states |
|---|---|---|
| Graph.TaskGraph.GetNumberOfTasks | src/main/java/data/TaskGraph.java:82-84 | the task count agrees with the length of every per-task array |
| Graph.TaskGraph.GetParentsList | src/main/java/data/TaskGraph.java:89-91 | a task's parents are distinct task ids, and p is a parent of t exactly when t is a child of p |
| Graph.TaskGraph.GetChildrenList | src/main/java/data/TaskGraph.java:96-98 | a task's children are distinct task ids, and c is a child of t exactly when t is a parent of c |
| Graph.TaskGraph.GetDuration | src/main/java/data/TaskGraph.java:103-105 | a duration is never negative |
| Graph.TaskGraph.GetCommCost | src/main/java/data/TaskGraph.java:107-115 | a communication cost is never negative, and it is 0 when the child is not a child of the parent, as the getter's documentation promises |
| Graph.FromFields | src/main/java/data/TaskGraph.java:51-58 | the testing constructor keeps the given lists, durations and costs, has one task per parents-list entry and builds no adjacency matrices |
| Graph.EmptyGraph | src/main/java/data/TaskGraph.java:64-76 | the data structures start shaped for n tasks (n empty lists, an n-by-n matrix), with the node weights as durations |
| Graph.AddEdgesComputes | src/main/java/data/TaskGraph.java:34-43 | after the fold, t's parents are the sources of t's entering edges in edge order, s's children are the targets of its edges, each cost is that of the last edge s->t (0 if none), and both adjacency matrices are true exactly on the edges |
| Graph.SourcesMembership | src/main/java/data/TaskGraph.java:38 | s is listed as a parent of t exactly when some edge goes s->t; on a simple edge list the list has no repeats |
| Graph.TargetsMembership | src/main/java/data/TaskGraph.java:39 | t is listed as a child of s exactly when some edge goes s->t; on a simple edge list the list has no repeats |
| Graph.CostOffEdges | src/main/java/data/TaskGraph.java:40 | a pair that is not an edge costs 0, and non-negative edge weights give non-negative costs |
| Graph.LastEdgeCost | src/main/java/data/TaskGraph.java:40 | on a simple edge list every edge's weight is the cost recorded for its pair |
| Graph.FromDotGraphWellFormed | src/main/java/data/TaskGraph.java:26-45 | a graph read from a simple edge list with non-negative weights is well formed, records every edge on both sides with its weight, and has exactly the edges of the input |
| Tasks.NewTask | src/main/java/data/Task.java:22-27 | the scheduling constructor keeps start, finish and processor, sets the duration to finish minus start, and leaves isIdle at its default true |
| Tasks.VisualTask | src/main/java/data/Task.java:35-40 | the visual constructor's finish time is start plus duration, and its processor stays at the default -1 |
| Tasks.CompareTo | src/main/java/data/Task.java:83-86 | the comparison is negative, zero or positive exactly when this task starts before, at the same time as, or after the other |
| Tasks.CompareToIsComparator | src/main/java/data/Task.java:83-86 | the order is antisymmetric and transitive, so it is a valid comparator |
| Processors.Processor.constructor | src/test/java/Processor.java:9-10 | a new processor has no occupied intervals |
| Processors.Processor.IsOccupied | src/test/java/Processor.java:17-31 | the answer is true exactly when [start, start+duration) overlaps some recorded interval |
| Processors.Processor.Add | src/test/java/Processor.java:39-42 | the interval [start, start+duration) is appended to the records and nothing else changes |
| Processors.EmptyNeverOccupied | src/test/java/Processor.java:17-31 | a processor with no records is never occupied |
| Processors.TouchingNotOccupied | src/test/java/Processor.java:25 | an interval that only touches a recorded one at an end point does not count as occupied (the test is strict) |
| Processors.AddedIsOccupied | src/test/java/Processor.java:39-42 | after a non-empty interval is added, asking about that same interval answers occupied |
| Processors.OccupiedAppend | src/test/java/Processor.java:21-28 | appending one interval makes a query occupied exactly when it was before or it overlaps the new interval |
| Validation.OccupiedIffOverlap | src/main/java/test/ValidateSolution.java:52-58 | after the first k entries are recorded, a processor reports occupied exactly when one of them on that processor overlaps the queried task |
| Validation.ParentsCompleteBeforeTaskAsWritten | src/main/java/test/ValidateSolution.java:98-115 | the helper as written answers true exactly when no parent satisfies "parent finish plus communication cost <= task start" |
| Validation.ParentsCompleteBeforeTask | src/main/java/test/ValidateSolution.java:98-115 | the intended check answers true exactly when every parent's finish plus its communication cost (0 on the same processor) is at most the task's start |
| Validation.BackToBackParentRejected | src/main/java/test/ValidateSolution.java:108 | a child starting exactly when its same-processor parent finishes is rejected by the helper as written and accepted by the intended check |
| Validation.EarlyChildRejected | src/main/java/test/ValidateSolution.java:98-115 | the intended check rejects a child that starts before its same-processor parent finishes |
| Validation.ParentCheckOfNoParents | src/main/java/test/ValidateSolution.java:98-115 | both versions accept a task without parents |
| Validation.FirstWithId | src/main/java/test/ValidateSolution.java:80-85 | the index found is the first at or after the start whose entry carries the id, or the length when none does |
| Validation.ParentsFound | src/main/java/test/ValidateSolution.java:79-86 | at most one parent per listed id, each from the solution and carrying a listed id |
| Validation.ParentsFoundAt | src/main/java/test/ValidateSolution.java:79-86 | when every listed id is carried by some entry, one parent is attached per id and the q-th is the first entry with the q-th id |
| Validation.FindParents | src/main/java/test/ValidateSolution.java:79-86 | the loop attaches exactly `ParentsFound`: per listed id in order, the first solution entry with that id, and nothing for an id no entry carries |
| Validation.NewProcessors | src/main/java/test/ValidateSolution.java:40-44 | the validator makes one fresh, empty and distinct Processor per processor index |
| Validation.RecordEntry | src/main/java/test/ValidateSolution.java:52-58 | the entry is reported occupied exactly when it overlaps an earlier entry on its processor; otherwise it is recorded |
| Validation.CheckEntry | src/main/java/test/ValidateSolution.java:47-86 | one entry passes exactly when it is present, on a free slot of its processor, and as long as its duration; a passing entry is recorded |
| Validation.CheckAll | src/main/java/test/ValidateSolution.java:46-88 | the loop accepts exactly when every entry passes in order |
| Validation.Validate | src/main/java/test/ValidateSolution.java:23-89 | validate returns exactly the verdict: empty solutions, wrong lengths, missing entries, overlaps and wrong durations are handled as the code does |
| Validation.EmptySolutionVerdict | src/main/java/test/ValidateSolution.java:24-31 | a null or empty solution is valid exactly when there are no durations, or none is given |
| Validation.DefectiveSolutionRejected | src/main/java/test/ValidateSolution.java:34-50 | a non-empty solution with a null entry, or a length different from the durations, is rejected |
| Validation.ValidMeansNoOverlap | src/main/java/test/ValidateSolution.java:46-87 | in an accepted solution every entry is present, two entries on one processor do not overlap, and each runs for its task's duration |
| Validation.PrecedenceNotChecked | src/main/java/test/ValidateSolution.java:60-86 | the verdict does not depend on the parent lists: parents are attached only after the check runs, so it sees none, and two tasks starting together on different processors are accepted whatever the parent lists say |
| Validation.ChainIsValid | src/test/Tester.java:49-57 | the chain a->b->c placed back to back on processor 0 is accepted, as the repository's test expects |
| Seqs.Sort | src/main/java/solution/helpers/PreProcessor.java:123-124 | sorting a neighbour list keeps its elements with their multiplicities |
| Seqs.SortAscending | src/main/java/solution/helpers/PreProcessor.java:123-124 | the sorted list is ascending |
| Schedules.PlaceOne | src/main/java/solution/SolutionSequential.java:171-181 | placing an unplaced task lowers the unplaced count by one, which is what makes each search and scheduler loop terminate |
| Schedules.Extend | src/main/java/solution/helpers/Greedy.java:77-91 | placing a task after everything on its processor, and after every parent's data has arrived, keeps the schedule feasible |
| Schedules.FeasibleClosed | src/main/java/solution/SolutionSequential.java:117-135 | in a feasible schedule every placed task has all of its parents placed |
| Schedules.AllPlaced | src/main/java/solution/helpers/Greedy.java:72-117 | on an acyclic graph, once no unplaced task is free, every task has been placed |
| Schedules.QueuedIsFree | src/main/java/solution/helpers/Greedy.java:74 | a task taken from the candidate queue is unplaced and has every parent placed |
| Schedules.TakeQueued | src/main/java/solution/helpers/Greedy.java:74-111 | taking a queued task out and placing it starts the release of its children with the rest of the queue intact |
| Frontiers.PendingZero | src/main/java/solution/helpers/Greedy.java:107-111 | no parent is pending exactly when every parent is placed |
| Frontiers.PendingPlace | src/main/java/solution/helpers/Greedy.java:107-108 | placing a task lowers the pending count of each child by exactly one and leaves other tasks' counts alone |
| Frontiers.PendingNone | src/main/java/solution/helpers/Greedy.java:63-69 | before anything is placed, a task's pending count is its number of parents |
| Frontiers.FreeMeansParentsPlaced | src/main/java/solution/SolutionSequential.java:107-114 | a task whose in-degree counter is 0 has every parent placed |
| Frontiers.ChildUnplaced | src/main/java/solution/SolutionSequential.java:190-196 | while a task is unplaced, none of its children is placed |
| Frontiers.NothingLeft | src/main/java/solution/helpers/Greedy.java:72 | on an acyclic graph, when every unplaced task still has a pending parent, no task is unplaced |
| Frontiers.StartRelease | src/main/java/solution/helpers/Greedy.java:94-111 | after a free task is taken from the queue and placed, its children can be released one by one |
| Frontiers.ReleaseStep | src/main/java/solution/helpers/Greedy.java:107-111 | decrementing one child's counter, and queueing it when the counter reaches 0, keeps the release invariant |
| Frontiers.FinishRelease | src/main/java/solution/helpers/Greedy.java:107-111 | once every child is processed, the counters again equal the pending parents and the queue is exactly the free unplaced tasks |
| Frontiers.InitialFrontier | src/main/java/solution/helpers/Greedy.java:63-69 | each in-degree counter starts at the number of parents, and the queue holds exactly the tasks without parents, in increasing id order |
| Frontiers.ReleaseChildren | src/main/java/solution/helpers/SequentialScheduler.java:54-58 | each child's counter drops by one, the old queue is kept as a prefix, and the children whose counter reached 0 are appended |
| Frontiers.ReleaseNext | src/main/java/solution/helpers/SequentialScheduler.java:54-58 | one iteration of the release loop extends the invariant from i children to i+1 |
| Frontiers.SoFarStep | src/main/java/solution/helpers/SequentialScheduler.java:55-57 | the counters after i+1 children are the starting ones minus one per processed child |
| Frontiers.LoweredStep | src/main/java/solution/helpers/SequentialScheduler.java:55 | a decrement of the i-th child keeps "the counter is the start minus one per processed child" |
| Frontiers.ReleaseChild | src/main/java/solution/SolutionSequential.java:107-114 | one child's counter drops by one and it is appended to the queue exactly when the counter reaches 0 |
| Frontiers.ReleaseOnlyChild | src/main/java/solution/SolutionSequential.java:433-441 | for a task with at most one child, the child is appended exactly when it became free, and the flag records that it was |
| Frontiers.CountStep | src/main/java/solution/SolutionSequential.java:110-112 | processing one more child adds one to the released count exactly when its counter is 0 |
| Frontiers.ZerosFrame | src/main/java/solution/SolutionSequential.java:190-196 | the released count depends only on the children's own counters |
| Frontiers.ZerosPrefix | src/main/java/solution/SolutionSequential.java:190-196 | a prefix of the children never releases more than all of them |
| Greedy.Poll | src/main/java/solution/helpers/Greedy.java:130-148 | FIFO order (the poll at line 74) takes the head; priority order takes the first element of smallest key (key times -1 when reversed) |
| Greedy.ChooseProcessor | src/main/java/solution/helpers/Greedy.java:77-85 | the chosen processor has the smallest earliest start for the task, and the first such processor is taken (strict comparison) |
| Greedy.RaiseChildren | src/main/java/solution/helpers/Greedy.java:94-105 | each child's row is raised to the finish time, plus the communication cost on other processors, and never lowered |
| Greedy.RaiseRow | src/main/java/solution/helpers/Greedy.java:95-104 | exactly one child's row changes, each entry becoming the max of its old value and the arrival time on that processor |
| Greedy.RaiseColumn | src/main/java/solution/helpers/Greedy.java:114-116 | the chosen processor's column is raised to at least the finish time, and no other column changes |
| Greedy.ScheduleNext | src/main/java/solution/helpers/Greedy.java:72-117 | one loop iteration keeps the schedule feasible and the table, frontier and finish time consistent, and places one more task |
| Greedy.NothingPlaced | src/main/java/solution/helpers/Greedy.java:55-69 | the empty schedule with a zero table and the initial queue satisfies the loop invariant |
| Greedy.PlaceGreedy | src/main/java/solution/helpers/Greedy.java:77-91 | placing the task at its table entry on the chosen processor keeps the schedule feasible and places one more task |
| Greedy.RaiseKeeps | src/main/java/solution/helpers/Greedy.java:94-116 | after both raises, every table entry is at least each busy processor's finish and at least the data-ready time from each placed parent |
| Greedy.RaiseLatest | src/main/java/solution/helpers/Greedy.java:89 | the running maximum of finish times stays the latest finish of a placed task |
| Greedy.ListSchedule | src/main/java/solution/helpers/Greedy.java:50-120 | the list scheduler, in either queue order, returns a feasible schedule whose reported time is its latest finish, with no free task left unplaced |
| Greedy.RunSchedule | src/main/java/solution/helpers/Greedy.java:50-120 | the FIFO heuristic returns a feasible schedule reporting its latest finish |
| Greedy.RunScheduleWithPriority | src/main/java/solution/helpers/Greedy.java:122-194 | the priority heuristic, forward or reversed, returns a feasible schedule reporting its latest finish |
| Greedy.Run | src/main/java/solution/helpers/Greedy.java:14-41 | on an acyclic graph, the five heuristic schedules are all feasible and complete, and the first one with the smallest finish time is returned |
| SequentialSchedulers.RunHead | src/main/java/solution/helpers/SequentialScheduler.java:45-59 | one iteration places the head task at the current finish time and keeps the single-processor invariant |
| SequentialSchedulers.AppendToOrder | src/main/java/solution/helpers/SequentialScheduler.java:47-50 | a task started at the current finish time extends the back-to-back chain of placed tasks |
| SequentialSchedulers.ChainPrefix | src/main/java/solution/helpers/SequentialScheduler.java:49 | the k-th task of the chain finishes at the sum of the first k durations |
| SequentialSchedulers.ChainSums | src/main/java/solution/helpers/SequentialScheduler.java:47-49 | each task starts at the sum of the durations before it, and the finish time is the sum over the chain |
| SequentialSchedulers.PlaceNext | src/main/java/solution/helpers/SequentialScheduler.java:47-50 | a free task placed on processor 0 at the current finish keeps the schedule feasible |
| SequentialSchedulers.GetSchedule | src/main/java/solution/helpers/SequentialScheduler.java:27-63 | the schedule is feasible on one processor, with tasks back to back in placement order, each starting at the sum of earlier durations, and the finish time their total |
| SequentialSchedulers.AcyclicSequential | src/main/java/solution/helpers/SequentialScheduler.java:44-62 | on an acyclic graph every task is placed and the finish time is the sum of all durations |
| SequentialSchedulers.SumIsOptimal | src/main/java/solution/helpers/SequentialScheduler.java:23-25 | optimality: every feasible one-processor schedule of all tasks finishes at or after the sum of all durations, the finish time the sequential schedule attains |
| SequentialSchedulers.FitsSum | src/main/java/solution/helpers/SequentialScheduler.java:23-25 | tasks that do not overlap on one processor inside [0, f] have durations summing to at most f |
| Fingerprints.GenerateHashCode | src/main/java/solution/helpers/PartialScheduleHashGenerator.java:26-48 | the result is the set of per-processor stacks of (task id, start time) pairs, in task-id order, over the scheduled tasks |
| Fingerprints.StackEntries | src/main/java/solution/helpers/PartialScheduleHashGenerator.java:36-41 | each stack alternates scheduled task ids on that processor with their start times |
| Fingerprints.StackIncreasing | src/main/java/solution/helpers/PartialScheduleHashGenerator.java:36 | task ids in a stack are strictly increasing |
| Fingerprints.StackEven | src/main/java/solution/helpers/PartialScheduleHashGenerator.java:38-39 | every stack has even length |
| Fingerprints.StackComplete | src/main/java/solution/helpers/PartialScheduleHashGenerator.java:36-41 | every scheduled task on the processor appears in its stack |
| Fingerprints.UnscheduledIgnored | src/main/java/solution/helpers/PartialScheduleHashGenerator.java:37 | the processor entries of unscheduled tasks do not affect the stacks |
| Fingerprints.RelabelStack | src/main/java/solution/helpers/PartialScheduleHashGenerator.java:36-41 | renumbering processors moves each stack to the renamed processor unchanged |
| Fingerprints.RelabelFingerprint | src/main/java/solution/helpers/PartialScheduleHashGenerator.java:43-46 | schedules that differ only by a permutation of processors have the same fingerprint, the point of the set of stacks |
| Fingerprints.FingerprintSize | src/main/java/solution/helpers/PartialScheduleHashGenerator.java:44-46 | a fingerprint holds at most one stack per processor |
| Fingerprints.NothingScheduled | src/main/java/solution/helpers/PartialScheduleHashGenerator.java:37 | with nothing scheduled the fingerprint is the single empty stack |
| Fingerprints.EmptyStack | src/main/java/solution/helpers/PartialScheduleHashGenerator.java:37 | with nothing scheduled each stack is empty |
| PartialSchedules.Int32 | src/main/java/solution/helpers/PartialSchedule.java:40 | Java int arithmetic: the value is in the 32-bit range and congruent to the input modulo 2^32 |
| PartialSchedules.Int32Add | src/main/java/solution/helpers/PartialSchedule.java:40 | wrapping an intermediate sum does not change the wrapped result |
| PartialSchedules.ListHash | src/main/java/solution/helpers/PartialSchedule.java:40 | a stack's List.hashCode is a 32-bit int |
| PartialSchedules.SetSumRemove | src/main/java/solution/helpers/PartialSchedule.java:40 | the Set.hashCode sum splits as one element's hash plus the rest's, so it does not depend on iteration order |
| PartialSchedules.HashCodeOf | src/main/java/solution/helpers/PartialSchedule.java:40 | iterating over the set and adding element hashes with wrap-around computes the set's hashCode |
| PartialSchedules.GenerateHashCode | src/main/java/solution/helpers/PartialSchedule.java:18-41 | the result is the 32-bit hashCode of the set of per-processor stacks |
| PartialSchedules.RelabelledSameHash | src/main/java/solution/helpers/PartialSchedule.java:35-40 | permuting processors leaves the hash unchanged |
| PartialSchedules.HashCollision | src/main/java/solution/helpers/PartialSchedule.java:40 | two different one-processor schedules (task 0 at 31, or task 1 at 0) get the same hash 992 |
| PartialSchedules.SingletonHash | src/main/java/solution/helpers/PartialSchedule.java:40 | a one-stack set hashes to the stack's own hash |
| PartialSchedules.PairHash | src/main/java/solution/helpers/PartialSchedule.java:40 | a two-element stack [a, b] with small entries hashes to 961 + 31a + b |
| PreProcessing.MaxChildBounds | src/main/java/solution/helpers/PreProcessor.java:55-58 | the running maximum over the first k children is at least 0, bounds each of them, and is attained unless it is 0 |
| PreProcessing.ExitTaskBLevel | src/main/java/solution/helpers/PreProcessor.java:48-52 | a task without children has its duration as b-level |
| PreProcessing.BLevelIsLongestPath | src/main/java/solution/helpers/PreProcessor.java:54-61 | a b-level is the task's duration plus the largest child b-level: at least that of every child path, and attained by one unless the task is an exit |
| PreProcessing.BLevels | src/main/java/solution/helpers/PreProcessor.java:41-62 | the memoised recursion returns the node's b-level, stores it, and keeps every earlier non-zero entry |
| PreProcessing.MaxLengthToExitNode | src/main/java/solution/helpers/PreProcessor.java:20-30 | the returned array holds every task's b-level, the longest duration path from it to an exit task |
| PreProcessing.EquivalentIsEquivalence | src/main/java/solution/helpers/PreProcessor.java:109-143 | task equivalence is reflexive, symmetric and transitive |
| PreProcessing.EquivalentMeansSameNeighbours | src/main/java/solution/helpers/PreProcessor.java:109-143 | two tasks are equivalent exactly when they have equal durations, the same parents and children, and equal costs on the corresponding edges |
| PreProcessing.SameGraphKeeps | src/main/java/solution/helpers/PreProcessor.java:123-133 | sorting the neighbour lists in place keeps the graph well formed, acyclic and with the same equivalences |
| PreProcessing.Compare | src/main/java/solution/helpers/PreProcessor.java:109-143 | compare answers true exactly when the tasks are equivalent; it changes at most a's and b's neighbour lists, each into its sorted copy, and when it answers true all four are sorted |
| PreProcessing.CompareChildren | src/main/java/solution/helpers/PreProcessor.java:132-142 | once durations and parents match, the children comparison decides equivalence |
| PreProcessing.SameNeighbours | src/main/java/solution/helpers/PreProcessor.java:125-131 | the index loop accepts exactly when the sorted lists are equal with equal edge costs; a rejection shows the tasks are not equivalent |
| PreProcessing.CompareAt | src/main/java/solution/helpers/PreProcessor.java:126-128 | equivalent tasks agree at every index of the sorted lists, neighbour and cost |
| PreProcessing.CompareMatch | src/main/java/solution/helpers/PreProcessor.java:141-142 | passing every check implies equivalence |
| PreProcessing.ResortedKept | src/main/java/solution/helpers/PreProcessor.java:123-133 | compare's reordering keeps each list or leaves it ascending |
| PreProcessing.KeptOrAscendingTrans | src/main/java/solution/helpers/PreProcessor.java:70-99 | two rounds of keeping or sorting are one |
| PreProcessing.RecordSorted | src/main/java/solution/helpers/PreProcessor.java:93-95 | recording a sorted class keeps every seen task with a partner sorted |
| PreProcessing.GetNodeEquivalence | src/main/java/solution/helpers/PreProcessor.java:70-99 | entry i lists exactly the tasks equivalent to i, includes i, and equivalent tasks share one list; in the returned graph both lists of every task with an equivalent partner are sorted, and every other list is kept or sorted |
| PreProcessing.NodeEquivalenceStep | src/main/java/solution/helpers/PreProcessor.java:75-96 | one outer iteration extends "classes recorded and seen for tasks below i, with the lists of every seen task that has a partner sorted" to i+1 |
| PreProcessing.NewClass | src/main/java/solution/helpers/PreProcessor.java:77-96 | for an unseen task, its class is built and recorded for every member, which keeps the outer loop's invariant and leaves the class's lists sorted |
| PreProcessing.ClassOf | src/main/java/solution/helpers/PreProcessor.java:78-89 | the class built for an unseen task starts with it and holds exactly its equivalent tasks, none of them seen; every list is kept or sorted, and with a second member all members' lists are sorted |
| PreProcessing.ScanStep | src/main/java/solution/helpers/PreProcessor.java:81-88 | the inner loop adds j exactly when j is not i and is equivalent to i |
| PreProcessing.NotEquivalentToSeen | src/main/java/solution/helpers/PreProcessor.java:83 | skipping seen tasks loses nothing: a seen task is not equivalent to an unseen one |
| PreProcessing.RecordMembers | src/main/java/solution/helpers/PreProcessor.java:92-95 | every member's entry becomes the class, other entries are untouched, and the members join the seen set |
| PreProcessing.RecordClass | src/main/java/solution/helpers/PreProcessor.java:92-95 | recording a class keeps every seen task's entry correct and grows the seen set to the tasks covered up to i+1 |
| PreProcessing.AllRecorded | src/main/java/solution/helpers/PreProcessor.java:98 | when every task is recorded, entry i is exactly i's equivalence class, shared by its members |
| States.SearchState.constructor | src/main/java/solution/SearchState.java:17-25 | the state keeps the arrays, candidate list and remaining duration it is given |
| States.SearchState.GetDeepCopy | src/main/java/solution/SearchState.java:32-53 | the copy has fresh, distinct arrays with the same contents (start times and processors cut to the task count), the same candidates and the same remaining duration |
| SearchRules.CeilDiv | src/main/java/solution/SolutionSequential.java:70 | the load-balanced time is the least integer q with q times the processor count at least the remaining work, i.e. Math.ceil of the quotient |
| SearchRules.IsPotentialOptimal | src/main/java/solution/SolutionSequential.java:540-551 | a branch is explored exactly when the load-balance bound, the critical-path bound and the latest processor finish are all below the best finish time |
| SearchRules.ViewAt | src/main/java/solution/SolutionSequential.java:242-251 | a task is in the schedule exactly when its start time is not -1, with finish equal to start plus duration on its recorded processor |
| SearchRules.ViewUpdate | src/main/java/solution/SolutionSequential.java:171-177 | writing a start time and processor for a task places exactly that task |
| SearchRules.ViewSameOn | src/main/java/solution/SolutionSequential.java:184-186 | the processor entries of unplaced tasks do not affect the schedule |
| SearchRules.SameOnAfterPlace | src/main/java/solution/SolutionSequential.java:184-186 | a stale processor entry left by backtracking is harmless |
| SearchRules.WorkPlace | src/main/java/solution/SolutionSequential.java:104 | placing a task lowers the remaining work by its duration |
| SearchRules.WorkNothingPlaced | src/main/java/solution/SolutionSequential.java:227 | with nothing placed the remaining work is the sum of all durations |
| SearchRules.ArrivalStart | src/main/java/solution/SolutionSequential.java:157-162 | the start on a processor is the larger of its finish time and the data arrival that applies to it: the max arrival, or the second max on the processor that caused the max |
| SearchRules.FirstIdle | src/main/java/solution/SolutionSequential.java:142-150 | the first processor whose finish time is 0, or the processor count when none is: every processor before it is busy |
| SearchRules.ArrivalsSuffice | src/main/java/solution/SolutionSequential.java:117-163 | a start time at least the processor's finish and at least the max arrival (the second max on the processor that caused it) meets every parent's data-ready time |
| SearchRules.PlaceCandidate | src/main/java/solution/SolutionSequential.java:158-177 | placing the candidate at such a start keeps the search invariant and places one more task |
| SearchRules.PlaceConsistent | src/main/java/solution/SolutionSequential.java:171-177 | the placement keeps the schedule feasible, processor finish times equal to their last task's finish, and the start non-negative |
| SearchRules.PlaceInView | src/main/java/solution/SolutionSequential.java:171-177 | the same, stated on the state arrays the search updates |
| SearchRules.ExtendAfterProcessor | src/main/java/solution/SolutionSequential.java:158-163 | starting after the processor's finish and all parents' data keeps the schedule feasible |
| SearchRules.BusyPlace | src/main/java/solution/SolutionSequential.java:174 | every placed task still finishes by its processor's new finish time |
| SearchRules.AttainedPlace | src/main/java/solution/SolutionSequential.java:174 | each non-zero processor finish time is still the finish of a task on it |
| SearchRules.FrontierRotate | src/main/java/solution/SolutionSequential.java:85-100 | moving the head candidate to the back (it is re-added at line 198) keeps the frontier and its multiset |
| SearchRules.FrontierPermutation | src/main/java/solution/SolutionSequential.java:82 | any reordering of the frontier, such as the sort by priority, is still the frontier |
| SearchRules.FinishedSchedule | src/main/java/solution/SolutionSequential.java:48-51 | when no candidate remains the schedule is complete, and the largest processor finish is its latest finish |
| SearchRules.CriticalPathBound | src/main/java/solution/SolutionSequential.java:79 | in a complete feasible schedule a task's start plus its b-level is at most the finish time |
| SearchRules.NecessaryForImprovement | src/main/java/solution/SolutionSequential.java:98-102 | for a state extendable to a better complete schedule, the critical-path and latest-finish checks pass, so only the load-balance check can prune it |
| SearchRules.FeasibleSameGraph | src/main/java/solution/SolutionSequential.java:213 | feasibility does not depend on the order of the neighbour lists that getNodeEquivalence sorts |
| SearchRules.InsertSorted | src/main/java/solution/SolutionSequential.java:340-378 | inserting into a list sorted by the two keys keeps it sorted |
| SearchRules.SortByKeysSorted | src/main/java/solution/SolutionSequential.java:340-378 | the two-key sort's output is sorted |
| SearchRules.SortByDataReadyTime | src/main/java/solution/SolutionSequential.java:340-378 | the sort by data-ready time is a permutation of the candidates |
| SearchRules.WithKeysAppend | src/main/java/solution/SolutionSequential.java:340-378 | picking the elements with one key pair distributes over concatenation |
| SearchRules.WithKeysNone | src/main/java/solution/SolutionSequential.java:340-378 | a list with no element of a key pair contributes nothing for it |
| SearchRules.InsertKeepsTies | src/main/java/solution/SolutionSequential.java:340-378 | insertion into a sorted list puts the new element after every element with its key pair |
| SearchRules.SortByKeysStable | src/main/java/solution/SolutionSequential.java:340-378 | the two-key sort is stable, as `List.sort` is: the elements with any one key pair keep their input order |
| SearchRules.DataReadyOrder | src/main/java/solution/SolutionSequential.java:340-378 | candidates come in non-decreasing data-ready time, ties broken by non-increasing out-edge cost |
| SearchRules.CostsOrdered | src/main/java/solution/SolutionSequential.java:309-326 | when each out-edge cost is at most the previous one, any later candidate's cost is at most an earlier one's |
| SearchRules.FtoTail | src/main/java/solution/SolutionSequential.java:417-441 | removing the head of a fork/join candidate list leaves one |
| SearchRules.EarliestStartOn | src/main/java/solution/SolutionSequential.java:559-574 | the start is at least the processor's finish and the first parent's data-ready time, and equals one of them |
| SearchRules.EarliestStartUnplaced | src/main/java/solution/SolutionSequential.java:559-574 | the candidate's own start-time entry does not affect its earliest start |
| SearchRules.EarliestStartSameOn | src/main/java/solution/SolutionSequential.java:559-574 | the processor entries of unplaced tasks do not affect a task's earliest start, so backtracking's stale entries are harmless |
| SearchRules.FtoStartSuffices | src/main/java/solution/SolutionSequential.java:457-458 | for a task with at most one parent, the earliest start meets every parent's data-ready time |
| SearchRules.SortByPriority | src/main/java/solution/SolutionSequential.java:82 | the priority sort is a permutation of the candidates |
| SearchRules.PriorityOrder | src/main/java/solution/SolutionSequential.java:82 | candidates come in non-decreasing priority |
| SearchRules.OneNeighbourSubset | src/main/java/solution/SolutionSequential.java:428-441 | a sub-list of single-neighbour candidates is single-neighbour |
| SearchRules.PlacedInRange | src/main/java/solution/SolutionSequential.java:395-400 | placed tasks sit on processors in range, so the fingerprint can index them |
| SearchRules.CandidateParentsPlaced | src/main/java/solution/SolutionSequential.java:117-135 | every parent of a candidate is placed on a processor in range |
| SearchRules.ArrivalsInView | src/main/java/solution/SolutionSequential.java:117-135 | arrival bounds computed on the arrays bound the parents' data-ready times in the schedule |
| SearchRules.PreparedReorder | src/main/java/solution/SolutionSequential.java:181 | reordering the next candidate list keeps the prepared state |
| Search.FindMaxInArray | src/main/java/solution/SolutionSequential.java:258-265 | the result is the largest entry, or Integer.MIN_VALUE for an empty array |
| Search.FinishTimeRange | src/main/java/solution/SolutionSequential.java:72-77 | the results are the smallest processor finish (Integer.MAX_VALUE when none) and the largest one (at least 0) |
| Search.CalculateLongestCriticalPath | src/main/java/solution/SolutionSequential.java:522-532 | the result is the largest b-level among the candidates, 0 for none |
| Search.DataArrivals | src/main/java/solution/SolutionSequential.java:117-135 | the maximum bounds every parent's arrival and is attained on the processor reported; the second value bounds the arrivals from every other processor |
| Search.Unlowered | src/main/java/solution/SolutionSequential.java:190-196 | decrementing and then incrementing the children's counters restores them |
| Search.RestoreChildren | src/main/java/solution/SolutionSequential.java:190-196 | each child's counter goes back up by one and the candidate list is the one before the release |
| Search.RestoreChild | src/main/java/solution/SolutionSequential.java:191-195 | one iteration restores one more child's counter and removes it from the list if it was released |
| Search.RestoredStep | src/main/java/solution/SolutionSequential.java:191-195 | the restore invariant carries from i children to i+1 |
| Search.CheckFtoShape | src/main/java/solution/SolutionSequential.java:275-301 | the shape loop accepts exactly when each candidate has at most one parent and one child, all children are the same task, and all parents are on the same processor |
| Search.TrackChild | src/main/java/solution/SolutionSequential.java:286-293 | a candidate either agrees with the common child so far, or disagrees with an earlier one |
| Search.TrackParent | src/main/java/solution/SolutionSequential.java:294-301 | a candidate either agrees with the common parent processor so far, or disagrees with an earlier one |
| Search.CheckOutCosts | src/main/java/solution/SolutionSequential.java:309-326 | the cost loop accepts exactly when the out-edge costs do not increase along the sorted list |
| Search.CountParents | src/main/java/solution/SolutionSequential.java:224-232 | the remaining duration is the sum of durations, each counter is the parent count, and the candidates are exactly the parentless tasks in increasing id order |
| Search.SolutionSequential.constructor | src/main/java/solution/SolutionSequential.java:24-26 | a new search keeps its graph and processor count, with every task unscheduled, every processor finish 0, the best arrays and processor array zero-filled, and nothing seen |
| Search.SolutionSequential.SetInitialSchedule | src/main/java/solution/Solution.java:84-85 | the initial schedule's finish time becomes the bound the search must beat |
| Search.SolutionSequential.Initialize | src/main/java/solution/SolutionSequential.java:206-234 | the state is the root of the search: counters are parent counts, candidates are the parentless tasks, and the remaining work is the total duration |
| Search.SolutionSequential.StartIsSearchState | src/main/java/solution/SolutionSequential.java:225-233 | the root state satisfies the search invariant |
| Search.SolutionSequential.Run | src/main/java/solution/SolutionSequential.java:32-37 | the output is never worse than the initial bound; when better, it is feasible, complete and finishes at its reported time; otherwise every task is reported at start 0 on processor 0 |
| Search.SolutionSequential.CreateOutput | src/main/java/solution/SolutionSequential.java:242-251 | the output has one task per id from the best arrays and the best finish time; once a schedule was found it is that schedule, and before that every task starts at 0 on processor 0 |
| Search.SolutionSequential.UpdateBestSchedule | src/main/java/solution/SolutionSequential.java:501-514 | the best finish becomes the minimum of itself and the current finish; on improvement the best arrays hold the current schedule, otherwise nothing changes |
| Search.SolutionSequential.RecordBest | src/main/java/solution/SolutionSequential.java:504-512 | a new best records the finish time and copies the current start times and processors |
| Search.SolutionSequential.CopyBest | src/main/java/solution/SolutionSequential.java:508-511 | the best arrays become copies of the current ones |
| Search.SolutionSequential.ToFtoList | src/main/java/solution/SolutionSequential.java:272-330 | an FTO order is returned exactly when the candidates form a fork/join and, sorted by data-ready time, have non-increasing out-edge costs; it is that sorted list |
| Search.SolutionSequential.RecursiveSearch | src/main/java/solution/SolutionSequential.java:44-201 | the search restores its state and keeps the candidates as a multiset; a leaf updates the best; an inner state's fingerprint is recorded; a seen state changes nothing |
| Search.SolutionSequential.VisitState | src/main/java/solution/SolutionSequential.java:53-57 | an inner state's fingerprint is added to the seen set; one already seen changes nothing |
| Search.SolutionSequential.ChooseSearch | src/main/java/solution/SolutionSequential.java:58-66 | the search takes the fixed-order branch or the general branch, and records the fingerprint either way |
| Search.SolutionSequential.SearchCandidates | src/main/java/solution/SolutionSequential.java:72-199 | the bounds are computed and every candidate tried, with the state restored and the candidates preserved as a multiset |
| Search.SolutionSequential.TryCandidates | src/main/java/solution/SolutionSequential.java:84-199 | the candidate loop restores the state after each candidate |
| Search.SolutionSequential.ExpandNext | src/main/java/solution/SolutionSequential.java:84-199 | one candidate is rotated to the back; a seen-equivalent or pruned candidate changes neither the best nor the seen set; an explored one adds its class to the seen tasks |
| Search.SolutionSequential.Expand | src/main/java/solution/SolutionSequential.java:89-199 | taking a candidate, exploring it on every processor and putting it back restores the state and the remaining candidates |
| Search.SolutionSequential.TakeCandidate | src/main/java/solution/SolutionSequential.java:89-128 | taking the head releases its children, takes its duration from the remaining work, and computes arrival bounds, leaving the placement arrays unchanged |
| Search.SolutionSequential.ExploreAndPutBack | src/main/java/solution/SolutionSequential.java:129-198 | after the processor loop the candidate is unplaced again, its children's counters and the remaining work are restored, and the candidate list is as before |
| Search.SolutionSequential.PutBackCandidate | src/main/java/solution/SolutionSequential.java:188-198 | putting back re-raises the children's counters, restores the remaining work, marks the task unscheduled and returns the earlier list |
| Search.SolutionSequential.ExploreProcessors | src/main/java/solution/SolutionSequential.java:139-187 | the candidate is placed on processor p exactly when p is busy or is the first idle processor, a child was released last round or p is not below the previous processor, and the later of p's finish time and the data arrival that applies to p, plus the candidate's bottom level, is below the best finish time at the start of turn p; those best finish times start at the old one and never go up; so of the idle processors at most the first is tried; the state is restored after the loop |
| Search.SolutionSequential.ExploreOnProcessor | src/main/java/solution/SolutionSequential.java:142-186 | a turn places the candidate exactly when the isomorphism rule, the duplicate-avoidance rule and the prune let it through, and then at the later of the processor's finish time and the applicable data arrival; a turn that does not place it changes nothing; the idle flag comes back set exactly when an idle processor has come up; the state is restored afterwards and the prepared state is kept for the next processor |
| Search.SolutionSequential.PlaceAndRecurse | src/main/java/solution/SolutionSequential.java:171-186 | the candidate is placed at its start, the search recurses, and everything but the candidate's own entry is restored |
| Search.SolutionSequential.PlacedSearching | src/main/java/solution/SolutionSequential.java:171-181 | the state after placing a candidate satisfies the search invariant, with one fewer unplaced task |
| Search.SolutionSequential.Recur | src/main/java/solution/SolutionSequential.java:178-186 | the recursive call followed by the backtrack restores the processor finish and the previous-processor fields |
| Search.SolutionSequential.Descend | src/main/java/solution/SolutionSequential.java:181 | the recursive call on the next list restores the state, and with a fixed order returns the list unchanged |
| Search.SolutionSequential.Place | src/main/java/solution/SolutionSequential.java:171-177 | the candidate's start and processor are written, and its processor's finish advances to its finish |
| Search.SolutionSequential.Unplace | src/main/java/solution/SolutionSequential.java:184-186 | the backtrack restores the processor's finish and the previous-processor fields |
| Search.SolutionSequential.GetFtoSchedule | src/main/java/solution/SolutionSequential.java:385-495 | the fixed-order search restores its state and records the fingerprint; a seen state changes nothing |
| Search.SolutionSequential.FtoAllPlaced | src/main/java/solution/SolutionSequential.java:389-415 | the fixed-order base case updates the best, and records the fingerprint |
| Search.SolutionSequential.VisitFto | src/main/java/solution/SolutionSequential.java:395-494 | the fingerprint of the fixed-order state is recorded; a seen one changes nothing |
| Search.SolutionSequential.FtoBounded | src/main/java/solution/SolutionSequential.java:404-425 | the bound check either prunes or explores, restoring the state |
| Search.SolutionSequential.FtoStep | src/main/java/solution/SolutionSequential.java:428-494 | taking the head, exploring it and putting it back restores the state |
| Search.SolutionSequential.TakeFtoHead | src/main/java/solution/SolutionSequential.java:428-441 | the head's child is appended when freed, its duration is removed from the remaining work, and the list stays single-neighbour unless a child was added |
| Search.SolutionSequential.FtoHeadFree | src/main/java/solution/SolutionSequential.java:428-441 | the head of the fixed-order list is unplaced, has at most one parent and one child, and its parent is placed |
| Search.SolutionSequential.FtoExploreAndPutBack | src/main/java/solution/SolutionSequential.java:443-494 | after the processor loop the head is unplaced again, with counters and remaining work restored |
| Search.SolutionSequential.PutBackFtoHead | src/main/java/solution/SolutionSequential.java:489-494 | putting back re-raises the child's counter, restores the remaining work and marks the head unscheduled |
| Search.SolutionSequential.FtoProcessors | src/main/java/solution/SolutionSequential.java:444-487 | the head is placed on processor p exactly when p is busy or is the first idle processor, and its earliest start on p plus its bottom level is below the best finish time at the start of turn p; those best finish times start at the old one and never go up; so of the idle processors at most the first is tried; the state is restored after the loop |
| Search.SolutionSequential.FtoOnProcessor | src/main/java/solution/SolutionSequential.java:447-486 | a turn places the head exactly when the isomorphism rule and the prune let it through, and then at its earliest start on the processor; a turn that does not place it changes nothing; the idle flag comes back set exactly when an idle processor has come up; the state is restored; without an added child the next list is passed unchanged |

## Left out

- The parallel search (`SolutionParallel`, `SolutionThread`) and the visualiser, GUI and
  progress plumbing: they are concurrency and I/O. This covers `updateStateCount`, `setDone`,
  `updateBestScheduleOnVisual`, `bestSchedule` and the visual state counter.
- Input and output (`Driver`, `IOParser`, GraphStream):
  - The graph-file constructor of `TaskGraph` is modelled as a fold over the edges entering each
    node (`Graph.FromDotGraph`).
  - Node and edge weights arrive as integers, without the `Double` to `int` conversion.
- The stale snapshot copies at the top of the source tree (`src/main/java/*.java`,
  `src/main/*.java`) duplicate the modelled files and are not part of this model.
- Fingerprints.GenerateHashCode: keeps each stack itself instead of Java's `Stack.hashCode()`.
  Its set of stacks therefore never collides, while the code's set of 32-bit hashes can.
  `PartialSchedules` models the concrete 32-bit hash and exhibits such a collision.
- 32-bit overflow of start times, finish times, durations and sums is not modelled (integers
  are unbounded). `Integer.MAX_VALUE` and `Integer.MIN_VALUE` appear as the constants
  `IntMax` and `IntMin`.
- SearchRules.CeilDiv: `Math.ceil` of a floating-point quotient is modelled as integer
  ceiling division, which agrees whenever the quotient is exact in a double.
- Search.SolutionSequential.Run: states feasibility and the bound, not global optimality of the
  returned schedule. The prune is proved sound only in part: `SearchRules.NecessaryForImprovement`
  shows that the critical-path and latest-finish checks never cut a branch that leads to a
  better schedule. The load-balance bound's soundness is not proved.
- `getParentsAdjacencyMatrix`/`getChildrenAdjacencyMatrix` are the datatype's fields and have
  no getters of their own.
- The `LinkedList` of candidates is a sequence value passed and returned, not a shared mutable
  list.
- Greedy, SequentialScheduler and `SolutionSequential.createOutput`
  (`solution/SolutionSequential.java:244-245`) call a three-argument `Task` constructor that does
  not exist in `data/Task.java`. All three are modelled with `Tasks.NewTask`;
  `Search.SolutionSequential.CreateOutput` is the last of them. Likewise `Greedy.run` calls
  `taskGraph.getDurations()`, which `data/TaskGraph.java` does not define (only the stale
  top-level `TaskGraph.java` does); the model reads the graph's `durations` field.
- `solution/State.java` and `solution/SolutionState.java` hold the same code as
  `solution/SearchState.java` under other class names; `States.SearchState` models all three.
- `ValidateSolution` works on a separate `main.Task` type (id, start, finish, processor), which
  is not part of this model. It is modelled as the `Validation.SolutionTask` record.
- Validation.Validate: parents are attached to a solution position, not to a shared `Task`
  object. A solution that lists the same object twice, where the second check would see the
  parents attached by the first, is not modelled.
- Validation.Validate: requires inputs on which the code throws no exception: processor indices
  in range, task ids within `inList` and the durations, and no null entry met while the code
  scans for a parent. The code would throw on such inputs instead of returning a verdict.
- Greedy.Poll: Java's `PriorityQueue` breaks ties between equal keys in an unspecified order.
  The model takes the first minimum in queue order.
- Search.SolutionSequential.Run: the search terminates by the number of unplaced tasks alone.
  Every recursive call's `decreases` is that count, paired with a constant that orders the
  mutually recursive methods; placing a task lowers it whatever the graph. The ghost `rank`
  argument (a topological rank) stands for the acyclicity that the code assumes of its input.
  It is needed for the bottom levels (`PreProcessing.BLevel`) and for `SearchRules.FinishedSchedule`,
  which shows that an empty candidate list means a complete schedule, not for termination.
- Validation.CheckEntry: calls the corrected parent check where line 60 calls the inverted one.
  The verdict is the same, because each entry's attached parent list is still empty when it is
  checked, and both checks accept an empty list (`Validation.ParentCheckOfNoParents`).
- Some preconditions exclude inputs on which the code throws instead of returning:
  `States.SearchState.GetDeepCopy` requires the task arrays to be at least as long as
  `inDegrees` (its copy loop, `solution/SearchState.java:39-43`, reads `taskStartTimes[i]` and
  `scheduledOn[i]` for every index of `inDegrees`, and Java throws
  `ArrayIndexOutOfBoundsException` otherwise), and `Search.SolutionSequential`'s
  constructor and the `Greedy` schedulers require at least one processor (with none, Java
  indexes an empty processor array).

## Findings

| source | as written | input that shows it | evidently intended | confidence | as-written member | corrected member |
|---|---|---|---|---|---|---|
| src/main/java/test/ValidateSolution.java:108 | the parent check fails when parent finish + communication cost <= child start, i.e. exactly when the precedence is satisfied | parent task 0 on processor 0 from 0 to 2, child task 1 on processor 0 from 2 to 4 | fail when parent finish + communication cost > child start | not executed | Validation.ParentsCompleteBeforeTaskAsWritten | Validation.ParentsCompleteBeforeTask |
