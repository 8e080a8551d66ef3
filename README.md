# Makespan scheduling engine, modelled in Dafny

This project models the scheduling engine of a small Java program. The program assigns tasks to identical processors. Each task has a positive integer duration. The engine has two classes:

- `Schedule`: holds the durations, the processor count `m` and an array of `ScheduledTask(taskId, processorId)` pairs.
  - Its constructor throws `IllegalArgumentException` unless `areValid` and `isConsistent` accept the inputs.
  - `getMakespan` returns the load of the busiest processor.
- `ScheduleGenerator`: validates durations and `m` the same way.
  - `heuristicScheduling` builds a greedy longest-task-first schedule.
  - `getOptSchedule()` runs an exhaustive search for a schedule of minimum makespan. The search starts from the heuristic's schedule.

Modules, one per concern:

| module | file | what it holds |
|---|---|---|
| `Schedules` | `schedule.dfy` | The data model and the validators. Also `Schedule`'s constructor as a `Result`, and the makespan query. |
| `ScheduleFacts` | `schedule_facts.dfy` | Lemmas about consistency, assignments, loads and makespan bounds. |
| `StableSort` | `stable_sort.dfy` | The `Arrays.sort` call of the heuristic, as a stable sort by `id`. |
| `Greedy` | `greedy.dfy` | The heuristic's main loop over an `int[] processors` load array, and the function it is proved against. |
| `Symmetry` | `symmetry.dfy` | Canonical arrays and processor relabelling, which optimality rests on. |
| `Generators` | `generator.dfy` | `ScheduleGenerator`: its constructor, the heuristic, the recursive search and `getOptSchedule()`. |

Exceptions are modelled explicitly. A constructor that can throw `IllegalArgumentException` is a method returning `Result<T>` (`Ok(value)` or `IllegalArgument`), and its contract says exactly when each comes back.

Consistency follows the code. The class comment of `Schedule` and the comment above `isConsistent` describe a per-processor ordering rule. The code checks no such rule:

- `isConsistent` checks bounds, duplicate ids and missing ids.
- It then sorts a local copy and rebinds its own parameter. That changes neither the verdict nor the caller's array.

`Consistent` is therefore exactly bounds plus each task id in `[0, n)` exactly once. No ordering invariant is assumed or proved anywhere.

The search does no pruning. The load-based cut-off of `getOptSchedule` is commented out (ScheduleGenerator.java:135-145). Every branch is explored, and the only comparison is the one against `lowestYet` after each recursive call. The model follows that.

`ScheduledTask.java` is not part of this model. `ScheduledTask` is taken to be a pair `(id, p)` whose natural ordering compares `id` alone, which is what the sort comments at ScheduleGenerator.java:53 and Schedule.java:143 describe.

Two properties the model proves:

- `GetOptSchedule`'s result is never worse than any consistent array of the same tasks and processors.
- Its result is never worse than the heuristic's schedule.

The search's `lowestYet` is read once per call and not refreshed when `bestSchedule` is replaced, so a later branch can overwrite a better schedule found earlier in the same loop. The result is still optimal. `SearchStep` carries the loop invariant. `RelabelledCompletion` shows that renaming processors lets every schedule be matched by one whose last task runs on processor `m-1`, and that branch is tried last.

## Model

| member | source | states |
|---|---|---|
| Schedules.AreValid | Schedule.java:72-89 | Returns true exactly when `m >= 1` and every duration is at least 1. |
| Schedules.IsConsistent | Schedule.java:108-151 | Returns true exactly when three things hold. Every entry has a task id in `[0, n)` and a processor id in `[0, m)`. No task id occurs twice. Every task id in `[0, n)` occurs. Each failing case returns false. |
| Schedules.NewSchedule | Schedule.java:43-65 | The constructor succeeds exactly when the inputs are valid and the array is consistent. On success it stores the inputs unchanged. Otherwise it is `IllegalArgument`. |
| Schedules.MaxOf | Schedule.java:170-175 | The scan's result starts from 0. It is at least every element, and it is 0 or equal to one of the elements. |
| Schedules.Makespan | Schedule.java:159-179 | The makespan is at least every processor's load, and equals some processor's load or is 0. It is 0 for an empty schedule. |
| Schedules.GetMakespan | Schedule.java:159-179 | The two loops (accumulate the load array, then scan it for its maximum) return `Makespan`. |
| ScheduleFacts.ConsistentIffBag | Schedule.java:125-141 | Consistency in both directions is a property of the multiset of entries: each entry is in bounds and occurs once, ids are unique, and every task id is present. |
| ScheduleFacts.ConsistentUnderPermutation | Schedule.java:143-147 | Any reordering of the array, such as the local sort, leaves the verdict of `isConsistent` unchanged. |
| ScheduleFacts.ConsistentLength | Schedule.java:125-141 | An accepted array has exactly one entry per task. |
| ScheduleFacts.AssignmentOfConsistent | Schedule.java:125-141 | The map from task to processor of an accepted array is defined exactly on `[0, n)`, with values in `[0, m)`. |
| ScheduleFacts.AssignmentSize | Schedule.java:125-134 | With no duplicate ids, the map has one key per entry. |
| ScheduleFacts.SameAssignmentSameMakespan | Schedule.java:159-179 | Two arrays with the same task-to-processor map have the same load table and the same makespan, whatever their order. |
| ScheduleFacts.TotalLoad | Schedule.java:160-166 | The loads of an accepted schedule add up to the total duration of the tasks. |
| ScheduleFacts.MakespanBounds | Schedule.java:159-179 | For valid inputs and a consistent array, the makespan is at most the total duration and at least the total divided by m. |
| StableSort.SortById | ScheduleGenerator.java:54 | The sort returns a permutation of its input: the same multiset and the same length. |
| StableSort.SortSorted | ScheduleGenerator.java:54 | The result is in ascending order of `id`. |
| StableSort.SortStableOnIndexed | ScheduleGenerator.java:50-54 | Stability on the arrays the heuristic sorts. When the input lists its `p` values in strictly increasing order, as the (duration, index) array does, the result is ordered by `id` and then by `p`. So equal durations keep their input order, which fixes the sorted array uniquely. |
| Generators.NewGenerator | ScheduleGenerator.java:21-30 | It succeeds exactly when `areValid` accepts the inputs, then stores them unchanged. Otherwise it is `IllegalArgument`. |
| Generators.TakeOrderIsPermutation | ScheduleGenerator.java:49-71 | Taking the sorted (duration, index) array from its end visits every task index exactly once. |
| Generators.TakeOrderLongestFirst | ScheduleGenerator.java:49-71 | Tasks are taken in non-increasing order of duration. Among equal durations, the higher index is taken first. |
| Greedy.LeastLoaded | ScheduleGenerator.java:58-69 | The inner scan returns the first processor of least load. Its load is at most every other and strictly below every lower-indexed processor. |
| Greedy.ArgMinIsFirstMin | ScheduleGenerator.java:58-69 | The functional scan picks the first processor of least load, and it is the only processor with that property. |
| Greedy.GreedyStep | ScheduleGenerator.java:57-76 | One turn of the main loop appends the next task on the chosen processor and adds the task's duration to that processor's load, and nothing else. |
| Greedy.AssignFromEnd | ScheduleGenerator.java:57-76 | The main loop, over an `int[]` load array, returns exactly the array of the greedy run `GreedyRun` over the tasks taken from the end of the sorted array. |
| Greedy.GreedyRunIds | ScheduleGenerator.java:71-72 | Entry i of a run assigns the i-th task taken, to a processor in `[0, m)`. |
| Greedy.GreedyLoads | ScheduleGenerator.java:57-76 | The load array the loop keeps is always the load table of the entries assigned so far. |
| Greedy.GreedyPrefix | ScheduleGenerator.java:57-76 | A later turn never changes an entry written by an earlier one. |
| Greedy.GreedyRunChoice | ScheduleGenerator.java:58-72 | Entry k of a finished run goes to the first least-loaded processor of the entries before it. |
| Generators.GreedyChoice | ScheduleGenerator.java:58-72 | In the heuristic's schedule, task k goes to a processor in `[0, m)` whose load before it is minimal. Every lower-indexed processor's load is strictly greater. |
| Generators.LptConsistent | ScheduleGenerator.java:43-79 | The heuristic's array passes `isConsistent`, so the final `new Schedule` never throws. |
| Generators.LptLoadsAtExit | ScheduleGenerator.java:57-76 | At exit, the loop's loads add up to the total duration. Their maximum is the makespan of the returned schedule. |
| Generators.HeuristicScheduling | ScheduleGenerator.java:43-80 | It returns a valid schedule over the generator's tasks and `m`, whose array is the greedy longest-task-first array `LptSchedule`. |
| Generators.ExtendedCopy | ScheduleGenerator.java:123-133 | The copy holds the entries of the partial array in order, then the next task on processor p. |
| Generators.SearchStep | ScheduleGenerator.java:119-155 | After trying processor p, the kept schedule is no worse than any completion of the partial array whose next task runs on a processor up to p. This holds even though `lowestYet` is stale. |
| Generators.GetOptScheduleFrom | ScheduleGenerator.java:112-160 | The recursive search returns a valid schedule. It is no worse than the schedule passed in (when tasks remain), and no worse than any canonical completion of the partial array whose last task is on processor m-1. At the base case it is the partial array itself. |
| Generators.GetOptSchedule | ScheduleGenerator.java:85-103 | The result is valid and no worse than the heuristic's schedule. Its makespan is at most that of every consistent array of the same tasks and processors. With no tasks it is the empty schedule, of makespan 0. |
| Symmetry.CanonicalConsistent | ScheduleGenerator.java:113-115 | A complete canonical array (entry i assigns task i) passes `isConsistent`, so the search's base case never throws. |
| Symmetry.RelabelMakespan | Schedule.java:159-179 | Exchanging the names of two processors does not change the makespan. |
| Symmetry.CanonicalForm | ScheduleGenerator.java:122-133 | Every consistent array has a canonical array, of the shape the search builds, with the same makespan. |
| Symmetry.RelabelledCompletion | ScheduleGenerator.java:122-155 | Every consistent array of a non-empty task list is matched or beaten by a canonical complete array whose last task runs on processor m-1. |

## Left out

- `Schedule.getUtilization` and `Schedule.toString`: floating-point division and text rendering, outside the engine's logic.
- The `getOSchedule` overloads and the `MyInt` holder class of `ScheduleGenerator.java`: code the public `getOptSchedule()` never calls. Commented-out code is not modelled either.
- Java's 32-bit `int`: durations, loads and makespans are unbounded integers here, so sums that would overflow in Java are not modelled.
- Arrays passed to the constructors are stored by reference in Java. Here they are immutable sequences, so aliasing and later mutation by a caller are not modelled.
- `null` arrays and `null` entries are not modelled. The source dereferences them without a check.
- StableSort.SortStableOnIndexed: stability is proved only for inputs whose `p` values strictly increase, which is the one array the heuristic sorts. The general statement, that any two entries of equal `id` keep their relative order, is not stated.
- StableSort.SortById: `Arrays.sort` on objects is a library sort that Java guarantees to be stable. It is modelled by a stable insertion sort. Because the `id` ordering and stability fix the output, the two give the same array.
- Schedules.IsConsistent: the trailing sort of a local copy and the rebinding of the parameter have no effect on the caller or on the result, and are not modelled.
- Greedy.AssignFromEnd: the output `ScheduledTask[]` of the heuristic is built as a sequence. The processor-load array stays an `array<int>`. The inner scan reads a snapshot of that array, which it does not modify.
- Generators.ExtendedCopy: the copy into a fresh array inside the search loop is a separate method that returns the copied contents.
- Generators.GetOptSchedule: no bound on running time is stated. The search is exponential in the number of tasks, and only its result is specified.
