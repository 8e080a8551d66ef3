/** Model of ScheduleGenerator.java: the validating constructor, the greedy
    longest-task-first heuristic and the exhaustive search for a schedule of
    minimum makespan. */
module Generators {
  import opened Schedules
  import opened ScheduleFacts
  import opened StableSort
  import opened Symmetry
  import opened Greedy

  /** A generator holds the task durations and the processor count. */
  datatype Generator = Generator(tasks: seq<int>, m: int)

  /** The constructor of ScheduleGenerator: throws IllegalArgumentException
      unless Schedule.areValid accepts the inputs, and stores them unchanged. */
  method NewGenerator(tasks: seq<int>, m: int) returns (r: Result<Generator>)
    ensures r.Ok? <==> ValidInputs(tasks, m)
    ensures r.Ok? ==> r.value == Generator(tasks, m)
  {
    var valid := AreValid(tasks, m);
    if !valid {
      return IllegalArgument;
    }
    return Ok(Generator(tasks, m));
  }

  // ---------------------------------------------------------------------
  // The heuristic, as functions
  // ---------------------------------------------------------------------

  /** The heuristic's task array: task i wrapped as (duration, index), so the
      `id` field holds the duration and `p` the task index. */
  function Wrapped(tasks: seq<int>): seq<ScheduledTask> {
    seq(|tasks|, i requires 0 <= i < |tasks| => ScheduledTask(tasks[i], i))
  }

  /** Sorting keeps the entries of the wrapped array: each holds a task
      index and that task's duration. */
  lemma SortedWrappedEntries(tasks: seq<int>)
    ensures |SortById(Wrapped(tasks))| == |tasks|
    ensures forall k :: 0 <= k < |tasks| ==>
              var e := SortById(Wrapped(tasks))[k]; 0 <= e.p < |tasks| && e.id == tasks[e.p]
  {
    var w := Wrapped(tasks);
    var sorted := SortById(w);
    forall k | 0 <= k < |tasks| ensures 0 <= sorted[k].p < |tasks| && sorted[k].id == tasks[sorted[k].p] {
      assert sorted[k] in multiset(w);
    }
  }

  lemma SortedWrappedMembers(tasks: seq<int>)
    ensures forall i :: 0 <= i < |tasks| ==> Wrapped(tasks)[i] in SortById(Wrapped(tasks))
  {
    var w := Wrapped(tasks);
    var sorted := SortById(w);
    forall i | 0 <= i < |tasks| ensures w[i] in sorted {
      assert w[i] in multiset(sorted);
    }
  }

  /** The sorted wrapped array is in increasing order of (duration, index). */
  lemma SortedWrappedLex(tasks: seq<int>)
    ensures LexSorted(SortById(Wrapped(tasks)))
  {
    SortStableOnIndexed(Wrapped(tasks));
  }

  /** Task indices in the order the heuristic takes them: from the end of the
      array sorted by ascending duration. */
  function TakeOrder(tasks: seq<int>): (order: seq<int>)
    ensures |order| == |tasks|
    ensures TaskIndices(tasks, order)
  {
    SortedWrappedEntries(tasks);
    FromEndIndex(SortById(Wrapped(tasks)));
    FromEnd(SortById(Wrapped(tasks)))
  }

  /** The assignment array heuristicScheduling builds. */
  function LptSchedule(tasks: seq<int>, m: int): seq<ScheduledTask>
    requires m >= 1
  {
    GreedyRun(tasks, m, TakeOrder(tasks), |tasks|).schedule
  }

  // ---------------------------------------------------------------------
  // Properties of the heuristic
  // ---------------------------------------------------------------------

  lemma TakeOrderDistinct(tasks: seq<int>)
    ensures forall i, j :: 0 <= i < j < |tasks| ==> TakeOrder(tasks)[i] != TakeOrder(tasks)[j]
  {
    var n, order, sorted := |tasks|, TakeOrder(tasks), SortById(Wrapped(tasks));
    SortedWrappedEntries(tasks);
    SortedWrappedLex(tasks);
    FromEndIndex(sorted);
    forall i, j | 0 <= i < j < n ensures order[i] != order[j] {
      var a, b := sorted[n - 1 - j], sorted[n - 1 - i];
      assert Precedes(a, b);
    }
  }

  lemma TakeOrderCovers(tasks: seq<int>)
    ensures forall t :: 0 <= t < |tasks| ==> t in TakeOrder(tasks)
  {
    var n, order, sorted := |tasks|, TakeOrder(tasks), SortById(Wrapped(tasks));
    SortedWrappedMembers(tasks);
    forall t | 0 <= t < n ensures t in order {
      assert Wrapped(tasks)[t] in sorted;
      var k :| 0 <= k < n && sorted[k] == Wrapped(tasks)[t];
      assert sorted[k].p == t;
      FromEndAt(sorted, n - 1 - k);
      assert order[n - 1 - k] == t;
    }
  }

  /** The heuristic takes every task exactly once. */
  lemma TakeOrderIsPermutation(tasks: seq<int>)
    ensures forall i, j :: 0 <= i < j < |tasks| ==> TakeOrder(tasks)[i] != TakeOrder(tasks)[j]
    ensures forall t :: 0 <= t < |tasks| ==> t in TakeOrder(tasks)
  {
    TakeOrderDistinct(tasks);
    TakeOrderCovers(tasks);
  }

  /** Longest task first; among equal durations the highest index first. */
  lemma TakeOrderLongestFirst(tasks: seq<int>)
    ensures forall i, j :: 0 <= i < j < |tasks| ==>
              var a, b := TakeOrder(tasks)[i], TakeOrder(tasks)[j];
              tasks[a] > tasks[b] || (tasks[a] == tasks[b] && a > b)
  {
    var n, order, sorted := |tasks|, TakeOrder(tasks), SortById(Wrapped(tasks));
    SortedWrappedEntries(tasks);
    SortedWrappedLex(tasks);
    FromEndIndex(sorted);
    forall i, j | 0 <= i < j < n
      ensures tasks[order[i]] > tasks[order[j]] || (tasks[order[i]] == tasks[order[j]] && order[i] > order[j])
    {
      assert Precedes(sorted[n - 1 - j], sorted[n - 1 - i]);
    }
  }

  /** Each task goes to a processor of minimal current load, the lowest-indexed one among them. */
  lemma GreedyChoice(tasks: seq<int>, m: int, k: nat)
    requires m >= 1 && k < |tasks|
    ensures var s := LptSchedule(tasks, m);
            IdsIn(tasks, s[..k]) && 0 <= s[k].p < m
            && (forall q :: 0 <= q < m ==> Load(tasks, s[..k], s[k].p) <= Load(tasks, s[..k], q))
            && (forall q :: 0 <= q < s[k].p ==> Load(tasks, s[..k], s[k].p) < Load(tasks, s[..k], q))
  {
    var s := LptSchedule(tasks, m);
    GreedyRunChoice(tasks, m, TakeOrder(tasks), k);
    var loads := Loads(tasks, m, s[..k]);
    forall q | 0 <= q < m ensures loads[q] == Load(tasks, s[..k], q) {
    }
    assert FirstMin(loads, s[k].p);
  }

  /** The heuristic's array passes isConsistent, so the constructor call that
      ends heuristicScheduling never throws. */
  lemma LptConsistent(tasks: seq<int>, m: int)
    requires ValidInputs(tasks, m)
    ensures Consistent(tasks, m, LptSchedule(tasks, m))
  {
    var order, s := TakeOrder(tasks), LptSchedule(tasks, m);
    TakeOrderIsPermutation(tasks);
    GreedyRunIds(tasks, m, order, |tasks|);
    forall t | 0 <= t < |tasks| ensures Occurs(s, t) {
      assert t in order;
      var i :| 0 <= i < |tasks| && order[i] == t;
      assert s[i].id == t;
    }
  }

  /** At the end of the heuristic its load table adds up to the total
      duration, and its maximum is the makespan of the schedule returned. */
  lemma LptLoadsAtExit(tasks: seq<int>, m: int)
    requires ValidInputs(tasks, m)
    ensures var st := GreedyRun(tasks, m, TakeOrder(tasks), |tasks|);
            IdsIn(tasks, st.schedule)
            && SumOf(st.loads) == SumOf(tasks)
            && MaxOf(st.loads) == Makespan(Schedule(tasks, m, st.schedule))
  {
    var st := GreedyRun(tasks, m, TakeOrder(tasks), |tasks|);
    GreedyLoads(tasks, m, TakeOrder(tasks), |tasks|);
    LptConsistent(tasks, m);
    TotalLoad(tasks, m, st.schedule);
  }

  // ---------------------------------------------------------------------
  // The heuristic, as the source runs it
  // ---------------------------------------------------------------------

  /** ScheduleGenerator.heuristicScheduling. */
  method HeuristicScheduling(g: Generator) returns (r: Schedule)
    requires ValidInputs(g.tasks, g.m)
    ensures r == Schedule(g.tasks, g.m, LptSchedule(g.tasks, g.m))
    ensures Valid(r)
  {
    var n := |g.tasks|;
    var tasksArray := new ScheduledTask[n];
    var id := 0;
    while id < n
      invariant 0 <= id <= n
      invariant forall k :: 0 <= k < id ==> tasksArray[k] == ScheduledTask(g.tasks[k], k)
    {
      tasksArray[id] := ScheduledTask(g.tasks[id], id);
      id := id + 1;
    }
    assert tasksArray[..] == Wrapped(g.tasks);
    // Arrays.sort: stable, ascending by the `id` field, which holds the duration
    var sorted := SortById(tasksArray[..]);
    assert FromEnd(sorted) == TakeOrder(g.tasks);
    var schedule := AssignFromEnd(g.tasks, g.m, sorted);
    LptConsistent(g.tasks, g.m);
    var res := NewSchedule(g.tasks, g.m, schedule);
    r := res.value;
  }

  // ---------------------------------------------------------------------
  // The exhaustive search
  // ---------------------------------------------------------------------

  /** One turn of the search loop: after trying processor p for the next
      task, the kept schedule is no worse than every completion that puts
      that task on a processor up to p. `prev` is the schedule kept before the
      turn, `next` the one the recursive call returned. */
  lemma SearchStep(tasks: seq<int>, m: int, partial: seq<ScheduledTask>, p: int,
                   prev: Schedule, next: Schedule, best: Schedule)
    requires ValidInputs(tasks, m) && |partial| < |tasks| && 0 <= p < m
    requires Valid(prev) && prev.tasks == tasks && prev.m == m
    requires Valid(next) && next.tasks == tasks && next.m == m
    requires best == prev || best == next
    requires best == next || Makespan(prev) <= Makespan(next)
    requires |partial| + 1 < |tasks| ==> Makespan(next) <= Makespan(prev)
    requires forall c: seq<ScheduledTask> :: Completes(tasks, m, partial, c) && c[|partial|].p < p ==>
               Makespan(prev) <= Makespan(Schedule(tasks, m, c))
    requires forall c :: Completes(tasks, m, partial + [ScheduledTask(|partial|, p)], c) ==>
               Makespan(next) <= Makespan(Schedule(tasks, m, c))
    ensures forall c: seq<ScheduledTask> :: Completes(tasks, m, partial, c) && c[|partial|].p <= p ==>
              Makespan(best) <= Makespan(Schedule(tasks, m, c))
  {
    var task := |partial|;
    var extended := partial + [ScheduledTask(task, p)];
    forall c: seq<ScheduledTask> | Completes(tasks, m, partial, c) && c[task].p <= p
      ensures Makespan(best) <= Makespan(Schedule(tasks, m, c))
    {
      if c[task].p == p {
        assert Completes(tasks, m, extended, c);
      } else {
        assert task + 1 < |tasks|;
      }
    }
  }

  /** The copy the search makes before each branch: a fresh array one longer
      than `partial`, holding copies of its entries and then the next task
      on processor p. */
  method ExtendedCopy(partial: seq<ScheduledTask>, p: int) returns (extended: seq<ScheduledTask>)
    ensures extended == partial + [ScheduledTask(|partial|, p)]
  {
    var task := |partial|;
    var currentScheduledTasks := new ScheduledTask[task + 1];
    var i := 0;
    while i < task
      invariant 0 <= i <= task
      invariant forall k :: 0 <= k < i ==> currentScheduledTasks[k] == partial[k]
    {
      var id := partial[i].id;
      var processor := partial[i].p;
      currentScheduledTasks[i] := ScheduledTask(id, processor);
      i := i + 1;
    }
    currentScheduledTasks[task] := ScheduledTask(task, p);
    extended := currentScheduledTasks[..];
  }

  /** The private recursive getOptSchedule(task, schedule, bestSchedule).
      `lowestYet` is read once per call and not refreshed when `best` is
      replaced, so a later branch may overwrite a better one; the result is
      still no worse than any completion whose last task is on processor m-1,
      because that branch is tried last. */
  method GetOptScheduleFrom(g: Generator, task: nat, partial: seq<ScheduledTask>, bestSchedule: Schedule)
    returns (r: Schedule)
    requires ValidInputs(g.tasks, g.m)
    requires task <= |g.tasks| && |partial| == task && Canonical(g.m, partial)
    requires Valid(bestSchedule) && bestSchedule.tasks == g.tasks && bestSchedule.m == g.m
    ensures Valid(r) && r.tasks == g.tasks && r.m == g.m
    ensures task == |g.tasks| ==> r.schedule == partial
    ensures task < |g.tasks| ==> Makespan(r) <= Makespan(bestSchedule)
    ensures forall c :: Completes(g.tasks, g.m, partial, c) ==>
              Makespan(r) <= Makespan(Schedule(g.tasks, g.m, c))
    decreases |g.tasks| - task
  {
    if task == |g.tasks| {
      CanonicalConsistent(g.tasks, g.m, partial);
      var res := NewSchedule(g.tasks, g.m, partial);
      r := res.value;
      forall c | Completes(g.tasks, g.m, partial, c)
        ensures Makespan(r) <= Makespan(Schedule(g.tasks, g.m, c))
      {
        assert c == partial;
      }
      return;
    }
    var best := bestSchedule;
    var lowestYet := GetMakespan(best);
    var p := 0;
    while p < g.m
      invariant 0 <= p <= g.m
      invariant Valid(best) && best.tasks == g.tasks && best.m == g.m
      invariant Makespan(best) <= lowestYet
      invariant forall c: seq<ScheduledTask> :: Completes(g.tasks, g.m, partial, c) && c[task].p < p ==>
                  Makespan(best) <= Makespan(Schedule(g.tasks, g.m, c))
    {
      var currentScheduledTasks := ExtendedCopy(partial, p);
      ghost var previous := best;
      var nextSchedule := GetOptScheduleFrom(g, task + 1, currentScheduledTasks, best);
      var nextSpan := GetMakespan(nextSchedule);
      if nextSpan < lowestYet {
        best := nextSchedule;
      }
      SearchStep(g.tasks, g.m, partial, p, previous, nextSchedule, best);
      p := p + 1;
    }
    r := best;
  }

  /** ScheduleGenerator.getOptSchedule(): the search seeded with the heuristic. */
  method GetOptSchedule(g: Generator) returns (r: Schedule)
    requires ValidInputs(g.tasks, g.m)
    ensures Valid(r) && r.tasks == g.tasks && r.m == g.m
    ensures Consistent(g.tasks, g.m, LptSchedule(g.tasks, g.m))
            && Makespan(r) <= Makespan(Schedule(g.tasks, g.m, LptSchedule(g.tasks, g.m)))
    ensures forall t :: Consistent(g.tasks, g.m, t) ==>
              Makespan(r) <= Makespan(Schedule(g.tasks, g.m, t))
    ensures |g.tasks| == 0 ==> r.schedule == [] && Makespan(r) == 0
  {
    var schedule: seq<ScheduledTask> := [];
    var bestSchedule := HeuristicScheduling(g);
    r := GetOptScheduleFrom(g, 0, schedule, bestSchedule);
    forall t | Consistent(g.tasks, g.m, t)
      ensures Makespan(r) <= Makespan(Schedule(g.tasks, g.m, t))
    {
      if |g.tasks| > 0 {
        RelabelledCompletion(g.tasks, g.m, t);
      }
    }
  }
}
