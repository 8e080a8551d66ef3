/** Model of Schedule.java: the assignment pairs, the input and consistency
    checks, the validating constructor and the makespan query. */
module Schedules {

  /** One assignment: task `id` runs on processor `p`. Ordered by `id`. The
      heuristic also reuses the pair as (duration, task index) before sorting. */
  datatype ScheduledTask = ScheduledTask(id: int, p: int)

  /** Outcome of a constructor that throws IllegalArgumentException. */
  datatype Result<T> = Ok(value: T) | IllegalArgument

  /** A constructed schedule: task durations, processor count, assignments. */
  datatype Schedule = Schedule(tasks: seq<int>, m: int, schedule: seq<ScheduledTask>)

  /** At least one processor, and every duration is a positive integer. */
  predicate ValidInputs(tasks: seq<int>, m: int) {
    m >= 1 && forall i :: 0 <= i < |tasks| ==> tasks[i] >= 1
  }

  /** Every entry names a task of `tasks`. */
  predicate IdsIn(tasks: seq<int>, s: seq<ScheduledTask>) {
    forall k :: 0 <= k < |s| ==> 0 <= s[k].id < |tasks|
  }

  /** Every task id lies in [0, n) and every processor id in [0, m). */
  predicate InBounds(n: int, m: int, s: seq<ScheduledTask>) {
    forall k :: 0 <= k < |s| ==> 0 <= s[k].id < n && 0 <= s[k].p < m
  }

  /** No task id occurs twice. */
  predicate DistinctIds(s: seq<ScheduledTask>) {
    forall j, k :: 0 <= j < k < |s| ==> s[j].id != s[k].id
  }

  predicate Occurs(s: seq<ScheduledTask>, t: int) {
    exists k :: 0 <= k < |s| && s[k].id == t
  }

  /** Every task id in [0, n) occurs. */
  predicate Covers(n: int, s: seq<ScheduledTask>) {
    forall t :: 0 <= t < n ==> Occurs(s, t)
  }

  /** What isConsistent accepts: bounds, no duplicate and no missing task. */
  predicate Consistent(tasks: seq<int>, m: int, s: seq<ScheduledTask>) {
    InBounds(|tasks|, m, s) && DistinctIds(s) && Covers(|tasks|, s)
  }

  /** The invariant of every Schedule object that the constructor lets through. */
  predicate Valid(sch: Schedule) {
    ValidInputs(sch.tasks, sch.m) && Consistent(sch.tasks, sch.m, sch.schedule)
  }

  /** Schedule.areValid: a scan with early return. */
  method AreValid(tasks: seq<int>, m: int) returns (ok: bool)
    ensures ok <==> ValidInputs(tasks, m)
  {
    if m < 1 {
      return false;
    }
    var k := 0;
    while k < |tasks|
      invariant 0 <= k <= |tasks|
      invariant forall j :: 0 <= j < k ==> tasks[j] >= 1
    {
      if tasks[k] < 1 {
        return false;
      }
      k := k + 1;
    }
    return true;
  }

  /** Schedule.isConsistent: marks each task id in an occupancy array, then
      checks that no mark is missing. The source then sorts a local copy and
      rebinds its own parameter, which leaves the caller's array as it was;
      sequences are values here, so that step has nothing to model. */
  method IsConsistent(tasks: seq<int>, m: int, schedule: seq<ScheduledTask>) returns (ok: bool)
    ensures ok <==> Consistent(tasks, m, schedule)
  {
    var maxTaskId := |tasks| - 1;
    var maxPid := m - 1;
    var seen := new int[|tasks|](_ => 0);
    var k := 0;
    while k < |schedule|
      invariant 0 <= k <= |schedule|
      invariant forall j :: 0 <= j < k ==> 0 <= schedule[j].id < |tasks| && 0 <= schedule[j].p < m
      invariant forall i, j :: 0 <= i < j < k ==> schedule[i].id != schedule[j].id
      invariant forall t :: 0 <= t < |tasks| ==>
                  (seen[t] != 0 <==> exists j :: 0 <= j < k && schedule[j].id == t)
    {
      var s := schedule[k];
      if s.id > maxTaskId || s.id < 0 || s.p > maxPid || s.p < 0 || seen[s.id] != 0 {
        if 0 <= s.id <= maxTaskId && 0 <= s.p <= maxPid {
          var j :| 0 <= j < k && schedule[j].id == s.id;
          assert schedule[j].id == schedule[k].id;
        }
        return false;
      }
      seen[s.id] := 1;
      k := k + 1;
    }
    var t := 0;
    while t < seen.Length
      invariant 0 <= t <= seen.Length
      invariant forall u :: 0 <= u < t ==> Occurs(schedule, u)
    {
      if seen[t] == 0 {
        assert !Occurs(schedule, t);
        return false;
      }
      t := t + 1;
    }
    return true;
  }

  /** The constructor of Schedule, which throws IllegalArgumentException when
      the inputs are not valid or the assignments are not consistent. */
  method NewSchedule(tasks: seq<int>, m: int, schedule: seq<ScheduledTask>) returns (r: Result<Schedule>)
    ensures r.Ok? <==> ValidInputs(tasks, m) && Consistent(tasks, m, schedule)
    ensures r.Ok? ==> r.value == Schedule(tasks, m, schedule)
  {
    var valid := AreValid(tasks, m);
    if !valid {
      return IllegalArgument;
    }
    var consistent := IsConsistent(tasks, m, schedule);
    if !consistent {
      return IllegalArgument;
    }
    return Ok(Schedule(tasks, m, schedule));
  }

  /** Total duration of the entries of `s` whose processor lies in [lo, hi). */
  function LoadIn(tasks: seq<int>, s: seq<ScheduledTask>, lo: int, hi: int): int
    requires IdsIn(tasks, s)
  {
    if s == [] then 0
    else
      var e := s[|s| - 1];
      LoadIn(tasks, s[..|s| - 1], lo, hi) + (if lo <= e.p < hi then tasks[e.id] else 0)
  }

  /** Total duration of the entries of `s` that run on processor `q`. */
  function Load(tasks: seq<int>, s: seq<ScheduledTask>, q: int): int
    requires IdsIn(tasks, s)
  {
    LoadIn(tasks, s, q, q + 1)
  }

  /** The per-processor load table of processors 0 .. m-1. */
  function Loads(tasks: seq<int>, m: nat, s: seq<ScheduledTask>): seq<int>
    requires IdsIn(tasks, s)
  {
    seq(m, q => Load(tasks, s, q))
  }

  /** The largest element, starting from 0 as the source's scan does. */
  function MaxOf(xs: seq<int>): (r: int)
    ensures 0 <= r
    ensures forall i :: 0 <= i < |xs| ==> xs[i] <= r
    ensures r == 0 || exists i :: 0 <= i < |xs| && xs[i] == r
  {
    if xs == [] then 0
    else
      var rest := MaxOf(xs[..|xs| - 1]);
      if xs[|xs| - 1] > rest then xs[|xs| - 1] else rest
  }

  /** The makespan: the load of the busiest processor, or 0 without entries. */
  function Makespan(sch: Schedule): (r: int)
    requires sch.m >= 0 && IdsIn(sch.tasks, sch.schedule)
    ensures 0 <= r
    ensures forall q :: 0 <= q < sch.m ==> Load(sch.tasks, sch.schedule, q) <= r
    ensures r == 0 || exists q :: 0 <= q < sch.m && Load(sch.tasks, sch.schedule, q) == r
    ensures sch.schedule == [] ==> r == 0
  {
    var loads := Loads(sch.tasks, sch.m, sch.schedule);
    assert forall q :: 0 <= q < sch.m ==> loads[q] == Load(sch.tasks, sch.schedule, q);
    MaxOf(loads)
  }

  /** Schedule.getMakespan: accumulates the load table, then scans it for its maximum. */
  method GetMakespan(sch: Schedule) returns (time: int)
    requires Valid(sch)
    ensures time == Makespan(sch)
  {
    var times := new int[sch.m](_ => 0);
    var i := 0;
    while i < |sch.schedule|
      invariant 0 <= i <= |sch.schedule|
      invariant forall q :: 0 <= q < sch.m ==> times[q] == Load(sch.tasks, sch.schedule[..i], q)
    {
      var s := sch.schedule[i];
      assert sch.schedule[..i + 1][..i] == sch.schedule[..i];
      times[s.p] := times[s.p] + sch.tasks[s.id];
      i := i + 1;
    }
    assert sch.schedule[..i] == sch.schedule;
    assert times[..] == Loads(sch.tasks, sch.m, sch.schedule);
    time := 0;
    var j := 0;
    while j < times.Length
      invariant 0 <= j <= times.Length
      invariant time == MaxOf(times[..j])
    {
      assert times[..j + 1][..j] == times[..j];
      if times[j] > time {
        time := times[j];
      }
      j := j + 1;
    }
    assert times[..j] == times[..];
  }
}
