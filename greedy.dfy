/** The greedy assignment at the heart of ScheduleGenerator.heuristicScheduling:
    tasks are taken in a given order and each goes to the first processor
    of least current load. */
module Greedy {
  import opened Schedules

  /** The `p` fields of `sorted`, read from its last element to its first. */
  function FromEnd(sorted: seq<ScheduledTask>): (order: seq<int>)
    ensures |order| == |sorted|
  {
    if sorted == [] then [] else [sorted[|sorted| - 1].p] + FromEnd(sorted[..|sorted| - 1])
  }

  /** Element i of FromEnd(sorted) is the `p` field of the i-th element from the end. */
  lemma {:induction false} FromEndAt(sorted: seq<ScheduledTask>, i: int)
    requires 0 <= i < |sorted|
    ensures FromEnd(sorted)[i] == sorted[|sorted| - 1 - i].p
  {
    if i > 0 {
      FromEndAt(sorted[..|sorted| - 1], i - 1);
    }
  }

  lemma FromEndIndex(sorted: seq<ScheduledTask>)
    ensures forall i :: 0 <= i < |sorted| ==> FromEnd(sorted)[i] == sorted[|sorted| - 1 - i].p
  {
    forall i | 0 <= i < |sorted| ensures FromEnd(sorted)[i] == sorted[|sorted| - 1 - i].p {
      FromEndAt(sorted, i);
    }
  }

  /** Every element of `order` indexes `tasks`. */
  predicate TaskIndices(tasks: seq<int>, order: seq<int>) {
    forall i :: 0 <= i < |order| ==> 0 <= order[i] < |tasks|
  }

  /** The scan of heuristicScheduling over processors[0 .. k): the first
      processor whose load is strictly below every earlier one's. */
  function ArgMinUpTo(loads: seq<int>, k: nat): (r: nat)
    requires 0 < |loads| && k <= |loads|
    ensures r < |loads| && (k > 0 ==> r < k)
    ensures forall q :: 0 <= q < k ==> loads[r] <= loads[q]
    ensures forall q :: 0 <= q < r ==> loads[r] < loads[q]
  {
    if k == 0 then 0
    else
      var r := ArgMinUpTo(loads, k - 1);
      if loads[k - 1] < loads[r] then k - 1 else r
  }

  /** The heuristic's state after assigning the first k tasks of `order`. */
  datatype GreedyState = GreedyState(schedule: seq<ScheduledTask>, loads: seq<int>)

  function GreedyRun(tasks: seq<int>, m: int, order: seq<int>, k: nat): (st: GreedyState)
    requires m >= 1 && k <= |order|
    requires TaskIndices(tasks, order)
    ensures |st.loads| == m && |st.schedule| == k
  {
    if k == 0 then GreedyState([], seq(m, _ => 0))
    else
      var prev := GreedyRun(tasks, m, order, k - 1);
      var p := ArgMinUpTo(prev.loads, m);
      var t := order[k - 1];
      GreedyState(prev.schedule + [ScheduledTask(t, p)], prev.loads[p := prev.loads[p] + tasks[t]])
  }

  /** Entry i of a run assigns task order[i], to a processor in [0, m). */
  lemma {:induction false} GreedyRunIds(tasks: seq<int>, m: int, order: seq<int>, k: nat)
    requires m >= 1 && k <= |order|
    requires TaskIndices(tasks, order)
    ensures var s := GreedyRun(tasks, m, order, k).schedule;
            forall i :: 0 <= i < k ==> s[i].id == order[i] && 0 <= s[i].p < m
  {
    if k > 0 {
      GreedyRunIds(tasks, m, order, k - 1);
      var prev := GreedyRun(tasks, m, order, k - 1);
      var s := GreedyRun(tasks, m, order, k).schedule;
      assert s[..k - 1] == prev.schedule;
    }
  }

  lemma LoadAppend(tasks: seq<int>, s: seq<ScheduledTask>, e: ScheduledTask, q: int)
    requires IdsIn(tasks, s) && 0 <= e.id < |tasks|
    ensures IdsIn(tasks, s + [e])
    ensures Load(tasks, s + [e], q) == Load(tasks, s, q) + (if e.p == q then tasks[e.id] else 0)
  {
    assert (s + [e])[..|s|] == s;
  }

  /** A table that agrees with every processor's load is the load table. */
  lemma LoadsFromEntries(tasks: seq<int>, m: nat, s: seq<ScheduledTask>, loads: seq<int>)
    requires IdsIn(tasks, s) && |loads| == m
    requires forall q :: 0 <= q < m ==> loads[q] == Load(tasks, s, q)
    ensures loads == Loads(tasks, m, s)
  {
  }

  /** The load table the heuristic keeps is the load table of what it has assigned. */
  lemma {:induction false} GreedyLoads(tasks: seq<int>, m: int, order: seq<int>, k: nat)
    requires m >= 1 && k <= |order|
    requires TaskIndices(tasks, order)
    ensures IdsIn(tasks, GreedyRun(tasks, m, order, k).schedule)
    ensures GreedyRun(tasks, m, order, k).loads == Loads(tasks, m, GreedyRun(tasks, m, order, k).schedule)
  {
    var st := GreedyRun(tasks, m, order, k);
    if k == 0 {
      assert st.loads == Loads(tasks, m, []);
    } else {
      var prev := GreedyRun(tasks, m, order, k - 1);
      GreedyLoads(tasks, m, order, k - 1);
      var p, t := ArgMinUpTo(prev.loads, m), order[k - 1];
      var e := ScheduledTask(t, p);
      assert st.schedule == prev.schedule + [e];
      LoadAppend(tasks, prev.schedule, e, p);
      forall q | 0 <= q < m ensures st.loads[q] == Load(tasks, st.schedule, q) {
        LoadAppend(tasks, prev.schedule, e, q);
      }
      LoadsFromEntries(tasks, m, st.schedule, st.loads);
    }
  }

  lemma {:induction false} GreedyPrefix(tasks: seq<int>, m: int, order: seq<int>, k: nat, l: nat)
    requires m >= 1 && k <= l <= |order|
    requires TaskIndices(tasks, order)
    ensures GreedyRun(tasks, m, order, l).schedule[..k] == GreedyRun(tasks, m, order, k).schedule
  {
    if k < l {
      var longer, shorter := GreedyRun(tasks, m, order, l).schedule, GreedyRun(tasks, m, order, l - 1).schedule;
      GreedyPrefix(tasks, m, order, k, l - 1);
      assert longer[..l - 1] == shorter;
      assert longer[..k] == longer[..l - 1][..k];
    }
  }

  /** The k-th assignment of a run of the heuristic goes to the first
      processor of least load among the assignments before it. */
  lemma GreedyRunChoice(tasks: seq<int>, m: int, order: seq<int>, k: nat)
    requires m >= 1 && k < |order| && TaskIndices(tasks, order)
    ensures var s := GreedyRun(tasks, m, order, |order|).schedule;
            IdsIn(tasks, s[..k]) && FirstMin(Loads(tasks, m, s[..k]), s[k].p)
  {
    var s := GreedyRun(tasks, m, order, |order|).schedule;
    var prev, next := GreedyRun(tasks, m, order, k), GreedyRun(tasks, m, order, k + 1);
    GreedyPrefix(tasks, m, order, k, |order|);
    GreedyPrefix(tasks, m, order, k + 1, |order|);
    GreedyLoads(tasks, m, order, k);
    var p := ArgMinUpTo(prev.loads, m);
    assert next.schedule[k].p == p;
    assert s[k] == s[..k + 1][k];
    ArgMinIsFirstMin(prev.loads, p);
  }

  /** `p` is the first processor of least load. */
  predicate FirstMin(loads: seq<int>, p: int) {
    && 0 <= p < |loads|
    && (forall q :: 0 <= q < |loads| ==> loads[p] <= loads[q])
    && (forall q :: 0 <= q < p ==> loads[p] < loads[q])
  }

  /** The scan picks the first processor of least load, and only it is one. */
  lemma ArgMinIsFirstMin(loads: seq<int>, p: int)
    requires 0 < |loads|
    ensures FirstMin(loads, ArgMinUpTo(loads, |loads|))
    ensures FirstMin(loads, p) ==> p == ArgMinUpTo(loads, |loads|)
  {
  }

  /** One step of the heuristic: the next task goes to the first least-loaded processor. */
  lemma GreedyStep(tasks: seq<int>, m: int, order: seq<int>, k: nat, p: int)
    requires m >= 1 && k < |order|
    requires TaskIndices(tasks, order)
    requires FirstMin(GreedyRun(tasks, m, order, k).loads, p)
    ensures var st := GreedyRun(tasks, m, order, k);
            GreedyRun(tasks, m, order, k + 1).schedule == st.schedule + [ScheduledTask(order[k], p)]
    ensures var st := GreedyRun(tasks, m, order, k);
            GreedyRun(tasks, m, order, k + 1).loads == st.loads[p := st.loads[p] + tasks[order[k]]]
  {
    ArgMinIsFirstMin(GreedyRun(tasks, m, order, k).loads, p);
  }

  /** The inner scan of heuristicScheduling over the processor loads: the
      first processor whose load is strictly below that of every processor
      before it. */
  method LeastLoaded(loads: seq<int>) returns (p: nat)
    requires |loads| > 0
    ensures FirstMin(loads, p)
  {
    p := 0;
    var processorId := 0;
    var lowestTime := loads[0];
    while processorId < |loads|
      invariant 0 <= processorId <= |loads|
      invariant p < |loads| && (p < processorId || p == 0)
      invariant lowestTime == loads[p]
      invariant forall q :: 0 <= q < processorId ==> lowestTime <= loads[q]
      invariant forall q :: 0 <= q < p ==> lowestTime < loads[q]
    {
      if loads[processorId] < lowestTime {
        lowestTime := loads[processorId];
        p := processorId;
      }
      processorId := processorId + 1;
    }
  }

  /** The main loop of heuristicScheduling: takes the tasks from the end of
      the sorted array and puts each on the first least-loaded processor,
      keeping the per-processor loads in an array. */
  method AssignFromEnd(tasks: seq<int>, m: int, sorted: seq<ScheduledTask>) returns (schedule: seq<ScheduledTask>)
    requires m >= 1 && |sorted| == |tasks| && TaskIndices(tasks, FromEnd(sorted))
    ensures schedule == GreedyRun(tasks, m, FromEnd(sorted), |tasks|).schedule
  {
    var n := |tasks|;
    var processors := new int[m](_ => 0);
    schedule := [];
    ghost var order := FromEnd(sorted);
    ghost var st := GreedyRun(tasks, m, order, 0);
    var i := 0;
    while i < n
      invariant 0 <= i <= n
      invariant st == GreedyRun(tasks, m, order, i)
      invariant forall q :: 0 <= q < m ==> processors[q] == st.loads[q]
      invariant schedule == st.schedule
    {
      var loads := processors[..];
      assert loads == st.loads;
      var p := LeastLoaded(loads);
      var t := sorted[n - 1 - i].p;
      FromEndAt(sorted, i);
      GreedyStep(tasks, m, order, i, p);
      schedule := schedule + [ScheduledTask(t, p)];
      processors[p] := processors[p] + tasks[t];
      st := GreedyRun(tasks, m, order, i + 1);
      i := i + 1;
    }
  }
}
