/** Properties of the consistency check and of the load table of Schedule.java. */
module ScheduleFacts {
  import opened Schedules

  // ---------------------------------------------------------------------
  // isConsistent depends only on the multiset of entries
  // ---------------------------------------------------------------------

  /** Consistency stated on a bag of entries: bounds, each entry once, one
      entry per task id, and every task id present. */
  ghost predicate ConsistentBag(tasks: seq<int>, m: int, b: multiset<ScheduledTask>) {
    && (forall e :: e in b ==> 0 <= e.id < |tasks| && 0 <= e.p < m)
    && (forall e :: e in b ==> b[e] == 1)
    && (forall e, f {:trigger b[e], b[f]} :: e in b && f in b && e.id == f.id ==> e == f)
    && (forall t :: 0 <= t < |tasks| ==> InBag(b, t))
  }

  ghost predicate InBag(b: multiset<ScheduledTask>, t: int) {
    exists e :: e in b && e.id == t
  }

  lemma {:induction false} DistinctAtMostOnce(s: seq<ScheduledTask>)
    requires DistinctIds(s)
    ensures forall e :: multiset(s)[e] <= 1
  {
    if s != [] {
      var init, last := s[..|s| - 1], s[|s| - 1];
      assert s == init + [last];
      DistinctAtMostOnce(init);
      forall j | 0 <= j < |init| ensures init[j] != last {
        assert s[j].id != s[|s| - 1].id;
      }
    }
  }

  lemma TwiceCounted(s: seq<ScheduledTask>, i: int, j: int)
    requires 0 <= i < j < |s| && s[i] == s[j]
    ensures multiset(s)[s[i]] >= 2
  {
    assert s == s[..j] + s[j..];
    assert s[i] in s[..j];
    assert s[j] == s[j..][0];
  }

  lemma ConsistentToBag(tasks: seq<int>, m: int, s: seq<ScheduledTask>)
    requires Consistent(tasks, m, s)
    ensures ConsistentBag(tasks, m, multiset(s))
  {
    var b := multiset(s);
    DistinctAtMostOnce(s);
    forall e | e in b ensures 0 <= e.id < |tasks| && 0 <= e.p < m && b[e] == 1 {
      assert e in s;
    }
    forall e, f {:trigger b[e], b[f]} | e in b && f in b && e.id == f.id ensures e == f {
      assert e in s && f in s;
      var i :| 0 <= i < |s| && s[i] == e;
      var j :| 0 <= j < |s| && s[j] == f;
      assert i == j;
    }
    forall t | 0 <= t < |tasks| ensures InBag(b, t) {
      assert Occurs(s, t);
      var k :| 0 <= k < |s| && s[k].id == t;
      assert s[k] in b;
    }
  }

  lemma BagToConsistent(tasks: seq<int>, m: int, s: seq<ScheduledTask>)
    requires ConsistentBag(tasks, m, multiset(s))
    ensures Consistent(tasks, m, s)
  {
    var b := multiset(s);
    forall k | 0 <= k < |s| ensures 0 <= s[k].id < |tasks| && 0 <= s[k].p < m {
      assert s[k] in b;
    }
    forall i, j | 0 <= i < j < |s| ensures s[i].id != s[j].id {
      if s[i].id == s[j].id {
        assert s[i] in b && s[j] in b;
        TwiceCounted(s, i, j);
      }
    }
    forall t | 0 <= t < |tasks| ensures Occurs(s, t) {
      assert InBag(b, t);
      var e :| e in b && e.id == t;
      assert e in s;
      var k :| 0 <= k < |s| && s[k] == e;
    }
  }

  lemma ConsistentIffBag(tasks: seq<int>, m: int, s: seq<ScheduledTask>)
    ensures Consistent(tasks, m, s) <==> ConsistentBag(tasks, m, multiset(s))
  {
    if Consistent(tasks, m, s) {
      ConsistentToBag(tasks, m, s);
    }
    if ConsistentBag(tasks, m, multiset(s)) {
      BagToConsistent(tasks, m, s);
    }
  }

  /** Permuting the assignment array does not change the verdict of isConsistent. */
  lemma ConsistentUnderPermutation(tasks: seq<int>, m: int, s: seq<ScheduledTask>, t: seq<ScheduledTask>)
    requires multiset(s) == multiset(t)
    ensures Consistent(tasks, m, s) <==> Consistent(tasks, m, t)
  {
    ConsistentIffBag(tasks, m, s);
    ConsistentIffBag(tasks, m, t);
  }

  // ---------------------------------------------------------------------
  // The task-to-processor map of a schedule
  // ---------------------------------------------------------------------

  /** The map from each task id to the processor of its (last) entry. */
  function Assignment(s: seq<ScheduledTask>): (r: map<int, int>)
    ensures forall t :: t in r <==> Occurs(s, t)
    ensures forall t :: t in r ==> exists k :: 0 <= k < |s| && s[k].id == t && s[k].p == r[t]
  {
    if s == [] then map[]
    else
      var init := s[..|s| - 1];
      var rest := Assignment(init);
      assert forall t :: Occurs(init, t) ==> Occurs(s, t) by {
        forall t | Occurs(init, t) ensures Occurs(s, t) {
          var k :| 0 <= k < |init| && init[k].id == t;
          assert s[k].id == t;
        }
      }
      assert forall t :: Occurs(s, t) ==> Occurs(init, t) || t == s[|s| - 1].id by {
        forall t | Occurs(s, t) ensures Occurs(init, t) || t == s[|s| - 1].id {
          var k :| 0 <= k < |s| && s[k].id == t;
          if k < |s| - 1 {
            assert init[k].id == t;
          }
        }
      }
      rest[s[|s| - 1].id := s[|s| - 1].p]
  }

  lemma {:induction false} AssignmentSize(s: seq<ScheduledTask>)
    requires DistinctIds(s)
    ensures |Assignment(s)| == |s|
  {
    if s != [] {
      var init := s[..|s| - 1];
      AssignmentSize(init);
      forall k | 0 <= k < |init| ensures init[k].id != s[|s| - 1].id {
        assert s[k].id != s[|s| - 1].id;
      }
      assert !Occurs(init, s[|s| - 1].id);
    }
  }

  /** The task ids 0 .. n-1 as a set. */
  function RangeSet(n: nat): (r: set<int>)
    ensures forall i :: i in r <==> 0 <= i < n
    ensures |r| == n
  {
    if n == 0 then {} else RangeSet(n - 1) + {n - 1}
  }

  /** A consistent array has exactly one entry per task: its length is n. */
  lemma ConsistentLength(tasks: seq<int>, m: int, s: seq<ScheduledTask>)
    requires Consistent(tasks, m, s)
    ensures |s| == |tasks|
  {
    AssignmentSize(s);
    assert Assignment(s).Keys == RangeSet(|tasks|);
  }

  /** Of a consistent array, the map covers exactly [0, n) with processors in [0, m). */
  lemma AssignmentOfConsistent(tasks: seq<int>, m: int, s: seq<ScheduledTask>)
    requires Consistent(tasks, m, s)
    ensures forall t :: t in Assignment(s) <==> 0 <= t < |tasks|
    ensures forall t :: t in Assignment(s) ==> 0 <= Assignment(s)[t] < m
  {
  }

  // ---------------------------------------------------------------------
  // Loads as sums over task ids
  // ---------------------------------------------------------------------

  /** Total duration of the tasks i < k that the map places in [lo, hi). */
  function AssignedWork(tasks: seq<int>, a: map<int, int>, lo: int, hi: int, k: nat): int
    requires k <= |tasks|
  {
    if k == 0 then 0
    else AssignedWork(tasks, a, lo, hi, k - 1) + (if k - 1 in a && lo <= a[k - 1] < hi then tasks[k - 1] else 0)
  }

  lemma {:induction false} AssignedWorkEmpty(tasks: seq<int>, lo: int, hi: int, k: nat)
    requires k <= |tasks|
    ensures AssignedWork(tasks, map[], lo, hi, k) == 0
  {
    if k > 0 {
      AssignedWorkEmpty(tasks, lo, hi, k - 1);
    }
  }

  lemma {:induction false} AssignedWorkExtend(tasks: seq<int>, a: map<int, int>, j: int, p: int, lo: int, hi: int, k: nat)
    requires k <= |tasks| && j !in a
    ensures AssignedWork(tasks, a[j := p], lo, hi, k)
         == AssignedWork(tasks, a, lo, hi, k) + (if 0 <= j < k && lo <= p < hi then tasks[j] else 0)
  {
    if k > 0 {
      AssignedWorkExtend(tasks, a, j, p, lo, hi, k - 1);
    }
  }

  /** With distinct ids, a load is a sum over task ids of the task-to-processor map. */
  lemma {:induction false} LoadInByAssignment(tasks: seq<int>, s: seq<ScheduledTask>, lo: int, hi: int)
    requires IdsIn(tasks, s) && DistinctIds(s)
    ensures LoadIn(tasks, s, lo, hi) == AssignedWork(tasks, Assignment(s), lo, hi, |tasks|)
  {
    if s == [] {
      AssignedWorkEmpty(tasks, lo, hi, |tasks|);
    } else {
      var init, e := s[..|s| - 1], s[|s| - 1];
      LoadInByAssignment(tasks, init, lo, hi);
      forall k | 0 <= k < |init| ensures init[k].id != e.id {
        assert s[k].id != e.id;
      }
      assert !Occurs(init, e.id);
      assert e.id !in Assignment(init);
      assert Assignment(s) == Assignment(init)[e.id := e.p];
      assert LoadIn(tasks, s, lo, hi) == LoadIn(tasks, init, lo, hi) + (if lo <= e.p < hi then tasks[e.id] else 0);
      AssignedWorkExtend(tasks, Assignment(init), e.id, e.p, lo, hi, |tasks|);
    }
  }

  /** Two arrays that place every task on the same processor have the same makespan. */
  lemma SameAssignmentSameMakespan(tasks: seq<int>, m: nat, s: seq<ScheduledTask>, t: seq<ScheduledTask>)
    requires IdsIn(tasks, s) && DistinctIds(s) && IdsIn(tasks, t) && DistinctIds(t)
    requires Assignment(s) == Assignment(t)
    ensures Loads(tasks, m, s) == Loads(tasks, m, t)
    ensures Makespan(Schedule(tasks, m, s)) == Makespan(Schedule(tasks, m, t))
  {
    forall q | 0 <= q < m ensures Load(tasks, s, q) == Load(tasks, t, q) {
      LoadInByAssignment(tasks, s, q, q + 1);
      LoadInByAssignment(tasks, t, q, q + 1);
    }
  }

  // ---------------------------------------------------------------------
  // Total work and the bounds on the makespan
  // ---------------------------------------------------------------------

  function SumOf(xs: seq<int>): int {
    if xs == [] then 0 else SumOf(xs[..|xs| - 1]) + xs[|xs| - 1]
  }

  lemma {:induction false} LoadInSplit(tasks: seq<int>, s: seq<ScheduledTask>, lo: int, mid: int, hi: int)
    requires IdsIn(tasks, s) && lo <= mid <= hi
    ensures LoadIn(tasks, s, lo, hi) == LoadIn(tasks, s, lo, mid) + LoadIn(tasks, s, mid, hi)
  {
    if s != [] {
      LoadInSplit(tasks, s[..|s| - 1], lo, mid, hi);
    }
  }

  lemma {:induction false} LoadsSum(tasks: seq<int>, s: seq<ScheduledTask>, k: nat)
    requires IdsIn(tasks, s)
    ensures SumOf(Loads(tasks, k, s)) == LoadIn(tasks, s, 0, k)
  {
    if k == 0 {
      LoadInSplit(tasks, s, 0, 0, 0);
    } else {
      var loads := Loads(tasks, k, s);
      LoadsSum(tasks, s, k - 1);
      assert loads[..k - 1] == Loads(tasks, k - 1, s);
      assert loads[k - 1] == Load(tasks, s, k - 1);
      assert SumOf(loads) == SumOf(loads[..k - 1]) + loads[k - 1];
      LoadInSplit(tasks, s, 0, k - 1, k);
    }
  }

  lemma {:induction false} AssignedWorkAll(tasks: seq<int>, a: map<int, int>, lo: int, hi: int, k: nat)
    requires k <= |tasks|
    requires forall i :: 0 <= i < k ==> i in a && lo <= a[i] < hi
    ensures AssignedWork(tasks, a, lo, hi, k) == SumOf(tasks[..k])
  {
    if k > 0 {
      AssignedWorkAll(tasks, a, lo, hi, k - 1);
      assert tasks[..k][..k - 1] == tasks[..k - 1];
    }
  }

  /** For a consistent array the load table adds up to the total duration. */
  lemma TotalLoad(tasks: seq<int>, m: nat, s: seq<ScheduledTask>)
    requires Consistent(tasks, m, s)
    ensures SumOf(Loads(tasks, m, s)) == SumOf(tasks)
  {
    LoadsSum(tasks, s, m);
    LoadInByAssignment(tasks, s, 0, m);
    AssignmentOfConsistent(tasks, m, s);
    AssignedWorkAll(tasks, Assignment(s), 0, m, |tasks|);
    assert tasks[..|tasks|] == tasks;
  }

  lemma {:induction false} LoadInNonnegative(tasks: seq<int>, s: seq<ScheduledTask>, lo: int, hi: int)
    requires IdsIn(tasks, s) && forall i :: 0 <= i < |tasks| ==> tasks[i] >= 0
    ensures LoadIn(tasks, s, lo, hi) >= 0
  {
    if s != [] {
      LoadInNonnegative(tasks, s[..|s| - 1], lo, hi);
    }
  }

  lemma {:induction false} MaxAtMostSum(xs: seq<int>)
    requires forall i :: 0 <= i < |xs| ==> xs[i] >= 0
    ensures MaxOf(xs) <= SumOf(xs)
  {
    if xs != [] {
      MaxAtMostSum(xs[..|xs| - 1]);
    }
  }

  lemma {:induction false} SumAtMostCountTimesMax(xs: seq<int>)
    ensures SumOf(xs) <= |xs| * MaxOf(xs)
  {
    if xs != [] {
      var init := xs[..|xs| - 1];
      SumAtMostCountTimesMax(init);
      StepBound(|init|, SumOf(init), MaxOf(init), xs[|xs| - 1], MaxOf(xs));
    }
  }

  lemma StepBound(n: nat, sum: int, max: int, last: int, top: int)
    requires sum <= n * max && max <= top && last <= top
    ensures sum + last <= (n + 1) * top
  {
    assert n * top - n * max == n * (top - max);
    assert (n + 1) * top == n * top + top;
  }

  /** For a consistent schedule of valid inputs, the makespan lies between the
      average load and the total work: utilization is at most 1. */
  lemma MakespanBounds(tasks: seq<int>, m: int, s: seq<ScheduledTask>)
    requires ValidInputs(tasks, m) && Consistent(tasks, m, s)
    ensures Makespan(Schedule(tasks, m, s)) <= SumOf(tasks)
    ensures Makespan(Schedule(tasks, m, s)) * m >= SumOf(tasks)
  {
    var loads := Loads(tasks, m, s);
    TotalLoad(tasks, m, s);
    forall q | 0 <= q < m ensures loads[q] >= 0 {
      LoadInNonnegative(tasks, s, q, q + 1);
    }
    assert Makespan(Schedule(tasks, m, s)) == MaxOf(loads);
    MaxAtMostSum(loads);
    SumAtMostCountTimesMax(loads);
  }
}
