/** Canonical assignment arrays and the processor-relabelling symmetry that
    the optimality of the exhaustive search rests on. */
module Symmetry {
  import opened Schedules
  import opened ScheduleFacts

  /** Entry i assigns task i, to a processor in [0, m): the shape of the
      partial arrays the exhaustive search builds. */
  predicate Canonical(m: int, c: seq<ScheduledTask>) {
    forall i :: 0 <= i < |c| ==> c[i].id == i && 0 <= c[i].p < m
  }

  /** `c` is a complete canonical array extending `partial` whose last task
      runs on the last processor, m-1. */
  ghost predicate Completes(tasks: seq<int>, m: int, partial: seq<ScheduledTask>, c: seq<ScheduledTask>) {
    && |c| == |tasks|
    && |partial| <= |c|
    && Canonical(m, c)
    && (forall i :: 0 <= i < |partial| ==> c[i] == partial[i])
    && (|c| > 0 ==> c[|c| - 1].p == m - 1)
  }

  lemma CanonicalConsistent(tasks: seq<int>, m: int, c: seq<ScheduledTask>)
    requires |c| == |tasks| && Canonical(m, c)
    ensures Consistent(tasks, m, c)
  {
    forall t | 0 <= t < |tasks| ensures Occurs(c, t) {
      assert c[t].id == t;
    }
  }

  /** Swaps the names of processors a and b. */
  function Swap(q: int, a: int, b: int): int {
    if q == a then b else if q == b then a else q
  }

  /** The same array with processors a and b exchanged. */
  function Relabel(s: seq<ScheduledTask>, a: int, b: int): seq<ScheduledTask> {
    seq(|s|, k requires 0 <= k < |s| => ScheduledTask(s[k].id, Swap(s[k].p, a, b)))
  }

  lemma {:induction false} RelabelLoad(tasks: seq<int>, s: seq<ScheduledTask>, a: int, b: int, q: int)
    requires IdsIn(tasks, s)
    ensures IdsIn(tasks, Relabel(s, a, b))
    ensures Load(tasks, Relabel(s, a, b), Swap(q, a, b)) == Load(tasks, s, q)
  {
    var r := Relabel(s, a, b);
    if s != [] {
      var init := s[..|s| - 1];
      RelabelLoad(tasks, init, a, b, q);
      assert r[..|r| - 1] == Relabel(init, a, b);
    }
  }

  /** After exchanging processors a and b, processor q carries what Swap(q, a, b) carried. */
  lemma RelabelLoads(tasks: seq<int>, s: seq<ScheduledTask>, a: int, b: int)
    requires IdsIn(tasks, s)
    ensures IdsIn(tasks, Relabel(s, a, b))
    ensures forall q :: Load(tasks, Relabel(s, a, b), q) == Load(tasks, s, Swap(q, a, b))
  {
    RelabelLoad(tasks, s, a, b, 0);
    forall q ensures Load(tasks, Relabel(s, a, b), q) == Load(tasks, s, Swap(q, a, b)) {
      RelabelLoad(tasks, s, a, b, Swap(q, a, b));
      assert Swap(Swap(q, a, b), a, b) == q;
    }
  }

  /** Exchanging two processor names does not change the makespan. */
  lemma RelabelMakespan(tasks: seq<int>, m: nat, s: seq<ScheduledTask>, a: int, b: int)
    requires IdsIn(tasks, s) && 0 <= a < m && 0 <= b < m
    ensures IdsIn(tasks, Relabel(s, a, b))
    ensures Makespan(Schedule(tasks, m, Relabel(s, a, b))) == Makespan(Schedule(tasks, m, s))
  {
    var r := Relabel(s, a, b);
    RelabelLoads(tasks, s, a, b);
    var before, after := Makespan(Schedule(tasks, m, s)), Makespan(Schedule(tasks, m, r));
    if before != 0 {
      var q :| 0 <= q < m && Load(tasks, s, q) == before;
      assert Swap(Swap(q, a, b), a, b) == q;
      assert Load(tasks, r, Swap(q, a, b)) == before;
    }
    if after != 0 {
      var q :| 0 <= q < m && Load(tasks, r, q) == after;
      assert Load(tasks, s, Swap(q, a, b)) == after;
    }
  }

  /** A canonical array's map sends task i to entry i's processor... */
  lemma AssignmentOfCanonicalAt(m: int, c: seq<ScheduledTask>, i: int)
    requires Canonical(m, c) && 0 <= i < |c|
    ensures i in Assignment(c) && Assignment(c)[i] == c[i].p
  {
    assert c[i].id == i;
    assert Occurs(c, i);
    var k :| 0 <= k < |c| && c[k].id == i && c[k].p == Assignment(c)[i];
    assert k == i;
  }

  /** ... and is defined on the entries' indices only. */
  lemma AssignmentOfCanonicalKeys(m: int, c: seq<ScheduledTask>, j: int)
    requires Canonical(m, c) && j in Assignment(c)
    ensures 0 <= j < |c|
  {
    var k :| 0 <= k < |c| && c[k].id == j;
  }

  /** The map of a canonical array sends task i to entry i's processor. */
  lemma AssignmentOfCanonical(m: int, c: seq<ScheduledTask>, a: map<int, int>)
    requires Canonical(m, c)
    requires forall i :: 0 <= i < |c| ==> i in a && c[i].p == a[i]
    requires forall i :: i in a ==> 0 <= i < |c|
    ensures Assignment(c) == a
  {
    var b := Assignment(c);
    forall i | i in a ensures i in b && b[i] == a[i] {
      AssignmentOfCanonicalAt(m, c, i);
    }
    forall j | j in b ensures j in a {
      AssignmentOfCanonicalKeys(m, c, j);
    }
    assert forall k :: k in b ==> b[k] == a[k];
  }

  /** Every consistent array assigns its tasks as some canonical array does. */
  lemma CanonicalOf(tasks: seq<int>, m: nat, t: seq<ScheduledTask>) returns (c: seq<ScheduledTask>)
    requires Consistent(tasks, m, t)
    ensures |c| == |tasks| && Canonical(m, c)
    ensures Assignment(c) == Assignment(t)
  {
    var a := Assignment(t);
    AssignmentOfConsistent(tasks, m, t);
    c := seq(|tasks|, i requires 0 <= i < |tasks| => ScheduledTask(i, a[i]));
    AssignmentOfCanonical(m, c, a);
  }

  /** Every consistent array has a canonical array with the same makespan. */
  lemma CanonicalForm(tasks: seq<int>, m: nat, t: seq<ScheduledTask>) returns (c: seq<ScheduledTask>)
    requires Consistent(tasks, m, t)
    ensures |c| == |tasks| && Canonical(m, c)
    ensures Makespan(Schedule(tasks, m, c)) == Makespan(Schedule(tasks, m, t))
  {
    c := CanonicalOf(tasks, m, t);
    CanonicalConsistent(tasks, m, c);
    SameAssignmentSameMakespan(tasks, m, c, t);
  }

  /** The relabelling argument: every consistent array of a non-empty task
      list is matched or beaten by a canonical complete array whose last task
      runs on processor m-1, the last one the search tries. */
  lemma RelabelledCompletion(tasks: seq<int>, m: int, t: seq<ScheduledTask>)
    requires ValidInputs(tasks, m) && Consistent(tasks, m, t) && |tasks| > 0
    ensures exists c :: Completes(tasks, m, [], c)
                     && Makespan(Schedule(tasks, m, c)) <= Makespan(Schedule(tasks, m, t))
  {
    var c := CanonicalForm(tasks, m, t);
    var n := |c|;
    var r := Relabel(c, c[n - 1].p, m - 1);
    RelabelMakespan(tasks, m, c, c[n - 1].p, m - 1);
    assert Canonical(m, r);
    assert Completes(tasks, m, [], r);
  }
}
