/** The library sort the heuristic relies on: java.util.Arrays.sort on
    ScheduledTask objects, a stable sort in ascending order of `id`. It is
    modelled as a stable insertion sort on the array's contents. */
module StableSort {
  import opened Schedules

  predicate SortedById(s: seq<ScheduledTask>) {
    forall i, j :: 0 <= i < j < |s| ==> s[i].id <= s[j].id
  }

  /** `a` comes before `b` by id, and by `p` among equal ids. */
  predicate Precedes(a: ScheduledTask, b: ScheduledTask) {
    a.id < b.id || (a.id == b.id && a.p < b.p)
  }

  predicate LexSorted(s: seq<ScheduledTask>) {
    forall i, j :: 0 <= i < j < |s| ==> Precedes(s[i], s[j])
  }

  /** Places `x` in front of the first element whose id is at least its own. */
  function Insert(x: ScheduledTask, s: seq<ScheduledTask>): (r: seq<ScheduledTask>)
    ensures multiset(r) == multiset(s) + multiset{x}
  {
    if s == [] || x.id <= s[0].id then [x] + s
    else
      assert s == [s[0]] + s[1..];
      [s[0]] + Insert(x, s[1..])
  }

  /** Inserting each element, from the last to the first, in front of the
      elements of equal id keeps equal ids in their original order. */
  function SortById(s: seq<ScheduledTask>): (r: seq<ScheduledTask>)
    ensures multiset(r) == multiset(s)
    ensures |r| == |s|
  {
    if s == [] then []
    else
      assert s == [s[0]] + s[1..];
      Insert(s[0], SortById(s[1..]))
  }

  lemma MemberOfInsert(x: ScheduledTask, s: seq<ScheduledTask>, y: ScheduledTask)
    requires y in Insert(x, s)
    ensures y == x || y in s
  {
    assert y in multiset(Insert(x, s));
  }

  lemma {:induction false} InsertSorted(x: ScheduledTask, s: seq<ScheduledTask>)
    requires SortedById(s)
    ensures SortedById(Insert(x, s))
  {
    if s != [] && x.id > s[0].id {
      var rest := Insert(x, s[1..]);
      InsertSorted(x, s[1..]);
      forall k | 0 <= k < |rest| ensures s[0].id <= rest[k].id {
        MemberOfInsert(x, s[1..], rest[k]);
      }
      ConsSorted(s[0], rest);
    } else {
      ConsSorted(x, s);
    }
  }

  /** The sort orders its result by id. */
  lemma {:induction false} SortSorted(s: seq<ScheduledTask>)
    ensures SortedById(SortById(s))
  {
    if s != [] {
      SortSorted(s[1..]);
      InsertSorted(s[0], SortById(s[1..]));
    }
  }

  /** An element that precedes every element of a sorted list can go in front of it. */
  lemma ConsLex(h: ScheduledTask, t: seq<ScheduledTask>)
    requires LexSorted(t)
    requires forall k :: 0 <= k < |t| ==> Precedes(h, t[k])
    ensures LexSorted([h] + t)
  {
    var r := [h] + t;
    forall i, j | 0 <= i < j < |r| ensures Precedes(r[i], r[j]) {
      assert r[j] == t[j - 1];
      if i > 0 {
        assert r[i] == t[i - 1];
      }
    }
  }

  lemma ConsSorted(h: ScheduledTask, t: seq<ScheduledTask>)
    requires SortedById(t)
    requires forall k :: 0 <= k < |t| ==> h.id <= t[k].id
    ensures SortedById([h] + t)
  {
    var r := [h] + t;
    forall i, j | 0 <= i < j < |r| ensures r[i].id <= r[j].id {
      assert r[j] == t[j - 1];
      if i > 0 {
        assert r[i] == t[i - 1];
      }
    }
  }

  lemma {:induction false} InsertLex(x: ScheduledTask, s: seq<ScheduledTask>)
    requires LexSorted(s)
    requires forall k :: 0 <= k < |s| ==> x.p < s[k].p
    ensures LexSorted(Insert(x, s))
  {
    if s != [] && x.id > s[0].id {
      var rest := Insert(x, s[1..]);
      InsertLex(x, s[1..]);
      forall k | 0 <= k < |rest| ensures Precedes(s[0], rest[k]) {
        MemberOfInsert(x, s[1..], rest[k]);
      }
      ConsLex(s[0], rest);
    } else {
      ConsLex(x, s);
    }
  }

  /** Stability: when the input lists its `p` values in increasing order, as
      the heuristic's (duration, index) array does, equal ids come out in
      increasing order of `p`. */
  lemma {:induction false} SortStableOnIndexed(s: seq<ScheduledTask>)
    requires forall i, j :: 0 <= i < j < |s| ==> s[i].p < s[j].p
    ensures LexSorted(SortById(s))
  {
    if s != [] {
      var rest := SortById(s[1..]);
      SortStableOnIndexed(s[1..]);
      forall k | 0 <= k < |rest| ensures s[0].p < rest[k].p {
        assert rest[k] in multiset(rest);
        assert rest[k] in s[1..];
      }
      InsertLex(s[0], rest);
    }
  }
}
