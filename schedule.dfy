/** The scheduled tasks as values: what `scheduled_tasks` holds, how `add_task` checks a
    time, and what `remove_task` and one tick of `run_clicks` leave of the list. */
module Schedule {
  import opened Wrappers

  /** A time of day as the clock reading `now.hour`, `now.minute`, `now.second`. */
  datatype TimeOfDay = TimeOfDay(hour: int, minute: int, second: int)

  /** One entry of `scheduled_tasks`: the dictionary {"hour", "minute", "second", "x", "y"}.
      Python compares two such dictionaries field by field, as Dafny compares these values. */
  datatype Task = Task(hour: int, minute: int, second: int, x: int, y: int) {
    function At(): TimeOfDay {
      TimeOfDay(hour, minute, second)
    }
  }

  /** One `pyautogui.moveTo(x, y)` followed by `pyautogui.click()`. */
  datatype Click = Click(x: int, y: int)

  /** The five entry fields of the form, in the order `add_task` reads them. */
  datatype Field = Hour | Minute | Second | X | Y {
    function Index(): nat {
      match this
      case Hour => 0
      case Minute => 1
      case Second => 2
      case X => 3
      case Y => 4
    }
  }

  predicate ValidTime(t: TimeOfDay) {
    0 <= t.hour < 24 && 0 <= t.minute < 60 && 0 <= t.second < 60
  }

  /** The range checks of `add_task`, in order: the first field out of range, if any. */
  function RangeError(t: TimeOfDay): (e: Option<Field>)
    ensures e == None <==> ValidTime(t)
    ensures e == Some(Hour) <==> !(0 <= t.hour < 24)
    ensures e == Some(Minute) <==> 0 <= t.hour < 24 && !(0 <= t.minute < 60)
    ensures e == Some(Second) <==> 0 <= t.hour < 24 && 0 <= t.minute < 60 && !(0 <= t.second < 60)
  {
    if !(0 <= t.hour < 24) then Some(Hour)
    else if !(0 <= t.minute < 60) then Some(Minute)
    else if !(0 <= t.second < 60) then Some(Second)
    else None
  }

  // ---------------------------------------------------------------------------
  // Filtering a list, keeping the order of what is kept
  // ---------------------------------------------------------------------------

  /** The elements of s that satisfy p, in their order in s. */
  function Filter<T(!new)>(s: seq<T>, p: T -> bool): (r: seq<T>)
    ensures |r| <= |s|
  {
    if s == [] then [] else (if p(s[0]) then [s[0]] else []) + Filter(s[1..], p)
  }

  /** What the filter keeps is exactly the elements of s that pass. */
  lemma {:induction false} FilterMembers<T(!new)>(s: seq<T>, p: T -> bool)
    ensures forall x :: x in Filter(s, p) <==> x in s && p(x)
  {
    if s != [] {
      FilterMembers(s[1..], p);
      assert s == [s[0]] + s[1..];
    }
  }

  /** a is b with some elements left out: a's elements occur in b, in the same order. */
  ghost predicate IsSubsequence<T>(a: seq<T>, b: seq<T>)
    decreases |b|
  {
    if a == [] then true
    else if b == [] then false
    else (a[0] == b[0] && IsSubsequence(a[1..], b[1..])) || IsSubsequence(a, b[1..])
  }

  lemma {:induction false} FilterAppend<T(!new)>(a: seq<T>, b: seq<T>, p: T -> bool)
    ensures Filter(a + b, p) == Filter(a, p) + Filter(b, p)
  {
    if a == [] {
      assert a + b == b;
    } else {
      var head := if p(a[0]) then [a[0]] else [];
      assert (a + b)[0] == a[0] && (a + b)[1..] == a[1..] + b;
      assert Filter(a + b, p) == head + Filter(a[1..] + b, p);
      FilterAppend(a[1..], b, p);
    }
  }

  /** Filtering s[..i + 1] adds s[i] to the filtered s[..i] exactly when s[i] passes. */
  lemma FilterSnoc<T(!new)>(s: seq<T>, i: nat, p: T -> bool)
    requires i < |s|
    ensures Filter(s[..i + 1], p) == Filter(s[..i], p) + (if p(s[i]) then [s[i]] else [])
  {
    assert s[..i + 1] == s[..i] + [s[i]];
    FilterAppend(s[..i], [s[i]], p);
  }

  /** Filtering keeps every copy of an element that passes and no copy of one that fails. */
  lemma {:induction false} FilterCount<T(!new)>(s: seq<T>, p: T -> bool, x: T)
    ensures multiset(Filter(s, p))[x] == if p(x) then multiset(s)[x] else 0
  {
    if s != [] {
      FilterCount(s[1..], p, x);
      assert s == [s[0]] + s[1..];
    }
  }

  /** Filtering keeps the relative order of what it keeps. */
  lemma {:induction false} FilterSubsequence<T(!new)>(s: seq<T>, p: T -> bool)
    ensures IsSubsequence(Filter(s, p), s)
  {
    if s != [] {
      FilterSubsequence(s[1..], p);
      if p(s[0]) {
        assert Filter(s, p)[1..] == Filter(s[1..], p);
      } else if Filter(s, p) != [] {
        assert Filter(s, p) == Filter(s[1..], p);
      }
    }
  }

  /** Filtering again by a predicate implied by the first changes nothing. */
  lemma {:induction false} FilterFilter<T(!new)>(s: seq<T>, p: T -> bool, q: T -> bool)
    requires forall x :: p(x) ==> q(x)
    ensures Filter(Filter(s, p), q) == Filter(s, p)
  {
    if s != [] {
      FilterFilter(s[1..], p, q);
      var f := Filter(s, p);
      if p(s[0]) {
        assert f[0] == s[0] && f[1..] == Filter(s[1..], p);
      } else {
        assert f == Filter(s[1..], p);
      }
    }
  }

  /** A filter that every element passes keeps the whole list. */
  lemma {:induction false} FilterAll<T(!new)>(s: seq<T>, p: T -> bool)
    requires forall i :: 0 <= i < |s| ==> p(s[i])
    ensures Filter(s, p) == s
  {
    if s != [] {
      FilterAll(s[1..], p);
      assert [s[0]] + s[1..] == s;
    }
  }

  /** A filter that only the element at i fails keeps everything else. */
  lemma {:induction false} FilterDropOne<T(!new)>(s: seq<T>, i: nat, p: T -> bool)
    requires i < |s| && !p(s[i])
    requires forall j :: 0 <= j < |s| && j != i ==> p(s[j])
    ensures Filter(s, p) == s[..i] + s[i + 1..]
  {
    if i == 0 {
      FilterAll(s[1..], p);
    } else {
      FilterDropOne(s[1..], i - 1, p);
      assert s[1..][..i - 1] == s[1..i] && s[1..][i..] == s[i + 1..];
      assert [s[0]] + s[1..i] == s[..i];
    }
  }

  /** A filter that no element passes keeps nothing. */
  lemma {:induction false} FilterNone<T(!new)>(s: seq<T>, p: T -> bool)
    requires forall i :: 0 <= i < |s| ==> !p(s[i])
    ensures Filter(s, p) == []
  {
    if s != [] {
      FilterNone(s[1..], p);
    }
  }

  /** Filtering by p then by q is filtering by both at once (by r, which holds where both do). */
  lemma {:induction false} FilterBoth<T(!new)>(s: seq<T>, p: T -> bool, q: T -> bool, r: T -> bool)
    requires forall x :: r(x) == (p(x) && q(x))
    ensures Filter(Filter(s, p), q) == Filter(s, r)
  {
    if s != [] {
      FilterBoth(s[1..], p, q, r);
      var f := Filter(s, p);
      if p(s[0]) {
        assert f[0] == s[0] && f[1..] == Filter(s[1..], p);
      } else {
        assert f == Filter(s[1..], p);
      }
    }
  }

  /** Every element of s goes to exactly one side of a filter p and its complement q. */
  lemma {:induction false} FilterPartition<T(!new)>(s: seq<T>, p: T -> bool, q: T -> bool)
    requires forall x :: q(x) == !p(x)
    ensures multiset(Filter(s, p)) + multiset(Filter(s, q)) == multiset(s)
  {
    if s != [] {
      FilterPartition(s[1..], p, q);
      var x := s[0];
      assert multiset(s) == multiset{x} + multiset(s[1..]) by {
        assert s == [x] + s[1..];
      }
      if p(x) {
        assert multiset(Filter(s, p)) == multiset{x} + multiset(Filter(s[1..], p));
        assert Filter(s, q) == Filter(s[1..], q);
      } else {
        assert Filter(s, p) == Filter(s[1..], p);
        assert multiset(Filter(s, q)) == multiset{x} + multiset(Filter(s[1..], q));
      }
    }
  }

  // ---------------------------------------------------------------------------
  // Python's list.remove
  // ---------------------------------------------------------------------------

  /** s.remove(v): drop the first element equal to v. Python raises ValueError when v is not
      in s; neither caller in the source can let that happen. */
  function RemoveFirst<T(==)>(s: seq<T>, v: T): (r: seq<T>)
    requires v in s
    ensures |r| == |s| - 1
  {
    if s[0] == v then s[1..] else [s[0]] + RemoveFirst(s[1..], v)
  }

  /** remove takes exactly one copy of v out of the list. */
  lemma {:induction false} RemoveFirstCount<T>(s: seq<T>, v: T)
    requires v in s
    ensures multiset(RemoveFirst(s, v)) == multiset(s) - multiset{v}
  {
    assert s == [s[0]] + s[1..];
    if s[0] != v {
      RemoveFirstCount(s[1..], v);
    }
  }

  /** When no element before v's position equals v, remove drops exactly that position. */
  lemma {:induction false} RemoveFirstAfter<T>(a: seq<T>, v: T, b: seq<T>)
    requires v !in a
    ensures RemoveFirst(a + [v] + b, v) == a + b
  {
    var s := a + [v] + b;
    if a == [] {
      assert s[0] == v && s[1..] == b;
    } else {
      assert s[0] == a[0] != v;
      assert s[1..] == a[1..] + [v] + b;
      RemoveFirstAfter(a[1..], v, b);
      assert [a[0]] + (a[1..] + b) == a + b;
    }
  }

  // ---------------------------------------------------------------------------
  // The store operations as functions of the list
  // ---------------------------------------------------------------------------

  /** Holds of the tasks that are not in vs. */
  function NotIn(vs: seq<Task>): Task -> bool {
    (u: Task) => u !in vs
  }

  /** Holds of the tasks whose trigger time is `now`. */
  function DueAt(now: TimeOfDay): Task -> bool {
    (t: Task) => t.At() == now
  }

  /** Holds of the tasks whose trigger time is not `now`. */
  function NotDueAt(now: TimeOfDay): Task -> bool {
    (t: Task) => t.At() != now
  }

  /** What `remove_task` leaves of the list for selected rows showing the tasks in vs:
      every task equal to one of them is gone. */
  function Exclude(ts: seq<Task>, vs: seq<Task>): seq<Task> {
    Filter(ts, NotIn(vs))
  }

  /** The list after removing every task equal to t (one selected row). */
  function Without(ts: seq<Task>, t: Task): seq<Task> {
    Exclude(ts, [t])
  }

  /** The tasks that a tick at `now` fires, in list order. */
  function Due(ts: seq<Task>, now: TimeOfDay): seq<Task> {
    Filter(ts, DueAt(now))
  }

  /** The tasks that a tick at `now` leaves scheduled. */
  function Pending(ts: seq<Task>, now: TimeOfDay): seq<Task> {
    Filter(ts, NotDueAt(now))
  }

  /** The clicks performed for the given tasks, one each, in their order. */
  function Clicks(ts: seq<Task>): seq<Click> {
    if ts == [] then [] else [Click(ts[0].x, ts[0].y)] + Clicks(ts[1..])
  }

  // ---------------------------------------------------------------------------
  // What the source promises of them
  // ---------------------------------------------------------------------------

  /** Removing a selected row's tuple: no equal task remains, every other task is kept with
      all its copies and in its relative order, and the list shrinks by the number of equal tasks. */
  lemma RemoveMatching(ts: seq<Task>, t: Task)
    ensures t !in Without(ts, t)
    ensures forall u :: u != t ==> multiset(Without(ts, t))[u] == multiset(ts)[u]
    ensures IsSubsequence(Without(ts, t), ts)
    ensures |Without(ts, t)| == |ts| - multiset(ts)[t]
  {
    var p := NotIn([t]);
    FilterMembers(ts, p);
    forall u | u != t
      ensures multiset(Without(ts, t))[u] == multiset(ts)[u]
    {
      FilterCount(ts, p, u);
    }
    FilterCount(ts, p, t);
    FilterSubsequence(ts, p);
    var q := (u: Task) => u == t;
    FilterPartition(ts, p, q);
    FilterCount(ts, q, t);
    FilterOnlyCopies(ts, t);
  }

  /** The tasks of ts equal to t, listed, are as many as ts has copies of t. */
  lemma {:induction false} FilterOnlyCopies(ts: seq<Task>, t: Task)
    ensures |Filter(ts, (u: Task) => u == t)| == multiset(ts)[t]
  {
    if ts != [] {
      FilterOnlyCopies(ts[1..], t);
      assert ts == [ts[0]] + ts[1..];
    }
  }

  /** Removing the tuples of several selected rows: a task is gone exactly when it equals one
      of them, and what is kept keeps its copies and its order. */
  lemma RemoveSelectedTuples(ts: seq<Task>, vs: seq<Task>)
    ensures forall u :: u in Exclude(ts, vs) <==> u in ts && u !in vs
    ensures forall u :: u !in vs ==> multiset(Exclude(ts, vs))[u] == multiset(ts)[u]
    ensures IsSubsequence(Exclude(ts, vs), ts)
  {
    var p := NotIn(vs);
    FilterMembers(ts, p);
    forall u | u !in vs
      ensures multiset(Exclude(ts, vs))[u] == multiset(ts)[u]
    {
      FilterCount(ts, p, u);
    }
    FilterSubsequence(ts, p);
  }

  /** Removing the tuples of one more row after some rows is removing them all at once. */
  lemma ExcludeMore(ts: seq<Task>, vs: seq<Task>, v: Task)
    ensures Without(Exclude(ts, vs), v) == Exclude(ts, vs + [v])
  {
    FilterBoth(ts, NotIn(vs), NotIn([v]), NotIn(vs + [v]));
  }

  /** One tick at `now`: no task due at `now` is left, every other task is kept with its copies
      and in its relative order, and each task either fires or stays, never both. */
  lemma TickSplitsList(ts: seq<Task>, now: TimeOfDay)
    ensures forall t :: t in Pending(ts, now) ==> t.At() != now
    ensures forall t: Task :: t.At() != now ==> multiset(Pending(ts, now))[t] == multiset(ts)[t]
    ensures forall t :: t in Due(ts, now) <==> t in ts && t.At() == now
    ensures IsSubsequence(Pending(ts, now), ts) && IsSubsequence(Due(ts, now), ts)
    ensures multiset(Due(ts, now)) + multiset(Pending(ts, now)) == multiset(ts)
  {
    FilterMembers(ts, DueAt(now));
    FilterMembers(ts, NotDueAt(now));
    forall t: Task | t.At() != now
      ensures multiset(Pending(ts, now))[t] == multiset(ts)[t]
    {
      FilterCount(ts, NotDueAt(now), t);
    }
    FilterSubsequence(ts, DueAt(now));
    FilterSubsequence(ts, NotDueAt(now));
    FilterPartition(ts, DueAt(now), NotDueAt(now));
  }

  /** Firing is at most once: right after a tick at `now`, a second tick at the same second
      finds nothing due and leaves the list as it is. */
  lemma FiresAtMostOnce(ts: seq<Task>, now: TimeOfDay)
    ensures Due(Pending(ts, now), now) == []
    ensures Pending(Pending(ts, now), now) == Pending(ts, now)
  {
    FilterFilter(ts, NotDueAt(now), NotDueAt(now));
    var rest := Pending(ts, now);
    FilterMembers(ts, NotDueAt(now));
    forall i | 0 <= i < |rest|
      ensures !DueAt(now)(rest[i])
    {
      assert rest[i] in rest;
    }
    FilterNone(rest, DueAt(now));
  }

  /** Clicks follow the list: the clicks for a + b are those for a, then those for b. */
  lemma {:induction false} ClicksAppend(a: seq<Task>, b: seq<Task>)
    ensures Clicks(a + b) == Clicks(a) + Clicks(b)
  {
    if a != [] {
      assert (a + b)[0] == a[0] && (a + b)[1..] == a[1..] + b;
      ClicksAppend(a[1..], b);
    } else {
      assert a + b == b;
    }
  }

  /** A tick clicks once per due task, at that task's point, in list order, and not at all for a
      task that is not due: the clicks for a + b are those for a then for b, and a single task
      contributes its click exactly when it is due. */
  lemma TickClicksInListOrder(a: seq<Task>, b: seq<Task>, now: TimeOfDay)
    ensures Clicks(Due(a + b, now)) == Clicks(Due(a, now)) + Clicks(Due(b, now))
    ensures forall t: Task :: Clicks(Due([t], now)) == if t.At() == now then [Click(t.x, t.y)] else []
    ensures |Clicks(Due(a, now))| == |Due(a, now)|
  {
    FilterAppend(a, b, DueAt(now));
    ClicksAppend(Due(a, now), Due(b, now));
    forall t: Task
      ensures Clicks(Due([t], now)) == if t.At() == now then [Click(t.x, t.y)] else []
    {
      assert [t][1..] == [];
    }
    ClicksLength(Due(a, now));
  }

  lemma {:induction false} ClicksLength(ts: seq<Task>)
    ensures |Clicks(ts)| == |ts|
  {
    if ts != [] {
      ClicksLength(ts[1..]);
    }
  }
}
