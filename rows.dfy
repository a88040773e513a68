/** The task list view (`task_tree`) as text: the two column values `add_task` writes for a task,
    how `remove_task` and `run_clicks` read them back, and the row deletion after a firing. */
module Rows {
  import opened Wrappers
  import opened PyText
  import opened Schedule

  /** One row of the view: the item id the view gave it and its two column values. */
  datatype Row = Row(item: nat, time: string, coords: string)

  /** f"{hour:02d}:{minute:02d}:{second:02d}": for a valid time of day, "HH:MM:SS". */
  function FormatTime(t: TimeOfDay): (text: string)
    ensures ValidTime(t) ==> |text| == 8 && text[2] == ':' && text[5] == ':'
    ensures ValidTime(t) ==> forall i :: 0 <= i < 8 && i != 2 && i != 5 ==> IsDigit(text[i])
  {
    ZeroPad2(t.hour) + ":" + ZeroPad2(t.minute) + ":" + ZeroPad2(t.second)
  }

  /** f"({x}, {y})": the two numbers in parentheses, separated by a comma and a space. */
  function FormatCoords(x: int, y: int): (text: string)
    ensures |text| == |Str(x)| + |Str(y)| + 4 && text[0] == '(' && text[|text| - 1] == ')'
    ensures text[|Str(x)| + 1..|Str(x)| + 3] == ", "
  {
    "(" + Str(x) + ", " + Str(y) + ")"
  }

  /** The row `add_task` inserts for task t, under the item id the view hands out. */
  function FormatRow(item: nat, t: Task): (r: Row)
    ensures r.item == item
    ensures ValidTime(t.At()) ==> |r.time| == 8 && r.time[2] == ':' && r.time[5] == ':'
    ensures |r.coords| >= 6 && r.coords[0] == '(' && r.coords[|r.coords| - 1] == ')'
  {
    Row(item, FormatTime(t.At()), FormatCoords(t.x, t.y))
  }

  /** `hh, mm, ss = [int(x) for x in time_str.split(":")]`, with None where Python raises
      ValueError. Text accepted holds exactly two colons. */
  function ParseTime(text: string): (r: Option<TimeOfDay>)
    ensures r.Some? ==> multiset(text)[':'] == 2
  {
    SplitCount(text, ':');
    var parts := Split(text, ':');
    if |parts| != 3 then None
    else
      var h, m, s := ParseInt(parts[0]), ParseInt(parts[1]), ParseInt(parts[2]);
      if h.Some? && m.Some? && s.Some? then Some(TimeOfDay(h.value, m.value, s.value)) else None
  }

  predicate IsParen(c: char) {
    c == '(' || c == ')'
  }

  /** `xx, yy = [int(c) for c in coords_str.strip("()").split(",")]`, with None where Python
      raises ValueError. Text accepted holds exactly one comma inside its parentheses. */
  function ParseCoords(text: string): (r: Option<(int, int)>)
    ensures r.Some? ==> multiset(Strip(text, IsParen))[','] == 1
  {
    SplitCount(Strip(text, IsParen), ',');
    var parts := Split(Strip(text, IsParen), ',');
    if |parts| != 2 then None
    else
      var x, y := ParseInt(parts[0]), ParseInt(parts[1]);
      if x.Some? && y.Some? then Some((x.value, y.value)) else None
  }

  /** The tuple a row of the view shows, as `remove_task` and `run_clicks` parse it; a row is
      read only when its time has two colons and its coordinates one comma. */
  function ParseRow(row: Row): (r: Option<Task>)
    ensures r.Some? ==> multiset(row.time)[':'] == 2 && multiset(Strip(row.coords, IsParen))[','] == 1
  {
    var t, c := ParseTime(row.time), ParseCoords(row.coords);
    if t.Some? && c.Some? then Some(Task(t.value.hour, t.value.minute, t.value.second, c.value.0, c.value.1)) else None
  }

  // ---------------------------------------------------------------------------
  // Round trips
  // ---------------------------------------------------------------------------

  lemma NoSeparatorInNumber(n: int, c: char)
    requires !IsDigit(c) && c != '-'
    ensures c !in Str(n) && c !in ZeroPad2(n)
  {
  }

  /** Reading back the time column gives the time written, for every hour, minute and second. */
  lemma TimeRoundTrip(t: TimeOfDay)
    ensures ParseTime(FormatTime(t)) == Some(t)
  {
    var h, m, s := ZeroPad2(t.hour), ZeroPad2(t.minute), ZeroPad2(t.second);
    NoSeparatorInNumber(t.hour, ':');
    NoSeparatorInNumber(t.minute, ':');
    NoSeparatorInNumber(t.second, ':');
    assert FormatTime(t) == h + [':'] + (m + [':'] + s);
    SplitAt(h, ':', m + [':'] + s);
    SplitAt(m, ':', s);
    SplitNone(s, ':');
    assert Split(FormatTime(t), ':') == [h, m, s];
    ParseIntOfZeroPad2(t.hour);
    ParseIntOfZeroPad2(t.minute);
    ParseIntOfZeroPad2(t.second);
  }

  /** Inside the parentheses, the coordinates column splits at its comma into the two numbers,
      the second with the space before it. */
  lemma CoordsSplit(x: int, y: int)
    ensures Split(Strip(FormatCoords(x, y), IsParen), ',') == [Str(x), " " + Str(y)]
  {
    var sx, sy := Str(x), Str(y);
    var inner := sx + [','] + (" " + sy);
    assert FormatCoords(x, y) == "(" + inner + ")";
    StripPadded("(", inner, ")", IsParen);
    NoSeparatorInNumber(x, ',');
    NoSeparatorInNumber(y, ',');
    assert ',' !in " " + sy;
    SplitAt(sx, ',', " " + sy);
    SplitNone(" " + sy, ',');
  }

  /** Reading back the coordinates column gives the point written, negative coordinates included. */
  lemma CoordsRoundTrip(x: int, y: int)
    ensures ParseCoords(FormatCoords(x, y)) == Some((x, y))
  {
    CoordsSplit(x, y);
    ParseIntOfStr([], x);
    assert [] + Str(x) == Str(x);
    ParseIntOfStr(" ", y);
  }

  /** A row written for a task reads back as that task. */
  lemma RowRoundTrip(item: nat, t: Task)
    ensures ParseRow(FormatRow(item, t)) == Some(t)
  {
    TimeRoundTrip(t.At());
    CoordsRoundTrip(t.x, t.y);
  }

  // ---------------------------------------------------------------------------
  // The rows as a list of what they show. These are stated for any reader `read` of a row, so
  // that their proofs do not depend on the text format; the view uses read == ParseRow.
  // ---------------------------------------------------------------------------

  /** What the rows show, in display order (a row that does not read shows nothing). */
  function Shown<R, T>(rows: seq<R>, read: R -> Option<T>): (ts: seq<T>)
    ensures |ts| <= |rows|
  {
    if rows == [] then []
    else (match read(rows[0]) case Some(t) => [t] case None => []) + Shown(rows[1..], read)
  }

  /** The position of the first row showing t, or |rows| when none does: the row the
      `for item in task_tree.get_children()` loop of `run_clicks` stops at. */
  function FirstMatch<R, T(==)>(rows: seq<R>, read: R -> Option<T>, t: T): (i: nat)
    ensures i <= |rows|
    ensures i < |rows| ==> read(rows[i]) == Some(t)
    ensures forall j {:trigger read(rows[j])} :: 0 <= j < i ==> read(rows[j]) != Some(t)
  {
    if rows == [] then 0
    else if read(rows[0]) == Some(t) then 0
    else 1 + FirstMatch(rows[1..], read, t)
  }

  /** The rows after `run_clicks` deletes the first row showing the fired task t. */
  function DeleteFirstMatch<R, T(==)>(rows: seq<R>, read: R -> Option<T>, t: T): seq<R> {
    var i := FirstMatch(rows, read, t);
    if i < |rows| then rows[..i] + rows[i + 1..] else rows
  }

  /** The rows after the deletions for the fired tasks, one after another, in firing order. */
  function RowsAfterFiring<R, T(==)>(rows: seq<R>, read: R -> Option<T>, fired: seq<T>): seq<R> {
    if fired == [] then rows
    else
      var last := |fired| - 1;
      DeleteFirstMatch(RowsAfterFiring(rows, read, fired[..last]), read, fired[last])
  }


  lemma {:induction false} ShownAppend<R, T>(a: seq<R>, b: seq<R>, read: R -> Option<T>)
    ensures Shown(a + b, read) == Shown(a, read) + Shown(b, read)
  {
    if a == [] {
      assert a + b == b;
    } else {
      assert (a + b)[0] == a[0] && (a + b)[1..] == a[1..] + b;
      ShownAppend(a[1..], b, read);
    }
  }

  /** Rows none of which shows t show no t. */
  lemma {:induction false} ShownWithout<R, T>(rows: seq<R>, read: R -> Option<T>, t: T)
    requires forall j {:trigger read(rows[j])} :: 0 <= j < |rows| ==> read(rows[j]) != Some(t)
    ensures multiset(Shown(rows, read))[t] == 0
  {
    if rows != [] {
      ShownWithout(rows[1..], read, t);
    }
  }

  /** What the rows show splits at a row that shows t. */
  lemma ShownAround<R, T>(rows: seq<R>, read: R -> Option<T>, i: nat, t: T)
    requires i < |rows| && read(rows[i]) == Some(t)
    ensures Shown(rows, read) == Shown(rows[..i], read) + ([t] + Shown(rows[i + 1..], read))
  {
    var front, rest := rows[..i], rows[i..];
    assert rows == front + rest;
    ShownAppend(front, rest, read);
    assert rest[0] == rows[i] && rest[1..] == rows[i + 1..];
  }

  /** Deleting the row at i takes exactly what that row shows out of what the rows show. */
  lemma ShownRemoveAt<R, T>(rows: seq<R>, read: R -> Option<T>, i: nat, t: T)
    requires i < |rows| && read(rows[i]) == Some(t)
    ensures multiset(Shown(rows[..i] + rows[i + 1..], read)) == multiset(Shown(rows, read)) - multiset{t}
  {
    var front, back := rows[..i], rows[i + 1..];
    ShownAround(rows, read, i, t);
    ShownAppend(front, back, read);
    var a, b := multiset(Shown(front, read)), multiset(Shown(back, read));
    assert multiset(Shown(rows, read)) == a + (multiset{t} + b);
    assert multiset(Shown(front + back, read)) == a + b;
  }

  /** The display deletion after a firing removes the row at some i that shows the fired task
      while no row before it does, and keeps every other row in order; when no row shows the
      task, it keeps them all. */
  lemma DeleteFirstMatchRemovesOne<R, T>(rows: seq<R>, read: R -> Option<T>, t: T)
    ensures var r := DeleteFirstMatch(rows, read, t);
      || (exists i :: 0 <= i < |rows| && read(rows[i]) == Some(t) && r == rows[..i] + rows[i + 1..]
           && forall j {:trigger read(rows[j])} :: 0 <= j < i ==> read(rows[j]) != Some(t))
      || (r == rows && forall j {:trigger read(rows[j])} :: 0 <= j < |rows| ==> read(rows[j]) != Some(t))
  {
    var i := FirstMatch(rows, read, t);
    if i < |rows| {
      assert DeleteFirstMatch(rows, read, t) == rows[..i] + rows[i + 1..];
    }
  }

  /** Where several rows show the fired task, the deletion after a firing leaves all but one of
      them, while removing the task in `remove_task` leaves no equal task in the list. */
  lemma FiringLeavesOtherRows(rows: seq<Row>, read: Row -> Option<Task>, t: Task)
    requires multiset(Shown(rows, read))[t] >= 2
    ensures multiset(Shown(DeleteFirstMatch(rows, read, t), read))[t] == multiset(Shown(rows, read))[t] - 1
    ensures multiset(Shown(DeleteFirstMatch(rows, read, t), read))[t] >= 1
    ensures multiset(Without(Shown(rows, read), t))[t] == 0
  {
    DeleteFirstMatchShown(rows, read, t);
    RemoveMatching(Shown(rows, read), t);
  }

  /** So the deletion takes exactly one t out of what the rows show, or nothing when no row
      shows t. */
  lemma DeleteFirstMatchShown<R, T>(rows: seq<R>, read: R -> Option<T>, t: T)
    ensures multiset(Shown(DeleteFirstMatch(rows, read, t), read)) == multiset(Shown(rows, read)) - multiset{t}
  {
    var i := FirstMatch(rows, read, t);
    if i < |rows| {
      assert DeleteFirstMatch(rows, read, t) == rows[..i] + rows[i + 1..];
      ShownRemoveAt(rows, read, i, t);
    } else {
      assert DeleteFirstMatch(rows, read, t) == rows;
      ShownWithout(rows, read, t);
      var m := multiset(Shown(rows, read));
      assert m - multiset{t} == m;
    }
  }

  /** After the deletions for a list of fired tasks, the rows show what they showed, less one
      copy of each fired task (as far as there were copies to take). */
  lemma {:induction false} RowsAfterFiringShown<R, T>(rows: seq<R>, read: R -> Option<T>, fired: seq<T>)
    ensures multiset(Shown(RowsAfterFiring(rows, read, fired), read)) == multiset(Shown(rows, read)) - multiset(fired)
  {
    if fired != [] {
      var last := |fired| - 1;
      var earlier, t := fired[..last], fired[last];
      var prev := RowsAfterFiring(rows, read, earlier);
      var m := multiset(Shown(rows, read));
      assert multiset(Shown(prev, read)) == m - multiset(earlier) by {
        RowsAfterFiringShown(rows, read, earlier);
      }
      assert multiset(Shown(RowsAfterFiring(rows, read, fired), read)) == multiset(Shown(prev, read)) - multiset{t} by {
        assert RowsAfterFiring(rows, read, fired) == DeleteFirstMatch(prev, read, t);
        DeleteFirstMatchShown(prev, read, t);
      }
      assert fired == earlier + [t];
      MinusSnoc(m, earlier, t);
    }
  }

  /** One more firing deletes one more row, after the earlier deletions. */
  lemma RowsAfterFiringSnoc<R, T>(rows: seq<R>, read: R -> Option<T>, fired: seq<T>, t: T)
    ensures RowsAfterFiring(rows, read, fired + [t]) == DeleteFirstMatch(RowsAfterFiring(rows, read, fired), read, t)
  {
    assert (fired + [t])[..|fired|] == fired;
  }

  /** Taking out the copies of a list and then one more t is taking out the list extended by t. */
  lemma MinusSnoc<T>(m: multiset<T>, earlier: seq<T>, t: T)
    ensures m - multiset(earlier + [t]) == (m - multiset(earlier)) - multiset{t}
  {
    assert multiset(earlier + [t]) == multiset(earlier) + multiset{t};
    assert forall x :: ((m - multiset(earlier)) - multiset{t})[x] == (m - multiset(earlier + [t]))[x];
  }
}
