// The state of the auto-clicker: the list of scheduled tasks, the rows of the task view,
// the running flag, and the operations the buttons and the background loop perform on them.
module AutoMouse {
  import opened Wrappers
  import opened PyText
  import opened Schedule
  import opened Rows

  // ---------------------------------------------------------------------------
  // Reading the form
  // ---------------------------------------------------------------------------

  /** The texts of the five entries of the form when "Add to Schedule" is pressed. */
  datatype Form = Form(hour: string, minute: string, second: string, x: string, y: string) {
    /** Every entry reads as an integer. */
    predicate AllRead() {
      && ParseInt(hour).Some? && ParseInt(minute).Some? && ParseInt(second).Some?
      && ParseInt(x).Some? && ParseInt(y).Some?
    }

    /** Every entry that `add_task` reads before field f reads as an integer. */
    predicate ReadBefore(f: Field) {
      && (f.Index() > 0 ==> ParseInt(hour).Some?)
      && (f.Index() > 1 ==> ParseInt(minute).Some?)
      && (f.Index() > 2 ==> ParseInt(second).Some?)
      && (f.Index() > 3 ==> ParseInt(x).Some?)
    }

    function Text(f: Field): string {
      match f
      case Hour => hour
      case Minute => minute
      case Second => second
      case X => x
      case Y => y
    }
  }

  /** Why `add_task` refused the form: an entry `int()` could not read, or a time field out of
      its range. Either way the error dialog is shown and nothing is scheduled. */
  datatype AddError = NotAnInteger(field: Field) | OutOfRange(field: Field)

  /** What `add_task` makes of the form: the five entries read in order (the first that does
      not read is the error), then hour, minute and second range-checked in that order. x and y
      are not checked. */
  function ReadTask(form: Form): (r: Result<Task, AddError>)
    ensures r.Success? ==>
      && ParseInt(form.hour) == Some(r.value.hour) && ParseInt(form.minute) == Some(r.value.minute)
      && ParseInt(form.second) == Some(r.value.second)
      && ParseInt(form.x) == Some(r.value.x) && ParseInt(form.y) == Some(r.value.y)
      && ValidTime(r.value.At())
  {
    var hour := ParseInt(form.hour);
    if hour.None? then Failure(NotAnInteger(Hour)) else
    var minute := ParseInt(form.minute);
    if minute.None? then Failure(NotAnInteger(Minute)) else
    var second := ParseInt(form.second);
    if second.None? then Failure(NotAnInteger(Second)) else
    var x := ParseInt(form.x);
    if x.None? then Failure(NotAnInteger(X)) else
    var y := ParseInt(form.y);
    if y.None? then Failure(NotAnInteger(Y)) else
    var time := TimeOfDay(hour.value, minute.value, second.value);
    match RangeError(time)
    case Some(f) => Failure(OutOfRange(f))
    case None => Success(Task(hour.value, minute.value, second.value, x.value, y.value))
  }

  /** An entry that does not read as an integer is reported only when every entry before it
      reads. */
  lemma ReadTaskNotAnInteger(form: Form)
    ensures var r := ReadTask(form);
      r.Failure? && r.error.NotAnInteger? ==>
        && ParseInt(form.Text(r.error.field)).None?
        && form.ReadBefore(r.error.field)
  {
  }

  /** A range error is reported only for a form whose entries all read, and names the first of
      hour, minute and second that is out of its range. */
  lemma ReadTaskOutOfRange(form: Form)
    ensures var r := ReadTask(form);
      r.Failure? && r.error.OutOfRange? ==>
        && form.AllRead()
        && RangeError(TimeOfDay(ParseInt(form.hour).value, ParseInt(form.minute).value,
                                ParseInt(form.second).value)) == Some(r.error.field)
  {
  }

  /** The form is accepted exactly when all five entries read as integers and the time they
      give is a time of day. */
  lemma ReadTaskAccepts(form: Form)
    ensures ReadTask(form).Success? <==>
      form.AllRead() && ValidTime(TimeOfDay(ParseInt(form.hour).value, ParseInt(form.minute).value,
                             ParseInt(form.second).value))
  {
    ReadTaskNotAnInteger(form);
    ReadTaskOutOfRange(form);
    var r := ReadTask(form);
    if r.Failure? && r.error.NotAnInteger? {
      assert !form.AllRead() by {
        assert ParseInt(form.Text(r.error.field)).None?;
      }
    }
  }

  /** A task's own row, typed back into the form, is read back as that task. */
  lemma ReadTaskOfRow(t: Task)
    requires ValidTime(t.At())
    ensures ReadTask(Form(Str(t.hour), Str(t.minute), Str(t.second), Str(t.x), Str(t.y))) == Success(t)
  {
    ParseIntOfBareStr(t.hour);
    ParseIntOfBareStr(t.minute);
    ParseIntOfBareStr(t.second);
    ParseIntOfBareStr(t.x);
    ParseIntOfBareStr(t.y);
  }

  // ---------------------------------------------------------------------------
  // The rows of the view
  // ---------------------------------------------------------------------------

  /** The position of the row with the given item id, or |rows| when there is none. */
  function IndexOf(rows: seq<Row>, item: nat): (i: nat)
    ensures i <= |rows|
    ensures i < |rows| ==> rows[i].item == item
    ensures forall j :: 0 <= j < i ==> rows[j].item != item
  {
    if rows == [] then 0
    else if rows[0].item == item then 0
    else 1 + IndexOf(rows[1..], item)
  }

  /** Every row reads back as a task. */
  ghost predicate RowsRead(rows: seq<Row>, read: Row -> Option<Task>) {
    forall i {:trigger read(rows[i])} :: 0 <= i < |rows| ==> read(rows[i]).Some?
  }

  /** read inverts FormatRow: a row written for a task reads back as that task. */
  ghost predicate RoundTrips(read: Row -> Option<Task>) {
    forall item: nat, t: Task {:trigger read(FormatRow(item, t))} :: read(FormatRow(item, t)) == Some(t)
  }

  /** The parser of the rows inverts their format. */
  lemma ParseRowRoundTrips()
    ensures RoundTrips(ParseRow)
  {
    forall item: nat, t: Task
      ensures ParseRow(FormatRow(item, t)) == Some(t)
    {
      RowRoundTrip(item, t);
    }
  }

  /** Item ids are all below the next id to hand out, and no two rows share one. */
  predicate ItemsFresh(rows: seq<Row>, nextItem: nat) {
    && (forall i :: 0 <= i < |rows| ==> rows[i].item < nextItem)
    && (forall i, j :: 0 <= i < j < |rows| ==> rows[i].item != rows[j].item)
  }

  /** Holds of the rows whose id is not among the selected ones. */
  function Unselected(selection: seq<nat>): Row -> bool {
    (r: Row) => r.item !in selection
  }

  /** The tasks shown by the selected rows, in selection order; the tuples `remove_task`
      parses from them. */
  function Selected(rows: seq<Row>, read: Row -> Option<Task>, selection: seq<nat>): seq<Task>
    decreases |selection|
  {
    if selection == [] then []
    else
      var last := |selection| - 1;
      Selected(rows, read, selection[..last]) + ShownBy(rows, read, selection[last])
  }

  /** The task the row with the given id shows, as a list of none or one. */
  function ShownBy(rows: seq<Row>, read: Row -> Option<Task>, item: nat): seq<Task> {
    var i := IndexOf(rows, item);
    if i < |rows| then (match read(rows[i]) case Some(t) => [t] case None => []) else []
  }

  lemma RemoveAtKeepsRows(rows: seq<Row>, read: Row -> Option<Task>, nextItem: nat, i: nat)
    requires i < |rows| && RowsRead(rows, read) && ItemsFresh(rows, nextItem)
    ensures RowsRead(rows[..i] + rows[i + 1..], read) && ItemsFresh(rows[..i] + rows[i + 1..], nextItem)
  {
    var r := rows[..i] + rows[i + 1..];
    assert forall j :: 0 <= j < |r| ==> r[j] == rows[if j < i then j else j + 1];
  }

  lemma DeleteFirstMatchKeepsRows(rows: seq<Row>, read: Row -> Option<Task>, nextItem: nat, t: Task)
    requires RowsRead(rows, read) && ItemsFresh(rows, nextItem)
    ensures var r := DeleteFirstMatch(rows, read, t); RowsRead(r, read) && ItemsFresh(r, nextItem)
  {
    var i := FirstMatch(rows, read, t);
    if i < |rows| {
      RemoveAtKeepsRows(rows, read, nextItem, i);
    }
  }

  /** Taking one copy of t out of both sides keeps the store within what the view shows. */
  lemma MinusBoth(a: multiset<Task>, b: multiset<Task>, t: Task)
    requires a <= b
    ensures a - multiset{t} <= b - multiset{t}
  {
    assert forall u :: (a - multiset{t})[u] <= (b - multiset{t})[u];
  }

  /** Every scheduled task is shown by a row of its own; the view may show more. */
  ghost predicate Covered(tasks: seq<Task>, rows: seq<Row>, read: Row -> Option<Task>) {
    multiset(tasks) <= multiset(Shown(rows, read))
  }

  /** What the list and the view keep between operations: the rows are those written for the
      tasks, each reads back, their ids are fresh and distinct, and they cover the list. */
  ghost predicate Consistent(tasks: seq<Task>, rows: seq<Row>, read: Row -> Option<Task>, nextItem: nat) {
    RowsRead(rows, read) && ItemsFresh(rows, nextItem) && Covered(tasks, rows, read)
  }

  /** Adding a task with its freshly numbered row keeps the list and the view consistent. */
  lemma AddKeeps(tasks: seq<Task>, rows: seq<Row>, read: Row -> Option<Task>, nextItem: nat, t: Task, row: Row)
    requires Consistent(tasks, rows, read, nextItem)
    requires row.item == nextItem && read(row) == Some(t)
    ensures Consistent(tasks + [t], rows + [row], read, nextItem + 1)
  {
    ShownAppend(rows, [row], read);
    assert Shown([row], read) == [t] by {
      assert [row][1..] == [];
    }
    var rows' := rows + [row];
    assert forall j :: 0 <= j < |rows| ==> rows'[j] == rows[j];
  }

  /** Removing every task equal to the tuple of row i, and row i itself, keeps them consistent. */
  lemma RemoveItemKeeps(tasks: seq<Task>, rows: seq<Row>, read: Row -> Option<Task>, nextItem: nat, i: nat)
    requires Consistent(tasks, rows, read, nextItem) && i < |rows|
    ensures Consistent(Without(tasks, read(rows[i]).value), rows[..i] + rows[i + 1..], read, nextItem)
  {
    var v := read(rows[i]).value;
    RemoveMatching(tasks, v);
    ShownRemoveAt(rows, read, i, v);
    RemoveAtKeepsRows(rows, read, nextItem, i);
    var a, b := multiset(Without(tasks, v)), multiset(Shown(rows[..i] + rows[i + 1..], read));
    forall u
      ensures a[u] <= b[u]
    {
      if u != v {
        assert a[u] == multiset(tasks)[u];
      }
    }
  }

  /** Two rows for the same tuple: selecting the first and pressing "Remove Selected Task"
      (RemoveItem on its id, which finds it at position 0) empties the list, since every equal
      task goes, but leaves the second row in the view, still showing the tuple. This is why the
      list is only covered by the view and not equal to what it shows. */
  lemma DuplicateRowOutlivesTask(read: Row -> Option<Task>, t: Task, r0: Row, r1: Row)
    requires r0.item == 0 && r1.item == 1
    requires read(r0) == Some(t) && read(r1) == Some(t)
    ensures Consistent([t, t], [r0, r1], read, 2)
    ensures IndexOf([r0, r1], r0.item) == 0
    ensures Without([t, t], read(r0).value) == []
    ensures Consistent([], [r1], read, 2) && Shown([r1], read) == [t]
  {
    TwoAddsConsistent(read, t, r0, r1);
    RemoveMatching([t, t], t);
    RemoveItemKeeps([t, t], [r0, r1], read, 2, 0);
    assert [r0, r1][..0] + [r0, r1][1..] == [r1];
    assert Shown([r1], read) == [t] by {
      assert [r1][1..] == [];
    }
  }

  /** Adding the same task twice from the start leaves the list and the view consistent. */
  lemma TwoAddsConsistent(read: Row -> Option<Task>, t: Task, r0: Row, r1: Row)
    requires r0.item == 0 && r1.item == 1
    requires read(r0) == Some(t) && read(r1) == Some(t)
    ensures Consistent([t, t], [r0, r1], read, 2)
  {
    assert Shown([], read) == [];
    AddKeeps([], [], read, 0, t, r0);
    assert [] + [t] == [t] && [] + [r0] == [r0];
    AddKeeps([t], [r0], read, 1, t, r1);
    assert [t] + [t] == [t, t] && [r0] + [r1] == [r0, r1];
  }

  /** Firing a task of the list, removing it once from the list and deleting the first row
      showing it, keeps them consistent. */
  lemma FireKeeps(tasks: seq<Task>, rows: seq<Row>, read: Row -> Option<Task>, nextItem: nat, t: Task)
    requires Consistent(tasks, rows, read, nextItem) && t in tasks
    ensures Consistent(RemoveFirst(tasks, t), DeleteFirstMatch(rows, read, t), read, nextItem)
  {
    RemoveFirstCount(tasks, t);
    MinusBoth(multiset(tasks), multiset(Shown(rows, read)), t);
    DeleteFirstMatchShown(rows, read, t);
    DeleteFirstMatchKeepsRows(rows, read, nextItem, t);
  }

  // ---------------------------------------------------------------------------
  // The application
  // ---------------------------------------------------------------------------

  datatype RemoveOutcome = NoSelection | Removed
  datatype StartOutcome = AlreadyRunning | Started
  datatype StopOutcome = NotRunning | Stopped

  class Clicker {
    /** How a row of the view is read back into a task: the `split`/`strip`/`int` parsing that
        `remove_task` and `run_clicks` both do, Rows.ParseRow (the constructor fixes it). */
    const read: Row -> Option<Task>
    /** `scheduled_tasks`, in insertion order. */
    var tasks: seq<Task>
    /** The rows of `task_tree`, in display order. */
    var rows: seq<Row>
    /** The item id the view hands out to the next inserted row. */
    var nextItem: nat
    /** `automation_running` */
    var running: bool
    /** How many polling loops (`run_clicks` threads) have been started. */
    var loops: nat
    /** The clicks performed so far, oldest first. */
    var clicks: seq<Click>

    /** The rows are those written for the tasks: each reads back, their ids are distinct, and
        every scheduled task is shown by a row of its own (the view may show more: see
        DuplicateRowOutlivesTask). */
    ghost predicate Valid()
      reads this
    {
      RoundTrips(read) && Consistent(tasks, rows, read, nextItem)
    }

    /** The application at start-up: nothing scheduled, nothing shown, not running. */
    constructor()
      ensures Valid()
      ensures read == ParseRow
      ensures tasks == [] && rows == [] && nextItem == 0 && !running && loops == 0 && clicks == []
    {
      read := ParseRow;
      tasks, rows, nextItem := [], [], 0;
      running, loops, clicks := false, 0, [];
      ParseRowRoundTrips();
    }

    /** "Add to Schedule": read the form; on success append the task to the list and its row
        to the view; on failure change nothing. */
    method AddTask(form: Form) returns (r: Result<Task, AddError>)
      requires Valid()
      modifies this`tasks, this`rows, this`nextItem
      ensures Valid()
      ensures r == ReadTask(form)
      ensures r.Success? ==>
        && tasks == old(tasks) + [r.value]
        && rows == old(rows) + [FormatRow(old(nextItem), r.value)]
        && nextItem == old(nextItem) + 1
      ensures r.Failure? ==> tasks == old(tasks) && rows == old(rows) && nextItem == old(nextItem)
    {
      r := ReadTask(form);
      if r.Success? {
        var t := r.value;
        var row := FormatRow(nextItem, t);
        AddKeeps(tasks, rows, read, nextItem, t, row);
        tasks := tasks + [t];
        rows := rows + [row];
        nextItem := nextItem + 1;
      }
    }

    /** One pass of the `for item in selected_item` loop of `remove_task`: parse the row's
        tuple, remove every equal task from the list, then delete the row. */
    method RemoveItem(item: nat)
      requires Valid()
      requires IndexOf(rows, item) < |rows|
      modifies this`tasks, this`rows
      ensures Valid()
      ensures var i := IndexOf(old(rows), item);
        && rows == old(rows)[..i] + old(rows)[i + 1..]
        && tasks == Without(old(tasks), read(old(rows)[i]).value)
    {
      var i := IndexOf(rows, item);
      var v := read(rows[i]).value;
      RemoveItemKeeps(tasks, rows, read, nextItem, i);
      RemoveEqual(v);
      rows := rows[..i] + rows[i + 1..];
    }

    /** The inner loop of `remove_task`: walk a copy of the list and remove each task equal to
        v as it is met. */
    method RemoveEqual(v: Task)
      modifies this`tasks
      ensures tasks == Without(old(tasks), v)
    {
      var copy := tasks;
      var k := 0;
      while k < |copy|
        invariant k <= |copy|
        invariant tasks == Without(copy[..k], v) + copy[k..]
      {
        WithoutStep(copy, k, v);
        if copy[k] == v {
          tasks := RemoveFirst(tasks, copy[k]);
        }
        k := k + 1;
      }
      assert copy[..k] == copy;
    }

    /** "Remove Selected Task": with no selection, warn and change nothing; otherwise remove,
        for each selected row, every task equal to its tuple, and delete the selected rows. */
    method RemoveSelected(selection: seq<nat>) returns (o: RemoveOutcome)
      requires Valid()
      requires forall k :: 0 <= k < |selection| ==> IndexOf(rows, selection[k]) < |rows|
      requires forall k, l :: 0 <= k < l < |selection| ==> selection[k] != selection[l]
      modifies this`tasks, this`rows
      ensures Valid()
      ensures o == if selection == [] then NoSelection else Removed
      ensures rows == Filter(old(rows), Unselected(selection))
      ensures tasks == Exclude(old(tasks), Selected(old(rows), read, selection))
    {
      if selection == [] {
        FilterAll(rows, Unselected(selection));
        FilterAll(tasks, NotIn([]));
        return NoSelection;
      }
      RemoveEach(selection);
      assert selection[..|selection|] == selection;
      return Removed;
    }

    /** The `for item in selected_item` loop of `remove_task`. */
    method RemoveEach(selection: seq<nat>)
      requires Valid()
      requires forall k :: 0 <= k < |selection| ==> IndexOf(rows, selection[k]) < |rows|
      requires forall k, l :: 0 <= k < l < |selection| ==> selection[k] != selection[l]
      modifies this`tasks, this`rows
      ensures Valid()
      ensures Removing(selection, |selection|, old(rows), old(tasks))
    {
      ghost var rows0, tasks0 := rows, tasks;
      FilterAll(rows0, Unselected([]));
      FilterAll(tasks0, NotIn([]));
      var k := 0;
      while k < |selection|
        invariant k <= |selection| && Valid() && Removing(selection, k, rows0, tasks0)
        invariant RowsRead(rows0, read) && ItemsFresh(rows0, nextItem)
      {
        RemoveNext(selection, k, rows0, tasks0);
        k := k + 1;
      }
    }

    /** Where the loop of `remove_task` stands after the first k selected ids: their rows are
        gone from the view and every task equal to one of their tuples from the list. */
    ghost predicate Removing(selection: seq<nat>, k: nat, rows0: seq<Row>, tasks0: seq<Task>)
      requires k <= |selection|
      reads this
    {
      && rows == Filter(rows0, Unselected(selection[..k]))
      && tasks == Exclude(tasks0, Selected(rows0, read, selection[..k]))
    }

    /** One turn of the loop over the selection in `remove_task`: the k-th selected row, still
        in the view, is deleted and the tasks equal to its tuple are removed. */
    method RemoveNext(selection: seq<nat>, k: nat, ghost rows0: seq<Row>, ghost tasks0: seq<Task>)
      requires Valid() && k < |selection|
      requires IndexOf(rows0, selection[k]) < |rows0|
      requires forall k, l :: 0 <= k < l < |selection| ==> selection[k] != selection[l]
      requires RowsRead(rows0, read) && ItemsFresh(rows0, nextItem)
      requires Removing(selection, k, rows0, tasks0)
      modifies this`tasks, this`rows
      ensures Valid()
      ensures Removing(selection, k + 1, rows0, tasks0)
    {
      var item := selection[k];
      StillShown(rows0, selection, k);
      ghost var i := IndexOf(rows, item);
      SameRow(rows0, nextItem, Unselected(selection[..k]), item);
      SelectedNext(rows0, read, selection, k);
      assert ShownBy(rows0, read, item) == [read(rows[i]).value];
      ExcludeMore(tasks0, Selected(rows0, read, selection[..k]), read(rows[i]).value);
      DropNext(rows0, selection, k);
      DropAt(rows, nextItem, i);
      RemoveItem(item);
    }

    /** One tick of `run_clicks` at the wall-clock second `now`: walk a copy of the list and
        fire each task due at `now`. */
    method Tick(now: TimeOfDay)
      requires Valid() && running
      modifies this`tasks, this`clicks, this`rows
      ensures Valid()
      ensures tasks == Pending(old(tasks), now)
      ensures clicks == old(clicks) + Clicks(Due(old(tasks), now))
      ensures rows == RowsAfterFiring(old(rows), read, Due(old(tasks), now))
    {
      var copy := tasks;
      var k := 0;
      TickStart(copy, now);
      while k < |copy|
        invariant k <= |copy| && Walked(copy, k, now, old(clicks), old(rows))
      {
        Visit(copy, k, now, old(clicks), old(rows));
        k := k + 1;
      }
      TickEnd(copy, now);
      TickKeeps(copy, old(rows), read, nextItem, now);
    }

    /** Where the walk of a tick stands after the first k tasks of the copy: the tasks met so
        far that were due are gone from the list, clicked in turn, and their rows deleted. */
    ghost predicate Walked(copy: seq<Task>, k: nat, now: TimeOfDay, clicks0: seq<Click>, rows0: seq<Row>)
      requires k <= |copy|
      reads this
    {
      && tasks == Pending(copy[..k], now) + copy[k..]
      && clicks == clicks0 + Clicks(Due(copy[..k], now))
      && rows == RowsAfterFiring(rows0, read, Due(copy[..k], now))
    }

    /** One turn of the loop of `run_clicks` over the copy of the list: fire the k-th task of
        the copy when it is due at `now`, otherwise leave everything as it is. */
    method Visit(copy: seq<Task>, k: nat, now: TimeOfDay, ghost clicks0: seq<Click>, ghost rows0: seq<Row>)
      requires k < |copy| && Walked(copy, k, now, clicks0, rows0)
      modifies this`tasks, this`clicks, this`rows
      ensures Walked(copy, k + 1, now, clicks0, rows0)
    {
      TickStep(copy, k, now);
      if copy[k].At() == now {
        var task := copy[k];
        ghost var fired := Due(copy[..k], now);
        RowsAfterFiringSnoc(rows0, read, fired, task);
        ClicksSnoc(fired, task);
        Fire(task);
        assert clicks == clicks0 + Clicks(fired + [task]) by {
          assert clicks == (clicks0 + Clicks(fired)) + [Click(task.x, task.y)];
        }
      }
    }

    /** The body of the `if` in `run_clicks` for a due task: click at its point, remove it from
        the list, and delete the first row showing it. */
    method Fire(task: Task)
      requires task in tasks
      modifies this`tasks, this`clicks, this`rows
      ensures clicks == old(clicks) + [Click(task.x, task.y)]
      ensures tasks == RemoveFirst(old(tasks), task)
      ensures rows == DeleteFirstMatch(old(rows), read, task)
    {
      clicks := clicks + [Click(task.x, task.y)];
      tasks := RemoveFirst(tasks, task);
      DeleteShownRow(task);
    }

    /** The inner loop of `run_clicks` after a firing: delete the first row showing the fired
        task, if any, and stop there. */
    method DeleteShownRow(t: Task)
      modifies this`rows
      ensures rows == DeleteFirstMatch(old(rows), read, t)
    {
      var j := 0;
      while j < |rows|
        invariant j <= |rows|
        invariant rows == old(rows)
        invariant forall l {:trigger read(rows[l])} :: 0 <= l < j ==> read(rows[l]) != Some(t)
      {
        if read(rows[j]) == Some(t) {
          assert FirstMatch(rows, read, t) == j;
          rows := rows[..j] + rows[j + 1..];
          return;
        }
        j := j + 1;
      }
      assert FirstMatch(rows, read, t) == |rows|;
    }

    /** "Start Automation": when already running, say so and start nothing; otherwise set the
        flag and start one polling loop. */
    method StartAutomation() returns (o: StartOutcome)
      requires Valid()
      modifies this`running, this`loops
      ensures Valid()
      ensures o == if old(running) then AlreadyRunning else Started
      ensures running
      ensures loops == if old(running) then old(loops) else old(loops) + 1
    {
      if running {
        return AlreadyRunning;
      }
      running := true;
      loops := loops + 1;
      return Started;
    }

    /** "Stop Automation": when not running, say so; otherwise clear the flag, which ends the
        polling loop at its next check. */
    method StopAutomation() returns (o: StopOutcome)
      requires Valid()
      modifies this`running
      ensures Valid()
      ensures o == if old(running) then Stopped else NotRunning
      ensures !running
    {
      if !running {
        return NotRunning;
      }
      running := false;
      return Stopped;
    }
  }

  /** One step of the walk over the copy in `remove_task`: a task equal to v is found first
      among what is left of the list and removed; any other task stays. */
  lemma WithoutStep(copy: seq<Task>, k: nat, v: Task)
    requires k < |copy|
    ensures var t, done := copy[k], Without(copy[..k], v);
      && (t == v ==> t in done + copy[k..])
      && Without(copy[..k + 1], v) + copy[k + 1..]
         == if t == v then RemoveFirst(done + copy[k..], t) else done + copy[k..]
  {
    var t, done := copy[k], Without(copy[..k], v);
    assert copy[k..] == [t] + copy[k + 1..];
    FilterSnoc(copy, k, NotIn([v]));
    if t == v {
      FilterMembers(copy[..k], NotIn([v]));
      assert done + copy[k..] == done + [t] + copy[k + 1..];
      RemoveFirstAfter(done, t, copy[k + 1..]);
    } else {
      assert done + copy[k..] == (done + [t]) + copy[k + 1..];
    }
  }

  /** Before the walk nothing has fired: the list is the whole copy still to walk. */
  lemma TickStart(copy: seq<Task>, now: TimeOfDay)
    ensures Pending(copy[..0], now) + copy[0..] == copy
    ensures Due(copy[..0], now) == []
  {
    assert copy[..0] == [] && copy[0..] == copy;
  }

  /** After the walk everything has been seen: what is left is what the whole copy leaves. */
  lemma TickEnd(copy: seq<Task>, now: TimeOfDay)
    ensures Pending(copy[..|copy|], now) + copy[|copy|..] == Pending(copy, now)
    ensures Due(copy[..|copy|], now) == Due(copy, now)
  {
    assert copy[..|copy|] == copy && copy[|copy|..] == [];
  }

  /** The walk of a tick keeps the list and the view consistent: after the first k tasks of the
      copy, the list left and the rows left are still consistent. */
  lemma {:induction false} WalkKeeps(copy: seq<Task>, k: nat, rows0: seq<Row>, read: Row -> Option<Task>,
                                     nextItem: nat, now: TimeOfDay)
    requires k <= |copy| && Consistent(copy, rows0, read, nextItem)
    ensures Consistent(Pending(copy[..k], now) + copy[k..], RowsAfterFiring(rows0, read, Due(copy[..k], now)),
                       read, nextItem)
  {
    if k == 0 {
      TickStart(copy, now);
    } else {
      var j := k - 1;
      var t := copy[j];
      WalkKeeps(copy, j, rows0, read, nextItem, now);
      TickStep(copy, j, now);
      if t.At() == now {
        var fired := Due(copy[..j], now);
        RowsAfterFiringSnoc(rows0, read, fired, t);
        FireKeeps(Pending(copy[..j], now) + copy[j..], RowsAfterFiring(rows0, read, fired), read, nextItem, t);
      }
    }
  }

  /** So a whole tick keeps the list and the view consistent. */
  lemma TickKeeps(ts: seq<Task>, rows: seq<Row>, read: Row -> Option<Task>, nextItem: nat, now: TimeOfDay)
    requires Consistent(ts, rows, read, nextItem)
    ensures Consistent(Pending(ts, now), RowsAfterFiring(rows, read, Due(ts, now)), read, nextItem)
  {
    WalkKeeps(ts, |ts|, rows, read, nextItem, now);
    TickEnd(ts, now);
  }

  /** One step of the walk over the copy: a due task moves from the list to the fired tasks,
      where it is found first among what is left of the list; a task that is not due stays. */
  lemma TickStep(copy: seq<Task>, k: nat, now: TimeOfDay)
    requires k < |copy|
    ensures copy[k] in Pending(copy[..k], now) + copy[k..]
    ensures copy[k].At() == now ==>
      && Due(copy[..k + 1], now) == Due(copy[..k], now) + [copy[k]]
      && Pending(copy[..k + 1], now) + copy[k + 1..]
         == RemoveFirst(Pending(copy[..k], now) + copy[k..], copy[k])
    ensures copy[k].At() != now ==>
      && Due(copy[..k + 1], now) == Due(copy[..k], now)
      && Pending(copy[..k + 1], now) + copy[k + 1..] == Pending(copy[..k], now) + copy[k..]
  {
    var t, done := copy[k], Pending(copy[..k], now);
    assert copy[k..] == [t] + copy[k + 1..];
    FilterSnoc(copy, k, DueAt(now));
    FilterSnoc(copy, k, NotDueAt(now));
    if t.At() == now {
      FilterMembers(copy[..k], NotDueAt(now));
      assert done + copy[k..] == done + [t] + copy[k + 1..];
      RemoveFirstAfter(done, t, copy[k + 1..]);
    } else {
      assert Due(copy[..k], now) + [] == Due(copy[..k], now);
      assert done + copy[k..] == (done + [t]) + copy[k + 1..];
    }
  }

  /** The clicks for the fired tasks grow by one click per newly fired task. */
  lemma ClicksSnoc(fired: seq<Task>, t: Task)
    ensures Clicks(fired + [t]) == Clicks(fired) + [Click(t.x, t.y)]
  {
    ClicksAppend(fired, [t]);
    assert [t][1..] == [];
  }

  /** A selected row not yet handled is still in the view. */
  lemma StillShown(rows0: seq<Row>, selection: seq<nat>, k: nat)
    requires k < |selection|
    requires IndexOf(rows0, selection[k]) < |rows0|
    requires forall k, l :: 0 <= k < l < |selection| ==> selection[k] != selection[l]
    ensures var rows := Filter(rows0, Unselected(selection[..k]));
      IndexOf(rows, selection[k]) < |rows|
  {
    var rows := Filter(rows0, Unselected(selection[..k]));
    var r := rows0[IndexOf(rows0, selection[k])];
    assert r.item !in selection[..k];
    FilterMembers(rows0, Unselected(selection[..k]));
    assert r in rows;
    var j :| 0 <= j < |rows| && rows[j] == r;
    assert IndexOf(rows, selection[k]) <= j;
  }

  /** ... and it is the row the view had for that id at the start, so it shows the same task. */
  lemma SameRow(rows0: seq<Row>, nextItem: nat, keep: Row -> bool, item: nat)
    requires ItemsFresh(rows0, nextItem)
    requires IndexOf(rows0, item) < |rows0|
    requires IndexOf(Filter(rows0, keep), item) < |Filter(rows0, keep)|
    ensures var rows := Filter(rows0, keep);
      rows[IndexOf(rows, item)] == rows0[IndexOf(rows0, item)]
  {
    var rows := Filter(rows0, keep);
    var r := rows[IndexOf(rows, item)];
    FilterMembers(rows0, keep);
    assert r in rows0;
    var j :| 0 <= j < |rows0| && rows0[j] == r;
    var i0 := IndexOf(rows0, item);
    assert !(j < i0);
    assert !(i0 < j);
  }

  /** Holds of the rows with another id than item. */
  function NotItem(item: nat): Row -> bool {
    (r: Row) => r.item != item
  }

  /** Dropping the row at i, the only row with its id, is filtering that id out. */
  lemma DropAt(rows: seq<Row>, nextItem: nat, i: nat)
    requires ItemsFresh(rows, nextItem) && i < |rows|
    ensures Filter(rows, NotItem(rows[i].item)) == rows[..i] + rows[i + 1..]
  {
    var p := NotItem(rows[i].item);
    forall j | 0 <= j < |rows| && j != i
      ensures p(rows[j])
    {
      assert !(j < i && rows[j].item == rows[i].item);
      assert !(i < j && rows[i].item == rows[j].item);
    }
    FilterDropOne(rows, i, p);
  }

  /** Removing the rows of the first k selected ids, then the row of the next one, is removing
      the rows of the first k + 1. */
  lemma DropNext(rows0: seq<Row>, selection: seq<nat>, k: nat)
    requires k < |selection|
    ensures Filter(Filter(rows0, Unselected(selection[..k])), NotItem(selection[k]))
      == Filter(rows0, Unselected(selection[..k + 1]))
  {
    assert selection[..k + 1] == selection[..k] + [selection[k]];
    FilterBoth(rows0, Unselected(selection[..k]), NotItem(selection[k]), Unselected(selection[..k + 1]));
  }

  /** The tuples of the first k + 1 selected rows are those of the first k, then the next one's. */
  lemma SelectedNext(rows0: seq<Row>, read: Row -> Option<Task>, selection: seq<nat>, k: nat)
    requires k < |selection|
    ensures Selected(rows0, read, selection[..k + 1])
      == Selected(rows0, read, selection[..k]) + ShownBy(rows0, read, selection[k])
  {
    var s := selection[..k + 1];
    assert s[..k] == selection[..k] && s[k] == selection[k];
  }
}
