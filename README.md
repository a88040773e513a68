# Auto-clicker scheduling core, in Dafny

`automouse.py` is a small Tk application. It schedules mouse clicks at given times of day.
The user types an hour, minute, second and an (x, y) screen point, then presses "Add to
Schedule". The task is appended to the global list `scheduled_tasks` and shown as a row in a
task view. "Remove Selected Task" deletes the selected rows. It also removes every scheduled
task equal to the tuple a selected row shows. "Start Automation" launches a background loop,
`run_clicks`. Once a second, the loop compares the wall clock with every task. It clicks at
each due task's point, removes the task from the list and deletes the first row showing it.
"Stop Automation" clears the running flag that the loop checks.

This project models that core and proves what it promises:

- `PyText` holds the pieces of Python's `str`/`int` built-ins the row text relies on:
  `str(n)`, the `02d` format, `str.split`, `str.strip`, and `int(s)` with its whitespace
  and underscore rules.
- `Schedule` holds the task record and the validation of `add_task`. It also defines, as
  functions on values, what `remove_task` and one tick of `run_clicks` leave of the list
  and which clicks a tick performs. Each comes with lemmas.
- `Rows` covers the two column texts a row shows, how they are parsed back, and the
  deletion of the first matching row after a firing.
- `AutoMouse` holds the reading of the form. It also holds the class `Clicker`, whose
  fields are the list, the view's rows, the next item id, the running flag, the number of
  polling loops started and the clicks performed. Its methods are the buttons and one
  tick of the loop. The loops over list copies, and the break-on-first-match loop over
  the rows, are written as loops.

`Clicker.Valid()` is the class invariant:

- every row reads back as a task;
- row ids are distinct and below the next id;
- every scheduled task is shown by a row of its own (a multiset inclusion).

It is only an inclusion: `DuplicateRowOutlivesTask` shows a row that outlives its task.

## Model

| member | source | states |
|---|---|---|
| Schedule.RangeError | automouse.py:57-62 | The checks run hour, then minute, then second. The first one out of range is reported. No error iff 0 ≤ hour < 24, 0 ≤ minute < 60 and 0 ≤ second < 60. |
| AutoMouse.ReadTask | automouse.py:50-72 | A task is accepted only with each field equal to what `int()` reads from its entry, and only with a valid time of day. |
| AutoMouse.ReadTaskAccepts | automouse.py:50-62 | The form is accepted iff all five entries read as integers and hour, minute and second are in range. x and y are not range-checked. |
| AutoMouse.ReadTaskNotAnInteger | automouse.py:50-54 | An "invalid literal" error names an entry that `int()` rejects. Every entry read before it was read successfully. |
| AutoMouse.ReadTaskOutOfRange | automouse.py:57-62 | A range error arises only when all five entries read. It names the first time field out of range. |
| AutoMouse.ReadTaskOfRow | automouse.py:50-54 | Typing a valid task's numbers back into the form, as `str()` writes them, gives that task. |
| AutoMouse.Clicker.AddTask | automouse.py:45-79 | On success, the task is appended to the list and its row, with a fresh id, to the view. On failure, nothing changes. The invariant is kept. |
| AutoMouse.AddKeeps | automouse.py:72-79 | Appending a task and a fresh row that reads back as it keeps the list and the view consistent. |
| AutoMouse.Clicker.RemoveSelected | automouse.py:98-121 | With no selection, it warns and changes nothing. Otherwise the selected rows leave the view. The list loses exactly the tasks equal to a selected row's tuple, in order. |
| AutoMouse.Clicker.RemoveEach | automouse.py:104-121 | The `for item in selected_item` loop: after it, the selected rows are filtered out of the view and the list is the old list without every task equal to a selected row's tuple. The invariant is kept. |
| AutoMouse.Clicker.RemoveNext | automouse.py:104-121 | One turn of that loop: the next selected row, still in the view, is deleted, and the tasks equal to its tuple leave the list, so the removal so far covers one more selected id. |
| AutoMouse.Clicker.RemoveItem | automouse.py:104-121 | One selected row: the tasks equal to its parsed tuple are removed, then that row is deleted. The invariant is kept. |
| AutoMouse.Clicker.RemoveEqual | automouse.py:115-118 | Walking a copy and calling `remove` on each equal task leaves the list filtered of that tuple. |
| AutoMouse.RemoveItemKeeps | automouse.py:104-121 | Removing a row and every task equal to its tuple keeps the list and the view consistent. |
| Schedule.RemoveMatching | automouse.py:115-118 | After removal no task equals the tuple. Every other task keeps its count and relative order. The list shrinks by the number of equal tasks. |
| Schedule.RemoveSelectedTuples | automouse.py:104-121 | After removing several selected tuples, a task remains iff it was there and is none of them. What stays keeps its counts and order. |
| Schedule.ExcludeMore | automouse.py:104-118 | Removing one selected row's tuple after those of earlier rows equals removing all of them at once. |
| Schedule.RemoveFirstAfter | automouse.py:118 | `list.remove(v)` takes out the first v: removing v from a + [v] + b, with v not in a, gives a + b. |
| Schedule.RemoveFirstCount | automouse.py:151 | `list.remove` takes out exactly one copy of the task. |
| AutoMouse.Clicker.Tick | automouse.py:136-163 | One tick at `now`, only while the running flag is set: the list keeps the not-due tasks, in order. The clicks grow by one click per due task, in list order. The rows lose the first row showing each fired task, in firing order. The invariant is kept. |
| AutoMouse.Clicker.Visit | automouse.py:143-151 | One turn of the loop over the copy: a due task fires and leaves the list, and any other task stays. |
| AutoMouse.Clicker.Fire | automouse.py:148-163 | Firing a task appends its click, removes its first copy from the list and deletes the first row that shows it. |
| AutoMouse.Clicker.DeleteShownRow | automouse.py:154-163 | The loop over the rows deletes the first row whose parsed tuple equals the fired task, and only that row. |
| AutoMouse.TickKeeps | automouse.py:143-163 | A whole tick keeps the list and the view consistent. |
| AutoMouse.WalkKeeps | automouse.py:143-163 | Consistency holds after each step of the walk over the copy (induction on the steps). |
| AutoMouse.FireKeeps | automouse.py:151-163 | Removing one copy of a fired task and deleting the first row showing it keeps them consistent. |
| AutoMouse.TickStep | automouse.py:143-151 | At step k of the walk, the current task is still in the list. A due task is removed as the first of its copies left, and any other task stays. |
| Schedule.TickSplitsList | automouse.py:143-151 | After a tick, no task due at `now` remains. Tasks with another time keep their counts and relative order. A task fires iff it is in the list and due. Fired plus kept equals the list. |
| Schedule.TickClicksInListOrder | automouse.py:143-149 | The clicks follow list order. A task adds its own click iff it is due, and one click is made per due task. |
| Schedule.FiresAtMostOnce | automouse.py:150-151 | A second tick at the same second finds nothing due and leaves the list as it is. |
| Rows.FirstMatch | automouse.py:154-163 | The row the loop stops at shows the fired task, and no row before it does. |
| Rows.DeleteFirstMatchShown | automouse.py:154-163 | The deletion after a firing takes exactly one copy of the task out of what the view shows, or nothing if no row shows it. |
| Rows.DeleteFirstMatchRemovesOne | automouse.py:154-163 | Either some row i shows the task, no row before it does, and exactly row i is deleted with the others kept in order; or no row shows the task and every row stays. |
| Rows.FiringLeavesOtherRows | automouse.py:115-163 | Where several rows show a fired task, the deletion after the firing leaves all but one of them, while removal in `remove_task` leaves no equal task. |
| Rows.RowsAfterFiringShown | automouse.py:143-163 | After the deletions for the fired tasks, the view shows what it showed less the fired tasks, as a multiset. |
| Rows.ShownRemoveAt | automouse.py:121 | Deleting a row takes exactly its tuple out of what the view shows. |
| Rows.FormatTime | automouse.py:78 | For a valid time of day the time column is "HH:MM:SS": eight characters, colons at positions 2 and 5, digits elsewhere. |
| Rows.FormatCoords | automouse.py:78 | The coordinates column is the two numbers in parentheses, with ", " right after the first number. |
| Rows.FormatRow | automouse.py:72-78 | The row inserted for a task carries the id the view handed out, an "HH:MM:SS" time for a valid time, and a parenthesised coordinates text. |
| Rows.ParseTime | automouse.py:106-109 | A time text is read only when it holds exactly two colons, so that it splits into three numbers. |
| Rows.ParseCoords | automouse.py:110-112 | A coordinates text is read only when, inside its parentheses, it holds exactly one comma. |
| Rows.ParseRow | automouse.py:106-112 | A row is read only when its time has two colons and its stripped coordinates one comma. |
| Rows.TimeRoundTrip | automouse.py:106-109 | Parsing the time column written with `f"{h:02d}:{m:02d}:{s:02d}"` by `split(":")` and `int` gives back hour, minute and second. This holds for any integers. |
| Rows.CoordsRoundTrip | automouse.py:110-112 | Parsing the column written with `f"({x}, {y})"` by `strip("()")`, `split(",")` and `int` gives back (x, y). Negative coordinates are included. |
| Rows.RowRoundTrip | automouse.py:155-159 | A row written for a task parses back as that task. |
| AutoMouse.ParseRowRoundTrips | automouse.py:155-161 | The row parser inverts the row format for every item id and task. |
| AutoMouse.DuplicateRowOutlivesTask | automouse.py:104-121 | Take two rows with the same tuple. Removing one of them empties the list of that tuple, but the other row stays in the view. |
| AutoMouse.Clicker.constructor | automouse.py:20-21 | At start-up nothing is scheduled, the view is empty, the flag is clear, no loop runs and no click has been made. The invariant holds. |
| PyText.Str | automouse.py:78 | `str(n)` is non-empty, is all digits after an optional minus sign, and has the sign only for negative n. |
| PyText.ZeroPad2 | automouse.py:78 | The `02d` format writes at least two characters, and exactly two digits for 0 ≤ n < 100. |
| PyText.Split | automouse.py:109-112 | `str.split(sep)` gives at least one piece, no piece contains sep, and there is one piece iff sep does not occur. |
| PyText.SplitCount | automouse.py:109-112 | k separators give k + 1 pieces. |
| PyText.Strip | automouse.py:111 | `str.strip(chars)` is no longer than its input and neither starts nor ends with a character of chars. |
| PyText.ParseIntNeedsDigit | automouse.py:50-54 | `int()` rejects text without a decimal digit, the empty entry among it. |
| PyText.ParseIntOfStr | automouse.py:112 | `int()` reads back what `str()` writes, also after leading whitespace such as the space after the comma. |
| PyText.ParseIntOfZeroPad2 | automouse.py:109 | `int()` reads back what the `02d` format writes, leading zero included. |
| PyText.SplitJoin | automouse.py:109 | Splitting text joined from separator-free pieces gives the pieces back. |
| PyText.JoinSplit | automouse.py:109 | Joining the pieces of a split restores the text. |
| PyText.StripLeftSpec | automouse.py:111 | The left strip removes the longest prefix made of the given characters. |
| PyText.StripRightSpec | automouse.py:111 | The right strip removes the longest suffix made of the given characters. |
| PyText.StripPadded | automouse.py:111 | Stripping removes exactly the padding around text that starts and ends with kept characters. |
| AutoMouse.Clicker.StartAutomation | automouse.py:124-168 | While running, it reports "already running", keeps the flag and starts no loop. Otherwise it sets the flag and starts exactly one loop. |
| AutoMouse.Clicker.StopAutomation | automouse.py:171-181 | While stopped, it reports "not running" and changes nothing. Otherwise it clears the flag. |

## Left out

- All widget layout and styling, the window's withdraw/restore, `pick_coordinates` and every
  message box. The outcomes the message boxes report are return values instead
  (`AddError`, `RemoveOutcome`, `StartOutcome`, `StopOutcome`).
- Clearing the entry fields after a successful add is left out: it is UI state.
- `pyautogui.moveTo`/`click`: a click is the pair (x, y) appended to `clicks`. The fail-safe of
  pyautogui is not modelled: with the pointer in a screen corner, as after a move to (0, 0), the
  next call raises, and `run_clicks` ends with the task still listed and `automation_running`
  still set.
- `datetime.now()` and `time.sleep(1)`: the time of day is the parameter of `Tick`. The
  polling loop is modelled as single ticks, and `loops` counts the loops started.
- Threading: every operation is atomic. After a stop, the old loop ends at its next check.
  A start within that second therefore leaves two loops running; this is not modelled.
  Neither are ticks that interleave with button presses.
- The task view is a sequence of rows: item id, time text and coordinates text. The id
  the view hands out is a counter, `nextItem`. Selection is a list of ids of rows in the
  view, with no repeats.
- `AutoMouse.Clicker.read` is the row parser, fixed by the constructor to `Rows.ParseRow`.
  The invariant requires only that it inverts the row format.
- ReadTaskAccepts: "reads as an integer" is `PyText.ParseInt`, which differs from Python's `int()`
  in two ways. It accepts ASCII digits only, where `int()` also accepts other Unicode decimal
  digits. It has no length limit, where `int()` refuses literals of more than 4300 digits
  (the default of `sys.set_int_max_str_digits`). So a form with a 4301-digit x is accepted by the
  model and refused by `add_task`, and a 4301-digit hour reports an out-of-range hour instead of
  an invalid literal.
- PyText.ParseInt: does not model the 4300-digit limit of `int()` or its non-ASCII digits, as above.
- The `ValueError` that parsing a malformed row would raise in `remove_task` or in the loop
  cannot arise under `Clicker.Valid()`, because every row parses. If a row did not parse,
  `DeleteShownRow` would skip it.
- The text of the error messages is not modelled, only which entry or check failed.
