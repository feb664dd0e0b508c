# To-do list task store

A Dafny model of the task store behind the Swing to-do window
`AdvancedToDoList`. The store is `taskModel`, an ordered list of tasks.
The window changes or reads it in five ways:

- **add**: trim the title and date fields, refuse a blank field or a date
  `LocalDate.parse` rejects, otherwise append a new, not yet completed task;
- **delete** and **mark done**: act on the task at the selected index,
  unless nothing is selected (`-1`);
- **search**: collect, in store order, the tasks whose lower-cased title
  contains the lower-cased query, then choose which list the widget shows;
- **load**: at start-up, append the tasks decoded from the saved file, or
  nothing when decoding fails.

Modules, one per concept:

- `Wrappers` (`wrappers.dfy`): `Option` and `Result`.
- `JavaText` (`java_text.dfy`): `String.trim`, `String.toLowerCase` and
  `String.contains`. Each has a characterisation proved about it: `Trim` is
  the unique trimmed core, and `Contains` holds exactly when the text occurs
  at some position.
- `IsoDate` (`iso_date.dfy`): the `YYYY-MM-DD` date text. `ParseDate` and
  `FormatDate` are proved to be exact inverses on real dates.
- `ToDo` (`todo.dfy`): `Priority`, `Task`, and `NewTask`, the validation
  step of `addTask`.
- `TaskStore` (`task_list.dfy`): the class `TaskList`, which holds the store
  as a `seq<Task>` field that its methods reassign. It also holds the pure
  specification the methods are proved against: `Filter`, `StoreIndex`,
  `RemoveAt` and `MarkDoneAt`, with lemmas about each.

The following are parameters or plain values in the model:

- The saved file is the input of `LoadTasks`. This input is the outcome of
  decoding: `Some(tasks)`, or `None` for a missing, unreadable or
  incompatible file.
- The selected row index is the input of `DeleteSelected` and
  `MarkSelectedDone`.
- The search field text is the input of `FilterTasks`.
- The list the widget shows is a `Display` value that `FilterTasks` returns.

### Behaviour as coded

- A selected index other than `-1` that lies outside the store does not
  leave the store silently untouched. `DefaultListModel.remove` and `get`
  throw on such an index, and the Swing event loop reports the exception.
  The model calls this case `OutOfRange`; the store stays unchanged.
- The window shows the live `taskModel` after a search only when both the
  result and the query are empty, which means only when the store itself is
  empty (`FilterTasks` proves this). Every other search, including the empty
  query on a non-empty store, shows a fresh snapshot.
- Tasks read from the saved file are not validated. They may have any
  title and any completion flag.

## Model

| member | source | states |
|---|---|---|
| `JavaText.Trim` | AdvancedToDoList.java:132-133 | the trimmed text is a contiguous slice of the input; everything outside the slice is a character at or below U+0020; the slice is empty or starts and ends with a kept character |
| `JavaText.TrimUnique` | AdvancedToDoList.java:132-133 | any split of a text into a blank prefix, a trimmed core and a blank suffix has that core as its `Trim` |
| `JavaText.TrimIdempotent` | AdvancedToDoList.java:132-133 | trimming an already trimmed text changes nothing; `NewTask` uses it to show that a stored title trims to itself |
| `JavaText.TrimEmptyIff` | AdvancedToDoList.java:132-134 | a field trims to the empty string exactly when every character of it is blank |
| `JavaText.ToLower` | AdvancedToDoList.java:165-169 | lower-casing keeps the length and folds each ASCII capital to its small letter, leaving every other character as it is |
| `JavaText.LowerChar` | AdvancedToDoList.java:165-169 | one character lower-cased: an ASCII capital becomes its small letter (code plus 32), every other character is kept, and no result is an ASCII capital |
| `JavaText.Contains` | AdvancedToDoList.java:169 | `String.contains`: true whenever the query is a prefix of the title, and never when the query is longer than the title |
| `JavaText.ContainsIff` | AdvancedToDoList.java:169 | `contains` holds exactly when the query occurs at some position of the title |
| `JavaText.ContainsEmpty` | AdvancedToDoList.java:169 | every title contains the empty query |
| `IsoDate.ParseDate` | AdvancedToDoList.java:139 | a parsed date has a four-digit year, a month in 1..12 and a day within that month's length, with 29 February only in leap years |
| `IsoDate.ParseDateSound` | AdvancedToDoList.java:139 | a text that parses is exactly the ISO form of the date it yields |
| `IsoDate.ParseFormatted` | AdvancedToDoList.java:139 | the ISO form of every real date parses back to that date |
| `IsoDate.ParseDateIff` | AdvancedToDoList.java:138-146 | parsing yields date `d` if and only if `d` is a real date and the text is its ISO form; every other text is rejected |
| `IsoDate.LeapDayIff` | AdvancedToDoList.java:139 | `YYYY-02-29` parses if and only if `YYYY` is a Gregorian leap year |
| `ToDo.Created` | AdvancedToDoList.java:22-27 | the `Task` constructor: the new task carries exactly the given title, due date and priority, and is not completed |
| `ToDo.NewTask` | AdvancedToDoList.java:131-147 | refused with `MissingField` exactly when the trimmed title or date is empty; refused with `InvalidDate` exactly when both are present and the date text does not parse; otherwise the task has the trimmed, non-empty title (which trims to itself), is not completed, has the chosen priority, and a due date whose ISO form is the trimmed date text |
| `ToDo.BlankTitleRefused` | AdvancedToDoList.java:132-137 | an all-blank title is refused whatever the date text |
| `ToDo.ValidInputAccepted` | AdvancedToDoList.java:131-141 | a non-blank title with the ISO text of a real date, padded with any blanks, is accepted and yields a new task, not completed, with exactly that date and priority |
| `TaskStore.Classify` | AdvancedToDoList.java:150-159 | the selected index is "no selection" exactly when it is `-1`, acts exactly when it is a position of the list, and is otherwise out of range, where `DefaultListModel.remove` and `get` throw |
| `TaskStore.Matches` | AdvancedToDoList.java:169 | a task matches exactly when the query occurs at some position of its lower-cased title |
| `TaskStore.Filter` | AdvancedToDoList.java:164-172 | the search result is no longer than the store |
| `TaskStore.FilterSnoc` | AdvancedToDoList.java:167-172 | one more task in the store adds that task to the end of the result exactly when it matches; this is the step the search loop takes |
| `TaskStore.FilterMembership` | AdvancedToDoList.java:167-172 | a task is in the result if and only if it is in the store and its lower-cased title contains the query |
| `TaskStore.FilterWholeIff` | AdvancedToDoList.java:167-172 | the result is the whole store if and only if every task matches |
| `TaskStore.FilterEmptyQuery` | AdvancedToDoList.java:165-172 | the empty search returns the whole store |
| `TaskStore.StoreIndex` | AdvancedToDoList.java:167-172 | each row of the result has a position in the store |
| `TaskStore.StoreIndexSound` | AdvancedToDoList.java:167-172 | row `k` of the result is the store's task at `StoreIndex(k)` |
| `TaskStore.StoreIndexIncreasing` | AdvancedToDoList.java:167-172 | later rows of the result come from later store positions, so the search keeps store order |
| `TaskStore.StoreIndexComplete` | AdvancedToDoList.java:167-172 | every matching task of the store is some row of the result, so none is skipped |
| `TaskStore.StoreIndexWhenAllMatch` | AdvancedToDoList.java:150-173 | when every task matches, each row of the result is the store task at the same index, so the selected index is also right for the store |
| `TaskStore.RemoveAt` | AdvancedToDoList.java:152 | after removal the store is one shorter; the tasks before the index are unchanged and the ones after it move up one place, in order |
| `TaskStore.RemoveAtMultiset` | AdvancedToDoList.java:152 | removal drops exactly one copy of the removed task and no other task |
| `TaskStore.MarkDoneAt` | AdvancedToDoList.java:159 | marking done keeps the length and every other task; the marked task is completed and keeps its title, due date and priority |
| `TaskStore.MarkDoneIdempotent` | AdvancedToDoList.java:159 | marking the same task done twice gives the same store as marking it once |
| `TaskStore.SelectionHitsWrongTask` | AdvancedToDoList.java:149-173 | with the store `Milk`, `Mom` and the search `o`, only `Mom` is shown; deleting the selected row 0 removes `Milk` and keeps `Mom`, and marking row 0 done completes `Milk` |
| `TaskStore.TaskList.constructor` | AdvancedToDoList.java:37-58 | the store starts empty and then holds exactly the decoded saved tasks, or nothing when decoding failed |
| `TaskStore.TaskList.LoadTasks` | AdvancedToDoList.java:209-218 | when decoding succeeds, the decoded tasks are appended in file order; when it fails, the store is unchanged |
| `TaskStore.TaskList.AddTask` | AdvancedToDoList.java:131-147 | returns the result of `NewTask`; on success the store is the old store with the new task appended last; on refusal the store is unchanged |
| `TaskStore.TaskList.DeleteSelected` | AdvancedToDoList.java:149-154 | `-1` leaves the store unchanged; an index of the store removes exactly that task (`RemoveAt`); any other index is `OutOfRange` and leaves the store unchanged |
| `TaskStore.TaskList.MarkSelectedDone` | AdvancedToDoList.java:156-162 | `-1` leaves the store unchanged; an index of the store completes exactly that task (`MarkDoneAt`); any other index is `OutOfRange` and leaves the store unchanged |
| `TaskStore.TaskList.FilterTasks` | AdvancedToDoList.java:164-174 | the result is `Filter` of the lower-cased query over the store; the empty query returns the whole store; the live store is shown exactly when the query and the store are both empty, and the result otherwise |
| `TaskStore.TaskList.DeleteShown` | AdvancedToDoList.java:149-154 | corrected delete: a row of the current search result removes the task shown in that row, wherever it sits in the store |
| `TaskStore.TaskList.MarkShownDone` | AdvancedToDoList.java:156-162 | corrected mark-done: a row of the current search result completes the task shown in that row |

## Findings

| source | as written | input that shows it | evidently intended | confidence | as-written member | corrected member |
|---|---|---|---|---|---|---|
| AdvancedToDoList.java:150-152 | the selected index is a row of the shown list, which after a search is the filtered result, but it is passed to `taskModel.remove` | store `Milk`, `Mom`; search `o` shows only `Mom`; select row 0 and delete: `Milk` is removed and `Mom` stays | remove the task shown in the selected row | not executed | `TaskStore.TaskList.DeleteSelected`, `TaskStore.SelectionHitsWrongTask` | `TaskStore.TaskList.DeleteShown` |
| AdvancedToDoList.java:157-159 | the same shown-list index is passed to `taskModel.get` before `completed` is set | as above; select row 0 and mark done: `Milk` is completed, `Mom` is not | complete the task shown in the selected row | not executed | `TaskStore.TaskList.MarkSelectedDone`, `TaskStore.SelectionHitsWrongTask` | `TaskStore.TaskList.MarkShownDone` |

The code as written and the corrected methods agree when every task matches the search, for example when
the query is empty (`StoreIndexWhenAllMatch`). The corrected methods use the
current store to map the shown row back to a store position with
`StoreIndex`.

## Left out

- Swing construction and event wiring (`buildUI`, the listeners, the
  `JOptionPane` messages, `repaint`, the window-closing hook) are
  presentation only. So are two side effects of the modelled operations:
  `addTask` clears both input fields after a successful add (lines
  142-143), and `loadTasks` prints a console message when loading fails
  (line 216).
- `toggleTheme` and `applyTheme` only set colours.
- `Task.toString` only formats HTML for the list cell.
- `saveTasks` and the byte format of Java object serialization are left out.
  They rely on a foreign library and on the file system. A save/load round
  trip is therefore not stated.
- `LoadTasks` receives the decoding outcome as its input. It does not model
  the partial load that an element of the wrong class would cause (lines
  211-213): tasks before that element are appended, then a
  `ClassCastException` stops the load.
- `IsoDate.ParseDate` is an approximation of `LocalDate.parse`. It follows
  the `full-date` production of section 5.6 of RFC 3339 with the limits of
  section 5.7: four ASCII digits of year, months 1..12, and month lengths
  with the Gregorian leap-year rule. It does not model signed or
  more-than-four-digit years, or other details of `DateTimeFormatter`.
- `JavaText.ToLower` folds ASCII letters only. It assumes the
  title and query need no locale-specific or non-ASCII case mapping.
- The shown list is only a value returned by `FilterTasks`. The model does
  not cover sharing of `Task` objects between that snapshot and the store:
  in the code, marking a task done is also visible in the snapshot. It also
  does not cover the snapshot going stale after a later add or delete.
