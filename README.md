# Random Student Picker: the pick-state engine in Dafny

This project models the logic of `picker.py`, a terminal tool that picks
students from a roster one at a time, at random and without repetition.
It stores each pick's order and time in the roster file, and it offers a
single-level undo and a reset.

The model has five modules, one per part of the engine:

- `Wrappers`: `Option` for the nullable cells of the roster, and `Result`
  for the load failure.
- `Roster`: a `Record` is one roster row (`Name`, `LastPicked`,
  `PickOrder`). The module holds the eligibility rule (a row is eligible
  exactly when `LastPicked` is empty) and the invariants: I1 says
  `LastPicked` is set iff `PickOrder` is set; I2 says the orders present
  are positive and pairwise distinct. It also holds the on-screen counts,
  the reset of both columns, and the file as `load_students` and
  `save_students` see it (`LoadStudents` back-fills missing columns;
  `SaveStudents` writes every column).
- `PickEngine`: `pick_student`. `MaxOrder` and `NextOrder` give the next
  order: 1 when no order is present, otherwise the largest plus one. `Pick`
  is the pick as a value. `PickStudent` is the same pick done in place on
  an `array<Record>`, writing the two cells of the chosen row as `df.at`
  does. `random.choice` and `datetime.now()` are parameters: `choice` is
  the position of the drawn row among the eligible rows, and `now` is the
  time.
- `History`: the "Recently Picked" projection of `display_history`. It
  keeps the picked rows, sorts them by time (most recent first) and keeps
  the first five.
- `Session`: the loop of `main`. The announcement is the variant
  `NoAnnouncement | Message(text) | Picked(name, order)`; it stands for the
  function attributes `main.last_picked` and `main.last_order`. The undo
  buffer is `Option<Snapshot>`: a value copy of the roster plus the
  announcement. `PickStep`, `ResetStep`, `UndoStep` and `Apply` are the
  transitions as functions on a `State`, and each reports whether it saved.
  Class `Picker` runs the same transitions on a live `array<Record>`. It
  resets in place, replaces the array with a fresh copy on undo, and keeps
  a ghost log `saves` of every roster `save_students` wrote.

Timestamps are integers. The file stores them as `%Y-%m-%d %H:%M:%S` text,
whose string order is its time order, so sorting by the integer gives the
same order as `sort_values` on the text.

## Model

| member | source | states |
|---|---|---|
| `Roster.LoadStudents` | picker.py:7-17 | A missing file fails with `NotFound(path)` and only then. Otherwise there is one record per row with its name. Each pick cell is the file's cell when the column exists, and empty when it does not. |
| `Roster.LoadWithoutPickColumns` | picker.py:11-14 | Loading a file without the two pick columns succeeds. Every record is eligible, nothing is picked, and invariants I1/I2 hold. |
| `Roster.SaveStudents` | picker.py:19-21 | The written table has every column, one cell per row. |
| `Roster.LoadAfterSave` | picker.py:7-21 | Loading what a save wrote gives back exactly the saved roster. |
| `Roster.EligibleIndices` | picker.py:26 | The unpicked rows: exactly the positions whose `LastPicked` is empty, in increasing order. Their number is the total minus the picked count. |
| `Roster.PickedIndices` | picker.py:60 | The picked rows: exactly the positions whose `LastPicked` is set, in increasing order. |
| `Roster.PickedCount` | picker.py:113 | The picked count never exceeds the total. |
| `Roster.PickedCountExtremes` | picker.py:113-116 | The picked count is 0 iff every record is eligible, and it equals the total (nothing remaining) iff no record is eligible. |
| `Roster.Stats` | picker.py:112-116 | Total is the roster length and picked is the number of picked rows. Remaining is the number of eligible rows, never negative, and it is 0 iff no record is eligible. |
| `Roster.Cleared` | picker.py:158-159 | A reset record keeps its name and has both pick cells empty. |
| `Roster.ClearAllEmptiesRoster` | picker.py:158-159 | Clearing both columns keeps the row count and every name. Every record becomes eligible with no order, the picked count becomes 0, remaining becomes the total, and I1/I2 hold. |
| `PickEngine.MaxOrder` | picker.py:34 | `None` iff no order is present. Otherwise the result is an order some record holds, and no present order exceeds it. |
| `PickEngine.NextOrder` | picker.py:34-35 | The next order exceeds every order present. It is 1 when none is present, and otherwise one more than some present order (so it is max+1). It is at least 1 under the invariants. |
| `PickEngine.PickStudent` | picker.py:23-41 | The in-place pick leaves the array as `Pick` says and returns its name and order. |
| `PickEngine.PickExhausted` | picker.py:26-28 | The pick returns no name iff every record is picked, and likewise no order. The roster is then unchanged. |
| `PickEngine.PickStampsChosen` | picker.py:31-41 | The chosen row was eligible, and its name is returned. Only that row changes: it gets the time and the returned order. The order exceeds every earlier order, and the picked count rises by one. |
| `PickEngine.PickKeepsWf` | picker.py:34-39 | A pick keeps I1 and I2: orders stay positive and are never reused. |
| `PickEngine.PickKeepsPicked` | picker.py:26-39 | A pick keeps the row count and leaves every already-picked row exactly as it was. |
| `History.RecentRows` | picker.py:60 | The history lists min(5, picked count) rows, and every one is picked. |
| `History.RecentRowsAreMostRecent` | picker.py:60 | The listed rows are in time-descending order, with picks made in the same second in increasing row order, so none is listed twice. Every picked row left out is no more recent than any listed row. |
| `History.RecentPicksAreRows` | picker.py:60-63 | The history holds at most five entries, each the unchanged record of its listed row. |
| `Session.Restored` | picker.py:170-179 | Undo gives back the saved announcement exactly when Python truthiness keeps it. The result is always one that a later undo restores exactly. |
| `Session.AsWrittenUndoDiverges` | picker.py:170-179 | Whenever the code as written completes, it agrees with `Restored`. It raises exactly when it deletes an attribute that is absent. |
| `Session.PickStepOutcome` | picker.py:186-201 | Enter always overwrites the snapshot with the prior roster and announcement. An exhausted pick keeps the roster, announces the "ALL PICKED" message without an order, and does not save. A successful pick announces the eligible chosen name with the order stored in its row, raises the picked count by one, and saves. |
| `Session.ResetStepOutcome` | picker.py:151-163 | R snapshots first, then clears every row but keeps its name. The picked count becomes 0, the reset message is announced without an order, and the roster is saved. |
| `Session.UndoStepOutcome` | picker.py:165-184 | U with an empty buffer changes nothing and does not save. Otherwise the snapshot's roster comes back with its announcement (exactly, when that announcement is restorable), the roster is saved, and the buffer is emptied. |
| `Session.UndoIsOneShot` | picker.py:165-184 | A second consecutive undo changes nothing and does not save. |
| `Session.UndoRevertsPick` | picker.py:165-201 | Undo right after a pick gives back the state before the pick, saved, with an empty buffer. |
| `Session.UndoRevertsReset` | picker.py:151-184 | Undo right after a reset gives back the state before the reset, saved, with an empty buffer. |
| `Session.StartIsSound` | picker.py:78-84 | The loop starts with no announcement and no snapshot, and this state is sound for a roster that meets the invariants. |
| `Session.PickStepKeepsSound` | picker.py:186-201 | A pick keeps I1/I2 and non-empty names, and keeps the announcements restorable. |
| `Session.ResetStepKeepsSound` | picker.py:151-163 | A reset keeps the session sound. |
| `Session.ApplyKeepsSound` | picker.py:148-201 | Every key keeps the session sound. Across any mix of picks, resets and undos, orders stay unique, and a snapshot exists only while something is announced. |
| `Session.UnsavedStepKeepsRoster` | picker.py:148-201 | A key whose branch does not call `save_students` (quit, other keys, undo with an empty buffer, exhausted pick) leaves the roster unchanged. |
| `Session.ResetResetUndoRaises` | picker.py:151-175 | From any state, after R, R the as-written undo raises, while the model's undo restores the reset message. |
| `Session.PickPickUndoReset` | picker.py:151-201 | On a roster of distinct names with nobody picked, two picks give orders 1 and 2 to different students. Undo brings back the one-pick roster, and reset leaves nobody picked. |
| `Session.Picker.constructor` | picker.py:77-84 | The session starts on the roster that `LoadStudents` reads from `students.csv`, with no announcement, an empty buffer and no save. |
| `Session.Picker.Pick` | picker.py:186-201 | The live state afterwards is `PickStep` of the state before. One save of the new roster is logged exactly when the step saves. |
| `Session.Picker.Reset` | picker.py:151-163 | The live state afterwards is `ResetStep` of the state before, and one save of the cleared roster is logged. |
| `Session.Picker.Undo` | picker.py:165-184 | The live state afterwards is `UndoStep` of the state before. A save is logged exactly when there was a snapshot. The live array is either the same or a fresh copy. |
| `Session.Picker.Quit` | picker.py:148-149 | Q ends the loop and changes nothing: the same array, no state change and no save, so the file still holds the last roster saved. |
| `Session.Picker.HandleKey` | picker.py:146-201 | A key takes the branch `EventOf` assigns: q/Q quit, r/R reset, u/U undo, Enter pick, any other key nothing. The new state and save log follow `Apply`, and the loop keeps running unless the key quits. The live array is either the same or a fresh copy. Soundness is preserved, and so is the fact that the last save wrote the live roster. |

## Left out

- Terminal rendering (`draw_box`, titles, colours, layout; picker.py:43-56, 62-67, 90-143) is presentation, not logic. So is the session-duration line (picker.py:79, 122-124).
- CSV I/O through pandas (`pd.read_csv`, `to_csv`) calls a foreign library. `LoadStudents` takes the parsed table (or its absence) as a parameter. A save is a ghost entry in `Picker.saves` plus the table `SaveStudents` describes. Write failures and atomicity are not modelled.
- Columns other than `Name`, `LastPicked` and `PickOrder` are not modelled. pandas carries them through unchanged.
- Malformed cells are not modelled: a non-numeric `PickOrder`, a `LastPicked` that is not a time, or an empty `Name` (which pandas reads as NaN). Cells are typed values here.
- `random.choice` is modelled as an arbitrary eligible position (`choice`). Uniformity is a probabilistic claim and is not stated.
- `datetime.now()`, `strftime` and `pd.to_datetime` are left out: times are integers supplied by the caller, and the `%H:%M:%S` display format is not modelled.
- A missing `students.csv` makes `load_students` raise before the session starts. `LoadStudents` models that error, and `Picker`'s constructor starts only from a stored file.
- The key-reading loop (`getch`, picker.py:146) is modelled one key at a time (`Picker.HandleKey`), not as a loop.
- History.RecentRowsAreMostRecent: fixes the order of picks made in the same second by roster position. `sort_values` with its default quicksort leaves that order unspecified.
- Session.PickStepKeepsSound: the soundness invariant includes non-empty names. Undo restores a picked name only when it is non-empty, because `if previous_picked:` tests truthiness. The loader does not enforce this.
- Session.Restored: models the intended behaviour at picker.py:175. The code there raises `AttributeError` (see Findings).

## Findings

| source | as written | input that shows it | evidently intended | confidence | as-written member | corrected member |
|---|---|---|---|---|---|---|
| picker.py:175 | When the snapshot holds a text without an order, undo calls `delattr(main, 'last_order')` unconditionally. It raises `AttributeError` when no order is currently announced. The roster has already been restored and saved (line 169), and the exception ends the program. | From any state, press R, R, U: the snapshot holds "ALL STUDENTS RESET" with no order, and no order is set (`Session.ResetResetUndoRaises`). Also: exhausted pick, exhausted pick, U. | Restore the text and leave no order, as the neighbouring branch at line 178 does with its `hasattr` guard. | not executed | `Session.AsWrittenUndoAnnouncement` | `Session.Restored` |
