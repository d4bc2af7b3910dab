# Discipline timer — a Dafny model

The app is a focus timer. A start/pause button counts worked seconds once per
second against a daily goal of 3, 5, 8, 10 or 12 hours. Every 15 worked minutes
a modal dialog asks "are you investing your time?". Each answer (yes or no, with
an optional note) is appended to a local `hourly_logs` table. A small task list
lets the user pick the current focus.

This model covers the logic of `main.py`. The UI around it is not part of it.

- `Digits`: the decimal text that `{:02d}` produces (`DecimalDigits`, `Pad2`), and
  `ValueOf`, which reads digits back.
- `Clock`: the check-in rule `IsCheckIn(n)` (`n > 0 && n % 900 == 0`) and the
  check-ins a run of ticks fires (`CheckInsIn`). It also holds the two `divmod`
  steps (`Split`), the `HH:MM:SS` label (`FormatHms`) with its reader `ReadHms`,
  and the clamped progress fraction `Progress` as an exact ratio.
- `ActivityLog`: the log table as an append-only `seq<LogEntry>` with
  AUTOINCREMENT ids (`NextId`, `Record`), the score of an answer, and the
  activity text (`Activity`) with its reader `ReadActivity`.
- `Discipline`: the class `Session`. It holds the `DisciplineApp` fields
  (`isWorking`, `workedSeconds`, `dailyTarget`, `currentFocus`), the log, the
  task rows, the two text inputs and `checkInPending`, which stands for the
  check-in dialog being open. Each handler is a method. Its `ensures` gives the
  whole new state as `old(Model())` with the changed fields replaced. `Valid()`
  keeps the goal among the dropdown's choices and keeps the log well formed.
- `Scenario`: a client that uses only these contracts. It shows a goal of 7
  being rejected, a check-in at 900 seconds, the dialog staying open across a
  pause, an answer with a note, and `"01:02:05"` after resuming. A start adds
  its first second at once.

Stopping the timer never touches the check-in dialog (main.py:262-268). An
open check-in stays open and can still be answered, so `Toggle` leaves
`checkInPending` unchanged. Starting the timer awaits the timer loop
(main.py:261), whose first pass runs before its first one-second sleep
(main.py:229-247). So the starting branch of `Toggle` performs that first
`Tick` at once.

## Model

| member | source | states |
|---|---|---|
| `Digits.DecimalDigits` | main.py:233 | the decimal text of n: at least one digit, only digits, reads back as n, no leading zero, one character exactly below 10 and at most two below 100 |
| `Digits.Pad2` | main.py:233 | `{:02d}`: only digits, reads back as n, at least two characters, exactly two below 100, and no padding zero when longer than two |
| `Clock.IsCheckIn` | main.py:238 | a count opens the dialog exactly when it is a whole number of 900-second intervals, at least one |
| `Clock.CheckInsIn` | main.py:229-240 | the counts at which a run of consecutive ticks from `lo` to `hi` opens the dialog: each lies in (lo, hi] and is a check-in, and there are at most hi - lo of them |
| `Clock.CheckInsInExact` | main.py:22 | the check-ins fired by ticks from `lo` to `hi` are exactly the positive multiples of 900 in (lo, hi], in strictly increasing order (so each fires once), and there are hi/900 - lo/900 of them |
| `Clock.Split` | main.py:231-232 | the two divmod steps give hours*3600 + minutes*60 + seconds == n with minutes and seconds below 60, and agree with n/3600, (n%3600)/60 and n%60 |
| `Clock.SplitUnique` | main.py:231-232 | every decomposition with minutes and seconds below 60 is the split |
| `Clock.FormatHms` | main.py:233 | the label has at least 8 characters, with colons 6 and 3 characters from its end; its fields are given by FormatHmsFields and it reads back by ReadFormatRoundTrip |
| `Clock.FormatHmsFields` | main.py:231-233 | the label's colon-separated fields are digits that read back as n/3600, (n%3600)/60 and n%60; minutes and seconds take two characters; hours are not wrapped at 24, and the label is 8 characters exactly below 100 hours |
| `Clock.ReadFormatRoundTrip` | main.py:233 | reading the label of n back gives n |
| `Clock.FormatHmsInjective` | main.py:233 | distinct second counts show distinct labels |
| `Clock.FormatHmsExamples` | main.py:98 | the label of 0 is the initial "00:00:00", 3725 gives "01:02:05" and 36000 gives "10:00:00" |
| `Clock.Progress` | main.py:235-236 | the bar's denominator is target*3600; the value never exceeds 1; it is full exactly when worked >= target*3600; below that it is worked/(target*3600) |
| `ActivityLog.NextId` | main.py:43-44 | the AUTOINCREMENT id is positive and larger than every id already in the table |
| `ActivityLog.Record` | main.py:52-56 | one INSERT adds exactly one row at the end, with the given activity and score and a larger id; earlier rows are unchanged; ids stay positive and strictly increasing |
| `ActivityLog.Score` | main.py:192 | the score is 1 for a yes and 0 for a no |
| `ActivityLog.Activity` | main.py:191-192 | the activity text starts with the answer text, equals it exactly when the note is empty, and otherwise ends with the note |
| `ActivityLog.ReadActivityRoundTrip` | main.py:190-201 | from every activity text written, the answer and the note are recovered; " - note: <text>" is added only for a non-empty note |
| `Discipline.RemoveAt` | main.py:126-128 | deleting row i removes exactly that entry: one fewer row, the rows before i and after i in their order, and the multiset loses exactly that text |
| `Discipline.Session.constructor` | main.py:26-36 | start-up: not working, 0 seconds, goal 10, focus "General Work", the stored rows of the table, dialog closed, empty inputs and no tasks |
| `Discipline.Session.LogActivity` | main.py:52-56 | appends `Record(log, activity, score)`; nothing else changes |
| `Discipline.Session.Toggle` | main.py:249-268 | starting sets `isWorking` and runs the loop's first pass at once: exactly one more second, its label and bar shown, and the dialog opened exactly when that count is a check-in. Pausing only clears `isWorking`. The goal, the log and the tasks are unchanged either way, an open dialog stays open, and worked seconds are never lost |
| `Discipline.Session.Tick` | main.py:229-246 | while working: exactly one more second, the label and bar of the new count are shown, and the dialog opens exactly when the new count is a check-in. When not working, nothing changes and nothing fires |
| `Discipline.Session.RunTicks` | main.py:228-247 | n passes while working add exactly n seconds; the check-ins fired are `CheckInsIn(old, old + n)`; the dialog is open afterwards if it was before or if one fired. When not working nothing changes |
| `Discipline.Session.SetTarget` | main.py:80-92 | the goal changes, to the choice, exactly when not working and the choice is one of 3, 5, 8, 10, 12; otherwise nothing changes (a choice of 7 is rejected) |
| `Discipline.Session.EditNote` | main.py:176 | with the dialog open, the note field holds the typed text; nothing else changes. `Valid` keeps the note empty while the dialog is closed |
| `Discipline.Session.Answer` | main.py:190-206 | with the dialog open: exactly one row is appended with `Activity(answer, note)` and score 1 or 0; the note is cleared and the dialog closed; nothing else changes |
| `Discipline.Session.EditTaskInput` | main.py:112-117 | the task field holds the typed text; nothing else changes |
| `Discipline.Session.AddTask` | main.py:130-158 | an empty field adds nothing and changes nothing; otherwise its text becomes the last row and the field is cleared |
| `Discipline.Session.DeleteTask` | main.py:126-128 | the row at index i is removed (by position, since equal texts may repeat), nothing else changes |
| `Discipline.Session.SetFocus` | main.py:121-124 | the current focus becomes the text of row i; nothing else changes |

## Left out

- The Flet UI (main.py:60-350) is not modelled: page setup, widgets, layout, colours, snack bars and right-to-left text. The answer texts and the note label are kept as string constants. The timer label and the progress bar are not stored; `Tick` returns them as `shown`.
- SQLite (main.py:29-31, 40-50) is replaced by an in-memory sequence. The constructor takes the rows stored by earlier runs, because the table outlives the process. AUTOINCREMENT is modelled as "last id + 1", which is correct because rows are never deleted.
- The `timestamp` column, `datetime.now()` and the unused `start_time` (main.py:33, 252, 55) are wall-clock values and are not modelled.
- The random quote and the quotes import fallback (main.py:9-18, 184-188) are not modelled.
- `asyncio.sleep` and the async loop (main.py:228, 247, 261) are not modelled. A start is `Toggle`, which runs the loop's first pass itself. The later passes, each after a one-second sleep, are `Tick`/`RunTicks`, driven by the caller as atomic steps. A second timer loop, started by a restart within the one-second sleep, is not modelled.
- Progress: the float division and `min(progress, 1.0)` are modelled as an exact ratio clamped at 1. Doubles represent these small quotients closely enough that "full" means the same in both.
- The task checkbox (main.py:145) is not modelled, because no logic reads it.
- SetFocus: modelled by row index, because the focus button exists only on a task row. Setting an arbitrary label is not modelled, because no control does that.
- Answer: requires the dialog to be open, because its buttons exist only inside the modal dialog. The source's two handlers, `handle_yes` and `handle_no`, are one method with a `productive` flag.
