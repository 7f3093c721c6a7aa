# Study Sprint: the timer, the task board and the study dialogs in Dafny

This project models the stateful core of a study-planning web app:

- **Pomodoro timer** (`Timer`). Its settings, staged settings, mode, remaining seconds, running flag and completed-pomodoro counter form one record. Every button handler, the one-second tick and the expiry rule of the countdown effect is a pure transition on that record. The clock display `formatTime` is also modelled.
- **Task list** (`Tasks`). The app changes it in six ways:
  - add a task from the form;
  - change a task's status;
  - change a task's priority;
  - delete by id;
  - append the assistant's sub-tasks;
  - append the tasks of a generated study sprint.
- **Kanban board** (`Kanban`). It splits the task list into one column per status.
- **Flashcard dialog** (`Flashcards`). It covers the file list, the prompt, the guard before generating, the outcome of generation, and a viewer that steps through the deck cyclically and flips the current card.
- **Sprint-planning dialog** (`Resources`). It covers the resource list, the resource types, the coercion of the days field and the submit guard.

Supporting modules:

- `Wrappers` holds `Option`.
- `Files` holds the record of an uploaded file.
- `Lists` holds filter, count and remove-at-index.
- `Text` models the JavaScript conversions the components rely on:
  - `toString` and `padStart`;
  - `parseInt(value, 10)` and the `x || fallback` idiom;
  - the blank test `!s.trim()`;
  - the truncating `%`.

Clock readings (`Date.now()`, one reading per created task), stored values and answers from the remote generator are parameters. Nothing assumes that ids are unique.

Behaviours of the code that a reader may not expect, all of which the model keeps:

- **Expiry pauses.** An expiry goes through `switchMode`, which clears the running flag. The timer does not run on into the next interval.
- **Durations may be zero or negative.** They are `int`, because the settings inputs store `parseInt(value, 10) || 0` unchecked. A timer holding a negative time never counts down and never expires.
- **A zero-length interval expires at once.** When it is started, the countdown effect runs the expiry right after the render that starts it, without waiting for a tick.
- **Day 0 gets no prefix.** A sprint task's description is prefixed `Day N: ` only when `day` is truthy.
- **An empty parent title falls back.** A sub-task's parent title falls back to `a larger topic` when it is missing or empty.

## Model

| member | source | states |
|---|---|---|
| Timer.Initial | components/Timer.tsx:12-30 | the first render: default settings 25/5/15, staged settings equal to them, a paused pomodoro at 25:00, and the counter taken from storage or 0 |
| Timer.Reload | components/Timer.tsx:32-46 | stored settings replace both the committed and the staged settings; a paused timer is set to the work length whatever its mode; a running one keeps its time; nothing is stored means nothing changes |
| Timer.Mount | components/Timer.tsx:12-46 | after mounting, the settings are the stored ones or the defaults, and the timer is a paused pomodoro at the full work length of those settings |
| Timer.SwitchMode | components/Timer.tsx:56-62 | whatever the prior state, the mode is the chosen one, the timer is paused and the time is that interval's full length; settings, counter and panel are untouched |
| Timer.Tick | components/Timer.tsx:64-69 | a running timer with time left loses exactly one second and nothing else changes; any other state is left as it is |
| Timer.BreakAfter | components/Timer.tsx:74-78 | the interval after a pomodoro is a break, and it is the long break exactly when the new count is a multiple of 4 |
| Timer.Expire | components/Timer.tsx:70-81 | at zero while running, a pomodoro raises the counter by one and moves to the long break iff the new count is a multiple of 4, and a break moves to a pomodoro with the counter unchanged; either way the new interval is paused at its full length and differs from the old one |
| Timer.Toggle | components/Timer.tsx:88 | only the running flag changes, and it flips |
| Timer.Reset | components/Timer.tsx:90-96 | paused at the full length of the current mode; mode, settings and counter unchanged |
| Timer.EditSetting | components/Timer.tsx:104-107 | only the named staged field changes, to the input's `parseInt` value, or 0 when that is `NaN` or 0; the committed settings are untouched |
| Timer.SaveSettings | components/Timer.tsx:109-119 | the staged settings become the committed ones and the panel closes; a paused timer takes the new length of its current mode, a running one keeps its time |
| Timer.CancelSettings | components/Timer.tsx:172 | only the panel closes; the staged edits stay |
| Timer.TogglePanel | components/Timer.tsx:129 | only the panel flag flips |
| Timer.ResetCount | components/Timer.tsx:180-182 | the counter goes to 0 exactly when it was positive and the user confirmed; nothing else changes |
| Timer.ClockParts | components/Timer.tsx:98-100 | for a non-negative time the minutes and seconds add back up to it, with the seconds below 60 |
| Timer.FormatTime | components/Timer.tsx:98-102 | `formatTime`: floored minutes and truncated seconds, each zero-padded to two places and joined by ':'; its meaning is stated by `Timer.FormatTimeShape` and `Timer.FormatTimeRoundTrip` |
| Timer.FormatTimeShape | components/Timer.tsx:98-102 | the display of a non-negative time ends in ':' and the two digits of its seconds, and is exactly `MM:SS` below 100 minutes |
| Timer.FormatTimeRoundTrip | components/Timer.tsx:98-102 | reading the display of a non-negative time back as minutes and seconds gives that time |
| Timer.DisplayConsistent | components/Timer.tsx:98-100 | for every time the component can hold, including negative whole minutes, the two displayed parts add up to the time |
| Timer.EventsKeepWholeOrCounting | components/Timer.tsx:56-119 | every event keeps the time non-negative or a whole number of minutes |
| Timer.Apply | components/Timer.tsx:56-119 | after an event and the countdown effect the timer never rests at zero while running; an event other than a tick or start/pause changes the state only through its handler |
| Timer.CountingDown | components/Timer.tsx:64-69 | before the last second, k ticks of a running timer lower its time by exactly k |
| Timer.CountdownExpires | components/Timer.tsx:64-81 | a running interval with n seconds left ends on exactly the n-th tick, in the other mode, paused at its full length, with the counter raised by one iff a pomodoro ended |
| Timer.PausedTickIsInert | components/Timer.tsx:66 | a tick while paused changes nothing |
| Timer.StartAtZeroExpires | components/Timer.tsx:64-88 | starting a timer that shows zero runs the expiry at once and changes the mode |
| Timer.CounterDiscipline | components/Timer.tsx:72-182 | the counter stays, rises by one when a pomodoro ends on a tick or start, or drops to 0 on a confirmed reset of a positive count |
| Timer.PauseKeepsRemaining | components/Timer.tsx:88 | pausing a running timer keeps its mode and remaining time |
| Timer.Flush | components/Timer.tsx:32-86 | one round of effects after a render: the loading effect only when the running flag changed, the expiry branch of the countdown effect when the render is at zero while running, the two reading the same render; `Timer.AsWrittenComesToRest` bounds the rounds |
| Timer.ApplyAsWritten | components/Timer.tsx:32-86 | with the storage-reload effect re-run whenever the running flag changes, the component still comes to rest, never at zero while running |
| Timer.AsWrittenComesToRest | components/Timer.tsx:32-86 | two rounds of effects after an event reach a state that a third round leaves unchanged |
| Timer.AsWrittenAgreesWithoutStorage | components/Timer.tsx:32-46 | with nothing in storage the reload effect is inert, and the code as written behaves like `Apply` |
| Timer.PauseResetsToWorkAsWritten | components/Timer.tsx:32-46 | with stored settings, pausing a short break at 2:00 shows 25:00 |
| Timer.ExpiryLoadsWorkLengthAsWritten | components/Timer.tsx:32-46 | with stored settings, the short break after a pomodoro starts at 25:00 instead of 5:00 |
| Timer.StartDropsStagedEditsAsWritten | components/Timer.tsx:32-46 | with stored settings, starting the timer while the panel holds unsaved edits replaces them with the stored settings |
| Text.IntToString | components/Timer.tsx:101 | `toString` of an integer: a non-empty decimal numeral, with '-' before the digits of a negative number |
| Text.PadStart | components/Timer.tsx:101 | `padStart`: the text, preceded by fill characters up to the width, and never shortened |
| Text.PadTwoDigits | components/Timer.tsx:101 | zero-padding a non-negative number to two places gives a digit string of the same value, exactly its two digits below 100 |
| Text.ParseIntRoundTrip | App.tsx:58 | `parseInt` reads back every integer `toString` wrote, so a form task's id reads back as the clock value it came from |
| Text.ParseIntWithoutDigits | components/Timer.tsx:106 | text without any digit is `NaN` to `parseInt` |
| Text.ParseInt | components/Timer.tsx:106 | `parseInt(s, 10)`: leading white space, an optional sign, then the longest run of digits, `NaN` without one; `Text.ParseIntRoundTrip` and `Text.ParseIntWithoutDigits` state it |
| Text.Blank | components/FlashcardsModal.tsx:57 | `!prompt.trim()`: the prompt is empty or white space only; `Flashcards.Start` states the guard built on it |
| Text.NumberOr | components/Timer.tsx:106 | `parseInt(input, 10)` with a falsy fallback: `NaN` and 0 give the fallback, and any other parsed value is kept |
| Text.NumberOrRoundTrip | components/LearningResourcesModal.tsx:131 | a number typed back in comes out unchanged, except that 0 becomes the fallback |
| Text.JsRem | components/FlashcardsModal.tsx:78 | JavaScript's `%` with a positive divisor: the truncated remainder, which differs from the dividend by a multiple of the divisor, lies strictly between minus and plus the divisor and takes the sign of the dividend |
| Tasks.AddTask | App.tsx:57-58 | exactly one task is appended at the end, with status ToDo, no day and the form's fields; earlier tasks are unchanged and in order; its id is the clock value written out, and reads back as that value |
| Tasks.UpdateStatus | App.tsx:62-63 | the length is kept; tasks with the id take the new status and keep every other field; all other tasks are unchanged |
| Tasks.UpdatePriority | App.tsx:66-67 | the length is kept; only the priority of tasks with the id changes |
| Tasks.StatusLastWins | App.tsx:62-63 | of two status changes to one id the second is the one that remains |
| Tasks.StatusChangeUndone | App.tsx:62-63 | setting back the previous status undoes a status change |
| Tasks.StatusOfUnknownId | App.tsx:62-63 | a status change for an unknown id changes nothing |
| Tasks.StatusAndPriorityCommute | App.tsx:62-67 | status and priority changes commute |
| Tasks.DeleteTask | App.tsx:70-71 | no task with the id remains; every task with another id remains |
| Tasks.DeleteKeepsOrder | App.tsx:70-71 | deletion distributes over concatenation, so the remaining tasks keep their order |
| Tasks.DeleteUnknownId | App.tsx:70-71 | deleting an unknown id changes nothing |
| Tasks.DeleteIdempotent | App.tsx:70-71 | deleting twice is deleting once |
| Tasks.DeleteCount | App.tsx:70-71 | the list shrinks by exactly the number of tasks that carry the id |
| Tasks.DeleteUndoesAdd | App.tsx:57-71 | deleting the id of a task just added, when that id was new, restores the list |
| Tasks.ParentTopic | App.tsx:104 | the parent's title when there is a parent with a non-empty title, otherwise `a larger topic` |
| Tasks.SubtaskDescription | App.tsx:104 | `Sub-task for: ` followed by the parent's title or by `a larger topic` |
| Tasks.AddSubtasks | App.tsx:100-109 | one task per title is appended in order after the unchanged old list, each ToDo, ImportantNotUrgent, 30 minutes, with no day, the sub-task description and id `ai-<clock>-<index>`, the clock read afresh for each title |
| Tasks.SubtaskIdsDistinct | App.tsx:102 | sub-task ids with different indices differ, whatever the clock read for each |
| Tasks.AddSprint | App.tsx:116-123 | one task per planned task is appended in order after the unchanged old list, each ToDo, with id `sprint-<clock>-<index>` (the clock read afresh for each task) and the planned title, priority, time and day |
| Tasks.SprintDescription | App.tsx:121 | the `Day N: ` prefix before the planned description when the day is truthy; `Tasks.SprintDescriptionShape` and `Tasks.SprintDayReadsBack` state it |
| Tasks.SprintDescriptionShape | App.tsx:121 | the planned description is kept at the end, and something is put before it exactly when the day is truthy |
| Tasks.SprintDayReadsBack | App.tsx:121 | a prefixed description starts with `Day `, and the number after it reads back as the task's day |
| Tasks.SprintIdsDistinct | App.tsx:119 | sprint task ids with different indices differ, whatever the clock read for each |
| Tasks.IdKindsDiffer | App.tsx:58-119 | form tasks, sub-tasks and sprint tasks never share an id, whatever the clock readings |
| Kanban.ColumnOf | components/KanbanBoard.tsx:22 | a column holds only tasks of its status, and every task of that status |
| Kanban.Board | components/KanbanBoard.tsx:18-22 | three columns in the order ToDo, InProgress, Done, each holding exactly the tasks of its status |
| Kanban.OneColumnPerStatus | constants.ts:4-8 | each status has exactly one column |
| Kanban.ColumnKeepsOrder | components/KanbanBoard.tsx:22 | a column is taken run by run, so tasks keep their relative order from the list |
| Kanban.BoardPartition | components/KanbanBoard.tsx:18-22 | together the three columns hold every task exactly as often as the list does |
| Kanban.ColumnSizes | components/KanbanBoard.tsx:18-22 | the column sizes add up to the number of tasks |
| Kanban.MoveToColumn | components/KanbanBoard.tsx:22 | after a status change to s, every other column is the old one with the moved tasks taken out |
| Kanban.MovedTasksInColumn | components/KanbanBoard.tsx:22 | after a status change the moved tasks sit in the column of their new status |
| Flashcards.Reset | components/FlashcardsModal.tsx:22-30 | whatever the state, the prompt, files and deck are empty, index 0, face up, no error, not loading |
| Flashcards.AddFiles | components/FlashcardsModal.tsx:37-40 | a null selection changes nothing; otherwise the chosen files follow the current ones |
| Flashcards.RemoveFile | components/FlashcardsModal.tsx:42-44 | an index in range drops exactly that file and keeps the others in order; any other index changes nothing |
| Flashcards.RemoveUndoesAdd | components/FlashcardsModal.tsx:37-44 | removing a file just added at the end restores the dialog |
| Flashcards.SetPrompt | components/FlashcardsModal.tsx:119 | typing sets the prompt and changes nothing else |
| Flashcards.Start | components/FlashcardsModal.tsx:56-62 | with no file or a blank prompt only the error is set; otherwise loading starts with the error cleared |
| Flashcards.Finish | components/FlashcardsModal.tsx:63-73 | loading stops; a deck is stored, with the no-cards message when empty; a failure keeps the deck and shows its message, or the unknown-error message when it has none |
| Flashcards.Next | components/FlashcardsModal.tsx:76-79 | the index moves one on, wraps from the last card to the first, stays in range, and the card is face up |
| Flashcards.Prev | components/FlashcardsModal.tsx:81-84 | the index moves one back, wraps from the first card to the last, stays in range, and the card is face up |
| Flashcards.Flip | components/FlashcardsModal.tsx:144 | only the face flips |
| Flashcards.NextThenPrev | components/FlashcardsModal.tsx:76-84 | next and then previous shows the same card again |
| Flashcards.PrevThenNext | components/FlashcardsModal.tsx:76-84 | previous and then next shows the same card again |
| Flashcards.NextTimesIndex | components/FlashcardsModal.tsx:76-79 | k presses of next, at most one round, move k cards on, wrapping past the last card |
| Flashcards.FullRound | components/FlashcardsModal.tsx:76-79 | one full round of next presses comes back to the starting card |
| Flashcards.StepKeepsValid | components/FlashcardsModal.tsx:56-89 | every event the dialog can deliver keeps the index on a card of the deck, or at 0 without a deck |
| Flashcards.InitialValid | components/FlashcardsModal.tsx:13-19 | the dialog opens in a valid state |
| Resources.AddFiles | components/LearningResourcesModal.tsx:19-26 | a null selection changes nothing; otherwise each file follows the current resources, in order, as learning material |
| Resources.ChangeType | components/LearningResourcesModal.tsx:50-52 | only the type of entry k changes; the length and all files stay |
| Resources.ChangeTypeUndone | components/LearningResourcesModal.tsx:50-52 | setting back an entry's old type undoes a type change |
| Resources.RemoveResource | components/LearningResourcesModal.tsx:54-56 | an index in range drops exactly that entry and keeps the others in order; any other index changes nothing |
| Resources.RemoveUndoesAdd | components/LearningResourcesModal.tsx:19-56 | removing the entry a one-file selection just added restores the list |
| Resources.SetDays | components/LearningResourcesModal.tsx:131 | the days input coerced by `parseInt` with fallback 1: non-numeric input and 0 become 1, and any other parsed value is kept, negative ones included |
| Resources.DaysNeverZero | components/LearningResourcesModal.tsx:131 | the days field never holds 0 |
| Resources.DaysRoundTrip | components/LearningResourcesModal.tsx:131 | typing a number gives that number, except that 0 gives 1 |
| Resources.Submit | components/LearningResourcesModal.tsx:58-62 | the resources and days are handed over exactly when there is a resource and the days are positive |
| Resources.NegativeDaysBlockSubmit | components/LearningResourcesModal.tsx:58-131 | a negative number passes the days coercion but blocks submission |

## Left out

- Browser storage is not modelled. Reads and writes of settings, the counter and tasks are I/O. Stored values enter as `Option` parameters (`Timer.Mount`, `Timer.Reload`, `Timer.ApplyAsWritten`), and JSON parsing is not modelled.
- `setInterval`/`clearInterval` are not modelled. The one-second callback is the explicit `Second` event.
- The remote generator calls are not modelled, because they are opaque. This covers sub-tasks, tips, study sprints and flashcards. Their results are inputs: the titles, the planned tasks and the `Outcome` of `Flashcards.Finish`.
- The assistant dialog's loading and error flags, and the sprint error alert, are not modelled.
- `formatBytes` is not modelled, because it is floating point.
- Rendering, styling, drag-and-drop highlighting and `window.confirm` are not modelled. The confirmation answer is a parameter of `Timer.ResetCount`.
- The clear-all-data reload is not modelled.
- The header, the modal frame, the settings dialog, task cards, the add-task form and the assistant form are not modelled. They are presentation or one-line form guards.
- The loading of the initial example tasks is not modelled.
- Numbers are integers. Fractional and out-of-range JavaScript numbers (a fractional duration or counter read back from browser storage, for example) are not modelled. Typed input goes through `parseInt`, which stops at the first non-digit, so `2.5` reads as 2 in the model as in the code.
- `Text.IsSpace` covers ASCII white space and the no-break space, not every Unicode white-space character that `trim` and `parseInt` skip.
- Flashcards.Next: requires a non-empty deck. The viewer and its buttons exist only when there is one, and the code would compute `NaN` otherwise.
- Flashcards.Prev: requires a non-empty deck, for the same reason.
- Tasks.AddSubtasks: ids with the same index from different batches may collide when the clock reads the same. This reflects the code; only ids with different indices are proved distinct.
- Tasks.AddSprint: models the mapping step only. The surrounding async call, the closing of the dialog and the error alert are left out.
- Timer.CountdownExpires: proved over `Timer.Apply`. Of the code as written it holds only while storage holds no settings (`Timer.AsWrittenAgreesWithoutStorage`); with stored settings a break after a pomodoro starts at the work length (see Findings).
- Timer.Apply: reads stored settings only at mount. `Timer.ApplyAsWritten` models the reload effect the code re-runs on every change of the running flag (see Findings).
- Timer.FormatTimeShape: the exact digit layout is stated only for non-negative times. For a negative whole number of minutes the minutes carry a minus sign; `Timer.DisplayConsistent` states only that the parts add up.

## Findings

| source | as written | input that shows it | evidently intended | confidence | as-written member | corrected member |
|---|---|---|---|---|---|---|
| components/Timer.tsx:32-46 | the settings-loading effect depends on `isActive`, so once settings were ever saved it re-runs on every pause and every expiry, setting a paused timer to `pomodoro * 60` whatever the mode; on Start it also replaces unsaved staged edits with the stored settings | stored settings 25/5/15, a short break running at 2:00, press Pause: the display jumps to 25:00; likewise a pomodoro that expires moves to a short break showing 25:00 instead of 05:00 | load stored settings once, at mount; pausing keeps the remaining time, and an expiry loads the new interval's own length (as `switchMode` and the save handler's comment intend) | not executed | Timer.PauseResetsToWorkAsWritten | Timer.PauseKeepsRemaining |
