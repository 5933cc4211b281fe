# Task cards, creation form and task records of a pomodoro kanban board

This project models three pieces of the renderer of a kanban-style pomodoro
tracker and proves properties of them in Dafny:

- **The creation form** (`TaskFormButton`, module `FormButton`): a closed
  "Add another card/list" trigger that opens into a form with a text input, a
  pomodoro counter (starting at 1, with `+`, `-` and direct numeric entry),
  an Add button and a Cancel button. Submitting empty text is refused and
  changes nothing. Otherwise `onSubmit(text, count)` is called once, the input
  is cleared, the counter goes back to 1, and the form closes unless Ctrl was
  held on Enter.
- **The task card** (`TaskCard`, module `Card`): a card that is either viewed
  (static text, read-only count, Edit and Delete buttons) or edited (an edit
  area seeded with the card's text, and a Save button alone). Saving calls
  `onSaveCardText(text, pomodoroCount)` only for non-empty text, but always
  leaves edit mode.
- **Task records** (`store/tasks/utils/task.ts`, module `Tasks`):
  `createTask`, `assignPomodoro` and `editTask` as functions on a `Task`
  datatype, with lemmas about patches (empty patch, idempotence, composition).

Two supporting modules: `Wrappers` (an `Option` type; `None` is an absent
field or argument) and `Numbers` (the model of `parseInt(text, 10)` used by
direct entry, and the decimal text of a count).

Modelling choices:

- Each component instance is a class. Each event handler is a method: one
  atomic transition on the current state. Callback calls are recorded in
  sequence fields (`submitted`, `saves`) and the counter `deletes`. Whether an
  optional callback was supplied is a constant (`hasOnSubmit`,
  `hasOnSaveCardText`, `hasOnDeleteCard`).
- The text of a form input or card edit area is the field `buffer`. The input
  exists only while the form is open or the card is being edited. Closing it
  therefore empties `buffer`, and `Valid()` states that a closed form or a
  viewed card holds no text.
- Clicks outside a form or card are the abstract `OutsideClick` event. It
  closes the form or leaves edit mode and calls no callback.
- The id that `createTask` gets from `uuid()` is a parameter.
- The task record type declares the counter as `pomodoroCount`
  (`store/tasks/types.ts:13`). `createTask` and `assignPomodoro` write a field
  named `pomodoro` (`store/tasks/utils/task.ts:19,24`). The model has one
  field, `pomodoro`.
- `editTask`'s patch is a `TaskPatch` with an `Option` per field. `None` means
  the field is absent. There is no `id` field, so `_id` cannot be patched.
- `parseInt(text, 10)` is modelled as: an optional `+` or `-`, then the
  longest run of decimal digits. No digits means failure (`NaN`). On integers,
  `Number(...)` is the identity.

Behaviour of the code worth pointing out:

- An empty save leaves edit mode without calling the callback
  (`routes/Tasks/TaskCard.tsx:55-60, 87-91`).
- The card's key-press save is triggered by key code 10 only
  (`routes/Tasks/TaskCard.tsx:55`).
- Entering a count while editing a card has no effect: `onPomodoroChange`
  only logs (`routes/Tasks/TaskCard.tsx:95-99`). Moreover,
  `renderPomodoroInfo` is called only in the viewing branch of
  `renderActionButton`, so the edit-mode number input is never rendered.
  Saving always sends the card's `pomodoroCount` property
  (`Card.CountEntryIgnored`).
- A form submit clears the input and resets the counter only when `onSubmit`
  is supplied. Without it, the form still closes unless `keepOpen` is set
  (`routes/Tasks/TaskFormButton.tsx:38-46`).
- Closing the form with Cancel does not reset the counter
  (`routes/Tasks/TaskFormButton.tsx:132`).

## Model

| member | source | states |
|---|---|---|
| `Numbers.ParseInt` | app/renderer/src/routes/Tasks/TaskFormButton.tsx:71 | parsing fails exactly when no digit follows the optional sign; a negative result needs a leading minus |
| `Numbers.Decimal` | app/renderer/src/routes/Tasks/TaskFormButton.tsx:205 | the text shown for a count is a non-empty run of digits; it starts with '0' only when it is "0" itself |
| `Numbers.ParseDecimal` | app/renderer/src/routes/Tasks/TaskFormButton.tsx:71 | parsing the decimal text of any n >= 0 gives n, also when a non-digit follows (fraction, exponent) |
| `Numbers.ParseNegativeDecimal` | app/renderer/src/routes/Tasks/TaskFormButton.tsx:71 | a leading minus gives the negated value |
| `FormButton.EnteredCount` | app/renderer/src/routes/Tasks/TaskFormButton.tsx:67-73 | the new count is the parsed value exactly when parsing succeeds with a value >= 0 ("007" and "-0" included), the current count otherwise; a non-negative count stays non-negative |
| `FormButton.EnteredDecimalAccepted` | app/renderer/src/routes/Tasks/TaskFormButton.tsx:71-72 | entering the decimal text of any n >= 0 sets the count to n |
| `FormButton.EnteredNegativeRejected` | app/renderer/src/routes/Tasks/TaskFormButton.tsx:71-72 | entering a negative number leaves the count unchanged |
| `FormButton.EnteredUnparsableRejected` | app/renderer/src/routes/Tasks/TaskFormButton.tsx:71-72 | an entry parseInt cannot read, including empty text, leaves the count unchanged |
| `FormButton.TaskFormButton.constructor` | app/renderer/src/routes/Tasks/TaskFormButton.tsx:27-28 | a new form is closed and empty, its counter is 1, and nothing has been submitted |
| `FormButton.TaskFormButton.View` | app/renderer/src/routes/Tasks/TaskFormButton.tsx:246 | the form is rendered exactly when open, the trigger button otherwise |
| `FormButton.TaskFormButton.TypeText` | app/renderer/src/routes/Tasks/TaskFormButton.tsx:153-161 | typing into the open form's input changes only its text |
| `FormButton.TaskFormButton.ShowFormAction` | app/renderer/src/routes/Tasks/TaskFormButton.tsx:130 | show opens the form and changes nothing else |
| `FormButton.TaskFormButton.HideFormAction` | app/renderer/src/routes/Tasks/TaskFormButton.tsx:132 | cancel closes the form and discards its text, submits nothing and keeps the counter |
| `FormButton.TaskFormButton.OutsideClick` | app/renderer/src/routes/Tasks/TaskFormButton.tsx:27 | an outside click closes the form without submitting |
| `FormButton.TaskFormButton.IncrementPomodoro` | app/renderer/src/routes/Tasks/TaskFormButton.tsx:54-59 | the count rises by exactly 1 with no upper bound; nothing else changes |
| `FormButton.TaskFormButton.DecrementPomodoro` | app/renderer/src/routes/Tasks/TaskFormButton.tsx:60-65 | the count falls by 1 when positive and is unchanged at 0, so it never goes negative |
| `FormButton.TaskFormButton.HandleInputChange` | app/renderer/src/routes/Tasks/TaskFormButton.tsx:67-73 | direct entry sets the count as `EnteredCount` says; nothing else changes |
| `FormButton.TaskFormButton.DoSubmit` | app/renderer/src/routes/Tasks/TaskFormButton.tsx:29-51 | accepted iff the text is non-empty (whitespace counts); refused changes nothing; accepted with a callback appends one `(text, count)` call, clears the text and resets the count to 1; afterwards open iff `keepOpen` |
| `FormButton.TaskFormButton.KeyPress` | app/renderer/src/routes/Tasks/TaskFormButton.tsx:84-105 | Enter submits with Ctrl as `keepOpen`; any other key changes nothing |
| `FormButton.TaskFormButton.OnSubmitAction` | app/renderer/src/routes/Tasks/TaskFormButton.tsx:111-128 | the Add button submits with `keepOpen` false, so an accepted submit always closes the form |
| `FormButton.EnterSubmitsAndCloses` | app/renderer/src/routes/Tasks/TaskFormButton.tsx:96-105 | open, type a value and press Enter: `onSubmit(value, 1)` is called once and the form closes |
| `FormButton.CtrlEnterKeepsOpen` | app/renderer/src/routes/Tasks/TaskFormButton.tsx:96-105 | two Ctrl+Enter submits send their counts, and the form stays open, empty, with its counter at 1 |
| `FormButton.CancelSubmitsNothing` | app/renderer/src/routes/Tasks/TaskFormButton.tsx:130-132 | cancel after typing submits nothing, closes the form and keeps the raised counter |
| `Card.RenderCardText` | app/renderer/src/routes/Tasks/TaskCard.tsx:101-111 | the edit area is shown exactly when editing; otherwise the card's text, struck through iff done |
| `Card.RenderPomodoroInfo` | app/renderer/src/routes/Tasks/TaskCard.tsx:114-136 | a number input when editing, read-only text otherwise, both showing the card's count |
| `Card.RenderActionButton` | app/renderer/src/routes/Tasks/TaskCard.tsx:138-156 | the save button exactly when editing; otherwise the count info, which is always the read-only count |
| `Card.Buttons` | app/renderer/src/routes/Tasks/TaskCard.tsx:138-156 | an action area offers Save iff it is the save button, and Edit iff Delete |
| `Card.OfferedActions` | app/renderer/src/routes/Tasks/TaskCard.tsx:138-156 | when editing the only action is Save; when viewing the actions are exactly Edit and Delete |
| `Card.TaskCard.constructor` | app/renderer/src/routes/Tasks/TaskCard.tsx:32-44 | a new card is being viewed, holds no text and has called no callback |
| `Card.TaskCard.Actions` | app/renderer/src/routes/Tasks/TaskCard.tsx:138-156 | the card's current actions are {Save} when editing and {Edit, Delete} otherwise |
| `Card.TaskCard.OnEditCardAction` | app/renderer/src/routes/Tasks/TaskCard.tsx:46-50 | entering edit mode seeds the edit area with the card's text |
| `Card.TaskCard.TypeText` | app/renderer/src/routes/Tasks/TaskCard.tsx:101-107 | typing in the edit area changes only its text |
| `Card.TaskCard.Commit` | app/renderer/src/routes/Tasks/TaskCard.tsx:56-60 | the callback is called once with `(text, pomodoroCount)` iff supplied and the text is non-empty; edit mode always ends |
| `Card.TaskCard.OnSaveCardAction` | app/renderer/src/routes/Tasks/TaskCard.tsx:82-93 | save commits while editing and always leaves edit mode; an empty save calls nothing |
| `Card.TaskCard.KeyPress` | app/renderer/src/routes/Tasks/TaskCard.tsx:53-61 | only key code 10 commits; any other key changes nothing |
| `Card.TaskCard.OnDeleteCardAction` | app/renderer/src/routes/Tasks/TaskCard.tsx:73-80 | delete calls `onDeleteCard` once when supplied and does not change the mode or the text |
| `Card.TaskCard.OnPomodoroChange` | app/renderer/src/routes/Tasks/TaskCard.tsx:95-99 | the edit-mode count input changes nothing |
| `Card.TaskCard.OutsideClick` | app/renderer/src/routes/Tasks/TaskCard.tsx:44 | an outside click leaves edit mode and saves nothing |
| `Card.EditThenSaveUnchanged` | app/renderer/src/routes/Tasks/TaskCard.tsx:46-60 | open, then save unchanged: exactly `(text, pomodoroCount)` is sent (nothing for empty text), and the card is being viewed again |
| `Card.EmptySaveCloses` | app/renderer/src/routes/Tasks/TaskCard.tsx:82-93 | emptying the text and saving, by button or key code 10, calls nothing and ends edit mode |
| `Card.CountEntryIgnored` | app/renderer/src/routes/Tasks/TaskCard.tsx:95-99 | with count 3, entering 5 and saving sends 3 |
| `Tasks.CreateTask` | app/renderer/src/store/tasks/utils/task.ts:9-21 | a new task has the given id and text, is not done, has a description defaulting to "" and a pomodoro field of 0 |
| `Tasks.CreateTaskIgnoresPomodoro` | app/renderer/src/store/tasks/utils/task.ts:12 | the `pomodoro` argument has no effect on the task created |
| `Tasks.AssignPomodoro` | app/renderer/src/store/tasks/utils/task.ts:23-25 | sets the pomodoro field and leaves every other field unchanged |
| `Tasks.AssignPomodoroIsEdit` | app/renderer/src/store/tasks/utils/task.ts:23-31 | assigning a count is the edit with only that field present |
| `Tasks.EditTask` | app/renderer/src/store/tasks/utils/task.ts:27-32 | every field present in the patch is overwritten; every absent field, and the id, is kept |
| `Tasks.EditTaskEmpty` | app/renderer/src/store/tasks/utils/task.ts:31 | an empty patch returns the task unchanged |
| `Tasks.EditTaskIdempotent` | app/renderer/src/store/tasks/utils/task.ts:31 | applying the same patch twice equals applying it once |
| `Tasks.MergePatches` | app/renderer/src/store/tasks/utils/task.ts:31 | for every task, editing with the merged patch equals editing with `p` and then with `q` |
| `Tasks.EditTaskCompose` | app/renderer/src/store/tasks/utils/task.ts:31 | patch p then patch q equals one edit with the merged patch, q's fields winning |
| `Tasks.EditAll` | app/renderer/src/store/tasks/utils/task.ts:7 | no sequence of edits changes a task's id |
| `Tasks.EditAllIsOneEdit` | app/renderer/src/store/tasks/utils/task.ts:31 | any sequence of edits equals a single edit with all patches merged in order |
| `Tasks.MergeAllCons` | app/renderer/src/store/tasks/utils/task.ts:31 | merging a patch in front of a merged sequence equals merging the longer sequence |

## Left out

- Numbers.ParseInt: does not skip leading whitespace, and reads any digit run as an exact integer. JavaScript's `parseInt` returns a double: digit runs above 2^53 are rounded, and a run of about 309 digits or more gives `Infinity`.
- Numbers.Decimal: JavaScript renders a count of 10^21 or more in exponent form ("1e+21") in the number input, not as a digit run; the model always gives the digit run.
- FormButton.TaskFormButton.HandleInputChange: counts are JavaScript doubles, the model's are unbounded integers. A rounded value or `Infinity` passes the check at `TaskFormButton.tsx:72` and becomes the count; neither is modelled.
- FormButton.TaskFormButton.IncrementPomodoro: "rises by exactly 1" holds for the model's unbounded integers only. For a double count of 2^53 or more, `pomodoroCount + 1` at `TaskFormButton.tsx:58` may leave it unchanged; this is not modelled.
- FormButton.TaskFormButton.KeyPress: the listener is attached only while the form is open. The model always runs it, but a closed form holds no text, so Enter changes nothing there.
- Card.TaskCard.KeyPress: the same as above for a card that is not being edited.
- The `forList` variant affects only rendering: input vs. textarea, focus, `scrollIntoView`, `autosize`, and resetting the textarea height after a submit. The model keeps only its labels (`View`).
- DOM side effects are left out (`focus()`, `autosize`, `scrollIntoView`, style height, `console.log`). They change no state the model tracks.
- The internals of the `useTargetOutside` hook are not part of this model. It appears only as the abstract `OutsideClick` event, and the order of an outside click relative to a button click is not modelled.
- React scheduling is left out: effect re-registration, stale closures, batching, `React.memo`. Each handler is treated as one atomic step on the current state.
- A card's properties (`text`, `done`, `pomodoroCount`, callbacks) are fixed for each object. A re-render with new properties, which re-seeds an open edit area, is not modelled.
- The drag-and-drop wrapper (`Draggable`, `index`, `isDragging`) and the `onClick` passthrough on the card belong to an external library. `id` is kept only as a property.
- `uuid()` is not modelled; the id is a parameter of `CreateTask`.
- In a patch, a field explicitly set to `undefined` is not distinguished from an absent field: both are `None`.
- Redux store, reducers, task lists and persistence: not part of this model.
- `styles/routes/tasks/card.ts` is pure styling. Its only behavioural effect is the strike-through of done cards (`StyledCardText`), which appears as `struckThrough`.
