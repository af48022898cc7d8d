# To-do list home screen, modelled in Dafny

This project models the state behind the single screen of a small React Native
to-do app (`app/index.tsx`). The screen holds an ordered list of to-do items.
Each item has a title, a `done` flag and a creation time. The list starts with
one seed item, "Learn React". Three handlers change it:

- `markTodoAsDone(index)` copies the list and sets `done` on the item at `index`.
- `deleteTodo(index)` splices the item at `index` out of the list.
- `addTodo(text)` appends an open item with the submitted text.

Each row of the list shows one button. An open item shows "Done", which calls
`markTodoAsDone`. A done item shows "Delete", which first opens a Yes/No
prompt; only "Yes" calls `deleteTodo`. So every item goes open -> done ->
removed, and nothing reopens it.

Modules:

- `TodoList` (`todo_list.dfy`): the `TodoItem` value, the seed list, and the
  three transitions as functions on `seq<TodoItem>`, with lemmas.
- `TodoRow` (`todo_row.dfy`): the row component. It fixes which button a row
  offers and which prompt answer confirms a deletion.
- `Session` (`session.dfy`): user actions as events, the gating that says
  which events the screen can deliver, sequences of events, and the tracking
  of one item's position through them. The lifecycle lemmas live here: done
  is one-way, an item leaves only by a confirmed deletion while done, and
  the list stays oldest-first.
- `Screen` (`home_screen.dfy`): the class `HomeScreen`. Its `todos: seq<TodoItem>`
  field is the screen's state. Its methods are the handlers, each proved to
  produce the transition function's result.

Timestamps are `nat` milliseconds since the Unix epoch. The seed item's time,
2025-08-25T11:18:43.863Z, is the constant `SeedTime` = 1756120723863. The
wall clock is not modelled: the caller passes the current time in.

The code has one policy for deletion: a done item can be deleted, and only
after the user confirms.

For `markTodoAsDone`, an index outside the list is a programming error in the
source, because `newTodos[index].done` throws on a missing element. It is a
precondition here. `deleteTodo` splices with `toSpliced`, which returns an
unchanged copy for an index at or past the end; the model does the same.

## Model

| member | source | states |
|---|---|---|
| TodoList.Initial | app/index.tsx:70-72 | The screen starts with exactly one item: title "Learn React", not done, created at the seed time. |
| TodoList.MarkDone | app/index.tsx:74-80 | For a valid index, the length is kept and the item at `index` is done with the same title and creation time. Every other position holds the same item as before. |
| TodoList.Delete | app/index.tsx:82-84 | For a valid index, the list is one shorter. Items before `index` are unchanged, and each later item moves up one place in the same order. An index at or past the end leaves the list unchanged. |
| TodoList.Add | app/index.tsx:88-92 | The list is one longer and its old items are an unchanged prefix. The last item has the given title (any text, empty included), is not done, and carries the given creation time. |
| TodoList.MarkDoneIdempotent | app/index.tsx:77 | Marking the same index done twice gives the same list as marking it once. |
| TodoList.MarkDoneOnDoneIsNoOp | app/index.tsx:77 | Marking an already-done item leaves the list unchanged. |
| TodoList.DeleteRemovesExactlyOne | app/index.tsx:83 | Deletion removes exactly one occurrence of the item at `index`: as multisets, the new list plus that item is the old list. |
| Session.Step | app/index.tsx:17-48 | Effect of one user action on the length: a submission adds one item, "Done" keeps the length, and a "Yes" to the prompt removes one. A "No" leaves the list unchanged. A submission appends an open item with the submitted text and time after the unchanged old list. |
| TodoRow.OfferedButton | app/index.tsx:42-44 | A row shows "Done" exactly when its item is open, and "Delete" exactly when it is done. |
| TodoRow.ConfirmsDeletion | app/index.tsx:18-29 | Answering the deletion prompt fires the delete callback exactly when the answer is "Yes"; "No" never does. |
| Session.Enabled | app/index.tsx:42-44 | Which user actions the screen can deliver. A submission is always possible. "Done" can be pressed on row `i` exactly when the row exists and its item is open. "Delete" can be pressed exactly when the row exists and its item is done. |
| Session.Where | app/index.tsx:74-84 | Where the item at position `p` is after one action. If still present, it stays at `p` or moves up one place, and it is the same task (same title and creation time). It is done afterwards iff it was done before or the action was "Done" on it. It is gone iff the action was a confirmed delete of `p`, and only a done item can be gone. |
| Session.Follow | app/index.tsx:69-94 | Over any sequence of actions, an item that is still present is found at a valid position and keeps its title and creation time. |
| Session.DoneIsOneWay | app/index.tsx:74-94 | Once an item is done, it stays done for as long as it remains in the list, whatever actions follow. |
| Session.RemovedOnlyAfterDone | app/index.tsx:18-44 | If an item disappears during a sequence of actions, some action in it was a confirmed "Yes" deletion of that item while it was done. |
| Session.StepKeepsOldestFirst | app/index.tsx:88-92 | One action keeps the list ordered by creation time, provided a new submission is no older than the items already present. |
| Session.RunKeepsOldestFirst | app/index.tsx:69-94 | If the clock never runs backwards across a sequence of actions, the list stays ordered oldest-first: new items are appended last. |
| Session.BuyMilkScenario | app/index.tsx:70-94 | From the seed: submitting "Buy milk" gives [Learn React, Buy milk]. "Done" on row 0 marks Learn React done. Answering "No" to its delete prompt changes nothing; answering "Yes" leaves [Buy milk]. |
| Screen.HomeScreen.constructor | app/index.tsx:70-72 | A new screen holds the seed list. |
| Screen.HomeScreen.MarkTodoAsDone | app/index.tsx:74-80 | Copying the list and setting `done` on the copy's item at `index` gives `MarkDone` of the old list. |
| Screen.HomeScreen.DeleteTodo | app/index.tsx:82-84 | Splicing out position `index` gives `Delete` of the old list; an index at or past the end leaves it unchanged. |
| Screen.HomeScreen.AddTodo | app/index.tsx:88-94 | Appending the new item gives `Add` of the old list. |
| Screen.HomeScreen.Handle | app/index.tsx:118-125 | Each action reaches the handler its row or the input field is wired to, so the new state is `Step` of the old one. |

## Left out

- Rendering and styling are not modelled: the style sheets, list view, keyboard handling, safe-area insets and the "No todos!" placeholder. They hold no state beyond whether the list is empty.
- The confirmation dialog is not modelled as a dialog. Only the user's answer, Yes or No, is an input. The prompt's message and the item title it shows are left out.
- Clearing the text input after a submission is left out. It is a side effect on a UI component.
- Real `Date` values are left out. Creation times are abstract millisecond counts supplied by the caller.
- Session.RunKeepsOldestFirst: assumes a clock that does not run backwards. The source reads the device's wall clock, which can be set back, and then a new item can be older than earlier ones.
- Screen.HomeScreen.MarkTodoAsDone: items are values here. In the source, the copied array shares its item objects with the previous state, so setting `done` also changes the old state's item. The model assumes one event per render, and under that assumption nothing reads the old state. Without it, the sharing interacts with the stale list in `addTodo`. Suppose a "Done" press and a submission both land before a re-render. `addTodo` then spreads the array from before the update, but its shared item object is already done, so the item stays done in the final list. With value items, as here, it would come back open.
- React's state scheduling is not modelled. Each handler is a direct update of the current state, applied in the order the UI delivers events.
- addTodo builds the new list from the rendered `todos` rather than from the latest state. Two submissions before a re-render could therefore lose one. Handlers are modelled as applying to the current state, so this is not captured.
- Positions are captured when a row renders. A list that changes between render and press can make an index stale; this is not modelled, because each event is applied to the list it was enabled in.
