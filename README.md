# Todo list store

A model of the state held by the `App` component of a single-page todo
list editor (`src/App.jsx`). The component keeps two state cells. `todos`
is an ordered list of items `{id, title, completed, isEditing, editDraft}`,
newest first. `newTitle` is the text typed into the compose field. Six
transitions replace the list: `addTodo`, `toggleTodo`, `deleteTodo`,
`startEdit`, `changeEditDraft` and `saveEdit`. The number of items still to do
is derived from the list. The start state is a list of five seeded items.

Layout:

- `Lists.dfy`: the JavaScript array operations the transitions are built
  from (`map`, `filter`, `slice().reverse()`), as functions on sequences.
- `Text.dfy`: `String.prototype.trim`, over the exact set of characters
  ECMAScript counts as white space or line terminators.
- `Todos.dfy`: the item type, the seed list, the six transitions and the
  remaining count as pure functions of the list. Also the rules a reachable
  list obeys (`WellFormed`): ids are unique, at most one item is editing,
  and every title is non-blank and trimmed.
- `TodoProperties.dfy`: lemmas about those functions. They cover the
  seeded state, the remaining count, involution and idempotence, order,
  round trips, and the fact that every transition keeps a list well formed.
- `TodoItemView.dfy`: the enable rules of the Add, Edit, Delete and Save
  buttons, and what they mean for the store.
- `TodoApp.dfy`: the component as a class `App`. Its fields are `todos` and
  `newTitle`. Each method assigns the result of the matching function and
  keeps `Valid()`. A ghost set `issued` records every id handed out, so that
  ids are never reused, as the source's UUIDs guarantee.

Behaviours of the code that the model keeps as written:

- The seed titles are the full strings of `initialState`
  (src/App.jsx:4-10), for example "Day 1 — React Fundamentals".
- The code does not keep an item's draft equal to its title once editing
  ends. `startEdit` (src/App.jsx:122) closes other edits without resetting
  their drafts. `changeEditDraft` (src/App.jsx:128) writes the draft of an
  item that is not editing. Through the screen a stale draft has no effect:
  Save is shown only on a row whose item is editing (src/App.jsx:58-62), and
  `startEdit` resets the draft before the item edits again
  (`Todos.StartEdit`). On the store it does: `saveEdit` (src/App.jsx:134-137)
  does not check `isEditing`, so saving a closed item's id commits its stale
  draft (`TodoItemView.StaleDraftSaved`).
- `startEdit` with an id that no item carries closes every edit
  (src/App.jsx:119-123, `TodoProperties.StartEditAbsent`).
- The Edit button is disabled on a completed item (src/App.jsx:43), which
  only stops an edit from starting. The checkbox (src/App.jsx:18-23) is
  shown in edit mode too, and Save (src/App.jsx:59) checks only the draft,
  so a user can open an edit, complete the item and save a new title on it
  (`TodoItemView.EditCompletedThroughScreen`). Delete is disabled on an open
  item (src/App.jsx:52). `toggleTodo`, `deleteTodo`, `startEdit` and
  `saveEdit` do not check completion, and neither does the model.
  `TodoItemView` states what the buttons allow.

## Model

| member | source | states |
|---|---|---|
| `Todos.AddTodo` | src/App.jsx:88-105 | Compose text that trims to nothing leaves both cells unchanged. Otherwise the list grows by one, its first item is the new open, non-editing item titled with the trimmed text and with that text as its draft, the old items follow in order, and the compose field is cleared |
| `Todos.ToggleTodo` | src/App.jsx:107-111 | Same length. An item's `completed` flips exactly when its id matches. No other field of any item changes |
| `Todos.DeleteTodo` | src/App.jsx:113-115 | The result holds exactly the items whose id differs and no item with the id. An absent id leaves the list unchanged |
| `Todos.StartEdit` | src/App.jsx:117-125 | Same length. An item is editing exactly when its id matches. A matching item's draft becomes its title, and every other draft is kept. Ids, titles and `completed` are unchanged |
| `Todos.ChangeEditDraft` | src/App.jsx:127-129 | Matching items get the draft `value` verbatim, with nothing else changed. All other items are unchanged |
| `Todos.SaveItem` | src/App.jsx:133-138 | Editing ends and the draft equals the resulting title. The title becomes the trimmed draft, or stays as it was when the draft trims to nothing. Id and `completed` are kept |
| `Todos.SaveEdit` | src/App.jsx:131-140 | Same length. Matching items are saved as `SaveItem` says, and all other items are unchanged |
| `Todos.InitialTodos` | src/App.jsx:70-79 | Five items, the seeds in reverse order: the item at index k carries the id, title and `completed` of seed 4 - k, is not editing, and has its title as its draft |
| `Todos.NewTodo` | src/App.jsx:93-100 | The new item carries the given id and title, is open and not editing, and has its title as its draft |
| `Todos.RemainingCount` | src/App.jsx:83-86 | The count never exceeds the number of items |
| `Text.Trim` | src/App.jsx:90 | The result is no longer than the text, and it is empty or starts and ends with a character that is not white space |
| `Text.TrimInfix` | src/App.jsx:90 | The result is a contiguous part of the text, and every character cut off before or after it is white space |
| `Text.TrimIdempotent` | src/App.jsx:135 | Trimming a trimmed text changes nothing |
| `Text.TrimBlank` | src/App.jsx:90-91 | The trimmed text is empty exactly when every character is white space, which is the blank text the `!title` test rejects |
| `TodoProperties.RemainingCountIsOpenItems` | src/App.jsx:83-86 | The `reduce` equals the number of items that are not completed: the length of the list filtered to open items |
| `TodoProperties.ToggleTodoRemaining` | src/App.jsx:107-111 | With unique ids, toggling an item lowers the remaining count by one when the item becomes completed and raises it by one when it is reopened |
| `TodoProperties.InitialState` | src/App.jsx:70-79 | The start list has five items with ids 5 down to 1, carrying the seed titles in reverse order. None is completed or editing, and each draft equals its title. The list is well formed and all five items remain |
| `TodoProperties.SeedTitlesCommitted` | src/App.jsx:4-10 | Every seed title is non-blank and already trimmed, so it could have been entered through the compose field |
| `TodoProperties.SeededToggleScenario` | src/App.jsx:70-111 | Completing item 3 of the seeded list leaves 4 of 5 items remaining |
| `TodoProperties.AddTodoRemaining` | src/App.jsx:88-105 | Adding raises the remaining count by one exactly when the text is not blank |
| `TodoProperties.AddTodoWellFormed` | src/App.jsx:88-105 | Adding with an id no item carries keeps ids unique, keeps at most one item editing, and keeps every title non-blank and trimmed |
| `TodoProperties.AddThenDelete` | src/App.jsx:88-115 | For any compose text, blank or not, deleting the id passed to an add gives back the list as it was before the add, provided no item carried that id |
| `TodoProperties.ToggleTodoTwice` | src/App.jsx:107-111 | Toggling the same id twice restores the original list |
| `TodoProperties.ToggleTodoAbsent` | src/App.jsx:107-111 | Toggling an id no item carries changes nothing |
| `TodoProperties.ToggleTodoWellFormed` | src/App.jsx:107-111 | Toggling keeps the list well formed |
| `TodoProperties.DeleteTodoAppend` | src/App.jsx:113-115 | Deleting distributes over concatenation, so the kept items stay in their original order |
| `TodoProperties.DeleteTodoTwice` | src/App.jsx:113-115 | A second delete of the same id is a no-op |
| `TodoProperties.DeleteTodoAt` | src/App.jsx:113-115 | With unique ids, deleting an item's id removes exactly that item. What remains is the items before it followed by the items after it |
| `TodoProperties.DeleteTodoWellFormed` | src/App.jsx:113-115 | Deleting keeps the list well formed |
| `TodoProperties.StartEditSingleEditor` | src/App.jsx:117-125 | With unique ids, at most one item is editing after `startEdit` |
| `TodoProperties.StartEditAbsent` | src/App.jsx:117-125 | When no item carries the id, no item is editing after `startEdit` |
| `TodoProperties.StartEditSwitch` | src/App.jsx:117-125 | `startEdit(a)` followed by `startEdit(b)`, with a and b different, leaves a not editing. It leaves b editing, with b's draft equal to b's title |
| `TodoProperties.StartEditWellFormed` | src/App.jsx:117-125 | Starting an edit keeps the list well formed |
| `TodoProperties.ChangeEditDraftWellFormed` | src/App.jsx:127-129 | Changing a draft keeps the list well formed |
| `TodoProperties.SaveEditWellFormed` | src/App.jsx:131-140 | Saving keeps the list well formed. In particular, a blank or padded draft never becomes a title |
| `TodoProperties.ChangeThenSave` | src/App.jsx:127-140 | With unique ids, typing `value` as an item's draft and then saving gives the item the trimmed value as its title, or keeps the old title when the value is blank. The item is then closed, and every other item is unchanged |
| `TodoProperties.StartThenSaveKeepsTitles` | src/App.jsx:117-140 | In a well-formed list, opening an edit and saving it untouched keeps every title and leaves no item editing |
| `TodoProperties.SaveEditPaddedDraft` | src/App.jsx:131-140 | Saving the draft "  new text  " sets the title to "new text" and ends editing |
| `TodoProperties.SaveEditBlankDraft` | src/App.jsx:131-140 | Saving a draft of spaces keeps the old title, resets the draft to it and ends editing |
| `TodoItemView.EditEnabled` | src/App.jsx:43 | Edit is enabled exactly for an item the remaining count counts |
| `TodoItemView.DeleteEnabled` | src/App.jsx:52 | Delete is enabled exactly for an item the remaining count does not count |
| `TodoItemView.SaveEnabled` | src/App.jsx:59 | Save is enabled exactly when the draft holds a character that is not white space |
| `TodoItemView.AddEnabled` | src/App.jsx:156 | Add is enabled exactly when the compose text holds a character that is not white space |
| `TodoItemView.AddEnabledIff` | src/App.jsx:156 | The Add button is enabled exactly when submitting would change the state, which is exactly when it adds one item |
| `TodoItemView.SaveEnabledIff` | src/App.jsx:59 | For an item with a committed title, Save is enabled exactly when saving would make the trimmed draft the title |
| `TodoItemView.DeleteTodoRemaining` | src/App.jsx:52 | With unique ids, a delete the row allows (completed item) leaves the remaining count unchanged. A delete called directly on the store for an open item lowers it by one |
| `TodoItemView.AddedItemRules` | src/App.jsx:43-52 | A newly added item has Edit enabled and Delete disabled. Deleting its id on the store still removes it and restores the earlier list |
| `TodoItemView.EditCompletedThroughScreen` | src/App.jsx:18-62 | Opening an edit on an open item (Edit enabled), ticking it while editing, typing a committed title and saving (Save enabled) leaves the item completed with the new title |
| `TodoItemView.StaleDraftSaved` | src/App.jsx:117-140 | A draft typed into an edit that `startEdit` on another item closed stays on the closed item, and `saveEdit` of its id makes that draft its title |
| `TodoApp.App.constructor` | src/App.jsx:70-81 | The store starts with the seeded list and an empty compose field, and is valid |
| `TodoApp.App.Remaining` | src/App.jsx:83-86 | The remaining count of the current list, which equals the number of open items and is at most the list length |
| `TodoApp.App.SetNewTitle` | src/App.jsx:154 | The compose field takes the typed value, and the list is unchanged |
| `TodoApp.App.AddTodo` | src/App.jsx:88-105 | Both cells become what `Todos.AddTodo` gives for the old cells. The id must be one never issued only when the text is not blank, and it counts as issued only then. The store stays valid |
| `TodoApp.App.ToggleTodo` | src/App.jsx:107-111 | The list becomes `Todos.ToggleTodo` of the old list, the compose field is unchanged, and the store stays valid |
| `TodoApp.App.DeleteTodo` | src/App.jsx:113-115 | The list becomes `Todos.DeleteTodo` of the old list, and the store stays valid |
| `TodoApp.App.StartEdit` | src/App.jsx:117-125 | The list becomes `Todos.StartEdit` of the old list, and the store stays valid, so at most one item is editing |
| `TodoApp.App.ChangeEditDraft` | src/App.jsx:127-129 | The list becomes `Todos.ChangeEditDraft` of the old list, and the store stays valid |
| `TodoApp.App.SaveEdit` | src/App.jsx:131-140 | The list becomes `Todos.SaveEdit` of the old list, and the store stays valid, so no title is ever blank |

## Left out

- JSX rendering and markup (`TodoItem` and the `App` return value):
  presentation only. Of the markup, only the four enable conditions are
  modelled, in `TodoItemView`.
- React hook mechanics: `useState`'s lazy initialiser becomes the
  constructor, `useMemo` becomes the function `App.Remaining`, and the
  `setTodos(prev => …)` updaters become direct field assignments.
  `e.preventDefault()` and the unused `useEffect` import carry no state.
- `crypto.randomUUID()`: a foreign, nondeterministic call. The new id is the
  parameter `freshId` of `App.AddTodo`. When the trimmed compose text is not
  blank, it must never have been issued before, and it is recorded as issued.
  For blank text the source returns before calling `randomUUID`, so no id is
  required or recorded.
- Id types: seed ids are numbers and new ids are strings, so the two never
  compare equal under `===`. Both are modelled as one integer type, and
  freshness keeps them apart.
- The constant `userId: 1` field of new items, which is never read.
- `trim` works on UTF-16 code units, while the model works on Unicode
  characters. No white-space character lies outside the basic plane, so
  this changes nothing. The set of space separators is the one of current
  Unicode.
