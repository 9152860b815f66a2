/** The state rules carried by the markup: when the Add, Edit, Delete and
    Save buttons are enabled. The store itself enforces none of them. A row
    shows Edit and Delete only while its item is not editing, and Save only
    while it is; the completion checkbox is shown in both modes. */
module TodoItemView {
  import opened Text
  import opened Todos
  import opened TodoProperties

  /** Edit is disabled on completed items: it is enabled exactly for the
      items the summary line counts as remaining. */
  predicate EditEnabled(t: Todo)
    ensures EditEnabled(t) <==> RemainingCount([t]) == 1
  {
    !t.completed
  }

  /** Delete is disabled until the item is completed: it is enabled
      exactly for the items the summary line does not count. */
  predicate DeleteEnabled(t: Todo)
    ensures DeleteEnabled(t) <==> RemainingCount([t]) == 0
  {
    t.completed
  }

  /** Save is disabled while the draft trims to nothing: it is enabled
      exactly when the draft holds a character other than white space. */
  predicate SaveEnabled(t: Todo)
    ensures SaveEnabled(t) <==> exists k :: 0 <= k < |t.editDraft| && !IsWhitespace(t.editDraft[k])
  {
    TrimBlank(t.editDraft);
    Trim(t.editDraft) != []
  }

  /** Add is disabled while the compose text trims to nothing: it is
      enabled exactly when the text holds a character other than white space. */
  predicate AddEnabled(newTitle: string)
    ensures AddEnabled(newTitle) <==> exists k :: 0 <= k < |newTitle| && !IsWhitespace(newTitle[k])
  {
    TrimBlank(newTitle);
    Trim(newTitle) != []
  }

  /** The Add button is enabled exactly when submitting would change the
      state: a disabled button guards only no-ops. */
  lemma AddEnabledIff(todos: seq<Todo>, newTitle: string, freshId: Id)
    ensures AddEnabled(newTitle) <==> AddTodo(todos, newTitle, freshId) != Store(todos, newTitle)
    ensures AddEnabled(newTitle) <==> |AddTodo(todos, newTitle, freshId).todos| == |todos| + 1
  {
  }

  /** For an item whose title was committed, Save is enabled exactly when
      saving would commit the trimmed draft as the new title. */
  lemma SaveEnabledIff(t: Todo)
    requires IsCommittedTitle(t.title)
    ensures SaveEnabled(t) <==> SaveItem(t).title == Trim(t.editDraft)
  {
  }

  /** A delete reached through the row (enabled, so the item is completed)
      leaves the remaining count alone; a delete called on the store
      directly for an open item lowers it by one. */
  lemma DeleteTodoRemaining(todos: seq<Todo>, k: int)
    requires UniqueIds(todos) && 0 <= k < |todos|
    ensures RemainingCount(DeleteTodo(todos, todos[k].id))
         == RemainingCount(todos) - (if DeleteEnabled(todos[k]) then 0 else 1)
  {
    DeleteTodoAt(todos, k);
    RemainingCountAround(todos, k);
    RemainingCountAppend(todos[..k], todos[k + 1..]);
  }

  /** A freshly added item cannot be deleted from its row (it is open), but
      it can be edited; deleting its id on the store still removes it and
      gives back the list as it was before the add. */
  lemma AddedItemRules(todos: seq<Todo>, newTitle: string, freshId: Id)
    requires freshId !in Ids(todos) && AddEnabled(newTitle)
    ensures var added := AddTodo(todos, newTitle, freshId).todos;
      && !DeleteEnabled(added[0])
      && EditEnabled(added[0])
      && DeleteTodo(added, freshId) == todos
  {
    AddThenDelete(todos, newTitle, freshId);
  }

  /** Edit is disabled on completed items, but only an edit that has not
      started is stopped: the checkbox stays usable while the row is in edit
      mode, and Save looks only at the draft. So a user can open an edit,
      tick the item and save a new title on the completed item, with every
      control enabled and shown at the step it is used. */
  lemma EditCompletedThroughScreen(todos: seq<Todo>, k: int, value: string)
    requires 0 <= k < |todos| && !todos[k].completed && !todos[k].isEditing
    requires IsCommittedTitle(value)
    ensures var id := todos[k].id;
      var started := StartEdit(todos, id);
      var ticked := ToggleTodo(started, id);
      var typed := ChangeEditDraft(ticked, id, value);
      var saved := SaveEdit(typed, id);
      && EditEnabled(todos[k])
      && started[k].isEditing && ticked[k].isEditing && typed[k].isEditing
      && ticked[k].completed && !EditEnabled(ticked[k])
      && SaveEnabled(typed[k])
      && saved[k].completed && saved[k].title == value
  {
    TrimOfTrimmed(value);
  }

  /** `saveEdit` does not check that the item is editing. A draft typed
      into an edit that a later `startEdit` on another item closed stays
      behind, and saving the closed item's id on the store makes it the
      title. Through the screen this cannot happen: a closed row shows no
      Save button. */
  lemma StaleDraftSaved(todos: seq<Todo>, i: int, j: int, value: string)
    requires 0 <= i < |todos| && 0 <= j < |todos| && todos[i].id != todos[j].id
    requires IsCommittedTitle(value)
    ensures var a, b := todos[i].id, todos[j].id;
      var typed := ChangeEditDraft(StartEdit(todos, a), a, value);
      var switched := StartEdit(typed, b);
      var saved := SaveEdit(switched, a);
      && !switched[i].isEditing && switched[i].editDraft == value
      && saved[i].title == value && !saved[i].isEditing
  {
    TrimOfTrimmed(value);
  }
}
