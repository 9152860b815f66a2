/** What the transitions of `Todos` promise beyond one call: the seeded
    state, the remaining count, involution and idempotence, order, and the
    rules of a well-formed list that every transition keeps. */
module TodoProperties {
  import opened Lists
  import opened Text
  import opened Todos

  // ---------------------------------------------------------------------
  // Remaining count

  /** The `reduce` counts exactly the open items: it is the length of the
      list filtered to those items. */
  lemma {:induction false} RemainingCountIsOpenItems(todos: seq<Todo>)
    ensures RemainingCount(todos) == |Filter(IsOpen, todos)|
  {
    if todos != [] {
      var n := |todos| - 1;
      var front, last := todos[..n], todos[n];
      assert todos == front + [last];
      RemainingCountIsOpenItems(front);
      FilterAppend(IsOpen, front, [last]);
      assert [last][1..] == [];
    }
  }

  /** The count of a concatenation is the sum of the counts. */
  lemma RemainingCountAppend(a: seq<Todo>, b: seq<Todo>)
    ensures RemainingCount(a + b) == RemainingCount(a) + RemainingCount(b)
  {
    RemainingCountIsOpenItems(a + b);
    RemainingCountIsOpenItems(a);
    RemainingCountIsOpenItems(b);
    FilterAppend(IsOpen, a, b);
  }

  /** A list of open items is all remaining. */
  lemma RemainingCountAllOpen(todos: seq<Todo>)
    requires forall i :: 0 <= i < |todos| ==> !todos[i].completed
    ensures RemainingCount(todos) == |todos|
  {
    RemainingCountIsOpenItems(todos);
  }

  /** With unique ids, an item's id singles it out. */
  lemma UniqueIdAt(todos: seq<Todo>, k: int)
    requires UniqueIds(todos) && 0 <= k < |todos|
    ensures forall i :: 0 <= i < |todos| && i != k ==> todos[i].id != todos[k].id
  {
    forall i | 0 <= i < |todos| && i != k ensures todos[i].id != todos[k].id {
      if i < k { assert DistinctIds(todos[i], todos[k]); }
      else { assert DistinctIds(todos[k], todos[i]); }
    }
  }

  /** The count splits around any one item. */
  lemma RemainingCountAround(todos: seq<Todo>, k: int)
    requires 0 <= k < |todos|
    ensures RemainingCount(todos)
         == RemainingCount(todos[..k]) + (if todos[k].completed then 0 else 1) + RemainingCount(todos[k + 1..])
  {
    SplitAt(todos, k);
    RemainingCountAppend(todos[..k], [todos[k]] + todos[k + 1..]);
    RemainingCountAppend([todos[k]], todos[k + 1..]);
    assert [todos[k]][..0] == [];
  }

  /** With unique ids, toggling an item's id leaves the items around it. */
  lemma ToggleTodoOthers(todos: seq<Todo>, k: int)
    requires UniqueIds(todos) && 0 <= k < |todos|
    ensures var r := ToggleTodo(todos, todos[k].id);
      r[..k] == todos[..k] && r[k + 1..] == todos[k + 1..]
  {
    var r := ToggleTodo(todos, todos[k].id);
    UniqueIdAt(todos, k);
    forall i | 0 <= i < |todos| && i != k ensures r[i] == todos[i] {
      assert todos[i].id != todos[k].id;
    }
    assert r[..k] == todos[..k];
    assert r[k + 1..] == todos[k + 1..];
  }

  /** Toggling one item moves the remaining count by one: down when it
      becomes completed, up when it is reopened. */
  lemma ToggleTodoRemaining(todos: seq<Todo>, k: int)
    requires UniqueIds(todos) && 0 <= k < |todos|
    ensures RemainingCount(ToggleTodo(todos, todos[k].id))
         == RemainingCount(todos) + (if todos[k].completed then 1 else -1)
  {
    var r := ToggleTodo(todos, todos[k].id);
    ToggleTodoOthers(todos, k);
    RemainingCountAround(r, k);
    RemainingCountAround(todos, k);
  }

  // ---------------------------------------------------------------------
  // Seeded initial state

  /** The starting list holds the five seeds, newest first, none completed,
      none editing, each draft equal to its title; it is well formed and all
      five items remain. */
  lemma InitialState()
    ensures |InitialTodos()| == 5
    ensures forall k :: 0 <= k < 5 ==>
      && InitialTodos()[k].id == 5 - k
      && InitialTodos()[k].title == Seeds[4 - k].title
      && !InitialTodos()[k].completed
      && !InitialTodos()[k].isEditing
      && InitialTodos()[k].editDraft == InitialTodos()[k].title
    ensures WellFormed(InitialTodos())
    ensures RemainingCount(InitialTodos()) == 5
  {
    var ts := InitialTodos();
    SeedTitlesCommitted();
    forall k | 0 <= k < 5 ensures IsCommittedTitle(ts[k].title) {
      assert ts[k] == Hydrate(Seeds[4 - k]);
    }
    RemainingCountAllOpen(ts);
  }

  lemma SeedTitlesCommitted()
    ensures forall k :: 0 <= k < |Seeds| ==> IsCommittedTitle(Seeds[k].title)
  {
    CommittedSeedTitle(Seeds[0].title, 's');
    CommittedSeedTitle(Seeds[1].title, 's');
    CommittedSeedTitle(Seeds[2].title, 'e');
    CommittedSeedTitle(Seeds[3].title, 's');
    CommittedSeedTitle(Seeds[4].title, 't');
  }

  lemma CommittedSeedTitle(title: string, last: char)
    requires title != [] && title[0] == 'D' && title[|title| - 1] == last
    requires !IsWhitespace(last)
    ensures IsCommittedTitle(title)
  {
  }

  /** Completing "Day 3" in the seeded list leaves four of five remaining. */
  lemma SeededToggleScenario()
    ensures |ToggleTodo(InitialTodos(), 3)| == 5
    ensures RemainingCount(ToggleTodo(InitialTodos(), 3)) == 4
  {
    InitialState();
    ToggleTodoRemaining(InitialTodos(), 2);
  }

  // ---------------------------------------------------------------------
  // addTodo

  /** Adding moves the remaining count by one exactly when the text is not
      blank: the new item is open. */
  lemma AddTodoRemaining(todos: seq<Todo>, newTitle: string, freshId: Id)
    ensures RemainingCount(AddTodo(todos, newTitle, freshId).todos)
         == RemainingCount(todos) + (if Trim(newTitle) == [] then 0 else 1)
  {
    var r := AddTodo(todos, newTitle, freshId);
    if Trim(newTitle) != [] {
      assert r.todos == [r.todos[0]] + todos;
      RemainingCountAppend([r.todos[0]], todos);
    }
  }

  /** Adding with an id no item carries keeps the list well formed: the new
      title is committed and the new item is not editing. */
  lemma AddTodoWellFormed(todos: seq<Todo>, newTitle: string, freshId: Id)
    requires WellFormed(todos) && freshId !in Ids(todos)
    ensures WellFormed(AddTodo(todos, newTitle, freshId).todos)
  {
    var r := AddTodo(todos, newTitle, freshId).todos;
    if Trim(newTitle) != [] {
      TrimIdempotent(newTitle);
      forall i, j | 0 <= i < j < |r| ensures DistinctIds(r[i], r[j]) && NotBothEditing(r[i], r[j]) {
        assert r[j] == todos[j - 1];
        if i == 0 {
          assert todos[j - 1] in todos;
        } else {
          assert r[i] == todos[i - 1];
          assert DistinctIds(todos[i - 1], todos[j - 1]) && NotBothEditing(todos[i - 1], todos[j - 1]);
        }
      }
      forall i | 0 <= i < |r| ensures IsCommittedTitle(r[i].title) {
        if i > 0 { assert r[i] == todos[i - 1]; }
      }
    }
  }

  /** Deleting a just-added item restores the list it was added to. */
  lemma AddThenDelete(todos: seq<Todo>, newTitle: string, freshId: Id)
    requires freshId !in Ids(todos)
    ensures DeleteTodo(AddTodo(todos, newTitle, freshId).todos, freshId) == todos
  {
    if Trim(newTitle) == [] {
      assert DeleteTodo(todos, freshId) == todos;
    } else {
      var r := AddTodo(todos, newTitle, freshId).todos;
      assert r == [r[0]] + todos;
      DeleteTodoFront(r[0], todos);
    }
  }

  lemma DeleteTodoFront(t: Todo, todos: seq<Todo>)
    requires t.id !in Ids(todos)
    ensures DeleteTodo([t] + todos, t.id) == todos
  {
    DeleteTodoAppend([t], todos, t.id);
    assert DeleteTodo([t], t.id) == [];
  }

  // ---------------------------------------------------------------------
  // toggleTodo

  /** Toggling the same id twice gives back the original list. */
  lemma ToggleTodoTwice(todos: seq<Todo>, id: Id)
    ensures ToggleTodo(ToggleTodo(todos, id), id) == todos
  {
    var once := ToggleTodo(todos, id);
    var twice := ToggleTodo(once, id);
    forall i | 0 <= i < |todos| ensures twice[i] == todos[i] {
      assert once[i].id == todos[i].id;
    }
  }

  /** Toggling an id no item carries changes nothing. */
  lemma ToggleTodoAbsent(todos: seq<Todo>, id: Id)
    requires id !in Ids(todos)
    ensures ToggleTodo(todos, id) == todos
  {
    var r := ToggleTodo(todos, id);
    forall i | 0 <= i < |todos| ensures r[i] == todos[i] {
      assert todos[i] in todos;
    }
  }

  lemma ToggleTodoWellFormed(todos: seq<Todo>, id: Id)
    requires WellFormed(todos)
    ensures WellFormed(ToggleTodo(todos, id))
  {
    var r := ToggleTodo(todos, id);
    forall i, j | 0 <= i < j < |r| ensures DistinctIds(r[i], r[j]) && NotBothEditing(r[i], r[j]) {
      assert DistinctIds(todos[i], todos[j]) && NotBothEditing(todos[i], todos[j]);
    }
  }

  // ---------------------------------------------------------------------
  // deleteTodo

  /** Deleting keeps the relative order of what it keeps. */
  lemma DeleteTodoAppend(a: seq<Todo>, b: seq<Todo>, id: Id)
    ensures DeleteTodo(a + b, id) == DeleteTodo(a, id) + DeleteTodo(b, id)
  {
    FilterAppend(Without(id), a, b);
  }

  /** A second delete of the same id is a no-op. */
  lemma DeleteTodoTwice(todos: seq<Todo>, id: Id)
    ensures DeleteTodo(DeleteTodo(todos, id), id) == DeleteTodo(todos, id)
  {
  }

  /** With unique ids, deleting an item's id cuts exactly that item out. */
  lemma DeleteTodoAt(todos: seq<Todo>, k: int)
    requires UniqueIds(todos) && 0 <= k < |todos|
    ensures DeleteTodo(todos, todos[k].id) == todos[..k] + todos[k + 1..]
  {
    var id := todos[k].id;
    var front, back := todos[..k], todos[k + 1..];
    DeleteTodoAround(todos, k);
    DeleteTodoOnly(todos[k], id);
    calc {
      DeleteTodo(todos, id);
      { SplitAt(todos, k); }
      DeleteTodo(front + ([todos[k]] + back), id);
      { DeleteTodoAppend(front, [todos[k]] + back, id); }
      DeleteTodo(front, id) + DeleteTodo([todos[k]] + back, id);
      { DeleteTodoAppend([todos[k]], back, id); }
      front + ([] + back);
      { assert [] + back == back; }
      front + back;
    }
  }

  /** With unique ids, no item before or after an item carries its id. */
  lemma DeleteTodoAround(todos: seq<Todo>, k: int)
    requires UniqueIds(todos) && 0 <= k < |todos|
    ensures DeleteTodo(todos[..k], todos[k].id) == todos[..k]
    ensures DeleteTodo(todos[k + 1..], todos[k].id) == todos[k + 1..]
  {
    var id := todos[k].id;
    var front, back := todos[..k], todos[k + 1..];
    UniqueIdAt(todos, k);
    assert id !in Ids(front) by {
      forall t | t in front ensures t.id != id {
        var m :| 0 <= m < |front| && front[m] == t;
        assert todos[m] == t;
      }
    }
    assert id !in Ids(back) by {
      forall t | t in back ensures t.id != id {
        var m :| 0 <= m < |back| && back[m] == t;
        assert todos[k + 1 + m] == t;
      }
    }
  }

  lemma DeleteTodoOnly(t: Todo, id: Id)
    requires t.id == id
    ensures DeleteTodo([t], id) == []
  {
    assert [t][1..] == [];
  }

  lemma DeleteTodoWellFormed(todos: seq<Todo>, id: Id)
    requires WellFormed(todos)
    ensures WellFormed(DeleteTodo(todos, id))
  {
    FilterPairwise(DistinctIds, Without(id), todos);
    FilterPairwise(NotBothEditing, Without(id), todos);
    var r := DeleteTodo(todos, id);
    forall i | 0 <= i < |r| ensures IsCommittedTitle(r[i].title) {
      assert r[i] in todos;
    }
  }

  // ---------------------------------------------------------------------
  // startEdit

  /** After `startEdit`, an item is editing exactly when it carries the id;
      with unique ids that is at most one item. */
  lemma StartEditSingleEditor(todos: seq<Todo>, id: Id)
    requires UniqueIds(todos)
    ensures AtMostOneEditing(StartEdit(todos, id))
  {
    var r := StartEdit(todos, id);
    forall i, j | 0 <= i < j < |r| ensures NotBothEditing(r[i], r[j]) {
      assert DistinctIds(todos[i], todos[j]);
    }
  }

  /** `startEdit` with an id no item carries closes every edit. */
  lemma StartEditAbsent(todos: seq<Todo>, id: Id)
    requires id !in Ids(todos)
    ensures forall i :: 0 <= i < |todos| ==> !StartEdit(todos, id)[i].isEditing
  {
    var r := StartEdit(todos, id);
    forall i | 0 <= i < |todos| ensures !r[i].isEditing {
      assert todos[i] in todos;
    }
  }

  /** Starting an edit on `b` after one on `a` closes `a`'s edit, and `b`
      edits from its own title. */
  lemma StartEditSwitch(todos: seq<Todo>, i: int, j: int)
    requires 0 <= i < |todos| && 0 <= j < |todos| && todos[i].id != todos[j].id
    ensures var r := StartEdit(StartEdit(todos, todos[i].id), todos[j].id);
      && !r[i].isEditing && r[j].isEditing && r[j].editDraft == r[j].title
  {
  }

  lemma StartEditWellFormed(todos: seq<Todo>, id: Id)
    requires WellFormed(todos)
    ensures WellFormed(StartEdit(todos, id))
  {
    var r := StartEdit(todos, id);
    StartEditSingleEditor(todos, id);
    forall i, j | 0 <= i < j < |r| ensures DistinctIds(r[i], r[j]) {
      assert DistinctIds(todos[i], todos[j]);
    }
  }

  // ---------------------------------------------------------------------
  // changeEditDraft

  lemma ChangeEditDraftWellFormed(todos: seq<Todo>, id: Id, value: string)
    requires WellFormed(todos)
    ensures WellFormed(ChangeEditDraft(todos, id, value))
  {
    var r := ChangeEditDraft(todos, id, value);
    forall i, j | 0 <= i < j < |r| ensures DistinctIds(r[i], r[j]) && NotBothEditing(r[i], r[j]) {
      assert DistinctIds(todos[i], todos[j]) && NotBothEditing(todos[i], todos[j]);
    }
  }

  // ---------------------------------------------------------------------
  // saveEdit

  /** Saving keeps the list well formed; in particular a title is never
      replaced by blank text, and the saved title is trimmed. */
  lemma SaveEditWellFormed(todos: seq<Todo>, id: Id)
    requires WellFormed(todos)
    ensures WellFormed(SaveEdit(todos, id))
  {
    var r := SaveEdit(todos, id);
    forall i, j | 0 <= i < j < |r| ensures DistinctIds(r[i], r[j]) && NotBothEditing(r[i], r[j]) {
      assert DistinctIds(todos[i], todos[j]) && NotBothEditing(todos[i], todos[j]);
    }
    forall i | 0 <= i < |r| ensures IsCommittedTitle(r[i].title) {
      TrimIdempotent(todos[i].editDraft);
    }
  }

  /** Typing `value` into an item's draft and saving commits the trimmed
      value, or keeps the title when it is blank; no other item changes. */
  lemma ChangeThenSave(todos: seq<Todo>, k: int, value: string)
    requires UniqueIds(todos) && 0 <= k < |todos|
    ensures var r := SaveEdit(ChangeEditDraft(todos, todos[k].id, value), todos[k].id);
      && |r| == |todos|
      && r[k].title == (if Trim(value) == [] then todos[k].title else Trim(value))
      && r[k].editDraft == r[k].title && !r[k].isEditing
      && forall i :: 0 <= i < |todos| && i != k ==> r[i] == todos[i]
  {
    UniqueIdAt(todos, k);
  }

  /** Opening an edit and saving it untouched keeps every title: a
      committed title is its own trim. */
  lemma StartThenSaveKeepsTitles(todos: seq<Todo>, id: Id)
    requires WellFormed(todos)
    ensures var r := SaveEdit(StartEdit(todos, id), id);
      && |r| == |todos|
      && forall i :: 0 <= i < |todos| ==> r[i].title == todos[i].title && !r[i].isEditing
  {
    var editing := StartEdit(todos, id);
    forall i | 0 <= i < |todos| && todos[i].id == id
      ensures Trim(editing[i].editDraft) == todos[i].title
    {
      TrimOfTrimmed(todos[i].title);
    }
  }

  lemma TrimPaddedExample()
    ensures Trim("  new text  ") == "new text"
  {
    assert "  " + "new text" + "  " == "  new text  ";
    TrimPadded("  ", "new text", "  ");
  }

  lemma TrimBlankExample()
    ensures Trim("   ") == []
  {
    TrimBlank("   ");
  }

  /** A padded draft is saved trimmed. */
  lemma SaveEditPaddedDraft()
    ensures var r := SaveEdit([Todo(7, "old", false, true, "  new text  ")], 7);
      r[0].title == "new text" && !r[0].isEditing
  {
    TrimPaddedExample();
  }

  /** A blank draft is thrown away and the title kept. */
  lemma SaveEditBlankDraft()
    ensures var r := SaveEdit([Todo(7, "old", false, true, "   ")], 7);
      r[0].title == "old" && r[0].editDraft == "old" && !r[0].isEditing
  {
    TrimBlankExample();
  }
}
