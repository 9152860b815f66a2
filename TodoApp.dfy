/** The `App` component as a store: two state cells, `todos` and
    `newTitle`, that each transition replaces with a new value computed by
    the functions of `Todos`. */
module TodoApp {
  import opened Lists
  import opened Text
  import opened Todos
  import opened TodoProperties

  class App {
    var todos: seq<Todo>
    var newTitle: string
    /** Every id handed out so far, including those of deleted items. */
    ghost var issued: set<Id>

    /** The list is well formed and carries only ids that were handed out. */
    ghost predicate Valid()
      reads this
    {
      WellFormed(todos) && Ids(todos) <= issued
    }

    /** The seeded list and an empty compose field. */
    constructor ()
      ensures Valid()
      ensures todos == InitialTodos() && newTitle == ""
      ensures issued == Ids(todos)
    {
      todos := InitialTodos();
      newTitle := "";
      issued := Ids(InitialTodos());
      InitialState();
    }

    /** The `remainingCount` memo: the number of open items, recomputed
        from the current list. */
    function Remaining(): (n: nat)
      reads this
      ensures n <= |todos|
      ensures n == |Filter(IsOpen, todos)|
    {
      RemainingCountIsOpenItems(todos);
      RemainingCount(todos)
    }

    /** The compose input's `onChange`. */
    method SetNewTitle(value: string)
      requires Valid()
      modifies this`newTitle
      ensures Valid()
      ensures newTitle == value
    {
      newTitle := value;
    }

    /** `addTodo`; `freshId` stands for the UUID the source draws once the
        text is known not to be blank, which is never one handed out before. */
    method AddTodo(freshId: Id)
      requires Valid()
      requires Trim(newTitle) != [] ==> freshId !in issued
      modifies this
      ensures Valid()
      ensures var next := Todos.AddTodo(old(todos), old(newTitle), freshId);
        todos == next.todos && newTitle == next.newTitle
      ensures issued == if Trim(old(newTitle)) == [] then old(issued) else old(issued) + {freshId}
    {
      if Trim(newTitle) != [] {
        AddTodoWellFormed(todos, newTitle, freshId);
      }
      var next := Todos.AddTodo(todos, newTitle, freshId);
      if Trim(newTitle) != [] {
        issued := issued + {freshId};
      }
      todos, newTitle := next.todos, next.newTitle;
    }

    method ToggleTodo(id: Id)
      requires Valid()
      modifies this`todos
      ensures Valid()
      ensures todos == Todos.ToggleTodo(old(todos), id)
    {
      ToggleTodoWellFormed(todos, id);
      todos := Todos.ToggleTodo(todos, id);
    }

    method DeleteTodo(id: Id)
      requires Valid()
      modifies this`todos
      ensures Valid()
      ensures todos == Todos.DeleteTodo(old(todos), id)
    {
      DeleteTodoWellFormed(todos, id);
      todos := Todos.DeleteTodo(todos, id);
    }

    method StartEdit(id: Id)
      requires Valid()
      modifies this`todos
      ensures Valid()
      ensures todos == Todos.StartEdit(old(todos), id)
    {
      StartEditWellFormed(todos, id);
      todos := Todos.StartEdit(todos, id);
    }

    method ChangeEditDraft(id: Id, value: string)
      requires Valid()
      modifies this`todos
      ensures Valid()
      ensures todos == Todos.ChangeEditDraft(old(todos), id, value)
    {
      ChangeEditDraftWellFormed(todos, id, value);
      todos := Todos.ChangeEditDraft(todos, id, value);
    }

    method SaveEdit(id: Id)
      requires Valid()
      modifies this`todos
      ensures Valid()
      ensures todos == Todos.SaveEdit(old(todos), id)
    {
      SaveEditWellFormed(todos, id);
      todos := Todos.SaveEdit(todos, id);
    }
  }
}
