/** The todo collection of the `App` component: its items, the seeded
    starting list, the six transitions (each a whole-list transformation) and
    the derived count of items still to do. Everything here is a pure
    function of the list; the store that holds the list is `TodoApp.App`. */
module Todos {
  import opened Lists
  import opened Text

  /** Seed items carry numbers and new items random UUIDs; both are modelled
      as integers, compared with `===` as equality. */
  type Id = int

  datatype Todo = Todo(id: Id, title: string, completed: bool, isEditing: bool, editDraft: string)

  /** An entry of the seed list, before the editing fields are added. */
  datatype Seed = Seed(id: Id, title: string, completed: bool)

  const Seeds: seq<Seed> := [
    Seed(1, "Day 1 \U{2014} React Fundamentals", false),
    Seed(2, "Day 2 \U{2014} State & Events", false),
    Seed(3, "Day 3 \U{2014} Hooks Deep Dive", false),
    Seed(4, "Day 4 \U{2014} Advanced Patterns", false),
    Seed(5, "Day 5 \U{2014} Mini Project", false)
  ]

  /** A seed item, not editing, with its draft mirroring its title. */
  function Hydrate(s: Seed): Todo
  {
    Todo(s.id, s.title, s.completed, false, s.title)
  }

  /** The lazily initialised list: the seeds in reverse, each not editing
      and with its draft equal to its title. */
  function InitialTodos(): (r: seq<Todo>)
    ensures |r| == |Seeds|
    ensures forall k :: 0 <= k < |r| ==>
      var s := Seeds[|Seeds| - 1 - k];
      && r[k].id == s.id && r[k].title == s.title && r[k].completed == s.completed
      && !r[k].isEditing && r[k].editDraft == r[k].title
  {
    Map(Hydrate, Reverse(Seeds))
  }

  function Ids(todos: seq<Todo>): set<Id>
  {
    set t | t in todos :: t.id
  }

  /** An item still to do. */
  predicate IsOpen(t: Todo)
  {
    !t.completed
  }

  /** The number of items not yet completed, accumulated left to right as the
      source's `reduce` does. */
  function RemainingCount(todos: seq<Todo>): (n: nat)
    ensures n <= |todos|
  {
    if todos == [] then 0
    else RemainingCount(todos[..|todos| - 1]) + (if todos[|todos| - 1].completed then 0 else 1)
  }

  /** The item `addTodo` creates from an already trimmed title. */
  function NewTodo(id: Id, title: string): (t: Todo)
    ensures t.id == id && t.title == title
    ensures !t.completed && !t.isEditing && t.editDraft == t.title
  {
    Todo(id, title, false, false, title)
  }

  /** Both state cells of the component: the list and the compose field. */
  datatype Store = Store(todos: seq<Todo>, newTitle: string)

  /** `addTodo`: trims the compose text; blank text changes nothing, other
      text becomes a new first item and the compose field is cleared. The id
      the source draws from `crypto.randomUUID()` is the parameter `freshId`. */
  function AddTodo(todos: seq<Todo>, newTitle: string, freshId: Id): (r: Store)
    ensures Trim(newTitle) == [] ==> r == Store(todos, newTitle)
    ensures Trim(newTitle) != [] ==>
      && |r.todos| == |todos| + 1
      && r.todos[0] == NewTodo(freshId, Trim(newTitle))
      && r.todos[1..] == todos
      && r.newTitle == ""
  {
    var title := Trim(newTitle);
    if title == [] then Store(todos, newTitle)
    else Store([NewTodo(freshId, title)] + todos, "")
  }

  /** `toggleTodo`: flips `completed` on the items with the given id. */
  function ToggleTodo(todos: seq<Todo>, id: Id): (r: seq<Todo>)
    ensures |r| == |todos|
    ensures forall i :: 0 <= i < |todos| ==>
      && r[i].completed == (todos[i].completed != (todos[i].id == id))
      && r[i] == todos[i].(completed := r[i].completed)
  {
    Map((t: Todo) => if t.id == id then t.(completed := !t.completed) else t, todos)
  }

  /** The test `deleteTodo` filters by: the item has another id. */
  function Without(id: Id): Todo -> bool
  {
    (t: Todo) => t.id != id
  }

  /** `deleteTodo`: keeps the items whose id differs, in their order. */
  function DeleteTodo(todos: seq<Todo>, id: Id): (r: seq<Todo>)
    ensures |r| <= |todos|
    ensures forall t :: t in r <==> t in todos && t.id != id
    ensures id !in Ids(r)
    ensures id !in Ids(todos) ==> r == todos
  {
    Filter(Without(id), todos)
  }

  /** `startEdit`: the items with the given id start editing from their
      title; every other item stops editing and keeps its draft. */
  function StartEdit(todos: seq<Todo>, id: Id): (r: seq<Todo>)
    ensures |r| == |todos|
    ensures forall i :: 0 <= i < |todos| ==>
      && r[i].isEditing == (todos[i].id == id)
      && r[i].editDraft == (if todos[i].id == id then todos[i].title else todos[i].editDraft)
      && r[i] == todos[i].(isEditing := r[i].isEditing, editDraft := r[i].editDraft)
  {
    Map((t: Todo) => if t.id == id then t.(isEditing := true, editDraft := t.title)
                     else t.(isEditing := false), todos)
  }

  /** `changeEditDraft`: sets the draft of the items with the given id to
      `value` as typed, untrimmed. */
  function ChangeEditDraft(todos: seq<Todo>, id: Id, value: string): (r: seq<Todo>)
    ensures |r| == |todos|
    ensures forall i :: 0 <= i < |todos| ==>
      r[i] == (if todos[i].id == id then todos[i].(editDraft := value) else todos[i])
  {
    Map((t: Todo) => if t.id == id then t.(editDraft := value) else t, todos)
  }

  /** Saving one item: a draft that trims to nothing is discarded (the draft
      goes back to the title), any other draft becomes the trimmed title.
      Either way editing ends. */
  function SaveItem(t: Todo): (r: Todo)
    ensures r.id == t.id && r.completed == t.completed && !r.isEditing
    ensures r.editDraft == r.title
    ensures r.title == (if Trim(t.editDraft) == [] then t.title else Trim(t.editDraft))
  {
    var nextTitle := Trim(t.editDraft);
    if nextTitle == [] then t.(isEditing := false, editDraft := t.title)
    else t.(title := nextTitle, isEditing := false, editDraft := nextTitle)
  }

  /** `saveEdit`: saves the items with the given id, leaves the others. */
  function SaveEdit(todos: seq<Todo>, id: Id): (r: seq<Todo>)
    ensures |r| == |todos|
    ensures forall i :: 0 <= i < |todos| ==>
      r[i] == (if todos[i].id == id then SaveItem(todos[i]) else todos[i])
  {
    Map((t: Todo) => if t.id != id then t else SaveItem(t), todos)
  }

  // The rules every reachable list obeys.

  predicate DistinctIds(a: Todo, b: Todo)
  {
    a.id != b.id
  }

  predicate NotBothEditing(a: Todo, b: Todo)
  {
    !(a.isEditing && b.isEditing)
  }

  predicate UniqueIds(todos: seq<Todo>)
  {
    Pairwise(DistinctIds, todos)
  }

  /** Zero or one item is being edited. */
  predicate AtMostOneEditing(todos: seq<Todo>)
  {
    Pairwise(NotBothEditing, todos)
  }

  /** A title that was committed: non-blank and already trimmed. */
  predicate IsCommittedTitle(title: string)
  {
    title != [] && IsTrimmed(title)
  }

  predicate WellFormed(todos: seq<Todo>)
  {
    && UniqueIds(todos)
    && AtMostOneEditing(todos)
    && forall i :: 0 <= i < |todos| ==> IsCommittedTitle(todos[i].title)
  }
}
