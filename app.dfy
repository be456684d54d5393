/** The App component (App.js): the `todos` state slot, the three handlers
    that replace it, and the wiring of the add form to `addTodo`. */
module App {
  import opened Todos
  import opened TodoStatus
  import opened AddForm

  /** Every task holds a visible character, as the form's guard ensures for
      each task it forwards. */
  predicate TasksVisible(s: seq<Todo>)
  {
    forall i :: 0 <= i < |s| ==> Visible(s[i].task)
  }

  /** `task` holds a character `trim` does not strip. */
  predicate Visible(task: string)
  {
    exists j :: 0 <= j < |task| && !IsWhitespace(task[j])
  }

  /** The seed tasks are all visible. */
  lemma SeedTasksVisible()
    ensures TasksVisible(Seed())
  {
    var s := Seed();
    forall i | 0 <= i < |s|
      ensures Visible(s[i].task)
    {
      assert s[i].task[0] == 'f';
      assert !IsWhitespace(s[i].task[0]);
    }
  }

  /** Toggling keeps every task, hence keeps them visible. */
  lemma ToggleKeepsTasksVisible(s: seq<Todo>, id: int)
    requires TasksVisible(s)
    ensures TasksVisible(Todos.ToggleTodo(s, id))
  {
    var r := Todos.ToggleTodo(s, id);
    forall i | 0 <= i < |r|
      ensures Visible(r[i].task)
    {
      assert r[i].task == s[i].task;
    }
  }

  /** Deleting keeps only items of the list, hence keeps tasks visible. */
  lemma DeleteKeepsTasksVisible(s: seq<Todo>, id: int)
    requires TasksVisible(s)
    ensures TasksVisible(Todos.DeleteTodo(s, id))
  {
    var r := Todos.DeleteTodo(s, id);
    forall i | 0 <= i < |r|
      ensures Visible(r[i].task)
    {
      assert r[i] in s;
      var m :| 0 <= m < |s| && s[m] == r[i];
    }
  }

  /** Adding a visible task keeps all tasks visible. */
  lemma AddKeepsTasksVisible(s: seq<Todo>, task: string)
    requires TasksVisible(s)
    requires Visible(task)
    ensures TasksVisible(Todos.AddTodo(s, task))
  {
    var r := Todos.AddTodo(s, task);
    forall i | 0 <= i < |r|
      ensures Visible(r[i].task)
    {
      if i < |s| {
        assert r[i] == r[..|s|][i] == s[i];
      }
    }
  }

  /** The `todos` state of App; each handler assigns it once, wholesale. */
  class TodoStore {
    var todos: seq<Todo>

    /** Every reachable list has ids that grow along the list. */
    ghost predicate Valid()
      reads this
    {
      IdsIncreasing(todos)
    }

    /** `useState(initialTodos)`. */
    constructor ()
      ensures Valid() && TasksVisible(todos)
      ensures todos == Seed()
    {
      todos := Seed();
      SeedTasksVisible();
    }

    method AddTodo(task: string)
      requires Valid()
      modifies this
      ensures Valid() && UniqueIds(todos)
      ensures todos == Todos.AddTodo(old(todos), task)
    {
      todos := Todos.AddTodo(todos, task);
    }

    method ToggleTodo(id: int)
      requires Valid()
      modifies this
      ensures Valid() && UniqueIds(todos)
      ensures todos == Todos.ToggleTodo(old(todos), id)
      ensures TasksVisible(old(todos)) ==> TasksVisible(todos)
    {
      TogglePreservesIds(todos, id);
      if TasksVisible(todos) { ToggleKeepsTasksVisible(todos, id); }
      todos := Todos.ToggleTodo(todos, id);
    }

    method DeleteTodo(id: int)
      requires Valid()
      modifies this
      ensures Valid() && UniqueIds(todos)
      ensures todos == Todos.DeleteTodo(old(todos), id)
      ensures TasksVisible(old(todos)) ==> TasksVisible(todos)
    {
      DeletePreservesIncreasing(todos, id);
      if TasksVisible(todos) { DeleteKeepsTasksVisible(todos, id); }
      todos := Todos.DeleteTodo(todos, id);
    }
  }

  /** A click on the form's button: the form forwards its text to the store's
      `addTodo` only when the text is not blank. */
  method Submit(form: TodoAdd, store: TodoStore)
    requires store.Valid()
    modifies form, store
    ensures store.Valid()
    ensures Accepts(old(form.task)) ==>
              store.todos == Todos.AddTodo(old(store.todos), old(form.task)) && form.task == ""
    ensures !Accepts(old(form.task)) ==>
              store.todos == old(store.todos) && form.task == old(form.task)
    ensures TasksVisible(old(store.todos)) ==> TasksVisible(store.todos)
  {
    var forwarded := form.HandClick();
    if forwarded.Some? {
      if TasksVisible(store.todos) { AddKeepsTasksVisible(store.todos, forwarded.value); }
      store.AddTodo(forwarded.value);
    }
  }

  /** The three-item list of the worked scenario below. */
  function WalkStart(): seq<Todo>
  {
    [Todo(1, "A", false), Todo(2, "B", false), Todo(3, "C", true)]
  }

  /** Walk-through, step 1: adding "D" appends item 4. */
  lemma WalkAdd()
    ensures Todos.AddTodo(WalkStart(), "D") == WalkStart() + [Todo(4, "D", false)]
  {
    var added := Todos.AddTodo(WalkStart(), "D");
    assert HasId(WalkStart(), NextId(WalkStart()) - 1);
    assert added == WalkStart() + [added[3]];
  }

  /** Walk-through, step 2: toggling 2 marks "B" done. */
  lemma WalkToggle(added: seq<Todo>)
    requires added == WalkStart() + [Todo(4, "D", false)]
    ensures Todos.ToggleTodo(added, 2) ==
            [Todo(1, "A", false), Todo(2, "B", true), Todo(3, "C", true), Todo(4, "D", false)]
  {
  }

  /** Walk-through, step 3: deleting 1 leaves the other three in order. */
  lemma WalkDelete(toggled: seq<Todo>)
    requires toggled == [Todo(1, "A", false), Todo(2, "B", true), Todo(3, "C", true), Todo(4, "D", false)]
    ensures Todos.DeleteTodo(toggled, 1) == toggled[1..]
    ensures toggled[1..] == [Todo(2, "B", true), Todo(3, "C", true), Todo(4, "D", false)]
  {
    DeleteAbsent(toggled[1..], 1);
  }

  /** A worked scenario: from a three-item list, add "D",
      toggle 2, delete 1; the list is then items 2, 3, 4 and the counter
      reads 2 / 3. */
  lemma Walkthrough()
    ensures
      var deleted := Todos.DeleteTodo(Todos.ToggleTodo(Todos.AddTodo(WalkStart(), "D"), 2), 1);
      && deleted == [Todo(2, "B", true), Todo(3, "C", true), Todo(4, "D", false)]
      && CompletedTodos(deleted) == 2 && TotalTodos(deleted) == 3
  {
    var start := WalkStart();
    var added := Todos.AddTodo(start, "D");
    WalkAdd();
    var toggled := Todos.ToggleTodo(added, 2);
    WalkToggle(added);
    WalkDelete(toggled);
    var rest := toggled[1..];
    assert CompletedTodos(rest) == 2 by {
      assert rest[1..][1..] == [rest[2]];
      assert DoneItems([rest[2]]) == [] by {
        assert [rest[2]][1..] == [];
      }
    }
  }
}
