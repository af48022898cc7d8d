/** The home screen's list state and the handlers that change it. */
module Screen {
  import opened TodoList
  import opened TodoRow
  import opened Session

  class HomeScreen {
    /** The items shown, in display order (oldest first). */
    var todos: seq<TodoItem>

    /** A fresh screen holds the seed list. */
    constructor ()
      ensures todos == Initial()
    {
      todos := [TodoItem("Learn React", false, SeedTime)];
    }

    /** Marks the item at `index` done: the list is copied and the copy's
        item at `index` gets `done` set. */
    method MarkTodoAsDone(index: nat)
      requires index < |todos|
      modifies this
      ensures todos == MarkDone(old(todos), index)
    {
      var newTodos := todos;
      newTodos := newTodos[index := newTodos[index].(done := true)];
      todos := newTodos;
    }

    /** Splices the item at `index` out of the list; an index at or past
        the end leaves a copy of the list as it was. */
    method DeleteTodo(index: nat)
      modifies this
      ensures todos == Delete(old(todos), index)
    {
      if index < |todos| {
        todos := todos[..index] + todos[index + 1..];
      }
    }

    /** Appends an open item titled `text`, created at `now`. */
    method AddTodo(text: string, now: Timestamp)
      modifies this
      ensures todos == Add(old(todos), text, now)
    {
      todos := todos + [TodoItem(text, false, now)];
    }

    /** Delivers one user action to the handler its row or the input field
        is wired to: "Done" to MarkTodoAsDone, a "Yes" to the deletion prompt
        to DeleteTodo, a submitted input to AddTodo; "No" does nothing. */
    method Handle(e: Event)
      requires Enabled(todos, e)
      modifies this
      ensures todos == Step(old(todos), e)
    {
      match e
      case Submitted(text, now) =>
        AddTodo(text, now);
      case DonePressed(i) =>
        MarkTodoAsDone(i);
      case DeleteAnswered(i, answer) =>
        if ConfirmsDeletion(answer) {
          DeleteTodo(i);
        }
    }
  }
}
