/** The TodoList component's state and its event handlers. The component
    keeps the task list and the text of the input box; each handler is one
    atomic state transition built from the list functions of `Todos` and
    `Reorder`. */
module Component {
  import opened Text
  import opened Todos
  import opened Reorder

  class TodoList {
    var todos: seq<Todo>
    var newTodoText: string

    /** Distinct ids and no blank text; every handler keeps it. */
    ghost predicate Valid()
      reads this
    {
      WellFormed(todos)
    }

    /** Initial state: the list saved by an earlier session when one was
        stored (already parsed, and not checked), the empty list otherwise;
        the input box starts empty. */
    constructor (saved: Option<seq<Todo>>)
      ensures todos == (if saved.Some? then saved.value else [])
      ensures newTodoText == ""
      ensures (saved.None? || WellFormed(saved.value)) ==> Valid()
    {
      todos := if saved.Some? then saved.value else [];
      newTodoText := "";
    }

    /** Typing in the input box replaces its text and nothing else. */
    method SetNewTodoText(text: string)
      modifies this
      ensures newTodoText == text && todos == old(todos)
    {
      newTodoText := text;
    }

    /** addTodo: blank input changes nothing; otherwise the input text
        becomes a new open task at the end and the input box is cleared.
        `freshId` stands for the generated uuid, not yet in use. */
    method AddTodo(freshId: string)
      requires !HasId(todos, freshId)
      modifies this
      ensures todos == Todos.AddTodo(old(todos), old(newTodoText), freshId)
      ensures newTodoText == if IsBlank(old(newTodoText)) then old(newTodoText) else ""
      ensures old(Valid()) ==> Valid()
    {
      if old(Valid()) {
        AddKeepsWellFormed(todos, newTodoText, freshId);
      }
      if Trim(newTodoText) != "" {
        todos := todos + [Todo(freshId, newTodoText, false)];
        newTodoText := "";
      }
    }

    /** toggleTodo: flips the completion flag of the tasks carrying `id`. */
    method ToggleTodo(id: string)
      modifies this
      ensures todos == Todos.ToggleTodo(old(todos), id)
      ensures newTodoText == old(newTodoText)
      ensures old(Valid()) ==> Valid()
    {
      if Valid() {
        ToggleKeepsWellFormed(todos, id);
      }
      todos := Todos.ToggleTodo(todos, id);
    }

    /** deleteTodo: drops the tasks carrying `id`. */
    method DeleteTodo(id: string)
      modifies this
      ensures todos == Todos.DeleteTodo(old(todos), id)
      ensures newTodoText == old(newTodoText)
      ensures old(Valid()) ==> Valid()
    {
      if Valid() {
        DeleteKeepsWellFormed(todos, id);
      }
      todos := Todos.DeleteTodo(todos, id);
    }

    /** handleDragEnd: moves the dragged task to the drop target's position;
        both ids must name tasks in the list. */
    method HandleDragEnd(e: DragEndEvent)
      requires Moves(e) ==> HasId(todos, e.activeId) && HasId(todos, e.overId.value)
      modifies this
      ensures todos == Reorder.HandleDragEnd(old(todos), e)
      ensures newTodoText == old(newTodoText)
      ensures old(Valid()) ==> Valid()
    {
      if Moves(e) {
        var oldIndex := FindIndex(todos, e.activeId);
        var newIndex := FindIndex(todos, e.overId.value);
        if Valid() {
          ArrayMoveKeepsWellFormed(todos, oldIndex, newIndex);
        }
        todos := ArrayMove(todos, oldIndex, newIndex);
      }
    }

    /** The "completed of total" line under the list. */
    function Progress(): (r: (nat, nat))
      reads this
      ensures r.0 <= r.1 == |todos|
      ensures r.0 == r.1 <==> forall i :: 0 <= i < |todos| ==> todos[i].completed
    {
      (CompletedCount(todos), |todos|)
    }
  }
}
