# TodoList state transitions in Dafny

A model of the `TodoList` React component of the todo-list app
(`src/components/TodoList.tsx`). The component holds an ordered list of tasks
(`todos`, each `{id, text, completed}`) and the text of the input box
(`newTodoText`). Four handlers turn the current list into the next one:

- `addTodo` appends a new open task when the input text does not trim to
  nothing, and clears the input;
- `toggleTodo(id)` flips the completion flag of the task(s) with that id;
- `deleteTodo(id)` keeps the tasks whose id differs;
- `handleDragEnd` turns a drag of `active` onto `over` into a move by
  position, with `findIndex` and dnd-kit's `arrayMove`.

Under the list the component shows how many of the tasks are completed.

Files and modules:

- `text.dfy`, module `Text`: ECMAScript `String.prototype.trim` and the
  "blank text" test it implies.
- `todos.dfy`, module `Todos`: the `Todo` datatype, the add, toggle and delete
  transitions and the completed counter as functions on `seq<Todo>`, with
  lemmas about them.
- `reorder.dfy`, module `Reorder`: `findIndex`, `arrayMove`, the drag-end
  handler as functions, and lemmas about reordering.
- `component.dfy`, module `Component`: class `TodoList` with the two state
  fields. Its methods assign them as the handlers call `setTodos` and
  `setNewTodoText`, each proved against the list functions above. Each
  method also keeps the `Valid()` invariant: distinct ids and no blank text.

`arrayMove` belongs to `@dnd-kit/sortable`, whose source is not part of this
model. It is modelled by its documented meaning: take the element out at
`from`, then insert it at `to` in the shortened list. So on `[A, B, C]`,
dropping A on C gives `[B, C, A]`.

What the code does at its edges, which the model keeps:

- a blank `addTodo` is silently ignored;
- `handleDragEnd` has no guard for ids missing from the list, so both ids
  being present is a precondition;
- the saved list is parsed with no validation and no fallback;
- toggle and delete act on every task carrying the id (this only matters
  for a list with duplicate ids).

## Model

| member | source | states |
|---|---|---|
| Text.TrimStart | src/components/TodoList.tsx:28 | the result is the longest suffix of the input that does not start with a trimmable character; everything dropped is trimmable |
| Text.TrimEnd | src/components/TodoList.tsx:28 | the result is the longest prefix of the input that does not end with a trimmable character; everything dropped is trimmable |
| Text.Trim | src/components/TodoList.tsx:28 | the result is no longer than the input and, when not empty, begins and ends with a non-trimmable character; it is empty (falsy) exactly when every character of the input is white space or a line terminator |
| Todos.AddTodo | src/components/TodoList.tsx:27-36 | blank text leaves the list unchanged; otherwise the list is the old list, every item in its old position, followed by exactly one `{freshId, text untrimmed, completed false}` |
| Todos.AddKeepsWellFormed | src/components/TodoList.tsx:29-33 | with an id not already in the list, adding keeps ids distinct and texts non-blank, and the new id is present exactly when the text was accepted |
| Todos.ToggleTodo | src/components/TodoList.tsx:38-42 | same length, ids and texts at every position; the flag is flipped exactly at the positions whose id equals the argument |
| Todos.ToggleAbsent | src/components/TodoList.tsx:39-41 | toggling an id that no task carries leaves the list unchanged |
| Todos.ToggleTwice | src/components/TodoList.tsx:39-41 | toggling the same id twice gives back the original list |
| Todos.ToggleKeepsWellFormed | src/components/TodoList.tsx:39-41 | toggling keeps ids distinct and texts non-blank |
| Todos.DeleteTodo | src/components/TodoList.tsx:44-46 | the result is no longer than the input and no item of it carries the deleted id |
| Todos.DeleteMembers | src/components/TodoList.tsx:45 | an item survives deletion exactly when it was in the list and its id differs from the deleted one |
| Todos.DeleteAppend | src/components/TodoList.tsx:45 | deleting from a concatenation is concatenating the deletions, so survivors keep their relative order |
| Todos.DeleteAbsent | src/components/TodoList.tsx:45 | deleting an id that no task carries leaves the list unchanged |
| Todos.DeleteAt | src/components/TodoList.tsx:45 | with distinct ids, deleting the id at position k gives the list with exactly position k removed |
| Todos.DeleteLength | src/components/TodoList.tsx:45 | with distinct ids, deleting shortens the list by one if the id is present and by zero otherwise |
| Todos.DeleteIdempotent | src/components/TodoList.tsx:45 | deleting the same id twice equals deleting it once |
| Todos.DeleteHasId | src/components/TodoList.tsx:45 | an id is present after deletion exactly when it was present before and is not the deleted id |
| Todos.DeleteKeepsDistinct | src/components/TodoList.tsx:45 | deleting from a list with distinct ids leaves a list with distinct ids |
| Todos.DeleteKeepsTexts | src/components/TodoList.tsx:45 | deleting from a list with no blank text leaves a list with no blank text |
| Todos.DeleteKeepsWellFormed | src/components/TodoList.tsx:45 | deleting keeps ids distinct and texts non-blank |
| Todos.CompletedCount | src/components/TodoList.tsx:108 | the completed count is the number of tasks whose flag is set (the occurrences of `true` among the flags), at most the total; it equals the total exactly when all tasks are done, and is zero exactly when none is |
| Todos.ToggleCompletedCount | src/components/TodoList.tsx:38-42 | with distinct ids, toggling a present task lowers the completed count by one if it was done and raises it by one if it was open |
| Reorder.FindIndex | src/components/TodoList.tsx:53-54 | the result is the first position holding the id, or -1 exactly when no item holds it |
| Reorder.FindIndexDistinct | src/components/TodoList.tsx:53-54 | with distinct ids, `findIndex` of the id at position k is k |
| Reorder.RemoveAt | src/components/TodoList.tsx:55 | one element shorter, positions before i kept, later ones shifted down by one, multiset loses exactly that element |
| Reorder.InsertAt | src/components/TodoList.tsx:55 | one element longer, x at i, positions before i kept, later ones shifted up by one, multiset gains exactly x |
| Reorder.ArrayMove | src/components/TodoList.tsx:55 | same length and same multiset of items; the moved item lands at `to`; items outside the span between `from` and `to` stay put; items strictly inside it shift one slot towards `from` |
| Reorder.ArrayMoveSource | src/components/TodoList.tsx:55 | every position of the moved list holds the item from one source position, and different positions have different sources |
| Reorder.ArrayMoveKeepsWellFormed | src/components/TodoList.tsx:55 | moving keeps ids distinct and texts non-blank |
| Reorder.ArrayMoveKeepsDistinct | src/components/TodoList.tsx:55 | moving keeps distinct ids distinct |
| Reorder.ArrayMoveInverse | src/components/TodoList.tsx:55 | `arrayMove(arrayMove(s, from, to), to, from)` is `s` |
| Reorder.ArrayMoveAdjacent | src/components/TodoList.tsx:55 | between neighbours a move is a swap of the two, whichever one is dragged |
| Reorder.HandleDragEnd | src/components/TodoList.tsx:48-58 | no drop target, or dropping on itself, leaves the list unchanged; every drag keeps the length and the multiset of items, and puts the dragged item at the target's old position |
| Reorder.DragIsMove | src/components/TodoList.tsx:51-55 | with distinct ids, both ids of a drag between two different positions are present and the drag is `arrayMove` between exactly those positions |
| Reorder.HandleDragEndMoves | src/components/TodoList.tsx:51-55 | with distinct ids, dragging the item at i onto the item at j puts it at j, keeps items outside the span, shifts items inside it one slot towards i, and keeps ids distinct; a list that was also free of blank text stays so |
| Reorder.DragAdjacentSwaps | src/components/TodoList.tsx:51-55 | with distinct ids, a drag between neighbours, in either direction, swaps the two |
| Reorder.HandleDragEndAdjacentUndo | src/components/TodoList.tsx:51-55 | with distinct ids, dragging an item onto a neighbour and then dragging the neighbour onto the item restores the original list |
| Reorder.DragFirstOntoLast | src/components/TodoList.tsx:51-55 | on `[A, B, C]`, dropping A on C gives `[B, C, A]` |
| Reorder.DragMiddleOntoLast | src/components/TodoList.tsx:51-55 | on `[A, B, C]`, dropping B on C gives `[A, C, B]` |
| Reorder.HandleDragEndNotUndone | src/components/TodoList.tsx:51-55 | on `[A, B, C]`, dropping A on C and then C on A gives `[B, A, C]`, not the original order |
| Component.TodoList.constructor | src/components/TodoList.tsx:9-13 | the list starts as the saved list when one exists and as the empty list otherwise; the input starts empty; the invariant holds at the start when the saved list (if any) is well formed |
| Component.TodoList.SetNewTodoText | src/components/TodoList.tsx:68 | typing replaces the input text and leaves the list unchanged |
| Component.TodoList.AddTodo | src/components/TodoList.tsx:27-36 | the new list is `AddTodo` of the old list and input; the input is cleared exactly when the text was accepted and kept otherwise; the invariant is kept |
| Component.TodoList.ToggleTodo | src/components/TodoList.tsx:38-42 | the new list is `ToggleTodo` of the old one; the input is unchanged; the invariant is kept |
| Component.TodoList.DeleteTodo | src/components/TodoList.tsx:44-46 | the new list is `DeleteTodo` of the old one; the input is unchanged; the invariant is kept |
| Component.TodoList.HandleDragEnd | src/components/TodoList.tsx:48-58 | the new list is `HandleDragEnd` of the old list and event; the input is unchanged; the invariant is kept |
| Component.TodoList.Progress | src/components/TodoList.tsx:107-109 | the displayed completed count is at most the displayed total, which is the list length; they are equal exactly when every task is done |

## Left out

- Reading and writing `localStorage` and `JSON.parse`/`JSON.stringify` (src/components/TodoList.tsx:10-11, 17): browser I/O and library serialisation. The constructor takes the already-parsed saved list as a parameter.
- `uuidv4()` (src/components/TodoList.tsx:30): a foreign call. It is a `freshId` parameter that the caller guarantees is not in the list.
- The drag sensors and `closestCenter` collision detection (src/components/TodoList.tsx:20-25, 83): library code doing floating-point geometry on pointer coordinates. The model starts from the drag-end event it produces.
- React's `useState`/`useEffect` scheduling: each handler is one atomic transition. The functional `setTodos(items => ...)` update of `handleDragEnd` is read on the current list.
- A drag whose `active` or `over` id is not in the list (`findIndex` returns -1 and `arrayMove` would get a negative index): the code has no guard, so both ids being present is a precondition of `HandleDragEnd`.
- The JSX rendering, the empty-list message (src/components/TodoList.tsx:103-105), the Enter-key and button wiring that call `addTodo` (lines 69, 74), and src/components/TodoItem.tsx as a whole: presentation that only forwards to the modelled handlers.
