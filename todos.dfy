/** The task list and the three editing transitions of the TodoList
    component: add, toggle and delete, plus the completed-task counter.
    Each transition is a function from the current list to the next one. */
module Todos {
  import opened Text

  /** One task: an opaque id, the text as typed, and the completion flag. */
  datatype Todo = Todo(id: string, text: string, completed: bool)

  /** Some item of `s` carries `id`. */
  predicate HasId(s: seq<Todo>, id: string) {
    exists i :: 0 <= i < |s| && s[i].id == id
  }

  /** No two items of `s` share an id. */
  predicate DistinctIds(s: seq<Todo>) {
    forall i, j :: 0 <= i < j < |s| ==> s[i].id != s[j].id
  }

  /** Every item has some text besides white space. */
  predicate NoBlankText(s: seq<Todo>) {
    forall i :: 0 <= i < |s| ==> !IsBlank(s[i].text)
  }

  /** The invariant the transitions keep: distinct ids and no blank text. */
  predicate WellFormed(s: seq<Todo>) {
    DistinctIds(s) && NoBlankText(s)
  }

  // ---------------------------------------------------------------- add

  /** addTodo: text that trims to nothing leaves the list alone; any other
      text is appended, untrimmed, as a new open task with the fresh id. */
  function AddTodo(todos: seq<Todo>, text: string, freshId: string): (r: seq<Todo>)
    ensures IsBlank(text) ==> r == todos
    ensures !IsBlank(text) ==>
      |r| == |todos| + 1 && r[..|todos|] == todos && r[|todos|] == Todo(freshId, text, false)
  {
    if Trim(text) == "" then todos else todos + [Todo(freshId, text, false)]
  }

  /** With an id that is not yet in use, adding keeps the list well formed,
      and the new id is present exactly when the text was accepted. */
  lemma AddKeepsWellFormed(todos: seq<Todo>, text: string, freshId: string)
    requires WellFormed(todos) && !HasId(todos, freshId)
    ensures WellFormed(AddTodo(todos, text, freshId))
    ensures HasId(AddTodo(todos, text, freshId), freshId) <==> !IsBlank(text)
  {
    var r := AddTodo(todos, text, freshId);
    if !IsBlank(text) {
      assert r[|todos|].id == freshId;
      forall i, j | 0 <= i < j < |r|
        ensures r[i].id != r[j].id
      {
        if j < |todos| {
          assert r[i] == todos[i] && r[j] == todos[j];
        } else {
          assert r[i] == todos[i];
        }
      }
      forall i | 0 <= i < |r|
        ensures !IsBlank(r[i].text)
      {
        if i < |todos| {
          assert r[i] == todos[i];
        }
      }
    }
  }

  // ------------------------------------------------------------- toggle

  /** A task with its completion flag flipped. */
  function Flip(t: Todo): Todo {
    t.(completed := !t.completed)
  }

  /** toggleTodo: every item whose id equals `id` has its flag flipped;
      length, order, ids and texts are kept. */
  function ToggleTodo(todos: seq<Todo>, id: string): (r: seq<Todo>)
    ensures |r| == |todos|
    ensures forall i :: 0 <= i < |r| ==> r[i].id == todos[i].id && r[i].text == todos[i].text
    ensures forall i :: 0 <= i < |r| ==>
      r[i].completed == (if todos[i].id == id then !todos[i].completed else todos[i].completed)
  {
    if todos == [] then []
    else [if todos[0].id == id then Flip(todos[0]) else todos[0]] + ToggleTodo(todos[1..], id)
  }

  /** Toggling an id that is not in the list changes nothing. */
  lemma ToggleAbsent(todos: seq<Todo>, id: string)
    requires !HasId(todos, id)
    ensures ToggleTodo(todos, id) == todos
  {
    var r := ToggleTodo(todos, id);
    forall i | 0 <= i < |todos|
      ensures r[i] == todos[i]
    {
      assert todos[i].id != id;
    }
  }

  /** Toggling the same id twice gives back the original list. */
  lemma ToggleTwice(todos: seq<Todo>, id: string)
    ensures ToggleTodo(ToggleTodo(todos, id), id) == todos
  {
    var r := ToggleTodo(ToggleTodo(todos, id), id);
    forall i | 0 <= i < |todos|
      ensures r[i] == todos[i]
    {
    }
  }

  /** Toggling keeps the list well formed. */
  lemma ToggleKeepsWellFormed(todos: seq<Todo>, id: string)
    requires WellFormed(todos)
    ensures WellFormed(ToggleTodo(todos, id))
  {
    var r := ToggleTodo(todos, id);
    forall i | 0 <= i < |r|
      ensures !IsBlank(r[i].text)
    {
      assert r[i].text == todos[i].text;
    }
  }

  // ------------------------------------------------------------- delete

  /** deleteTodo: keeps, in their order, the items whose id differs from `id`. */
  function DeleteTodo(todos: seq<Todo>, id: string): (r: seq<Todo>)
    ensures |r| <= |todos|
    ensures !HasId(r, id)
  {
    if todos == [] then []
    else (if todos[0].id == id then [] else [todos[0]]) + DeleteTodo(todos[1..], id)
  }

  /** The survivors are exactly the items whose id differs from `id`. */
  lemma {:induction false} DeleteMembers(todos: seq<Todo>, id: string)
    ensures forall t :: t in DeleteTodo(todos, id) <==> t in todos && t.id != id
  {
    if todos != [] {
      DeleteMembers(todos[1..], id);
      assert todos == [todos[0]] + todos[1..];
    }
  }

  /** Deleting distributes over concatenation: the survivors of a list keep
      the relative order they had in it. */
  lemma {:induction false} DeleteAppend(a: seq<Todo>, b: seq<Todo>, id: string)
    ensures DeleteTodo(a + b, id) == DeleteTodo(a, id) + DeleteTodo(b, id)
  {
    if a == [] {
      assert a + b == b;
    } else {
      assert (a + b)[0] == a[0];
      assert (a + b)[1..] == a[1..] + b;
      DeleteAppend(a[1..], b, id);
    }
  }

  /** Deleting an id that is not in the list changes nothing. */
  lemma {:induction false} DeleteAbsent(todos: seq<Todo>, id: string)
    requires !HasId(todos, id)
    ensures DeleteTodo(todos, id) == todos
  {
    if todos != [] {
      assert todos[0].id != id;
      assert !HasId(todos[1..], id) by {
        forall i | 0 <= i < |todos[1..]|
          ensures todos[1..][i].id != id
        {
          assert todos[1..][i] == todos[i + 1];
        }
      }
      DeleteAbsent(todos[1..], id);
    }
  }

  /** In a list with distinct ids, deleting the id at position k removes
      exactly that position and nothing else. */
  lemma {:induction false} DeleteAt(todos: seq<Todo>, k: nat)
    requires DistinctIds(todos) && k < |todos|
    ensures DeleteTodo(todos, todos[k].id) == todos[..k] + todos[k + 1..]
  {
    var id, tail := todos[k].id, todos[1..];
    if k == 0 {
      assert !HasId(tail, id) by {
        forall i | 0 <= i < |tail|
          ensures tail[i].id != id
        {
          assert tail[i] == todos[i + 1];
        }
      }
      DeleteAbsent(tail, id);
    } else {
      assert DistinctIds(tail) by {
        forall i, j | 0 <= i < j < |tail|
          ensures tail[i].id != tail[j].id
        {
          assert tail[i] == todos[i + 1] && tail[j] == todos[j + 1];
        }
      }
      assert tail[k - 1] == todos[k];
      DeleteAt(tail, k - 1);
      assert todos[0].id != id;
      assert todos[..k] == [todos[0]] + tail[..k - 1];
      assert todos[k + 1..] == tail[k..];
    }
  }

  /** In a list with distinct ids, deleting shortens the list by one when the
      id is present and by nothing otherwise. */
  lemma DeleteLength(todos: seq<Todo>, id: string)
    requires DistinctIds(todos)
    ensures |DeleteTodo(todos, id)| == if HasId(todos, id) then |todos| - 1 else |todos|
  {
    if HasId(todos, id) {
      var k :| 0 <= k < |todos| && todos[k].id == id;
      DeleteAt(todos, k);
    } else {
      DeleteAbsent(todos, id);
    }
  }

  /** Deleting twice is deleting once. */
  lemma DeleteIdempotent(todos: seq<Todo>, id: string)
    ensures DeleteTodo(DeleteTodo(todos, id), id) == DeleteTodo(todos, id)
  {
    DeleteAbsent(DeleteTodo(todos, id), id);
  }

  /** A non-empty list carries `x` exactly when its head or its tail does. */
  lemma HasIdCons(s: seq<Todo>, x: string)
    requires s != []
    ensures HasId(s, x) <==> s[0].id == x || HasId(s[1..], x)
  {
    if HasId(s[1..], x) {
      var m :| 0 <= m < |s| - 1 && s[1..][m].id == x;
      assert s[m + 1].id == x;
    }
    if HasId(s, x) && s[0].id != x {
      var m :| 0 <= m < |s| && s[m].id == x;
      assert s[1..][m - 1].id == x;
    }
  }

  /** An id survives deletion exactly when it was present and is not the deleted one. */
  lemma {:induction false} DeleteHasId(todos: seq<Todo>, id: string, x: string)
    ensures HasId(DeleteTodo(todos, id), x) <==> HasId(todos, x) && x != id
  {
    if todos != [] {
      var rest := DeleteTodo(todos[1..], id);
      DeleteHasId(todos[1..], id, x);
      HasIdCons(todos, x);
      if todos[0].id == id {
        assert DeleteTodo(todos, id) == rest;
      } else {
        var r := [todos[0]] + rest;
        assert DeleteTodo(todos, id) == r;
        assert r[1..] == rest;
        HasIdCons(r, x);
      }
    }
  }

  /** Deleting keeps distinct ids distinct. */
  lemma {:induction false} DeleteKeepsDistinct(todos: seq<Todo>, id: string)
    requires DistinctIds(todos)
    ensures DistinctIds(DeleteTodo(todos, id))
  {
    if todos != [] {
      var tail := todos[1..];
      assert DistinctIds(tail) by {
        forall i, j | 0 <= i < j < |tail|
          ensures tail[i].id != tail[j].id
        {
          assert tail[i] == todos[i + 1] && tail[j] == todos[j + 1];
        }
      }
      DeleteKeepsDistinct(tail, id);
      if todos[0].id != id {
        var rest := DeleteTodo(tail, id);
        var r := [todos[0]] + rest;
        assert !HasId(tail, todos[0].id) by {
          forall m | 0 <= m < |tail|
            ensures tail[m].id != todos[0].id
          {
            assert tail[m] == todos[m + 1];
          }
        }
        DeleteHasId(tail, id, todos[0].id);
        forall i, j | 0 <= i < j < |r|
          ensures r[i].id != r[j].id
        {
          assert r[j] == rest[j - 1];
          if i > 0 {
            assert r[i] == rest[i - 1];
          }
        }
      }
    }
  }

  /** Deleting keeps every text non-blank. */
  lemma {:induction false} DeleteKeepsTexts(todos: seq<Todo>, id: string)
    requires NoBlankText(todos)
    ensures NoBlankText(DeleteTodo(todos, id))
  {
    if todos != [] {
      var tail := todos[1..];
      assert forall i :: 0 <= i < |tail| ==> tail[i] == todos[i + 1];
      DeleteKeepsTexts(tail, id);
      var rest := DeleteTodo(tail, id);
      assert NoBlankText(rest);
      if todos[0].id != id {
        var r := [todos[0]] + rest;
        assert DeleteTodo(todos, id) == r;
        forall i | 0 <= i < |r|
          ensures !IsBlank(r[i].text)
        {
          if i > 0 {
            assert r[i] == rest[i - 1];
          }
        }
      } else {
        assert DeleteTodo(todos, id) == rest;
      }
    }
  }

  /** Deleting keeps the list well formed. */
  lemma DeleteKeepsWellFormed(todos: seq<Todo>, id: string)
    requires WellFormed(todos)
    ensures WellFormed(DeleteTodo(todos, id))
  {
    DeleteKeepsDistinct(todos, id);
    DeleteKeepsTexts(todos, id);
  }

  // ------------------------------------------------------------ counter

  /** The number of completed tasks shown under the list. */
  function CompletedCount(todos: seq<Todo>): (n: nat)
    ensures n == multiset(Flags(todos))[true]
    ensures n <= |todos|
    ensures n == |todos| <==> forall i :: 0 <= i < |todos| ==> todos[i].completed
    ensures n == 0 <==> forall i :: 0 <= i < |todos| ==> !todos[i].completed
  {
    if todos == [] then 0
    else
      assert Flags(todos) == [todos[0].completed] + Flags(todos[1..]);
      (if todos[0].completed then 1 else 0) + CompletedCount(todos[1..])
  }

  /** The completion flags of the list, position by position. */
  function Flags(todos: seq<Todo>): (f: seq<bool>)
    ensures |f| == |todos| && forall i :: 0 <= i < |f| ==> f[i] == todos[i].completed
  {
    seq(|todos|, i requires 0 <= i < |todos| => todos[i].completed)
  }

  /** In a list with distinct ids, toggling a present task moves the
      completed count by exactly one, up or down as the task was open or done. */
  lemma {:induction false} ToggleCompletedCount(todos: seq<Todo>, k: nat)
    requires DistinctIds(todos) && k < |todos|
    ensures CompletedCount(ToggleTodo(todos, todos[k].id)) ==
      if todos[k].completed then CompletedCount(todos) - 1 else CompletedCount(todos) + 1
  {
    var id := todos[k].id;
    var r := ToggleTodo(todos, id);
    assert r[1..] == ToggleTodo(todos[1..], id);
    if k == 0 {
      assert !HasId(todos[1..], id) by {
        forall i | 0 <= i < |todos| - 1
          ensures todos[1..][i].id != id
        {
          assert todos[1..][i] == todos[i + 1];
        }
      }
      ToggleAbsent(todos[1..], id);
    } else {
      assert DistinctIds(todos[1..]) by {
        forall i, j | 0 <= i < j < |todos| - 1
          ensures todos[1..][i].id != todos[1..][j].id
        {
          assert todos[1..][i] == todos[i + 1] && todos[1..][j] == todos[j + 1];
        }
      }
      assert todos[1..][k - 1] == todos[k];
      ToggleCompletedCount(todos[1..], k - 1);
      assert todos[0].id != id;
    }
  }
}
