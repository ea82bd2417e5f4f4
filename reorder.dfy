/** Drag-and-drop reordering of the TodoList component: the end of a drag
    names the dragged item (`active`) and the item it was dropped on
    (`over`, possibly none); both are looked up by position and the list is
    rearranged with dnd-kit's arrayMove. */
module Reorder {
  import opened Text
  import opened Todos

  datatype Option<T> = None | Some(value: T)

  /** The part of a drag-end event the handler reads: the id of the dragged
      item and the id of the drop target, if the drop landed on one. */
  datatype DragEndEvent = DragEndEvent(activeId: string, overId: Option<string>)

  /** Array.prototype.findIndex with an id test: the first position holding
      `id`, or -1 when no item holds it. */
  function FindIndex(items: seq<Todo>, id: string): (r: int)
    ensures -1 <= r < |items|
    ensures r == -1 <==> !HasId(items, id)
    ensures 0 <= r ==> items[r].id == id && forall j :: 0 <= j < r ==> items[j].id != id
  {
    if items == [] then -1
    else if items[0].id == id then 0
    else
      var k := FindIndex(items[1..], id);
      if k < 0 then -1 else k + 1
  }

  /** In a list with distinct ids, findIndex finds the one position holding the id. */
  lemma FindIndexDistinct(items: seq<Todo>, k: nat)
    requires DistinctIds(items) && k < |items|
    ensures FindIndex(items, items[k].id) == k
  {
    var r := FindIndex(items, items[k].id);
    assert r != -1;
  }

  /** `s` without its element at position `i`. */
  function RemoveAt(s: seq<Todo>, i: nat): (r: seq<Todo>)
    requires i < |s|
    ensures |r| == |s| - 1
    ensures forall k :: 0 <= k < |r| ==> r[k] == if k < i then s[k] else s[k + 1]
    ensures multiset(r) + multiset{s[i]} == multiset(s)
  {
    assert s == s[..i] + [s[i]] + s[i + 1..];
    s[..i] + s[i + 1..]
  }

  /** `s` with `x` placed at position `i`, the later elements one slot further on. */
  function InsertAt(s: seq<Todo>, i: nat, x: Todo): (r: seq<Todo>)
    requires i <= |s|
    ensures |r| == |s| + 1
    ensures forall k :: 0 <= k < |r| ==> r[k] == if k < i then s[k] else if k == i then x else s[k - 1]
    ensures multiset(r) == multiset(s) + multiset{x}
  {
    assert s == s[..i] + s[i..];
    s[..i] + [x] + s[i..]
  }

  /** dnd-kit's arrayMove: take the element at `from` out, then put it back
      at `to` in the shortened list. The moved element lands at `to`,
      elements outside the span between `from` and `to` stay put, and
      elements strictly inside the span move one slot towards `from`. */
  function ArrayMove(s: seq<Todo>, from: nat, to: nat): (r: seq<Todo>)
    requires from < |s| && to < |s|
    ensures |r| == |s|
    ensures r[to] == s[from]
    ensures forall k :: 0 <= k < |s| && k < from && k < to ==> r[k] == s[k]
    ensures forall k :: 0 <= k < |s| && k > from && k > to ==> r[k] == s[k]
    ensures forall k :: from <= k < to ==> r[k] == s[k + 1]
    ensures forall k :: to < k <= from ==> r[k] == s[k - 1]
    ensures multiset(r) == multiset(s)
  {
    InsertAt(RemoveAt(s, from), to, s[from])
  }

  /** Where the element at position `k` after a move came from. */
  function MoveSource(from: nat, to: nat, k: nat): nat {
    if k == to then from
    else if from <= k < to then k + 1
    else if to < k <= from then k - 1
    else k
  }

  /** Every position of a moved list holds the element from its source
      position, and distinct positions have distinct sources. */
  lemma ArrayMoveSource(s: seq<Todo>, from: nat, to: nat, k: nat, k': nat)
    requires from < |s| && to < |s| && k < |s| && k' < |s|
    ensures MoveSource(from, to, k) < |s|
    ensures ArrayMove(s, from, to)[k] == s[MoveSource(from, to, k)]
    ensures k != k' ==> MoveSource(from, to, k) != MoveSource(from, to, k')
  {
  }

  /** Moving keeps distinct ids distinct. */
  lemma ArrayMoveKeepsDistinct(s: seq<Todo>, from: nat, to: nat)
    requires from < |s| && to < |s| && DistinctIds(s)
    ensures DistinctIds(ArrayMove(s, from, to))
  {
    var r := ArrayMove(s, from, to);
    forall i, j | 0 <= i < j < |r|
      ensures r[i].id != r[j].id
    {
      ArrayMoveSource(s, from, to, i, j);
      ArrayMoveSource(s, from, to, j, i);
      var p, q := MoveSource(from, to, i), MoveSource(from, to, j);
      if p < q {
        assert s[p].id != s[q].id;
      } else {
        assert s[q].id != s[p].id;
      }
    }
  }

  /** Moving keeps the list well formed: distinct ids, no blank text. */
  lemma ArrayMoveKeepsWellFormed(s: seq<Todo>, from: nat, to: nat)
    requires from < |s| && to < |s| && WellFormed(s)
    ensures WellFormed(ArrayMove(s, from, to))
  {
    ArrayMoveKeepsDistinct(s, from, to);
    var r := ArrayMove(s, from, to);
    forall i | 0 <= i < |r|
      ensures !IsBlank(r[i].text)
    {
      ArrayMoveSource(s, from, to, i, i);
    }
  }

  /** Moving back undoes the source mapping of a move. */
  lemma MoveSourceInverse(from: nat, to: nat, k: nat)
    ensures MoveSource(from, to, MoveSource(to, from, k)) == k
  {
  }

  /** Position k after moving from `from` to `to` and back holds what it held before. */
  lemma ArrayMoveInverseAt(s: seq<Todo>, from: nat, to: nat, k: nat)
    requires from < |s| && to < |s| && k < |s|
    ensures ArrayMove(ArrayMove(s, from, to), to, from)[k] == s[k]
  {
    var moved := ArrayMove(s, from, to);
    var j := MoveSource(to, from, k);
    ArrayMoveSource(moved, to, from, k, k);
    ArrayMoveSource(s, from, to, j, j);
    MoveSourceInverse(from, to, k);
  }

  /** Moving an element from `from` to `to` and then from `to` back to
      `from` restores the original list. */
  lemma ArrayMoveInverse(s: seq<Todo>, from: nat, to: nat)
    requires from < |s| && to < |s|
    ensures ArrayMove(ArrayMove(s, from, to), to, from) == s
  {
    forall k | 0 <= k < |s|
      ensures ArrayMove(ArrayMove(s, from, to), to, from)[k] == s[k]
    {
      ArrayMoveInverseAt(s, from, to, k);
    }
  }

  /** Between neighbours a move is a swap, whichever of the two is dragged. */
  lemma ArrayMoveAdjacent(s: seq<Todo>, i: nat)
    requires i + 1 < |s|
    ensures ArrayMove(s, i, i + 1) == ArrayMove(s, i + 1, i)
    ensures ArrayMove(s, i, i + 1) == s[i := s[i + 1]][i + 1 := s[i]]
  {
  }

  /** A drag-end event that rearranges the list: it has a drop target and
      the target is not the dragged item itself. */
  predicate Moves(e: DragEndEvent) {
    e.overId.Some? && e.activeId != e.overId.value
  }

  /** handleDragEnd: without a drop target, or when dropped on itself, the
      list is kept; otherwise the dragged item is moved to the target's
      position. Both ids must be in the list: the handler does not guard a
      missing one. */
  function HandleDragEnd(items: seq<Todo>, e: DragEndEvent): (r: seq<Todo>)
    requires Moves(e) ==> HasId(items, e.activeId) && HasId(items, e.overId.value)
    ensures |r| == |items| && multiset(r) == multiset(items)
    ensures !Moves(e) ==> r == items
    ensures Moves(e) ==> r[FindIndex(items, e.overId.value)] == items[FindIndex(items, e.activeId)]
  {
    if !Moves(e) then items
    else
      var oldIndex := FindIndex(items, e.activeId);
      var newIndex := FindIndex(items, e.overId.value);
      ArrayMove(items, oldIndex, newIndex)
  }

  /** With distinct ids, dragging the item at `i` onto the item at `j` is
      arrayMove(i, j): findIndex finds exactly those two positions. */
  lemma DragIsMove(items: seq<Todo>, i: nat, j: nat)
    requires DistinctIds(items) && i < |items| && j < |items| && i != j
    ensures HasId(items, items[i].id) && HasId(items, items[j].id)
    ensures HandleDragEnd(items, DragEndEvent(items[i].id, Some(items[j].id))) == ArrayMove(items, i, j)
  {
    FindIndexDistinct(items, i);
    FindIndexDistinct(items, j);
  }

  /** A drag between positions `i` (dragged) and `j` (drop target) of a list
      with distinct ids moves exactly as arrayMove(i, j) does, and ids stay
      distinct; a list that also had no blank text keeps none. */
  lemma HandleDragEndMoves(items: seq<Todo>, i: nat, j: nat, e: DragEndEvent)
    requires DistinctIds(items) && i < |items| && j < |items| && i != j
    requires e == DragEndEvent(items[i].id, Some(items[j].id))
    ensures DistinctIds(HandleDragEnd(items, e))
    ensures WellFormed(items) ==> WellFormed(HandleDragEnd(items, e))
    ensures HandleDragEnd(items, e)[j] == items[i]
    ensures forall k :: 0 <= k < |items| && k < i && k < j ==> HandleDragEnd(items, e)[k] == items[k]
    ensures forall k :: 0 <= k < |items| && k > i && k > j ==> HandleDragEnd(items, e)[k] == items[k]
    ensures forall k :: i <= k < j ==> HandleDragEnd(items, e)[k] == items[k + 1]
    ensures forall k :: j < k <= i ==> HandleDragEnd(items, e)[k] == items[k - 1]
  {
    DragIsMove(items, i, j);
    ArrayMoveKeepsDistinct(items, i, j);
    if WellFormed(items) {
      ArrayMoveKeepsWellFormed(items, i, j);
    }
  }

  /** Swapping two neighbours keeps distinct ids distinct. */
  lemma SwapKeepsDistinct(s: seq<Todo>, i: nat)
    requires DistinctIds(s) && i + 1 < |s|
    ensures DistinctIds(s[i := s[i + 1]][i + 1 := s[i]])
  {
    var t := s[i := s[i + 1]][i + 1 := s[i]];
    forall p, q | 0 <= p < q < |t|
      ensures t[p].id != t[q].id
    {
      var p' := if p == i then i + 1 else if p == i + 1 then i else p;
      var q' := if q == i then i + 1 else if q == i + 1 then i else q;
      assert t[p] == s[p'] && t[q] == s[q'];
      if p' < q' {
        assert s[p'].id != s[q'].id;
      } else {
        assert s[q'].id != s[p'].id;
      }
    }
  }

  /** With distinct ids, a drag between neighbours, in either direction,
      swaps the two. */
  lemma DragAdjacentSwaps(items: seq<Todo>, i: nat, p: nat, q: nat)
    requires DistinctIds(items) && i + 1 < |items|
    requires (p == i && q == i + 1) || (p == i + 1 && q == i)
    ensures HasId(items, items[p].id) && HasId(items, items[q].id)
    ensures HandleDragEnd(items, DragEndEvent(items[p].id, Some(items[q].id)))
      == items[i := items[i + 1]][i + 1 := items[i]]
  {
    DragIsMove(items, p, q);
    ArrayMoveAdjacent(items, i);
  }

  /** Swapping the same neighbours twice changes nothing. */
  lemma SwapTwice(s: seq<Todo>, i: nat)
    requires i + 1 < |s|
    ensures var t := s[i := s[i + 1]][i + 1 := s[i]]; t[i := t[i + 1]][i + 1 := t[i]] == s
  {
  }

  /** Dragging an item onto its neighbour and then dragging the neighbour
      onto the item restores the original order: both drags swap the pair. */
  lemma HandleDragEndAdjacentUndo(items: seq<Todo>, i: nat, a: string, b: string)
    requires DistinctIds(items) && i + 1 < |items|
    requires (a == items[i].id && b == items[i + 1].id) || (a == items[i + 1].id && b == items[i].id)
    ensures
      var once := HandleDragEnd(items, DragEndEvent(a, Some(b)));
      HasId(once, a) && HasId(once, b) &&
      HandleDragEnd(once, DragEndEvent(b, Some(a))) == items
  {
    var swapped := items[i := items[i + 1]][i + 1 := items[i]];
    SwapKeepsDistinct(items, i);
    var p := if a == items[i].id then i else i + 1;
    var q := if a == items[i].id then i + 1 else i;
    DragAdjacentSwaps(items, i, p, q);
    assert DragEndEvent(a, Some(b)) == DragEndEvent(items[p].id, Some(items[q].id));
    assert swapped[q].id == a && swapped[p].id == b;
    DragAdjacentSwaps(swapped, i, p, q);
    assert DragEndEvent(b, Some(a)) == DragEndEvent(swapped[p].id, Some(swapped[q].id));
    SwapTwice(items, i);
  }

  /** Three tasks with pairwise different ids form a list with distinct ids. */
  lemma DistinctThree(x: Todo, y: Todo, z: Todo)
    requires x.id != y.id && y.id != z.id && x.id != z.id
    ensures DistinctIds([x, y, z])
  {
    var s := [x, y, z];
    forall i, j | 0 <= i < j < 3
      ensures s[i].id != s[j].id
    {
    }
  }

  /** A list of length three is the list of its three items. */
  lemma ThreeItems(r: seq<Todo>, x: Todo, y: Todo, z: Todo)
    requires |r| == 3 && r[0] == x && r[1] == y && r[2] == z
    ensures r == [x, y, z]
  {
  }

  /** On [x, y, z] with distinct ids, dropping x on z gives [y, z, x]. */
  lemma DragFirstOntoLast(x: Todo, y: Todo, z: Todo)
    requires x.id != y.id && y.id != z.id && x.id != z.id
    ensures HasId([x, y, z], x.id) && HasId([x, y, z], z.id)
    ensures HandleDragEnd([x, y, z], DragEndEvent(x.id, Some(z.id))) == [y, z, x]
  {
    var s := [x, y, z];
    DistinctThree(x, y, z);
    assert s[0].id == x.id && s[2].id == z.id;
    DragIsMove(s, 0, 2);
    var r := ArrayMove(s, 0, 2);
    assert r[0] == y && r[1] == z && r[2] == x;
    ThreeItems(r, y, z, x);
  }

  /** On [x, y, z] with distinct ids, dropping y on z gives [x, z, y]. */
  lemma DragMiddleOntoLast(x: Todo, y: Todo, z: Todo)
    requires x.id != y.id && y.id != z.id && x.id != z.id
    ensures HasId([x, y, z], y.id) && HasId([x, y, z], z.id)
    ensures HandleDragEnd([x, y, z], DragEndEvent(y.id, Some(z.id))) == [x, z, y]
  {
    var s := [x, y, z];
    DistinctThree(x, y, z);
    DragAdjacentSwaps(s, 1, 1, 2);
    assert s[1 := s[2]][2 := s[1]] == [x, z, y];
  }

  /** On [x, y, z], dropping x on z gives [y, z, x]; dragging z back onto
      x then gives [y, x, z], not the original order: a move between
      non-neighbours is not undone by the reverse drag. */
  lemma HandleDragEndNotUndone(x: Todo, y: Todo, z: Todo)
    requires x.id != y.id && y.id != z.id && x.id != z.id
    ensures HasId([x, y, z], x.id) && HasId([x, y, z], z.id)
    ensures
      var once := HandleDragEnd([x, y, z], DragEndEvent(x.id, Some(z.id)));
      && HasId(once, x.id) && HasId(once, z.id)
      && HandleDragEnd(once, DragEndEvent(z.id, Some(x.id))) == [y, x, z] != [x, y, z]
  {
    DragFirstOntoLast(x, y, z);
    DragMiddleOntoLast(y, z, x);
    assert [y, x, z][0] != [x, y, z][0];
  }
}
