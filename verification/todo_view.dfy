/** The decision rules of the todo list view: the list shown for the
    selected date, the guard on adding from the input box, and the
    drag-over reordering (take the dragged item out, put it back at the
    index the hovered item had in the original list). */
module TodoView {
  import opened Common
  import opened Text
  import opened State

  /** The list displayed for the selected date; a date without a key shows
      as the empty list. */
  function Displayed(todos: TodoMap, selectedDate: string): (l: seq<Todo>)
    ensures selectedDate !in todos ==> l == []
    ensures selectedDate in todos ==> l == todos[selectedDate]
  {
    ListFor(todos, selectedDate)
  }

  /** Pressing a key in the add box: an add is attempted only for Enter with
      a non-blank input. Returns the next mapping and whether an add was
      attempted; an attempted add shows one more item, the trimmed input,
      at the end of the displayed list. */
  function AddEnter(todos: TodoMap, selectedDate: string, key: string, input: string, id: string)
    : (r: (TodoMap, bool))
    ensures r.1 <==> key == "Enter" && !Blank(input)
    ensures !r.1 ==> r.0 == todos
    ensures r.1 ==>
      && Displayed(r.0, selectedDate) == Displayed(todos, selectedDate) + [Todo(id, Trim(input), false)]
      && OthersUnchanged(todos, r.0, selectedDate)
  {
    if key == "Enter" && !Blank(input) then (AddTodo(todos, selectedDate, Some(input), id), true)
    else (todos, false)
  }

  /** The view's guard and the store's guard agree: an attempted add is the
      store's add, and a blank input that the view would let through on
      Enter would not have changed anything either. */
  lemma AddEnterAgreesWithStore(todos: TodoMap, selectedDate: string, key: string, input: string, id: string)
    ensures var (next, attempted) := AddEnter(todos, selectedDate, key, input, id);
      attempted ==> next == AddTodo(todos, selectedDate, Some(input), id)
    ensures key == "Enter" && Blank(input) ==> AddTodo(todos, selectedDate, Some(input), id) == todos
  {
  }

  /** `list.findIndex(t => t.id === id)`: the first index holding the id, or
      -1 when there is none (`None` stands for a null id, which matches no
      item). */
  function FindIndex(l: seq<Todo>, id: Option<string>): (r: int)
    ensures -1 <= r < |l|
    ensures r == -1 <==> forall i :: 0 <= i < |l| ==> Some(l[i].id) != id
    ensures r >= 0 ==> Some(l[r].id) == id && forall i :: 0 <= i < r ==> Some(l[i].id) != id
  {
    if l == [] then -1
    else if Some(l[0].id) == id then 0
    else
      var k := FindIndex(l[1..], id);
      if k == -1 then -1 else k + 1
  }

  /** `splice(i, 1)` for an index inside the list. */
  function RemoveAt<T>(l: seq<T>, i: nat): (r: seq<T>)
    requires i < |l|
    ensures |r| == |l| - 1
    ensures forall k :: 0 <= k < i ==> r[k] == l[k]
    ensures forall k :: i <= k < |r| ==> r[k] == l[k + 1]
  {
    l[..i] + l[i + 1..]
  }

  /** `splice(i, 0, x)` for an index at most the length. */
  function InsertAt<T>(l: seq<T>, i: nat, x: T): (r: seq<T>)
    requires i <= |l|
    ensures |r| == |l| + 1 && r[i] == x
    ensures forall k :: 0 <= k < i ==> r[k] == l[k]
    ensures forall k :: i < k < |r| ==> r[k] == l[k - 1]
  {
    l[..i] + [x] + l[i..]
  }

  lemma RemoveInsertInverse<T>(l: seq<T>, i: nat, x: T)
    requires i <= |l|
    ensures RemoveAt(InsertAt(l, i, x), i) == l
  {
  }

  lemma InsertRemoveMultiset<T>(l: seq<T>, from: nat, to: nat)
    requires from < |l| && to < |l|
    ensures multiset(InsertAt(RemoveAt(l, from), to, l[from])) == multiset(l)
  {
    var rest := RemoveAt(l, from);
    assert l == l[..from] + [l[from]] + l[from + 1..];
    assert rest == l[..from] + l[from + 1..];
    assert InsertAt(rest, to, l[from]) == rest[..to] + [l[from]] + rest[to..];
    assert rest == rest[..to] + rest[to..];
    calc {
      multiset(l);
      multiset(l[..from]) + multiset([l[from]]) + multiset(l[from + 1..]);
      multiset(rest) + multiset([l[from]]);
      multiset(rest[..to]) + multiset(rest[to..]) + multiset([l[from]]);
      multiset(InsertAt(rest, to, l[from]));
    }
  }

  /** The item at `from` taken out and put back so that it ends at `to`;
      the other items keep their relative order. */
  function Move<T>(l: seq<T>, from: nat, to: nat): (r: seq<T>)
    requires from < |l| && to < |l|
    ensures |r| == |l| && r[to] == l[from]
    ensures multiset(r) == multiset(l)
    ensures RemoveAt(r, to) == RemoveAt(l, from)
  {
    var rest := RemoveAt(l, from);
    InsertRemoveMultiset(l, from, to);
    RemoveInsertInverse(rest, to, l[from]);
    InsertAt(rest, to, l[from])
  }

  /** `start` of `splice(start, 1)` as JavaScript resolves it: a start
      inside the list is kept, a negative one counts from the end of the
      list (so -1 is the last item), and anything outside is clamped. */
  function SpliceStart(start: int, len: nat): (r: nat)
    ensures r <= len
    ensures 0 <= start <= len ==> r == start
    ensures start == -1 && len > 0 ==> r == len - 1
    ensures start < 0 && 0 <= len + start ==> r == len + start
    ensures len + start < 0 ==> r == 0
    ensures start > len ==> r == len
  {
    if start < 0 then (if len + start >= 0 then len + start else 0)
    else if start <= len then start else len
  }

  /** `handleDragOver` as written: `None` means nothing happens (the item
      is dragged over itself), `Some(list)` is the list handed to
      `setTodosForDate`. When the dragged id is not in the list (a null id,
      or a drag that started elsewhere), `findIndex` gives -1 and
      `splice(-1, 1)` takes the LAST item. */
  function DragOverAsWritten(l: seq<Todo>, dragging: Option<string>, target: Todo): (r: Option<seq<Todo>>)
    requires target in l
    ensures dragging == Some(target.id) <==> r.None?
    ensures r.Some? ==> |r.value| == |l| && multiset(r.value) == multiset(l)
  {
    if dragging == Some(target.id) then None
    else
      var from := SpliceStart(FindIndex(l, dragging), |l|);
      var to := FindIndex(l, Some(target.id));
      Some(Move(l, from, to))
  }

  /** Where the code as written puts things: the item taken out lands at
      the hovered item's original index and the others keep their order;
      the item taken out is the dragged one when its id is in the list and
      the last item otherwise. */
  lemma DragOverAsWrittenLands(l: seq<Todo>, dragging: Option<string>, target: Todo)
    requires target in l && dragging != Some(target.id)
    ensures var r := DragOverAsWritten(l, dragging, target).value;
            var to := FindIndex(l, Some(target.id));
            var found := FindIndex(l, dragging);
            var from := if found == -1 then |l| - 1 else found;
            && 0 <= from < |l| && 0 <= to < |l|
            && r[to] == l[from] && RemoveAt(r, to) == RemoveAt(l, from)
  {
  }

  /** With the dragged id missing, the last item is the one moved. */
  lemma DragOverAsWrittenMissingTakesLast(l: seq<Todo>, dragging: Option<string>, target: Todo)
    requires target in l && dragging != Some(target.id) && FindIndex(l, dragging) == -1
    ensures var r := DragOverAsWritten(l, dragging, target).value;
            RemoveAt(r, FindIndex(l, Some(target.id))) == l[..|l| - 1]
  {
    DragOverAsWrittenLands(l, dragging, target);
    assert RemoveAt(l, |l| - 1) == l[..|l| - 1];
  }

  /** The defect of the code as written: dragging something that is not in
      the list over its first item moves the last item to the front. */
  lemma DragOverAsWrittenMovesLastItem()
    ensures var a := Todo("a", "A", false);
            var b := Todo("b", "B", false);
            var c := Todo("c", "C", false);
            DragOverAsWritten([a, b, c], None, a) == Some([c, a, b])
  {
    var a := Todo("a", "A", false);
    var b := Todo("b", "B", false);
    var c := Todo("c", "C", false);
    var l := [a, b, c];
    assert FindIndex(l, None) == -1;
    assert FindIndex(l, Some("a")) == 0;
    assert RemoveAt(l, 2) == [a, b];
    assert InsertAt([a, b], 0, c) == [c, a, b];
  }

  /** Drag-over reordering with the missing case handled: nothing happens
      when the item is dragged over itself or when the dragged id is not in
      the list; otherwise the dragged item is moved to the index the hovered
      item had before the move. */
  function DragOver(l: seq<Todo>, dragging: Option<string>, target: Todo): (r: Option<seq<Todo>>)
    requires target in l
    ensures r.None? <==> dragging == Some(target.id) || FindIndex(l, dragging) == -1
    ensures r.Some? ==>
      var from := FindIndex(l, dragging);
      var to := FindIndex(l, Some(target.id));
      && 0 <= from < |l| && 0 <= to < |l| && from != to
      && |r.value| == |l|
      && multiset(r.value) == multiset(l)
      && r.value[to] == l[from]
      && RemoveAt(r.value, to) == RemoveAt(l, from)
  {
    var from := FindIndex(l, dragging);
    if dragging == Some(target.id) || from == -1 then None
    else Some(Move(l, from, FindIndex(l, Some(target.id))))
  }

  /** Whenever the dragged id is in the list, the corrected rule and the
      code as written produce the same list. */
  lemma DragOverAgreesWhenPresent(l: seq<Todo>, dragging: Option<string>, target: Todo)
    requires target in l && FindIndex(l, dragging) != -1
    ensures DragOver(l, dragging, target) == DragOverAsWritten(l, dragging, target)
  {
  }

  lemma MoveFirstToThird<T>(a: T, b: T, c: T, d: T)
    ensures Move([a, b, c, d], 0, 2) == [b, c, a, d]
  {
    var l := [a, b, c, d];
    assert RemoveAt(l, 0) == [b, c, d];
  }

  /** A dropped on C in [A, B, C, D] gives
      [B, C, A, D] (inserted at C's index, not after it). */
  lemma DragOverExample()
    ensures var a := Todo("a", "A", false);
            var b := Todo("b", "B", false);
            var c := Todo("c", "C", false);
            var d := Todo("d", "D", false);
            DragOver([a, b, c, d], Some("a"), c) == Some([b, c, a, d])
  {
    var a := Todo("a", "A", false);
    var b := Todo("b", "B", false);
    var c := Todo("c", "C", false);
    var d := Todo("d", "D", false);
    var l := [a, b, c, d];
    assert FindIndex(l, Some("a")) == 0;
    assert l[1..] == [b, c, d] && [b, c, d][1..] == [c, d];
    assert FindIndex([c, d], Some("c")) == 0;
    assert FindIndex([b, c, d], Some("c")) == 1;
    assert FindIndex(l, Some("c")) == 2;
    MoveFirstToThird(a, b, c, d);
  }

  /** The reorder applied to the store with the corrected rule: only the
      selected date's list is replaced, and only when the rule decides to
      move something. */
  function DragOverForDate(todos: TodoMap, selectedDate: string, dragging: Option<string>, target: Todo)
    : (r: TodoMap)
    requires target in Displayed(todos, selectedDate)
    ensures OthersUnchanged(todos, r, selectedDate)
    ensures selectedDate in r
    ensures multiset(r[selectedDate]) == multiset(todos[selectedDate])
    ensures DragOver(todos[selectedDate], dragging, target).None? ==> r == todos
    ensures DragOver(todos[selectedDate], dragging, target).Some? ==>
      r[selectedDate] == DragOver(todos[selectedDate], dragging, target).value
  {
    match DragOver(todos[selectedDate], dragging, target)
    case None => todos
    case Some(newList) => todos[selectedDate := newList]
  }

  /** `handleDragOver` applied to the store as written: whenever the item is
      not dragged over itself, the selected date's list is replaced by the
      spliced list, even when the dragged id is not in it. */
  function DragOverForDateAsWritten(todos: TodoMap, selectedDate: string, dragging: Option<string>, target: Todo)
    : (r: TodoMap)
    requires target in Displayed(todos, selectedDate)
    ensures OthersUnchanged(todos, r, selectedDate)
    ensures selectedDate in r
    ensures dragging == Some(target.id) ==> r == todos
    ensures DragOverAsWritten(todos[selectedDate], dragging, target).Some? ==>
      r[selectedDate] == DragOverAsWritten(todos[selectedDate], dragging, target).value
  {
    match DragOverAsWritten(todos[selectedDate], dragging, target)
    case None => todos
    case Some(newList) => todos[selectedDate := newList]
  }

  /** The two store steps differ only for a dragged id that is not in the
      list. */
  lemma DragOverForDateAgreesWhenPresent(todos: TodoMap, selectedDate: string, dragging: Option<string>, target: Todo)
    requires target in Displayed(todos, selectedDate)
    requires FindIndex(todos[selectedDate], dragging) != -1
    ensures DragOverForDate(todos, selectedDate, dragging, target)
         == DragOverForDateAsWritten(todos, selectedDate, dragging, target)
  {
    var l := todos[selectedDate];
    DragOverAgreesWhenPresent(l, dragging, target);
    var d := DragOver(l, dragging, target);
    assert d == DragOverAsWritten(l, dragging, target);
    if d.Some? {
      assert DragOverForDate(todos, selectedDate, dragging, target) == todos[selectedDate := d.value];
    }
  }
}
