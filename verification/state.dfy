/** The client-side data model: per-user todo lists and journal messages,
    each kept in a mapping from a date key (`YYYY-MM-DD`) to an ordered list,
    and the pure operations that produce the next mapping from the current
    one. Ids that the application derives from the clock are parameters. */
module State {
  import opened Common
  import opened Text

  datatype Todo = Todo(id: string, text: string, done: bool)

  /** The `type` field of a journal message: "user" for what the user wrote,
      "ai" for a generated reply, and any other string a stored list might
      carry. */
  datatype Kind = User | Ai | Other(tag: string)

  /** A kind is well formed when `Other` does not hold one of the two tags
      that have a constructor of their own, so every `type` string has
      exactly one encoding. */
  predicate WellFormedKind(k: Kind) {
    k.Other? ==> k.tag != "user" && k.tag != "ai"
  }

  /** How the `type` string of a stored message is read. */
  function KindOf(t: string): (k: Kind)
    ensures WellFormedKind(k)
    ensures k.Ai? <==> t == "ai"
    ensures k.User? <==> t == "user"
  {
    if t == "user" then User else if t == "ai" then Ai else Other(t)
  }

  /** The `type` string a kind is written as. */
  function TypeOf(k: Kind): (t: string)
    ensures WellFormedKind(k) ==> (k.Ai? <==> t == "ai")
    ensures WellFormedKind(k) ==> (k.User? <==> t == "user")
  {
    match k
    case User => "user"
    case Ai => "ai"
    case Other(tag) => tag
  }

  /** Reading and writing `type` are inverse on well-formed kinds. */
  lemma KindRoundTrip(t: string, k: Kind)
    ensures TypeOf(KindOf(t)) == t
    ensures WellFormedKind(k) ==> KindOf(TypeOf(k)) == k
  {
  }

  datatype Message = Message(id: string, text: string, time: string, kind: Kind)

  type TodoMap = map<string, seq<Todo>>
  type MessageMap = map<string, seq<Message>>

  /** The session part of the client store. */
  datatype UserState = UserState(
    currentUserId: Option<string>,
    currentUsername: Option<string>,
    todosByDate: TodoMap,
    messagesByDate: MessageMap)

  /** `m[date] || []`: the list stored under `date`, or the empty list. */
  function ListFor<T>(m: map<string, seq<T>>, date: string): seq<T> {
    if date in m then m[date] else []
  }

  /** No date key maps to an empty todo list. */
  predicate NoEmptyLists<T>(m: map<string, seq<T>>) {
    forall d :: d in m ==> m[d] != []
  }

  /** The state before anyone has logged in: no identity, no data. */
  function InitialUserState(): (s: UserState)
    ensures s.currentUserId.None? && s.currentUsername.None?
    ensures |s.todosByDate| == 0 && |s.messagesByDate| == 0
  {
    UserState(None, None, map[], map[])
  }

  // ---------------------------------------------------------------------
  // Todo lists
  // ---------------------------------------------------------------------

  /** Adds a todo with the trimmed `text` at the end of the date's list;
      a missing, empty or whitespace-only text leaves the mapping as it is.
      `id` is the clock-derived id, which nothing makes unique. */
  function AddTodo(todos: TodoMap, date: string, text: Option<string>, id: string): (r: TodoMap)
    ensures (text.None? || Blank(text.value)) ==> r == todos
    ensures text.Some? && !Blank(text.value) ==>
      && date in r
      && r[date] == ListFor(todos, date) + [Todo(id, Trim(text.value), false)]
      && OthersUnchanged(todos, r, date)
  {
    if text.None? || Blank(text.value) then todos
    else todos[date := ListFor(todos, date) + [Todo(id, Trim(text.value), false)]]
  }

  /** Flips `done` on every item whose id is `id`; nothing else changes. */
  function ToggleList(l: seq<Todo>, id: string): (r: seq<Todo>)
    ensures |r| == |l|
    ensures forall i :: 0 <= i < |l| ==>
      && r[i].id == l[i].id && r[i].text == l[i].text
      && (r[i].done <==> (if l[i].id == id then !l[i].done else l[i].done))
  {
    seq(|l|, i requires 0 <= i < |l| => if l[i].id == id then l[i].(done := !l[i].done) else l[i])
  }

  /** Replaces `text` on every item whose id is `id`; the new text is not
      checked, so it may be empty. */
  function EditList(l: seq<Todo>, id: string, newText: string): (r: seq<Todo>)
    ensures |r| == |l|
    ensures forall i :: 0 <= i < |l| ==>
      && r[i].id == l[i].id && r[i].done == l[i].done
      && r[i].text == (if l[i].id == id then newText else l[i].text)
  {
    seq(|l|, i requires 0 <= i < |l| => if l[i].id == id then l[i].(text := newText) else l[i])
  }

  /** Toggles the matching items of the date's list; a date with no list
      gets an empty one, so the key is introduced. */
  function ToggleTodo(todos: TodoMap, date: string, id: string): (r: TodoMap)
    ensures date in r && r[date] == ToggleList(ListFor(todos, date), id)
    ensures date !in todos ==> r[date] == []
    ensures OthersUnchanged(todos, r, date)
  {
    todos[date := ToggleList(ListFor(todos, date), id)]
  }

  /** Edits the matching items of the date's list; a date with no list
      gets an empty one, so the key is introduced. */
  function EditTodo(todos: TodoMap, date: string, id: string, newText: string): (r: TodoMap)
    ensures date in r && r[date] == EditList(ListFor(todos, date), id, newText)
    ensures date !in todos ==> r[date] == []
    ensures OthersUnchanged(todos, r, date)
  {
    todos[date := EditList(ListFor(todos, date), id, newText)]
  }

  /** Number of items with the given id. */
  function CountId(l: seq<Todo>, id: string): nat {
    if l == [] then 0 else (if l[0].id == id then 1 else 0) + CountId(l[1..], id)
  }

  /** `l.filter(t => t.id !== id)`: every item with the id is dropped and
      every other item is kept. */
  function RemoveId(l: seq<Todo>, id: string): (r: seq<Todo>)
    ensures |r| == |l| - CountId(l, id)
  {
    if l == [] then []
    else if l[0].id == id then RemoveId(l[1..], id)
    else [l[0]] + RemoveId(l[1..], id)
  }

  /** The items kept by `RemoveId` are exactly those of the list that do
      not carry the id. */
  lemma {:induction false} RemoveIdMembers(l: seq<Todo>, id: string)
    ensures forall t :: t in RemoveId(l, id) <==> t in l && t.id != id
  {
    if l != [] {
      RemoveIdMembers(l[1..], id);
      assert l == [l[0]] + l[1..];
    }
  }

  /** Removes every item with the id; a date whose list ends up empty loses
      its key, so a delete never leaves an empty list behind. */
  function DeleteTodo(todos: TodoMap, date: string, id: string): (r: TodoMap)
    ensures date in r <==> RemoveId(ListFor(todos, date), id) != []
    ensures date in r ==> r[date] == RemoveId(ListFor(todos, date), id)
    ensures date in r ==> r[date] != []
    ensures OthersUnchanged(todos, r, date)
  {
    var filtered := RemoveId(ListFor(todos, date), id);
    var next := todos[date := filtered];
    if |filtered| == 0 then next - {date} else next
  }

  // ---------------------------------------------------------------------
  // Journal messages
  // ---------------------------------------------------------------------

  /** Appends the message, exactly as given, to the end of the date's list. */
  function AddMessage(msgs: MessageMap, date: string, m: Message): (r: MessageMap)
    ensures date in r && r[date] == ListFor(msgs, date) + [m]
    ensures OthersUnchanged(msgs, r, date)
  {
    msgs[date := ListFor(msgs, date) + [m]]
  }

  /** Stores `newList` under the date, even when it is empty: message lists
      are never pruned. */
  function SetMessages(msgs: MessageMap, date: string, newList: seq<Message>): (r: MessageMap)
    ensures date in r && r[date] == newList
    ensures OthersUnchanged(msgs, r, date)
  {
    msgs[date := newList]
  }

  /** Removes the date's key and nothing else. */
  function ClearMessages(msgs: MessageMap, date: string): (r: MessageMap)
    ensures date !in r
    ensures OthersUnchanged(msgs, r, date)
    ensures r.Keys == msgs.Keys - {date}
  {
    msgs - {date}
  }

  // ---------------------------------------------------------------------
  // Properties relating several operations
  // ---------------------------------------------------------------------

  /** Toggling the same id twice restores the list. */
  lemma ToggleListTwice(l: seq<Todo>, id: string)
    ensures ToggleList(ToggleList(l, id), id) == l
  {
  }

  /** On a date that has a list, toggling twice restores the whole mapping. */
  lemma ToggleTodoTwice(todos: TodoMap, date: string, id: string)
    requires date in todos
    ensures ToggleTodo(ToggleTodo(todos, date, id), date, id) == todos
  {
    ToggleListTwice(todos[date], id);
  }

  /** The last of two edits of the same id is the one that remains. */
  lemma EditTodoLastWins(todos: TodoMap, date: string, id: string, a: string, b: string)
    ensures EditTodo(EditTodo(todos, date, id, a), date, id, b) == EditTodo(todos, date, id, b)
  {
    var l := ListFor(todos, date);
    assert EditList(EditList(l, id, a), id, b) == EditList(l, id, b);
  }

  /** Adding keeps the "no empty todo list" invariant. */
  lemma AddKeepsNoEmptyLists(todos: TodoMap, date: string, text: Option<string>, id: string)
    requires NoEmptyLists(todos)
    ensures NoEmptyLists(AddTodo(todos, date, text, id))
  {
    var r := AddTodo(todos, date, text, id);
    forall d | d in r
      ensures r[d] != []
    {
      if d != date {
        assert r[d] == todos[d];
      }
    }
  }

  /** Deleting keeps the "no empty todo list" invariant. */
  lemma DeleteKeepsNoEmptyLists(todos: TodoMap, date: string, id: string)
    requires NoEmptyLists(todos)
    ensures NoEmptyLists(DeleteTodo(todos, date, id))
  {
    var r := DeleteTodo(todos, date, id);
    forall d | d in r
      ensures r[d] != []
    {
      if d != date {
        assert r[d] == todos[d];
      }
    }
  }

  /** Toggling or editing on a date with no list breaks that invariant: the
      key appears with an empty list. */
  lemma ToggleAndEditIntroduceEmptyList(todos: TodoMap, date: string, id: string, newText: string)
    requires date !in todos
    ensures !NoEmptyLists(ToggleTodo(todos, date, id))
    ensures !NoEmptyLists(EditTodo(todos, date, id, newText))
  {
  }

  lemma {:induction false} RemoveIdAppend(a: seq<Todo>, b: seq<Todo>, id: string)
    ensures RemoveId(a + b, id) == RemoveId(a, id) + RemoveId(b, id)
  {
    if a == [] {
      assert a + b == b;
    } else {
      assert (a + b)[0] == a[0];
      assert (a + b)[1..] == a[1..] + b;
      RemoveIdAppend(a[1..], b, id);
    }
  }

  lemma {:induction false} RemoveIdAbsent(l: seq<Todo>, id: string)
    requires forall t :: t in l ==> t.id != id
    ensures RemoveId(l, id) == l
  {
    if l != [] {
      RemoveIdAbsent(l[1..], id);
    }
  }

  /** Deleting a freshly added todo by its id undoes the add, provided the
      id was not in use on that date and the mapping had no empty list. */
  lemma AddThenDelete(todos: TodoMap, date: string, text: string, id: string)
    requires !Blank(text)
    requires NoEmptyLists(todos)
    requires forall t :: t in ListFor(todos, date) ==> t.id != id
    ensures DeleteTodo(AddTodo(todos, date, Some(text), id), date, id) == todos
  {
    var l := ListFor(todos, date);
    var added := AddTodo(todos, date, Some(text), id);
    RemoveIdAppend(l, [Todo(id, Trim(text), false)], id);
    RemoveIdAbsent(l, id);
    assert RemoveId(ListFor(added, date), id) == l;
    var r := DeleteTodo(added, date, id);
    assert date in r <==> date in todos;
    assert r.Keys == todos.Keys;
    forall d | d in r ensures r[d] == todos[d] {
      if d != date { assert added[d] == todos[d]; }
    }
  }

  /** Clearing is idempotent and leaves a mapping without the key alone. */
  lemma ClearMessagesIdempotent(msgs: MessageMap, date: string)
    ensures ClearMessages(ClearMessages(msgs, date), date) == ClearMessages(msgs, date)
    ensures date !in msgs ==> ClearMessages(msgs, date) == msgs
  {
  }

  /** The first todo added after start-up is the only entry of the
      mapping. */
  lemma FirstAddOnInitialState(date: string, text: string, id: string)
    requires !Blank(text)
    ensures var r := AddTodo(InitialUserState().todosByDate, date, Some(text), id);
            |r| == 1 && date in r && r[date] == [Todo(id, Trim(text), false)]
  {
    var empty: TodoMap := map[];
    var t := Todo(id, Trim(text), false);
    assert ListFor(empty, date) + [t] == [t];
    assert AddTodo(empty, date, Some(text), id) == empty[date := ListFor(empty, date) + [t]];
  }

  /** Appending is storing the extended list. */
  lemma AddMessageIsSetOfExtended(msgs: MessageMap, date: string, m: Message)
    ensures AddMessage(msgs, date, m) == SetMessages(msgs, date, ListFor(msgs, date) + [m])
  {
  }

  /** Of two stores under the same date, the last one wins. */
  lemma SetMessagesLastWins(msgs: MessageMap, date: string, a: seq<Message>, b: seq<Message>)
    ensures SetMessages(SetMessages(msgs, date, a), date, b) == SetMessages(msgs, date, b)
  {
  }

  /** Clearing a date forgets everything appended to it. */
  lemma ClearAfterAdd(msgs: MessageMap, date: string, m: Message)
    ensures ClearMessages(AddMessage(msgs, date, m), date) == ClearMessages(msgs, date)
  {
  }

  /** Message lists are never pruned: appending or storing any list, the
      empty one included, keeps every date key and has the date's key. */
  lemma MessagesNeverPruned(msgs: MessageMap, date: string, m: Message, l: seq<Message>)
    ensures forall d :: d in msgs ==> d in AddMessage(msgs, date, m) && d in SetMessages(msgs, date, l)
    ensures date in AddMessage(msgs, date, m) && date in SetMessages(msgs, date, l)
  {
  }

  /** Setting a date's messages to the empty list keeps the key, unlike
      deleting the last todo of a date. */
  lemma EmptiedMessagesKeepKey(msgs: MessageMap, date: string)
    ensures date in SetMessages(msgs, date, []) && !NoEmptyLists(SetMessages(msgs, date, []))
  {
  }
}
