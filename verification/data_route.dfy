/** The per-user data routes of the server: one document per user id
    holding that user's todos and messages by date. Reading a missing
    document creates an empty one; saving replaces both maps wholesale. */
module DataRoute {
  import opened Common
  import opened State

  type UserId = string

  datatype Doc = Doc(todosByDate: TodoMap, messagesByDate: MessageMap)

  /** The collection of documents, at most one per user id. */
  type Store = map<UserId, Doc>

  /** A new document: both maps default to empty. */
  const EmptyDoc := Doc(map[], map[])

  /** The two replies with status 200: the maps of a read, or the document
      as stored after a save. */
  datatype Reply = Loaded(todosByDate: TodoMap, messagesByDate: MessageMap) | Saved(doc: Doc)

  datatype Outcome = Outcome(store: Store, reply: Reply)

  /** GET: find the user's document, creating and storing an empty one when
      there is none, and reply with its two maps. */
  function Get(store: Store, user: UserId): (o: Outcome)
    ensures user in o.store
    ensures user in store ==> o.store == store
    ensures user !in store ==> o.store[user] == EmptyDoc
    ensures o.reply == Loaded(o.store[user].todosByDate, o.store[user].messagesByDate)
    ensures OthersUnchanged(store, o.store, user)
  {
    var doc := if user in store then store[user] else EmptyDoc;
    Outcome(store[user := doc], Loaded(doc.todosByDate, doc.messagesByDate))
  }

  /** POST: set both maps of the user's document, creating it if needed,
      and reply with the document as stored. */
  function Post(store: Store, user: UserId, todos: TodoMap, messages: MessageMap): (o: Outcome)
    ensures user in o.store && o.store[user] == Doc(todos, messages)
    ensures o.reply == Saved(Doc(todos, messages))
    ensures OthersUnchanged(store, o.store, user)
  {
    Outcome(store[user := Doc(todos, messages)], Saved(Doc(todos, messages)))
  }

  /** A read of a missing document adds exactly one document; a second
      read changes nothing and answers the same. */
  lemma GetTwice(store: Store, user: UserId)
    ensures var o1 := Get(store, user);
            var o2 := Get(o1.store, user);
            && o2 == o1
            && (user !in store ==> |o1.store| == |store| + 1 && o1.reply == Loaded(map[], map[]))
  {
    var o1 := Get(store, user);
    if user !in store {
      assert o1.store.Keys == store.Keys + {user};
    }
  }

  /** After a save, a read returns exactly the saved maps and stores
      nothing new. */
  lemma PostThenGet(store: Store, user: UserId, todos: TodoMap, messages: MessageMap)
    ensures var saved := Post(store, user, todos, messages).store;
            Get(saved, user) == Outcome(saved, Loaded(todos, messages))
  {
  }

  /** A save does not depend on what was stored before, and of two saves
      the last one wins. */
  lemma PostOverwrites(store: Store, user: UserId, t1: TodoMap, m1: MessageMap, t2: TodoMap, m2: MessageMap)
    ensures Post(Post(store, user, t1, m1).store, user, t2, m2) == Post(store, user, t2, m2)
    ensures user !in store ==> Post(store, user, t2, m2).store == Post(Get(store, user).store, user, t2, m2).store
  {
    var d1, d2 := Doc(t1, m1), Doc(t2, m2);
    assert Post(store, user, t1, m1).store == store[user := d1];
    UpdateTwice(store, user, d1, d2);
    if user !in store {
      assert Get(store, user).store == store[user := EmptyDoc];
      UpdateTwice(store, user, EmptyDoc, d2);
    }
  }

  /** Of two updates of one key, only the second is seen. */
  lemma UpdateTwice(m: Store, k: UserId, a: Doc, b: Doc)
    ensures m[k := a][k := b] == m[k := b]
  {
    var x, y := m[k := a][k := b], m[k := b];
    assert x.Keys == y.Keys;
    forall j | j in x ensures x[j] == y[j] {
    }
  }

  /** One user's reads and saves are invisible to another user's reads. */
  lemma UsersIsolated(store: Store, user: UserId, other: UserId, todos: TodoMap, messages: MessageMap)
    requires other != user
    ensures Get(Post(store, user, todos, messages).store, other).reply == Get(store, other).reply
    ensures Get(Get(store, user).store, other).reply == Get(store, other).reply
  {
  }
}
