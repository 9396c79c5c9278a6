/** The account routes of the server over a map from user name to account.
    The password hash and its comparison are parameters: the model knows
    only what the routes do with their results. User names are stored
    trimmed, and a lookup trims the name it is given the same way. */
module AuthRoute {
  import opened Common
  import opened Text

  datatype Account = Account(id: string, passwordHash: string)

  /** The accounts, keyed by trimmed user name (names are unique). */
  type Accounts = map<string, Account>

  datatype Reply =
    | Created(userId: string)
    | NameTaken
    | ServerError
    | LoggedIn(userId: string, username: string)
    | Unauthorized
    | Availability(available: bool)

  function Status(r: Reply): (s: nat)
    ensures s == 200 <==> r.LoggedIn? || r.Availability?
    ensures s == 401 <==> r.Unauthorized?
    ensures 400 <= s < 500 <==> r.NameTaken? || r.Unauthorized?
    ensures s == 201 <==> r.Created?
    ensures s == 400 <==> r.NameTaken?
    ensures s == 500 <==> r.ServerError?
  {
    match r
    case Created(_) => 201
    case NameTaken => 400
    case ServerError => 500
    case LoggedIn(_, _) => 200
    case Unauthorized => 401
    case Availability(_) => 200
  }

  datatype Outcome = Outcome(accounts: Accounts, reply: Reply)

  /** POST /register: a taken name is refused with 400; otherwise the
      password is hashed with `salt` and a new account with id `newId` is
      saved, unless the account schema rejects it on save: it requires at
      least three characters of trimmed name and at least six in the stored
      password field, which holds the hash. That rejection surfaces as 500. */
  function Register(accounts: Accounts, username: string, password: string, salt: string, newId: string,
                    hash: (string, string) -> string): (o: Outcome)
    ensures o.reply.Created? <==>
      Trim(username) !in accounts && |Trim(username)| >= 3 && |hash(password, salt)| >= 6
    ensures o.reply.NameTaken? <==> Trim(username) in accounts
    ensures !o.reply.Created? ==> o.accounts == accounts
  {
    var name := Trim(username);
    if name in accounts then Outcome(accounts, NameTaken)
    else
      var h := hash(password, salt);
      if |name| < 3 || |h| < 6 then Outcome(accounts, ServerError)
      else Outcome(accounts[name := Account(newId, h)], Created(newId))
  }

  /** What a successful registration stores: the new id with the hash of
      the password, never the password itself, under the trimmed name, and
      nothing else changes. Every failure is a 400 or a 500. */
  lemma RegisterStores(accounts: Accounts, username: string, password: string, salt: string, newId: string,
                       hash: (string, string) -> string)
    ensures var o := Register(accounts, username, password, salt, newId, hash);
            && (o.reply.Created? ==>
                  && o.reply.userId == newId && Status(o.reply) == 201
                  && Trim(username) in o.accounts
                  && o.accounts[Trim(username)] == Account(newId, hash(password, salt))
                  && OthersUnchanged(accounts, o.accounts, Trim(username)))
            && (!o.reply.Created? ==> Status(o.reply) == 400 || Status(o.reply) == 500)
  {
    var name := Trim(username);
    var o := Register(accounts, username, password, salt, newId, hash);
    if name !in accounts && |name| >= 3 && |hash(password, salt)| >= 6 {
      assert o.accounts == accounts[name := Account(newId, hash(password, salt))];
      assert o.reply == Created(newId);
    } else {
      assert o.reply == NameTaken || o.reply == ServerError;
    }
  }

  /** POST /login: an unknown name and a wrong password get the same 401
      reply; a match answers with the account's id and stored name. */
  function Login(accounts: Accounts, username: string, password: string,
                 compare: (string, string) -> bool): (o: Outcome)
    ensures o.accounts == accounts
    ensures o.reply.LoggedIn? <==> Trim(username) in accounts && compare(password, accounts[Trim(username)].passwordHash)
    ensures o.reply.LoggedIn? ==> o.reply == LoggedIn(accounts[Trim(username)].id, Trim(username))
    ensures !o.reply.LoggedIn? ==> o.reply == Unauthorized
  {
    var name := Trim(username);
    if name !in accounts then Outcome(accounts, Unauthorized)
    else if !compare(password, accounts[name].passwordHash) then Outcome(accounts, Unauthorized)
    else Outcome(accounts, LoggedIn(accounts[name].id, name))
  }

  /** GET /check-username: whether no account has this name. */
  function CheckUsername(accounts: Accounts, username: string): (o: Outcome)
    ensures o.accounts == accounts
    ensures o.reply.Availability? && Status(o.reply) == 200
    ensures o.reply.available <==> Trim(username) !in accounts
  {
    Outcome(accounts, Availability(Trim(username) !in accounts))
  }

  /** Registering a taken name changes nothing and answers 400, however
      the name is padded. */
  lemma DuplicateRegisterRefused(accounts: Accounts, username: string, pad: string, password: string,
                                 salt: string, newId: string, hash: (string, string) -> string)
    requires Trim(username) in accounts && AllSpace(pad)
    ensures var o := Register(accounts, pad + username + pad, password, salt, newId, hash);
            o.accounts == accounts && Status(o.reply) == 400
  {
    TrimPadded(username, pad);
  }

  /** The two ways a login fails answer exactly alike. */
  lemma RejectionsIndistinguishable(accounts: Accounts, unknown: string, p1: string,
                                    known: string, p2: string, compare: (string, string) -> bool)
    requires Trim(unknown) !in accounts
    requires Trim(known) in accounts && !compare(p2, accounts[Trim(known)].passwordHash)
    ensures Login(accounts, unknown, p1, compare) == Login(accounts, known, p2, compare)
    ensures Status(Login(accounts, unknown, p1, compare).reply) == 401
  {
  }

  /** After a successful registration, logging in with the same password
      succeeds with the new id whenever the comparison accepts a password
      against its own hash, and the name is no longer available. */
  lemma RegisterThenLogin(accounts: Accounts, username: string, password: string, salt: string, newId: string,
                          hash: (string, string) -> string, compare: (string, string) -> bool)
    requires Register(accounts, username, password, salt, newId, hash).reply.Created?
    requires compare(password, hash(password, salt))
    ensures var after := Register(accounts, username, password, salt, newId, hash).accounts;
            && Login(after, username, password, compare).reply == LoggedIn(newId, Trim(username))
            && CheckUsername(after, username).reply == Availability(false)
  {
  }

  /** The route itself does not enforce any minimum password length: a
      one-character password is accepted whenever its hash is long enough,
      as every real hash is. */
  lemma ShortPasswordAccepted()
    ensures Register(map[], "alice", "x", "salt", "u1", (p, s) => "$2b$10$" + s + p).reply == Created("u1")
  {
    var name := "alice";
    assert !IsSpace(name[0]) && !IsSpace(name[|name| - 1]);
    TrimStartOfTrimmed(name);
    TrimEndOfTrimmed(name);
  }
}
