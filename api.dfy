/** The request handlers of the TaskBase API over one SQLite database. Each
    request is one atomic step on the `Server` object, which holds the two
    tables and their AUTOINCREMENT counters. */
module Api {
  import opened Wrappers
  import opened Js
  import opened Crypto
  import opened Tables
  import opened Auth

  const SeedEmail: string := "demo@taskbase.dev"
  const SeedPassword: string := "demo123"
  const WelcomeTitle: string := "Welcome to TaskBase \U{1F389}"

  const FieldsRequired: string := "email & password are required"
  const EmailInUse: string := "Email already in use"
  const InvalidCredentials: string := "Invalid credentials"
  const TitleRequired: string := "title is required"
  const TodoNotFound: string := "Todo not found"

  /** A JSON response body. `Uncaught` is Express's default error page for an
      exception a handler did not catch. */
  datatype Body =
    | TokenBody(token: string)
    | ErrorBody(error: string)
    | Rows(rows: seq<Todo>)
    | Row(row: Todo)
    | NoContent
    | Uncaught

  datatype Response = Response(status: int, body: Body)

  /** A request after Express has parsed the body and the `:id` segment.
      `salt` is the random salt bcrypt would draw for a registration. */
  datatype Request =
    | RegisterReq(email: Option<string>, password: Option<string>, salt: nat)
    | LoginReq(email: Option<string>, password: Option<string>)
    | ListReq(authorization: Option<string>)
    | CreateReq(authorization: Option<string>, title: Option<string>)
    | UpdateReq(authorization: Option<string>, id: int, title: Option<string>, done: Value)
    | DeleteReq(authorization: Option<string>, id: int)

  class Server {
    /** bcrypt and jsonwebtoken under the server's secret. */
    const crypto: Primitives
    var users: seq<User>
    var todos: seq<Todo>
    /** The `sqlite_sequence` entries: the largest id each table ever issued. */
    var lastUserId: nat
    var lastTodoId: nat

    ghost predicate Valid()
      reads this
    {
      UsersValid(users, lastUserId) && TodosValid(todos, lastTodoId) &&
      OwnersExist(users, todos)
    }

    /** What the schema's constraints guarantee of a valid store: the
        PRIMARY KEYs name one row each, `email` is UNIQUE, AUTOINCREMENT ids
        stay within their counters, `done` is 0 or 1, and the FOREIGN KEY
        names a stored user for every todo. */
    lemma Schema()
      requires Valid()
      ensures forall u, w :: u in users && w in users && u.id == w.id ==> u == w
      ensures forall u, w :: u in users && w in users && u.email == w.email ==> u == w
      ensures forall u :: u in users ==> 1 <= u.id <= lastUserId
      ensures forall t, x :: t in todos && x in todos && t.id == x.id ==> t == x
      ensures forall t :: t in todos ==> 1 <= t.id <= lastTodoId && (t.done == 0 || t.done == 1)
      ensures forall t :: t in todos ==> exists u :: u in users && u.id == t.userId
    {
      forall u, w | u in users && w in users && (u.id == w.id || u.email == w.email)
        ensures u == w
      {
        var i :| 0 <= i < |users| && users[i] == u;
        var j :| 0 <= j < |users| && users[j] == w;
        assert i == j;
      }
      forall t | t in todos ensures forall x :: x in todos && x.id == t.id ==> x == t {
        IdNamesOneRow(todos, t);
      }
    }

    /** Opening a new database file: both tables are created empty. */
    constructor (crypto: Primitives)
      ensures Valid() && this.crypto == crypto
      ensures users == [] && todos == [] && lastUserId == 0 && lastTodoId == 0
    {
      this.crypto := crypto;
      users, todos := [], [];
      lastUserId, lastTodoId := 0, 0;
    }

    /** First-run seed: unless the demo user exists, insert it and its
        welcome todo. */
    method Seed(salt: nat)
      requires Valid()
      modifies this
      ensures Valid()
      ensures old(FindUser(users, SeedEmail)).Some? ==>
        users == old(users) && todos == old(todos) &&
        lastUserId == old(lastUserId) && lastTodoId == old(lastTodoId)
      ensures old(FindUser(users, SeedEmail)).None? ==>
        lastUserId == old(lastUserId) + 1 && lastTodoId == old(lastTodoId) + 1 &&
        users == old(users) + [User(lastUserId, SeedEmail, crypto.hash(SeedPassword, salt))] &&
        todos == old(todos) + [Todo(lastTodoId, lastUserId, WelcomeTitle, 0)]
    {
      if FindUser(users, SeedEmail).None? {
        var hash := crypto.hash(SeedPassword, salt);
        var uid := InsertUser(SeedEmail, hash);
        assert users[|users| - 1].id == uid;
        var _ := InsertTodo(uid, WelcomeTitle);
      }
    }

    /** `INSERT INTO users(email, password_hash)` for an email not yet in the
        table; returns `lastInsertRowid`. */
    method InsertUser(email: string, hash: string) returns (id: int)
      requires Valid() && FindUser(users, email).None?
      modifies this`users, this`lastUserId
      ensures Valid() && id == lastUserId == old(lastUserId) + 1
      ensures users == old(users) + [User(id, email, hash)]
    {
      AppendUserKeepsValid(users, lastUserId, User(lastUserId + 1, email, hash));
      OwnersExistAppendUser(users, todos, User(lastUserId + 1, email, hash));
      lastUserId := lastUserId + 1;
      id := lastUserId;
      users := users + [User(id, email, hash)];
    }

    /** `INSERT INTO todos(user_id, title)`. The foreign key is enforced: when
        no user has `uid` the statement fails (`None`) and nothing changes.
        Otherwise `done` takes its default 0, the id is one past every id the
        table ever issued, and only the owner's rows change. */
    method InsertTodo(uid: int, title: string) returns (inserted: Option<Todo>)
      requires Valid()
      modifies this`todos, this`lastTodoId
      ensures Valid()
      ensures !HasUser(users, uid) ==>
        inserted.None? && todos == old(todos) && lastTodoId == old(lastTodoId)
      ensures HasUser(users, uid) ==>
        lastTodoId == old(lastTodoId) + 1 &&
        inserted == Some(Todo(lastTodoId, uid, title, 0)) &&
        (forall t :: t in old(todos) ==> t.id < lastTodoId) &&
        todos == old(todos) + [inserted.value] &&
        FindById(todos, lastTodoId) == inserted
      ensures OthersUnchanged(old(todos), todos, uid)
    {
      if !HasUser(users, uid) {
        return None;
      }
      lastTodoId := lastTodoId + 1;
      var row := Todo(lastTodoId, uid, title, 0);
      AppendTodoKeepsValid(todos, lastTodoId - 1, row);
      FindAppended(todos, row);
      OwnersExistAppendTodo(users, todos, row);
      forall v | v != uid ensures Owned(todos + [row], v) == Owned(todos, v) {
        OwnedAppend(todos, row, v);
      }
      todos := todos + [row];
      inserted := Some(row);
    }

    /** POST /api/auth/register. A falsy field gives 400, an email already in
        `users` gives 409 (the UNIQUE violation); otherwise one user row is
        added with the next id and the response carries a token for it. */
    method Register(email: Option<string>, password: Option<string>, salt: nat) returns (resp: Response)
      requires Valid()
      modifies this
      ensures Valid() && todos == old(todos) && lastTodoId == old(lastTodoId)
      ensures !Present(email) || !Present(password) ==>
        resp == Response(400, ErrorBody(FieldsRequired)) &&
        users == old(users) && lastUserId == old(lastUserId)
      ensures (Present(email) && Present(password) &&
               exists u :: u in old(users) && u.email == email.value) ==>
        resp == Response(409, ErrorBody(EmailInUse)) &&
        users == old(users) && lastUserId == old(lastUserId)
      ensures (Present(email) && Present(password) &&
               forall u :: u in old(users) ==> u.email != email.value) ==>
        lastUserId == old(lastUserId) + 1 &&
        users == old(users) + [User(lastUserId, email.value, crypto.hash(password.value, salt))] &&
        resp == Response(200, TokenBody(crypto.sign(Claims(lastUserId, email.value))))
    {
      if !Present(email) || !Present(password) {
        return Response(400, ErrorBody(FieldsRequired));
      }
      var hash := crypto.hash(password.value, salt);
      if FindUser(users, email.value).Some? {
        return Response(409, ErrorBody(EmailInUse));
      }
      var id := InsertUser(email.value, hash);
      resp := Response(200, TokenBody(crypto.sign(Claims(id, email.value))));
    }

    /** POST /api/auth/login. An unknown email and a wrong password give the
        same 401; a missing password for a known email makes bcrypt throw;
        success signs exactly the stored user's id and email. */
    function Login(email: Option<string>, password: Option<string>): (r: Response)
      reads this
      requires Valid()
      ensures (email.None? || forall u :: u in users ==> u.email != email.value) ==>
        r == Response(401, ErrorBody(InvalidCredentials))
      ensures forall u :: u in users && email == Some(u.email) && password.None? ==>
        r == Response(500, Uncaught)
      ensures forall u :: u in users && email == Some(u.email) && password.Some? ==>
        r == if crypto.compare(password.value, u.passwordHash)
             then Response(200, TokenBody(crypto.sign(Claims(u.id, u.email))))
             else Response(401, ErrorBody(InvalidCredentials))
    {
      if email.None? then Response(401, ErrorBody(InvalidCredentials))
      else
        match FindUser(users, email.value)
        case None => Response(401, ErrorBody(InvalidCredentials))
        case Some(u) =>
          assert forall w :: w in users && w.email == email.value ==> w == u by {
            forall w | w in users && w.email == email.value ensures w == u {
              FindUserExact(users, w);
            }
          }
          if password.None? then Response(500, Uncaught)
          else if crypto.compare(password.value, u.passwordHash)
          then Response(200, TokenBody(crypto.sign(Claims(u.id, u.email))))
          else Response(401, ErrorBody(InvalidCredentials))
    }

    /** GET /api/todos: exactly the caller's rows, highest id first. */
    function List(caller: Claims): (r: Response)
      reads this
      requires Valid()
      ensures r.status == 200 && r.body.Rows?
      ensures forall t :: t in r.body.rows <==> t in todos && t.userId == caller.id
      ensures Descending(r.body.rows)
    {
      ListDescending(todos, caller.id);
      Response(200, Rows(Reverse(Owned(todos, caller.id))))
    }

    /** POST /api/todos. A falsy title gives 400 and no row; otherwise one row
        owned by the caller, not done, with a fresh larger id, is added and
        returned with 201. */
    method Create(caller: Claims, title: Option<string>) returns (resp: Response)
      requires Valid()
      modifies this
      ensures Valid() && users == old(users) && lastUserId == old(lastUserId)
      ensures OthersUnchanged(old(todos), todos, caller.id)
      ensures !Present(title) ==>
        resp == Response(400, ErrorBody(TitleRequired)) &&
        todos == old(todos) && lastTodoId == old(lastTodoId)
      ensures Present(title) && !HasUser(users, caller.id) ==>
        resp == Response(500, Uncaught) &&
        todos == old(todos) && lastTodoId == old(lastTodoId)
      ensures Present(title) && HasUser(users, caller.id) ==>
        lastTodoId == old(lastTodoId) + 1 &&
        (forall t :: t in old(todos) ==> t.id < lastTodoId) &&
        todos == old(todos) + [Todo(lastTodoId, caller.id, title.value, 0)] &&
        resp == Response(201, Row(Todo(lastTodoId, caller.id, title.value, 0)))
    {
      if !Present(title) {
        return Response(400, ErrorBody(TitleRequired));
      }
      var inserted := InsertTodo(caller.id, title.value);
      if inserted.None? {
        return Response(500, Uncaught);
      }
      var row := FindById(todos, inserted.value.id);
      resp := Response(201, Row(row.value));
    }

    /** PUT /api/todos/:id. A row the caller does not own (or that does not
        exist) gives 404 and changes nothing. Otherwise only that row changes:
        its title becomes the given one unless it is null/undefined, and its
        `done` becomes 1 if the given value is truthy and 0 otherwise. */
    method Update(caller: Claims, id: int, title: Option<string>, done: Value) returns (resp: Response)
      requires Valid()
      modifies this
      ensures Valid() && users == old(users)
      ensures lastUserId == old(lastUserId) && lastTodoId == old(lastTodoId)
      ensures OthersUnchanged(old(todos), todos, caller.id)
      ensures (forall t :: t in old(todos) ==> !(t.id == id && t.userId == caller.id)) ==>
        resp == Response(404, ErrorBody(TodoNotFound)) && todos == old(todos)
      ensures forall t :: t in old(todos) && t.id == id && t.userId == caller.id ==>
        todos == SetRow(old(todos), id, Coalesce(title, t.title), Flag(done)) &&
        resp == Response(200, Row(t.(title := Coalesce(title, t.title), done := Flag(done))))
    {
      var todo := FindOwned(todos, id, caller.id);
      if todo.None? {
        return Response(404, ErrorBody(TodoNotFound));
      }
      var t := todo.value;
      var newTitle := Coalesce(title, t.title);
      IdNamesOneRow(todos, t);
      forall v | v != caller.id
        ensures Owned(SetRow(todos, id, newTitle, Flag(done)), v) == Owned(todos, v)
      {
        SetRowIsolation(todos, id, newTitle, Flag(done), caller.id, v);
      }
      SetRowFind(todos, id, newTitle, Flag(done), t);
      SetRowKeepsValid(todos, lastTodoId, id, newTitle, Flag(done));
      OwnersExistSetRow(users, todos, id, newTitle, Flag(done));
      todos := SetRow(todos, id, newTitle, Flag(done));
      var updated := FindById(todos, id);
      resp := Response(200, Row(updated.value));
    }

    /** DELETE /api/todos/:id: removes the caller's row with that id, if any,
        and nothing else; always 204. Deleting again changes nothing. */
    method Delete(caller: Claims, id: int) returns (resp: Response)
      requires Valid()
      modifies this
      ensures Valid() && users == old(users)
      ensures lastUserId == old(lastUserId) && lastTodoId == old(lastTodoId)
      ensures resp == Response(204, NoContent)
      ensures todos == DeleteOwned(old(todos), id, caller.id)
      ensures |todos| + 1 >= |old(todos)|
      ensures OthersUnchanged(old(todos), todos, caller.id)
      ensures DeleteOwned(todos, id, caller.id) == todos
    {
      DeleteAscending(todos, id, caller.id);
      DeleteAtMostOne(todos, id, caller.id);
      DeleteIdempotent(todos, id, caller.id);
      forall v | v != caller.id ensures Owned(DeleteOwned(todos, id, caller.id), v) == Owned(todos, v) {
        DeleteIsolation(todos, id, caller.id, v);
      }
      todos := DeleteOwned(todos, id, caller.id);
      resp := Response(204, NoContent);
    }

    /** One request end to end. Routes under /api/todos run their handler only
        when the gate passes, as the verified caller; a denied request is
        answered 401 and changes nothing. No request touches another user's
        rows, only registration adds users, and the id counters never go back.
        A passing request gets exactly its handler's outcome. */
    method Handle(req: Request) returns (resp: Response)
      requires Valid()
      modifies this
      ensures Valid()
      ensures lastUserId >= old(lastUserId) && lastTodoId >= old(lastTodoId)
      ensures req.RegisterReq? ==>
        todos == old(todos) && lastTodoId == old(lastTodoId) &&
        (!Present(req.email) || !Present(req.password) ==>
          resp == Response(400, ErrorBody(FieldsRequired)) && users == old(users) &&
          lastUserId == old(lastUserId)) &&
        ((Present(req.email) && Present(req.password) &&
          exists u :: u in old(users) && u.email == req.email.value) ==>
          resp == Response(409, ErrorBody(EmailInUse)) && users == old(users) &&
          lastUserId == old(lastUserId)) &&
        ((Present(req.email) && Present(req.password) &&
          forall u :: u in old(users) ==> u.email != req.email.value) ==>
          lastUserId == old(lastUserId) + 1 &&
          users == old(users) + [User(lastUserId, req.email.value, crypto.hash(req.password.value, req.salt))] &&
          resp == Response(200, TokenBody(crypto.sign(Claims(lastUserId, req.email.value)))))
      ensures req.LoginReq? ==>
        resp == old(Login(req.email, req.password)) &&
        users == old(users) && todos == old(todos) &&
        lastUserId == old(lastUserId) && lastTodoId == old(lastTodoId)
      ensures !req.RegisterReq? && !req.LoginReq? ==>
        users == old(users) &&
        match Authenticate(crypto.verify, req.authorization)
        case Deny(message) =>
          resp == Response(401, ErrorBody(message)) && todos == old(todos) &&
          lastUserId == old(lastUserId) && lastTodoId == old(lastTodoId)
        case Pass(caller) =>
          lastUserId == old(lastUserId) && OthersUnchanged(old(todos), todos, caller.id)
      ensures req.ListReq? && Authenticate(crypto.verify, req.authorization).Pass? ==>
        resp == old(List(Authenticate(crypto.verify, req.authorization).caller)) &&
        todos == old(todos) && lastTodoId == old(lastTodoId)
      ensures req.CreateReq? && Authenticate(crypto.verify, req.authorization).Pass? ==>
        var caller := Authenticate(crypto.verify, req.authorization).caller;
        (!Present(req.title) ==>
          resp == Response(400, ErrorBody(TitleRequired)) && todos == old(todos) &&
          lastTodoId == old(lastTodoId)) &&
        (Present(req.title) && !HasUser(users, caller.id) ==>
          resp == Response(500, Uncaught) && todos == old(todos) &&
          lastTodoId == old(lastTodoId)) &&
        (Present(req.title) && HasUser(users, caller.id) ==>
          lastTodoId == old(lastTodoId) + 1 &&
          todos == old(todos) + [Todo(lastTodoId, caller.id, req.title.value, 0)] &&
          resp == Response(201, Row(Todo(lastTodoId, caller.id, req.title.value, 0))))
      ensures req.UpdateReq? && Authenticate(crypto.verify, req.authorization).Pass? ==>
        var caller := Authenticate(crypto.verify, req.authorization).caller;
        lastTodoId == old(lastTodoId) &&
        ((forall t :: t in old(todos) ==> !(t.id == req.id && t.userId == caller.id)) ==>
          resp == Response(404, ErrorBody(TodoNotFound)) && todos == old(todos)) &&
        (forall t :: t in old(todos) && t.id == req.id && t.userId == caller.id ==>
          var edited := t.(title := Coalesce(req.title, t.title), done := Flag(req.done));
          todos == SetRow(old(todos), req.id, edited.title, edited.done) &&
          resp == Response(200, Row(edited)))
      ensures req.DeleteReq? && Authenticate(crypto.verify, req.authorization).Pass? ==>
        resp == Response(204, NoContent) && lastTodoId == old(lastTodoId) &&
        todos == DeleteOwned(old(todos), req.id, Authenticate(crypto.verify, req.authorization).caller.id)
    {
      if req.RegisterReq? {
        resp := Register(req.email, req.password, req.salt);
      } else if req.LoginReq? {
        resp := Login(req.email, req.password);
      } else {
        var gate := Authenticate(crypto.verify, req.authorization);
        if gate.Deny? {
          resp := Response(401, ErrorBody(gate.message));
        } else if req.ListReq? {
          resp := List(gate.caller);
        } else if req.CreateReq? {
          resp := Create(gate.caller, req.title);
        } else if req.UpdateReq? {
          resp := Update(gate.caller, req.id, req.title, req.done);
        } else {
          resp := Delete(gate.caller, req.id);
        }
      }
    }
  }

  /** A stored user logs in with the password it was registered (or seeded)
      with, and the token it gets back passes the gate as exactly that user. */
  lemma LoginAfterRegistration(server: Server, u: User, password: string, salt: nat)
    requires server.Valid() && Lawful(server.crypto)
    requires u in server.users && u.passwordHash == server.crypto.hash(password, salt)
    ensures server.Login(Some(u.email), Some(password)).status == 200
    ensures server.Login(Some(u.email), Some(password)).body.TokenBody?
    ensures Authenticate(server.crypto.verify,
                         Some(Prefix + server.Login(Some(u.email), Some(password)).body.token))
            == Pass(Claims(u.id, u.email))
  {
    IssuedTokenPasses(server.crypto, Claims(u.id, u.email));
  }

  /** A first run followed by one user's registration. The seed makes the
      demo user and its welcome todo id 1, so the new user is id 2. */
  method Scenario(crypto: Primitives, seedSalt: nat, salt: nat)
    requires Lawful(crypto)
  {
    var server := new Server(crypto);
    server.Seed(seedSalt);
    assert server.users == [User(1, SeedEmail, crypto.hash(SeedPassword, seedSalt))];
    assert server.todos == [Todo(1, 1, WelcomeTitle, 0)];

    var reg := server.Register(Some("a@x.com"), Some("pw1"), salt);
    assert reg == Response(200, TokenBody(crypto.sign(Claims(2, "a@x.com"))));
    assert server.users == [User(1, SeedEmail, crypto.hash(SeedPassword, seedSalt)),
                            User(2, "a@x.com", crypto.hash("pw1", salt))];

    Session(server, salt);
  }

  /** The registered user's session: log in and pass the gate with the issued
      token; an unknown email and a request without `Authorization` are
      refused. */
  method Session(server: Server, salt: nat)
    requires server.Valid() && Lawful(server.crypto)
    requires |server.users| == 2 && server.users[0].email == SeedEmail
    requires server.users[1] == User(2, "a@x.com", server.crypto.hash("pw1", salt))
    requires server.todos == [Todo(1, 1, WelcomeTitle, 0)] && server.lastTodoId == 1
    modifies server
  {
    var me := server.users[1];
    assert HasUser(server.users, 2);
    var login := server.Login(Some("a@x.com"), Some("pw1"));
    LoginAfterRegistration(server, me, "pw1", salt);
    assert login.status == 200;
    var unknown := server.Login(Some("b@x.com"), Some("pw1"));
    assert unknown == Response(401, ErrorBody(InvalidCredentials));

    var header := Some(Prefix + login.body.token);
    var gate := Authenticate(server.crypto.verify, header);
    assert gate == Pass(Claims(2, "a@x.com"));

    var anonymous := server.Handle(ListReq(None));
    assert anonymous == Response(401, ErrorBody(MissingToken));

    TodoLifecycle(server, gate.caller);
  }

  /** A token that verifies to an id no user has (one issued before the
      database file was replaced, say) passes the gate, but creating a todo
      with it fails the foreign key: 500 and no new row. */
  method StaleToken(crypto: Primitives, seedSalt: nat)
  {
    var server := new Server(crypto);
    server.Seed(seedSalt);
    assert server.users == [User(1, SeedEmail, crypto.hash(SeedPassword, seedSalt))];
    var stale := server.Create(Claims(7, "x"), Some("t"));
    assert stale == Response(500, Uncaught);
    assert server.todos == [Todo(1, 1, WelcomeTitle, 0)];
  }

  /** The same user's todos after the first run: create one, then go on to
      complete it and clean up. */
  method TodoLifecycle(server: Server, caller: Claims)
    requires server.Valid() && caller.id == 2 && HasUser(server.users, 2)
    requires server.todos == [Todo(1, 1, WelcomeTitle, 0)] && server.lastTodoId == 1
    modifies server
  {
    var created := server.Create(caller, Some("buy milk"));
    assert created == Response(201, Row(Todo(2, 2, "buy milk", 0)));
    assert server.todos == [Todo(1, 1, WelcomeTitle, 0), Todo(2, 2, "buy milk", 0)];

    Complete(server, caller);
  }

  /** The user cannot touch the demo user's welcome todo, completes its own
      without sending a title, and then cleans up. */
  method Complete(server: Server, caller: Claims)
    requires server.Valid() && caller.id == 2
    requires server.todos == [Todo(1, 1, WelcomeTitle, 0), Todo(2, 2, "buy milk", 0)]
    modifies server
  {
    var foreign := server.Update(caller, 1, Some("mine now"), Bool(true));
    assert foreign == Response(404, ErrorBody(TodoNotFound));

    assert Todo(2, 2, "buy milk", 0) in server.todos;
    var done := server.Update(caller, 2, None, Bool(true));
    assert done == Response(200, Row(Todo(2, 2, "buy milk", 1)));
    assert server.todos == [Todo(1, 1, WelcomeTitle, 0), Todo(2, 2, "buy milk", 1)];

    Cleanup(server, caller);
  }

  /** The user deletes its only todo twice and then lists nothing. */
  method Cleanup(server: Server, caller: Claims)
    requires server.Valid() && caller.id == 2
    requires server.todos == [Todo(1, 1, WelcomeTitle, 0), Todo(2, 2, "buy milk", 1)]
    modifies server
  {
    var deleted := server.Delete(caller, 2);
    assert deleted == Response(204, NoContent);
    assert forall t :: t in server.todos ==> t.userId == 1;
    var again := server.Delete(caller, 2);
    assert again == Response(204, NoContent);

    var list := server.List(caller);
    assert forall t :: t !in list.body.rows;
    DescendingUnique(list.body.rows, []);
    assert list == Response(200, Rows([]));
  }
}
