/** The request handlers over an in-memory picture of the two database
    tables. Argon2 and the JWT library are the oracles of `Auth`; fresh
    UUIDs, the database clock and database failures are inputs. */
module Routes {
  import opened Base
  import opened Uuids
  import opened Models
  import opened Http
  import opened Auth

  /** A row of `users`. */
  datatype UserRow = UserRow(id: Uuid, email: string, passwordHash: string)

  /** A row of `todos`; `completed` and `createdAt` are filled by the
      table's defaults when a row is inserted. */
  datatype TodoRow = TodoRow(id: Uuid, userId: Uuid, title: string, completed: bool, createdAt: int)

  /** What a handler does with a request: answer it, or panic on an
      `unwrap`/`expect` of an error, which drops the connection. */
  datatype Outcome = Respond(response: Response) | Panic(reason: string)

  const UnwrapPanic := "called `Result::unwrap()` on an `Err` value"
  const JwtSecretPanic := "JWT_SECRET not set"
  const UserRegisteredMessage := "User registered"
  const UserExistsText := "User exists"
  const InvalidCredentialsText := "Invalid credentials"

  /** The one answer to every failed login. */
  const InvalidCredentials := Response(StatusUnauthorized, Text(InvalidCredentialsText))

  /** No two users share an id (primary key) or an email (unique). */
  ghost predicate UniqueUsers(users: seq<UserRow>) {
    forall i, j :: 0 <= i < j < |users| ==> users[i].id != users[j].id && users[i].email != users[j].email
  }

  /** No two todos share an id (primary key). */
  ghost predicate UniqueTodoIds(todos: seq<TodoRow>) {
    forall i, j :: 0 <= i < j < |todos| ==> todos[i].id != todos[j].id
  }

  /** `SELECT id, password_hash FROM users WHERE email = $1` with
      `fetch_optional`: the first row with that email, if any. */
  function FindUserByEmail(users: seq<UserRow>, email: string): (r: Option<UserRow>)
    ensures r.None? <==> forall i :: 0 <= i < |users| ==> users[i].email != email
    ensures r.Some? ==> r.value in users && r.value.email == email
  {
    if users == [] then None
    else if users[0].email == email then Some(users[0])
    else FindUserByEmail(users[1..], email)
  }

  /** With unique emails the lookup finds the one row with that email. */
  lemma FindUniqueUser(users: seq<UserRow>, row: UserRow)
    requires UniqueUsers(users) && row in users
    ensures FindUserByEmail(users, row.email) == Some(row)
  {
    var found := FindUserByEmail(users, row.email).value;
    var i :| 0 <= i < |users| && users[i] == found;
    var j :| 0 <= j < |users| && users[j] == row;
    assert i == j;
  }

  /** `SELECT ... FROM todos WHERE user_id = $1`: the caller's rows, here in
      table order. */
  function SelectTodosOf(todos: seq<TodoRow>, userId: Uuid): (rows: seq<TodoRow>)
    ensures forall r :: multiset(rows)[r] == if r.userId == userId then multiset(todos)[r] else 0
  {
    if todos == [] then []
    else
      assert todos == [todos[0]] + todos[1..];
      (if todos[0].userId == userId then [todos[0]] else []) + SelectTodosOf(todos[1..], userId)
  }

  /** Selecting keeps ids unique. */
  lemma {:induction false} SelectKeepsUniqueIds(todos: seq<TodoRow>, userId: Uuid)
    ensures UniqueTodoIds(todos) ==> UniqueTodoIds(SelectTodosOf(todos, userId))
  {
    if todos != [] && UniqueTodoIds(todos) {
      var rest := SelectTodosOf(todos[1..], userId);
      SelectKeepsUniqueIds(todos[1..], userId);
      forall r | r in rest ensures r.id != todos[0].id {
        assert multiset(rest)[r] > 0;
        assert r in todos[1..];
        var k :| 0 <= k < |todos[1..]| && todos[1..][k] == r;
        assert todos[k + 1] == r;
      }
    }
  }

  /** A todo as `list_todos` reports it, field for field. */
  function TodoResponseOf(row: TodoRow): TodoResponse {
    TodoResponse(row.id, row.title, row.completed, row.createdAt)
  }

  /** Membership in the selection. */
  lemma SelectMembership(todos: seq<TodoRow>, userId: Uuid)
    ensures forall row :: row in SelectTodosOf(todos, userId) <==> row in todos && row.userId == userId
  {
    var rows := SelectTodosOf(todos, userId);
    forall row ensures row in rows <==> row in todos && row.userId == userId {
      assert multiset(rows)[row] > 0 <==> row in rows;
      assert multiset(todos)[row] > 0 <==> row in todos;
    }
  }

  /** The rows as `list_todos` reports them, in the same order. */
  function ResponsesOf(rows: seq<TodoRow>): seq<TodoResponse> {
    seq(|rows|, i requires 0 <= i < |rows| => TodoResponseOf(rows[i]))
  }

  lemma ResponsesMembership(rows: seq<TodoRow>)
    ensures forall t :: t in ResponsesOf(rows) <==> exists row :: row in rows && TodoResponseOf(row) == t
  {
    var ts := ResponsesOf(rows);
    forall t ensures t in ts <==> exists row :: row in rows && TodoResponseOf(row) == t {
      if t in ts {
        var i :| 0 <= i < |ts| && ts[i] == t;
        assert rows[i] in rows;
      }
      if row :| row in rows && TodoResponseOf(row) == t {
        var i :| 0 <= i < |rows| && rows[i] == row;
        assert ts[i] == t;
      }
    }
  }

  lemma ResponsesKeepDistinctIds(rows: seq<TodoRow>)
    ensures UniqueTodoIds(rows) ==> DistinctIds(ResponsesOf(rows))
  {
  }

  /** The ids that a `list_todos` answer reports. */
  function ListedIds(o: Outcome): set<Uuid> {
    if o.Respond? && o.response.body.TodosJson? then set t | t in o.response.body.todos :: t.id else {}
  }

  /** No two entries of a list report the same id. */
  ghost predicate DistinctIds(ts: seq<TodoResponse>) {
    forall i, j :: 0 <= i < j < |ts| ==> ts[i].id != ts[j].id
  }

  /** The two tables. */
  class Store {
    var users: seq<UserRow>
    var todos: seq<TodoRow>

    /** The tables' key constraints. */
    ghost predicate Valid()
      reads this
    {
      UniqueUsers(users) && UniqueTodoIds(todos)
    }

    constructor ()
      ensures Valid() && users == [] && todos == []
    {
      users := [];
      todos := [];
    }

    /** Whether `row` would clash with a stored user's id or email. */
    predicate UserClashes(row: UserRow)
      reads this
    {
      exists i :: 0 <= i < |users| && (users[i].id == row.id || users[i].email == row.email)
    }

    /** `INSERT INTO users`: refused by the key constraints or by a failure
      of the database itself (`dbFailure`), and otherwise appended. */
    method InsertUser(row: UserRow, dbFailure: bool) returns (ok: bool)
      requires Valid()
      modifies this`users
      ensures Valid()
      ensures ok <==> !dbFailure && !old(UserClashes(row))
      ensures users == if ok then old(users) + [row] else old(users)
    {
      ok := !dbFailure && !UserClashes(row);
      if ok {
        users := users + [row];
      }
    }

    /** `register`: stores the fixed-salt hash of the password, never the
      password, under a fresh id; every insert failure, a taken email or
      anything else, is the same 400 "User exists". */
    method Register(payload: RegisterReq, freshId: Uuid, dbFailure: bool, argon: Argon2) returns (resp: Response)
      requires Valid()
      modifies this`users
      ensures Valid()
      ensures todos == old(todos)
      ensures var row := UserRow(freshId, payload.email, HashPassword(argon, payload.password));
        var inserted := !dbFailure && !old(UserClashes(row));
        && users == (if inserted then old(users) + [row] else old(users))
        && resp == if inserted then Response(StatusOk, MessageJson(UserRegisteredMessage))
                   else Response(StatusBadRequest, Text(UserExistsText))
    {
      var passwordHash := HashPassword(argon, payload.password);
      var ok := InsertUser(UserRow(freshId, payload.email, passwordHash), dbFailure);
      if ok {
        resp := Response(StatusOk, MessageJson(UserRegisteredMessage));
      } else {
        resp := Response(StatusBadRequest, Text(UserExistsText));
      }
    }

    /** `login`: a token is issued only for a stored row with the given email
      whose hash the password verifies against, and it is `generate_jwt` of
      that row's id; every other case is `InvalidCredentials`. */
    function Login(payload: LoginReq, dbFailure: bool, argon: Argon2, codec: JwtCodec, env: Env, now: int): (o: Outcome)
      reads this
      requires 0 <= now < I64Bound
      ensures dbFailure ==> o == Panic(UnwrapPanic)
      ensures !dbFailure && (forall i :: 0 <= i < |users| ==> users[i].email != payload.email) ==>
        o == Respond(InvalidCredentials)
      ensures o.Respond? && o.response != InvalidCredentials ==>
        JwtSecretVar in env &&
        exists i :: 0 <= i < |users| && users[i].email == payload.email &&
          VerifyPassword(argon, users[i].passwordHash, payload.password) &&
          o.response == Response(StatusOk, TokenJson(codec.encode(IssueClaims(users[i].id, now), env[JwtSecretVar])))
    {
      if dbFailure then Panic(UnwrapPanic)
      else match FindUserByEmail(users, payload.email)
        case Some(user) =>
          if VerifyPassword(argon, user.passwordHash, payload.password) then
            match GenerateJwt(codec, env, user.id, now)
            case None => Panic(JwtSecretPanic)
            case Some(token) => Respond(Response(StatusOk, TokenJson(token)))
          else Respond(InvalidCredentials)
        case None => Respond(InvalidCredentials)
    }

    /** Whether a stored todo already has this id. */
    predicate TodoIdTaken(id: Uuid)
      reads this
    {
      exists i :: 0 <= i < |todos| && todos[i].id == id
    }

    /** `INSERT INTO todos`: refused by the primary key or by a failure of
      the database, and otherwise appended. */
    method InsertTodo(row: TodoRow, dbFailure: bool) returns (ok: bool)
      requires Valid()
      modifies this`todos
      ensures Valid()
      ensures ok <==> !dbFailure && !old(TodoIdTaken(row.id))
      ensures todos == if ok then old(todos) + [row] else old(todos)
    {
      ok := !dbFailure && !TodoIdTaken(row.id);
      if ok {
        todos := todos + [row];
      }
    }

    /** `create_todo`: one new row owned by the caller, with the title as
      given and the table's defaults, whose id is the one answered; a
      failed insert panics and changes nothing. */
    method CreateTodo(userId: Uuid, payload: CreateTodoReq, freshId: Uuid, createdAt: int, dbFailure: bool)
      returns (o: Outcome)
      requires Valid()
      modifies this`todos
      ensures Valid()
      ensures users == old(users)
      ensures var row := TodoRow(freshId, userId, payload.title, false, createdAt);
        var inserted := !dbFailure && !old(TodoIdTaken(freshId));
        && todos == (if inserted then old(todos) + [row] else old(todos))
        && o == if inserted then Respond(Response(StatusOk, IdJson(freshId))) else Panic(UnwrapPanic)
    {
      var ok := InsertTodo(TodoRow(freshId, userId, payload.title, false, createdAt), dbFailure);
      if ok {
        o := Respond(Response(StatusOk, IdJson(freshId)));
      } else {
        o := Panic(UnwrapPanic);
      }
    }

    /** `list_todos`: exactly the caller's todos, each reported field for
      field, none twice; the order is the table's and nothing depends on it. */
    function ListTodos(userId: Uuid, dbFailure: bool): (o: Outcome)
      reads this
      ensures dbFailure ==> o == Panic(UnwrapPanic)
      ensures !dbFailure ==> o.Respond? && o.response.status == StatusOk && o.response.body.TodosJson?
      ensures !dbFailure ==> forall t :: t in o.response.body.todos <==>
        exists row :: row in todos && row.userId == userId && TodoResponseOf(row) == t
      ensures !dbFailure && Valid() ==> DistinctIds(o.response.body.todos)
    {
      if dbFailure then Panic(UnwrapPanic)
      else
        var rows := SelectTodosOf(todos, userId);
        SelectMembership(todos, userId);
        SelectKeepsUniqueIds(todos, userId);
        ResponsesMembership(rows);
        ResponsesKeepDistinctIds(rows);
        Respond(Response(StatusOk, TodosJson(ResponsesOf(rows))))
    }
  }

  /** A stored user whose hash the password verifies against gets the
      token `generate_jwt` makes for that user's id. */
  lemma LoginAcceptsStoredCredentials(s: Store, row: UserRow, password: string,
                                      argon: Argon2, codec: JwtCodec, env: Env, now: int)
    requires s.Valid() && row in s.users
    requires VerifyPassword(argon, row.passwordHash, password)
    requires 0 <= now < I64Bound && JwtSecretVar in env
    ensures s.Login(LoginReq(row.email, password), false, argon, codec, env, now) ==
      Respond(Response(StatusOk, TokenJson(GenerateJwt(codec, env, row.id, now).value)))
  {
    FindUniqueUser(s.users, row);
  }

  /** Registration and login fit together: a user stored by `register`
      with password `p` logs in with `p`, provided Argon2 verifies the hash
      it produced for `p`. */
  lemma RegisteredUserLogsIn(s: Store, id: Uuid, email: string, password: string,
                             argon: Argon2, codec: JwtCodec, env: Env, now: int)
    requires s.Valid() && UserRow(id, email, HashPassword(argon, password)) in s.users
    requires argon.parses(HashPassword(argon, password))
    requires argon.verify(password, HashPassword(argon, password))
    requires 0 <= now < I64Bound && JwtSecretVar in env
    ensures s.Login(LoginReq(email, password), false, argon, codec, env, now) ==
      Respond(Response(StatusOk, TokenJson(codec.encode(IssueClaims(id, now), env[JwtSecretVar]))))
  {
    VerifyHashedPassword(argon, password);
    LoginAcceptsStoredCredentials(s, UserRow(id, email, HashPassword(argon, password)), password, argon, codec, env, now);
  }

  /** With `JWT_SECRET` unset, correct credentials make `generate_jwt`
      panic, while wrong ones are still answered with `InvalidCredentials`. */
  lemma LoginPanicsWithoutSecret(s: Store, row: UserRow, password: string,
                                 argon: Argon2, codec: JwtCodec, env: Env, now: int)
    requires s.Valid() && row in s.users
    requires VerifyPassword(argon, row.passwordHash, password)
    requires 0 <= now < I64Bound && JwtSecretVar !in env
    ensures s.Login(LoginReq(row.email, password), false, argon, codec, env, now) == Panic(JwtSecretPanic)
  {
    FindUniqueUser(s.users, row);
  }

  /** `hash_password` salts every password with the same constant, so two
      users who register with the same password are stored with the same
      hash, and the users table shows who shares a password. */
  method RegisterSharedPassword(s: Store, first: RegisterReq, second: RegisterReq,
                                id1: Uuid, id2: Uuid, argon: Argon2)
    returns (r1: Response, r2: Response)
    requires s.Valid()
    requires first.password == second.password && first.email != second.email && id1 != id2
    requires !s.UserClashes(UserRow(id1, first.email, HashPassword(argon, first.password)))
    requires !s.UserClashes(UserRow(id2, second.email, HashPassword(argon, second.password)))
    modifies s`users
    ensures s.Valid()
    ensures r1 == r2 == Response(StatusOk, MessageJson(UserRegisteredMessage))
    ensures |s.users| == |old(s.users)| + 2 && s.users[..|old(s.users)|] == old(s.users)
    ensures s.users[|s.users| - 2].email == first.email && s.users[|s.users| - 1].email == second.email
    ensures s.users[|s.users| - 2].passwordHash == s.users[|s.users| - 1].passwordHash
  {
    var row1 := UserRow(id1, first.email, HashPassword(argon, first.password));
    var row2 := UserRow(id2, second.email, HashPassword(argon, second.password));
    r1 := s.Register(first, id1, false, argon);
    assert !s.UserClashes(row2) by {
      forall i | 0 <= i < |s.users| ensures s.users[i].id != row2.id && s.users[i].email != row2.email {
        if i == |s.users| - 1 {
          assert s.users[i] == row1;
        } else {
          assert s.users[i] == old(s.users)[i];
        }
      }
    }
    r2 := s.Register(second, id2, false, argon);
  }

  /** A wrong password for a stored email gets `InvalidCredentials`. */
  lemma LoginRefusesWrongPassword(s: Store, row: UserRow, password: string,
                                  argon: Argon2, codec: JwtCodec, env: Env, now: int)
    requires s.Valid() && row in s.users
    requires !VerifyPassword(argon, row.passwordHash, password)
    requires 0 <= now < I64Bound
    ensures s.Login(LoginReq(row.email, password), false, argon, codec, env, now) == Respond(InvalidCredentials)
  {
    FindUniqueUser(s.users, row);
  }

  /** An unknown email and a wrong password for a known one are answered
      identically, so the answer does not tell which emails are registered. */
  lemma LoginHidesWhichCheckFailed(s: Store, unknown: LoginReq, row: UserRow, wrong: string,
                                   argon: Argon2, codec: JwtCodec, env: Env, now: int)
    requires s.Valid() && row in s.users
    requires forall i :: 0 <= i < |s.users| ==> s.users[i].email != unknown.email
    requires !VerifyPassword(argon, row.passwordHash, wrong)
    requires 0 <= now < I64Bound
    ensures s.Login(unknown, false, argon, codec, env, now) ==
            s.Login(LoginReq(row.email, wrong), false, argon, codec, env, now)
  {
    LoginRefusesWrongPassword(s, row, wrong, argon, codec, env, now);
  }

  /** A todo is listed for its owner and for nobody else. */
  lemma TodosAreOwnerScoped(s: Store, row: TodoRow, other: Uuid)
    requires s.Valid() && row in s.todos && other != row.userId
    ensures row.id in ListedIds(s.ListTodos(row.userId, false))
    ensures row.id !in ListedIds(s.ListTodos(other, false))
  {
    var mine := s.ListTodos(row.userId, false).response.body.todos;
    assert TodoResponseOf(row) in mine;
    var theirs := s.ListTodos(other, false).response.body.todos;
    forall t | t in theirs ensures t.id != row.id {
      var r :| r in s.todos && r.userId == other && TodoResponseOf(r) == t;
      var i :| 0 <= i < |s.todos| && s.todos[i] == r;
      var j :| 0 <= j < |s.todos| && s.todos[j] == row;
      assert i != j;
    }
  }

  /** After user `a` creates a todo, `a`'s list shows its id and the list
      of any other user `b` does not. */
  method CreateThenList(s: Store, a: Uuid, b: Uuid, payload: CreateTodoReq, freshId: Uuid, createdAt: int)
    returns (created: Outcome)
    requires s.Valid() && a != b && !s.TodoIdTaken(freshId)
    modifies s`todos
    ensures s.Valid()
    ensures created == Respond(Response(StatusOk, IdJson(freshId)))
    ensures freshId in ListedIds(s.ListTodos(a, false))
    ensures freshId !in ListedIds(s.ListTodos(b, false))
  {
    created := s.CreateTodo(a, payload, freshId, createdAt, false);
    var row := TodoRow(freshId, a, payload.title, false, createdAt);
    assert s.todos[|s.todos| - 1] == row;
    TodosAreOwnerScoped(s, row, b);
  }
}
