# Todo API authentication core, in Dafny

This project models the security-relevant core of a small todo-list HTTP
service written in Rust (axum, sqlx, argon2, jsonwebtoken). Users register and
log in, and then manage their own todos. The model covers three parts.

- **Authentication** (`auth.dfy`, module `Auth`):
  - parsing of the `Authorization: Bearer <token>` header (section 2.1 of RFC 6750);
  - password hashing with a fixed salt, and password checking;
  - the claims that `generate_jwt` signs;
  - the `auth_middleware` decision chain: header, then secret, then token
    decoding, then the subject UUID. The chain either answers with a bare
    status (401 or 500) or stores the user id in the request and runs `next`.
- **Error taxonomy** (`errors.dfy`, module `Errors`): the mapping from
  `AppError` to status and JSON body, and the conversion that turns every
  database error into `Internal("Database error")`.
- **Handlers** (`routes.dfy`, module `Routes`): `register`, `login`,
  `create_todo` and `list_todos` over a `Store` class. The class holds the
  `users` and `todos` tables as sequences of rows. The two INSERTs are methods
  that change the tables. `login` and `list_todos` are functions that read them.

Supporting modules:
- `base.dfy`: `Option`, `byte`, `usize`.
- `uuids.dfy`: a UUID as 16 bytes, with the hyphenated lower-case text form of
  `Uuid::to_string`, a reference reader for that form, and the round trip
  between the two.
- `models.dfy`: the DTOs.
- `http.dfy`: status codes, response bodies, and `HeaderValue::to_str`.

External pieces are inputs or oracles. Argon2 is the datatype `Auth.Argon2`
(hash, parse, verify). The signing and checking inside jsonwebtoken is
`Auth.JwtCodec` (encode, and verify without time checks). The `exp` check
of `Validation::default()` is modelled explicitly: `exp` is checked, with a
60-second leeway. The environment is a `map`. `Uuid::parse_str` is a function
parameter. `Uuid::new_v4`, the clock and database failures are parameters.
Properties that depend on an oracle take the oracle's needed behaviour as a
`requires`. For example, the end-to-end lemma `Auth.IssuedTokenAuthenticates`
requires that the signature of the issued token verifies under the same secret.

A failed `unwrap`/`expect` in a handler is the outcome `Routes.Outcome.Panic`.
Panics happen when a query fails in `login`, `create_todo` or `list_todos`, or
when `JWT_SECRET` is unset when `generate_jwt` runs.

Behaviour of the code that the model keeps as written:
- `hash_password` uses the constant salt `"randomsalt"`, not one random salt
  per call. Equal passwords therefore get equal hashes.
- No email, password or title validation is done.
- `register` answers 400 "User exists" for every insert failure. A database
  outage is not told apart from a duplicate email.
- The bearer parser accepts an empty token and a token with further spaces.
- A missing `JWT_SECRET` is found per request. The middleware answers 500 and
  `login` panics. It is not a startup failure.
- The handlers answer failures with plain-text bodies, not with `AppError`.
  `AppError` is modelled on its own.
- There is no `update_todo` or `delete_todo` in the handlers' source.

## Model

| member | source | states |
|---|---|---|
| `Auth.FirstIndexOf` | rust_todo_api/src/auth.rs:88 | the position found holds the separator and none comes before it; no position exactly when the separator is absent |
| `Auth.SplitOnce` | rust_todo_api/src/auth.rs:88-90 | `splitn(2, ' ')` gives one part (the whole text) exactly when there is no space; otherwise two parts that rejoin around one space, the first part containing no space |
| `Auth.SplitOnceJoin` | rust_todo_api/src/auth.rs:88-90 | splitting `prefix + sep + rest` with a separator-free prefix gives back exactly `[prefix, rest]` |
| `Auth.ParseBearerJoin` | rust_todo_api/src/auth.rs:88-95 | for a space-free scheme, `scheme + " " + token` yields the token if the scheme equals `bearer` ignoring ASCII case, and nothing otherwise |
| `Auth.ParseBearerRoundTrip` | rust_todo_api/src/auth.rs:88-95 | any scheme that case-folds to `bearer`, followed by a space and any token, parses to that token |
| `Auth.ParseBearerOtherScheme` | rust_todo_api/src/auth.rs:91-95 | any other space-free scheme yields no token, whatever follows |
| `Auth.ParseBearerNoSpace` | rust_todo_api/src/auth.rs:88-90 | a value without a space yields no token |
| `Auth.ParseBearerCharacterized` | rust_todo_api/src/auth.rs:88-95 | the parser accepts exactly the values whose first six characters fold to `bearer` and whose seventh is a space, and then returns everything after the seventh character |
| `Auth.CapitalizedBearerIsBearer` | rust_todo_api/src/auth.rs:91 | `Bearer` matches the scheme under ASCII case-insensitive comparison |
| `Auth.ParseBearerEdgeTokens` | rust_todo_api/src/auth.rs:88-92 | `"Bearer "` gives the empty token and `"Bearer  x"` gives `" x"` |
| `Auth.ParseBearerMixedCase` | rust_todo_api/src/auth.rs:91 | `"bEaReR abc.def"` gives `"abc.def"` |
| `Auth.ParseBearerOtherForms` | rust_todo_api/src/auth.rs:89-95 | `"Basic ..."` and a bare `"Bearer"` give no token |
| `Auth.ExtractBearerTokenCharacterized` | rust_todo_api/src/auth.rs:86-96 | a token comes out exactly when the header is present, visible ASCII and of the bearer form; it is the text after `Bearer ` |
| `Auth.ExtractBearerTokenRejectsUnreadable` | rust_todo_api/src/auth.rs:86-87 | a missing header, or one that `to_str` refuses, gives no token |
| `Auth.ExtractBearerTokenRoundTrip` | rust_todo_api/src/auth.rs:86-95 | the octets of `scheme + " " + token`, for a bearer scheme and visible-ASCII text, give back the token |
| `Http.HeaderToStrRoundTrip` | rust_todo_api/src/auth.rs:87 | a header value reads as text `s` exactly when `s` is visible ASCII (tab or 32..126) and the value is the octets of `s` |
| `Auth.VerifyPassword` | rust_todo_api/src/auth.rs:27-36 | a stored hash that does not parse yields `false` rather than an error; `true` only when Argon2 verifies the password |
| `Auth.VerifyHashedPassword` | rust_todo_api/src/auth.rs:19-36 | a password checks against its own hash whenever Argon2 parses and accepts the hash it produced |
| `Auth.Decode` | rust_todo_api/src/auth.rs:67-75 | claims come back only if the signature checks, and then not later than `exp` plus the leeway; a checking signature within that time is always accepted |
| `Auth.IssuedClaimsNameUser` | rust_todo_api/src/auth.rs:39-43 | `sub` is the user id's text form and reads back as that id; `exp` is exactly 86400 seconds after issuance |
| `Auth.GenerateJwt` | rust_todo_api/src/auth.rs:38-54 | fails (the `expect` panic) exactly when `JWT_SECRET` is unset; otherwise it is the encoding of the issued claims under that secret |
| `Auth.IssuedTokenLifetime` | rust_todo_api/src/auth.rs:39-75 | with a checking signature, an issued token is accepted exactly until one day plus the leeway after issuance, and yields its claims |
| `Auth.ExpiredTokenRefused` | rust_todo_api/src/auth.rs:67-75 | a token past `exp` plus the leeway is refused whatever its signature |
| `Auth.Authorize` | rust_todo_api/src/auth.rs:56-84 | every refusal of the middleware is 401 or 500 |
| `Auth.AuthorizeChecksHeaderFirst` | rust_todo_api/src/auth.rs:57-65 | a missing or non-bearer header is 401 whatever the environment, token library, UUID parser or clock, so the secret is never consulted |
| `Auth.AuthorizeNeedsSecret` | rust_todo_api/src/auth.rs:62-65 | a bearer token with `JWT_SECRET` unset is 500 |
| `Auth.AuthorizeRefusesBadToken` | rust_todo_api/src/auth.rs:67-80 | a token that does not decode, or whose `sub` is not a UUID, is 401 |
| `Auth.AuthorizeForwardsSubject` | rust_todo_api/src/auth.rs:77-83 | the request is forwarded as user `u` exactly when every step succeeds and `u` is the UUID parsed from the decoded `sub` |
| `Auth.IssuedTokenAuthenticates` | rust_todo_api/src/auth.rs:38-84 | a token from `generate_jwt`, sent as `Bearer <token>` no later than its lifetime plus the leeway, passes the middleware as the same user, given a verifying signature and a `Uuid::parse_str` that agrees with the hyphenated reader wherever that reader accepts |
| `Auth.Next.Run` | rust_todo_api/src/auth.rs:83 | running `next` records the request's user-id extension and answers with the downstream handler's response |
| `Auth.AuthMiddleware` | rust_todo_api/src/auth.rs:56-84 | on a refusal it answers with the bare status and neither changes the request nor runs `next`; on success it stores exactly the parsed user id in the extensions and runs `next` once with it |
| `Uuids.ToString` | rust_todo_api/src/auth.rs:41 | `user_id.to_string()` is 36 characters with hyphens at 8, 13, 18 and 23 |
| `Uuids.ParseToString` | rust_todo_api/src/auth.rs:41 | the hyphenated reader inverts `to_string` |
| `Uuids.ToStringInjective` | rust_todo_api/src/auth.rs:41 | distinct user ids give distinct `sub` claims |
| `Errors.IntoResponse` | rust_todo_api/src/error.rs:17-27 | BadRequest is 400, Unauthorized 401, NotFound 404, Internal 500, and the body's `error` is the variant's message unchanged |
| `Errors.FromIntoResponse` | rust_todo_api/src/error.rs:18-26 | the rendered response determines the error: reading it back gives the same variant and message |
| `Errors.StatusDeterminesKind` | rust_todo_api/src/error.rs:19-22 | two errors get the same status exactly when they are the same kind |
| `Errors.FromDbError` | rust_todo_api/src/error.rs:30-34 | every database error becomes `Internal("Database error")`, whatever its content |
| `Errors.DbErrorRendersGeneric` | rust_todo_api/src/error.rs:22-33 | a converted database error renders as 500 with body error "Database error", the same for every database error |
| `Routes.FindUserByEmail` | rust_todo_api/src/routes.rs:44-50 | the row found is stored and has the email; none is found exactly when no row has it |
| `Routes.FindUniqueUser` | rust_todo_api/src/routes.rs:44-50 | with unique emails, the lookup returns the one row with that email |
| `Routes.SelectTodosOf` | rust_todo_api/src/routes.rs:86-92 | as a multiset, the selection holds each row owned by the caller as often as the table does, and no other row |
| `Routes.SelectMembership` | rust_todo_api/src/routes.rs:86-92 | a row is selected exactly when it is stored and owned by the caller |
| `Routes.SelectKeepsUniqueIds` | rust_todo_api/src/routes.rs:86-92 | the selection of a table with unique ids has unique ids |
| `Routes.ResponsesMembership` | rust_todo_api/src/routes.rs:94-102 | a response is in the list exactly when it is the mapping of some selected row |
| `Routes.Store.InsertUser` | rust_todo_api/src/routes.rs:22-29 | the insert succeeds exactly when the database is up and neither id nor email is taken; then the row is appended, otherwise the table is unchanged; key constraints are kept |
| `Routes.Store.Register` | rust_todo_api/src/routes.rs:15-38 | stores `(fresh id, email, hash_password(password))` and answers 200 "User registered"; on any insert failure the tables are unchanged and the answer is 400 "User exists" |
| `Routes.RegisterSharedPassword` | rust_todo_api/src/auth.rs:19-25 | two users registering with the same password, under different ids and emails, are both stored with the same password hash, because the salt is the constant `"randomsalt"` |
| `Routes.Store.Login` | rust_todo_api/src/routes.rs:40-60 | a failing query panics; an unknown email is `Invalid credentials`; any other answer is a token for a stored row with that email whose hash the password verifies, encoding that row's id |
| `Routes.Store.InsertTodo` | rust_todo_api/src/routes.rs:69-77 | the insert succeeds exactly when the database is up and the id is new; then the row is appended, otherwise nothing changes |
| `Routes.Store.CreateTodo` | rust_todo_api/src/routes.rs:62-80 | appends exactly one row with the caller as owner, the title verbatim, `completed` false and the answered id; users untouched; a failed insert panics and changes nothing |
| `Routes.Store.ListTodos` | rust_todo_api/src/routes.rs:82-105 | a failing query panics; otherwise 200 with a list whose members are exactly the field-for-field mappings of the caller's rows, no id listed twice |
| `Routes.LoginAcceptsStoredCredentials` | rust_todo_api/src/routes.rs:52-55 | a stored user whose hash the password verifies gets `generate_jwt` of that user's id |
| `Routes.LoginPanicsWithoutSecret` | rust_todo_api/src/routes.rs:52-55 | with `JWT_SECRET` unset, correct credentials make login panic |
| `Routes.RegisteredUserLogsIn` | rust_todo_api/src/routes.rs:19-55 | a user stored by `register` with password `p` logs in with `p` when Argon2 verifies its own hash |
| `Routes.LoginRefusesWrongPassword` | rust_todo_api/src/routes.rs:52-59 | a wrong password for a stored email is 401 "Invalid credentials" |
| `Routes.LoginHidesWhichCheckFailed` | rust_todo_api/src/routes.rs:52-59 | an unknown email and a wrong password for a known email get identical answers |
| `Routes.TodosAreOwnerScoped` | rust_todo_api/src/routes.rs:69-88 | a stored todo's id is listed for its owner and for no other user |
| `Routes.CreateThenList` | rust_todo_api/src/routes.rs:62-105 | after user A creates a todo, A's list contains its id and user B's (B ≠ A) does not |

## Left out

- Router wiring in `rust_todo_api/src/main.rs` is not part of this model: the
  middleware guarding `/todos` only, CORS, OpenAPI/Swagger, the TCP bind and
  the runtime. This is plumbing with nothing to state.
- `rust_todo_api/src/db.rs` is not part of this model. It holds the pool
  connection and the migrations, which are pure I/O.
- `update_todo` and `delete_todo` are imported in `main.rs` but not defined in
  `routes.rs`, so there is nothing to model.
- Argon2, HS256 signing and verification, and base64/JSON encoding are
  foreign libraries. They are the oracles `Argon2` and `JwtCodec`. Their
  correctness appears only as hypotheses of lemmas.
- `Validation::default()` is taken as "check `exp` with a 60-second leeway",
  the library's documented default. Algorithm checks belong to the oracle.
- `Uuid::parse_str`, `Uuid::new_v4`, `chrono::Utc::now`, the database's clock
  for `created_at` and `std::env::var` are inputs.
- `Auth.GenerateJwt`: requires a nonnegative `i64` clock value, so the
  `as usize` cast and the `+ 86400` cannot wrap. The cast of a negative
  timestamp is not modelled.
- Which octets `HeaderValue::to_str` accepts (tab and 32..126) is stated from
  the http crate's documentation. The http crate is not part of this model.
- Only the `authorization` header and the `Uuid` slot of the request
  extensions are modelled. Header-name lookup and the rest of the request
  are left out.
- The `expect` calls in `hash_password` (salt encoding, hashing) and on
  `encode` are not modelled: the oracles are total.
- The database schema is not part of this model. The model assumes a primary
  key on both ids, a unique `users.email`, `completed` defaulting to false and
  `created_at` set by the database. A foreign key from `todos.user_id` is not
  modelled.
- JSON serialisation and content-type headers are reduced to the `Body`
  variants.
- Async execution and concurrent requests are left out. Each handler runs
  alone against the tables.
- `Routes.Store.ListTodos`: returns rows in table order. Its contract states
  membership and distinct ids, not an order, because the query has no
  `ORDER BY`.
