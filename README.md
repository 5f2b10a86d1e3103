# Mock user store of the voice-transcription backend

The backend mounts two authentication routes, `POST /auth/signup` and
`POST /auth/login`, under `/auth`. They share one module-level dictionary,
`users_db`. It maps an email to a record holding a name and a plaintext password,
and it lives as long as the process.

- `signup` inserts a record only when the email is absent. Otherwise it raises
  HTTP 400 "User already exists".
- `login` only reads the dictionary. It raises 404 "User not found" for an unknown
  email, then 401 "Incorrect password" when the password differs. Otherwise it
  returns the stored name.

This project models that store in Dafny:

- `auth_routes.dfy` (module `AuthRoutes`) defines the request and record types.
  It models each handler as a pure function of the store (`SignupStep`,
  `LoginStep`). It also defines a class `UserStore` whose `users` map field plays
  the part of `users_db`. `UserStore.Signup` updates that field in place.
  `UserStore.Login` has no `modifies` clause and only reads it.
- `sessions.dfy` (module `AuthSessions`) replays any sequence of handler calls
  against one store (`Run`). Its lemmas cover what holds after any such history:
  - records are never deleted or overwritten;
  - logins leave no trace in the store;
  - a user who signed up can later log in with the same credentials and gets
    the same name back;
  - a repeated signup is always refused.

The HTTP exceptions are modelled as `Response.Err(status, detail)`. A success body
`{"message": ..., "user": ...}` is modelled as `Response.Ok(message, user)`. The
messages are kept verbatim, including the leading check-mark character.

## Model

| member | source | states |
|---|---|---|
| AuthRoutes.SignupStep | fastapi_backend/routes/auth_routes.py:19-27 | 400 "User already exists" exactly when the email is registered, and then the store is unchanged; otherwise success with the request's name, the email mapped to exactly the request's name and password, keys grow by that email only, and no existing record changes |
| AuthRoutes.LoginStep | fastapi_backend/routes/auth_routes.py:30-36 | 404 "User not found" exactly when the email is absent (whatever the password); 401 "Incorrect password" exactly when present with a different stored password; success exactly when the password matches, returning the stored name |
| AuthRoutes.UserStore.constructor | fastapi_backend/routes/auth_routes.py:6-7 | the store starts as the empty map |
| AuthRoutes.UserStore.Signup | fastapi_backend/routes/auth_routes.py:19-27 | the new store and response are those of `SignupStep` on the old store: a duplicate email gives 400 and leaves the store as it was, a new one is inserted with the request's record and success carries the request's name; every previous record is kept |
| AuthRoutes.UserStore.Login | fastapi_backend/routes/auth_routes.py:30-36 | changes nothing (no `modifies`); gives 404 for an unknown email, 401 for a wrong password, otherwise success with the stored name, in that check order |
| AuthSessions.Run | fastapi_backend/routes/auth_routes.py:19-36 | handling a sequence of calls on the shared store gives exactly one response per call |
| AuthSessions.RunKeys | fastapi_backend/routes/auth_routes.py:21-26 | after any sequence of calls, the registered emails are exactly the initial ones plus the emails of the signup requests |
| AuthSessions.RunKeepsRecords | fastapi_backend/routes/auth_routes.py:21-26 | no sequence of calls deletes or replaces a record already in the store |
| AuthSessions.RunAppend | fastapi_backend/routes/auth_routes.py:7-36 | handling `a + b` equals handling `a` and then `b` from the store `a` left, with the responses concatenated |
| AuthSessions.LoginsLeaveStore | fastapi_backend/routes/auth_routes.py:31-36 | logins never change the store whatever they answer: removing every login from a history leaves the final store the same |
| AuthSessions.SignupThenLogin | fastapi_backend/routes/auth_routes.py:19-36 | a signup for a new email succeeds with the request's name, and a login with that email and password after any later calls returns that same name |
| AuthSessions.DuplicateSignupRejected | fastapi_backend/routes/auth_routes.py:21-22 | once an email is registered (initially or by any earlier signup), a further signup for it gets 400 "User already exists" and leaves the store unchanged |
| AuthSessions.ExampleSession | fastapi_backend/routes/auth_routes.py:19-36 | from an empty store: signup of Ana, login with "p1" and login with "wrong" answer signup success "Ana", login success "Ana" and 401 "Incorrect password" |

## Left out

- The `/transcribe` handler (fastapi_backend/main.py:34-48): it is a call into an external speech model plus temporary-file I/O, with no logic of its own to verify.
- Startup: loading `.env`, the `OPENAI_API_KEY` check, loading the model, CORS middleware and router mounting (fastapi_backend/main.py:9-32). These are environment and framework setup.
- The `GET /` greeting (fastapi_backend/main.py:51-53): it returns a constant.
- Request parsing and validation by pydantic, `HTTPException` propagation and JSON serialisation. Malformed bodies never reach the handlers, and an exception is modelled as an `Err` response value.
- Concurrent requests on the shared dictionary: the handlers are modelled as sequential calls on one store object.
