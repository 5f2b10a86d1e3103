/**
 * The mock user store behind the `/auth/signup` and `/auth/login` routes.
 *
 * The store is a process-lifetime dictionary keyed by email. `signup` inserts a
 * record only when the email is absent; `login` is a read-only lookup that fails
 * first on an unknown email and then on a wrong password. The HTTP exceptions the
 * handlers raise are modelled as the `Err` case of `Response`.
 */
module AuthRoutes {

  /** Body of `POST /auth/signup`. */
  datatype SignupRequest = SignupRequest(name: string, email: string, password: string)

  /** Body of `POST /auth/login`. */
  datatype LoginRequest = LoginRequest(email: string, password: string)

  /** What the store keeps per email: the name and the plaintext password. */
  datatype UserRecord = UserRecord(name: string, password: string)

  /** A handler's outcome: a success body, or the status and detail of an HTTP error. */
  datatype Response =
    | Ok(message: string, user: string)
    | Err(status: int, detail: string)

  type Store = map<string, UserRecord>

  const SignupSuccess: string := "\U{2705} Signup successful"
  const LoginSuccess: string := "\U{2705} Login successful"
  const UserExists: string := "User already exists"
  const UserNotFound: string := "User not found"
  const IncorrectPassword: string := "Incorrect password"

  /** The store after a signup together with the response the handler gives. */
  datatype SignupOutcome = SignupOutcome(store: Store, response: Response)

  /**
   * The signup handler as a function of the store before the call: an email that
   * is already registered is refused with 400 and nothing changes; otherwise the
   * request's name and password are recorded under its email, and no other entry
   * is touched.
   */
  function SignupStep(db: Store, req: SignupRequest): (r: SignupOutcome)
    // the duplicate-email path, and only it, is the 400 error, which changes nothing
    ensures r.response == Err(400, UserExists) <==> req.email in db
    ensures req.email in db ==> r.store == db
    // every other outcome is the success body carrying the request's name
    ensures r.response.Ok? <==> req.email !in db
    ensures r.response.Ok? ==> r.response == Ok(SignupSuccess, req.name)
    // a new email is recorded with exactly the request's name and password
    ensures req.email !in db ==> req.email in r.store && r.store[req.email] == UserRecord(req.name, req.password)
    // only the request's email can be added, and no existing record is replaced
    ensures r.store.Keys == db.Keys + {req.email}
    ensures forall e :: e in db ==> r.store[e] == db[e]
  {
    if req.email in db then
      SignupOutcome(db, Err(400, UserExists))
    else
      SignupOutcome(db[req.email := UserRecord(req.name, req.password)], Ok(SignupSuccess, req.name))
  }

  /**
   * The login handler as a function of the store: an unknown email is 404 whatever
   * the password, a known email with a different password is 401, and a known email
   * with the exact stored password yields the stored name.
   */
  function LoginStep(db: Store, req: LoginRequest): (r: Response)
    ensures r == Err(404, UserNotFound) <==> req.email !in db
    ensures r == Err(401, IncorrectPassword) <==> req.email in db && db[req.email].password != req.password
    ensures r.Ok? <==> req.email in db && db[req.email].password == req.password
    ensures r.Ok? ==> r == Ok(LoginSuccess, db[req.email].name)
  {
    if req.email !in db then
      Err(404, UserNotFound)
    else if db[req.email].password != req.password then
      Err(401, IncorrectPassword)
    else
      Ok(LoginSuccess, db[req.email].name)
  }

  /** The module-level `users_db` dictionary and the two handlers that use it. */
  class UserStore {
    var users: Store

    /** The store starts empty. */
    constructor ()
      ensures users == map[]
    {
      users := map[];
    }

    /** Registers a new user, or refuses a duplicate email leaving the store as it was. */
    method Signup(req: SignupRequest) returns (resp: Response)
      modifies this
      ensures SignupOutcome(users, resp) == SignupStep(old(users), req)
      ensures req.email in old(users) ==> resp == Err(400, UserExists) && users == old(users)
      ensures req.email !in old(users) ==> resp == Ok(SignupSuccess, req.name)
      ensures req.email in users && users[req.email] == (if req.email in old(users) then old(users)[req.email] else UserRecord(req.name, req.password))
      ensures users.Keys == old(users).Keys + {req.email}
      ensures forall e :: e in old(users) ==> users[e] == old(users)[e]
    {
      if req.email in users {
        return Err(400, UserExists);
      }
      users := users[req.email := UserRecord(req.name, req.password)];
      return Ok(SignupSuccess, req.name);
    }

    /** Checks credentials against the store; it has no `modifies` clause, so the store is left alone. */
    method Login(req: LoginRequest) returns (resp: Response)
      ensures resp == LoginStep(users, req)
      ensures req.email !in users ==> resp == Err(404, UserNotFound)
      ensures req.email in users && users[req.email].password != req.password ==> resp == Err(401, IncorrectPassword)
      ensures req.email in users && users[req.email].password == req.password ==> resp == Ok(LoginSuccess, users[req.email].name)
    {
      if req.email !in users {
        return Err(404, UserNotFound);
      }
      var record := users[req.email];
      if record.password != req.password {
        return Err(401, IncorrectPassword);
      }
      return Ok(LoginSuccess, record.name);
    }
  }
}
