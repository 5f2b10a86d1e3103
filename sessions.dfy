/**
 * Sequences of calls to the two auth handlers against the one shared store.
 *
 * The store lives as long as the process, so what a login answers depends on
 * every signup before it. `Run` replays a sequence of handler calls from a given
 * store; the lemmas below state what holds after any such history: records are
 * never deleted or overwritten, logins leave no trace in the store, a user who
 * signed up can log in with the same credentials afterwards, and a second signup
 * for a registered email is always refused.
 */
module AuthSessions {
  import opened AuthRoutes

  /** One request to either handler. */
  datatype Call =
    | SignupCall(signup: SignupRequest)
    | LoginCall(login: LoginRequest)

  /** The store after a sequence of calls and the response given to each call, in order. */
  datatype Session = Session(store: Store, responses: seq<Response>)

  /** The emails of the signup requests among `calls`. */
  function SignupEmails(calls: seq<Call>): set<string>
  {
    if calls == [] then {}
    else (if calls[0].SignupCall? then {calls[0].signup.email} else {}) + SignupEmails(calls[1..])
  }

  /** The signup requests among `calls`, in order. */
  function SignupsOf(calls: seq<Call>): seq<Call>
  {
    if calls == [] then []
    else (if calls[0].SignupCall? then [calls[0]] else []) + SignupsOf(calls[1..])
  }

  /** One handler call against the store `db`: the store it leaves and the response it gives. */
  function Handle(db: Store, c: Call): SignupOutcome
  {
    match c
    case SignupCall(req) => SignupStep(db, req)
    case LoginCall(req) => SignupOutcome(db, LoginStep(db, req))
  }

  /** Handles `calls` one after the other, starting from the store `db`. */
  function Run(db: Store, calls: seq<Call>): (r: Session)
    ensures |r.responses| == |calls|
    decreases |calls|
  {
    if calls == [] then
      Session(db, [])
    else
      var step := Handle(db, calls[0]);
      var rest := Run(step.store, calls[1..]);
      Session(rest.store, [step.response] + rest.responses)
  }

  /** The emails registered after a sequence of calls are exactly those before plus those signed up. */
  lemma {:induction false} RunKeys(db: Store, calls: seq<Call>)
    ensures Run(db, calls).store.Keys == db.Keys + SignupEmails(calls)
    decreases |calls|
  {
    if calls != [] {
      RunKeys(Handle(db, calls[0]).store, calls[1..]);
    }
  }

  /** No sequence of calls deletes or replaces a record that is already in the store. */
  lemma {:induction false} RunKeepsRecords(db: Store, calls: seq<Call>)
    ensures forall e :: e in db ==> e in Run(db, calls).store && Run(db, calls).store[e] == db[e]
    decreases |calls|
  {
    if calls != [] {
      RunKeepsRecords(Handle(db, calls[0]).store, calls[1..]);
    }
  }

  /** Handling `a + b` is handling `a` and then handling `b` from the store `a` left. */
  lemma {:induction false} RunAppend(db: Store, a: seq<Call>, b: seq<Call>)
    ensures Run(db, a + b).store == Run(Run(db, a).store, b).store
    ensures Run(db, a + b).responses == Run(db, a).responses + Run(Run(db, a).store, b).responses
    decreases |a|
  {
    if a == [] {
      assert a + b == b;
    } else {
      var step := Handle(db, a[0]);
      var left := Run(step.store, a[1..]);
      var right := Run(left.store, b);
      var whole := Run(step.store, a[1..] + b);
      assert (a + b)[0] == a[0];
      assert (a + b)[1..] == a[1..] + b;
      assert Run(db, a + b) == Session(whole.store, [step.response] + whole.responses);
      RunAppend(step.store, a[1..], b);
      assert [step.response] + (left.responses + right.responses) == ([step.response] + left.responses) + right.responses;
    }
  }

  /** Logins never change the store, whatever they answer: dropping them leaves the final store as it was. */
  lemma {:induction false} LoginsLeaveStore(db: Store, calls: seq<Call>)
    ensures Run(db, calls).store == Run(db, SignupsOf(calls)).store
    decreases |calls|
  {
    if calls != [] {
      match calls[0]
      case SignupCall(req) =>
        assert SignupsOf(calls) == [calls[0]] + SignupsOf(calls[1..]);
        assert ([calls[0]] + SignupsOf(calls[1..]))[1..] == SignupsOf(calls[1..]);
        LoginsLeaveStore(SignupStep(db, req).store, calls[1..]);
      case LoginCall(_) =>
        assert SignupsOf(calls) == SignupsOf(calls[1..]);
        LoginsLeaveStore(db, calls[1..]);
    }
  }

  /**
   * A signup for a new email succeeds with the request's name, and a login with
   * that email and password after any later history answers with the same name.
   */
  lemma SignupThenLogin(db: Store, req: SignupRequest, later: seq<Call>)
    requires req.email !in db
    ensures Run(db, [SignupCall(req)] + later + [LoginCall(LoginRequest(req.email, req.password))]).responses[0]
            == Ok(SignupSuccess, req.name)
    ensures Run(db, [SignupCall(req)] + later + [LoginCall(LoginRequest(req.email, req.password))]).responses[|later| + 1]
            == Ok(LoginSuccess, req.name)
  {
    var history := [SignupCall(req)] + later;
    var login := LoginRequest(req.email, req.password);
    var registered := SignupStep(db, req).store;
    assert history[1..] == later;
    RunKeepsRecords(registered, later);
    var before := Run(db, history).store;
    assert before[req.email] == UserRecord(req.name, req.password);
    RunAppend(db, history, [LoginCall(login)]);
    assert Run(before, [LoginCall(login)]).responses == [LoginStep(before, login)];
  }

  /**
   * Once an email is registered, either from the start or by a signup in the
   * history, any further signup for it is refused with 400 and changes nothing.
   */
  lemma DuplicateSignupRejected(db: Store, history: seq<Call>, req: SignupRequest)
    requires req.email in db.Keys + SignupEmails(history)
    ensures Run(db, history + [SignupCall(req)]).responses[|history|] == Err(400, UserExists)
    ensures Run(db, history + [SignupCall(req)]).store == Run(db, history).store
  {
    var before := Run(db, history).store;
    RunKeys(db, history);
    RunAppend(db, history, [SignupCall(req)]);
    assert Run(before, [SignupCall(req)]).responses == [SignupStep(before, req).response];
  }

  /** A concrete session: Ana signs up, logs in with the right password, then with a wrong one. */
  lemma ExampleSession()
    ensures Run(map[], [
        SignupCall(SignupRequest("Ana", "ana@x.com", "p1")),
        LoginCall(LoginRequest("ana@x.com", "p1")),
        LoginCall(LoginRequest("ana@x.com", "wrong"))
      ]).responses
      == [Ok(SignupSuccess, "Ana"), Ok(LoginSuccess, "Ana"), Err(401, IncorrectPassword)]
  {
  }
}
