/** The authentication controller: the three endpoints under `/api/v1/auth`. A
    request body is validated first (a broken constraint goes to the application-wide
    validation handler); the service then runs, and each endpoint turns the exception
    it catches into its own status and message. */
module AuthEndpoints {
  import opened Wrappers
  import Text
  import Responses
  import opened ErrorHandling
  import opened Requests
  import Entities
  import Users
  import Auth

  const Ok: int := 200

  const LoginSuccessful: string := "Login successful"
  const IncorrectCredentials: string := "Phone number or password is incorrect"
  const LoginRejected: string := "Login failed. Please check your credentials."
  const LoginFailed: string := "Login failed"
  const TokenRefreshed: string := "Token refreshed successfully"
  const RegistrationSuccessful: string := "Registration successful"
  const PhoneAlreadyRegistered: string :=
    "This phone number is already registered. Please use a different number or try logging in."
  const RegistrationFailed: string := "Registration failed. Please try again later."

  /** What a controller catches: a runtime exception with its (possibly null) message,
      or any other exception. */
  datatype Thrown = RuntimeFailure(message: Option<string>) | OtherFailure

  /** The service's errors are runtime exceptions carrying their message. */
  function Caught(e: Auth.AuthError): Thrown {
    RuntimeFailure(Some(Auth.Message(e)))
  }

  /** The envelope agrees with the status: consistent, and an error carries the status
      as its return code. */
  predicate Coherent<T>(r: Reply<T>) {
    Responses.Consistent(r.body) && (r.status == Ok <==> r.body.success)
    && (!r.body.success ==> r.body.error.value.returnCode == r.status)
  }

  /** The login endpoint's test for a wrong password or phone number: the exact
      message, or one containing the singular phrase. */
  predicate NamesBadCredentials(m: Option<string>) {
    m == Some("Invalid credentials") || (m.Some? && Text.Contains(m.value, "Invalid credential"))
  }

  /** `login`'s handling of the service's outcome. */
  function LoginReply(outcome: Result<Auth.LoginResponse, Thrown>): (r: Reply<Auth.LoginResponse>)
    ensures Coherent(r)
    ensures r.status in {Ok, BadRequest, Unauthorized, InternalServerError}
    ensures r.status == Ok <==> outcome.Success?
    ensures outcome.Success? ==> r.body.data == Some(outcome.value) && r.body.message == Some(LoginSuccessful)
    ensures r.status == Unauthorized <==> outcome.Failure? && outcome.error.RuntimeFailure? && NamesBadCredentials(outcome.error.message)
    ensures r.status == Unauthorized ==> r.body.message == Some(IncorrectCredentials)
    ensures r.status == InternalServerError <==> outcome == Failure(OtherFailure)
    ensures r.status == InternalServerError ==> r.body.message == Some(GenericMessage)
    ensures r.status == BadRequest ==>
              var m := outcome.error.message;
              r.body.message == Some(if m.Some? && Text.Contains(m.value, "already exists") then LoginRejected else m.GetOr(LoginFailed))
  {
    match outcome
    case Success(resp) => Reply(Ok, Responses.Succeeded(Some(resp), Some(LoginSuccessful)))
    case Failure(OtherFailure) => Reply(InternalServerError, Responses.Failed(Some(GenericMessage), InternalServerError))
    case Failure(RuntimeFailure(m)) =>
      if NamesBadCredentials(m) then Reply(Unauthorized, Responses.Failed(Some(IncorrectCredentials), Unauthorized))
      else if m.Some? && Text.Contains(m.value, "already exists") then Reply(BadRequest, Responses.Failed(Some(LoginRejected), BadRequest))
      else Reply(BadRequest, Responses.Failed(Some(m.GetOr(LoginFailed)), BadRequest))
  }

  /** The exact-message test is subsumed by the phrase test that follows it. */
  lemma ExactCredentialsTestRedundant(m: Option<string>)
    ensures NamesBadCredentials(m) <==> m.Some? && Text.Contains(m.value, "Invalid credential")
  {
    if m == Some("Invalid credentials") {
      Text.ContainsInfix("", "Invalid credential", "s");
      assert "" + "Invalid credential" + "s" == "Invalid credentials";
    }
  }

  /** A text without an 'x' does not say "already exists". */
  lemma NoAlreadyExists(s: string)
    requires forall k :: 0 <= k < |s| ==> s[k] != 'x'
    ensures !Text.Contains(s, "already exists")
  {
    assert 'x' !in s;
    Text.MissingCharNotContained(s, "already exists", 'x');
  }

  /** Whatever the service throws, the login endpoint never answers with a signup
      message: no reply says "already exists". */
  lemma LoginNeverSaysAlreadyExists(outcome: Result<Auth.LoginResponse, Thrown>)
    ensures var r := LoginReply(outcome);
            r.body.message.Some? && !Text.Contains(r.body.message.value, "already exists")
  {
    match outcome
    case Success(_) => NoAlreadyExists(LoginSuccessful);
    case Failure(OtherFailure) => NoAlreadyExists(GenericMessage);
    case Failure(RuntimeFailure(m)) =>
      if NamesBadCredentials(m) {
        NoAlreadyExists(IncorrectCredentials);
      } else if m.Some? && Text.Contains(m.value, "already exists") {
        NoAlreadyExists(LoginRejected);
      } else if m.None? {
        NoAlreadyExists(LoginFailed);
      }
  }

  /** `refreshToken`'s handling: any runtime exception is 401 with its own message. */
  function RefreshReply(outcome: Result<Auth.LoginResponse, Thrown>): (r: Reply<Auth.LoginResponse>)
    ensures Coherent(r)
    ensures r.status in {Ok, Unauthorized, InternalServerError}
    ensures r.status == Ok <==> outcome.Success?
    ensures outcome.Success? ==> r.body.data == Some(outcome.value) && r.body.message == Some(TokenRefreshed)
    ensures r.status == Unauthorized <==> outcome.Failure? && outcome.error.RuntimeFailure?
    ensures r.status == Unauthorized ==> r.body.message == outcome.error.message
    ensures r.status == InternalServerError ==> r.body.message == Some(GenericMessage)
  {
    match outcome
    case Success(resp) => Reply(Ok, Responses.Succeeded(Some(resp), Some(TokenRefreshed)))
    case Failure(OtherFailure) => Reply(InternalServerError, Responses.Failed(Some(GenericMessage), InternalServerError))
    case Failure(RuntimeFailure(m)) => Reply(Unauthorized, Responses.Failed(m, Unauthorized))
  }

  /** `signup`'s handling: the exact duplicate-phone message is 409 with a friendlier
      text; any other runtime exception is 400 with its own message. */
  function SignupReply(outcome: Result<Auth.LoginResponse, Thrown>): (r: Reply<Auth.LoginResponse>)
    ensures Coherent(r)
    ensures r.status in {Ok, BadRequest, Conflict, InternalServerError}
    ensures r.status == Ok <==> outcome.Success?
    ensures outcome.Success? ==> r.body.data == Some(outcome.value) && r.body.message == Some(RegistrationSuccessful)
    ensures r.status == Conflict <==> outcome == Failure(RuntimeFailure(Some(Auth.Message(Auth.PhoneNumberAlreadyExists))))
    ensures r.status == Conflict ==> r.body.message == Some(PhoneAlreadyRegistered)
    ensures r.status == BadRequest ==> outcome.Failure? && outcome.error.RuntimeFailure? && r.body.message == outcome.error.message
    ensures r.status == InternalServerError <==> outcome == Failure(OtherFailure)
    ensures r.status == InternalServerError ==> r.body.message == Some(RegistrationFailed)
  {
    match outcome
    case Success(resp) => Reply(Ok, Responses.Succeeded(Some(resp), Some(RegistrationSuccessful)))
    case Failure(OtherFailure) => Reply(InternalServerError, Responses.Failed(Some(RegistrationFailed), InternalServerError))
    case Failure(RuntimeFailure(m)) =>
      if m == Some("Phone number already exists") then Reply(Conflict, Responses.Failed(Some(PhoneAlreadyRegistered), Conflict))
      else Reply(BadRequest, Responses.Failed(m, BadRequest))
  }

  // The endpoints: validation, then the service, then the controller's handling.

  /** `POST /login`. An invalid body is 400 from the validation handler; a valid one is
      200 exactly when the phone number and password authenticate, and 401 with the
      fixed text otherwise. Only a 200 changes the database. */
  function Login(env: Auth.Env, db: Entities.Db, req: LoginRequest, pick: nat, now: int)
    : (r: (Entities.Db, Reply<Auth.LoginResponse>))
    ensures Coherent(r.1)
    ensures r.1.status == BadRequest <==> !LoginAcceptable(req)
    ensures r.1.status == Ok <==>
      LoginAcceptable(req) && Users.Authenticate(env.hasher, db.users, req.phoneNumber.value, req.password.value).Some?
    ensures r.1.status == Unauthorized <==>
      LoginAcceptable(req) && Users.Authenticate(env.hasher, db.users, req.phoneNumber.value, req.password.value).None?
    ensures r.1.status == Unauthorized ==> r.1.body.message == Some(IncorrectCredentials)
    ensures r.1.status != Ok ==> r.0 == db
    ensures r.1.status == Ok ==>
      && r.1.body.data.Some?
      && Auth.Login(env, db, req.phoneNumber.value, req.password.value, req.deviceInfo, now)
           == Success((r.0, r.1.body.data.value))
  {
    LoginValidIff(req);
    var errors := ValidateLogin(req);
    if errors != [] then (db, HandleValidationErrors(errors, pick))
    else
      match Auth.Login(env, db, req.phoneNumber.value, req.password.value, req.deviceInfo, now)
      case Success((db', resp)) => (db', LoginReply(Success(resp)))
      case Failure(e) => (db, LoginReply(Failure(Caught(e))))
  }

  /** `POST /refresh-token` on the token the body carries. Every failure of the service
      is 401 with the service's own message, and leaves the database unchanged. */
  function Refresh(env: Auth.Env, db: Entities.Db, token: string, now: int)
    : (r: (Entities.Db, Reply<Auth.LoginResponse>))
    requires Entities.SessionsOwned(db)
    ensures Coherent(r.1)
    ensures r.1.status in {Ok, Unauthorized}
    ensures r.1.status == Ok <==> Auth.Refresh(env, db, token, now).Success?
    ensures r.1.status == Ok ==>
      && r.1.body.data.Some?
      && Auth.Refresh(env, db, token, now) == Success((r.0, r.1.body.data.value))
    ensures r.1.status == Unauthorized ==>
      && r.0 == db
      && r.1.body.message == Some(Auth.Message(Auth.Refresh(env, db, token, now).error))
  {
    match Auth.Refresh(env, db, token, now)
    case Success((db', resp)) => (db', RefreshReply(Success(resp)))
    case Failure(e) => (db, RefreshReply(Failure(Caught(e))))
  }

  /** `POST /signup`. An invalid body is 400; a valid one is 409 with the friendlier text
      exactly when the phone number is taken, and 200 otherwise. Only a 200 changes the
      database. */
  function Signup(env: Auth.Env, db: Entities.Db, req: RegisterRequest, pick: nat, now: int)
    : (r: (Entities.Db, Reply<Auth.LoginResponse>))
    ensures Coherent(r.1)
    ensures r.1.status == BadRequest <==> !RegisterAcceptable(req)
    ensures r.1.status == Conflict <==>
      RegisterAcceptable(req) && exists j :: 0 <= j < |db.users| && db.users[j].phoneNumber == req.phoneNumber.value
    ensures r.1.status == Conflict ==> r.1.body.message == Some(PhoneAlreadyRegistered)
    ensures r.1.status in {Ok, BadRequest, Conflict}
    ensures r.1.status != Ok ==> r.0 == db
    ensures r.1.status == Ok ==>
      && r.1.body.data.Some?
      && Auth.Register(env, db, req.phoneNumber.value, req.password.value, req.userType, req.deviceInfo, now)
           == Success((r.0, r.1.body.data.value))
  {
    RegisterValidIff(req);
    var errors := ValidateRegister(req);
    if errors != [] then (db, HandleValidationErrors(errors, pick))
    else
      match Auth.Register(env, db, req.phoneNumber.value, req.password.value, req.userType, req.deviceInfo, now)
      case Success((db', resp)) => (db', SignupReply(Success(resp)))
      case Failure(e) => (db, SignupReply(Failure(Caught(e))))
  }

  /** A signup answered 200 opens an account that logs in with the same phone number
      and password. */
  lemma SignupThenLogin(env: Auth.Env, db: Entities.Db, req: RegisterRequest, p1: nat, p2: nat, t0: int, t1: int)
    requires Users.SoundHasher(env.hasher) && Entities.Wf(db)
    requires Signup(env, db, req, p1, t0).1.status == Ok
    ensures Login(env, Signup(env, db, req, p1, t0).0, AsLogin(req), p2, t1).1.status == Ok
  {
    RegisterValidIff(req);
    LoginValidIff(AsLogin(req));
    Auth.RegisterThenLogin(env, db, req.phoneNumber.value, req.password.value, req.userType, req.deviceInfo,
                           req.deviceInfo, t0, t1);
  }

  /** Signing up the same body twice is refused the second time with 409. */
  lemma SignupTwiceConflicts(env: Auth.Env, db: Entities.Db, req: RegisterRequest, p1: nat, p2: nat, t0: int, t1: int)
    requires Signup(env, db, req, p1, t0).1.status == Ok
    ensures Signup(env, Signup(env, db, req, p1, t0).0, req, p2, t1).1.status == Conflict
  {
    RegisterValidIff(req);
    Auth.RegisterTwice(env, db, req.phoneNumber.value, req.password.value, req.password.value, req.userType,
                       req.userType, req.deviceInfo, req.deviceInfo, t0, t1);
  }
}
