// The signup request handler (src/controllers/auth.controllers.js).
//
// `signup` is a linear chain: validate the body, call `createUser`, sign a
// token for the new user, set the `token` cookie and answer 201. Its effects
// are returned as one value: the status and body sent, the cookie set, the
// claims handed to the token signer and the argument `createUser` was called
// with. The outcome of `createUser`, the token signer and NODE_ENV are inputs.
module AuthControllers {
  import opened Common
  import AuthService

  /** The claims put into the session token. */
  datatype Claims = Claims(id: int, email: string, role: string)

  /** A cookie set on the response; `maxAge` is in milliseconds. */
  datatype Cookie = Cookie(name: string, value: string, httpOnly: bool, secure: bool, maxAge: int)

  /** The user object in the 201 body. */
  datatype UserSummary = UserSummary(id: int, name: string, email: string, role: string)

  datatype Body =
    | ValidationError(details: seq<FieldError>)      // { error: 'Validation error', details }
    | Registered(message: string, user: UserSummary)  // { message, user }
    | ErrorOnly(error: string)                        // { error }
    | ErrorMessage(error: string, message: string)    // { error, message }

  /** What `signup` did. */
  datatype SignupResponse = SignupResponse(
    status: int,
    body: Body,
    cookie: Option<Cookie>,
    signed: Option<Claims>,                    // the claims passed to the token signer
    createCall: Option<AuthService.NewUser>)   // the argument passed to createUser

  /** jsonwebtoken's `sign` with the server's secret and a one-hour expiry, uninterpreted; `None` when it throws. */
  type Signer = Claims -> Option<string>

  const TOKEN_COOKIE_MAX_AGE := 24 * 60 * 60 * 1000

  /** `jwttoken.sign`: a failure of the library is reported as 'Failed to authenticate token'. */
  function SignToken(sign: Signer, claims: Claims): (r: Result<string, Error>)
    ensures r.Ok? <==> sign(claims).Some?
    ensures r.Ok? ==> r.value == sign(claims).value
    ensures r.Err? ==> r.error == Raised("Failed to authenticate token")
  {
    match sign(claims)
    case Some(token) => Ok(token)
    case None => Err(Raised("Failed to authenticate token"))
  }

  function ClaimsOf(u: AuthService.PublicUser): Claims {
    Claims(u.id, u.email, u.role)
  }

  /** The catch block of `signup`: 'User already exists' is a 409, anything else a 500 carrying the message. */
  function SignupFailure(e: Error): (int, Body) {
    if e.message == AuthService.USER_ALREADY_EXISTS then (409, ErrorOnly("Email already exists"))
    else (500, ErrorMessage("Internal server error", e.message))
  }

  /** POST /api/auth/signup. */
  function Signup(validation: Validation<AuthService.NewUser>, created: Result<AuthService.PublicUser, Error>,
                  sign: Signer, nodeEnv: string): (r: SignupResponse)
    ensures validation.Failed? ==> r == SignupResponse(400, ValidationError(validation.details), None, None, None)
    ensures r.createCall.Some? <==> validation.Passed?
    ensures validation.Passed? ==> r.createCall == Some(validation.data)
    ensures r.signed.Some? <==> validation.Passed? && created.Ok?
    ensures r.signed.Some? ==>
      r.signed.value == Claims(created.value.id, created.value.email, created.value.role)
    ensures r.status == 201 <==> validation.Passed? && created.Ok? && sign(r.signed.value).Some?
    ensures r.cookie.Some? <==> r.status == 201
    ensures r.status == 201 ==>
      && r.body == Registered("User registered successfully",
                              UserSummary(created.value.id, created.value.name, created.value.email, created.value.role))
      && r.cookie.value.name == "token"
      && r.cookie.value.value == sign(r.signed.value).value
      && r.cookie.value.httpOnly
      && (r.cookie.value.secure <==> nodeEnv == "production")
      && r.cookie.value.maxAge == 86_400_000
    ensures validation.Passed? && created.Err? && created.error.message == AuthService.USER_ALREADY_EXISTS ==>
      r.status == 409 && r.body == ErrorOnly("Email already exists")
    ensures validation.Passed? && created.Err? && created.error.message != AuthService.USER_ALREADY_EXISTS ==>
      r.status == 500 && r.body == ErrorMessage("Internal server error", created.error.message)
    ensures validation.Passed? && created.Ok? && sign(r.signed.value).None? ==>
      r.status == 500 && r.body == ErrorMessage("Internal server error", "Failed to authenticate token")
  {
    match validation
    case Failed(details) => SignupResponse(400, ValidationError(details), None, None, None)
    case Passed(input) =>
      match created
      case Err(e) =>
        var (status, body) := SignupFailure(e);
        SignupResponse(status, body, None, None, Some(input))
      case Ok(user) =>
        var claims := ClaimsOf(user);
        match SignToken(sign, claims)
        case Err(e) =>
          var (status, body) := SignupFailure(e);
          SignupResponse(status, body, None, Some(claims), Some(input))
        case Ok(token) =>
          var cookie := Cookie("token", token, true, nodeEnv == "production", TOKEN_COOKIE_MAX_AGE);
          var summary := UserSummary(user.id, user.name, user.email, user.role);
          SignupResponse(201, Registered("User registered successfully", summary), Some(cookie), Some(claims), Some(input))
  }
}
