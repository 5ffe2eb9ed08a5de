/** users.go: the decisions of the registration handler `handlerCreateUser` and
    of the login handler `handleLogin`.

    The password hasher, hash check and token minter of the `auth` package and
    the user table are collaborators whose code is not part of this model: each
    is a function parameter giving its result for the arguments it is called
    with. A handler is a function from the decoded request and those
    collaborators to an `Outcome`: the collaborator calls it makes, in order,
    and the replies it writes, in order. */
module Users {
  import opened Wrappers
  import opened HttpStatus

  /** `time.Duration` (nanoseconds) is a 64-bit signed integer, and so is Go's
      `int` on the 64-bit platforms the server is built for; on a 32-bit
      platform `expires_in_seconds` is narrower still. */
  const MinInt64: int := -0x8000_0000_0000_0000
  const MaxInt64: int := 0x7fff_ffff_ffff_ffff
  type Int64 = x: int | MinInt64 <= x <= MaxInt64

  /** Go's two's-complement wrap-around of a product that overflows 64 bits. */
  function Wrap64(x: int): (r: Int64)
    ensures MinInt64 <= x <= MaxInt64 ==> r == x
    ensures (r - x) % 0x1_0000_0000_0000_0000 == 0
  {
    (x - MinInt64) % 0x1_0000_0000_0000_0000 + MinInt64
  }

  /** `time.Second`, in nanoseconds. */
  const Second: int := 1_000_000_000

  /** The longest and the default access-token lifetime: one hour. */
  const MaxLifetimeSeconds: int := 3600
  const MaxLifetime: Int64 := 3600 * 1_000_000_000

  type Uuid = nat
  type Timestamp = int

  /** A row of the user table. */
  datatype User = User(id: Uuid, createdAt: Timestamp, updatedAt: Timestamp, email: string, hashedPassword: string)

  datatype CreateUserRequest = CreateUserRequest(email: string, password: string)
  datatype CreateUserParams = CreateUserParams(email: string, hashedPassword: string)

  datatype LoginRequest = LoginRequest(email: string, password: string, expiresInSeconds: Int64)

  /** The body of a successful login: the user's public fields and the token.
      It has no field for the password hash. */
  datatype LoginResponse = LoginResponse(id: Uuid, createdAt: Timestamp, updatedAt: Timestamp, email: string, token: string)

  /** `auth.CheckPasswordHash` returns whether the password matches and whether
      the comparison itself failed. */
  datatype Comparison = Comparison(matched: bool, failed: bool)

  datatype Reply =
    | ErrorReply(status: nat, message: string)
    | UserReply(status: nat, user: User)
    | LoginReply(status: nat, body: LoginResponse)

  /** A call to a collaborator, with its arguments. */
  datatype Call =
    | HashPassword(password: string)
    | CreateUser(params: CreateUserParams)
    | GetUserByEmail(email: string)
    | CheckPasswordHash(password: string, hash: string)
    | MakeJWT(userId: Uuid, secret: string, expiresIn: Int64)

  datatype Outcome = Outcome(calls: seq<Call>, replies: seq<Reply>)

  // ---------------------------------------------------------------------------
  // Registration

  /** `handlerCreateUser`. `hashPassword` and `createUser` give `None` when the
      collaborator returns an error. */
  function HandleCreateUser(decoded: Option<CreateUserRequest>,
                            hashPassword: string -> Option<string>,
                            createUser: CreateUserParams -> Option<User>): (o: Outcome)
    ensures |o.replies| == 1
    ensures decoded.None? ==> o == Outcome([], [ErrorReply(StatusInternalServerError, "Something went wrong")])
    // An empty password is refused before the hasher is called; the e-mail is not checked.
    ensures decoded.Some? && decoded.value.password == "" ==>
      o == Outcome([], [ErrorReply(StatusBadRequest, "No password provided")])
    ensures o.calls != [] <==> decoded.Some? && decoded.value.password != ""
    ensures o.calls != [] ==> o.calls[0] == HashPassword(decoded.value.password)
    // A failed hash stops the handler with an internal error; a hash is always followed by the insert.
    ensures o.calls != [] && hashPassword(decoded.value.password).None? ==>
      o == Outcome([HashPassword(decoded.value.password)], [ErrorReply(StatusInternalServerError, "Something went wrong")])
    ensures o.calls != [] && hashPassword(decoded.value.password).Some? ==> |o.calls| == 2
    // The user table receives the hash, never the plain password.
    ensures |o.calls| == 2 ==>
      hashPassword(decoded.value.password).Some? &&
      o.calls[1] == CreateUser(CreateUserParams(decoded.value.email, hashPassword(decoded.value.password).value))
    // Success exactly when both collaborators succeed; the reply is the created row with the hash blanked.
    ensures o.replies[0].UserReply? <==> |o.calls| == 2 && createUser(o.calls[1].params).Some?
    ensures |o.calls| == 2 && createUser(o.calls[1].params).None? ==>
      o.replies[0] == ErrorReply(StatusBadRequest, "Could not create user")
    ensures o.replies[0].UserReply? ==>
      var u := createUser(o.calls[1].params).value;
      o.replies[0] == UserReply(StatusCreated, User(u.id, u.createdAt, u.updatedAt, u.email, ""))
    ensures forall r :: r in o.replies && r.UserReply? ==> r.user.hashedPassword == ""
  {
    match decoded
    case None => Outcome([], [ErrorReply(StatusInternalServerError, "Something went wrong")])
    case Some(req) =>
      if req.password == "" then
        Outcome([], [ErrorReply(StatusBadRequest, "No password provided")])
      else
        var hashCall := [HashPassword(req.password)];
        match hashPassword(req.password)
        case None => Outcome(hashCall, [ErrorReply(StatusInternalServerError, "Something went wrong")])
        case Some(hashed) =>
          var params := CreateUserParams(req.email, hashed);
          var calls := hashCall + [CreateUser(params)];
          match createUser(params)
          case None => Outcome(calls, [ErrorReply(StatusBadRequest, "Could not create user")])
          case Some(user) => Outcome(calls, [UserReply(StatusCreated, user.(hashedPassword := ""))])
  }

  // ---------------------------------------------------------------------------
  // Access-token lifetime

  /** The lifetime `handleLogin` computes from `expires_in_seconds`, as written:
      0 and anything above an hour become an hour; every other value, negative
      ones included, is multiplied by `time.Second` in 64-bit arithmetic. */
  function ExpiresInAsWritten(seconds: Int64): (d: Int64)
    ensures seconds == 0 || seconds > MaxLifetimeSeconds ==> d == MaxLifetime
    // Every other value passes through unclamped where the product fits, and
    // otherwise only agrees with it modulo 2^64.
    ensures seconds != 0 && MinSeconds <= seconds <= MaxLifetimeSeconds ==> d == seconds * Second
    ensures seconds != 0 && seconds <= MaxLifetimeSeconds ==>
      (d - seconds * Second) % 0x1_0000_0000_0000_0000 == 0
  {
    if seconds == 0 || seconds > MaxLifetimeSeconds then MaxLifetime
    else Wrap64(seconds * Second)
  }

  /** The smallest number of seconds whose product with `time.Second` fits. */
  const MinSeconds: int := -9_223_372_036

  /** The clamp is not a bound: a negative value below `MinSeconds` wraps around
      to a lifetime of almost 292 years. */
  lemma ExpiresInAsWrittenOverflows()
    ensures ExpiresInAsWritten(MinSeconds - 1) == 9_223_372_036_709_551_616
    ensures ExpiresInAsWritten(MinSeconds - 1) > MaxLifetime
  {
  }

  /** The lifetime as evidently intended: the same clamp, with the product
      saturating at the smallest duration instead of wrapping around. */
  function ExpiresIn(seconds: Int64): (d: Int64)
    ensures d <= MaxLifetime
    ensures seconds == 0 || seconds > MaxLifetimeSeconds ==> d == MaxLifetime
    ensures seconds != 0 && MinSeconds <= seconds <= MaxLifetimeSeconds ==> d == seconds * Second
    ensures seconds < MinSeconds ==> d == MinInt64
  {
    if seconds == 0 || seconds > MaxLifetimeSeconds then MaxLifetime
    else if seconds * Second < MinInt64 then MinInt64
    else seconds * Second
  }

  /** The corrected lifetime is the written one wherever the multiplication
      does not overflow. */
  lemma ExpiresInAgrees(seconds: Int64)
    requires seconds >= MinSeconds
    ensures ExpiresIn(seconds) == ExpiresInAsWritten(seconds)
  {
  }

  // ---------------------------------------------------------------------------
  // Login

  /** `handleLogin` as written. After a failed hash comparison it writes an
      error and then carries on, so such a request can write two replies. */
  function HandleLogin(decoded: Option<LoginRequest>, secret: string,
                       getUserByEmail: string -> Option<User>,
                       checkPasswordHash: (string, string) -> Comparison,
                       makeJWT: (Uuid, string, Int64) -> Option<string>): (o: Outcome)
    ensures |o.calls| <= 3 && 1 <= |o.replies| <= 2
    ensures decoded.None? ==> o == Outcome([], [ErrorReply(StatusInternalServerError, "Something went wrong")])
    // The e-mail is checked first, then the password, both before any lookup.
    ensures decoded.Some? && decoded.value.email == "" ==>
      o == Outcome([], [ErrorReply(StatusBadRequest, "No e-mail provided")])
    ensures decoded.Some? && decoded.value.email != "" && decoded.value.password == "" ==>
      o == Outcome([], [ErrorReply(StatusBadRequest, "No password provided")])
    ensures o.calls != [] <==> decoded.Some? && decoded.value.email != "" && decoded.value.password != ""
    ensures o.calls != [] ==> o.calls[0] == GetUserByEmail(decoded.value.email)
    ensures o.calls != [] && getUserByEmail(decoded.value.email).None? ==>
      o == Outcome([GetUserByEmail(decoded.value.email)], [ErrorReply(StatusUnauthorized, "User not found")])
    // A token is asked for only for a found user whose password matched.
    ensures |o.calls| == 3 <==>
      o.calls != [] && getUserByEmail(decoded.value.email).Some? &&
      checkPasswordHash(decoded.value.password, getUserByEmail(decoded.value.email).value.hashedPassword).matched
    ensures |o.calls| == 3 ==>
      var u := getUserByEmail(decoded.value.email).value;
      o.calls[2] == MakeJWT(u.id, secret, ExpiresInAsWritten(decoded.value.expiresInSeconds))
    // A found user's stored hash is compared with the password. A failed
    // comparison writes an internal error first and carries on; a mismatch
    // then ends the request with "Password incorrect".
    ensures o.calls != [] && getUserByEmail(decoded.value.email).Some? ==>
      var u := getUserByEmail(decoded.value.email).value;
      var c := checkPasswordHash(decoded.value.password, u.hashedPassword);
      |o.calls| >= 2 && o.calls[1] == CheckPasswordHash(decoded.value.password, u.hashedPassword) &&
      (c.failed ==> |o.replies| == 2 && o.replies[0] == ErrorReply(StatusInternalServerError, "Something went wrong")) &&
      (!c.failed ==> |o.replies| == 1) &&
      (!c.matched ==> |o.calls| == 2 && Last(o.replies) == ErrorReply(StatusUnauthorized, "Password incorrect"))
    ensures |o.calls| == 2 ==> Last(o.replies) == ErrorReply(StatusUnauthorized, "Password incorrect")
    ensures |o.calls| == 3 && makeJWT(o.calls[2].userId, secret, o.calls[2].expiresIn).None? ==>
      Last(o.replies) == ErrorReply(StatusInternalServerError, "Something went wrong")
    // A successful reply carries the looked-up user's public fields and the minted token.
    ensures LoggedIn(o) <==> |o.calls| == 3 && makeJWT(o.calls[2].userId, secret, o.calls[2].expiresIn).Some?
    ensures LoggedIn(o) ==>
      var u := getUserByEmail(decoded.value.email).value;
      Last(o.replies) == LoginReply(StatusOK,
        LoginResponse(u.id, u.createdAt, u.updatedAt, u.email, makeJWT(u.id, secret, o.calls[2].expiresIn).value))
  {
    match decoded
    case None => Outcome([], [ErrorReply(StatusInternalServerError, "Something went wrong")])
    case Some(req) =>
      if req.email == "" then
        Outcome([], [ErrorReply(StatusBadRequest, "No e-mail provided")])
      else if req.password == "" then
        Outcome([], [ErrorReply(StatusBadRequest, "No password provided")])
      else
        var expiresIn := ExpiresInAsWritten(req.expiresInSeconds);
        var lookup := [GetUserByEmail(req.email)];
        match getUserByEmail(req.email)
        case None => Outcome(lookup, [ErrorReply(StatusUnauthorized, "User not found")])
        case Some(user) =>
          var comparison := checkPasswordHash(req.password, user.hashedPassword);
          var calls := lookup + [CheckPasswordHash(req.password, user.hashedPassword)];
          var written := if comparison.failed then [ErrorReply(StatusInternalServerError, "Something went wrong")] else [];
          if !comparison.matched then
            Outcome(calls, written + [ErrorReply(StatusUnauthorized, "Password incorrect")])
          else
            var mint := calls + [MakeJWT(user.id, secret, expiresIn)];
            match makeJWT(user.id, secret, expiresIn)
            case None => Outcome(mint, written + [ErrorReply(StatusInternalServerError, "Something went wrong")])
            case Some(token) =>
              Outcome(mint, written + [LoginReply(StatusOK,
                LoginResponse(user.id, user.createdAt, user.updatedAt, user.email, token))])
  }

  /** The last reply written. */
  function Last(replies: seq<Reply>): (r: Reply)
    requires replies != []
  {
    replies[|replies| - 1]
  }

  /** The login succeeded: its last reply is the login body. */
  predicate LoggedIn(o: Outcome)
  {
    o.replies != [] && Last(o.replies).LoginReply?
  }

  /** A failed hash comparison makes the login handler write two replies: the
      internal error and then "Password incorrect". */
  lemma LoginCompareFailureRepliesTwice(req: LoginRequest, secret: string, user: User,
                                        makeJWT: (Uuid, string, Int64) -> Option<string>)
    requires req.email != "" && req.password != ""
    ensures HandleLogin(Some(req), secret, e => Some(user), (p, h) => Comparison(false, true), makeJWT).replies
         == [ErrorReply(StatusInternalServerError, "Something went wrong"),
             ErrorReply(StatusUnauthorized, "Password incorrect")]
  {
  }

  /** A matching password with `expires_in_seconds` just below `MinSeconds` asks
      for a token that lives far longer than an hour. */
  lemma LoginMintsOverlongToken(req: LoginRequest, secret: string, user: User,
                                makeJWT: (Uuid, string, Int64) -> Option<string>)
    requires req.email != "" && req.password != "" && req.expiresInSeconds == MinSeconds - 1
    ensures var o := HandleLogin(Some(req), secret, e => Some(user), (p, h) => Comparison(true, false), makeJWT);
      |o.calls| == 3 && o.calls[2].expiresIn > MaxLifetime
  {
    ExpiresInAsWrittenOverflows();
  }

  /** `handleLogin` as evidently intended: it returns after a failed hash
      comparison, and the lifetime is `ExpiresIn`. */
  function HandleLoginCorrected(decoded: Option<LoginRequest>, secret: string,
                                getUserByEmail: string -> Option<User>,
                                checkPasswordHash: (string, string) -> Comparison,
                                makeJWT: (Uuid, string, Int64) -> Option<string>): (o: Outcome)
    // Every request is answered exactly once, after at most three calls.
    ensures |o.replies| == 1 && |o.calls| <= 3
    ensures decoded.None? ==> o == Outcome([], [ErrorReply(StatusInternalServerError, "Something went wrong")])
    ensures decoded.Some? && decoded.value.email == "" ==>
      o == Outcome([], [ErrorReply(StatusBadRequest, "No e-mail provided")])
    ensures decoded.Some? && decoded.value.email != "" && decoded.value.password == "" ==>
      o == Outcome([], [ErrorReply(StatusBadRequest, "No password provided")])
    ensures o.calls != [] <==> decoded.Some? && decoded.value.email != "" && decoded.value.password != ""
    ensures o.calls != [] && getUserByEmail(decoded.value.email).None? ==>
      o == Outcome([GetUserByEmail(decoded.value.email)], [ErrorReply(StatusUnauthorized, "User not found")])
    // A found user's stored hash is compared with the password. A failed
    // comparison is answered with an internal error and nothing else; a
    // mismatch with "Password incorrect".
    ensures o.calls != [] && getUserByEmail(decoded.value.email).Some? ==>
      var u := getUserByEmail(decoded.value.email).value;
      var c := checkPasswordHash(decoded.value.password, u.hashedPassword);
      var compared := [GetUserByEmail(decoded.value.email), CheckPasswordHash(decoded.value.password, u.hashedPassword)];
      (c.failed ==> o == Outcome(compared, [ErrorReply(StatusInternalServerError, "Something went wrong")])) &&
      (!c.failed && !c.matched ==> o == Outcome(compared, [ErrorReply(StatusUnauthorized, "Password incorrect")])) &&
      (!c.failed && c.matched ==> |o.calls| == 3 && o.calls[..2] == compared)
    // A token is asked for only for a found user whose password matched without
    // error, for that user and with the clamped lifetime, never over an hour.
    ensures |o.calls| == 3 <==>
      o.calls != [] && getUserByEmail(decoded.value.email).Some? &&
      var c := checkPasswordHash(decoded.value.password, getUserByEmail(decoded.value.email).value.hashedPassword);
      c.matched && !c.failed
    ensures |o.calls| == 3 ==>
      var u := getUserByEmail(decoded.value.email).value;
      o.calls[2] == MakeJWT(u.id, secret, ExpiresIn(decoded.value.expiresInSeconds)) &&
      o.calls[2].expiresIn <= MaxLifetime
    // The minted token is the login body's token; a failed mint is an internal error.
    ensures |o.calls| == 3 ==>
      var u := getUserByEmail(decoded.value.email).value;
      match makeJWT(u.id, secret, ExpiresIn(decoded.value.expiresInSeconds))
      case None => o.replies[0] == ErrorReply(StatusInternalServerError, "Something went wrong")
      case Some(token) =>
        o.replies[0] == LoginReply(StatusOK, LoginResponse(u.id, u.createdAt, u.updatedAt, u.email, token))
    ensures o.replies[0].LoginReply? ==> |o.calls| == 3
  {
    match decoded
    case None => Outcome([], [ErrorReply(StatusInternalServerError, "Something went wrong")])
    case Some(req) =>
      if req.email == "" then
        Outcome([], [ErrorReply(StatusBadRequest, "No e-mail provided")])
      else if req.password == "" then
        Outcome([], [ErrorReply(StatusBadRequest, "No password provided")])
      else
        var expiresIn := ExpiresIn(req.expiresInSeconds);
        var lookup := [GetUserByEmail(req.email)];
        match getUserByEmail(req.email)
        case None => Outcome(lookup, [ErrorReply(StatusUnauthorized, "User not found")])
        case Some(user) =>
          var comparison := checkPasswordHash(req.password, user.hashedPassword);
          var calls := lookup + [CheckPasswordHash(req.password, user.hashedPassword)];
          if comparison.failed then
            Outcome(calls, [ErrorReply(StatusInternalServerError, "Something went wrong")])
          else if !comparison.matched then
            Outcome(calls, [ErrorReply(StatusUnauthorized, "Password incorrect")])
          else
            var mint := calls + [MakeJWT(user.id, secret, expiresIn)];
            match makeJWT(user.id, secret, expiresIn)
            case None => Outcome(mint, [ErrorReply(StatusInternalServerError, "Something went wrong")])
            case Some(token) =>
              Outcome(mint, [LoginReply(StatusOK,
                LoginResponse(user.id, user.createdAt, user.updatedAt, user.email, token))])
  }

  /** The corrected handler behaves as written on every request that neither
      makes the hash comparison fail nor overflows the lifetime. */
  lemma {:induction false} LoginCorrectionAgrees(decoded: Option<LoginRequest>, secret: string,
                                                 getUserByEmail: string -> Option<User>,
                                                 checkPasswordHash: (string, string) -> Comparison,
                                                 makeJWT: (Uuid, string, Int64) -> Option<string>)
    requires decoded.Some? ==> decoded.value.expiresInSeconds >= MinSeconds
    requires forall p, h :: !checkPasswordHash(p, h).failed
    ensures HandleLoginCorrected(decoded, secret, getUserByEmail, checkPasswordHash, makeJWT)
         == HandleLogin(decoded, secret, getUserByEmail, checkPasswordHash, makeJWT)
  {
    if decoded.Some? {
      ExpiresInAgrees(decoded.value.expiresInSeconds);
    }
  }
}
