/** The HTTP handlers of user/ingress/http as decision ladders: each handler
    is a pure function from the request outcome (the JSON bind), what the
    account service answers, the configuration and the clock to the calls it
    made on the service and the writes it made to the response, in order.

    A write is a JSON reply with its status, a cookie, or `NilDereference`:
    the point where the Go handler reads through a nil pointer and the
    request panics. `SignInAsWritten` keeps the missing `return` after the
    token-issuing failure of `V1SignIn`; `SignIn` is the ladder with the
    `return` in place, and the rest of the model uses that one. */
module UserIngress {
  import opened Wrappers
  import opened GoInt
  import opened Validation
  import UserDomain

  /** The sign-in body. */
  datatype UserLogin = UserLogin(email: string, password: string)

  const EmailRequired := "Email is required."
  const PasswordRequired := "Password is required."

  lemma LoginMessagesDiffer()
    ensures EmailRequired != PasswordRequired
  {
    assert EmailRequired[0] != PasswordRequired[0];
  }

  /** `UserLogin.Validate`: one message per empty field, the e-mail's first. */
  function ValidateLogin(login: UserLogin): (messages: seq<string>)
    ensures |messages| == (if login.email == "" then 1 else 0) + (if login.password == "" then 1 else 0)
    ensures messages == [] <==> login.email != "" && login.password != ""
    ensures EmailRequired in messages <==> login.email == ""
    ensures PasswordRequired in messages <==> login.password == ""
    ensures login.email == "" ==> messages[0] == EmailRequired
  {
    LoginMessagesDiffer();
    (if login.email == "" then [EmailRequired] else [])
    + (if login.password == "" then [PasswordRequired] else [])
  }

  /** What the handlers read from the configuration. */
  datatype IngressConfig = IngressConfig(siteDomain: string, useSsl: bool)

  /** A `Set-Cookie`: name, value, max-age in seconds, path, domain, secure
      and HttpOnly. */
  datatype Cookie = Cookie(name: string, value: string, maxAge: int, path: string,
                           domain: string, secure: bool, httpOnly: bool)

  /** A JSON body: an `HttpError` message list, the token claims, the
      service's field errors, the public view of a user, or the error of the
      request-authentication step. */
  datatype Body =
    | HttpError(message: seq<string>)
    | ClaimsBody(claims: UserDomain.Claims)
    | ValidationBody(errors: seq<FieldErrors>)
    | UserRead(id: nat, email: string, name: string)
    | AuthErrorBody(error: string)

  datatype Write =
    | Json(status: nat, body: Body)
    | SetCookie(cookie: Cookie)
    | NilDereference

  /** A call the handlers make on the account service. */
  datatype ServiceCall =
    | LookupUser(email: string)
    | VerifyPassword(id: nat, password: string)
    | IssueToken(email: string)
    | CreateAccount(user: UserDomain.UserForCreate)

  /** The account service as the handlers see it. */
  datatype ServicePort = ServicePort(
    getUserByEmail: string -> UserDomain.FindResult,
    checkPassword: (nat, string) -> bool,
    generateJwt: string -> Result<UserDomain.Claims, Error>,
    createUser: UserDomain.UserForCreate -> UserDomain.CreateResult)

  /** What a handler did: its service calls and its response writes. */
  datatype Handled = Handled(calls: seq<ServiceCall>, writes: seq<Write>)

  const StatusOK: nat := 200
  const StatusCreated: nat := 201
  const StatusBadRequest: nat := 400
  const StatusUnauthorized: nat := 401
  const StatusInternalServerError: nat := 500

  const NotRecognised := Json(StatusUnauthorized, HttpError(["Credentials not recognised."]))
  const TokenFailed := Json(StatusInternalServerError, HttpError(["Could not generate JWT."]))
  const CreateFailed := Json(StatusInternalServerError, HttpError(["Could not create user."]))

  /** The session cookie: `Bearer`, path "/", the site domain, secure exactly
      when SSL is in use, and never readable from scripts. */
  function SessionCookie(cfg: IngressConfig, token: string, maxAge: int): (c: Cookie)
    ensures c.name == "Bearer" && c.path == "/" && c.httpOnly
    ensures c.domain == cfg.siteDomain && c.secure == cfg.useSsl
    ensures c.value == token && c.maxAge == maxAge
  {
    Cookie("Bearer", token, maxAge, "/", cfg.siteDomain, cfg.useSsl, true)
  }

  /** The `Max-Age` attribute net/http writes for a cookie's max-age: none
      at all for 0 (the cookie lasts the browser session), `Max-Age=0` (drop
      it now) for a negative max-age, and the value itself otherwise. */
  function MaxAgeAttribute(maxAge: int): (a: Option<int>)
    ensures a.None? <==> maxAge == 0
    ensures a == Some(0) <==> maxAge < 0
    ensures maxAge > 0 ==> a == Some(maxAge)
  {
    if maxAge > 0 then Some(maxAge) else if maxAge < 0 then Some(0) else None
  }

  /** `int(expiresAt.Sub(time.Now()).Seconds())`: the seconds from the
      handler's own clock reading `now` (nanoseconds since the epoch) to the
      expiry (whole seconds). `Sub` saturates at the int64 range and the
      conversion drops the fraction, rounding toward zero. */
  function CookieMaxAge(expiresAt: int, now: int): (seconds: int)
    ensures var gap := expiresAt * 1_000_000_000 - now;
      InInt64(gap) && gap >= 0 ==> seconds * 1_000_000_000 <= gap < seconds * 1_000_000_000 + 1_000_000_000
    ensures var gap := expiresAt * 1_000_000_000 - now;
      InInt64(gap) && gap < 0 ==> seconds * 1_000_000_000 - 1_000_000_000 < gap <= seconds * 1_000_000_000
    ensures expiresAt * 1_000_000_000 - now <= -1_000_000_000 ==> seconds < 0
  {
    TruncDiv(Saturate(expiresAt * 1_000_000_000 - now), 1_000_000_000)
  }

  /** The writes of an issued token: the cookie, living until the token
      expires as the handler's clock `now` sees it, then 200 with the
      claims. */
  function SessionWrites(cfg: IngressConfig, claims: UserDomain.Claims, now: int): (w: seq<Write>)
    ensures |w| == 2 && w[1] == Json(StatusOK, ClaimsBody(claims))
    ensures w[0].SetCookie? && w[0].cookie == SessionCookie(cfg, claims.tokenString, CookieMaxAge(claims.expiresAt, now))
  {
    [SetCookie(SessionCookie(cfg, claims.tokenString, CookieMaxAge(claims.expiresAt, now))), Json(StatusOK, ClaimsBody(claims))]
  }

  /** A token that expired at least a second before the handler reads its
      clock gets `Max-Age=0`: the browser drops the cookie at once. */
  lemma ExpiredTokenDropsCookie(expiresAt: int, now: int)
    requires expiresAt * 1_000_000_000 + 1_000_000_000 <= now
    ensures MaxAgeAttribute(CookieMaxAge(expiresAt, now)) == Some(0)
  {
  }

  /** The `V1SignIn` ladder; `returnsAfterTokenFailure` says whether the
      token-issuing failure branch ends the handler. Bind and login
      validation failures answer 400 before the service is consulted; an
      unknown e-mail, a lookup error and a wrong password all answer the same
      401; a token is only requested for the found user's e-mail after the
      password was verified. */
  function SignInLadder(returnsAfterTokenFailure: bool, bind: Result<UserLogin, Error>,
                        service: ServicePort, cfg: IngressConfig, now: int): (h: Handled)
    ensures bind.Failure? ==> h == Handled([], [Json(StatusBadRequest, HttpError([bind.error]))])
    ensures bind.Success? && ValidateLogin(bind.value) != [] ==>
      h == Handled([], [Json(StatusBadRequest, HttpError(ValidateLogin(bind.value)))])
    ensures bind.Success? && ValidateLogin(bind.value) == [] ==>
      |h.calls| >= 1 && h.calls[0] == LookupUser(bind.value.email)
    ensures bind.Success? && ValidateLogin(bind.value) == [] ==>
      var found := service.getUserByEmail(bind.value.email);
      found.err.Some? || found.user.None? ==> h == Handled([LookupUser(bind.value.email)], [NotRecognised])
    ensures bind.Success? && ValidateLogin(bind.value) == [] ==>
      var found := service.getUserByEmail(bind.value.email);
      found.err.None? && found.user.Some? && !service.checkPassword(found.user.value.id, bind.value.password) ==>
        h == Handled([LookupUser(bind.value.email), VerifyPassword(found.user.value.id, bind.value.password)], [NotRecognised])
    ensures forall i :: 0 <= i < |h.calls| && h.calls[i].IssueToken? ==>
      && i == 2 && h.calls[1].VerifyPassword?
      && service.checkPassword(h.calls[1].id, h.calls[1].password)
      && h.calls[2].email == service.getUserByEmail(bind.value.email).user.value.email
  {
    match bind
    case Failure(e) => Handled([], [Json(StatusBadRequest, HttpError([e]))])
    case Success(login) =>
      var messages := ValidateLogin(login);
      if |messages| > 0 then
        Handled([], [Json(StatusBadRequest, HttpError(messages))])
      else
        var found := service.getUserByEmail(login.email);
        var looked := [LookupUser(login.email)];
        if found.err.Some? || found.user.None? then
          Handled(looked, [NotRecognised])
        else
          var user := found.user.value;
          var verified := looked + [VerifyPassword(user.id, login.password)];
          if !service.checkPassword(user.id, login.password) then
            Handled(verified, [NotRecognised])
          else
            var calls := verified + [IssueToken(user.email)];
            assert calls[1] == VerifyPassword(user.id, login.password);
            match service.generateJwt(user.email)
            case Failure(_) =>
              Handled(calls, if returnsAfterTokenFailure then [TokenFailed] else [TokenFailed, NilDereference])
            case Success(claims) =>
              Handled(calls, SessionWrites(cfg, claims, now))
  }

  /** The token-issuing step of sign-in: reached only for a bound, valid
      login whose user was found and whose password was verified. */
  ghost predicate ReachesTokenStep(bind: Result<UserLogin, Error>, service: ServicePort) {
    && bind.Success? && ValidateLogin(bind.value) == []
    && service.getUserByEmail(bind.value.email).err.None?
    && service.getUserByEmail(bind.value.email).user.Some?
    && service.checkPassword(service.getUserByEmail(bind.value.email).user.value.id, bind.value.password)
  }

  /** What the token step does, with and without the `return`. */
  lemma TokenStep(returnsAfterTokenFailure: bool, bind: Result<UserLogin, Error>,
                  service: ServicePort, cfg: IngressConfig, now: int)
    requires ReachesTokenStep(bind, service)
    ensures var user := service.getUserByEmail(bind.value.email).user.value;
      var h := SignInLadder(returnsAfterTokenFailure, bind, service, cfg, now);
      && h.calls == [LookupUser(bind.value.email), VerifyPassword(user.id, bind.value.password), IssueToken(user.email)]
      && (service.generateJwt(user.email).Success? ==>
            h.writes == SessionWrites(cfg, service.generateJwt(user.email).value, now))
      && (service.generateJwt(user.email).Failure? ==>
            h.writes == if returnsAfterTokenFailure then [TokenFailed] else [TokenFailed, NilDereference])
  {
  }

  /** `V1SignIn` as the source has it: a token-issuing failure writes the
      500 reply and then reads the expiry of the nil claims. */
  function SignInAsWritten(bind: Result<UserLogin, Error>, service: ServicePort,
                           cfg: IngressConfig, now: int): (h: Handled)
    ensures (ReachesTokenStep(bind, service) &&
             service.generateJwt(service.getUserByEmail(bind.value.email).user.value.email).Failure?) ==>
        h.writes == [TokenFailed, NilDereference]
    ensures !ReachesTokenStep(bind, service) ==> NilDereference !in h.writes
  {
    if ReachesTokenStepExec(bind, service) then
      TokenStep(false, bind, service, cfg, now);
      SignInLadder(false, bind, service, cfg, now)
    else
      SignInLadder(false, bind, service, cfg, now)
  }

  /** `ReachesTokenStep`, computed. */
  predicate ReachesTokenStepExec(bind: Result<UserLogin, Error>, service: ServicePort)
    ensures ReachesTokenStepExec(bind, service) <==> ReachesTokenStep(bind, service)
  {
    && bind.Success? && ValidateLogin(bind.value) == []
    && service.getUserByEmail(bind.value.email).err.None?
    && service.getUserByEmail(bind.value.email).user.Some?
    && service.checkPassword(service.getUserByEmail(bind.value.email).user.value.id, bind.value.password)
  }

  /** A concrete request on which the handler as written panics: a known
      user, the right password, and a signer that fails. */
  lemma SignInAsWrittenPanics()
    ensures var user := UserDomain.UserData(1, "n", "a@b.cd");
      var service := ServicePort(
        _ => UserDomain.FindResult(Some(user), None),
        (_, _) => true,
        _ => Failure("signing failed"),
        _ => UserDomain.CreateResult([], None, None));
      NilDereference in SignInAsWritten(Success(UserLogin("a@b.cd", "pw")), service, IngressConfig("localhost", false), 0).writes
  {
    var user := UserDomain.UserData(1, "n", "a@b.cd");
    var service := ServicePort(
      _ => UserDomain.FindResult(Some(user), None),
      (_, _) => true,
      _ => Failure("signing failed"),
      _ => UserDomain.CreateResult([], None, None));
    var bind := Success(UserLogin("a@b.cd", "pw"));
    assert ValidateLogin(bind.value) == [];
    assert ReachesTokenStep(bind, service);
  }

  /** `V1SignIn` with the `return` after the token-issuing failure: the
      handler never reads through a nil pointer, writes exactly one status
      reply, and sets the session cookie only together with a 200. */
  function SignIn(bind: Result<UserLogin, Error>, service: ServicePort,
                  cfg: IngressConfig, now: int): (h: Handled)
    ensures NilDereference !in h.writes
    ensures (ReachesTokenStep(bind, service) &&
             service.generateJwt(service.getUserByEmail(bind.value.email).user.value.email).Failure?) ==>
        h.writes == [TokenFailed]
    ensures forall i :: 0 <= i < |h.writes| && h.writes[i].SetCookie? ==>
      ReachesTokenStep(bind, service) && h.writes[|h.writes| - 1].Json? && h.writes[|h.writes| - 1].status == StatusOK
  {
    if ReachesTokenStepExec(bind, service) then
      TokenStep(true, bind, service, cfg, now);
      SignInLadder(true, bind, service, cfg, now)
    else
      SignInLadder(true, bind, service, cfg, now)
  }

  /** The two ladders differ only when the token cannot be issued. */
  lemma SignInAgreesUnlessTokenFails(bind: Result<UserLogin, Error>, service: ServicePort,
                                     cfg: IngressConfig, now: int)
    ensures SignIn(bind, service, cfg, now).calls == SignInAsWritten(bind, service, cfg, now).calls
    ensures SignIn(bind, service, cfg, now) != SignInAsWritten(bind, service, cfg, now) <==>
      ReachesTokenStep(bind, service) &&
      service.generateJwt(service.getUserByEmail(bind.value.email).user.value.email).Failure?
  {
    if ReachesTokenStep(bind, service) {
      TokenStep(true, bind, service, cfg, now);
      TokenStep(false, bind, service, cfg, now);
    }
  }

  /** Sign-in does not reveal whether the e-mail is known: a lookup that
      finds nothing (or fails) and a wrong password for a known e-mail get
      the same response, 401 "Credentials not recognised.". */
  lemma SignInHidesWhichCheckFailed(login: UserLogin, unknown: ServicePort, known: ServicePort,
                                    cfg: IngressConfig, now: int)
    requires ValidateLogin(login) == []
    requires unknown.getUserByEmail(login.email).err.Some? || unknown.getUserByEmail(login.email).user.None?
    requires known.getUserByEmail(login.email).err.None? && known.getUserByEmail(login.email).user.Some?
    requires !known.checkPassword(known.getUserByEmail(login.email).user.value.id, login.password)
    ensures SignIn(Success(login), unknown, cfg, now).writes == SignIn(Success(login), known, cfg, now).writes
    ensures SignIn(Success(login), unknown, cfg, now).writes == [NotRecognised]
  {
  }

  /** `V1SignOut`: the session cookie again, with an empty value and
      max-age 0, which net/http writes with no `Max-Age` at all; the service
      is not consulted. */
  function SignOut(cfg: IngressConfig): (h: Handled)
    ensures h.calls == [] && |h.writes| == 1 && h.writes[0].SetCookie?
    ensures var c := h.writes[0].cookie;
      c.name == "Bearer" && c.value == "" && c.maxAge == 0 && c.path == "/" && c.httpOnly
      && c.domain == cfg.siteDomain && c.secure == cfg.useSsl
  {
    Handled([], [SetCookie(SessionCookie(cfg, "", 0))])
  }

  /** Signing out overwrites exactly the cookie that signing in set: same
      name, path, domain and flags, with the value and the lifetime cleared. */
  lemma SignOutClearsSignInCookie(bind: Result<UserLogin, Error>, service: ServicePort,
                                  cfg: IngressConfig, now: int)
    requires ReachesTokenStep(bind, service)
    requires service.generateJwt(service.getUserByEmail(bind.value.email).user.value.email).Success?
    ensures var signedIn := SignIn(bind, service, cfg, now).writes[0].cookie;
      SignOut(cfg).writes[0].cookie == signedIn.(value := "", maxAge := 0)
  {
    TokenStep(true, bind, service, cfg, now);
  }

  /** `V1RefreshToken`, given the outcome of the request-authentication step
      (the e-mail of the validated claims, or its error): an authentication
      error answers 401 with that error and no token is requested; otherwise
      a new token is requested for that e-mail, and a failure answers 500. */
  function RefreshToken(auth: Result<string, string>, service: ServicePort,
                        cfg: IngressConfig, now: int): (h: Handled)
    ensures auth.Failure? ==> h == Handled([], [Json(StatusUnauthorized, AuthErrorBody(auth.error))])
    ensures auth.Success? ==> h.calls == [IssueToken(auth.value)]
    ensures auth.Success? && service.generateJwt(auth.value).Failure? ==> h.writes == [TokenFailed]
    ensures auth.Success? && service.generateJwt(auth.value).Success? ==>
      h.writes == SessionWrites(cfg, service.generateJwt(auth.value).value, now)
    ensures NilDereference !in h.writes
  {
    match auth
    case Failure(e) => Handled([], [Json(StatusUnauthorized, AuthErrorBody(e))])
    case Success(email) =>
      match service.generateJwt(email)
      case Failure(_) => Handled([IssueToken(email)], [TokenFailed])
      case Success(claims) => Handled([IssueToken(email)], SessionWrites(cfg, claims, now))
  }

  /** `V1SignUp`, given the bind outcome and the sign-up body's own message
      check. A service error answers 500 "Could not create user." even when
      field errors came with it; field errors answer 400 with the list; a
      created user answers 201 with its public view. A result with neither
      errors nor a user is read through nil. */
  function SignUp(bind: Result<UserDomain.UserForCreate, Error>, validate: UserDomain.UserForCreate -> seq<string>,
                  service: ServicePort): (h: Handled)
    ensures bind.Failure? ==> h == Handled([], [Json(StatusBadRequest, HttpError([bind.error]))])
    ensures bind.Success? && validate(bind.value) != [] ==>
      h == Handled([], [Json(StatusBadRequest, HttpError(validate(bind.value)))])
    ensures bind.Success? && validate(bind.value) == [] ==>
      var created := service.createUser(bind.value);
      && h.calls == [CreateAccount(bind.value)]
      && (created.err.Some? ==> h.writes == [CreateFailed])
      && (created.err.None? && created.errors != [] ==> h.writes == [Json(StatusBadRequest, ValidationBody(created.errors))])
      && (created.err.None? && created.errors == [] && created.user.Some? ==>
            h.writes == [Json(StatusCreated, UserRead(created.user.value.id, created.user.value.email, created.user.value.name))])
    ensures NilDereference in h.writes ==>
      && bind.Success? && validate(bind.value) == []
      && var created := service.createUser(bind.value);
         created.err.None? && created.errors == [] && created.user.None?
  {
    match bind
    case Failure(e) => Handled([], [Json(StatusBadRequest, HttpError([e]))])
    case Success(u) =>
      var messages := validate(u);
      if |messages| > 0 then
        Handled([], [Json(StatusBadRequest, HttpError(messages))])
      else
        var created := service.createUser(u);
        var calls := [CreateAccount(u)];
        if created.err.Some? then
          Handled(calls, [CreateFailed])
        else if |created.errors| > 0 then
          Handled(calls, [Json(StatusBadRequest, ValidationBody(created.errors))])
        else
          match created.user
          case None => Handled(calls, [NilDereference])
          case Some(user) => Handled(calls, [Json(StatusCreated, UserRead(user.id, user.email, user.name))])
  }

  /** The handlers over the account service itself, with its store, hasher,
      signer, clock reading `signNow` (nanoseconds since the epoch) and token
      lifetime. */
  function ServiceOf(store: UserDomain.StorePort, crypto: UserDomain.Crypto,
                     sign: (string, int) -> Result<string, Error>, signNow: int, expiryMinutes: int): ServicePort {
    ServicePort(
      email => UserDomain.GetUserByEmail(email, store),
      (id: nat, password: string) => UserDomain.CheckPassword(id, password, store, crypto),
      email => UserDomain.GenerateJWT(email, signNow, expiryMinutes, sign),
      u => UserDomain.CreateUser(u, store, crypto).result)
  }

  /** Against the account service, sign-up never reads through nil: the
      service never answers with neither an error, field errors nor a user. */
  lemma SignUpAgainstServiceIsSafe(bind: Result<UserDomain.UserForCreate, Error>,
                                   validate: UserDomain.UserForCreate -> seq<string>,
                                   store: UserDomain.StorePort, crypto: UserDomain.Crypto,
                                   sign: (string, int) -> Result<string, Error>, signNow: int, expiryMinutes: int)
    ensures NilDereference !in SignUp(bind, validate, ServiceOf(store, crypto, sign, signNow, expiryMinutes)).writes
  {
    if bind.Success? {
      UserDomain.CreateUserResult(bind.value, store, crypto);
    }
  }

  /** The max-age of a cookie for a token issued at `signNow` with a
      lifetime of `lifetime` nanoseconds, as the handler computes it at
      `now`: never more than the lifetime, short of it by less than two
      seconds plus the time elapsed between the two clock readings, and
      exactly the lifetime when both readings are the same whole second. */
  lemma FreshTokenMaxAge(signNow: int, now: int, lifetime: int, expiresAt: int)
    requires 0 <= lifetime <= Int64Max
    requires signNow <= now
    requires expiresAt * 1_000_000_000 <= signNow + lifetime < expiresAt * 1_000_000_000 + 1_000_000_000
    ensures CookieMaxAge(expiresAt, now) * 1_000_000_000 <= lifetime
    ensures (CookieMaxAge(expiresAt, now) + 2) * 1_000_000_000 > lifetime - (now - signNow)
    ensures now == signNow && signNow % 1_000_000_000 == 0 && lifetime % 1_000_000_000 == 0 ==>
      CookieMaxAge(expiresAt, now) * 1_000_000_000 == lifetime
  {
    var gap := expiresAt * 1_000_000_000 - now;
    assert gap <= lifetime;
    assert Saturate(gap) <= lifetime && Saturate(gap) >= gap;
    assert CookieMaxAge(expiresAt, now) == TruncDiv(Saturate(gap), 1_000_000_000);
    if now == signNow && signNow % 1_000_000_000 == 0 && lifetime % 1_000_000_000 == 0 {
      var whole := signNow / 1_000_000_000 + lifetime / 1_000_000_000;
      assert whole * 1_000_000_000 == signNow + lifetime;
      assert expiresAt == whole;
      assert gap == (lifetime / 1_000_000_000) * 1_000_000_000;
    }
  }

  /** The max-age of the cookie for a token the service issued at
      `signNow`, computed by the handler at `now`, in whole seconds. */
  lemma IssuedCookieLifetime(email: string, signNow: int, expiryMinutes: int,
                             sign: (string, int) -> Result<string, Error>, now: int)
    requires UserDomain.GenerateJWT(email, signNow, expiryMinutes, sign).Success?
    requires 0 <= expiryMinutes <= UserDomain.MaxExactMinutes
    requires signNow <= now
    ensures var maxAge := CookieMaxAge(UserDomain.GenerateJWT(email, signNow, expiryMinutes, sign).value.expiresAt, now);
      && maxAge <= 60 * expiryMinutes
      && (maxAge + 2) * 1_000_000_000 > 60_000_000_000 * expiryMinutes - (now - signNow)
      && (now == signNow && signNow % 1_000_000_000 == 0 ==> maxAge == 60 * expiryMinutes)
  {
    var claims := UserDomain.GenerateJWT(email, signNow, expiryMinutes, sign).value;
    var lifetime := UserDomain.TokenLifetime(expiryMinutes);
    assert lifetime == (60 * expiryMinutes) * 1_000_000_000;
    FreshTokenMaxAge(signNow, now, lifetime, claims.expiresAt);
  }

  /** Against the account service, a signed-in session cookie lives at most
      the configured number of minutes, and less only by under two seconds
      plus the time between the service's and the handler's clock readings:
      the expiry is cut to a whole second, and so is the max-age. */
  lemma SignInCookieLifetime(login: UserLogin, store: UserDomain.StorePort, crypto: UserDomain.Crypto,
                             sign: (string, int) -> Result<string, Error>, signNow: int, expiryMinutes: int,
                             cfg: IngressConfig, now: int)
    requires ReachesTokenStep(Success(login), ServiceOf(store, crypto, sign, signNow, expiryMinutes))
    requires ServiceOf(store, crypto, sign, signNow, expiryMinutes).generateJwt(
               ServiceOf(store, crypto, sign, signNow, expiryMinutes).getUserByEmail(login.email).user.value.email).Success?
    requires 0 <= expiryMinutes <= UserDomain.MaxExactMinutes
    requires signNow <= now
    ensures var h := SignIn(Success(login), ServiceOf(store, crypto, sign, signNow, expiryMinutes), cfg, now);
      && h.writes[0].SetCookie?
      && h.writes[0].cookie.maxAge <= 60 * expiryMinutes
      && (h.writes[0].cookie.maxAge + 2) * 1_000_000_000 > 60_000_000_000 * expiryMinutes - (now - signNow)
      && (now == signNow && signNow % 1_000_000_000 == 0 ==> h.writes[0].cookie.maxAge == 60 * expiryMinutes)
  {
    var service := ServiceOf(store, crypto, sign, signNow, expiryMinutes);
    var email := service.getUserByEmail(login.email).user.value.email;
    TokenStep(true, Success(login), service, cfg, now);
    assert service.generateJwt(email) == UserDomain.GenerateJWT(email, signNow, expiryMinutes, sign);
    IssuedCookieLifetime(email, signNow, expiryMinutes, sign, now);
  }

  /** A fifteen-minute token issued half a second past a whole second, and a
      handler reading its clock a millisecond later: the cookie lives 899
      seconds, not 900. */
  lemma FifteenMinuteCookieExample(email: string, sign: (string, int) -> Result<string, Error>)
    requires sign(email, 1_700_000_900).Success?
    ensures var r := UserDomain.GenerateJWT(email, 1_700_000_000_500_000_000, 15, sign);
      && r.Success? && r.value.expiresAt == 1_700_000_900
      && CookieMaxAge(r.value.expiresAt, 1_700_000_000_501_000_000) == 899
  {
    assert UserDomain.TokenLifetime(15) == 900_000_000_000;
  }

  /** A refresh for the e-mail of a user who could sign in requests the same
      token as sign-in's last call and writes exactly what sign-in writes. */
  lemma RefreshAgreesWithSignIn(login: UserLogin, service: ServicePort, cfg: IngressConfig, now: int)
    requires ReachesTokenStep(Success(login), service)
    ensures var email := service.getUserByEmail(login.email).user.value.email;
      && RefreshToken(Success(email), service, cfg, now).writes == SignIn(Success(login), service, cfg, now).writes
      && RefreshToken(Success(email), service, cfg, now).calls == SignIn(Success(login), service, cfg, now).calls[2..]
  {
    TokenStep(true, Success(login), service, cfg, now);
  }

  /** Sign-out sends an empty session cookie with no `Max-Age`: the browser
      keeps the empty value until the session ends. */
  lemma SignOutSendsEmptySessionCookie(cfg: IngressConfig)
    ensures SignOut(cfg).writes[0].cookie.value == ""
    ensures MaxAgeAttribute(SignOut(cfg).writes[0].cookie.maxAge).None?
  {
  }
}
