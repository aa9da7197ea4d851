/** The account service of user/domain: sign-up validation
    (`UserForCreate.Validate` in interfaces.go) and the one-shot pipelines of
    services.go that turn store outcomes into results.

    The store, the password hasher and the hash comparison are ports: values
    of function type handed to each operation, so that any store or hasher
    (the Postgres one, a test double) can stand behind them. Each pipeline
    also returns the calls it made on the ports, in order, so that what is
    called, and what is not, is part of its contract. `PortOf` plugs the
    in-memory table of `UserStore` into the store port. */
module UserDomain {
  import opened Wrappers
  import opened GoInt
  import opened Validation
  import EmailPattern
  import UserStore

  /** The sign-up input. */
  datatype UserForCreate = UserForCreate(name: string, email: string, password: string)

  /** What the service hands out about a user: never the password hash. */
  datatype UserData = UserData(id: nat, name: string, email: string)

  /** `JWTClaimsOut`: the subject's e-mail, the signed token and its expiry
      (whole seconds since the epoch). */
  datatype Claims = Claims(email: string, tokenString: string, expiresAt: int)

  /** A store lookup: a row, no row, or a store error. */
  type Lookup = Result<Option<UserStore.User>, Error>

  /** What the store's `CreateUser` reports: its model errors, the key it
      assigned and its error. */
  datatype CreateReply = CreateReply(errors: seq<ModelValidationError>, id: nat, err: Option<Error>)

  /** The store as the service sees it (`UserStoreInterface`). */
  datatype StorePort = StorePort(
    getUserByEmail: string -> Lookup,
    getUserByID: nat -> Lookup,
    createUser: UserStore.User -> CreateReply,
    deleteUser: UserStore.User -> Option<Error>)

  /** bcrypt, kept abstract: hashing may fail; `matches(hash, password)`
      stands for `CompareHashAndPassword` returning no error. */
  datatype Crypto = Crypto(hash: string -> Result<string, Error>, matches: (string, string) -> bool)

  /** One call made on a port. */
  datatype Call =
    | StoreGetByEmail(email: string)
    | StoreGetByID(id: nat)
    | HashPassword(password: string)
    | StoreCreate(user: UserStore.User)
    | StoreDelete(user: UserStore.User)

  const EmailInUse := "Email is already in use."
  const HashFailed: Error := "could not hash password"

  /** The shape entry for the name: "name is required" when empty. */
  ghost function NameEntry(u: UserForCreate): seq<FieldErrors> {
    if u.name == "" then [FieldErrors("name", ["name is required"])] else []
  }

  /** The shape entry for the e-mail: "email is required" when empty, then
      "Invalid email" when the pattern does not match (never for a match). */
  ghost function EmailEntry(u: UserForCreate): seq<FieldErrors> {
    if u.email == "" then [FieldErrors("email", ["email is required", "Invalid email"])]
    else if EmailPattern.MatchesEmailPattern(u.email) then []
    else [FieldErrors("email", ["Invalid email"])]
  }

  /** The shape entry for the password: "password is required" when empty. */
  ghost function PasswordEntry(u: UserForCreate): seq<FieldErrors> {
    if u.password == "" then [FieldErrors("password", ["password is required"])] else []
  }

  lemma FieldNamesDiffer()
    ensures "name" != "email" && "name" != "password" && "email" != "password"
  {
    assert "name"[0] != "email"[0] && "name"[0] != "password"[0] && "email"[0] != "password"[0];
  }

  lemma EmailStep(u: UserForCreate, prev: seq<FieldErrors>)
    requires "email" !in Fields(prev)
    ensures EmailValidator(u.email, "email", prev) == prev + EmailEntry(u)
  {
    EmailPattern.EmptyIsNotEmail();
    assert "email" + " is required" == "email is required";
    if u.email == "" {
      assert EmailEntry(u) == [FieldErrors("email", ["email is required", "Invalid email"])];
    } else if EmailPattern.MatchesEmailPattern(u.email) {
      assert EmailEntry(u) == [];
    } else {
      assert EmailEntry(u) == [FieldErrors("email", ["Invalid email"])];
    }
  }

  lemma PasswordStep(u: UserForCreate, prev: seq<FieldErrors>)
    requires "password" !in Fields(prev)
    ensures EmptyStringValidator(u.password, "password", prev) == prev + PasswordEntry(u)
  {
    if u.password == "" {
      var message := "password" + " is required";
      assert message == "password is required";
      assert EmptyStringValidator(u.password, "password", prev) == prev + [FieldErrors("password", [message])];
    } else {
      assert PasswordEntry(u) == [];
    }
  }

  /** The entries are for distinct fields, so the list has no repeated field. */
  lemma ShapeDistinct(u: UserForCreate)
    ensures DistinctFields(NameEntry(u) + EmailEntry(u) + PasswordEntry(u))
    ensures "email" !in Fields(NameEntry(u))
    ensures "password" !in Fields(NameEntry(u) + EmailEntry(u))
  {
    FieldNamesDiffer();
    var r := NameEntry(u) + EmailEntry(u) + PasswordEntry(u);
    assert forall i :: 0 <= i < |NameEntry(u)| ==> NameEntry(u)[i].field == "name";
    assert forall i :: 0 <= i < |EmailEntry(u)| ==> EmailEntry(u)[i].field == "email";
    assert forall i :: 0 <= i < |PasswordEntry(u)| ==> PasswordEntry(u)[i].field == "password";
  }

  /** The three shape checks, run in the order name, email, password on an
      empty list: one entry per failing field, in that order, each with the
      messages of its validator. */
  function ShapeErrors(u: UserForCreate): (r: seq<FieldErrors>)
    ensures r == NameEntry(u) + EmailEntry(u) + PasswordEntry(u)
    ensures DistinctFields(r)
  {
    var afterName := EmptyStringValidator(u.name, "name", []);
    assert "name" + " is required" == "name is required";
    assert afterName == NameEntry(u);
    ShapeDistinct(u);
    EmailStep(u, afterName);
    var afterEmail := EmailValidator(u.email, "email", afterName);
    PasswordStep(u, afterEmail);
    EmptyStringValidator(u.password, "password", afterEmail)
  }

  /** The outcome of sign-up validation: the field errors and the store
      error, if the e-mail lookup failed. */
  datatype ValidateReply = ValidateReply(errors: seq<FieldErrors>, err: Option<Error>)

  /** `UserForCreate.Validate`, given what the store's e-mail lookup returned
      (the lookup is made whatever the shape checks found). A lookup error
      returns the shape errors with that error; a user found under the
      e-mail adds "Email is already in use." to the `email` entry, merged
      into it when it exists and appended otherwise. */
  function Validate(u: UserForCreate, lookup: Lookup): (r: ValidateReply)
    ensures lookup.Failure? ==> r == ValidateReply(ShapeErrors(u), Some(lookup.error))
    ensures lookup == Success(None) ==> r == ValidateReply(ShapeErrors(u), None)
    ensures lookup.Success? && lookup.value.Some? ==>
      && r.err.None?
      && (forall f :: MessagesOf(r.errors, f) == MessagesOf(ShapeErrors(u), f) + (if f == "email" then [EmailInUse] else []))
      && Fields(r.errors) == (if "email" in Fields(ShapeErrors(u)) then Fields(ShapeErrors(u)) else Fields(ShapeErrors(u)) + ["email"])
    ensures DistinctFields(r.errors)
  {
    var shape := ShapeErrors(u);
    match lookup
    case Failure(e) => ValidateReply(shape, Some(e))
    case Success(None) => ValidateReply(shape, None)
    case Success(Some(_)) => ValidateReply(AddValidationError("email", EmailInUse, shape), None)
  }

  /** All three fields empty and no user on file: exactly three entries, in
      the order name, email, password, and the email entry carries both of
      its messages. */
  lemma ValidateAllEmpty()
    ensures Validate(UserForCreate("", "", ""), Success(None)) == ValidateReply(
      [ FieldErrors("name", ["name is required"]),
        FieldErrors("email", ["email is required", "Invalid email"]),
        FieldErrors("password", ["password is required"]) ], None)
  {
    var u := UserForCreate("", "", "");
    EmailPattern.EmptyIsNotEmail();
    assert NameEntry(u) == [FieldErrors("name", ["name is required"])];
    assert EmailEntry(u) == [FieldErrors("email", ["email is required", "Invalid email"])];
    assert PasswordEntry(u) == [FieldErrors("password", ["password is required"])];
    var shape := ShapeErrors(u);
    assert shape == [NameEntry(u)[0], EmailEntry(u)[0], PasswordEntry(u)[0]];
    assert Validate(u, Success(None)) == ValidateReply(shape, None);
  }

  /** A well-formed sign-up whose e-mail is free validates cleanly; one whose
      e-mail is taken gets exactly one entry, on `email`, with the single
      message "Email is already in use.". */
  lemma ValidateWellFormed(u: UserForCreate, existing: UserStore.User)
    requires u.name != "" && u.password != "" && EmailPattern.MatchesEmailPattern(u.email)
    ensures Validate(u, Success(None)) == ValidateReply([], None)
    ensures Validate(u, Success(Some(existing))) == ValidateReply([FieldErrors("email", [EmailInUse])], None)
  {
    assert NameEntry(u) == [] && EmailEntry(u) == [] && PasswordEntry(u) == [];
    assert ShapeErrors(u) == [];
    assert AddValidationError("email", EmailInUse, []) == [FieldErrors("email", [EmailInUse])];
  }

  /** The service's result for a sign-up: the field errors, the new user and
      the error. */
  datatype CreateResult = CreateResult(errors: seq<FieldErrors>, user: Option<UserData>, err: Option<Error>)

  /** A result together with the port calls that produced it. */
  datatype Run<T> = Run(result: T, calls: seq<Call>)

  /** The row handed to the store for a sign-up: key zero (the store assigns
      one), the input's name and e-mail, and the password hash. */
  function NewRow(u: UserForCreate, hash: string): (row: UserStore.User)
    ensures row.id == 0 && row.name == u.name && row.email == u.email && row.password == hash
  {
    UserStore.User(0, u.name, u.email, hash)
  }

  /** The service's reading of the store's create reply: a store error is
      returned alone, model errors are converted to field errors, and only a
      clean reply yields the new user, under the key the store assigned with
      the input's name and e-mail. */
  function FromCreateReply(u: UserForCreate, reply: CreateReply): (r: CreateResult)
    ensures reply.err.Some? ==> r == CreateResult([], None, reply.err)
    ensures reply.err.None? && reply.errors != [] ==>
      r == CreateResult(StoreErrorsToDomainErrors(reply.errors), None, None)
    ensures reply.err.None? && reply.errors == [] ==>
      r == CreateResult([], Some(UserData(reply.id, u.name, u.email)), None)
    ensures r.user.None? && r.err.None? ==> r.errors != []
  {
    if reply.err.Some? then
      CreateResult([], None, reply.err)
    else if |reply.errors| > 0 then
      var converted := StoreErrorsToDomainErrors(reply.errors);
      assert TotalMessages(converted) > 0;
      CreateResult(converted, None, None)
    else
      CreateResult([], Some(UserData(reply.id, u.name, u.email)), None)
  }

  /** The second half of `CreateUser`, once validation is clean: hash, then
      store. A hashing failure stops before the store is called. */
  function HashAndStore(u: UserForCreate, store: StorePort, crypto: Crypto): (r: Run<CreateResult>)
    ensures crypto.hash(u.password).Failure? ==>
      r == Run(CreateResult([], None, Some(HashFailed)), [HashPassword(u.password)])
    ensures crypto.hash(u.password).Success? ==>
      var row := NewRow(u, crypto.hash(u.password).value);
      r == Run(FromCreateReply(u, store.createUser(row)), [HashPassword(u.password), StoreCreate(row)])
  {
    match crypto.hash(u.password)
    case Failure(_) => Run(CreateResult([], None, Some(HashFailed)), [HashPassword(u.password)])
    case Success(h) =>
      var row := NewRow(u, h);
      Run(FromCreateReply(u, store.createUser(row)), [HashPassword(u.password), StoreCreate(row)])
  }

  /** What `CreateUser` does once validation has produced `v`, after the
      e-mail lookup: errors or a lookup error end the pipeline with those
      errors and that error, before anything is hashed or written; otherwise
      the rest is `HashAndStore`. */
  function AfterValidation(u: UserForCreate, v: ValidateReply, store: StorePort, crypto: Crypto): (r: Run<CreateResult>)
    ensures |r.calls| >= 1 && r.calls[0] == StoreGetByEmail(u.email)
    ensures v.err.Some? || v.errors != [] ==>
      r == Run(CreateResult(v.errors, None, v.err), [StoreGetByEmail(u.email)])
    ensures v.err.None? && v.errors == [] ==>
      r == Run(HashAndStore(u, store, crypto).result, [StoreGetByEmail(u.email)] + HashAndStore(u, store, crypto).calls)
  {
    var lookedUp := [StoreGetByEmail(u.email)];
    if v.err.Some? || |v.errors| > 0 then
      Run(CreateResult(v.errors, None, v.err), lookedUp)
    else
      var rest := HashAndStore(u, store, crypto);
      Run(rest.result, lookedUp + rest.calls)
  }

  /** `UserDomain.CreateUser`: validate (the e-mail lookup is always the
      first call), then hash, then store, then project. */
  function CreateUser(u: UserForCreate, store: StorePort, crypto: Crypto): (r: Run<CreateResult>)
    ensures |r.calls| >= 1 && r.calls[0] == StoreGetByEmail(u.email)
    ensures var v := Validate(u, store.getUserByEmail(u.email));
      v.err.Some? || v.errors != [] ==>
        r == Run(CreateResult(v.errors, None, v.err), [StoreGetByEmail(u.email)])
    ensures var v := Validate(u, store.getUserByEmail(u.email));
      v.err.None? && v.errors == [] ==>
        r == Run(HashAndStore(u, store, crypto).result, [StoreGetByEmail(u.email)] + HashAndStore(u, store, crypto).calls)
  {
    AfterValidation(u, Validate(u, store.getUserByEmail(u.email)), store, crypto)
  }

  lemma CreateUserClean(u: UserForCreate, store: StorePort, crypto: Crypto)
    requires Validate(u, store.getUserByEmail(u.email)) == ValidateReply([], None)
    ensures CreateUser(u, store, crypto) ==
      Run(HashAndStore(u, store, crypto).result, [StoreGetByEmail(u.email)] + HashAndStore(u, store, crypto).calls)
  {
  }

  lemma HashAndStoreCalls(u: UserForCreate, store: StorePort, crypto: Crypto)
    ensures crypto.hash(u.password).Success? ==>
      HashAndStore(u, store, crypto).calls == [HashPassword(u.password), StoreCreate(NewRow(u, crypto.hash(u.password).value))]
    ensures crypto.hash(u.password).Failure? ==>
      HashAndStore(u, store, crypto).calls == [HashPassword(u.password)]
  {
  }

  lemma HashesOnlyWhenClean(u: UserForCreate, v: ValidateReply, store: StorePort, crypto: Crypto)
    ensures HashPassword(u.password) in AfterValidation(u, v, store, crypto).calls <==> v == ValidateReply([], None)
  {
    var r := AfterValidation(u, v, store, crypto);
    if v == ValidateReply([], None) {
      HashAndStoreCalls(u, store, crypto);
      assert r.calls[1] == HashPassword(u.password);
    } else {
      assert r.calls == [StoreGetByEmail(u.email)];
    }
  }

  /** The password is hashed exactly when validation came back clean. */
  lemma CreateUserHashesOnlyWhenClean(u: UserForCreate, store: StorePort, crypto: Crypto)
    ensures HashPassword(u.password) in CreateUser(u, store, crypto).calls <==>
      Validate(u, store.getUserByEmail(u.email)) == ValidateReply([], None)
  {
    HashesOnlyWhenClean(u, Validate(u, store.getUserByEmail(u.email)), store, crypto);
  }

  lemma StoresHash(u: UserForCreate, v: ValidateReply, store: StorePort, crypto: Crypto)
    ensures forall c :: c in AfterValidation(u, v, store, crypto).calls && c.StoreCreate? ==>
      crypto.hash(u.password).Success? && c == StoreCreate(NewRow(u, crypto.hash(u.password).value))
  {
    var calls := AfterValidation(u, v, store, crypto).calls;
    if v.err.None? && v.errors == [] {
      HashAndStoreCalls(u, store, crypto);
      var rest := HashAndStore(u, store, crypto).calls;
      assert calls == [StoreGetByEmail(u.email)] + rest;
      assert forall c :: c in calls ==> c == StoreGetByEmail(u.email) || c in rest;
    } else {
      assert calls == [StoreGetByEmail(u.email)];
    }
  }

  /** The store is only ever asked to create the row carrying the password
      hash, never the plaintext, and only after a successful hash. */
  lemma CreateUserStoresHash(u: UserForCreate, store: StorePort, crypto: Crypto)
    ensures forall c :: c in CreateUser(u, store, crypto).calls && c.StoreCreate? ==>
      crypto.hash(u.password).Success? && c == StoreCreate(NewRow(u, crypto.hash(u.password).value))
  {
    StoresHash(u, Validate(u, store.getUserByEmail(u.email)), store, crypto);
  }

  lemma ResultOfPipeline(u: UserForCreate, v: ValidateReply, store: StorePort, crypto: Crypto)
    ensures var r := AfterValidation(u, v, store, crypto);
      r.result.user.Some? ==>
        && v == ValidateReply([], None)
        && r.result.errors == [] && r.result.err.None?
        && crypto.hash(u.password).Success?
        && StoreCreate(NewRow(u, crypto.hash(u.password).value)) in r.calls
        && r.result.user.value == UserData(store.createUser(NewRow(u, crypto.hash(u.password).value)).id, u.name, u.email)
    ensures var r := AfterValidation(u, v, store, crypto);
      r.result.user.None? && r.result.err.None? ==> r.result.errors != []
  {
    var r := AfterValidation(u, v, store, crypto);
    if r.result.user.Some? {
      HashAndStoreCalls(u, store, crypto);
      assert r.calls[2] == StoreCreate(NewRow(u, crypto.hash(u.password).value));
    }
  }

  /** A new user is returned only with no errors at all, after the store was
      asked to create the hashed row, and it carries the key the store
      assigned with the input's name and e-mail; with no user and no error
      there are field errors to report. */
  lemma CreateUserResult(u: UserForCreate, store: StorePort, crypto: Crypto)
    ensures var r := CreateUser(u, store, crypto);
      r.result.user.Some? ==>
        && Validate(u, store.getUserByEmail(u.email)) == ValidateReply([], None)
        && r.result.errors == [] && r.result.err.None?
        && crypto.hash(u.password).Success?
        && StoreCreate(NewRow(u, crypto.hash(u.password).value)) in r.calls
        && r.result.user.value == UserData(store.createUser(NewRow(u, crypto.hash(u.password).value)).id, u.name, u.email)
    ensures var r := CreateUser(u, store, crypto);
      r.result.user.None? && r.result.err.None? ==> r.result.errors != []
  {
    ResultOfPipeline(u, Validate(u, store.getUserByEmail(u.email)), store, crypto);
  }

  /** The projection of a stored row that the service hands out. */
  function Project(row: UserStore.User): (d: UserData)
    ensures d.id == row.id && d.name == row.name && d.email == row.email
  {
    UserData(row.id, row.name, row.email)
  }

  /** The service's result for a read: the user and the error. */
  datatype FindResult = FindResult(user: Option<UserData>, err: Option<Error>)

  /** A store lookup as the service reports it: an error gives no user and
      that error, no row gives neither, and a row gives its projection. */
  function FromLookup(lookup: Lookup): (r: FindResult)
    ensures lookup.Failure? ==> r == FindResult(None, Some(lookup.error))
    ensures lookup == Success(None) ==> r == FindResult(None, None)
    ensures lookup.Success? && lookup.value.Some? ==> r == FindResult(Some(Project(lookup.value.value)), None)
    ensures r.user.Some? ==> r.err.None?
  {
    match lookup
    case Failure(e) => FindResult(None, Some(e))
    case Success(None) => FindResult(None, None)
    case Success(Some(row)) => FindResult(Some(Project(row)), None)
  }

  /** `UserDomain.GetUserByEmail`: a store error gives no user and that error, no
      row gives neither, and a row gives its projection. */
  function GetUserByEmail(email: string, store: StorePort): (r: FindResult)
    ensures store.getUserByEmail(email).Failure? ==> r == FindResult(None, Some(store.getUserByEmail(email).error))
    ensures store.getUserByEmail(email) == Success(None) ==> r == FindResult(None, None)
    ensures store.getUserByEmail(email).Success? && store.getUserByEmail(email).value.Some? ==>
      r == FindResult(Some(Project(store.getUserByEmail(email).value.value)), None)
  {
    FromLookup(store.getUserByEmail(email))
  }

  /** `UserDomain.GetUserByID`: a store error gives no user and that error, no
      row gives neither, and a row gives its projection. */
  function GetUserByID(id: nat, store: StorePort): (r: FindResult)
    ensures store.getUserByID(id).Failure? ==> r == FindResult(None, Some(store.getUserByID(id).error))
    ensures store.getUserByID(id) == Success(None) ==> r == FindResult(None, None)
    ensures store.getUserByID(id).Success? && store.getUserByID(id).value.Some? ==>
      r == FindResult(Some(Project(store.getUserByID(id).value.value)), None)
  {
    FromLookup(store.getUserByID(id))
  }

  /** `UserDomain.DeleteUser`: a lookup error is returned; a missing user is
      not an error and nothing is deleted; otherwise the result is whatever
      the store's delete returns for the row found. */
  function DeleteUser(id: nat, store: StorePort): (r: Run<Option<Error>>)
    ensures store.getUserByID(id).Failure? ==>
      r == Run(Some(store.getUserByID(id).error), [StoreGetByID(id)])
    ensures store.getUserByID(id) == Success(None) ==> r == Run(None, [StoreGetByID(id)])
    ensures store.getUserByID(id).Success? && store.getUserByID(id).value.Some? ==>
      var row := store.getUserByID(id).value.value;
      r == Run(store.deleteUser(row), [StoreGetByID(id), StoreDelete(row)])
    ensures (exists i :: 0 <= i < |r.calls| && r.calls[i].StoreDelete?) <==>
      store.getUserByID(id).Success? && store.getUserByID(id).value.Some?
  {
    var looked := [StoreGetByID(id)];
    match store.getUserByID(id)
    case Failure(e) => Run(Some(e), looked)
    case Success(None) => Run(None, looked)
    case Success(Some(row)) =>
      var calls := looked + [StoreDelete(row)];
      assert calls[1].StoreDelete?;
      Run(store.deleteUser(row), calls)
  }

  /** `UserDomain.CheckPassword`: false on a lookup error or a missing user,
      otherwise whether the stored hash matches the password. */
  function CheckPassword(id: nat, password: string, store: StorePort, crypto: Crypto): (ok: bool)
    ensures ok <==>
      && store.getUserByID(id).Success?
      && store.getUserByID(id).value.Some?
      && crypto.matches(store.getUserByID(id).value.value.password, password)
  {
    match store.getUserByID(id)
    case Failure(_) => false
    case Success(None) => false
    case Success(Some(row)) => crypto.matches(row.password, password)
  }

  /** The longest token lifetime, in minutes, whose length in nanoseconds
      still fits a `time.Duration` (an int64). */
  const MaxExactMinutes: int := 153_722_867

  /** `time.Duration(m) * time.Minute`: the token lifetime in nanoseconds.
      The product is int64 arithmetic, so beyond `MaxExactMinutes` it wraps. */
  function TokenLifetime(expiryMinutes: int): (d: int)
    ensures InInt64(d)
    ensures -MaxExactMinutes <= expiryMinutes <= MaxExactMinutes ==> d == 60_000_000_000 * expiryMinutes
  {
    Wrap(60_000_000_000 * expiryMinutes)
  }

  /** One minute past the bound, the lifetime wraps to a negative duration. */
  lemma LifetimeWrapsPastBound()
    ensures TokenLifetime(MaxExactMinutes + 1) < 0
  {
  }

  /** `UserDomain.GenerateJWT`, with the HS256 signer as a parameter and
      `now` the service's clock reading in nanoseconds since the epoch. The
      claims name the given e-mail and expire the token lifetime after
      `now`, truncated to a whole second as `jwt.NewNumericDate` does; the
      signer sees that expiry; a signing failure is returned as is. */
  function GenerateJWT(email: string, now: int, expiryMinutes: int,
                       sign: (string, int) -> Result<string, Error>): (r: Result<Claims, Error>)
    ensures var expiresAt := (now + TokenLifetime(expiryMinutes)) / 1_000_000_000;
      && (r.Failure? <==> sign(email, expiresAt).Failure?)
      && (r.Failure? ==> r.error == sign(email, expiresAt).error)
    ensures r.Success? ==>
      && r.value.email == email
      && r.value.expiresAt * 1_000_000_000 <= now + TokenLifetime(expiryMinutes) < r.value.expiresAt * 1_000_000_000 + 1_000_000_000
      && r.value.tokenString == sign(email, r.value.expiresAt).value
  {
    var expiresAt := (now + TokenLifetime(expiryMinutes)) / 1_000_000_000;
    match sign(email, expiresAt)
    case Failure(e) => Failure(e)
    case Success(token) => Success(Claims(email, token, expiresAt))
  }

  /** A token for a lifetime within the bound expires no later than that
      lifetime after its issue, and less than a second earlier. */
  lemma TokenLivesItsLifetime(email: string, now: int, expiryMinutes: int, sign: (string, int) -> Result<string, Error>)
    requires -MaxExactMinutes <= expiryMinutes <= MaxExactMinutes
    requires GenerateJWT(email, now, expiryMinutes, sign).Success?
    ensures var expiresAt := GenerateJWT(email, now, expiryMinutes, sign).value.expiresAt;
      now + 60_000_000_000 * expiryMinutes - 1_000_000_000 < expiresAt * 1_000_000_000 <= now + 60_000_000_000 * expiryMinutes
  {
  }

  /** A lifetime one minute past the bound gives a token that has expired
      before it was issued. */
  lemma WrappedTokenExpiredAtIssue(email: string, now: int, sign: (string, int) -> Result<string, Error>)
    requires GenerateJWT(email, now, MaxExactMinutes + 1, sign).Success?
    ensures GenerateJWT(email, now, MaxExactMinutes + 1, sign).value.expiresAt * 1_000_000_000 < now
  {
    LifetimeWrapsPastBound();
  }

  /** The in-memory table behind the store port, with no database failures.
      A create is answered from the table as it was before the call. */
  function PortOf(db: UserStore.Db): StorePort {
    StorePort(
      email => UserStore.GetUserByEmail(db, email, None),
      (id: nat) => UserStore.GetUserByID(db, id, None),
      row => var w := UserStore.CreateUser(db, row, None); CreateReply(w.errors, w.user.id, w.err),
      row => UserStore.DeleteUser(db, row, None).err)
  }

  /** Clean validation, a successful hash and a clean store reply: the new
      user under the key the store assigned, after lookup, hash and create. */
  lemma CreateUserSucceeds(u: UserForCreate, store: StorePort, crypto: Crypto, h: string, id: nat)
    requires Validate(u, store.getUserByEmail(u.email)) == ValidateReply([], None)
    requires crypto.hash(u.password) == Success(h)
    requires store.createUser(NewRow(u, h)) == CreateReply([], id, None)
    ensures CreateUser(u, store, crypto) == Run(
      CreateResult([], Some(UserData(id, u.name, u.email)), None),
      [StoreGetByEmail(u.email), HashPassword(u.password), StoreCreate(NewRow(u, h))])
  {
    assert CreateUser(u, store, crypto) == AfterValidation(u, ValidateReply([], None), store, crypto);
    CleanPipelineSucceeds(u, store, crypto, h, id);
  }

  lemma CleanPipelineSucceeds(u: UserForCreate, store: StorePort, crypto: Crypto, h: string, id: nat)
    requires crypto.hash(u.password) == Success(h)
    requires store.createUser(NewRow(u, h)) == CreateReply([], id, None)
    ensures AfterValidation(u, ValidateReply([], None), store, crypto) == Run(
      CreateResult([], Some(UserData(id, u.name, u.email)), None),
      [StoreGetByEmail(u.email), HashPassword(u.password), StoreCreate(NewRow(u, h))])
  {
    var rest := HashAndStore(u, store, crypto);
    assert rest == Run(FromCreateReply(u, CreateReply([], id, None)), [HashPassword(u.password), StoreCreate(NewRow(u, h))]);
    assert FromCreateReply(u, CreateReply([], id, None)) == CreateResult([], Some(UserData(id, u.name, u.email)), None);
  }

  /** What the table answers to the create of a well-formed row: no errors,
      and the next key. */
  lemma TableCreatesUnderNextKey(db: UserStore.Db, row: UserStore.User)
    requires UserStore.Valid(db) && row.id == 0
    requires row.name != "" && row.email != "" && row.password != ""
    ensures PortOf(db).createUser(row) == CreateReply([], db.nextId, None)
  {
    assert UserStore.Validate(row) == [];
  }

  /** The table finds no user under an e-mail no row has. */
  lemma TableLookupFree(db: UserStore.Db, email: string)
    requires UserStore.Valid(db)
    requires forall id :: id in db.rows ==> db.rows[id].email != email
    ensures PortOf(db).getUserByEmail(email) == Success(None)
  {
  }

  /** Sign-up against a valid table with a free e-mail and a hasher that
      succeeds: the user is created under the next key with the input's name
      and e-mail, after exactly the three calls lookup, hash, create. */
  lemma SignUpWithFreeEmail(db: UserStore.Db, u: UserForCreate, crypto: Crypto, h: string)
    requires UserStore.Valid(db)
    requires u.name != "" && u.password != "" && EmailPattern.MatchesEmailPattern(u.email)
    requires forall id :: id in db.rows ==> db.rows[id].email != u.email
    requires crypto.hash(u.password) == Success(h) && h != ""
    ensures CreateUser(u, PortOf(db), crypto) == Run(
      CreateResult([], Some(UserData(db.nextId, u.name, u.email)), None),
      [StoreGetByEmail(u.email), HashPassword(u.password), StoreCreate(NewRow(u, h))])
  {
    ValidateWellFormed(u, UserStore.User(0, "", "", ""));
    TableLookupFree(db, u.email);
    EmailPattern.EmptyIsNotEmail();
    TableCreatesUnderNextKey(db, NewRow(u, h));
    CreateUserSucceeds(u, PortOf(db), crypto, h, db.nextId);
  }

  /** Sign-up with an e-mail already on file: exactly one validation entry,
      on `email`, with "Email is already in use."; nothing is hashed or
      created. */
  lemma SignUpWithTakenEmail(db: UserStore.Db, u: UserForCreate, crypto: Crypto, taken: nat)
    requires UserStore.Valid(db)
    requires u.name != "" && u.password != "" && EmailPattern.MatchesEmailPattern(u.email)
    requires taken in db.rows && db.rows[taken].email == u.email
    ensures CreateUser(u, PortOf(db), crypto) == Run(
      CreateResult([FieldErrors("email", [EmailInUse])], None, None), [StoreGetByEmail(u.email)])
  {
    var lookup := UserStore.GetUserByEmail(db, u.email, None);
    assert lookup.value.Some?;
    ValidateWellFormed(u, lookup.value.value);
  }

  /** Reading by key through the service returns the projection of the
      stored row, or nothing when there is none. */
  lemma GetUserByIDFromTable(db: UserStore.Db, id: nat)
    ensures GetUserByID(id, PortOf(db)) ==
      FindResult(if id in db.rows then Some(Project(db.rows[id])) else None, None)
  {
  }

  /** Deleting through the service against a valid table never meets the
      store's refusal of a zero key: the delete succeeds, asking the store to
      delete the row under the key when there is one and nothing otherwise. */
  lemma DeleteUserFromTable(db: UserStore.Db, id: nat)
    requires UserStore.Valid(db)
    ensures DeleteUser(id, PortOf(db)).result.None?
    ensures id in db.rows ==> DeleteUser(id, PortOf(db)).calls == [StoreGetByID(id), StoreDelete(db.rows[id])]
    ensures id !in db.rows ==> DeleteUser(id, PortOf(db)).calls == [StoreGetByID(id)]
  {
    var port := PortOf(db);
    assert port.getUserByID(id) == UserStore.GetUserByID(db, id, None);
    if id in db.rows {
      var row := db.rows[id];
      assert row.id == id && id != 0;
      assert port.deleteUser(row) == UserStore.DeleteUser(db, row, None).err;
    }
  }

  /** Checking a password through the service against the table: true
      exactly when a row is stored under the key and its hash matches. */
  lemma CheckPasswordFromTable(db: UserStore.Db, id: nat, password: string, crypto: Crypto)
    ensures CheckPassword(id, password, PortOf(db), crypto) <==>
      id in db.rows && crypto.matches(db.rows[id].password, password)
  {
  }
}
