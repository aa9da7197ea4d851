# lines: the user account core, modelled in Dafny

This project models the account service of the "lines" Go back end, and
proves properties of that model:

- **Validation.** The field-error lists of the shared domain package:
  `AddValidationError`, the empty-string and e-mail validators and the
  conversion of store errors. The e-mail regex is stated as a predicate and
  matched by an executable checker that is proved equal to it.
- **Store.** The Postgres user store: model validation and the
  create/read/update/delete operations. The store is an in-memory table
  keyed by the primary key.
- **Service.** The user domain service: sign-up validation and the
  `CreateUser` pipeline, reads, delete, the password check and token issue.
  The store, bcrypt and the JWT signer are function-valued ports, and each
  operation returns the calls it made on them.
- **HTTP.** The sign-in, sign-out, token-refresh and sign-up handlers. Each
  is a pure function from the request's bind outcome and the service to
  the calls made and the responses written.
- **Configuration.** The environment helpers of internal/utils.go
  (`GetEnvOrDefault` and its coercions, the Redis and Postgres connection
  strings) and the two configuration loaders, internal/config.go and the
  older users/config.go. The environment is a map from key to value; an
  absent key reads as "", as `os.Getenv` does.

A Go panic is modelled as a `Failure` that carries the panic's message. A
missing record is "no row, no error", which is how the code behaves. Where
the documentation and the code disagree, the model follows the code.

Modules, one per source component:

- `Wrappers`: Option and Result.
- `GoInt`: Go's 64-bit integers: wrap-around, saturation and truncating division.
- `Strings`: Go's `strings.Split` and `strings.Join`, plus decimal digits.
- `EmailPattern`: the e-mail regex.
- `Validation`: lines/domain/validators.go.
- `UserStore`: user/stores.
- `UserDomain`: user/domain.
- `UserIngress`: user/ingress/http.
- `EnvUtils`: internal/utils.go.
- `MainConfigLoader`: internal/config.go.
- `StaleConfigLoader`: users/config.go.

## Model

| member | source | states |
|---|---|---|
| Strings.Split | internal/utils.go:86 | Go's `strings.Split` on a non-empty separator: joining the parts with the separator gives back the input, and no part contains the separator |
| Strings.IntToDecimal | users/config.go:45 | `%v` of an int: a leading '-' exactly for negatives, followed by decimal digits that denote the magnitude, with no leading zeros |
| Strings.DecimalCanonical | users/config.go:45 | a digit string with no leading zero that denotes n is the decimal text of n, so the printed port is the only such text |
| EmailPattern.IsEmailMatchesPattern | lines/domain/validators.go:40-41 | the executable matcher accepts a string exactly when the anchored pattern `local@domain.tld` (letters, digits and `._%+-` before '@', letters, digits and `.-` after it, a final '.', then two or more letters) matches |
| EmailPattern.IsEmailSound | lines/domain/validators.go:40-41 | whatever the matcher accepts matches the pattern |
| EmailPattern.IsEmailComplete | lines/domain/validators.go:40-41 | whatever matches the pattern is accepted by the matcher |
| EmailPattern.EmptyIsNotEmail | lines/domain/validators.go:40-41 | the empty string does not match the pattern |
| Validation.FindField | lines/domain/validators.go:14-15 | the index of the first entry for a field, and none exactly when no entry has that field |
| Validation.AddValidationError | lines/domain/validators.go:13-25 | a message for a field already listed is appended to that field's first entry; otherwise a new entry `{field, [message]}` goes at the end. Field order is kept, only that field's messages grow (by this message), the total grows by one, and distinct fields stay distinct |
| Validation.AppendToExisting | lines/domain/validators.go:14-18 | appending to the first entry of a present field keeps the field list and the other fields' messages, and adds exactly one message |
| Validation.AppendNewEntry | lines/domain/validators.go:20-24 | a new entry for an absent field is found at the old length; it adds the field at the end and exactly one message |
| Validation.EmptyStringValidator | lines/domain/validators.go:28-33 | a non-empty value leaves the list unchanged; an empty value adds "<field> is required" for that field and nothing else |
| Validation.EmailValidator | lines/domain/validators.go:36-45 | a value matching the pattern leaves the list unchanged; a non-empty non-matching value adds "Invalid email"; an empty value adds "<field> is required" and then "Invalid email" |
| Validation.RequiredThenInvalid | lines/domain/validators.go:37-43 | for an empty value the field's messages grow by "<field> is required" and then "Invalid email", in that order; for an unlisted field they form one new entry |
| Validation.StoreErrorsToDomainErrors | lines/domain/validators.go:47-53 | one entry per field, in first-seen order, each holding that field's store messages in input order; the total message count equals the number of store errors |
| UserStore.RequiredErrorFacts | user/stores/models_postgres.go:15-28 | the three model errors are distinct; each message is "<field> is required"; the fields rank name, email, password |
| UserStore.Validate | user/stores/models_postgres.go:15-28 | no errors exactly when name, e-mail and password are all non-empty; one "is required" error per empty field, in the order name, email, password |
| UserStore.Insert | user/stores/services_postgres.go:5-11 | gorm `Create`: a zero key is assigned the next key; an explicit key held by a live or a soft-deleted row is rejected with the primary-key violation and leaves the table unchanged; a success adds exactly the new row, with all other fields as given |
| UserStore.CreateUser | user/stores/services_postgres.go:5-11 | model errors are returned before the database is touched; a database error leaves the table unchanged; on a valid table, a valid zero-key user is inserted under the next key |
| UserStore.FirstWithEmail | user/stores/services_postgres.go:15 | the smallest key in range whose row has the e-mail, and none exactly when no row in range has it |
| UserStore.GetUserByEmail | user/stores/services_postgres.go:13-23 | a database error is returned; otherwise the lowest-keyed row with that e-mail, or no row and no error when there is none |
| UserStore.GetUserByID | user/stores/services_postgres.go:25-35 | a database error is returned; otherwise the row exactly when the key is present, or no row and no error |
| UserStore.UpdateUser | user/stores/services_postgres.go:37-43 | gorm `Save`: model errors or a database error leave the table unchanged; otherwise the row under the user's key becomes the user, and a soft-deleted row under that key comes back live |
| UserStore.DeleteUser | user/stores/services_postgres.go:44-46 | a zero key is refused with gorm's missing-WHERE error before the database is reached; otherwise, without a database error, a live row under the key is soft-deleted: no read sees it, but its key stays taken; no other row changes |
| UserStore.CreateThenRead | user/stores/services_postgres.go:5-35 | a created user reads back, by key and by e-mail when the e-mail was free, as the stored row |
| UserStore.UpdateThenRead | user/stores/services_postgres.go:25-43 | a valid update reads back by key as the new user; an invalid one changes no read |
| UserStore.SoftDeletedKeyStaysTaken | user/stores/services_postgres.go:5-46 | after a create and a delete, creating a row under the deleted key again is the primary-key violation and changes nothing, while saving a row under it brings it back readable |
| UserStore.DeleteThenRead | user/stores/services_postgres.go:25-46 | after a delete of a non-zero key the key reads as no row; a zero-key delete fails and leaves the table as it was; other keys read as before |
| UserDomain.ShapeErrors | user/domain/interfaces.go:27-30 | the name, e-mail and password checks in that order: one entry per failing field, with no field repeated |
| UserDomain.Validate | user/domain/interfaces.go:26-42 | a store error is passed on with the shape errors; an e-mail already on file adds "Email is already in use." to the email field; the field list never repeats a field |
| UserDomain.ValidateAllEmpty | user/domain/interfaces.go:26-42 | an all-empty sign-up gets exactly three entries: name required, email required then invalid, password required |
| UserDomain.ValidateWellFormed | user/domain/interfaces.go:26-42 | a well-formed sign-up with a free e-mail validates cleanly; with the e-mail taken, the only error is "Email is already in use." |
| UserDomain.NewRow | user/domain/services.go:34-38 | the row sent to the store has key zero, the given name and e-mail, and the hash instead of the password |
| UserDomain.FromCreateReply | user/domain/services.go:39-50 | a store error is passed on with nothing else; model errors are converted to field errors; a clean reply gives the user under the assigned key; there is never neither a user, an error nor field errors |
| UserDomain.HashAndStore | user/domain/services.go:30-50 | a hash failure stops before the store with the hashing error; otherwise the store is called once, with the hashed row |
| UserDomain.AfterValidation | user/domain/services.go:21-51 | the e-mail lookup comes first; unclean validation stops there with its errors; clean validation goes on to hash and store |
| UserDomain.CreateUser | user/domain/services.go:21-51 | sign-up: validation, with its e-mail lookup always first, then hash and store only when validation was clean |
| UserDomain.HashesOnlyWhenClean | user/domain/services.go:23-33 | after validation, the password is hashed exactly when validation came back clean |
| UserDomain.CreateUserHashesOnlyWhenClean | user/domain/services.go:23-33 | the password is hashed exactly when sign-up validation is clean |
| UserDomain.StoresHash | user/domain/services.go:30-39 | every store create after validation happens after a successful hash and sends the row carrying that hash, never the password |
| UserDomain.CreateUserStoresHash | user/domain/services.go:30-39 | in sign-up, every store create carries the password's hash |
| UserDomain.ResultOfPipeline | user/domain/services.go:21-51 | a user comes back only after clean validation, with no errors, after the store was asked to create the hashed row, and it carries the store's key with the input's name and e-mail; with neither a user nor an error there are field errors |
| UserDomain.CreateUserResult | user/domain/services.go:21-51 | sign-up returns a user only after clean validation and a store create of the hashed row, under the store's key; otherwise it returns an error or field errors, never neither |
| UserDomain.CreateUserSucceeds | user/domain/services.go:21-51 | clean validation, a successful hash and a clean store reply give the new user under the assigned key, after exactly lookup, hash and create |
| UserDomain.Project | user/domain/services.go:61-65 | the public view keeps the key, name and e-mail, never the hash |
| UserDomain.FromLookup | user/domain/services.go:53-66 | a store error gives no user and that error; no row gives neither; a row gives its public view and no error |
| UserDomain.GetUserByEmail | user/domain/services.go:53-66 | reading by e-mail: the store's error, nothing, or the row's public view |
| UserDomain.GetUserByID | user/domain/services.go:68-81 | reading by key: the store's error, nothing, or the row's public view |
| UserDomain.DeleteUser | user/domain/services.go:83-92 | a lookup error is returned; a missing user is not an error and deletes nothing; the store deletes only a user it found |
| UserDomain.CheckPassword | user/domain/services.go:94-101 | true exactly when the lookup found the row and the stored hash matches the password |
| GoInt.Wrap | user/domain/services.go:107 | int64 arithmetic: the result lies in the int64 range, is congruent to the exact value modulo 2^64, and equals it when that fits |
| UserDomain.TokenLifetime | user/domain/services.go:107 | `time.Duration(m) * time.Minute` is an int64 number of nanoseconds: 60·10^9·m for \|m\| up to 153,722,867 minutes, wrapped beyond |
| UserDomain.LifetimeWrapsPastBound | user/domain/services.go:107 | one minute past that bound the lifetime wraps to a negative duration |
| UserDomain.GenerateJWT | user/domain/services.go:103-117 | the claims name the e-mail and expire at the issue time plus the (wrapped) lifetime, cut down to a whole second; the token is the signer's output for that e-mail and expiry; a signer failure is returned as the error |
| UserDomain.TokenLivesItsLifetime | user/domain/services.go:103-117 | for a lifetime within the bound the token expires no later than the lifetime after issue, and less than a second earlier |
| UserDomain.WrappedTokenExpiredAtIssue | user/domain/services.go:107 | a lifetime of 153,722,868 minutes gives a token that expired before it was issued |
| UserDomain.TableCreatesUnderNextKey | user/stores/services_postgres.go:5-11 | the table answers a well-formed zero-key create with no errors and the next key |
| UserDomain.TableLookupFree | user/stores/services_postgres.go:13-23 | the table finds no user under an e-mail that no row has |
| UserDomain.SignUpWithFreeEmail | user/domain/services.go:21-51 | against the table, a well-formed sign-up with a free e-mail creates the user under the next key |
| UserDomain.SignUpWithTakenEmail | user/domain/interfaces.go:33-39 | against the table, a taken e-mail gives exactly "Email is already in use." and never hashes or stores |
| UserDomain.GetUserByIDFromTable | user/domain/services.go:68-81 | reading by key through the service against the table gives the row's public view exactly when the key is present |
| UserDomain.DeleteUserFromTable | user/domain/services.go:83-92 | deleting through the service against a valid table never fails: it deletes the row under the key when there is one and asks for nothing otherwise |
| UserDomain.CheckPasswordFromTable | user/domain/services.go:94-101 | checking through the service against the table is true exactly when the key is present and its stored hash matches |
| UserIngress.ValidateLogin | user/ingress/http/interfaces.go:12-21 | one message per empty field, the e-mail's first; none exactly when both fields are set |
| UserIngress.SessionCookie | user/ingress/http/endpoints.go:42-50 | the "Bearer" cookie: path "/", HTTP-only, the site's domain, secure exactly when SSL is on, carrying the token |
| UserIngress.MaxAgeAttribute | user/ingress/http/endpoints.go:42-50 | net/http's rendering of a cookie max-age: no `Max-Age` for 0, `Max-Age=0` for a negative value, the value itself otherwise |
| UserIngress.CookieMaxAge | user/ingress/http/endpoints.go:41 | the whole seconds, rounded toward zero, from the handler's clock reading to the expiry, with the gap saturated at the int64 range |
| UserIngress.ExpiredTokenDropsCookie | user/ingress/http/endpoints.go:41-45 | a token that expired a second or more before the handler's clock reading gets `Max-Age=0` |
| UserIngress.SessionWrites | user/ingress/http/endpoints.go:41-52 | a signed-in response sets the cookie, whose max-age is the token's remaining whole seconds by the handler's own clock, then answers 200 with the claims |
| UserIngress.SignInLadder | user/ingress/http/endpoints.go:11-53 | a bind error gives 400; validation messages give 400; the e-mail lookup comes first; a lookup error, an unknown user or a wrong password give the same 401; a token is asked for only third, after a passing password check, for the looked-up user's e-mail |
| UserIngress.TokenStep | user/ingress/http/endpoints.go:36-52 | once both checks pass, a token is asked for the user's e-mail; a signed token gives the cookie and 200 |
| UserIngress.ReachesTokenStepExec | user/ingress/http/endpoints.go:19-34 | the executable check agrees with the definition of reaching the token step |
| UserIngress.SignInAsWritten | user/ingress/http/endpoints.go:36-41 | as written: when the signer fails after both checks pass, 500 is written and the nil claims are then read |
| UserIngress.SignInAsWrittenPanics | user/ingress/http/endpoints.go:36-41 | a concrete user, the right password and a failing signer reach the nil read |
| UserIngress.SignIn | user/ingress/http/endpoints.go:11-53 | with the return after the 500, sign-in never reads through nil, a signer failure answers only 500, and a cookie is set only after both checks pass, followed by 200 |
| UserIngress.SignInAgreesUnlessTokenFails | user/ingress/http/endpoints.go:36-41 | the corrected and as-written handlers make the same calls, and differ exactly when the signer fails at the token step |
| UserIngress.SignInHidesWhichCheckFailed | user/ingress/http/endpoints.go:24-34 | an unknown e-mail and a wrong password get the same single 401 response |
| UserIngress.SignOut | user/ingress/http/endpoints.go:56-66 | sign-out calls nothing and writes one "Bearer" cookie with an empty value and max-age 0, which net/http sends with no `Max-Age`, overwriting the sign-in cookie |
| UserIngress.SignOutSendsEmptySessionCookie | user/ingress/http/endpoints.go:56-66 | the sign-out cookie is empty and carries no `Max-Age` attribute |
| UserIngress.SignOutClearsSignInCookie | user/ingress/http/endpoints.go:42-66 | the sign-out cookie has the sign-in cookie's name, path and domain, so it replaces it |
| UserIngress.RefreshToken | user/ingress/http/endpoints.go:69-92 | a failed authentication gives 401; otherwise one token is issued for the authenticated e-mail, answered by the cookie and 200, or by 500 when signing fails |
| UserIngress.SignUp | user/ingress/http/endpoints.go:94-130 | a bind error or messages give 400; a service error gives 500 even when field errors came with it; field errors give 400; a new user gives 201 with its public view |
| UserIngress.SignUpAgainstServiceIsSafe | user/ingress/http/endpoints.go:113-129 | against the account service, sign-up never reads a missing user |
| UserIngress.FreshTokenMaxAge | user/ingress/http/endpoints.go:41 | for a token whose expiry is its issue time plus the lifetime cut to a whole second, the max-age never exceeds the lifetime and falls short by less than two seconds plus the time between the two clock readings; it is exact only when both readings are one whole second |
| UserIngress.IssuedCookieLifetime | user/ingress/http/endpoints.go:41 | the same bounds, in minutes, for a token the service issued |
| UserIngress.SignInCookieLifetime | user/ingress/http/endpoints.go:41-45 | against the account service, with separate clock readings for the signer and the handler, the session cookie lives at most the configured minutes, and less by under two seconds plus the time between the readings |
| UserIngress.FifteenMinuteCookieExample | user/ingress/http/endpoints.go:41 | a fifteen-minute token issued half a second past a whole second, read a millisecond later, gives a cookie of 899 seconds |
| UserIngress.RefreshAgreesWithSignIn | user/ingress/http/endpoints.go:69-92 | a refresh for the e-mail of a user who could sign in makes sign-in's token request and writes exactly what sign-in writes |
| EnvUtils.CoerceBool | internal/utils.go:61-69 | accepted exactly for "true" and "false", and true exactly for "true" |
| EnvUtils.CoerceInt | internal/utils.go:73-79 | `strconv.Atoi`: accepted exactly when the text is an optional sign followed by decimal digits whose value fits 64 bits, and then it is that value; zero on failure |
| EnvUtils.CoerceIntReadsDecimal | internal/utils.go:73-79 | reading back a printed integer gives that integer exactly when it fits 64 bits |
| EnvUtils.CoerceIntExamples | internal/utils.go:73-79 | "+007" reads as 7; "", "-" and "1_000" are rejected |
| EnvUtils.CoerceSliceOfStrings | internal/utils.go:81-87 | "" gives no items; otherwise the comma-free items join back with commas to the input |
| EnvUtils.SliceCount | internal/utils.go:81-87 | a non-empty value gives one more item than it has commas |
| EnvUtils.SliceRoundTrip | internal/utils.go:81-87 | comma-free items joined with commas split back into the same items |
| EnvUtils.EnvText | internal/utils.go:33-36 | the variable's value when set and non-empty, the default otherwise |
| EnvUtils.GetEnvOrDefault | internal/utils.go:32-57 | per expected type: a coerced bool or int, or "invalid bool/int value for <key>"; the text; the comma list; any other type fails with "invalid expectedType for <key>" |
| EnvUtils.DefaultSubstitution | internal/utils.go:33-36 | an unset or empty variable reads exactly as its default would; a set one ignores the default |
| EnvUtils.ReadBool | internal/utils.go:37-43 | a bool read succeeds exactly for "true" or "false" after default substitution, and otherwise fails naming the key |
| EnvUtils.ReadInt | internal/utils.go:44-49 | an int read succeeds exactly when the text denotes a 64-bit integer, and otherwise fails naming the key |
| EnvUtils.ReadString | internal/utils.go:50-51 | a string read is the set value, or the default |
| EnvUtils.ReadList | internal/utils.go:52-53 | a list read is the comma split of the set value or the default, and joins back to it |
| EnvUtils.RedisConnStringSplitter | internal/utils.go:10-15 | no '@' panics with index 1 out of range; a success gives an '@'-free URL and password |
| EnvUtils.RedisRoundTrip | internal/utils.go:10-15 | "redis://:<password>@<url>" splits back into exactly that URL and password |
| EnvUtils.PostgresFieldsJoin | internal/utils.go:18-25 | the six `key=value` fields joined with single spaces are exactly the formatted connection string |
| EnvUtils.GeneratePostgresConnString | internal/utils.go:17-26 | for any parts, exactly `host=<url> user=<username> password=<password> dbname=<dbName> port=<port> sslmode=disable`; when no part contains a space, the string splits on spaces back into those six fields |
| MainConfigLoader.NewConfig | internal/config.go:17-33 | the configuration loads exactly when the three switches are "true"/"false" and the port is a 64-bit integer; each field is its variable or default; SSL is on only when asked for and not in local development; a failure names the first bad key in the order LOCAL_DEV, TEST_RUNNER, USE_SSL, HTTP_PORT |
| MainConfigLoader.LocalDevDisablesSsl | internal/config.go:24 | in local development SSL is off |
| MainConfigLoader.DefaultPortReads | internal/config.go:29 | the default port text reads as 8080 |
| MainConfigLoader.DefaultOrigin | internal/config.go:27 | the default CORS value is the single origin "http://localhost" |
| MainConfigLoader.DefaultConfig | internal/config.go:17-30 | with nothing set: local development, no test runner, no SSL, localhost, "info", one origin, no Sentry DSN, port 8080 |
| MainConfigLoader.DefaultSwitches | internal/config.go:18-20 | the unset switches read as true, false, false |
| MainConfigLoader.DefaultHttpPort | internal/config.go:29 | an unset or empty HTTP_PORT reads as 8080 |
| MainConfigLoader.DefaultOriginRead | internal/config.go:27 | an unset or empty CORS_ORIGINS reads as the one default origin |
| MainConfigLoader.CorsOriginsSplit | internal/config.go:27 | CORS_ORIGINS set to comma-joined origins loads as exactly those origins |
| StaleConfigLoader.PostgresConnString | users/config.go:38-47 | for any configuration, exactly the six-field string of the configured URL, user name, password, database name and the port printed in decimal; when the four text parts contain no space, it splits on spaces back into those fields |
| StaleConfigLoader.Switches | users/config.go:50-52 | the three switches read in order, and succeed exactly when each is "true"/"false" |
| StaleConfigLoader.Numbers | users/config.go:60-66 | token lifetime, port and Postgres port read as 64-bit integers, and succeed exactly when all three denote one |
| StaleConfigLoader.Assemble | users/config.go:54-72 | every field is its variable when set and non-empty, its default otherwise, and the read switches and numbers; SSL is on unless plain HTTP is allowed or in local development |
| StaleConfigLoader.LoadFields | users/config.go:50-72 | loading succeeds exactly when the switches and numbers do, and then every field is as assembled from them and the text variables |
| StaleConfigLoader.NewConfig | users/config.go:49-77 | with REDIS_CONN_STRING set, the loaded Redis URL (not the connection string) is split into URL and password, failing with the index panic when it holds no '@'; otherwise the fields are as loaded |
| StaleConfigLoader.DefaultLifetimeReads | users/config.go:60 | the default token lifetime reads as 60 |
| StaleConfigLoader.DefaultPostgresPortReads | users/config.go:66 | the default Postgres port reads as 5432 |
| StaleConfigLoader.DefaultNumbers | users/config.go:60-66 | unset integer settings read as 60, 8080 and 5432 |
| StaleConfigLoader.DefaultConfig | users/config.go:49-77 | with nothing set, every field is its documented default |
| StaleConfigLoader.RedisOverrideOfDefaultUrlFails | users/config.go:70-75 | REDIS_CONN_STRING without REDIS_URL makes the loader fail, because the default URL has no '@' |
| StaleConfigLoader.DefaultRedisUrlDoesNotSplit | users/config.go:31-36 | the default Redis URL "localhost:6379" does not split |
| StaleConfigLoader.RedisOverrideOfConnectionUrl | users/config.go:73-75 | when REDIS_URL holds "redis://:<password>@<url>", the override yields exactly that URL and password |
| StaleConfigLoader.SslRulesDiffer | users/config.go:57 | outside local development with nothing else set, this loader turns SSL on and the main loader leaves it off |
| StaleConfigLoader.StaleSslOutsideLocalDev | users/config.go:57 | with only LOCAL_DEV=false set, this loader loads and turns SSL on |
| StaleConfigLoader.MainSslOutsideLocalDev | internal/config.go:24 | with only LOCAL_DEV=false set, the main loader loads and leaves SSL off |
| StaleConfigLoader.LocalDevDisablesSsl | users/config.go:57 | in local development this loader never uses SSL |

## Left out

- bcrypt is an abstract hasher and comparer port: `HashAndSalt` (user/domain/services.go:12-19) and `CompareHashAndPassword`. Hashing may fail; the cost parameter is not modelled.
- JWT HS256 signing is an abstract signer port. The two clock readings, the service's when it signs and the handler's when it sets the cookie, are separate parameters in nanoseconds since the epoch.
- UserIngress.CookieMaxAge: the float64 rounding of `Duration.Seconds()` is not modelled; from 2^24 seconds (about 194 days) of remaining time on, a fraction just short of a whole second can round up and add a second to the max-age.
- UserDomain.GenerateJWT: an overflow of `time.Time.Add` (an expiry past the year 2262) is not modelled; the wrap of the lifetime itself is.
- `V1GetUser` is left out: its authentication helper `ValidateRequestAuth` is not part of this model.
- The sign-up body's own check, `UserSignUp.Validate`, is not part of this model; it is a parameter of `UserIngress.SignUp`. The refresh handler takes the authentication outcome as an input.
- Request binding (`BindJSON`) is an input outcome: the bound value or the binding error.
- gorm's `RecordNotFound` is "no row"; the store answers no user and no error, as the code does.
- Database faults are an explicit optional error parameter of each store operation. Transactions, connection handling and the SQL itself are not modelled.
- gorm's soft delete is modelled by the set of soft-deleted keys: no read sees those rows, their keys stay taken, and gorm's `Save` revives them. The contents of a soft-deleted row and the `CreatedAt`, `UpdatedAt` and `DeletedAt` timestamps are not modelled.
- An explicit key on create inserts at that key when it is free. The next key then moves past it, which simplifies the Postgres sequence.
- Logging and the logger built from the log level are not modelled.
- Go's `int` is taken as 64 bits, in the integer coercion and in the time arithmetic.
- user/stores/models_postgres.go declares no unique index on `Email`, so the store accepts two rows with one e-mail. The e-mail check in sign-up validation is the only guard; it is check-then-insert, so two concurrent sign-ups can both pass it. Concurrency is not modelled.
- The methods of users/config.go are declared on a type `Config` that the file never defines, so that file does not compile. The model reads them as methods of `GlobalConfig`. Its helper functions duplicate those of internal/utils.go and share their single definition here.
- The secret key, a byte slice in the source, is kept as the text it is made from.
- The wiring of handlers to routes, the Redis session store and the older store package (users/services) are not modelled.
- Response bodies are data values (status and message list, or the claims), not serialised JSON text.

## Findings

| source | as written | input that shows it | evidently intended | confidence | as-written member | corrected member |
|---|---|---|---|---|---|---|
| user/ingress/http/endpoints.go:36-41 | when `GenerateJWT` fails, the handler writes 500 but does not return, then reads `jwt.ExpiresAt` from the nil claims | a known user, the right password and a signer that fails | return right after writing the 500 | not executed | UserIngress.SignInAsWritten (shown by UserIngress.SignInAsWrittenPanics) | UserIngress.SignIn |

The two configuration loaders also disagree on SSL (`StaleConfigLoader.SslRulesDiffer`). Outside local development, users/config.go turns SSL on unless `ALLOW_HTTP` is set. internal/config.go turns it on only when `USE_SSL` is set. The model keeps both rules as written.
