/** The older configuration loader of users/config.go. Its methods are
    declared on a type `Config` that the file never defines; the model reads
    them as methods of `GlobalConfig`, the struct the file does define. Its
    environment helpers are copies of those of internal/utils.go and are
    not defined twice here. The logger is not modelled, and the secret key is
    kept as the text whose bytes it holds. */
module StaleConfigLoader {
  import opened Wrappers
  import opened Strings
  import opened EnvUtils
  import opened GoInt
  import MainConfigLoader

  datatype GlobalConfig = GlobalConfig(
    localDev: bool,
    testRunner: bool,
    useSsl: bool,
    siteDomain: string,
    secretKey: string,
    tokenExpirationTimeMinutes: int,
    port: int,
    logLevel: string,
    corsOrigins: seq<string>,
    sentryDsn: string,
    postgresUrl: string,
    postgresPort: int,
    postgresUsername: string,
    postgresPassword: string,
    postgresDbName: string,
    redisUrl: string,
    redisPassword: string)

  /** `GeneratePostgresConnString` of this loader: the port is an integer,
      printed in decimal by `%v`. */
  function PostgresConnString(c: GlobalConfig): (s: string)
    ensures s == "host=" + c.postgresUrl + " " + "user=" + c.postgresUsername + " " + "password=" + c.postgresPassword
                 + " " + "dbname=" + c.postgresDbName + " " + "port=" + IntToDecimal(c.postgresPort) + " " + "sslmode=disable"
    ensures ' ' !in c.postgresUrl && ' ' !in c.postgresUsername && ' ' !in c.postgresPassword && ' ' !in c.postgresDbName ==>
      Split(s, " ") == PostgresFields(c.postgresUrl, c.postgresUsername, c.postgresPassword, c.postgresDbName, IntToDecimal(c.postgresPort))
  {
    var port := IntToDecimal(c.postgresPort);
    assert ' ' !in port by {
      assert forall i :: 0 <= i < |port| ==> port[i] == '-' || IsDigit(port[i]);
    }
    GeneratePostgresConnString(c.postgresUrl, c.postgresUsername, c.postgresPassword, c.postgresDbName, port)
  }

  /** The three switches, read first and in this order. */
  function Switches(env: map<string, string>): (r: Result<(bool, bool, bool), string>)
    ensures r.Success? <==>
      && EnvText(env, "LOCAL_DEV", "true") in ["true", "false"]
      && EnvText(env, "TEST_RUNNER", "false") in ["true", "false"]
      && EnvText(env, "ALLOW_HTTP", "false") in ["true", "false"]
    ensures r.Success? ==>
      && r.value.0 == (EnvText(env, "LOCAL_DEV", "true") == "true")
      && r.value.1 == (EnvText(env, "TEST_RUNNER", "false") == "true")
      && r.value.2 == (EnvText(env, "ALLOW_HTTP", "false") == "true")
  {
    var localDev :- ReadBool(env, "LOCAL_DEV", "true");
    var testRunner :- ReadBool(env, "TEST_RUNNER", "false");
    var allowHttp :- ReadBool(env, "ALLOW_HTTP", "false");
    Success((localDev, testRunner, allowHttp))
  }

  /** The three integer settings: token lifetime, HTTP port, Postgres port. */
  function Numbers(env: map<string, string>): (r: Result<(int, int, int), string>)
    ensures r.Success? <==>
      && (exists v :: Denotes(EnvText(env, "TOKEN_EXPIRATION_TIME_MINUTES", "60"), v) && InInt64(v))
      && (exists v :: Denotes(EnvText(env, "PORT", "8080"), v) && InInt64(v))
      && (exists v :: Denotes(EnvText(env, "POSTGRES_PORT", "5432"), v) && InInt64(v))
    ensures r.Success? ==>
      && Denotes(EnvText(env, "TOKEN_EXPIRATION_TIME_MINUTES", "60"), r.value.0)
      && Denotes(EnvText(env, "PORT", "8080"), r.value.1)
      && Denotes(EnvText(env, "POSTGRES_PORT", "5432"), r.value.2)
  {
    var tokenMinutes :- ReadInt(env, "TOKEN_EXPIRATION_TIME_MINUTES", "60");
    var port :- ReadInt(env, "PORT", "8080");
    var postgresPort :- ReadInt(env, "POSTGRES_PORT", "5432");
    Success((tokenMinutes, port, postgresPort))
  }

  /** All reads except the Redis override. The string reads cannot fail, so
      reading the switches, then the numbers, reports the same first bad key
      as the source's order. SSL is used unless plain HTTP is allowed or in
      local development. */
  function LoadFields(env: map<string, string>): (r: Result<GlobalConfig, string>)
    ensures r.Success? <==> Switches(env).Success? && Numbers(env).Success?
    ensures r.Success? ==>
      && r.value.localDev == Switches(env).value.0
      && r.value.testRunner == Switches(env).value.1
      && r.value.useSsl == (!Switches(env).value.2 && !Switches(env).value.0)
      && r.value.tokenExpirationTimeMinutes == Numbers(env).value.0
      && r.value.port == Numbers(env).value.1
      && r.value.postgresPort == Numbers(env).value.2
      && r.value.secretKey == EnvText(env, "SECRET_KEY", "my_secret_key")
      && r.value.corsOrigins == CoerceSliceOfStrings(EnvText(env, "CORS_ORIGINS", ""))
      && r.value.postgresDbName == EnvText(env, "POSTGRES_DB_NAME", "garduino")
      && r.value.redisUrl == EnvText(env, "REDIS_URL", "localhost:6379")
      && r.value.redisPassword == EnvText(env, "REDIS_PASSWORD", "")
    ensures r.Success? ==> r.value == Assemble(env, Switches(env).value, Numbers(env).value)
  {
    var switches :- Switches(env);
    var numbers :- Numbers(env);
    Success(Assemble(env, switches, numbers))
  }

  /** The configuration from the switches, the numbers and the string
      reads, which cannot fail. */
  function Assemble(env: map<string, string>, switches: (bool, bool, bool), numbers: (int, int, int)): (c: GlobalConfig)
    ensures c.localDev == switches.0 && c.testRunner == switches.1 && c.useSsl == (!switches.2 && !switches.0)
    ensures c.tokenExpirationTimeMinutes == numbers.0 && c.port == numbers.1 && c.postgresPort == numbers.2
    ensures c.siteDomain == EnvText(env, "SITE_DOMAIN", "localhost")
    ensures c.secretKey == EnvText(env, "SECRET_KEY", "my_secret_key")
    ensures c.logLevel == EnvText(env, "LOG_LEVEL", "info")
    ensures c.sentryDsn == EnvText(env, "SENTRY_DSN", "")
    ensures c.postgresUrl == EnvText(env, "POSTGRES_URL", "localhost")
    ensures c.postgresUsername == EnvText(env, "POSTGRES_USERNAME", "postgres")
    ensures c.postgresPassword == EnvText(env, "POSTGRES_PASSWORD", "postgres")
    ensures c.corsOrigins == CoerceSliceOfStrings(EnvText(env, "CORS_ORIGINS", ""))
    ensures c.postgresDbName == EnvText(env, "POSTGRES_DB_NAME", "garduino")
    ensures c.redisUrl == EnvText(env, "REDIS_URL", "localhost:6379")
    ensures c.redisPassword == EnvText(env, "REDIS_PASSWORD", "")
  {
    GlobalConfig(
      switches.0, switches.1, !switches.2 && !switches.0,
      ReadString(env, "SITE_DOMAIN", "localhost"),
      ReadString(env, "SECRET_KEY", "my_secret_key"),
      numbers.0, numbers.1,
      ReadString(env, "LOG_LEVEL", "info"),
      ReadList(env, "CORS_ORIGINS", ""),
      ReadString(env, "SENTRY_DSN", ""),
      ReadString(env, "POSTGRES_URL", "localhost"),
      numbers.2,
      ReadString(env, "POSTGRES_USERNAME", "postgres"),
      ReadString(env, "POSTGRES_PASSWORD", "postgres"),
      ReadString(env, "POSTGRES_DB_NAME", "garduino"),
      ReadString(env, "REDIS_URL", "localhost:6379"),
      ReadString(env, "REDIS_PASSWORD", ""))
  }

  /** `NewConfig`: when REDIS_CONN_STRING is set, the Redis URL and password
      are replaced by splitting the Redis URL already loaded (not
      REDIS_CONN_STRING itself), and everything else is as loaded. */
  function NewConfig(env: map<string, string>): (r: Result<GlobalConfig, string>)
    ensures LoadFields(env).Failure? ==> r == LoadFields(env)
    ensures LoadFields(env).Success? && EnvText(env, "REDIS_CONN_STRING", "") == "" ==> r == LoadFields(env)
    ensures LoadFields(env).Success? && EnvText(env, "REDIS_CONN_STRING", "") != "" ==>
      var loaded := LoadFields(env).value;
      && (r.Success? <==> RedisConnStringSplitter(loaded.redisUrl).Success?)
      && (r.Success? ==> r.value == loaded.(redisUrl := RedisConnStringSplitter(loaded.redisUrl).value.0,
                                             redisPassword := RedisConnStringSplitter(loaded.redisUrl).value.1))
      && (r.Failure? ==> r.error == IndexOutOfRange)
  {
    var connString := ReadString(env, "REDIS_CONN_STRING", "");
    var config :- LoadFields(env);
    if connString != "" then
      var (url, password) :- RedisConnStringSplitter(config.redisUrl);
      Success(config.(redisUrl := url, redisPassword := password))
    else
      Success(config)
  }

  /** "60", the default token lifetime in minutes, reads as 60. */
  lemma DefaultLifetimeReads()
    ensures CoerceInt("60") == (60, true)
  {
    assert Unsigned("60") == "60";
    assert AllDigits("60");
    assert DecimalValue("60") == 60 by {
      assert "60"[..1] == "6" && "6"[..0] == "";
    }
  }

  /** "5432", the default Postgres port, reads as 5432. */
  lemma DefaultPostgresPortReads()
    ensures CoerceInt("5432") == (5432, true)
  {
    assert Unsigned("5432") == "5432";
    assert AllDigits("5432");
    assert DecimalValue("5432") == 5432 by {
      assert "5432"[..3] == "543" && "543"[..2] == "54" && "54"[..1] == "5" && "5"[..0] == "";
    }
  }

  /** Whenever the three integer keys are unset or empty, they read as
      their defaults. */
  lemma DefaultNumbers(env: map<string, string>)
    requires EnvText(env, "TOKEN_EXPIRATION_TIME_MINUTES", "60") == "60"
    requires EnvText(env, "PORT", "8080") == "8080"
    requires EnvText(env, "POSTGRES_PORT", "5432") == "5432"
    ensures Numbers(env) == Success((60, 8080, 5432))
  {
    DefaultLifetimeReads();
    MainConfigLoader.DefaultPortReads();
    DefaultPostgresPortReads();
    assert ReadInt(env, "TOKEN_EXPIRATION_TIME_MINUTES", "60") == Success(60);
    assert ReadInt(env, "PORT", "8080") == Success(8080);
    assert ReadInt(env, "POSTGRES_PORT", "5432") == Success(5432);
  }

  /** With nothing set: local development without SSL, the secret
      "my_secret_key", tokens valid for 60 minutes, port 8080, no CORS
      origins, Postgres at localhost:5432 as postgres/postgres on database
      "garduino", and Redis at localhost:6379 without a password. */
  lemma DefaultConfig()
    ensures NewConfig(map[]) == Success(GlobalConfig(
      true, false, false, "localhost", "my_secret_key", 60, 8080, "info", [], "",
      "localhost", 5432, "postgres", "postgres", "garduino", "localhost:6379", ""))
  {
    var empty: map<string, string> := map[];
    DefaultNumbers(empty);
    assert Switches(empty) == Success((true, false, false));
    assert LoadFields(empty) == Success(Assemble(empty, (true, false, false), (60, 8080, 5432)));
    DefaultAssemble();
    assert ReadString(empty, "REDIS_CONN_STRING", "") == "";
  }

  lemma DefaultAssemble()
    ensures Assemble(map[], (true, false, false), (60, 8080, 5432)) == GlobalConfig(
      true, false, false, "localhost", "my_secret_key", 60, 8080, "info", [], "",
      "localhost", 5432, "postgres", "postgres", "garduino", "localhost:6379", "")
  {
    assert CoerceSliceOfStrings("") == [];
    assert ReadList(map[], "CORS_ORIGINS", "") == [];
  }

  /** Setting REDIS_CONN_STRING without also setting REDIS_URL to a
      connection string makes the loader fail: the default Redis URL has no
      '@' to split at. */
  lemma RedisOverrideOfDefaultUrlFails(env: map<string, string>)
    requires EnvText(env, "REDIS_CONN_STRING", "") != ""
    requires "REDIS_URL" !in env
    requires LoadFields(env).Success?
    ensures NewConfig(env) == Failure(IndexOutOfRange)
  {
    var loaded := LoadFields(env).value;
    assert loaded.redisUrl == "localhost:6379";
    DefaultRedisUrlDoesNotSplit();
  }

  lemma DefaultRedisUrlDoesNotSplit()
    ensures RedisConnStringSplitter("localhost:6379") == Failure(IndexOutOfRange)
  {
    assert '@' !in "localhost:6379";
  }

  /** When REDIS_URL itself holds "redis://:<password>@<url>", the override
      recovers the URL and the password from it. */
  lemma RedisOverrideOfConnectionUrl(env: map<string, string>, url: string, password: string)
    requires EnvText(env, "REDIS_CONN_STRING", "") != ""
    requires url != "" && '@' !in url && '@' !in password && !Contains(password, "redis://:")
    requires "REDIS_URL" in env && env["REDIS_URL"] == "redis://:" + password + "@" + url
    requires LoadFields(env).Success?
    ensures NewConfig(env).Success?
    ensures NewConfig(env).value.redisUrl == url && NewConfig(env).value.redisPassword == password
  {
    RedisRoundTrip(url, password);
  }

  /** The two loaders derive SSL differently: outside local development and
      with nothing else set, this loader turns SSL on while internal/config.go
      leaves it off. */
  lemma SslRulesDiffer()
    ensures var env := map["LOCAL_DEV" := "false"];
      && NewConfig(env).Success? && NewConfig(env).value.useSsl
      && MainConfigLoader.NewConfig(env).Success? && !MainConfigLoader.NewConfig(env).value.useSsl
  {
    StaleSslOutsideLocalDev();
    MainSslOutsideLocalDev();
  }

  lemma StaleSslOutsideLocalDev()
    ensures var env := map["LOCAL_DEV" := "false"];
      NewConfig(env).Success? && NewConfig(env).value.useSsl
  {
    var env := map["LOCAL_DEV" := "false"];
    OutsideLocalDevReads();
    assert LoadFields(env).Success? && LoadFields(env).value.useSsl;
  }

  lemma OutsideLocalDevReads()
    ensures var env := map["LOCAL_DEV" := "false"];
      && Switches(env) == Success((false, false, false))
      && Numbers(env).Success?
      && EnvText(env, "REDIS_CONN_STRING", "") == ""
  {
    OutsideLocalDevSwitches();
    OutsideLocalDevNumbers();
    assert "LOCAL_DEV"[0] != "REDIS_CONN_STRING"[0];
  }

  lemma OutsideLocalDevSwitches()
    ensures Switches(map["LOCAL_DEV" := "false"]) == Success((false, false, false))
  {
    assert "LOCAL_DEV"[0] != "TEST_RUNNER"[0] && "LOCAL_DEV"[0] != "ALLOW_HTTP"[0];
  }

  lemma OutsideLocalDevNumbers()
    ensures Numbers(map["LOCAL_DEV" := "false"]).Success?
  {
    var env := map["LOCAL_DEV" := "false"];
    assert "LOCAL_DEV"[0] != "TOKEN_EXPIRATION_TIME_MINUTES"[0] && "LOCAL_DEV"[0] != "PORT"[0];
    assert "LOCAL_DEV"[0] != "POSTGRES_PORT"[0];
    DefaultNumbers(env);
  }

  lemma MainSslOutsideLocalDev()
    ensures var env := map["LOCAL_DEV" := "false"];
      MainConfigLoader.NewConfig(env).Success? && !MainConfigLoader.NewConfig(env).value.useSsl
  {
    var env := map["LOCAL_DEV" := "false"];
    MainReadsOutsideLocalDev();
    assert EnvText(env, "LOCAL_DEV", "true") == "false";
  }

  lemma MainReadsOutsideLocalDev()
    ensures var env := map["LOCAL_DEV" := "false"];
      && EnvText(env, "TEST_RUNNER", "false") == "false"
      && EnvText(env, "USE_SSL", "false") == "false"
      && ReadInt(env, "HTTP_PORT", "8080") == Success(8080)
  {
    var env := map["LOCAL_DEV" := "false"];
    assert "LOCAL_DEV"[0] != "TEST_RUNNER"[0] && "LOCAL_DEV"[0] != "USE_SSL"[0] && "LOCAL_DEV"[0] != "HTTP_PORT"[0];
    MainConfigLoader.DefaultHttpPort(env);
  }

  /** In local development this loader never uses SSL. */
  lemma LocalDevDisablesSsl(env: map<string, string>)
    requires NewConfig(env).Success? && NewConfig(env).value.localDev
    ensures !NewConfig(env).value.useSsl
  {
  }
}
