/** `NewConfig` of internal/config.go: the monolith's configuration read from
    the environment. The logger built from the log level is not modelled. A
    value that does not coerce panics; here the loader fails with that
    panic's message, and the reads happen in the order the source makes
    them, so the first bad key is the one reported. */
module MainConfigLoader {
  import opened Wrappers
  import opened Strings
  import opened EnvUtils
  import opened GoInt

  datatype MainConfig = MainConfig(
    localDev: bool,
    testRunner: bool,
    useSsl: bool,
    siteDomain: string,
    logLevel: string,
    corsOrigins: seq<string>,
    sentryDsn: string,
    httpPort: int)

  /** `NewConfig`. SSL is used only when asked for and not in local
      development. */
  function NewConfig(env: map<string, string>): (r: Result<MainConfig, string>)
    ensures r.Success? <==>
      && EnvText(env, "LOCAL_DEV", "true") in ["true", "false"]
      && EnvText(env, "TEST_RUNNER", "false") in ["true", "false"]
      && EnvText(env, "USE_SSL", "false") in ["true", "false"]
      && exists v :: Denotes(EnvText(env, "HTTP_PORT", "8080"), v) && InInt64(v)
    ensures r.Success? ==>
      && r.value.localDev == (EnvText(env, "LOCAL_DEV", "true") == "true")
      && r.value.testRunner == (EnvText(env, "TEST_RUNNER", "false") == "true")
      && r.value.useSsl == (EnvText(env, "USE_SSL", "false") == "true" && !r.value.localDev)
      && r.value.siteDomain == EnvText(env, "SITE_DOMAIN", "localhost")
      && r.value.logLevel == EnvText(env, "LOG_LEVEL", "info")
      && r.value.corsOrigins == CoerceSliceOfStrings(EnvText(env, "CORS_ORIGINS", "http://localhost"))
      && r.value.sentryDsn == EnvText(env, "SENTRY_DSN", "")
      && Denotes(EnvText(env, "HTTP_PORT", "8080"), r.value.httpPort)
    ensures EnvText(env, "LOCAL_DEV", "true") !in ["true", "false"] ==> r == Failure("invalid bool value for LOCAL_DEV")
    ensures EnvText(env, "LOCAL_DEV", "true") in ["true", "false"] && EnvText(env, "TEST_RUNNER", "false") !in ["true", "false"] ==>
      r == Failure("invalid bool value for TEST_RUNNER")
    ensures (&& EnvText(env, "LOCAL_DEV", "true") in ["true", "false"]
             && EnvText(env, "TEST_RUNNER", "false") in ["true", "false"]
             && EnvText(env, "USE_SSL", "false") !in ["true", "false"]) ==>
      r == Failure("invalid bool value for USE_SSL")
    ensures (&& EnvText(env, "LOCAL_DEV", "true") in ["true", "false"]
             && EnvText(env, "TEST_RUNNER", "false") in ["true", "false"]
             && EnvText(env, "USE_SSL", "false") in ["true", "false"]
             && !(exists v :: Denotes(EnvText(env, "HTTP_PORT", "8080"), v) && InInt64(v))) ==>
      r == Failure("invalid int value for HTTP_PORT")
  {
    assert "invalid bool value for " + "USE_SSL" == "invalid bool value for USE_SSL";
    assert "invalid int value for " + "HTTP_PORT" == "invalid int value for HTTP_PORT";
    assert "invalid bool value for " + "LOCAL_DEV" == "invalid bool value for LOCAL_DEV";
    assert "invalid bool value for " + "TEST_RUNNER" == "invalid bool value for TEST_RUNNER";
    var localDev :- ReadBool(env, "LOCAL_DEV", "true");
    var testRunner :- ReadBool(env, "TEST_RUNNER", "false");
    var useSsl :- ReadBool(env, "USE_SSL", "false");
    var siteDomain := ReadString(env, "SITE_DOMAIN", "localhost");
    var logLevel := ReadString(env, "LOG_LEVEL", "info");
    var corsOrigins := ReadList(env, "CORS_ORIGINS", "http://localhost");
    var sentryDsn := ReadString(env, "SENTRY_DSN", "");
    var httpPort :- ReadInt(env, "HTTP_PORT", "8080");
    Success(MainConfig(localDev, testRunner, useSsl && !localDev, siteDomain, logLevel, corsOrigins, sentryDsn, httpPort))
  }

  /** In local development SSL is off, whatever USE_SSL says. */
  lemma LocalDevDisablesSsl(env: map<string, string>)
    requires NewConfig(env).Success? && NewConfig(env).value.localDev
    ensures !NewConfig(env).value.useSsl
  {
  }

  /** "8080", the default port, reads as 8080. */
  lemma DefaultPortReads()
    ensures CoerceInt("8080") == (8080, true)
  {
    assert Unsigned("8080") == "8080";
    assert AllDigits("8080");
    assert DecimalValue("8080") == 8080 by {
      assert "8080"[..3] == "808" && "808"[..2] == "80" && "80"[..1] == "8" && "8"[..0] == "";
    }
  }

  /** The default CORS origin is a single origin. */
  lemma DefaultOrigin()
    ensures CoerceSliceOfStrings("http://localhost") == ["http://localhost"]
  {
    var origin := "http://localhost";
    assert ',' !in origin;
    SliceRoundTrip([origin]);
  }

  /** With nothing set, the configuration is the documented default: local
      development, no test runner, no SSL, the site on localhost, "info"
      logging, one CORS origin "http://localhost", no Sentry DSN, port 8080. */
  lemma DefaultConfig()
    ensures NewConfig(map[]) == Success(MainConfig(true, false, false, "localhost", "info", ["http://localhost"], "", 8080))
  {
    var empty: map<string, string> := map[];
    DefaultHttpPort(empty);
    DefaultOriginRead(empty);
    DefaultSwitches();
    assert ReadString(empty, "SITE_DOMAIN", "localhost") == "localhost";
    assert ReadString(empty, "LOG_LEVEL", "info") == "info";
    assert ReadString(empty, "SENTRY_DSN", "") == "";
  }

  lemma DefaultSwitches()
    ensures ReadBool(map[], "LOCAL_DEV", "true") == Success(true)
    ensures ReadBool(map[], "TEST_RUNNER", "false") == Success(false)
    ensures ReadBool(map[], "USE_SSL", "false") == Success(false)
  {
  }

  /** An unset or empty HTTP_PORT reads as 8080. */
  lemma DefaultHttpPort(env: map<string, string>)
    requires EnvText(env, "HTTP_PORT", "8080") == "8080"
    ensures ReadInt(env, "HTTP_PORT", "8080") == Success(8080)
  {
    DefaultPortReads();
  }

  /** An unset or empty CORS_ORIGINS reads as the one default origin. */
  lemma DefaultOriginRead(env: map<string, string>)
    requires EnvText(env, "CORS_ORIGINS", "http://localhost") == "http://localhost"
    ensures ReadList(env, "CORS_ORIGINS", "http://localhost") == ["http://localhost"]
  {
    DefaultOrigin();
  }

  /** CORS_ORIGINS is read as its comma-separated pieces. */
  lemma CorsOriginsSplit(env: map<string, string>, origins: seq<string>)
    requires forall k :: 0 <= k < |origins| ==> origins[k] != "" && ',' !in origins[k]
    requires |origins| >= 1
    requires NewConfig(env).Success?
    requires "CORS_ORIGINS" in env && env["CORS_ORIGINS"] == Join(origins, ",")
    ensures NewConfig(env).value.corsOrigins == origins
  {
    SliceRoundTrip(origins);
    assert Join(origins, ",") != "" by {
      if |origins| >= 2 {
        assert Join(origins, ",") == origins[0] + "," + Join(origins[1..], ",");
      }
    }
  }
}
