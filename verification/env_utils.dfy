/** The configuration helpers of internal/utils.go: string coercions, the
    environment lookup with a default, and the two connection-string helpers.

    The process environment is a map from name to value; a name that is not
    in the map reads as "", as `os.Getenv` reports it. A Go panic is a
    `Failure` carrying the panic message. Go's `int` is taken to be 64 bits
    wide. users/config.go carries a textual copy of `GetEnvOrDefault` and the
    three coercions, so the definitions here serve both loaders. */
module EnvUtils {
  import opened Wrappers
  import opened Strings
  import opened GoInt

  /** `coerceBool`: only the exact texts "true" and "false" are booleans;
      anything else is `(false, false)`. */
  function CoerceBool(value: string): (r: (bool, bool))
    ensures r.1 <==> value == "true" || value == "false"
    ensures r.0 <==> value == "true"
  {
    if value == "true" then (true, true)
    else if value == "false" then (false, true)
    else (false, false)
  }

  /** `s` is an optional sign followed by at least one decimal digit, and
      denotes `v`. */
  ghost predicate Denotes(s: string, v: int) {
    exists sign: string, digits: string ::
      && s == sign + digits
      && (sign == "" || sign == "+" || sign == "-")
      && digits != [] && AllDigits(digits)
      && v == (if sign == "-" then -(DecimalValue(digits) as int) else DecimalValue(digits))
  }

  /** `s` with one leading sign character removed, if it has one. */
  function Unsigned(s: string): (u: string)
    ensures |u| <= |s| && u == s[|s| - |u|..]
    ensures |u| < |s| <==> |s| > 0 && (s[0] == '+' || s[0] == '-')
  {
    if |s| > 0 && (s[0] == '+' || s[0] == '-') then s[1..] else s
  }

  /** The value `strconv.Atoi` reads from a signed digit string. */
  function SignedValue(s: string): int
    requires AllDigits(Unsigned(s))
  {
    if |s| > 0 && s[0] == '-' then -(DecimalValue(Unsigned(s)) as int) else DecimalValue(Unsigned(s))
  }

  /** Any way of reading `s` as sign and digits is the one `Unsigned` finds. */
  lemma DenotesUnique(s: string, v: int)
    requires Denotes(s, v)
    ensures Unsigned(s) != [] && AllDigits(Unsigned(s)) && v == SignedValue(s)
  {
    var sign: string, digits: string :| && s == sign + digits
      && (sign == "" || sign == "+" || sign == "-")
      && digits != [] && AllDigits(digits)
      && v == (if sign == "-" then -(DecimalValue(digits) as int) else DecimalValue(digits));
    if sign == "" {
      assert s == digits;
      assert IsDigit(s[0]);
    } else {
      assert s[0] == sign[0];
      assert s[1..] == digits;
    }
  }

  /** `coerceInt`, that is `strconv.Atoi`: an optional sign and decimal
      digits whose value fits in 64 bits; anything else is `(0, false)`. */
  function CoerceInt(value: string): (r: (int, bool))
    ensures r.1 <==> exists v :: Denotes(value, v) && InInt64(v)
    ensures r.1 ==> Denotes(value, r.0) && InInt64(r.0)
    ensures !r.1 ==> r.0 == 0
  {
    var digits := Unsigned(value);
    if |digits| == 0 || !AllDigits(digits) then
      assert forall v :: !Denotes(value, v) by {
        forall v | Denotes(value, v) ensures false {
          DenotesUnique(value, v);
        }
      }
      (0, false)
    else
      var v := SignedValue(value);
      assert Denotes(value, v) by {
        var sign := value[..|value| - |digits|];
        assert value == sign + digits;
        assert sign == "" || sign == [value[0]];
      }
      assert forall w :: Denotes(value, w) ==> w == v by {
        forall w | Denotes(value, w) ensures w == v {
          DenotesUnique(value, w);
        }
      }
      if InInt64(v) then (v, true) else (0, false)
  }

  /** Formatting an integer with `%v` and reading it back gives the integer
      when it fits in 64 bits, and fails otherwise. */
  lemma CoerceIntReadsDecimal(i: int)
    ensures CoerceInt(IntToDecimal(i)) == if InInt64(i) then (i, true) else (0, false)
  {
    var s := IntToDecimal(i);
    if i < 0 {
      assert Unsigned(s) == s[1..];
    } else {
      assert IsDigit(s[0]);
      assert Unsigned(s) == s;
    }
  }

  /** Leading zeros and an explicit plus sign are accepted; an empty text, a
      lone sign and Go's digit separator are not. */
  lemma CoerceIntExamples()
    ensures CoerceInt("+007") == (7, true)
    ensures CoerceInt("") == (0, false) && CoerceInt("-") == (0, false) && CoerceInt("1_000") == (0, false)
  {
    assert Unsigned("+007") == "007";
    assert DecimalValue("007") == 7 by {
      assert "007"[..2] == "00" && "00"[..1] == "0" && "0"[..0] == "";
    }
    assert Unsigned("-") == "";
    assert Unsigned("1_000") == "1_000";
    assert !IsDigit("1_000"[1]);
  }

  /** `coerceSliceOfStrings`: the empty text is the empty list, any other
      text is its comma-separated pieces, empty pieces kept. */
  function CoerceSliceOfStrings(value: string): (items: seq<string>)
    ensures value == "" <==> items == []
    ensures value != "" ==> Join(items, ",") == value
    ensures forall k :: 0 <= k < |items| ==> ',' !in items[k]
  {
    if value == "" then []
    else
      var items := Split(value, ",");
      forall k | 0 <= k < |items| ensures ',' !in items[k] {
        ContainsChar(items[k], ',');
      }
      items
  }

  /** A non-empty text has one more piece than it has commas. */
  lemma SliceCount(value: string)
    requires value != ""
    ensures |CoerceSliceOfStrings(value)| == CountChar(value, ',') + 1
  {
    SplitCharCount(value, ',');
  }

  /** Joining with commas and coercing gives the pieces back, provided
      there is more than one piece or the single piece is not empty. */
  lemma SliceRoundTrip(items: seq<string>)
    requires forall k :: 0 <= k < |items| ==> ',' !in items[k]
    requires |items| >= 2 || (|items| == 1 && items[0] != "")
    ensures CoerceSliceOfStrings(Join(items, ",")) == items
  {
    SplitJoinChar(items, ',');
    if |items| >= 2 {
      assert |Join(items, ",")| > 0 by {
        assert Join(items, ",") == items[0] + "," + Join(items[1..], ",");
      }
    }
  }

  /** A coerced environment value. */
  datatype EnvValue =
    | BoolValue(b: bool)
    | IntValue(i: int)
    | StringValue(s: string)
    | ListValue(items: seq<string>)

  /** The value `os.Getenv` reports, with "" replaced by the default. */
  function EnvText(env: map<string, string>, key: string, defaultValue: string): (v: string)
    ensures key in env && env[key] != "" ==> v == env[key]
    ensures !(key in env && env[key] != "") ==> v == defaultValue
  {
    if key in env && env[key] != "" then env[key] else defaultValue
  }

  /** `GetEnvOrDefault`: read, substitute the default for an empty or
      missing value, then coerce to the expected type; a value that does
      not coerce, or an expected type other than "bool", "int", "string" and
      "[]string", panics with a message naming the key. */
  function GetEnvOrDefault(env: map<string, string>, key: string, defaultValue: string, expectedType: string): (r: Result<EnvValue, string>)
    ensures expectedType == "bool" ==>
      r == if CoerceBool(EnvText(env, key, defaultValue)).1
           then Success(BoolValue(EnvText(env, key, defaultValue) == "true"))
           else Failure("invalid bool value for " + key)
    ensures expectedType == "int" ==>
      r == if CoerceInt(EnvText(env, key, defaultValue)).1
           then Success(IntValue(CoerceInt(EnvText(env, key, defaultValue)).0))
           else Failure("invalid int value for " + key)
    ensures expectedType == "string" ==> r == Success(StringValue(EnvText(env, key, defaultValue)))
    ensures expectedType == "[]string" ==> r == Success(ListValue(CoerceSliceOfStrings(EnvText(env, key, defaultValue))))
    ensures expectedType !in ["bool", "int", "string", "[]string"] ==> r == Failure("invalid expectedType for " + key)
  {
    var value := EnvText(env, key, defaultValue);
    if expectedType == "bool" then
      var (b, ok) := CoerceBool(value);
      if !ok then Failure("invalid bool value for " + key) else Success(BoolValue(b))
    else if expectedType == "int" then
      var (i, ok) := CoerceInt(value);
      if !ok then Failure("invalid int value for " + key) else Success(IntValue(i))
    else if expectedType == "string" then
      Success(StringValue(value))
    else if expectedType == "[]string" then
      Success(ListValue(CoerceSliceOfStrings(value)))
    else
      Failure("invalid expectedType for " + key)
  }

  /** A key that is missing or empty reads exactly as in an empty
      environment; a key that is set reads the same whatever the default. */
  lemma DefaultSubstitution(env: map<string, string>, key: string, defaultValue: string, other: string, expectedType: string)
    ensures !(key in env && env[key] != "") ==>
      GetEnvOrDefault(env, key, defaultValue, expectedType) == GetEnvOrDefault(map[], key, defaultValue, expectedType)
    ensures key in env && env[key] != "" ==>
      GetEnvOrDefault(env, key, defaultValue, expectedType) == GetEnvOrDefault(env, key, other, expectedType)
  {
  }

  /** `GetEnvOrDefault(key, default, "bool").(bool)`. */
  function ReadBool(env: map<string, string>, key: string, defaultValue: string): (r: Result<bool, string>)
    ensures r.Success? <==> EnvText(env, key, defaultValue) in ["true", "false"]
    ensures r.Success? ==> r.value == (EnvText(env, key, defaultValue) == "true")
    ensures r.Failure? ==> r.error == "invalid bool value for " + key
  {
    match GetEnvOrDefault(env, key, defaultValue, "bool")
    case Success(v) => if v.BoolValue? then Success(v.b) else assert false; Failure("")
    case Failure(e) => Failure(e)
  }

  /** `GetEnvOrDefault(key, default, "int").(int)`. */
  function ReadInt(env: map<string, string>, key: string, defaultValue: string): (r: Result<int, string>)
    ensures r.Success? <==> exists v :: Denotes(EnvText(env, key, defaultValue), v) && InInt64(v)
    ensures r.Success? ==> Denotes(EnvText(env, key, defaultValue), r.value) && InInt64(r.value)
    ensures r.Failure? ==> r.error == "invalid int value for " + key
  {
    match GetEnvOrDefault(env, key, defaultValue, "int")
    case Success(v) => if v.IntValue? then Success(v.i) else assert false; Failure("")
    case Failure(e) => Failure(e)
  }

  /** `GetEnvOrDefault(key, default, "string").(string)`: never panics. */
  function ReadString(env: map<string, string>, key: string, defaultValue: string): (v: string)
    ensures key in env && env[key] != "" ==> v == env[key]
    ensures !(key in env && env[key] != "") ==> v == defaultValue
  {
    match GetEnvOrDefault(env, key, defaultValue, "string")
    case Success(StringValue(s)) => s
    case _ => assert false; ""
  }

  /** `GetEnvOrDefault(key, default, "[]string").([]string)`: never panics. */
  function ReadList(env: map<string, string>, key: string, defaultValue: string): (items: seq<string>)
    ensures items == CoerceSliceOfStrings(EnvText(env, key, defaultValue))
    ensures EnvText(env, key, defaultValue) != "" ==> Join(items, ",") == EnvText(env, key, defaultValue)
  {
    match GetEnvOrDefault(env, key, defaultValue, "[]string")
    case Success(ListValue(items)) => items
    case _ => assert false; []
  }

  /** The text Go's runtime gives a panic on reading index 1 of a
      one-element slice. */
  const IndexOutOfRange := "runtime error: index out of range [1] with length 1"

  /** `RedisConnStringSplitter`: the URL is the text between the first and
      the second '@', the password the text between the first "redis://:"
      and the next one, before the first '@'. Without an '@', or without
      "redis://:" before the first '@', the slice index panics. */
  function RedisConnStringSplitter(fullConnString: string): (r: Result<(string, string), string>)
    ensures '@' !in fullConnString ==> r == Failure(IndexOutOfRange)
    ensures r.Failure? ==> r.error == IndexOutOfRange
    ensures r.Success? ==> '@' !in r.value.0 && '@' !in r.value.1 && !Contains(r.value.1, "redis://:")
  {
    var atParts := Split(fullConnString, "@");
    if |atParts| < 2 then
      assert '@' !in fullConnString ==> |atParts| == 1 by {
        SplitCharCount(fullConnString, '@');
        if '@' !in fullConnString {
          CountCharAbsent(fullConnString, '@');
        }
      }
      Failure(IndexOutOfRange)
    else
      ContainsChar(atParts[0], '@');
      ContainsChar(atParts[1], '@');
      var passwordParts := Split(atParts[0], "redis://:");
      if |passwordParts| < 2 then
        Failure(IndexOutOfRange)
      else
        var password := passwordParts[1];
        assert '@' !in password by {
          ContainsChar(password, '@');
          if Contains(password, "@") {
            var j: nat :| OccursAt(password, "@", j);
            SplitPieceInside(atParts[0], "redis://:", passwordParts, 1, j);
            OccursAtChar(password, '@', j);
            assert false;
          }
        }
        Success((atParts[1], password))
  }

  /** A character inside a piece of a split is a character of the input. */
  lemma {:induction false} SplitPieceInside(s: string, sep: string, parts: seq<string>, k: nat, j: nat)
    requires |sep| > 0 && parts == Split(s, sep)
    requires k < |parts| && j < |parts[k]|
    ensures parts[k][j] in s
    decreases |s|
  {
    match IndexOf(s, sep)
    case None =>
    case Some(i) =>
      if k == 0 {
        assert parts[0] == s[..i];
        assert s[..i][j] == s[j];
      } else {
        var rest := s[i + |sep|..];
        assert parts[k] == Split(rest, sep)[k - 1];
        SplitPieceInside(rest, sep, Split(rest, sep), k - 1, j);
        assert parts[k][j] in rest;
      }
  }

  /** Splitting "<sep><p>" on `sep` when `p` does not contain it gives an
      empty piece and `p`. */
  lemma SplitAfterLeadingSeparator(sep: string, p: string)
    requires |sep| > 0 && !Contains(p, sep)
    ensures Split(sep + p, sep) == ["", p]
  {
    var s := sep + p;
    assert s[..|sep|] == sep;
    assert IndexOf(s, sep) == Some(0);
    assert s[|sep|..] == p;
  }

  /** The connection string "redis://:<password>@<url>" splits back into its
      URL and password, when neither contains '@' and the password does not
      contain "redis://:". */
  lemma RedisRoundTrip(url: string, password: string)
    requires '@' !in url && '@' !in password && !Contains(password, "redis://:")
    ensures RedisConnStringSplitter("redis://:" + password + "@" + url) == Success((url, password))
  {
    var head := "redis://:" + password;
    assert '@' !in head;
    SplitJoinChar([head, url], '@');
    assert Join([head, url], "@") == "redis://:" + password + "@" + url;
    SplitAfterLeadingSeparator("redis://:", password);
  }

  /** The `key=value` fields of a Postgres connection string, in order. */
  function PostgresFields(url: string, username: string, password: string, dbName: string, port: string): seq<string> {
    ["host=" + url, "user=" + username, "password=" + password, "dbname=" + dbName, "port=" + port, "sslmode=disable"]
  }

  /** Six parts joined with a separator: each part, then the separator,
      with none after the last. */
  lemma JoinSix(a: string, b: string, c: string, d: string, e: string, f: string, sep: string)
    ensures Join([a, b, c, d, e, f], sep) == a + sep + b + sep + c + sep + d + sep + e + sep + f
  {
    assert Join([e, f], sep) == e + sep + f by {
      assert [e, f][1..] == [f];
    }
    assert Join([d, e, f], sep) == d + sep + Join([e, f], sep) by {
      assert [d, e, f][1..] == [e, f];
    }
    assert Join([c, d, e, f], sep) == c + sep + Join([d, e, f], sep) by {
      assert [c, d, e, f][1..] == [d, e, f];
    }
    assert Join([b, c, d, e, f], sep) == b + sep + Join([c, d, e, f], sep) by {
      assert [b, c, d, e, f][1..] == [c, d, e, f];
    }
    assert Join([a, b, c, d, e, f], sep) == a + sep + Join([b, c, d, e, f], sep) by {
      assert [a, b, c, d, e, f][1..] == [b, c, d, e, f];
    }
  }

  /** Five `key=value` parts and a last part joined with a separator. */
  lemma JoinKeyed(k1: string, v1: string, k2: string, v2: string, k3: string, v3: string,
                  k4: string, v4: string, k5: string, v5: string, last: string, sep: string)
    ensures Join([k1 + v1, k2 + v2, k3 + v3, k4 + v4, k5 + v5, last], sep)
      == k1 + v1 + sep + k2 + v2 + sep + k3 + v3 + sep + k4 + v4 + sep + k5 + v5 + sep + last
  {
    JoinSix(k1 + v1, k2 + v2, k3 + v3, k4 + v4, k5 + v5, last, sep);
    var x1 := k1 + v1 + sep;
    assert x1 + (k2 + v2) == x1 + k2 + v2;
    var x2 := x1 + k2 + v2 + sep;
    assert x2 + (k3 + v3) == x2 + k3 + v3;
    var x3 := x2 + k3 + v3 + sep;
    assert x3 + (k4 + v4) == x3 + k4 + v4;
    var x4 := x3 + k4 + v4 + sep;
    assert x4 + (k5 + v5) == x4 + k5 + v5;
  }

  /** The fields joined with single spaces spell out the connection string. */
  lemma PostgresFieldsJoin(url: string, username: string, password: string, dbName: string, port: string)
    ensures Join(PostgresFields(url, username, password, dbName, port), " ")
      == "host=" + url + " " + "user=" + username + " " + "password=" + password + " " + "dbname=" + dbName
         + " " + "port=" + port + " " + "sslmode=disable"
  {
    JoinKeyed("host=", url, "user=", username, "password=", password, "dbname=", dbName, "port=", port, "sslmode=disable", " ");
  }

  /** `GeneratePostgresConnString`: the six fields separated by single
      spaces, ending with SSL disabled, whatever the values hold. When no
      value contains a space, splitting the result on spaces gives back
      exactly those fields. */
  function GeneratePostgresConnString(url: string, username: string, password: string, dbName: string, port: string): (s: string)
    ensures s == "host=" + url + " " + "user=" + username + " " + "password=" + password + " " + "dbname=" + dbName
                 + " " + "port=" + port + " " + "sslmode=disable"
    ensures ' ' !in url && ' ' !in username && ' ' !in password && ' ' !in dbName && ' ' !in port ==>
      Split(s, " ") == PostgresFields(url, username, password, dbName, port)
  {
    var fields := PostgresFields(url, username, password, dbName, port);
    assert ' ' !in url && ' ' !in username && ' ' !in password && ' ' !in dbName && ' ' !in port ==>
      Split(Join(fields, " "), " ") == fields by {
      if ' ' !in url && ' ' !in username && ' ' !in password && ' ' !in dbName && ' ' !in port {
        forall k | 0 <= k < |fields| ensures ' ' !in fields[k] {
        }
        SplitJoinChar(fields, ' ');
      }
    }
    PostgresFieldsJoin(url, username, password, dbName, port);
    Join(fields, " ")
  }
}
