/** The database connection settings read from the environment: which
    required variables are missing, and the connection parameters built when
    none is. The environment is a map from variable names to values; a name
    outside the map is unset. */
module DbConfig {
  import opened Common

  /** The variables that must be set, in the order they are reported. */
  const RequiredVars: seq<string> := ["DB_HOST", "DB_NAME", "DB_USER", "DB_PASSWORD", "DB_PORT"]

  const MissingVarsPrefix: string := "Missing required database environment variables: "

  /** `os.getenv(name)` is truthy: set and not empty. */
  predicate IsSet(env: map<string, string>, name: string) {
    name in env && env[name] != []
  }

  /** The names among `names` that are not set, in the order of `names`. */
  function MissingAmong(env: map<string, string>, names: seq<string>): (r: seq<string>)
    ensures forall v :: v in r <==> v in names && !IsSet(env, v)
    ensures |r| <= |names|
    decreases |names|
  {
    if names == [] then []
    else (if IsSet(env, names[0]) then [] else [names[0]]) + MissingAmong(env, names[1..])
  }

  /** `get_missing_db_env_vars`. */
  function MissingVars(env: map<string, string>): (r: seq<string>)
    ensures r == [] <==> forall v :: v in RequiredVars ==> IsSet(env, v)
    ensures |r| <= |RequiredVars|
  {
    MissingAmong(env, RequiredVars)
  }

  /** A variable is reported exactly when it is required and unset or empty. */
  lemma MissingVarsIff(env: map<string, string>, v: string)
    ensures v in MissingVars(env) <==> v in RequiredVars && (v !in env || env[v] == [])
  {
  }

  /** The order of the report is the order of the names: the names of a
      concatenation are reported as those of its parts, one after the other. */
  lemma {:induction false} MissingAmongAppend(env: map<string, string>, a: seq<string>, b: seq<string>)
    ensures MissingAmong(env, a + b) == MissingAmong(env, a) + MissingAmong(env, b)
    decreases |a|
  {
    if a != [] {
      assert (a + b)[0] == a[0] && (a + b)[1..] == a[1..] + b;
      MissingAmongAppend(env, a[1..], b);
    } else {
      assert a + b == b;
    }
  }

  /** An empty environment reports every required variable, in order. */
  lemma EmptyEnvironmentMissesAll()
    ensures MissingVars(map[]) == RequiredVars
  {
    NoneSetAllMissing(map[], RequiredVars);
  }

  /** When none of the names is set, all of them are reported, in order. */
  lemma {:induction false} NoneSetAllMissing(env: map<string, string>, names: seq<string>)
    requires forall k :: 0 <= k < |names| ==> !IsSet(env, names[k])
    ensures MissingAmong(env, names) == names
    decreases |names|
  {
    if names != [] {
      assert forall k :: 0 <= k < |names| - 1 ==> names[1..][k] == names[k + 1];
      NoneSetAllMissing(env, names[1..]);
      assert !IsSet(env, names[0]);
      assert names == [names[0]] + names[1..];
    }
  }

  /** The parameters handed to the database driver. */
  datatype ConnectionConfig = ConnectionConfig(
    host: string,
    database: string,
    user: string,
    password: string,
    port: string,
    sslMode: string,
    connectTimeout: int)

  /** `build_db_config`: an error naming the missing variables (where the
      source raises `ValueError`), or the connection parameters. */
  function BuildDbConfig(env: map<string, string>): (r: Result<ConnectionConfig>)
    ensures r.Err? <==> MissingVars(env) != []
    ensures r.Err? ==> r.message == MissingVarsPrefix + Join(MissingVars(env), ", ")
    ensures r.Ok? ==> forall v :: v in RequiredVars ==> IsSet(env, v)
    ensures r.Ok? ==> r.value.host == env["DB_HOST"] && r.value.database == env["DB_NAME"]
                      && r.value.user == env["DB_USER"] && r.value.password == env["DB_PASSWORD"]
                      && r.value.port == env["DB_PORT"]
    ensures r.Ok? ==> r.value.sslMode == "require" && r.value.connectTimeout == 10
  {
    var missing := MissingVars(env);
    if missing != [] then Err(MissingVarsPrefix + Join(missing, ", "))
    else
      assert forall v :: v in RequiredVars ==> IsSet(env, v);
      assert "DB_HOST" in RequiredVars && "DB_NAME" in RequiredVars && "DB_USER" in RequiredVars;
      assert "DB_PASSWORD" in RequiredVars && "DB_PORT" in RequiredVars;
      Ok(ConnectionConfig(env["DB_HOST"], env["DB_NAME"], env["DB_USER"], env["DB_PASSWORD"], env["DB_PORT"],
                          "require", 10))
  }

  /** The error message names every missing variable. */
  lemma ErrorNamesEveryMissing(env: map<string, string>, v: string)
    requires v in RequiredVars && !IsSet(env, v)
    ensures BuildDbConfig(env).Err?
    ensures exists k :: OccursAt(v, BuildDbConfig(env).message, k)
  {
    var missing := MissingVars(env);
    assert v in missing;
    var j :| 0 <= j < |missing| && missing[j] == v;
    JoinContains(missing, ", ", j);
    var joined := Join(missing, ", ");
    var k :| OccursAt(v, joined, k);
    OccursAfterPrefix(v, MissingVarsPrefix, joined, k);
  }

  lemma OccursAfterPrefix(t: string, p: string, s: string, k: int)
    requires OccursAt(t, s, k)
    ensures OccursAt(t, p + s, |p| + k)
  {
    assert (p + s)[|p| + k..|p| + k + |t|] == s[k..k + |t|];
  }

  /** A built configuration has no empty connection field. */
  lemma ConfigFieldsNonEmpty(env: map<string, string>)
    requires BuildDbConfig(env).Ok?
    ensures var c := BuildDbConfig(env).value;
            c.host != [] && c.database != [] && c.user != [] && c.password != [] && c.port != []
  {
    assert "DB_HOST" in RequiredVars && "DB_NAME" in RequiredVars && "DB_USER" in RequiredVars;
    assert "DB_PASSWORD" in RequiredVars && "DB_PORT" in RequiredVars;
  }
}
