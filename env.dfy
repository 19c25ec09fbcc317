/** Process configuration read from environment variables. The environment is
    a parameter (a map from variable name to value); a variable counts as set
    only when it is present and non-empty, as JavaScript's truthiness test on
    `process.env[key]` has it. */
module Env {

  import opened Common

  type Environment = map<string, string>

  predicate IsSet(env: Environment, key: string)
  {
    key in env && env[key] != ""
  }

  /** `process.env[key]`: the raw value, which may be undefined. */
  function Lookup(env: Environment, key: string): Option<string>
  {
    if key in env then Some(env[key]) else None
  }

  /** `process.env[key] || fallback`. */
  function OrDefault(env: Environment, key: string, fallback: string): string
  {
    if IsSet(env, key) then env[key] else fallback
  }

  /** `v` is what `process.env[key]` reads: undefined exactly when the
      variable is absent, and otherwise its value, empty or not. */
  predicate RawValue(env: Environment, key: string, v: Option<string>)
  {
    (v.Some? <==> key in env) && (v.Some? ==> v.value == env[key])
  }

  const DefaultNodeEnv := "development"
  const DefaultAuthBaseUrl := "https://identity.omni.dev"
  const DefaultGatewayUrl := "http://localhost:18790"

  /** The exported `env` object, without `port`. */
  datatype Config = Config(
    nodeEnv: string,
    databaseUrl: Option<string>,
    authBaseUrl: string,
    authSecret: Option<string>,
    gatewayUrl: string,
    gatewaySecret: Option<string>,
    aetherApiUrl: Option<string>,
    aetherApiKey: Option<string>,
    flagsApiHost: Option<string>,
    flagsClientKey: Option<string>)

  function LoadConfig(env: Environment): (c: Config)
    ensures c.nodeEnv != "" && c.authBaseUrl != "" && c.gatewayUrl != ""
    ensures !IsSet(env, "NODE_ENV") ==> c.nodeEnv == DefaultNodeEnv
    ensures !IsSet(env, "AUTH_BASE_URL") ==> c.authBaseUrl == DefaultAuthBaseUrl
    ensures !IsSet(env, "GATEWAY_URL") ==> c.gatewayUrl == DefaultGatewayUrl
    ensures IsSet(env, "NODE_ENV") ==> c.nodeEnv == env["NODE_ENV"]
    ensures IsSet(env, "AUTH_BASE_URL") ==> c.authBaseUrl == env["AUTH_BASE_URL"]
    ensures IsSet(env, "GATEWAY_URL") ==> c.gatewayUrl == env["GATEWAY_URL"]
    ensures RawValue(env, "DATABASE_URL", c.databaseUrl) && RawValue(env, "AUTH_SECRET", c.authSecret)
    ensures RawValue(env, "GATEWAY_SECRET", c.gatewaySecret)
    ensures RawValue(env, "AETHER_API_URL", c.aetherApiUrl) && RawValue(env, "AETHER_API_KEY", c.aetherApiKey)
    ensures RawValue(env, "FLAGS_API_HOST", c.flagsApiHost) && RawValue(env, "FLAGS_CLIENT_KEY", c.flagsClientKey)
  {
    Config(
      OrDefault(env, "NODE_ENV", DefaultNodeEnv),
      Lookup(env, "DATABASE_URL"),
      OrDefault(env, "AUTH_BASE_URL", DefaultAuthBaseUrl),
      Lookup(env, "AUTH_SECRET"),
      OrDefault(env, "GATEWAY_URL", DefaultGatewayUrl),
      Lookup(env, "GATEWAY_SECRET"),
      Lookup(env, "AETHER_API_URL"),
      Lookup(env, "AETHER_API_KEY"),
      Lookup(env, "FLAGS_API_HOST"),
      Lookup(env, "FLAGS_CLIENT_KEY"))
  }

  const Required := ["DATABASE_URL", "AUTH_SECRET", "GATEWAY_SECRET"]

  const MissingPrefix := "Missing required environment variables: "

  /** `xs` appears in `ys` in the same order, possibly with gaps. */
  predicate IsSubsequence(xs: seq<string>, ys: seq<string>)
    decreases |ys|
  {
    xs == [] ||
    (ys != [] && ((xs[0] == ys[0] && IsSubsequence(xs[1..], ys[1..])) || IsSubsequence(xs, ys[1..])))
  }

  /** `keys.filter((key) => !process.env[key])`. */
  function MissingKeys(env: Environment, keys: seq<string>): (missing: seq<string>)
    ensures forall k :: k in missing <==> k in keys && !IsSet(env, k)
    ensures IsSubsequence(missing, keys)
  {
    if keys == [] then []
    else if IsSet(env, keys[0]) then MissingKeys(env, keys[1..])
    else
      var rest := MissingKeys(env, keys[1..]);
      assert ([keys[0]] + rest)[1..] == rest;
      [keys[0]] + rest
  }

  /** `xs.join(sep)`. */
  function Join(xs: seq<string>, sep: string): string
  {
    if xs == [] then "" else if |xs| == 1 then xs[0] else xs[0] + sep + Join(xs[1..], sep)
  }

  /** `validateEnv`: `None` when it returns, `Some(message)` when it throws. */
  function ValidateEnv(env: Environment): (error: Option<string>)
    ensures error.Some? <==> exists k :: k in Required && !IsSet(env, k)
    ensures error.Some? ==> error.value == MissingPrefix + Join(MissingKeys(env, Required), ", ")
  {
    var missing := MissingKeys(env, Required);
    if |missing| > 0 then
      assert missing[0] in missing;
      Some(MissingPrefix + Join(missing, ", "))
    else
      assert forall k :: k in Required && !IsSet(env, k) ==> k in missing;
      None
  }

  /** The message names exactly the missing variables, in the order of the
      required list: with only `AUTH_SECRET` unset, that one name follows the prefix. */
  lemma OnlyAuthSecretMissing(env: Environment)
    requires IsSet(env, "DATABASE_URL") && IsSet(env, "GATEWAY_SECRET")
    requires !IsSet(env, "AUTH_SECRET")
    ensures ValidateEnv(env) == Some(MissingPrefix + "AUTH_SECRET")
  {
    assert MissingKeys(env, Required[2..]) == [];
    assert MissingKeys(env, Required[1..]) == ["AUTH_SECRET"];
  }

  /** With none of the three variables set, all three are named, in order. */
  lemma NoneSetNamesAll(env: Environment)
    requires forall k :: k in Required ==> !IsSet(env, k)
    ensures ValidateEnv(env) == Some(MissingPrefix + Join(Required, ", "))
  {
    assert MissingKeys(env, Required[2..]) == Required[2..];
    assert MissingKeys(env, Required[1..]) == Required[1..];
    assert MissingKeys(env, Required) == Required;
  }

  /** After a passing `validateEnv`, the three secrets of the loaded
      configuration are present and non-empty. */
  lemma ValidatedConfigHasSecrets(env: Environment)
    requires ValidateEnv(env).None?
    ensures var c := LoadConfig(env);
      && c.databaseUrl.Some? && c.databaseUrl.value != ""
      && c.authSecret.Some? && c.authSecret.value != ""
      && c.gatewaySecret.Some? && c.gatewaySecret.value != ""
  {
    assert "DATABASE_URL" in Required && "AUTH_SECRET" in Required && "GATEWAY_SECRET" in Required;
  }
}
