/** pkg/config/config.go: GetEnv and LoadConfig. The process environment is a
    map; the .env file, when present, is the map of its assignments. */
module Config {
  import opened Wrappers

  datatype Settings = Settings(jwtSecret: string, authServicePort: string)

  const DefaultAuthServicePort := "8081"

  /** GetEnv (lines 25-30): the variable's value unless it is unset or empty. */
  function GetEnv(env: map<string, string>, key: string, defaultValue: string): (r: string)
    ensures key in env && env[key] != "" ==> r == env[key]
    ensures key !in env || env[key] == "" ==> r == defaultValue
  {
    if key in env && env[key] != "" then env[key] else defaultValue
  }

  /** godotenv.Load: the file's assignments are added, but never replace a
      variable that is already set (even to ""); a missing file adds nothing. */
  function LoadDotenv(env: map<string, string>, dotenv: Option<map<string, string>>): (r: map<string, string>)
    ensures forall k :: k in env ==> k in r && r[k] == env[k]
    ensures dotenv.None? ==> r == env
    ensures dotenv.Some? ==> forall k :: k in r <==> k in env || k in dotenv.value
    ensures dotenv.Some? ==> forall k :: k in dotenv.value && k !in env ==> r[k] == dotenv.value[k]
  {
    match dotenv
    case None => env
    case Some(file) => file + env
  }

  /** LoadConfig (lines 15-24): a missing .env is only logged; JWT_SECRET
      defaults to "" and AUTH_SERVICE_PORT to "8081". */
  function LoadConfig(env: map<string, string>, dotenv: Option<map<string, string>>): Settings {
    var vars := LoadDotenv(env, dotenv);
    Settings(GetEnv(vars, "JWT_SECRET", ""), GetEnv(vars, "AUTH_SERVICE_PORT", DefaultAuthServicePort))
  }

  // ------------------------------------------------------------- properties

  /** With neither an environment nor a .env file, the defaults apply. */
  lemma DefaultsWithoutConfiguration()
    ensures LoadConfig(map[], None) == Settings("", DefaultAuthServicePort)
  {
  }

  /** A variable set in the environment wins over the .env file, so the file
      matters only for variables the environment lacks. */
  lemma EnvironmentWins(env: map<string, string>, file: map<string, string>)
    requires "JWT_SECRET" in env && "AUTH_SERVICE_PORT" in env
    ensures LoadConfig(env, Some(file)) == LoadConfig(env, None)
  {
  }

  /** A variable set to "" in the environment falls back to the default, even
      when the .env file gives it a value. */
  lemma EmptyVariableFallsBack(env: map<string, string>, file: map<string, string>)
    requires "AUTH_SERVICE_PORT" in env && env["AUTH_SERVICE_PORT"] == ""
    ensures LoadConfig(env, Some(file)).authServicePort == DefaultAuthServicePort
  {
  }

  /** GetEnv never answers "" unless the default is "". */
  lemma GetEnvNonEmpty(env: map<string, string>, key: string, defaultValue: string)
    requires defaultValue != ""
    ensures GetEnv(env, key, defaultValue) != ""
  {
  }
}
