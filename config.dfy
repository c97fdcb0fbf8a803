/**
 * infrastructure/utils/config.go: reading settings from the process environment,
 * given here as a map from variable name to value (`os.Getenv` of an unset name is "").
 */
module Config {
  import opened Wrappers
  import opened Strconv

  type Env = map<string, string>

  /** `os.Getenv`: the value, or the empty string when the variable is unset. */
  function OsGetenv(env: Env, key: string): string {
    if key in env then env[key] else ""
  }

  /** `GetEnv`: the value when it is set and non-empty, the default otherwise. */
  function GetEnv(env: Env, key: string, defaultValue: string): (v: string)
    ensures key !in env || env[key] == "" ==> v == defaultValue
    ensures key in env && env[key] != "" ==> v == env[key]
  {
    var value := OsGetenv(env, key);
    if value == "" then defaultValue else value
  }

  /**
   * `GetEnvAsInt`: the value read as a decimal `int`; the default when the variable is unset,
   * empty, or not an optionally signed decimal integer that fits 64 bits.
   */
  function GetEnvAsInt(env: Env, key: string, defaultValue: int): (v: int)
    ensures OsGetenv(env, key) == "" ==> v == defaultValue
    ensures Atoi(OsGetenv(env, key)) == None ==> v == defaultValue
    ensures Atoi(OsGetenv(env, key)).Some? ==> v == Atoi(OsGetenv(env, key)).value
  {
    var valueStr := GetEnv(env, key, "");
    if valueStr == "" then defaultValue
    else
      match Atoi(valueStr)
      case None => defaultValue
      case Some(value) => value
  }

  /** A setting that is not an optionally signed string of decimal digits gives the default. */
  lemma GetEnvAsIntNonDecimal(env: Env, key: string, defaultValue: int)
    requires Unsigned(OsGetenv(env, key)) == [] || !AllDigits(Unsigned(OsGetenv(env, key)))
    ensures GetEnvAsInt(env, key, defaultValue) == defaultValue
  {
    AtoiRefuses(OsGetenv(env, key));
  }

  /** A setting of digits whose value does not fit 64 bits gives the default. */
  lemma GetEnvAsIntOutOfRange(env: Env, key: string, defaultValue: int)
    requires |OsGetenv(env, key)| >= 1 && AllDigits(OsGetenv(env, key))
    requires DigitsValue(OsGetenv(env, key)) > MaxInt64
    ensures GetEnvAsInt(env, key, defaultValue) == defaultValue
  {
    AtoiDigits(OsGetenv(env, key));
  }

  /** A setting written as a decimal `int` (negative ones included) is read back as that `int`. */
  lemma GetEnvAsIntReadsBack(env: Env, key: string, n: int, defaultValue: int)
    requires MinInt64 <= n <= MaxInt64
    ensures GetEnvAsInt(env[key := FormatInt(n)], key, defaultValue) == n
  {
    AtoiFormatInt(n);
  }
}
