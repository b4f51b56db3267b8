/**
 * The typed configuration map (internal/config/manager.go). Go stores
 * `interface{}` values; the model tags each value with its dynamic type, so
 * a typed getter falls back to its default exactly when Go's type assertion
 * fails. The environment is a map from variable name to value (an unset
 * variable reads as ""), and `time.ParseDuration` is a parameter.
 */
module Config {
  import opened Wrappers
  import opened Strings

  /** A value held in the configuration map, tagged with its Go dynamic type. */
  datatype Value =
    | Nil
    | Int(i: int)
    | Str(s: string)
    | Bool(b: bool)
    | Duration(nanos: int)
    | Other(typeName: string)

  const NanosPerMinute: int := 60 * 1_000_000_000
  /** The fallback session timeout, thirty minutes. */
  const ThirtyMinutes: int := 30 * NanosPerMinute

  const MinInt64: int := -0x8000_0000_0000_0000
  const MaxInt64: int := 0x7fff_ffff_ffff_ffff

  /** `%d` of an integer. */
  function FormatInt(n: int): (r: string)
    ensures |r| >= 1
  {
    if n < 0 then "-" + FormatDecimal(-n) else FormatDecimal(n)
  }

  /** `strconv.Atoi`: an optional sign and at least one decimal digit, within 64 bits. */
  function Atoi(s: string): (r: Option<int>)
    ensures r.Some? ==> MinInt64 <= r.value <= MaxInt64
    ensures s == "" ==> r.None?
  {
    if s == "" then None
    else
      var neg := s[0] == '-';
      var digits := if s[0] == '+' || s[0] == '-' then s[1..] else s;
      if digits == "" || !AllDigits(digits) then None
      else
        var magnitude: int := DigitsValue(digits);
        var v := if neg then -magnitude else magnitude;
        if v < MinInt64 || v > MaxInt64 then None else Some(v)
  }

  /** `strconv.ParseBool`. */
  function ParseBool(s: string): (r: Option<bool>)
    ensures r == Some(true) <==> s in ["1", "t", "T", "TRUE", "true", "True"]
    ensures r == Some(false) <==> s in ["0", "f", "F", "FALSE", "false", "False"]
  {
    if s == "1" || s == "t" || s == "T" || s == "TRUE" || s == "true" || s == "True" then Some(true)
    else if s == "0" || s == "f" || s == "F" || s == "FALSE" || s == "false" || s == "False" then Some(false)
    else None
  }

  /** `os.Getenv`: an unset variable reads as the empty string. */
  function Getenv(env: map<string, string>, key: string): string
  {
    if key in env then env[key] else ""
  }

  /** `getEnvInt`. */
  function EnvInt(env: map<string, string>, key: string, defaultValue: int): (r: int)
    ensures Getenv(env, key) == "" ==> r == defaultValue
    ensures Atoi(Getenv(env, key)).None? ==> r == defaultValue
    ensures Atoi(Getenv(env, key)).Some? ==> r == Atoi(Getenv(env, key)).value
  {
    var val := Getenv(env, key);
    if val != "" then
      match Atoi(val)
      case Some(n) => n
      case None => defaultValue
    else defaultValue
  }

  /** `getEnvString`. */
  function EnvString(env: map<string, string>, key: string, defaultValue: string): (r: string)
    ensures r == defaultValue || (key in env && r == env[key] != "")
    ensures Getenv(env, key) != "" ==> r == env[key]
  {
    var val := Getenv(env, key);
    if val != "" then val else defaultValue
  }

  /** `getEnvBool`. */
  function EnvBool(env: map<string, string>, key: string, defaultValue: bool): (r: bool)
    ensures ParseBool(Getenv(env, key)).None? ==> r == defaultValue
    ensures ParseBool(Getenv(env, key)).Some? ==> r == ParseBool(Getenv(env, key)).value
  {
    var val := Getenv(env, key);
    if val != "" then
      match ParseBool(val)
      case Some(b) => b
      case None => defaultValue
    else defaultValue
  }

  /**
   * `getEnvDuration`: the variable, or the default text when unset, parsed;
   * else the default text parsed; else thirty minutes.
   */
  function EnvDuration(env: map<string, string>, key: string, defaultValue: string,
                       parseDuration: string -> Option<int>): (r: int)
    ensures Getenv(env, key) != "" && parseDuration(Getenv(env, key)).Some? ==> r == parseDuration(Getenv(env, key)).value
    ensures (Getenv(env, key) == "" || parseDuration(Getenv(env, key)).None?) && parseDuration(defaultValue).Some? ==>
      r == parseDuration(defaultValue).value
    ensures (Getenv(env, key) == "" || parseDuration(Getenv(env, key)).None?) && parseDuration(defaultValue).None? ==>
      r == ThirtyMinutes
  {
    var val := if Getenv(env, key) == "" then defaultValue else Getenv(env, key);
    match parseDuration(val)
    case Some(d) => d
    case None =>
      match parseDuration(defaultValue)
      case Some(d) => d
      case None => ThirtyMinutes
  }

  /** The eight entries `LoadFromEnv` writes. */
  function EnvConfig(env: map<string, string>, parseDuration: string -> Option<int>): (r: map<string, Value>)
    ensures r.Keys == {"https_port", "dns_port", "session_timeout", "rate_limit",
                       "max_sessions", "cert_cache_size", "enable_debug", "log_level"}
  {
    map[
      "https_port" := Int(EnvInt(env, "EVILGINX_HTTPS_PORT", 443)),
      "dns_port" := Int(EnvInt(env, "EVILGINX_DNS_PORT", 53)),
      "session_timeout" := Duration(EnvDuration(env, "EVILGINX_SESSION_TIMEOUT", "30m", parseDuration)),
      "rate_limit" := Int(EnvInt(env, "EVILGINX_RATE_LIMIT", 100)),
      "max_sessions" := Int(EnvInt(env, "EVILGINX_MAX_SESSIONS", 1000)),
      "cert_cache_size" := Int(EnvInt(env, "EVILGINX_CERT_CACHE_SIZE", 100)),
      "enable_debug" := Bool(EnvBool(env, "EVILGINX_DEBUG", false)),
      "log_level" := Str(EnvString(env, "EVILGINX_LOG_LEVEL", "info"))
    ]
  }

  /** The entries `LoadFromEnv` writes when no variable is set. */
  const Defaults: map<string, Value> := map[
    "https_port" := Int(443),
    "dns_port" := Int(53),
    "session_timeout" := Duration(ThirtyMinutes),
    "rate_limit" := Int(100),
    "max_sessions" := Int(1000),
    "cert_cache_size" := Int(100),
    "enable_debug" := Bool(false),
    "log_level" := Str("info")
  ]

  /**
   * With no variable set, `LoadFromEnv` writes exactly the stated defaults,
   * provided "30m" parses as thirty minutes (or not at all, when the
   * fallback gives the same).
   */
  lemma EmptyEnvGivesDefaults(parseDuration: string -> Option<int>)
    requires parseDuration("30m").Some? ==> parseDuration("30m").value == ThirtyMinutes
    ensures EnvConfig(map[], parseDuration) == Defaults
  {
  }

  predicate InRange(n: int, lo: int, hi: int)
  {
    lo <= n <= hi
  }

  class Manager {
    var config: map<string, Value>

    /** `NewManager`: an empty map. */
    constructor()
      ensures config == map[]
    {
      config := map[];
    }

    /** `Get`: the stored value, or nil for an absent key. */
    function Get(key: string): (r: Value)
      reads this
      ensures key !in config ==> r == Nil
      ensures key in config ==> r == config[key]
    {
      if key in config then config[key] else Nil
    }

    /** `Set`: this key now holds `value`; every other key is unchanged. */
    method Set(key: string, value: Value)
      modifies this
      ensures config == old(config)[key := value]
    {
      config := config[key := value];
    }

    /** `GetInt`: the stored int, or the default when absent or of another type. */
    function GetInt(key: string, defaultValue: int): (r: int)
      reads this
      ensures Get(key).Int? ==> r == Get(key).i
      ensures !Get(key).Int? ==> r == defaultValue
    {
      match Get(key)
      case Int(i) => i
      case _ => defaultValue
    }

    /** `GetString`. */
    function GetString(key: string, defaultValue: string): (r: string)
      reads this
      ensures Get(key).Str? ==> r == Get(key).s
      ensures !Get(key).Str? ==> r == defaultValue
    {
      match Get(key)
      case Str(s) => s
      case _ => defaultValue
    }

    /** `GetBool`. */
    function GetBool(key: string, defaultValue: bool): (r: bool)
      reads this
      ensures Get(key).Bool? ==> r == Get(key).b
      ensures !Get(key).Bool? ==> r == defaultValue
    {
      match Get(key)
      case Bool(b) => b
      case _ => defaultValue
    }

    /** `GetDuration`: an int is not a duration, so it gives the default too. */
    function GetDuration(key: string, defaultValue: int): (r: int)
      reads this
      ensures Get(key).Duration? ==> r == Get(key).nanos
      ensures !Get(key).Duration? ==> r == defaultValue
    {
      match Get(key)
      case Duration(d) => d
      case _ => defaultValue
    }

    /** `LoadFromEnv`: the eight entries overwrite the map; other keys stay. */
    method LoadFromEnv(env: map<string, string>, parseDuration: string -> Option<int>)
      modifies this
      ensures config == old(config) + EnvConfig(env, parseDuration)
    {
      config := config + EnvConfig(env, parseDuration);
    }

    /**
     * `Validate`: the HTTPS port, the DNS port, the rate limit and the
     * session cap are checked in that order, each read with its default, and
     * the first one out of range is reported.
     */
    function Validate(): (r: Option<string>)
      reads this
      ensures r.None? <==> (InRange(GetInt("https_port", 443), 1, 65535)
                            && InRange(GetInt("dns_port", 53), 1, 65535)
                            && InRange(GetInt("rate_limit", 100), 1, 10000)
                            && InRange(GetInt("max_sessions", 1000), 1, 100000))
      ensures !InRange(GetInt("https_port", 443), 1, 65535) ==>
                r == Some("invalid HTTPS port: " + FormatInt(GetInt("https_port", 443)))
      ensures InRange(GetInt("https_port", 443), 1, 65535) && !InRange(GetInt("dns_port", 53), 1, 65535) ==>
                r == Some("invalid DNS port: " + FormatInt(GetInt("dns_port", 53)))
    {
      var httpsPort := GetInt("https_port", 443);
      var dnsPort := GetInt("dns_port", 53);
      var rateLimit := GetInt("rate_limit", 100);
      var maxSessions := GetInt("max_sessions", 1000);
      if !InRange(httpsPort, 1, 65535) then Some("invalid HTTPS port: " + FormatInt(httpsPort))
      else if !InRange(dnsPort, 1, 65535) then Some("invalid DNS port: " + FormatInt(dnsPort))
      else if !InRange(rateLimit, 1, 10000) then Some("invalid rate limit: " + FormatInt(rateLimit))
      else if !InRange(maxSessions, 1, 100000) then Some("invalid max sessions: " + FormatInt(maxSessions))
      else None
    }

    /** `GetAll`: a copy of the map, built entry by entry. */
    method GetAll() returns (result: map<string, Value>)
      ensures result == config
    {
      result := map[];
      var todo := config.Keys;
      while todo != {}
        invariant todo <= config.Keys
        invariant result.Keys == config.Keys - todo
        invariant forall k :: k in result ==> result[k] == config[k]
        decreases todo
      {
        var k :| k in todo;
        result := result[k := config[k]];
        todo := todo - {k};
      }
    }
  }

  /** A fresh manager validates: every default is in range. */
  lemma NewManagerValidates(m: Manager)
    requires m.config == map[]
    ensures m.Validate().None?
  {
  }

  /** Loading an unset environment into a fresh manager gives a configuration that validates. */
  lemma DefaultsValidate(m: Manager)
    requires m.config == Defaults
    ensures m.Validate().None?
    ensures m.GetDuration("session_timeout", 0) == ThirtyMinutes
    ensures m.GetString("log_level", "") == "info"
  {
  }

  /** `%d` followed by `strconv.Atoi` gives the number back, within 64 bits. */
  lemma AtoiFormatInt(n: int)
    requires MinInt64 <= n <= MaxInt64
    ensures Atoi(FormatInt(n)) == Some(n)
  {
    var digits := FormatDecimal(if n < 0 then -n else n);
    DigitsValueFormat(if n < 0 then -n else n);
    var s := FormatInt(n);
    if n < 0 {
      assert s[0] == '-' && s[1..] == digits;
    } else {
      assert s == digits && IsDigit(s[0]);
    }
    AtoiOfDigits(s, n < 0, digits);
  }

  /** `Atoi` on a sign (or none) followed by decimal digits reads the digits' value. */
  lemma AtoiOfDigits(s: string, neg: bool, digits: string)
    requires digits != "" && AllDigits(digits)
    requires neg ==> s == "-" + digits
    requires !neg ==> s == digits
    requires MinInt64 <= (if neg then -(DigitsValue(digits) as int) else DigitsValue(digits) as int) <= MaxInt64
    ensures Atoi(s) == Some(if neg then -(DigitsValue(digits) as int) else DigitsValue(digits) as int)
  {
    if neg {
      assert s[1..] == digits;
    } else {
      assert IsDigit(s[0]);
    }
  }

  /** `Set` then `Get` gives the value set; `GetAll` taken before is not affected by the `Set`. */
  method SetThenGet(m: Manager, key: string, value: Value, other: string)
    returns (snapshot: map<string, Value>)
    requires other != key
    modifies m
    ensures m.Get(key) == value
    ensures m.Get(other) == old(m.Get(other))
    ensures snapshot == old(m.config)
  {
    snapshot := m.GetAll();
    m.Set(key, value);
  }

  /** An unset environment written over a fresh manager, followed by `Validate`. */
  method LoadDefaultsAndValidate(parseDuration: string -> Option<int>) returns (m: Manager, err: Option<string>)
    requires parseDuration("30m").Some? ==> parseDuration("30m").value == ThirtyMinutes
    ensures m.config == Defaults
    ensures err.None?
  {
    m := new Manager();
    m.LoadFromEnv(map[], parseDuration);
    EmptyEnvGivesDefaults(parseDuration);
    DefaultsValidate(m);
    err := m.Validate();
  }
}
