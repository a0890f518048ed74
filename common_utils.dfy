/**
 * `EnvGet`, the typed lookup with a default used to read the configuration
 * (pkg/common/utils.go), together with the two `strconv` parsers it relies on.
 * The process environment is passed in as a map; an unset variable reads as
 * the empty string, as `os.Getenv` reports it.
 */
module Utils {
  import opened Wrappers

  /** The dynamic type of the `interface{}` default, as `EnvGet`'s type switch sees it. */
  datatype Value =
    | IntV(i: int)
    | BoolV(b: bool)
    | StrV(s: string)
    | OtherV  // nil, or a default of any other dynamic type

  /** Bounds of Go's `int` on a 64-bit platform. */
  const MinInt: int := -0x8000_0000_0000_0000
  const MaxInt: int := 0x7fff_ffff_ffff_ffff

  predicate IsDigit(c: char) { '0' <= c <= '9' }

  predicate AllDigits(s: string) {
    forall i :: 0 <= i < |s| ==> IsDigit(s[i])
  }

  function DigitValue(c: char): (d: nat)
    requires IsDigit(c)
    ensures d < 10
  {
    (c as int) - ('0' as int)
  }

  function DigitChar(d: nat): (c: char)
    requires d < 10
    ensures IsDigit(c) && DigitValue(c) == d
  {
    (('0' as int) + d) as char
  }

  /** The number a string of decimal digits denotes (leading zeros allowed). */
  function DecimalValue(s: string): nat
    requires AllDigits(s)
  {
    if s == [] then 0 else DecimalValue(s[..|s| - 1]) * 10 + DigitValue(s[|s| - 1])
  }

  /** Shortest decimal rendering of a natural number (`strconv.Itoa` for n >= 0). */
  function FormatNat(n: nat): (s: string)
    ensures s != [] && AllDigits(s)
  {
    if n < 10 then [DigitChar(n)] else FormatNat(n / 10) + [DigitChar(n % 10)]
  }

  /** `strconv.Itoa`. */
  function FormatInt(n: int): string {
    if n < 0 then "-" + FormatNat(-n) else FormatNat(n)
  }

  lemma {:induction false} FormatNatValue(n: nat)
    ensures DecimalValue(FormatNat(n)) == n
  {
    if n >= 10 {
      FormatNatValue(n / 10);
      var s := FormatNat(n);
      assert s[..|s| - 1] == FormatNat(n / 10);
    }
  }

  /**
   * `strconv.Atoi`: an optional '+' or '-', then one or more decimal digits,
   * whose value must fit in a 64-bit int; anything else is an error.
   */
  function Atoi(s: string): (r: Option<int>)
    ensures r.Some? ==> MinInt <= r.value <= MaxInt
    ensures r.Some? ==> s != [] && (s[0] == '+' || s[0] == '-' || IsDigit(s[0]))
    ensures r.Some? && r.value < 0 ==> s[0] == '-'
  {
    var digits := if |s| > 0 && (s[0] == '+' || s[0] == '-') then s[1..] else s;
    if digits == [] || !AllDigits(digits) then None
    else
      var n: int := if s[0] == '-' then -(DecimalValue(digits) as int) else DecimalValue(digits);
      if MinInt <= n <= MaxInt then Some(n) else None
  }

  /** Every 64-bit int survives `Itoa` followed by `Atoi`. */
  lemma AtoiFormatInt(n: int)
    requires MinInt <= n <= MaxInt
    ensures Atoi(FormatInt(n)) == Some(n)
  {
    var s := FormatInt(n);
    if n < 0 {
      FormatNatValue(-n);
      assert s[1..] == FormatNat(-n);
    } else {
      FormatNatValue(n);
    }
  }

  const TrueTokens: set<string> := {"1", "t", "T", "TRUE", "true", "True"}
  const FalseTokens: set<string> := {"0", "f", "F", "FALSE", "false", "False"}

  /** `strconv.ParseBool`: exactly twelve spellings are accepted. */
  function ParseBool(s: string): (r: Option<bool>)
    ensures r.Some? <==> s in TrueTokens + FalseTokens
    ensures r == Some(true) <==> s in TrueTokens
  {
    if s in TrueTokens then Some(true)
    else if s in FalseTokens then Some(false)
    else None
  }

  /** `strconv.FormatBool`. */
  function FormatBool(b: bool): string {
    if b then "true" else "false"
  }

  /** `os.Getenv`: an unset variable reads as "". */
  function Getenv(env: map<string, string>, key: string): string {
    if key in env then env[key] else ""
  }

  /**
   * `EnvGet`: an unset or empty variable yields the default unchanged; an int
   * or bool default makes the value be parsed as that type, falling back to
   * the default when parsing fails; any other default yields the raw string.
   */
  function EnvGet(env: map<string, string>, key: string, defaultValue: Value): (r: Value)
    ensures Getenv(env, key) == "" ==> r == defaultValue
    ensures defaultValue.IntV? ==> r.IntV?
    ensures defaultValue.BoolV? ==> r.BoolV?
    ensures defaultValue.StrV? ==> r.StrV?
    ensures r != defaultValue ==> r == StrV(env[key]) || Atoi(env[key]).Some? || ParseBool(env[key]).Some?
  {
    var value := Getenv(env, key);
    if |value| == 0 then defaultValue
    else
      match defaultValue
      case IntV(_) =>
        (match Atoi(value) case Some(n) => IntV(n) case None => defaultValue)
      case BoolV(_) =>
        (match ParseBool(value) case Some(b) => BoolV(b) case None => defaultValue)
      case _ => StrV(value)
  }

  /** With an int default, a set variable yields its `Atoi` value, or the default when `Atoi` rejects it. */
  lemma EnvGetInt(env: map<string, string>, key: string, d: int)
    requires key in env && env[key] != ""
    ensures Atoi(env[key]).Some? ==> EnvGet(env, key, IntV(d)) == IntV(Atoi(env[key]).value)
    ensures Atoi(env[key]).None? ==> EnvGet(env, key, IntV(d)) == IntV(d)
  {
  }

  /** With a bool default, a set variable yields its `ParseBool` value, or the default outside the twelve spellings. */
  lemma EnvGetBool(env: map<string, string>, key: string, d: bool)
    requires key in env && env[key] != ""
    ensures env[key] in TrueTokens ==> EnvGet(env, key, BoolV(d)) == BoolV(true)
    ensures env[key] in FalseTokens ==> EnvGet(env, key, BoolV(d)) == BoolV(false)
    ensures env[key] !in TrueTokens + FalseTokens ==> EnvGet(env, key, BoolV(d)) == BoolV(d)
  {
  }

  /** With a string (or any other) default, a set variable is returned verbatim, as a string. */
  lemma EnvGetVerbatim(env: map<string, string>, key: string, d: Value)
    requires !d.IntV? && !d.BoolV?
    requires key in env && env[key] != ""
    ensures EnvGet(env, key, d) == StrV(env[key])
  {
  }

  /** Setting a variable to the decimal form of any 64-bit int makes `EnvGet` return exactly that int. */
  lemma EnvGetFormattedInt(env: map<string, string>, key: string, n: int, d: int)
    requires MinInt <= n <= MaxInt
    ensures EnvGet(env[key := FormatInt(n)], key, IntV(d)) == IntV(n)
  {
    AtoiFormatInt(n);
  }

  /** Setting a variable to `FormatBool(b)` makes `EnvGet` with a bool default return `b`. */
  lemma EnvGetFormattedBool(env: map<string, string>, key: string, b: bool, d: bool)
    ensures EnvGet(env[key := FormatBool(b)], key, BoolV(d)) == BoolV(b)
  {
  }
}
