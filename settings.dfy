/**
  The configuration read side of internal/store/config.go: GetConfig starts
  from the defaults (max_retries 3, backoff_base 2) and overlays every stored
  row whose key it knows and whose value strconv.Atoi accepts. The config
  table's writes (SetConfig) are a method of the store.
*/
module Settings {
  import opened Wrappers
  import opened Models
  import Lexicographic

  const MaxRetriesKey: string := "max_retries"
  const BackoffBaseKey: string := "backoff_base"

  /** The configuration with no stored overrides. */
  const DefaultConfig: Config := Config(3, 2)

  predicate IsDigit(c: char) {
    '0' <= c <= '9'
  }

  predicate AllDigits(s: string) {
    forall i :: 0 <= i < |s| ==> IsDigit(s[i])
  }

  /** The value of a string of decimal digits (most significant first). */
  function DigitsValue(s: string): nat
    requires AllDigits(s)
  {
    if s == [] then 0
    else DigitsValue(s[..|s| - 1]) * 10 + (s[|s| - 1] as int - '0' as int)
  }

  /**
    strconv.Atoi on base-10 input: an optional '+' or '-' followed by at
    least one decimal digit; anything else is rejected.
  */
  function Atoi(s: string): (r: Option<int>)
    ensures r.Some? ==> |s| > 0
    ensures r.Some? && s[0] != '-' ==> r.value >= 0
  {
    var signed := |s| > 0 && (s[0] == '+' || s[0] == '-');
    var digits := if signed then s[1..] else s;
    if |digits| == 0 || !AllDigits(digits) then None
    else
      var magnitude: int := DigitsValue(digits);
      Some(if signed && s[0] == '-' then -magnitude else magnitude)
  }

  /** The decimal digits of a natural number, without leading zeros. */
  function Digits(n: nat): (s: string)
    ensures |s| > 0 && AllDigits(s)
  {
    var last := ['0' + (n % 10) as char];
    if n < 10 then last else Digits(n / 10) + last
  }

  /** strconv.Itoa: the decimal text of an integer, '-' before a negative one. */
  function Decimal(n: int): (s: string)
    ensures |s| > 0
  {
    if n < 0 then "-" + Digits(-n) else Digits(n)
  }

  /** The digits of `n` read back give `n`. */
  lemma {:induction false} DigitsRoundTrip(n: nat)
    ensures DigitsValue(Digits(n)) == n
  {
    var s := Digits(n);
    if n >= 10 {
      DigitsRoundTrip(n / 10);
      assert s[..|s| - 1] == Digits(n / 10);
    }
  }

  /** Parsing the decimal text of an integer gives the integer back. */
  lemma {:induction false} AtoiDecimal(n: int)
    ensures Atoi(Decimal(n)) == Some(n)
  {
    if n < 0 {
      DigitsRoundTrip(-n);
      assert Decimal(n)[1..] == Digits(-n);
    } else {
      DigitsRoundTrip(n);
      assert Decimal(n)[0] != '+' && Decimal(n)[0] != '-';
    }
  }

  /** Some inputs strconv.Atoi rejects. */
  lemma AtoiRejects()
    ensures Atoi("") == None && Atoi("-") == None && Atoi("+") == None
    ensures Atoi("abc") == None && Atoi("1.5") == None && Atoi(" 7") == None
  {
    assert !AllDigits("abc") by { assert !IsDigit("abc"[0]); }
    assert !AllDigits("1.5") by { assert !IsDigit("1.5"[1]); }
    assert !AllDigits(" 7") by { assert !IsDigit(" 7"[0]); }
  }

  /** One row of the loop's switch: a known key whose value parses overrides its field. */
  function Apply(cfg: Config, key: string, value: string): Config {
    if key == MaxRetriesKey then cfg.(maxRetries := Atoi(value).GetOr(cfg.maxRetries))
    else if key == BackoffBaseKey then cfg.(backoffBase := Atoi(value).GetOr(cfg.backoffBase))
    else cfg
  }

  /** The loop over the stored rows, visited in the order `keys`. */
  function Overlay(cfg: Config, stored: map<string, string>, keys: seq<string>): Config
    requires forall k :: k in keys ==> k in stored
    decreases |keys|
  {
    if keys == [] then cfg
    else Overlay(Apply(cfg, keys[0], stored[keys[0]]), stored, keys[1..])
  }

  /** The value a field ends with: the stored value of its key if it parses, else `fallback`. */
  function Overridden(stored: map<string, string>, key: string, fallback: int): int {
    if key in stored then Atoi(stored[key]).GetOr(fallback) else fallback
  }

  /**
    Visiting the rows in any order, each key at most once, leaves each field
    as its own key alone decides.
  */
  lemma {:induction false} OverlayAnyOrder(cfg: Config, stored: map<string, string>, keys: seq<string>)
    requires forall k :: k in keys ==> k in stored
    requires forall i, j :: 0 <= i < j < |keys| ==> keys[i] != keys[j]
    decreases |keys|
    ensures Overlay(cfg, stored, keys).maxRetries ==
            (if MaxRetriesKey in keys then Atoi(stored[MaxRetriesKey]).GetOr(cfg.maxRetries) else cfg.maxRetries)
    ensures Overlay(cfg, stored, keys).backoffBase ==
            (if BackoffBaseKey in keys then Atoi(stored[BackoffBaseKey]).GetOr(cfg.backoffBase) else cfg.backoffBase)
  {
    if keys != [] {
      var rest := keys[1..];
      forall i, j | 0 <= i < j < |rest|
        ensures rest[i] != rest[j]
      {
        assert rest[i] == keys[i + 1] && rest[j] == keys[j + 1];
      }
      assert keys[0] !in rest by {
        forall i | 0 <= i < |rest|
          ensures rest[i] != keys[0]
        {
          assert rest[i] == keys[i + 1];
        }
      }
      assert forall k :: k in keys <==> k == keys[0] || k in rest;
      OverlayAnyOrder(Apply(cfg, keys[0], stored[keys[0]]), stored, rest);
    }
  }

  /** GetConfig: the defaults, each overridden by its stored value when that parses. */
  function GetConfig(stored: map<string, string>): (cfg: Config)
    ensures cfg.maxRetries == Overridden(stored, MaxRetriesKey, DefaultConfig.maxRetries)
    ensures cfg.backoffBase == Overridden(stored, BackoffBaseKey, DefaultConfig.backoffBase)
  {
    var keys := Lexicographic.Elements(stored.Keys);
    Lexicographic.OrderedIsDistinct(keys);
    OverlayAnyOrder(DefaultConfig, stored, keys);
    Overlay(DefaultConfig, stored, keys)
  }

  /** With no stored rows the defaults come back. */
  lemma EmptyGivesDefaults()
    ensures GetConfig(map[]) == Config(3, 2)
  {
  }

  /** A stored value that does not parse leaves the default in place. */
  lemma UnparsableKeepsDefault(stored: map<string, string>)
    requires MaxRetriesKey in stored && Atoi(stored[MaxRetriesKey]).None?
    ensures GetConfig(stored).maxRetries == 3
  {
  }

  /** Rows under other keys do not affect the configuration. */
  lemma OtherKeysIgnored(stored: map<string, string>, key: string, value: string)
    requires key != MaxRetriesKey && key != BackoffBaseKey
    ensures GetConfig(stored[key := value]) == GetConfig(stored)
  {
    var a := GetConfig(stored[key := value]);
    var b := GetConfig(stored);
    assert a.maxRetries == b.maxRetries && a.backoffBase == b.backoffBase;
  }

  /** Storing the decimal text of `n` under max_retries makes GetConfig report `n`. */
  lemma {:induction false} SetThenGetMaxRetries(stored: map<string, string>, n: int)
    ensures GetConfig(stored[MaxRetriesKey := Decimal(n)]).maxRetries == n
    ensures GetConfig(stored[MaxRetriesKey := Decimal(n)]).backoffBase == GetConfig(stored).backoffBase
  {
    AtoiDecimal(n);
  }

  /** Storing the decimal text of `n` under backoff_base makes GetConfig report `n`. */
  lemma {:induction false} SetThenGetBackoffBase(stored: map<string, string>, n: int)
    ensures GetConfig(stored[BackoffBaseKey := Decimal(n)]).backoffBase == n
    ensures GetConfig(stored[BackoffBaseKey := Decimal(n)]).maxRetries == GetConfig(stored).maxRetries
  {
    AtoiDecimal(n);
  }
}
