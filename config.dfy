/**
 * The bot's configuration: the `ADMIN_IDS` list parsed from a comma-separated
 * environment variable, the boolean feature flags, and `validate`, which
 * checks the required settings in a fixed order and reports the first that
 * fails.
 *
 * The environment is a parameter: `None` for an unset variable.
 */
module Config {
  import opened Wrappers
  import opened Text

  const DefaultApiType: string := "openai"
  const DefaultApiBaseUrl: string := "https://api.openai.com/v1"
  const DefaultMaxMessageLength: int := 4000
  const DefaultRateLimitMessages: int := 20
  const DefaultRateLimitWindow: int := 60

  /** The ids kept from the comma-separated parts: the value of every part
      whose stripped form is a digit string, in order. */
  function AdminIdsOf(parts: seq<string>): (ids: seq<int>)
    ensures |ids| <= |parts|
    ensures forall i :: 0 <= i < |ids| ==> ids[i] >= 0
  {
    if parts == [] then []
    else
      match IdOf(parts[0])
      case Some(u) => [u] + AdminIdsOf(parts[1..])
      case None => AdminIdsOf(parts[1..])
  }

  /** The id one part names: `int(x.strip())` when `x.strip().isdigit()`. */
  function IdOf(part: string): (r: Option<int>)
    ensures r.Some? ==> r.value >= 0
  {
    var p := Strip(part);
    if IsDigits(p) then Some(DigitsValue(p) as int) else None
  }

  /** `ADMIN_IDS`: `[int(x.strip()) for x in raw.split(",") if
      x.strip().isdigit()]`, with an unset variable read as `""`. */
  function AdminIds(raw: Option<string>): seq<int> {
    AdminIdsOf(AdminParts(raw))
  }

  /** `os.getenv("ADMIN_IDS", "").split(",")`. */
  function AdminParts(raw: Option<string>): seq<string> {
    SplitOn(raw.GetOr(""), ",")
  }

  /** A part contributes an id. */
  predicate NamesId(part: string, u: int) {
    IdOf(part) == Some(u)
  }

  /** Every part that names an id contributes it. */
  lemma AdminIdsInclude(parts: seq<string>, i: nat, u: int)
    requires i < |parts| && NamesId(parts[i], u)
    ensures u in AdminIdsOf(parts)
  {
    var rest := parts[i..];
    assert rest[0] == parts[i];
    AdminIdsHead(rest, u);
    assert parts == parts[..i] + rest;
    AdminIdsAppend(parts[..i], rest);
  }

  lemma AdminIdsHead(parts: seq<string>, u: int)
    requires parts != [] && NamesId(parts[0], u)
    ensures u in AdminIdsOf(parts)
  {
    var head := AdminIdsCons(parts);
    assert head == [u];
  }

  lemma AdminIdsTail(parts: seq<string>, u: int)
    requires parts != [] && u in AdminIdsOf(parts[1..])
    ensures u in AdminIdsOf(parts)
  {
    var head := AdminIdsCons(parts);
  }

  /** The first part contributes its id, if any, ahead of the rest. */
  lemma AdminIdsCons(parts: seq<string>) returns (head: seq<int>)
    requires parts != []
    ensures head == (match IdOf(parts[0]) case Some(u) => [u] case None => [])
    ensures AdminIdsOf(parts) == head + AdminIdsOf(parts[1..])
  {
    head := match IdOf(parts[0]) case Some(u) => [u] case None => [];
  }

  /** Every kept id comes from a part that names it. */
  lemma {:induction false} AdminIdsSource(parts: seq<string>, u: int) returns (i: nat)
    requires u in AdminIdsOf(parts)
    ensures i < |parts| && NamesId(parts[i], u)
  {
    if IdOf(parts[0]) == Some(u) {
      i := 0;
    } else {
      var j := AdminIdsSource(parts[1..], u);
      i := j + 1;
    }
  }

  /** An id is kept exactly when some part, stripped, spells it in digits. */
  lemma AdminIdsMembers(parts: seq<string>, u: int)
    ensures u in AdminIdsOf(parts) <==> exists i :: 0 <= i < |parts| && NamesId(parts[i], u)
  {
    if u in AdminIdsOf(parts) {
      var i := AdminIdsSource(parts, u);
    }
    if exists i :: 0 <= i < |parts| && NamesId(parts[i], u) {
      var i :| 0 <= i < |parts| && NamesId(parts[i], u);
      AdminIdsInclude(parts, i, u);
    }
  }

  /** The ids keep the order of the parts they came from: the ids of a
      concatenation are the ids of each half, concatenated. */
  lemma {:induction false} AdminIdsAppend(a: seq<string>, b: seq<string>)
    ensures AdminIdsOf(a + b) == AdminIdsOf(a) + AdminIdsOf(b)
  {
    if a == [] {
      assert a + b == b;
    } else {
      assert (a + b)[0] == a[0];
      assert (a + b)[1..] == a[1..] + b;
      AdminIdsAppend(a[1..], b);
    }
  }

  /** An unset or empty `ADMIN_IDS` names no administrator. */
  lemma AdminIdsUnset()
    ensures AdminIds(None) == []
    ensures AdminIds(Some("")) == []
  {
    assert SplitOn("", ",") == [""];
  }

  /** A part with a sign or any other non-digit, such as `-5` or `+5`, is
      dropped. */
  lemma SignedPartDropped(p: string)
    requires |p| > 0 && (p[0] == '-' || p[0] == '+')
    ensures AdminIdsOf([p]) == []
  {
    StripKeepsFirst(p);
    assert !IsDigits(Strip(p));
    assert [p][1..] == [];
  }

  lemma StripKeepsFirst(p: string)
    requires |p| > 0 && !IsSpace(p[0])
    ensures Strip(p) == [] || Strip(p)[0] == p[0]
  {
    assert LStrip(p) == p;
    var r := RStrip(p);
    assert r == [] || r[0] == p[0];
  }

  /** A boolean feature flag: `os.getenv(name, "true").lower() == "true"`. */
  function Flag(v: Option<string>): bool {
    Lower(v.GetOr("true")) == "true"
  }

  predicate IsLetter(c: char, lower: char) {
    c == lower || c as int == lower as int - 32
  }

  /** A flag is on exactly when it is unset or spells "true" in any mix of
      case. */
  lemma FlagSpelling(v: Option<string>)
    ensures v.None? ==> Flag(v)
    ensures v.Some? ==>
      (Flag(v) <==> |v.value| == 4 && IsLetter(v.value[0], 't') && IsLetter(v.value[1], 'r')
                    && IsLetter(v.value[2], 'u') && IsLetter(v.value[3], 'e'))
  {
    if v.Some? {
      var s := v.value;
      if |s| == 4 {
        var l := Lower(s);
        assert l == "true" <==> l[0] == 't' && l[1] == 'r' && l[2] == 'u' && l[3] == 'e';
      }
    }
  }

  /** The settings `validate` inspects. */
  datatype Settings = Settings(
    telegramToken: Option<string>,
    apiKey: Option<string>,
    apiType: string,
    apiBaseUrl: string)

  /** The settings as read from the environment, with the source's defaults
      for `API_TYPE` and `API_BASE_URL`. */
  function FromEnv(token: Option<string>, apiKey: Option<string>, apiType: Option<string>,
                   baseUrl: Option<string>): Settings {
    Settings(token, apiKey, apiType.GetOr(DefaultApiType), baseUrl.GetOr(DefaultApiBaseUrl))
  }

  /** The `ValueError` that `validate` raises. */
  datatype ConfigError = MissingToken | MissingApiKey | UnsupportedApiType(apiType: string) | InvalidBaseUrl

  /** Python's `not x` for an optional string. */
  predicate Blank(v: Option<string>) {
    v.None? || v.value == []
  }

  predicate SupportedApiType(t: string) {
    t == "openai" || t == "one-api" || t == "new-api"
  }

  predicate HttpUrl(u: string) {
    StartsWith(u, "http://") || StartsWith(u, "https://")
  }

  /** `Config.validate()`: `None` when the settings pass, otherwise the
      first failing check, in the order token, key, API type, base URL. */
  function Validate(c: Settings): (r: Option<ConfigError>)
    ensures r.None? <==> !Blank(c.telegramToken) && !Blank(c.apiKey)
                         && SupportedApiType(c.apiType) && HttpUrl(c.apiBaseUrl)
    ensures r == Some(MissingToken) <==> Blank(c.telegramToken)
    ensures r == Some(MissingApiKey) <==> !Blank(c.telegramToken) && Blank(c.apiKey)
    ensures r.Some? && r.value.UnsupportedApiType? <==>
              !Blank(c.telegramToken) && !Blank(c.apiKey) && !SupportedApiType(c.apiType)
    ensures r.Some? && r.value.UnsupportedApiType? ==> r.value.apiType == c.apiType
    ensures r == Some(InvalidBaseUrl) <==>
              !Blank(c.telegramToken) && !Blank(c.apiKey) && SupportedApiType(c.apiType) && !HttpUrl(c.apiBaseUrl)
  {
    if Blank(c.telegramToken) then Some(MissingToken)
    else if Blank(c.apiKey) then Some(MissingApiKey)
    else if !SupportedApiType(c.apiType) then Some(UnsupportedApiType(c.apiType))
    else if !HttpUrl(c.apiBaseUrl) then Some(InvalidBaseUrl)
    else None
  }

  /** With `API_TYPE` and `API_BASE_URL` unset, the defaults pass, so the
      settings validate exactly when a token and a key are given. */
  lemma DefaultsValidate(token: Option<string>, apiKey: Option<string>)
    ensures Validate(FromEnv(token, apiKey, None, None)).None? <==> !Blank(token) && !Blank(apiKey)
  {
    assert DefaultApiBaseUrl[..8] == "https://";
  }
}
