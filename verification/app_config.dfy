/** Server configuration read from the process environment (`AppConfig`).
    The environment is a map from variable name to value; a variable that is
    not set is absent from the map. */
module AppConfig {
  import opened Wrappers
  import opened Text
  import opened Spaces
  import opened Models
  import opened Seqs

  type Env = map<string, string>

  const DefaultPort: int := 7070
  const DefaultBaseUrl: string := "https://omni-dev.quran.ai:8080"
  const DefaultLanguage: string := "en"
  const DefaultCacheTtlSeconds: int := 600

  /** `AppConfig`. The cache lifetime is kept in whole seconds. */
  datatype Config = Config(
    port: int,
    goodMemBaseUrl: string,
    goodMemApiKey: string,
    goodMemInsecureSsl: bool,
    spaceIdOverrides: map<SpaceType, string>,
    spaceLimits: map<SpaceType, int>,
    defaultLanguage: string,
    spaceCacheTtlSeconds: int)

  /** The variable is unset or blank. */
  predicate Unset(env: Env, key: string) {
    key !in env || IsBlank(env[key])
  }

  /** `readEnv`: the trimmed value, or `fallback` for an unset or blank
      variable. */
  function ReadEnv(env: Env, key: string, fallback: Option<string>): (r: Option<string>)
    ensures Unset(env, key) ==> r == fallback
    ensures !Unset(env, key) ==> r == Some(Trim(env[key]))
  {
    if Unset(env, key) then fallback else Some(Trim(env[key]))
  }

  /** A value read from a set variable has nothing left to trim. */
  lemma ReadEnvIsTrimmed(env: Env, key: string, fallback: Option<string>)
    requires !Unset(env, key)
    ensures ReadEnv(env, key, fallback).Some?
    ensures Trim(ReadEnv(env, key, fallback).value) == ReadEnv(env, key, fallback).value
  {
    TrimIdempotent(env[key]);
  }

  /** A set variable whose trimmed value is not blank. Trimming can blank a
      non-blank value: a lone U+0000 is not whitespace but is trimmed. */
  predicate Usable(env: Env, key: string) {
    key in env && !IsBlank(Trim(env[key]))
  }

  /** Trimming a blank string leaves it blank. */
  lemma TrimOfBlank(s: string)
    requires IsBlank(s)
    ensures IsBlank(Trim(s))
  {
    var t := TrimStart(s);
    assert t == s[|s| - |t|..|s|];
    BlankSlice(s, |s| - |t|, |s|);
    var u := TrimEnd(t);
    assert u == t[0..|u|];
    BlankSlice(t, 0, |u|);
    assert Trim(s) == u;
  }

  lemma BlankSlice(s: string, a: nat, b: nat)
    requires IsBlank(s) && a <= b <= |s|
    ensures IsBlank(s[a..b])
  {
    assert forall k :: 0 <= k < b - a ==> s[a..b][k] == s[a + k];
  }

  /** A usable variable is set and not blank. */
  lemma UsableIsSet(env: Env, key: string)
    requires Usable(env, key)
    ensures !Unset(env, key)
  {
    if IsBlank(env[key]) {
      TrimOfBlank(env[key]);
    }
  }

  /** `readIntEnv`: the trimmed value read as a 32-bit integer, or `fallback`
      for an unset, blank or unparseable variable. */
  function ReadIntEnv(env: Env, key: string, fallback: int): (r: int)
    ensures Unset(env, key) ==> r == fallback
    ensures !Unset(env, key) && ParseInt(Trim(env[key])).None? ==> r == fallback
    ensures !Unset(env, key) && ParseInt(Trim(env[key])).Some? ==> r == ParseInt(Trim(env[key])).value
  {
    if Unset(env, key) then fallback else ParseInt(Trim(env[key])).GetOr(fallback)
  }

  /** A 32-bit integer written with any surrounding padding reads back as
      itself. */
  lemma ReadIntEnvOfRendered(env: Env, key: string, n: int, pad: string, fallback: int)
    requires InInt32(n)
    requires forall k :: 0 <= k < |pad| ==> IsTrimmable(pad[k])
    requires key in env && env[key] == pad + IntToString(n) + pad
    ensures ReadIntEnv(env, key, fallback) == n
  {
    var t := IntToString(n);
    ParseIntOfIntToString(n);
    assert !IsTrimmable(t[0]);
    assert !IsTrimmable(t[|t| - 1]);
    TrimAroundPadding(pad, t);
    assert !IsJavaWhitespace(env[key][|pad|]);
  }

  /** `readBoolEnv`: `fallback` for an unset or blank variable; otherwise
      true exactly for "true" or "1", ignoring case and padding. */
  function ReadBoolEnv(env: Env, key: string, fallback: bool): (r: bool)
    ensures Unset(env, key) ==> r == fallback
    ensures !Unset(env, key) ==>
      (r <==> EqualsIgnoreCase(Trim(env[key]), "true") || EqualsIgnoreCase(Trim(env[key]), "1"))
  {
    if Unset(env, key) then fallback
    else EqualsIgnoreCase(Trim(env[key]), "true") || EqualsIgnoreCase(Trim(env[key]), "1")
  }

  /** A set variable never falls back: any value other than "true" or "1"
      reads as false even when the fallback is true. */
  lemma ReadBoolEnvIgnoresFallback(env: Env, key: string)
    requires !Unset(env, key)
    ensures ReadBoolEnv(env, key, true) == ReadBoolEnv(env, key, false)
  {
  }

  /** The trimmed pieces that are not blank, in order. */
  function TrimmedNonBlank(pieces: seq<string>): (r: seq<string>)
    ensures |r| <= |pieces|
    ensures forall k :: 0 <= k < |r| ==> !IsBlank(r[k])
  {
    if |pieces| == 0 then []
    else (if IsBlank(Trim(pieces[0])) then [] else [Trim(pieces[0])]) + TrimmedNonBlank(pieces[1..])
  }

  /** A character absent from every piece is absent from every kept entry,
      since trimming keeps a slice of its input. */
  lemma {:induction false} TrimmedNonBlankAvoids(pieces: seq<string>, c: char)
    requires forall j :: 0 <= j < |pieces| ==> c !in pieces[j]
    ensures forall k :: 0 <= k < |TrimmedNonBlank(pieces)| ==> c !in TrimmedNonBlank(pieces)[k]
  {
    if |pieces| > 0 {
      assert forall j :: 0 <= j < |pieces| - 1 ==> pieces[1..][j] == pieces[j + 1];
      TrimmedNonBlankAvoids(pieces[1..], c);
      var i, j := TrimIsSlice(pieces[0]);
    }
  }

  /** `splitCsv`: the trimmed, non-blank comma-separated entries in order. */
  function SplitCsv(value: Option<string>): (r: seq<string>)
    ensures IsNullOrBlank(value) ==> r == []
    ensures forall k :: 0 <= k < |r| ==> !IsBlank(r[k]) && ',' !in r[k]
  {
    if IsNullOrBlank(value) then []
    else
      var pieces := Split(value.value, ',');
      TrimmedNonBlankAvoids(pieces, ',');
      TrimmedNonBlank(pieces)
  }

  /** Entries that are trimmed, non-blank and comma-free survive a round trip
      through a comma-separated list. */
  lemma {:induction false} SplitCsvOfJoin(items: seq<string>)
    requires |items| >= 1
    requires forall k :: 0 <= k < |items| ==> !IsBlank(items[k]) && Trim(items[k]) == items[k] && ',' !in items[k]
    ensures SplitCsv(Some(Join(items, ','))) == items
  {
    SplitOfJoin(items);
    TrimmedNonBlankOfClean(items);
    assert !IsBlank(Join(items, ',')) by {
      JoinNotBlank(items);
    }
  }

  lemma {:induction false} JoinNotBlank(items: seq<string>)
    requires |items| >= 1 && !IsBlank(items[0])
    ensures !IsBlank(Join(items, ','))
  {
    var k :| 0 <= k < |items[0]| && !IsJavaWhitespace(items[0][k]);
    if |items| > 1 {
      assert Join(items, ',')[k] == items[0][k];
    }
  }

  lemma {:induction false} SplitOfJoin(items: seq<string>)
    requires |items| >= 1
    requires forall k :: 0 <= k < |items| ==> ',' !in items[k]
    ensures Split(Join(items, ','), ',') == items
    decreases |items|
  {
    if |items| > 1 {
      SplitCons(items[0], Join(items[1..], ','), ',');
      SplitOfJoin(items[1..]);
      assert items == [items[0]] + items[1..];
    }
  }

  lemma {:induction false} TrimmedNonBlankOfClean(items: seq<string>)
    requires forall k :: 0 <= k < |items| ==> !IsBlank(items[k]) && Trim(items[k]) == items[k]
    ensures TrimmedNonBlank(items) == items
  {
    if |items| > 0 {
      TrimmedNonBlankOfClean(items[1..]);
      assert items == [items[0]] + items[1..];
    }
  }

  // ---------------------------------------------------------------------------
  // Space id overrides

  /** Each entry as the (type, id) pair it puts, with no type when it is
      not a well-formed `type=id` entry. */
  function EntryPairs(entries: seq<string>): (r: seq<(Option<SpaceType>, string)>)
    ensures |r| == |entries|
    ensures forall k :: 0 <= k < |r| ==> r[k] == (EntryType(entries[k]), EntryValue(entries[k]))
  {
    seq(|entries|, k requires 0 <= k < |entries| => (EntryType(entries[k]), EntryValue(entries[k])))
  }

  /** The overrides listed in `GOODMEM_SPACE_IDS` as `type=id` entries: an
      entry without '=', with an unknown type or with a blank id is ignored,
      and a later entry for a type replaces an earlier one. */
  function CsvOverrides(entries: seq<string>): map<SpaceType, string> {
    PutAll(EntryPairs(entries))
  }

  /** A type is overridden exactly when some entry names it, and its id is
      the trimmed, non-blank id of such an entry. */
  lemma CsvOverridesContents(entries: seq<string>, t: SpaceType)
    ensures t in CsvOverrides(entries) <==> exists k :: 0 <= k < |entries| && EntryType(entries[k]) == Some(t)
    ensures t in CsvOverrides(entries) ==>
      && !IsBlank(CsvOverrides(entries)[t])
      && exists k :: 0 <= k < |entries| && EntryType(entries[k]) == Some(t) && CsvOverrides(entries)[t] == EntryValue(entries[k])
  {
    var pairs := EntryPairs(entries);
    var m := PutAll(pairs);
    if t in m {
      var k :| 0 <= k < |pairs| && pairs[k].0 == Some(t) && m[t] == pairs[k].1;
      assert EntryType(entries[k]) == Some(t) && m[t] == EntryValue(entries[k]);
      EntryValueNotBlank(entries[k]);
    }
    if exists k :: 0 <= k < |entries| && EntryType(entries[k]) == Some(t) {
      var k :| 0 <= k < |entries| && EntryType(entries[k]) == Some(t);
      assert pairs[k].0 == Some(t);
    }
  }

  /** The id kept for a type is the one of the last entry naming it. */
  lemma CsvOverridesLastWins(entries: seq<string>, k: nat, t: SpaceType)
    requires k < |entries| && EntryType(entries[k]) == Some(t)
    requires forall j :: k < j < |entries| ==> EntryType(entries[j]) != Some(t)
    ensures t in CsvOverrides(entries) && CsvOverrides(entries)[t] == EntryValue(entries[k])
  {
    PutAllLastWins(EntryPairs(entries), k, t);
  }

  /** A well-formed entry's id is not blank. */
  lemma EntryValueNotBlank(entry: string)
    requires EntryType(entry).Some?
    ensures !IsBlank(EntryValue(entry))
  {
  }

  /** The type an entry overrides, if it is a well-formed `type=id` entry. */
  function EntryType(entry: string): (r: Option<SpaceType>) {
    match SplitFirst(entry, '=')
    case None => None
    case Some((name, id)) => if IsBlank(Trim(id)) then None else FromString(Some(name))
  }

  /** The trimmed id of a `type=id` entry. */
  function EntryValue(entry: string): string {
    match SplitFirst(entry, '=')
    case None => ""
    case Some((_, id)) => Trim(id)
  }

  /** The id an entry gives type `t`, if any. */
  function EntryFor(entry: string, t: SpaceType): Option<string> {
    if EntryType(entry) == Some(t) then Some(EntryValue(entry)) else None
  }

  /** The id set for type `t` by its own `GOODMEM_SPACE_<TYPE>` variable. */
  function EnvSpaceId(env: Env, t: SpaceType): (r: Option<string>)
    ensures r.Some? ==> !IsBlank(r.value)
  {
    var v := Trim(ReadEnv(env, "GOODMEM_SPACE_" + EnvKey(t), Some("")).value);
    if IsBlank(v) then None else Some(v)
  }

  /** The ids set by the per-type variables, one for each type whose
      variable is set and not blank. */
  function EnvOverrides(env: Env): (r: map<SpaceType, string>)
    ensures forall t :: t in r <==> EnvSpaceId(env, t).Some?
    ensures forall t :: t in r ==> r[t] == EnvSpaceId(env, t).value
  {
    var r := MapOf(AllSpaces, t => EnvSpaceId(env, t));
    assert forall t :: t in AllSpaces by {
      forall t ensures t in AllSpaces {
        AllTypesEnumeratesAllSpaces(t);
      }
    }
    r
  }

  /** The overrides from `GOODMEM_SPACE_IDS`, or none when it is blank. */
  function CsvOverridesOf(env: Env): map<SpaceType, string> {
    var ids := ReadEnv(env, "GOODMEM_SPACE_IDS", Some("")).value;
    if IsBlank(ids) then map[] else CsvOverrides(SplitCsv(Some(ids)))
  }

  /** The space id overrides: `GOODMEM_SPACE_IDS` entries, then each
      `GOODMEM_SPACE_<TYPE>` variable on top. */
  function SpaceIdOverrides(env: Env): map<SpaceType, string> {
    CsvOverridesOf(env) + EnvOverrides(env)
  }

  /** A type's own variable beats its `GOODMEM_SPACE_IDS` entry; without one,
      the entry (if any) is used. */
  lemma OverridePrecedence(env: Env, t: SpaceType)
    ensures EnvSpaceId(env, t).Some? ==> SpaceIdOverrides(env)[t] == EnvSpaceId(env, t).value
    ensures EnvSpaceId(env, t).None? ==>
      (t in SpaceIdOverrides(env) <==> t in CsvOverridesOf(env))
      && (t in CsvOverridesOf(env) ==> SpaceIdOverrides(env)[t] == CsvOverridesOf(env)[t])
  {
  }

  /** Every override is a non-blank id. */
  lemma OverridesNotBlank(env: Env, t: SpaceType)
    requires t in SpaceIdOverrides(env)
    ensures !IsBlank(SpaceIdOverrides(env)[t])
  {
    if EnvSpaceId(env, t).None? {
      var ids := ReadEnv(env, "GOODMEM_SPACE_IDS", Some("")).value;
      if !IsBlank(ids) {
        CsvOverridesContents(SplitCsv(Some(ids)), t);
      }
    }
  }

  // ---------------------------------------------------------------------------
  // The whole configuration

  /** The environment variable holding the result limit of a space type. */
  function LimitKey(t: SpaceType): string {
    match t
    case Quran => "SEARCH_LIMIT_QURAN"
    case Translation => "SEARCH_LIMIT_TRANSLATION"
    case Tafsir => "SEARCH_LIMIT_TAFSIR"
    case Post => "SEARCH_LIMIT_POST"
    case Course => "SEARCH_LIMIT_COURSE"
    case Article => "SEARCH_LIMIT_ARTICLE"
  }

  /** The default result limit of a space type. */
  function DefaultLimit(t: SpaceType): int {
    match t
    case Quran => 6
    case Translation => 12
    case Tafsir => 10
    case Post => 8
    case Course => 6
    case Article => 6
  }

  /** The API key: `GOODMEM_API_KEY`, else `GM_API_KEY`; `None` when
      neither is usable. */
  function ApiKey(env: Env): (r: Option<string>)
    ensures r.Some? ==> !IsBlank(r.value)
    ensures Usable(env, "GOODMEM_API_KEY") ==> r == Some(Trim(env["GOODMEM_API_KEY"]))
    ensures !Usable(env, "GOODMEM_API_KEY") && Usable(env, "GM_API_KEY") ==> r == Some(Trim(env["GM_API_KEY"]))
    ensures !Usable(env, "GOODMEM_API_KEY") && !Usable(env, "GM_API_KEY") ==> r.None?
  {
    var primary := ReadEnv(env, "GOODMEM_API_KEY", None);
    var key := if IsNullOrBlank(primary) then ReadEnv(env, "GM_API_KEY", Some("")) else primary;
    assert Usable(env, "GOODMEM_API_KEY") ==> !Unset(env, "GOODMEM_API_KEY") by {
      if Usable(env, "GOODMEM_API_KEY") {
        UsableIsSet(env, "GOODMEM_API_KEY");
      }
    }
    assert Usable(env, "GM_API_KEY") ==> !Unset(env, "GM_API_KEY") by {
      if Usable(env, "GM_API_KEY") {
        UsableIsSet(env, "GM_API_KEY");
      }
    }
    if IsNullOrBlank(key) then None else key
  }

  /** The configuration built around an API key, every other setting read
      with its default. */
  function Settings(env: Env, apiKey: string): Config {
    Config(
      ReadIntEnv(env, "PORT", DefaultPort),
      ReadEnv(env, "GOODMEM_BASE_URL", Some(DefaultBaseUrl)).value,
      apiKey,
      ReadBoolEnv(env, "GOODMEM_INSECURE_SSL", true),
      SpaceIdOverrides(env),
      MapOf(AllSpaces, t => Some(ReadIntEnv(env, LimitKey(t), DefaultLimit(t)))),
      ToLower(ReadEnv(env, "SEARCH_DEFAULT_LANGUAGE", Some(DefaultLanguage)).value),
      ReadIntEnv(env, "SPACE_CACHE_TTL_SECONDS", DefaultCacheTtlSeconds))
  }

  /** `fromEnv`: fails exactly when no API key is usable; otherwise the
      configuration carries the key `ApiKey` chose. */
  function FromEnv(env: Env): (r: Result<Config, string>)
    ensures r.Failure? <==> !Usable(env, "GOODMEM_API_KEY") && !Usable(env, "GM_API_KEY")
    ensures r.Success? ==> Some(r.value.goodMemApiKey) == ApiKey(env) && !IsBlank(r.value.goodMemApiKey)
    ensures r.Success? ==> r.value == Settings(env, r.value.goodMemApiKey)
  {
    match ApiKey(env)
    case None => Failure("GOODMEM_API_KEY is required")
    case Some(apiKey) => Success(Settings(env, apiKey))
  }

  /** Every space type has a limit, read from its own variable with its own
      default. */
  lemma SettingsReadEveryLimit(env: Env, apiKey: string, t: SpaceType)
    ensures t in Settings(env, apiKey).spaceLimits
    ensures Settings(env, apiKey).spaceLimits[t] == ReadIntEnv(env, LimitKey(t), DefaultLimit(t))
  {
    AllTypesEnumeratesAllSpaces(t);
  }

  /** The default language, whatever its source, has no upper-case letter. */
  lemma SettingsLanguageIsLower(env: Env, apiKey: string)
    ensures forall i :: 0 <= i < |Settings(env, apiKey).defaultLanguage| ==>
      !IsUpperAscii(Settings(env, apiKey).defaultLanguage[i])
  {
    var l := ReadEnv(env, "SEARCH_DEFAULT_LANGUAGE", Some(DefaultLanguage)).value;
    LowerHasNoUpper(l);
  }

  lemma LowerHasNoUpper(s: string)
    ensures forall i :: 0 <= i < |ToLower(s)| ==> !IsUpperAscii(ToLower(s)[i])
  {
  }

  /** An unset or blank variable leaves its setting at the default. */
  lemma UnsetScalarsTakeDefaults(env: Env, apiKey: string)
    ensures Unset(env, "PORT") ==> Settings(env, apiKey).port == DefaultPort
    ensures Unset(env, "GOODMEM_BASE_URL") ==> Settings(env, apiKey).goodMemBaseUrl == DefaultBaseUrl
    ensures Unset(env, "GOODMEM_INSECURE_SSL") ==> Settings(env, apiKey).goodMemInsecureSsl
    ensures Unset(env, "SPACE_CACHE_TTL_SECONDS") ==>
      Settings(env, apiKey).spaceCacheTtlSeconds == DefaultCacheTtlSeconds
  {
  }

  /** Without `SEARCH_DEFAULT_LANGUAGE` the default language is "en". */
  lemma UnsetLanguageIsEnglish(env: Env, apiKey: string)
    ensures Unset(env, "SEARCH_DEFAULT_LANGUAGE") ==> Settings(env, apiKey).defaultLanguage == DefaultLanguage
  {
    assert ToLower("en") == "en";
  }

  /** Without its limit variable a type keeps its default limit. */
  lemma UnsetLimitTakesDefault(env: Env, apiKey: string, t: SpaceType)
    ensures Unset(env, LimitKey(t)) ==> Settings(env, apiKey).spaceLimits[t] == DefaultLimit(t)
  {
    SettingsReadEveryLimit(env, apiKey, t);
  }

  /** Without `GOODMEM_SPACE_IDS` and its own variable a type has no
      override. */
  lemma NoOverrideWithoutVariables(env: Env, apiKey: string, t: SpaceType)
    requires "GOODMEM_SPACE_IDS" !in env && "GOODMEM_SPACE_" + EnvKey(t) !in env
    ensures t !in Settings(env, apiKey).spaceIdOverrides
  {
    CsvOverridesOfUnset(env);
    EnvSpaceIdUnset(env, t);
    assert t !in SpaceIdOverrides(env);
    SettingsOverrides(env, apiKey);
  }

  lemma SettingsOverrides(env: Env, apiKey: string)
    ensures Settings(env, apiKey).spaceIdOverrides == SpaceIdOverrides(env)
  {
  }

  lemma CsvOverridesOfUnset(env: Env)
    requires "GOODMEM_SPACE_IDS" !in env
    ensures CsvOverridesOf(env) == map[]
  {
  }

  lemma EnvSpaceIdUnset(env: Env, t: SpaceType)
    requires "GOODMEM_SPACE_" + EnvKey(t) !in env
    ensures EnvSpaceId(env, t).None?
  {
    assert Trim("") == "";
  }

  /** Without any API key the configuration cannot be built. */
  lemma MissingApiKeyFails()
    ensures FromEnv(map[]).Failure?
  {
  }
}
