/** How `SearchService.search` turns a request into retrieval calls: the
    requested spaces (`parseSpaces`), the per-space result limit
    (`resolveLimit`), and the one call made for each requested space that has
    a usable id. */
module SearchRequests {
  import opened Wrappers
  import opened Text
  import opened Spaces
  import opened AppConfig
  import opened Seqs

  // ---------------------------------------------------------------------------
  // Requested spaces

  /** The space types named by comma-separated pieces, each read with
      `fromString`. */
  function PiecesTypes(pieces: seq<string>): (r: set<SpaceType>)
    ensures forall t :: t in r <==> exists j :: 0 <= j < |pieces| && FromString(Some(pieces[j])) == Some(t)
  {
    assert forall t :: t in Defined(pieces, ReadPiece()) <==>
      exists j :: 0 <= j < |pieces| && FromString(Some(pieces[j])) == Some(t) by {
      forall t ensures t in Defined(pieces, ReadPiece()) <==>
        exists j :: 0 <= j < |pieces| && FromString(Some(pieces[j])) == Some(t) {
        DefinedMembers(pieces, ReadPiece(), t);
      }
    }
    Defined(pieces, ReadPiece())
  }

  /** `fromString` on one piece. */
  function ReadPiece(): string -> Option<SpaceType> {
    (piece: string) => FromString(Some(piece))
  }

  /** The comma-separated pieces of the request's `spaces` entries, in
      order; a `null` entry contributes none. */
  function EntryPieces(entries: seq<Option<string>>): seq<string>
    decreases |entries|
  {
    if |entries| == 0 then []
    else (if entries[0].None? then [] else Split(entries[0].value, ',')) + EntryPieces(entries[1..])
  }

  /** The types named anywhere in the request's `spaces` entries. */
  function NamedTypes(entries: seq<Option<string>>): set<SpaceType> {
    PiecesTypes(EntryPieces(entries))
  }

  /** `parseSpaces`: every space when the list is absent or empty or names no
      space; otherwise exactly the named ones. */
  function ParseSpaces(spaces: Option<seq<Option<string>>>): (r: set<SpaceType>)
    ensures r != {}
    ensures spaces.None? || |spaces.value| == 0 ==> r == AllSpaces
    ensures spaces.Some? && NamedTypes(spaces.value) != {} ==> r == NamedTypes(spaces.value)
    ensures spaces.Some? && NamedTypes(spaces.value) == {} ==> r == AllSpaces
  {
    if spaces.None? || |spaces.value| == 0 then AllSpaces
    else
      var named := NamedTypes(spaces.value);
      if named == {} then AllSpaces else named
  }

  /** The API names of some types. */
  function ApiNames(ts: seq<SpaceType>): (r: seq<string>)
    ensures |r| == |ts|
    ensures forall j :: 0 <= j < |ts| ==> r[j] == ApiName(ts[j])
  {
    seq(|ts|, j requires 0 <= j < |ts| => ApiName(ts[j]))
  }

  /** No API name contains a comma. */
  lemma ApiNamesHaveNoComma(ts: seq<SpaceType>)
    ensures forall k :: 0 <= k < |ts| ==> ',' !in ApiNames(ts)[k]
  {
    forall k | 0 <= k < |ts| ensures ',' !in ApiNames(ts)[k] {
      match ts[k]
      case Quran =>
      case Translation =>
      case Tafsir =>
      case Post =>
      case Course =>
      case Article =>
    }
  }

  /** Each API name is read back as its own type. */
  lemma PiecesTypesOfApiNames(ts: seq<SpaceType>)
    ensures PiecesTypes(ApiNames(ts)) == set j | 0 <= j < |ts| :: ts[j]
  {
    var names := ApiNames(ts);
    var want := set j | 0 <= j < |ts| :: ts[j];
    forall t ensures t in PiecesTypes(names) <==> t in want {
      if t in want {
        var j :| 0 <= j < |ts| && ts[j] == t;
        FromStringApiName(t);
        assert FromString(Some(names[j])) == Some(t);
      }
      if t in PiecesTypes(names) {
        var j :| 0 <= j < |names| && FromString(Some(names[j])) == Some(t);
        FromStringApiName(ts[j]);
      }
    }
  }

  /** Round trip: one entry listing the API names of some types, separated by
      commas, requests exactly those types. */
  lemma ParseSpacesOfApiNames(ts: seq<SpaceType>)
    requires |ts| >= 1
    ensures ParseSpaces(Some([Some(Join(ApiNames(ts), ','))])) == set j | 0 <= j < |ts| :: ts[j]
  {
    var names := ApiNames(ts);
    ApiNamesHaveNoComma(ts);
    SplitOfJoin(names);
    var entries := [Some(Join(names, ','))];
    assert EntryPieces(entries) == names by {
      assert EntryPieces(entries[1..]) == [];
    }
    PiecesTypesOfApiNames(ts);
    assert ts[0] in NamedTypes(entries);
  }

  /** A single name that is no space's alias requests every space. */
  lemma UnknownNameMeansAll(e: string)
    requires forall t :: Normalize(e) !in Aliases(t)
    requires ',' !in e
    ensures ParseSpaces(Some([Some(e)])) == AllSpaces
  {
    assert Split(e, ',') == [e];
    assert EntryPieces([Some(e)]) == [e] by {
      assert EntryPieces([Some(e)][1..]) == [];
    }
    FromStringRejectsOthers(e);
    assert NamedTypes([Some(e)]) == {};
  }

  // ---------------------------------------------------------------------------
  // Limits

  /** The limit used when the configuration has none for a space. */
  const FallbackLimit: int := 8

  /** `resolveLimit`: a positive override wins; otherwise the configured
      limit for the space, or 8. */
  function ResolveLimit(cfg: Config, t: SpaceType, limitOverride: Option<int>): (r: int)
    ensures limitOverride.Some? && limitOverride.value > 0 ==> r == limitOverride.value
    ensures (limitOverride.None? || limitOverride.value <= 0) && t in cfg.spaceLimits ==> r == cfg.spaceLimits[t]
    ensures (limitOverride.None? || limitOverride.value <= 0) && t !in cfg.spaceLimits ==> r == FallbackLimit
  {
    if limitOverride.Some? && limitOverride.value > 0 then limitOverride.value
    else if t in cfg.spaceLimits then cfg.spaceLimits[t]
    else FallbackLimit
  }

  /** For a configuration read from the environment, a request without a
      positive limit uses the space's `SEARCH_LIMIT_<TYPE>` variable, or the
      space's default when that is unset. */
  lemma ResolveLimitFromEnvironment(env: Env, apiKey: string, t: SpaceType, limitOverride: Option<int>)
    requires limitOverride.None? || limitOverride.value <= 0
    ensures ResolveLimit(Settings(env, apiKey), t, limitOverride) == ReadIntEnv(env, LimitKey(t), DefaultLimit(t))
    ensures Unset(env, LimitKey(t)) ==> ResolveLimit(Settings(env, apiKey), t, limitOverride) == DefaultLimit(t)
  {
    SettingsReadEveryLimit(env, apiKey, t);
    UnsetLimitTakesDefault(env, apiKey, t);
  }

  // ---------------------------------------------------------------------------
  // Retrieval calls

  /** One `client.retrieve` call of the first phase. */
  datatype Call = Call(space: SpaceType, spaceId: string, limit: int)

  /** A space is searched when it was requested and has a non-blank id. */
  predicate Searched(requested: set<SpaceType>, spaceIds: map<SpaceType, string>, t: SpaceType) {
    t in requested && t in spaceIds && !IsBlank(spaceIds[t])
  }

  /** The calls for the searched spaces among `types`, in that order. */
  function CallsFor(
    types: seq<SpaceType>, cfg: Config, requested: set<SpaceType>, spaceIds: map<SpaceType, string>, limitOverride: Option<int>)
    : (r: seq<Call>)
    ensures |r| <= |types|
    ensures forall k :: 0 <= k < |r| ==>
      && r[k].space in types
      && Searched(requested, spaceIds, r[k].space)
      && r[k].spaceId == spaceIds[r[k].space]
      && r[k].limit == ResolveLimit(cfg, r[k].space, limitOverride)
    decreases |types|
  {
    if |types| == 0 then []
    else
      var rest := CallsFor(types[1..], cfg, requested, spaceIds, limitOverride);
      var t := types[0];
      if Searched(requested, spaceIds, t) then [Call(t, spaceIds[t], ResolveLimit(cfg, t, limitOverride))] + rest
      else rest
  }

  /** Every searched space among `types` gets a call; `k` is its position. */
  lemma {:induction false} CallsForCovers(
    types: seq<SpaceType>, cfg: Config, requested: set<SpaceType>, spaceIds: map<SpaceType, string>, limitOverride: Option<int>,
    t: SpaceType)
    returns (k: nat)
    requires t in types && Searched(requested, spaceIds, t)
    ensures k < |CallsFor(types, cfg, requested, spaceIds, limitOverride)|
    ensures CallsFor(types, cfg, requested, spaceIds, limitOverride)[k].space == t
    decreases |types|
  {
    var r := CallsFor(types, cfg, requested, spaceIds, limitOverride);
    var h := types[0];
    var rest := CallsFor(types[1..], cfg, requested, spaceIds, limitOverride);
    if h == t {
      assert r == [Call(t, spaceIds[t], ResolveLimit(cfg, t, limitOverride))] + rest;
      k := 0;
    } else {
      assert t in types[1..];
      var j := CallsForCovers(types[1..], cfg, requested, spaceIds, limitOverride, t);
      if Searched(requested, spaceIds, h) {
        assert r == [Call(h, spaceIds[h], ResolveLimit(cfg, h, limitOverride))] + rest;
        k := j + 1;
      } else {
        assert r == rest;
        k := j;
      }
    }
  }

  /** The first phase's calls: one per searched space, in `SpaceType`
      declaration order (the iteration order of an `EnumSet`). */
  function Plan(cfg: Config, requested: set<SpaceType>, spaceIds: map<SpaceType, string>, limitOverride: Option<int>)
    : (r: seq<Call>)
  {
    CallsFor(AllTypes, cfg, requested, spaceIds, limitOverride)
  }

  /** A space gets a call exactly when it was requested and has a non-blank
      id. */
  lemma PlanCoversSearched(
    cfg: Config, requested: set<SpaceType>, spaceIds: map<SpaceType, string>, limitOverride: Option<int>, t: SpaceType)
    ensures (exists k :: (0 <= k < |Plan(cfg, requested, spaceIds, limitOverride)|
      && Plan(cfg, requested, spaceIds, limitOverride)[k].space == t)) <==> Searched(requested, spaceIds, t)
  {
    AllTypesEnumeratesAllSpaces(t);
    var r := Plan(cfg, requested, spaceIds, limitOverride);
    assert r == CallsFor(AllTypes, cfg, requested, spaceIds, limitOverride);
    if Searched(requested, spaceIds, t) {
      var k := CallsForCovers(AllTypes, cfg, requested, spaceIds, limitOverride, t);
      assert r[k].space == t;
    }
  }

  /** No space is called twice. */
  lemma PlanDistinct(cfg: Config, requested: set<SpaceType>, spaceIds: map<SpaceType, string>, limitOverride: Option<int>)
    ensures forall i, j :: 0 <= i < j < |Plan(cfg, requested, spaceIds, limitOverride)| ==>
      Plan(cfg, requested, spaceIds, limitOverride)[i].space != Plan(cfg, requested, spaceIds, limitOverride)[j].space
  {
    assert forall i, j :: 0 <= i < j < |AllTypes| ==> AllTypes[i] != AllTypes[j];
    CallsForDistinct(AllTypes, cfg, requested, spaceIds, limitOverride);
  }

  lemma {:induction false} CallsForDistinct(
    types: seq<SpaceType>, cfg: Config, requested: set<SpaceType>, spaceIds: map<SpaceType, string>, limitOverride: Option<int>)
    requires forall i, j :: 0 <= i < j < |types| ==> types[i] != types[j]
    ensures forall i, j :: 0 <= i < j < |CallsFor(types, cfg, requested, spaceIds, limitOverride)| ==>
      CallsFor(types, cfg, requested, spaceIds, limitOverride)[i].space != CallsFor(types, cfg, requested, spaceIds, limitOverride)[j].space
    decreases |types|
  {
    if |types| > 0 {
      CallsForDistinct(types[1..], cfg, requested, spaceIds, limitOverride);
      var rest := CallsFor(types[1..], cfg, requested, spaceIds, limitOverride);
      assert types[0] !in types[1..] by {
        forall j | 0 <= j < |types[1..]| ensures types[1..][j] != types[0] {
          assert types[1..][j] == types[j + 1];
        }
      }
      var r := CallsFor(types, cfg, requested, spaceIds, limitOverride);
      if Searched(requested, spaceIds, types[0]) {
        assert r == [Call(types[0], spaceIds[types[0]], ResolveLimit(cfg, types[0], limitOverride))] + rest;
        forall i, j | 0 <= i < j < |r| ensures r[i].space != r[j].space {
          assert r[j] == rest[j - 1];
          assert r[j].space in types[1..];
          if i > 0 {
            assert r[i] == rest[i - 1];
          }
        }
      }
    }
  }
}
