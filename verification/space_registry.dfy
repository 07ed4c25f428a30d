/** The space registry (`SpaceRegistry`): resolves each space type to a GoodMem
    space id, from configured overrides on top of a listing fetched from
    GoodMem and cached for a time-to-live. The registry is a sequential state
    machine; the clock reading (`now`, in nanoseconds) and the outcome of the
    listing request are parameters of each step. */
module SpaceRegistry {
  import opened Wrappers
  import opened Spaces
  import opened Seqs

  const NanosPerSecond: int := 1_000_000_000

  /** The registry's state: the configured overrides, the cache lifetime in
      seconds, and the cached mapping with the time it was fetched. */
  datatype Registry = Registry(
    overrides: map<SpaceType, string>,
    ttlSeconds: int,
    cached: Option<map<SpaceType, string>>,
    lastFetch: Option<int>)

  /** A fresh registry has fetched nothing. */
  function NewRegistry(overrides: map<SpaceType, string>, ttlSeconds: int): (r: Registry)
    ensures r.overrides == overrides && r.ttlSeconds == ttlSeconds
    ensures r.cached.None? && r.lastFetch.None?
  {
    Registry(overrides, ttlSeconds, None, None)
  }

  /** `isExpired`: nothing was fetched yet, or the fetch time plus the
      lifetime lies strictly before `now`. */
  predicate Expired(r: Registry, now: int) {
    r.lastFetch.None? || r.lastFetch.value + r.ttlSeconds * NanosPerSecond < now
  }

  /** The cache must be (re)filled. */
  predicate NeedsRefresh(r: Registry, now: int) {
    r.cached.None? || Expired(r, now)
  }

  /** Each listing entry (name, id), with its name read as a space type. */
  function Classify(entries: seq<(string, string)>): (r: seq<(Option<SpaceType>, string)>)
    ensures |r| == |entries|
    ensures forall k :: 0 <= k < |r| ==> r[k] == (FromString(Some(entries[k].0)), entries[k].1)
  {
    seq(|entries|, k requires 0 <= k < |entries| => (FromString(Some(entries[k].0)), entries[k].1))
  }

  /** The listing's (name, id) entries in iteration order, mapped to space
      types: names no type recognises are dropped, and a later name for the
      same type replaces an earlier one. */
  function MapEntries(entries: seq<(string, string)>): map<SpaceType, string> {
    PutAll(Classify(entries))
  }

  /** Only recognised names enter the mapping, every recognised name's type
      does, and each type maps to the id of an entry naming it. */
  lemma MapEntriesContents(entries: seq<(string, string)>, t: SpaceType)
    ensures t in MapEntries(entries) <==> exists k :: 0 <= k < |entries| && FromString(Some(entries[k].0)) == Some(t)
    ensures t in MapEntries(entries) ==>
      exists k :: 0 <= k < |entries| && FromString(Some(entries[k].0)) == Some(t) && MapEntries(entries)[t] == entries[k].1
  {
    var pairs := Classify(entries);
    var m := PutAll(pairs);
    if t in m {
      var k :| 0 <= k < |pairs| && pairs[k].0 == Some(t) && m[t] == pairs[k].1;
      assert FromString(Some(entries[k].0)) == Some(t) && m[t] == entries[k].1;
    }
    if exists k :: 0 <= k < |entries| && FromString(Some(entries[k].0)) == Some(t) {
      var k :| 0 <= k < |entries| && FromString(Some(entries[k].0)) == Some(t);
      assert pairs[k].0 == Some(t);
    }
  }

  /** The id cached for a type is the one of the last entry naming it. */
  lemma MapEntriesLastWins(entries: seq<(string, string)>, k: nat, t: SpaceType)
    requires k < |entries| && FromString(Some(entries[k].0)) == Some(t)
    requires forall j :: k < j < |entries| ==> FromString(Some(entries[j].0)) != Some(t)
    ensures t in MapEntries(entries) && MapEntries(entries)[t] == entries[k].1
  {
    PutAllLastWins(Classify(entries), k, t);
  }

  /** `refresh`: when the cache needs filling and the listing arrives, the
      cache is replaced and stamped with `now`; otherwise nothing changes. */
  function Refresh(r: Registry, now: int, listing: Option<seq<(string, string)>>): (r': Registry)
    ensures r'.overrides == r.overrides && r'.ttlSeconds == r.ttlSeconds
    ensures !NeedsRefresh(r, now) ==> r' == r
    ensures listing.None? ==> r' == r
    ensures NeedsRefresh(r, now) && listing.Some? ==>
      r'.cached == Some(MapEntries(listing.value)) && r'.lastFetch == Some(now)
  {
    if !NeedsRefresh(r, now) then r
    else
      match listing
      case None => r
      case Some(entries) => r.(cached := Some(MapEntries(entries)), lastFetch := Some(now))
  }

  /** `resolve`: the overrides alone when they cover every type; otherwise
      the (refreshed if needed) cache with the overrides on top. Returns the
      mapping and the registry's next state. */
  function Resolve(r: Registry, now: int, listing: Option<seq<(string, string)>>)
    : (out: (map<SpaceType, string>, Registry))
    ensures out.1.overrides == r.overrides && out.1.ttlSeconds == r.ttlSeconds
    ensures |r.overrides| == |AllTypes| ==> out == (r.overrides, r)
    ensures forall t :: t in r.overrides ==> t in out.0 && out.0[t] == r.overrides[t]
    ensures forall t :: t in out.0 && t !in r.overrides ==>
      out.1.cached.Some? && t in out.1.cached.value && out.0[t] == out.1.cached.value[t]
    ensures |r.overrides| != |AllTypes| ==> out.1 == Refresh(r, now, listing)
    ensures |r.overrides| != |AllTypes| ==>
      forall t :: t in out.0 <==> t in r.overrides || (out.1.cached.Some? && t in out.1.cached.value)
  {
    if |r.overrides| == |AllTypes| then (r.overrides, r)
    else
      var next := if NeedsRefresh(r, now) then Refresh(r, now, listing) else r;
      var base := if next.cached.Some? then next.cached.value else map[];
      (base + r.overrides, next)
  }

  /** A resolve that fetches answers every type the listing names and every
      overridden type, and nothing else; an override beats the listing. */
  lemma FetchedTypesResolved(r: Registry, now: int, entries: seq<(string, string)>, t: SpaceType)
    requires |r.overrides| != |AllTypes| && NeedsRefresh(r, now)
    ensures var out := Resolve(r, now, Some(entries));
      && (t in out.0 <==> t in r.overrides || exists k :: 0 <= k < |entries| && FromString(Some(entries[k].0)) == Some(t))
      && (t in out.0 && t !in r.overrides ==> out.0[t] == MapEntries(entries)[t])
  {
    MapEntriesContents(entries, t);
  }

  /** Overrides for all six types make the listing irrelevant: the result is
      the overrides whatever the listing would have said, and every type is
      resolved. */
  lemma FullOverridesNeverFetch(
    r: Registry, now: int, l1: Option<seq<(string, string)>>, l2: Option<seq<(string, string)>>)
    requires |r.overrides| == |AllTypes|
    ensures Resolve(r, now, l1) == Resolve(r, now, l2) == (r.overrides, r)
    ensures forall t :: t in Resolve(r, now, l1).0
  {
    forall t ensures t in r.overrides {
      FullKeysHaveAll(r.overrides, t);
    }
  }

  /** A map with six keys has every space type as a key. */
  lemma FullKeysHaveAll(m: map<SpaceType, string>, t: SpaceType)
    requires |m| == |AllTypes|
    ensures t in m
  {
    var keys := m.Keys;
    assert |keys| == 6;
    assert keys <= AllSpaces by {
      forall u | u in keys ensures u in AllSpaces {
        AllTypesEnumeratesAllSpaces(u);
      }
    }
    if t !in keys {
      assert keys <= AllSpaces - {t};
      AllTypesEnumeratesAllSpaces(t);
      assert |AllSpaces - {t}| == 5;
      SubsetCard(keys, AllSpaces - {t});
    }
  }

  lemma SubsetCard<T>(a: set<T>, b: set<T>)
    requires a <= b
    ensures |a| <= |b|
  {
    assert b == a + (b - a);
  }

  /** A failed fetch leaves the registry as it was, so the next resolution
      tries again. */
  lemma FailedFetchRetries(r: Registry, now: int)
    requires |r.overrides| != |AllTypes|
    requires NeedsRefresh(r, now)
    ensures Resolve(r, now, None).1 == r
    ensures NeedsRefresh(Resolve(r, now, None).1, now)
  {
  }

  /** After a successful fetch at `t0`, resolving again within the lifetime
      uses the cache and does not consult the listing. */
  lemma CacheHitWithinTtl(
    r: Registry, t0: int, entries: seq<(string, string)>, t1: int, listing: Option<seq<(string, string)>>)
    requires |r.overrides| != |AllTypes|
    requires NeedsRefresh(r, t0)
    requires t1 <= t0 + r.ttlSeconds * NanosPerSecond
    ensures var r1 := Resolve(r, t0, Some(entries)).1;
      && r1.cached == Some(MapEntries(entries))
      && !NeedsRefresh(r1, t1)
      && Resolve(r1, t1, listing) == (MapEntries(entries) + r.overrides, r1)
  {
  }

  /** Once the lifetime has passed, the next resolution fetches again. */
  lemma RefetchAfterTtl(r: Registry, t0: int, entries: seq<(string, string)>, t1: int, later: seq<(string, string)>)
    requires |r.overrides| != |AllTypes|
    requires NeedsRefresh(r, t0)
    requires t1 > t0 + r.ttlSeconds * NanosPerSecond
    ensures var r1 := Resolve(r, t0, Some(entries)).1;
      && Resolve(r1, t1, Some(later)).1.cached == Some(MapEntries(later))
      && Resolve(r1, t1, Some(later)).1.lastFetch == Some(t1)
  {
  }
}
