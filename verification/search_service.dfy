/** `SearchService.search`: one retrieval per requested space, the hits
    sorted into typed results, verse-level results and posts grouped by verse
    key, missing Quran text and translations filled in from the local
    repositories (and, for Quran text, a batched filtered retrieval), and the
    response assembled from the verse groups and the remaining direct hits.
    The retrieval calls run concurrently in the source and are joined in
    submission order; here they are made in that order. */
module SearchService {
  import opened Wrappers
  import opened Text
  import opened Seqs
  import opened Sorting
  import opened Spaces
  import opened Models
  import opened AyahKeys
  import opened Aggregate
  import opened AyahMaps
  import opened GoodMemClient
  import opened AppConfig
  import opened SearchRequests
  import opened Conversions

  /** Most verse keys one fallback retrieval asks for. */
  const FallbackBatchSize: int := 25

  /** The `IllegalArgumentException` a request without a query raises. */
  datatype SearchError = BadArgument(message: string)

  /** What a search runs against: the configuration, the GoodMem client's
      settings and exchange, the space ids the registry resolved, and the
      local repositories. */
  datatype Context = Context(
    cfg: Config,
    client: ClientSettings,
    send: RetrieveRequest -> Option<RetrieveReply>,
    spaceIds: map<SpaceType, string>,
    repos: Repos)

  // ---------------------------------------------------------------------------
  // First phase: one retrieval per searched space

  /** The hits of one retrieval; a failed one contributes none (the
      exception is logged and swallowed). */
  function CallHits(ctx: Context, query: string, c: Call): (r: seq<MemoryHit>)
    ensures forall k :: 0 <= k < |r| ==> r[k].space == c.space && r[k].score >= 0.0
  {
    match Retrieve(ctx.client, ctx.send, Some(query), c.space, Some(c.spaceId), c.limit, None)
    case Success(hits) => hits
    case Failure(_) => []
  }

  /** The spaces some call of `plan` searches. */
  function PlanSpaces(plan: seq<Call>): set<SpaceType> {
    set j | 0 <= j < |plan| :: plan[j].space
  }

  /** The hits of every call, joined in call order. */
  function Collect(ctx: Context, query: string, plan: seq<Call>): (r: seq<MemoryHit>)
    ensures forall k :: 0 <= k < |r| ==> r[k].space in PlanSpaces(plan) && r[k].score >= 0.0
    decreases |plan|
  {
    if |plan| == 0 then []
    else
      var head := CallHits(ctx, query, plan[0]);
      var rest := Collect(ctx, query, plan[1..]);
      assert PlanSpaces(plan[1..]) <= PlanSpaces(plan) by {
        forall t | t in PlanSpaces(plan[1..]) ensures t in PlanSpaces(plan) {
          var j :| 0 <= j < |plan[1..]| && plan[1..][j].space == t;
          assert plan[j + 1].space == t;
        }
      }
      assert plan[0].space in PlanSpaces(plan);
      head + rest
  }

  /** The results of each kind, converted from the hits of its space. */
  datatype Found = Found(
    quran: seq<VerseResult>,
    translations: seq<VerseResult>,
    tafsirs: seq<VerseResult>,
    posts: seq<PostResult>,
    courses: seq<CourseResult>,
    articles: seq<ArticleResult>)

  /** The `switch` over each hit's space. */
  function Classify(repos: Repos, hits: seq<MemoryHit>): (f: Found) {
    Found(
      QuranResults(repos, Bucket(hits, Quran)),
      TranslationResults(Bucket(hits, Translation)),
      TafsirResults(Bucket(hits, Tafsir)),
      PostResults(Bucket(hits, Post)),
      CourseResults(Bucket(hits, Course)),
      ArticleResults(Bucket(hits, Article)))
  }

  /** Every result of the first phase scores at least 0. */
  predicate FoundNonNegative(f: Found) {
    && (forall i :: 0 <= i < |f.quran| ==> f.quran[i].score >= 0.0)
    && (forall i :: 0 <= i < |f.translations| ==> f.translations[i].score >= 0.0)
    && (forall i :: 0 <= i < |f.tafsirs| ==> f.tafsirs[i].score >= 0.0)
    && (forall i :: 0 <= i < |f.posts| ==> f.posts[i].score >= 0.0)
  }

  lemma ClassifyNonNegative(repos: Repos, hits: seq<MemoryHit>)
    requires forall k :: 0 <= k < |hits| ==> hits[k].score >= 0.0
    ensures FoundNonNegative(Classify(repos, hits))
  {
    var f := Classify(repos, hits);
    forall i | 0 <= i < |f.quran| ensures f.quran[i].score >= 0.0 {
      var h := Bucket(hits, Quran)[i];
      QuranTextPrefersRepository(repos, h);
      assert h in hits;
    }
    forall i | 0 <= i < |f.translations| ensures f.translations[i].score >= 0.0 {
      var h := Bucket(hits, Translation)[i];
      assert h in hits;
    }
    forall i | 0 <= i < |f.tafsirs| ensures f.tafsirs[i].score >= 0.0 {
      var h := Bucket(hits, Tafsir)[i];
      SnippetsBounded(h);
      assert h in hits;
    }
    forall i | 0 <= i < |f.posts| ensures f.posts[i].score >= 0.0 {
      var h := Bucket(hits, Post)[i];
      SnippetsBounded(h);
      assert h in hits;
    }
  }

  // ---------------------------------------------------------------------------
  // Grouping by verse

  /** A verse key read from a post is valid. */
  predicate ValidKey(k: string) {
    IsValidAyahKey(Some(k))
  }

  /** Whether a verse-level result carries a valid key. */
  function HasValidVerseKey(): VerseResult -> bool {
    (v: VerseResult) => IsValidAyahKey(v.ayahKey)
  }

  /** One group update per verse-level result, under the result's own key. */
  function VerseUpdates(kind: Kind, vs: seq<VerseResult>): (es: seq<Event>)
    ensures |es| == |vs|
    ensures forall i :: 0 <= i < |es| ==> es[i] == VerseEv(kind, vs[i].ayahKey, vs[i])
    decreases |vs|
  {
    if |vs| == 0 then [] else [VerseEv(kind, vs[0].ayahKey, vs[0])] + VerseUpdates(kind, vs[1..])
  }

  /** The group updates for verse-level results with a valid key, in order. */
  function VerseEvents(kind: Kind, vs: seq<VerseResult>): (es: seq<Event>)
    ensures forall i :: 0 <= i < |es| ==>
      es[i].VerseEv? && es[i].kind == kind && es[i].key == es[i].verse.ayahKey && IsValidAyahKey(es[i].key)
  {
    var ok := Filter(vs, HasValidVerseKey());
    UpdatesKeep(kind, ok, HasValidVerseKey());
    VerseUpdates(kind, ok)
  }

  /** A property every result has is had by the verse of every update. */
  lemma UpdatesKeep(kind: Kind, vs: seq<VerseResult>, p: VerseResult -> bool)
    requires forall i :: 0 <= i < |vs| ==> p(vs[i])
    ensures forall i :: 0 <= i < |VerseUpdates(kind, vs)| ==> p(VerseUpdates(kind, vs)[i].verse)
  {
  }

  /** Whether a listed verse key is valid. */
  function IsValidKey(): string -> bool {
    (k: string) => ValidKey(k)
  }

  /** One post update per key, in order. */
  function KeyUpdates(p: PostResult, keys: seq<string>): (es: seq<Event>)
    ensures |es| == |keys|
    ensures forall i :: 0 <= i < |es| ==> es[i] == PostEv(Some(keys[i]), p)
    decreases |keys|
  {
    if |keys| == 0 then [] else [PostEv(Some(keys[0]), p)] + KeyUpdates(p, keys[1..])
  }

  /** The group updates for one post: one per valid key it lists. */
  function KeyEvents(p: PostResult, keys: seq<string>): (es: seq<Event>)
    ensures forall i :: 0 <= i < |es| ==> es[i].PostEv? && es[i].post == p && es[i].key.Some? && ValidKey(es[i].key.value)
  {
    var ok := Filter(keys, IsValidKey());
    KeyUpdatesKeep(p, ok, IsValidKey());
    KeyUpdates(p, ok)
  }

  /** A property every key has is had by the key of every update. */
  lemma KeyUpdatesKeep(p: PostResult, keys: seq<string>, ok: string -> bool)
    requires forall i :: 0 <= i < |keys| ==> ok(keys[i])
    ensures forall i :: 0 <= i < |KeyUpdates(p, keys)| ==> ok(KeyUpdates(p, keys)[i].key.value)
  {
  }

  /** The group updates for posts, post by post. */
  function PostEvents(ps: seq<PostResult>): (es: seq<Event>)
    ensures forall i :: 0 <= i < |es| ==> es[i].PostEv? && es[i].key.Some? && ValidKey(es[i].key.value)
    ensures forall i :: 0 <= i < |es| ==> IsValidAyahKey(es[i].key)
    decreases |ps|
  {
    if |ps| == 0 then [] else KeyEvents(ps[0], ps[0].ayahKeys) + PostEvents(ps[1..])
  }

  /** The first grouping: Quran results, translations, tafsirs, then posts. */
  function PrimaryEvents(f: Found): (es: seq<Event>)
    ensures forall i :: 0 <= i < |es| ==> IsValidAyahKey(es[i].key)
  {
    var a := VerseEvents(QuranKind, f.quran);
    var b := VerseEvents(TranslationKind, f.translations);
    var c := VerseEvents(TafsirKind, f.tafsirs);
    var d := PostEvents(f.posts);
    a + b + c + d
  }

  /** The groups after the first grouping. */
  function PrimaryGroups(f: Found): AyahMap {
    ApplyAll(Empty, PrimaryEvents(f))
  }

  /** A post lists at least one valid verse key. */
  predicate HasValidKey(p: PostResult) {
    exists j :: 0 <= j < |p.ayahKeys| && ValidKey(p.ayahKeys[j])
  }

  /** `attachedPostIds`: the ids of posts attached to some verse. */
  function Attached(ps: seq<PostResult>): set<Option<string>> {
    set i | 0 <= i < |ps| && HasValidKey(ps[i]) :: ps[i].postId
  }

  /** Whether a verse-level result is for key `k`. */
  function KeyIs(k: Option<string>): VerseResult -> bool {
    (v: VerseResult) => v.ayahKey == k
  }

  lemma VerseUpdatesFor(kind: Kind, vs: seq<VerseResult>, k: Option<string>, other: Kind)
    ensures VersesFor(VerseUpdates(kind, vs), k, other) == if other == kind then Filter(vs, KeyIs(k)) else []
    ensures PostsFor(VerseUpdates(kind, vs), k) == []
  {
    VerseUpdatesVerses(kind, vs, k, other);
    VerseUpdatesNoPosts(kind, vs, k);
  }

  lemma {:induction false} VerseUpdatesVerses(kind: Kind, vs: seq<VerseResult>, k: Option<string>, other: Kind)
    ensures VersesFor(VerseUpdates(kind, vs), k, other) == if other == kind then Filter(vs, KeyIs(k)) else []
    decreases |vs|
  {
    if |vs| > 0 {
      var es := VerseUpdates(kind, vs);
      var v := vs[0];
      assert es[0] == VerseEv(kind, v.ayahKey, v);
      assert es[1..] == VerseUpdates(kind, vs[1..]);
      VerseUpdatesVerses(kind, vs[1..], k, other);
      assert VersesFor(es, k, other) ==
        (if v.ayahKey == k then VerseOf(es[0], other) else []) + VersesFor(es[1..], k, other);
      if KeyIs(k)(v) {
        assert Filter(vs, KeyIs(k)) == [v] + Filter(vs[1..], KeyIs(k));
      } else {
        assert Filter(vs, KeyIs(k)) == Filter(vs[1..], KeyIs(k));
      }
    }
  }

  lemma {:induction false} VerseUpdatesNoPosts(kind: Kind, vs: seq<VerseResult>, k: Option<string>)
    ensures PostsFor(VerseUpdates(kind, vs), k) == []
    decreases |vs|
  {
    if |vs| > 0 {
      var es := VerseUpdates(kind, vs);
      assert es[0].VerseEv?;
      assert es[1..] == VerseUpdates(kind, vs[1..]);
      VerseUpdatesNoPosts(kind, vs[1..], k);
    }
  }

  lemma ValidThenKey(vs: seq<VerseResult>, k: Option<string>)
    ensures Filter(Filter(vs, HasValidVerseKey()), KeyIs(k)) == if IsValidAyahKey(k) then Filter(vs, KeyIs(k)) else []
  {
    KeyedFilter(vs, HasValidVerseKey(), k, IsValidAyahKey(k));
  }

  /** Filtering by a test that, among the results keyed `k`, always answers
      `pk`, then keeping those keyed `k`. */
  lemma {:induction false} KeyedFilter(vs: seq<VerseResult>, p: VerseResult -> bool, k: Option<string>, pk: bool)
    requires forall i :: 0 <= i < |vs| && vs[i].ayahKey == k ==> p(vs[i]) == pk
    ensures Filter(Filter(vs, p), KeyIs(k)) == if pk then Filter(vs, KeyIs(k)) else []
    decreases |vs|
  {
    if |vs| > 0 {
      assert forall i :: 0 <= i < |vs[1..]| ==> vs[1..][i] == vs[i + 1];
      KeyedFilter(vs[1..], p, k, pk);
      if p(vs[0]) {
        assert Filter(vs, p) == [vs[0]] + Filter(vs[1..], p);
        assert ([vs[0]] + Filter(vs[1..], p))[1..] == Filter(vs[1..], p);
      }
    }
  }

  /** The verse-level updates give the group of `k` exactly the results of
      their kind whose key is `k`, in order, when `k` is a valid verse key,
      and nothing otherwise; they add no posts. */
  lemma VerseEventsFor(kind: Kind, vs: seq<VerseResult>, k: Option<string>, other: Kind)
    ensures VersesFor(VerseEvents(kind, vs), k, other) ==
      if other == kind && IsValidAyahKey(k) then Filter(vs, KeyIs(k)) else []
    ensures PostsFor(VerseEvents(kind, vs), k) == []
  {
    var ok := Filter(vs, HasValidVerseKey());
    assert VerseEvents(kind, vs) == VerseUpdates(kind, ok);
    VerseUpdatesFor(kind, ok, k, other);
    ValidThenKey(vs, k);
  }

  lemma {:induction false} KeyUpdatesFor(p: PostResult, keys: seq<string>, k: Option<string>, q: PostResult)
    ensures q in PostsFor(KeyUpdates(p, keys), k) <==> q == p && k.Some? && k.value in keys
    decreases |keys|
  {
    if |keys| > 0 {
      var es := KeyUpdates(p, keys);
      assert es[1..] == KeyUpdates(p, keys[1..]);
      KeyUpdatesFor(p, keys[1..], k, q);
      assert k.Some? && k.value in keys <==> k == Some(keys[0]) || (k.Some? && k.value in keys[1..]);
    }
  }

  /** Post `q` is one of `ps` and lists `key` among its verse keys. */
  predicate ListsKey(ps: seq<PostResult>, q: PostResult, key: string) {
    exists j :: 0 <= j < |ps| && ps[j] == q && key in ps[j].ayahKeys
  }

  /** A post joins the group of `k` exactly when `k` is a valid key the post
      lists; posts add no verse-level results. */
  lemma {:induction false} PostEventsFor(ps: seq<PostResult>, k: Option<string>, q: PostResult, kind: Kind)
    ensures q in PostsFor(PostEvents(ps), k) <==> k.Some? && ValidKey(k.value) && ListsKey(ps, q, k.value)
    ensures VersesFor(PostEvents(ps), k, kind) == []
    decreases |ps|
  {
    PostEventsAddNoVerses(PostEvents(ps), k, kind);
    if |ps| > 0 {
      var p := ps[0];
      var ok := Filter(p.ayahKeys, IsValidKey());
      assert KeyEvents(p, p.ayahKeys) == KeyUpdates(p, ok);
      PostsForConcat(KeyEvents(p, p.ayahKeys), PostEvents(ps[1..]), k);
      KeyUpdatesFor(p, ok, k, q);
      PostEventsFor(ps[1..], k, q, kind);
      if k.Some? {
        ListsKeyCons(ps, q, k.value);
        ValidKeysKept(p.ayahKeys, k.value);
      }
    }
  }

  /** A post lists a key when the first post does or one of the rest does. */
  lemma ListsKeyCons(ps: seq<PostResult>, q: PostResult, key: string)
    requires |ps| > 0
    ensures ListsKey(ps, q, key) <==> (q == ps[0] && key in ps[0].ayahKeys) || ListsKey(ps[1..], q, key)
  {
    if ListsKey(ps[1..], q, key) {
      var j :| 0 <= j < |ps[1..]| && ps[1..][j] == q && key in ps[1..][j].ayahKeys;
      assert ps[j + 1] == q;
    }
    if ListsKey(ps, q, key) && !(q == ps[0] && key in ps[0].ayahKeys) {
      var j :| 0 <= j < |ps| && ps[j] == q && key in ps[j].ayahKeys;
      assert j > 0 && ps[1..][j - 1] == q;
    }
  }

  /** The valid keys of a list are the keys it lists that are valid. */
  lemma ValidKeysKept(keys: seq<string>, key: string)
    ensures key in Filter(keys, IsValidKey()) <==> ValidKey(key) && key in keys
  {
    if key in keys && ValidKey(key) {
      var j :| 0 <= j < |keys| && keys[j] == key;
      assert IsValidKey()(keys[j]);
    }
  }

  /** The results of `kind` the first phase found. */
  function ResultsOf(f: Found, kind: Kind): seq<VerseResult> {
    match kind
    case QuranKind => f.quran
    case TranslationKind => f.translations
    case TafsirKind => f.tafsirs
  }

  lemma PrimaryVerses(f: Found, k: Option<string>, kind: Kind)
    ensures VersesFor(PrimaryEvents(f), k, kind) == if IsValidAyahKey(k) then Filter(ResultsOf(f, kind), KeyIs(k)) else []
  {
    match kind
    case QuranKind => PrimaryQuran(f, k);
    case TranslationKind => PrimaryTranslations(f, k);
    case TafsirKind => PrimaryTafsirs(f, k);
  }

  lemma PrimaryQuran(f: Found, k: Option<string>)
    ensures VersesFor(PrimaryEvents(f), k, QuranKind) == if IsValidAyahKey(k) then Filter(f.quran, KeyIs(k)) else []
  {
    PrimaryVersesSplit(f, k, QuranKind);
    PostEventsAddNoVerses(PostEvents(f.posts), k, QuranKind);
    VerseEventsFor(QuranKind, f.quran, k, QuranKind);
    VerseEventsFor(TranslationKind, f.translations, k, QuranKind);
    VerseEventsFor(TafsirKind, f.tafsirs, k, QuranKind);
  }

  lemma PrimaryTranslations(f: Found, k: Option<string>)
    ensures VersesFor(PrimaryEvents(f), k, TranslationKind) == if IsValidAyahKey(k) then Filter(f.translations, KeyIs(k)) else []
  {
    PrimaryVersesSplit(f, k, TranslationKind);
    PostEventsAddNoVerses(PostEvents(f.posts), k, TranslationKind);
    VerseEventsFor(QuranKind, f.quran, k, TranslationKind);
    VerseEventsFor(TranslationKind, f.translations, k, TranslationKind);
    VerseEventsFor(TafsirKind, f.tafsirs, k, TranslationKind);
  }

  lemma PrimaryTafsirs(f: Found, k: Option<string>)
    ensures VersesFor(PrimaryEvents(f), k, TafsirKind) == if IsValidAyahKey(k) then Filter(f.tafsirs, KeyIs(k)) else []
  {
    PrimaryVersesSplit(f, k, TafsirKind);
    PostEventsAddNoVerses(PostEvents(f.posts), k, TafsirKind);
    VerseEventsFor(QuranKind, f.quran, k, TafsirKind);
    VerseEventsFor(TranslationKind, f.translations, k, TafsirKind);
    VerseEventsFor(TafsirKind, f.tafsirs, k, TafsirKind);
  }

  lemma PrimaryVersesSplit(f: Found, k: Option<string>, kind: Kind)
    ensures VersesFor(PrimaryEvents(f), k, kind) ==
      VersesFor(VerseEvents(QuranKind, f.quran), k, kind) + VersesFor(VerseEvents(TranslationKind, f.translations), k, kind)
      + VersesFor(VerseEvents(TafsirKind, f.tafsirs), k, kind) + VersesFor(PostEvents(f.posts), k, kind)
  {
    var a := VerseEvents(QuranKind, f.quran);
    var b := VerseEvents(TranslationKind, f.translations);
    var c := VerseEvents(TafsirKind, f.tafsirs);
    var d := PostEvents(f.posts);
    assert PrimaryEvents(f) == a + b + c + d;
    VersesForConcat(a, b, k, kind);
    VersesForConcat(a + b, c, k, kind);
    VersesForConcat(a + b + c, d, k, kind);
  }

  lemma PrimaryPosts(f: Found, k: Option<string>, q: PostResult)
    ensures q in PostsFor(PrimaryEvents(f), k) <==> k.Some? && ValidKey(k.value) && ListsKey(f.posts, q, k.value)
  {
    var a := VerseEvents(QuranKind, f.quran);
    var b := VerseEvents(TranslationKind, f.translations);
    var c := VerseEvents(TafsirKind, f.tafsirs);
    var d := PostEvents(f.posts);
    PostsForConcat(a, b, k);
    PostsForConcat(a + b, c, k);
    PostsForConcat(a + b + c, d, k);
    VerseEventsFor(QuranKind, f.quran, k, QuranKind);
    VerseEventsFor(TranslationKind, f.translations, k, QuranKind);
    VerseEventsFor(TafsirKind, f.tafsirs, k, QuranKind);
    PostEventsFor(f.posts, k, q, QuranKind);
  }

  /** After the first grouping there is a group only for valid verse keys. */
  lemma PrimaryKeysValid(f: Found, k: Option<string>)
    ensures k in PrimaryGroups(f).groups ==> IsValidAyahKey(k)
  {
    var es := PrimaryEvents(f);
    ApplyAllKeys(Empty, es, k);
    if k in PrimaryGroups(f).groups {
      var i :| 0 <= i < |es| && es[i].key == k;
    }
  }

  /** After the first grouping, the group of `k` holds the translations and
      tafsirs with key `k` in retrieval order, and the posts listing `k`,
      when `k` is a valid verse key, and none of them otherwise. */
  lemma PrimaryGroupLists(f: Found, k: Option<string>, q: PostResult)
    ensures Before(PrimaryGroups(f), k).translations == if IsValidAyahKey(k) then Filter(f.translations, KeyIs(k)) else []
    ensures Before(PrimaryGroups(f), k).tafsirs == if IsValidAyahKey(k) then Filter(f.tafsirs, KeyIs(k)) else []
    ensures q in Before(PrimaryGroups(f), k).posts <==> k.Some? && ValidKey(k.value) && ListsKey(f.posts, q, k.value)
  {
    PrimaryGroupTranslations(f, k);
    PrimaryGroupTafsirs(f, k);
    PrimaryGroupPosts(f, k, q);
  }

  lemma PrimaryGroupTranslations(f: Found, k: Option<string>)
    ensures Before(PrimaryGroups(f), k).translations == if IsValidAyahKey(k) then Filter(f.translations, KeyIs(k)) else []
  {
    ApplyAllFromEmpty(PrimaryEvents(f), k);
    PrimaryTranslations(f, k);
  }

  lemma PrimaryGroupTafsirs(f: Found, k: Option<string>)
    ensures Before(PrimaryGroups(f), k).tafsirs == if IsValidAyahKey(k) then Filter(f.tafsirs, KeyIs(k)) else []
  {
    ApplyAllFromEmpty(PrimaryEvents(f), k);
    PrimaryTafsirs(f, k);
  }

  lemma PrimaryGroupPosts(f: Found, k: Option<string>, q: PostResult)
    ensures q in Before(PrimaryGroups(f), k).posts <==> k.Some? && ValidKey(k.value) && ListsKey(f.posts, q, k.value)
  {
    ApplyAllFromEmpty(PrimaryEvents(f), k);
    PrimaryPosts(f, k, q);
  }

  /** After the first grouping, the group of a valid key `k` holds the
      best-scoring Quran result with key `k`, the first of equals, and no
      Quran result when there is none. */
  lemma PrimaryGroupQuran(f: Found, k: Option<string>)
    ensures IsValidAyahKey(k) && |Filter(f.quran, KeyIs(k))| > 0 ==>
      Before(PrimaryGroups(f), k).quran == Some(Filter(f.quran, KeyIs(k))[FirstMaxIndex(Filter(f.quran, KeyIs(k)), VerseScore)])
    ensures !IsValidAyahKey(k) || |Filter(f.quran, KeyIs(k))| == 0 ==> Before(PrimaryGroups(f), k).quran.None?
  {
    ApplyAllKeepsFirstBestQuran(Empty, PrimaryEvents(f), k);
    PrimaryQuran(f, k);
  }

  // ---------------------------------------------------------------------------
  // Filling in Quran text

  /** A group with a key but no Quran result. */
  predicate MissesQuran(g: AyahAggregate) {
    g.quran.None? && g.ayahKey.Some?
  }

  /** The keys of groups without a Quran result, in group order. */
  function MissingFrom(m: AyahMap, keys: seq<Option<string>>): (r: seq<string>)
    ensures forall i :: 0 <= i < |keys| && keys[i] in m.groups && MissesQuran(m.groups[keys[i]]) ==>
      m.groups[keys[i]].ayahKey.value in r
    decreases |keys|
  {
    if |keys| == 0 then []
    else
      var k := keys[0];
      var rest := MissingFrom(m, keys[1..]);
      assert forall i :: 1 <= i < |keys| ==> keys[i] == keys[1..][i - 1];
      if k in m.groups && MissesQuran(m.groups[k]) then [m.groups[k].ayahKey.value] + rest
      else rest
  }

  /** `missingKeys`: each key once. */
  function MissingKeys(m: AyahMap): (r: seq<string>)
    ensures Distinct(r)
  {
    Dedup(MissingFrom(m, m.keys))
  }

  /** The Quran results the local repository supplies for missing keys. */
  function LocalEvents(repos: Repos, missing: seq<string>): (es: seq<Event>)
    ensures forall i :: 0 <= i < |es| ==> es[i].VerseEv? && es[i].kind == QuranKind && es[i].verse.score == 0.0
    decreases |missing|
  {
    if |missing| == 0 then []
    else
      var k := missing[0];
      var rest := LocalEvents(repos, missing[1..]);
      if k in repos.verses then [VerseEv(QuranKind, Some(k), LocalQuran(repos.verses[k]))] + rest else rest
  }

  function NotLocal(repos: Repos): string -> bool {
    (k: string) => k !in repos.verses
  }

  /** The request sent for one batch of still-missing keys. */
  function FallbackRequest(ctx: Context, query: string, spaceId: string, batch: seq<string>): RetrieveRequest {
    BuildRetrieveRequest(ctx.client, Some(query), Some(spaceId), |batch|, Some(BuildAyahFilter(batch)))
  }

  /** The Quran results one batch's retrieval brings; none when it fails.
      Their keys are whatever the hits carry: they are not validated. */
  function BatchEvents(ctx: Context, query: string, spaceId: string, batch: seq<string>): (es: seq<Event>)
    ensures forall i :: 0 <= i < |es| ==> es[i].VerseEv? && es[i].kind == QuranKind && es[i].verse.score >= 0.0
  {
    match Retrieve(ctx.client, ctx.send, Some(query), Quran, Some(spaceId), |batch|, Some(BuildAyahFilter(batch)))
    case Failure(_) => []
    case Success(hits) =>
      seq(|hits|, i requires 0 <= i < |hits| =>
        var q := ToQuranResult(ctx.repos, hits[i]);
        QuranTextPrefersRepository(ctx.repos, hits[i]);
        VerseEv(QuranKind, q.ayahKey, q))
  }

  function FallbackEvents(ctx: Context, query: string, spaceId: string, batches: seq<seq<string>>): (es: seq<Event>)
    ensures forall i :: 0 <= i < |es| ==> es[i].VerseEv? && es[i].kind == QuranKind && es[i].verse.score >= 0.0
    decreases |batches|
  {
    if |batches| == 0 then []
    else BatchEvents(ctx, query, spaceId, batches[0]) + FallbackEvents(ctx, query, spaceId, batches[1..])
  }

  /** The Quran space id the fallback uses, when it is usable. */
  function QuranSpaceId(ctx: Context): Option<string> {
    if Quran in ctx.spaceIds && !IsBlank(ctx.spaceIds[Quran]) then Some(ctx.spaceIds[Quran]) else None
  }

  /** The keys still missing after the local lookup, split into batches of
      25; none when the Quran space has no usable id. */
  function FallbackBatches(ctx: Context, m: AyahMap): (batches: seq<seq<string>>) {
    var still := Filter(MissingKeys(m), NotLocal(ctx.repos));
    if |still| == 0 || QuranSpaceId(ctx).None? then [] else Batches(still, FallbackBatchSize)
  }

  /** Every update `ensureQuranText` makes: local results first, then the
      fallback retrievals' results. */
  function QuranTextEvents(ctx: Context, query: string, m: AyahMap): (es: seq<Event>)
    ensures forall i :: 0 <= i < |es| ==> es[i].VerseEv? && es[i].kind == QuranKind && es[i].verse.score >= 0.0
  {
    var local := LocalEvents(ctx.repos, MissingKeys(m));
    var batches := FallbackBatches(ctx, m);
    var remote := if |batches| == 0 then [] else FallbackEvents(ctx, query, QuranSpaceId(ctx).value, batches);
    local + remote
  }

  /** `ensureQuranText`. */
  function EnsureQuranText(ctx: Context, query: string, m: AyahMap): AyahMap {
    ApplyAll(m, QuranTextEvents(ctx, query, m))
  }

  lemma {:induction false} LocalEventsFor(repos: Repos, missing: seq<string>, key: string)
    requires key in missing && key in repos.verses
    ensures |VersesFor(LocalEvents(repos, missing), Some(key), QuranKind)| > 0
    decreases |missing|
  {
    var es := LocalEvents(repos, missing);
    var rest := LocalEvents(repos, missing[1..]);
    if missing[0] == key {
      assert es == [VerseEv(QuranKind, Some(key), LocalQuran(repos.verses[key]))] + rest;
      assert es[1..] == rest;
    } else {
      LocalEventsFor(repos, missing[1..], key);
      if missing[0] in repos.verses {
        assert es[1..] == rest;
      }
    }
  }

  /** After `ensureQuranText`, a group holds Quran text when it held some
      before or the local repository knows its verse. */
  lemma QuranTextFilled(ctx: Context, query: string, m: AyahMap, k: Option<string>)
    requires WellKeyed(m) && Sound(m) && k in m.groups
    requires m.groups[k].quran.Some? || (k.Some? && k.value in ctx.repos.verses)
    ensures Before(EnsureQuranText(ctx, query, m), k).quran.Some?
  {
    var missing := MissingKeys(m);
    var local := LocalEvents(ctx.repos, missing);
    var es := QuranTextEvents(ctx, query, m);
    if m.groups[k].quran.None? {
      var i :| 0 <= i < |m.keys| && m.keys[i] == k;
      assert MissesQuran(m.groups[m.keys[i]]);
      assert k.value in missing;
      LocalEventsFor(ctx.repos, missing, k.value);
      assert es == local + es[|local|..];
      VersesForConcat(local, es[|local|..], k, QuranKind);
    }
    ApplyAllQuranPresent(m, es, k);
  }

  /** Filling in Quran text adds nothing but Quran text. */
  lemma QuranTextKeeps(ctx: Context, query: string, m: AyahMap, k: Option<string>)
    ensures Before(EnsureQuranText(ctx, query, m), k).translations == Before(m, k).translations
    ensures Before(EnsureQuranText(ctx, query, m), k).tafsirs == Before(m, k).tafsirs
    ensures Before(EnsureQuranText(ctx, query, m), k).posts == Before(m, k).posts
  {
    var es := QuranTextEvents(ctx, query, m);
    ApplyAllLists(m, es, k);
    OnlyKindAdds(es, QuranKind, k, TranslationKind);
    OnlyKindAdds(es, QuranKind, k, TafsirKind);
    VerseEventsAddNoPosts(es, k);
  }

  /** Updates that only add verse-level results of `kind` add nothing of
      another kind. */
  lemma {:induction false} OnlyKindAdds(es: seq<Event>, kind: Kind, k: Option<string>, other: Kind)
    requires forall i :: 0 <= i < |es| ==> es[i].VerseEv? && es[i].kind == kind
    requires other != kind
    ensures VersesFor(es, k, other) == []
    decreases |es|
  {
    if |es| > 0 {
      OnlyKindAdds(es[1..], kind, k, other);
    }
  }

  /** The keys still missing after the local lookup are all asked for, in
      order, in batches of one to 25 keys, unless the Quran space has no
      usable id. */
  lemma FallbackBatchesCover(ctx: Context, m: AyahMap)
    ensures QuranSpaceId(ctx).Some? ==> Flatten(FallbackBatches(ctx, m)) == Filter(MissingKeys(m), NotLocal(ctx.repos))
    ensures QuranSpaceId(ctx).None? ==> FallbackBatches(ctx, m) == []
    ensures forall i :: 0 <= i < |FallbackBatches(ctx, m)| ==> 0 < |FallbackBatches(ctx, m)[i]| <= FallbackBatchSize
  {
    var still := Filter(MissingKeys(m), NotLocal(ctx.repos));
    if |still| > 0 {
      BatchesFlatten(still, FallbackBatchSize);
    }
  }

  /** A fallback request names every key of its batch in its filter, is never
      reranked, and asks for as many hits as the batch has keys. */
  lemma FallbackRequestShape(ctx: Context, query: string, spaceId: string, batch: seq<string>, i: nat)
    requires 0 <= i < |batch|
    ensures FallbackRequest(ctx, query, spaceId, batch).rerank.None?
    ensures FallbackRequest(ctx, query, spaceId, batch).requestedSize == |batch|
    ensures FallbackRequest(ctx, query, spaceId, batch).filter == Some(BuildAyahFilter(batch))
    ensures Contains(FallbackRequest(ctx, query, spaceId, batch).filter.value, KeyClause(batch[i]))
  {
    FilterOfKeysNotBlank(batch);
    FilteredRequestNotReranked(ctx.client, Some(query), Some(spaceId), |batch|, BuildAyahFilter(batch));
    FilterListsEveryKey(batch, i);
  }

  // ---------------------------------------------------------------------------
  // Filling in translations

  /** A group without translations whose key the translation repository
      knows. */
  predicate LacksTranslation(repos: Repos, g: AyahAggregate) {
    g.translations == [] && g.ayahKey.Some? && g.ayahKey.value in repos.translations
  }

  /** The local translations `ensureTranslations` adds, group by group. */
  function TranslationEvents(repos: Repos, m: AyahMap, keys: seq<Option<string>>): (es: seq<Event>)
    ensures forall i :: 0 <= i < |es| ==> es[i].VerseEv? && es[i].kind == TranslationKind && es[i].verse.score == 0.0
    decreases |keys|
  {
    if |keys| == 0 then []
    else
      var k := keys[0];
      var rest := TranslationEvents(repos, m, keys[1..]);
      if k in m.groups && LacksTranslation(repos, m.groups[k]) then
        [VerseEv(TranslationKind, k, LocalTranslation(repos.translations[m.groups[k].ayahKey.value]))] + rest
      else rest
  }

  /** `ensureTranslations`. */
  function EnsureTranslations(repos: Repos, m: AyahMap): AyahMap {
    ApplyAll(m, TranslationEvents(repos, m, m.keys))
  }

  lemma {:induction false} TranslationEventsFor(repos: Repos, m: AyahMap, keys: seq<Option<string>>, k: Option<string>)
    requires Distinct(keys)
    ensures VersesFor(TranslationEvents(repos, m, keys), k, TranslationKind) ==
      if k in keys && k in m.groups && LacksTranslation(repos, m.groups[k])
      then [LocalTranslation(repos.translations[m.groups[k].ayahKey.value])] else []
    decreases |keys|
  {
    if |keys| > 0 {
      var es := TranslationEvents(repos, m, keys);
      var rest := TranslationEvents(repos, m, keys[1..]);
      assert Distinct(keys[1..]) by {
        forall i, j | 0 <= i < j < |keys[1..]| ensures keys[1..][i] != keys[1..][j] {
          assert keys[1..][i] == keys[i + 1] && keys[1..][j] == keys[j + 1];
        }
      }
      TranslationEventsFor(repos, m, keys[1..], k);
      assert k in keys <==> k == keys[0] || k in keys[1..];
      assert keys[0] !in keys[1..] by {
        forall j | 0 <= j < |keys[1..]| ensures keys[1..][j] != keys[0] {
          assert keys[1..][j] == keys[j + 1];
        }
      }
      if keys[0] in m.groups && LacksTranslation(repos, m.groups[keys[0]]) {
        assert es[1..] == rest;
      }
    }
  }

  /** After `ensureTranslations`, a group that had no translation and whose
      verse the translation repository knows holds exactly the local
      translation, and every other group keeps its translations. */
  lemma TranslationsFilled(repos: Repos, m: AyahMap, k: Option<string>)
    requires WellKeyed(m)
    ensures Before(EnsureTranslations(repos, m), k).translations ==
      if k in m.groups && LacksTranslation(repos, m.groups[k])
      then [LocalTranslation(repos.translations[m.groups[k].ayahKey.value])]
      else Before(m, k).translations
  {
    var es := TranslationEvents(repos, m, m.keys);
    ApplyAllLists(m, es, k);
    TranslationEventsFor(repos, m, m.keys, k);
  }

  /** Filling in translations adds nothing but translations. */
  lemma TranslationsKeep(repos: Repos, m: AyahMap, k: Option<string>)
    ensures Before(EnsureTranslations(repos, m), k).quran == Before(m, k).quran
    ensures Before(EnsureTranslations(repos, m), k).tafsirs == Before(m, k).tafsirs
    ensures Before(EnsureTranslations(repos, m), k).posts == Before(m, k).posts
  {
    var es := TranslationEvents(repos, m, m.keys);
    ApplyAllLists(m, es, k);
    ApplyAllQuran(m, es, k, Before(m, k));
    OnlyKindAdds(es, TranslationKind, k, QuranKind);
    OnlyKindAdds(es, TranslationKind, k, TafsirKind);
    VerseEventsAddNoPosts(es, k);
  }

  // ---------------------------------------------------------------------------
  // The response

  /** Every group, converted for `language` and sorted by top score. */
  function AyahResults(m: AyahMap, language: string): (r: seq<ConsolidatedAyah>)
    ensures SortedDesc(r, AyahScore) && |r| == |m.keys|
    ensures multiset(r) == multiset(GroupResults(m, language))
  {
    SortDesc(GroupResults(m, language), AyahScore)
  }

  /** Every group converted for `language`, in key order. */
  function GroupResults(m: AyahMap, language: string): (r: seq<ConsolidatedAyah>)
    ensures |r| == |m.keys|
    ensures forall i :: 0 <= i < |r| ==> r[i] == ToResult(Before(m, m.keys[i]), language)
  {
    seq(|m.keys|, i requires 0 <= i < |m.keys| => ToResult(Before(m, m.keys[i]), language))
  }

  function Unattached(attached: set<Option<string>>): PostResult -> bool {
    (p: PostResult) => p.postId !in attached
  }

  /** `directHitCandidates`: unattached posts, then courses, then articles. */
  function Candidates(f: Found): seq<DirectHit> {
    PostHits(Filter(f.posts, Unattached(Attached(f.posts)))) + CourseHits(f.courses) + ArticleHits(f.articles)
  }

  /** `directHits`: the candidates sorted by score. */
  function DirectHits(f: Found): (r: seq<DirectHit>)
    ensures SortedDesc(r, HitScore) && multiset(r) == multiset(Candidates(f))
  {
    SortDesc(Candidates(f), HitScore)
  }

  /** A post is a direct hit exactly when no post with its id is attached to
      a verse, so a post attached to a verse never is; every course and
      every article is one. */
  lemma DirectHitsContents(f: Found, p: PostResult, c: CourseResult, a: ArticleResult)
    ensures PostHit(p) in DirectHits(f) <==> p in f.posts && p.postId !in Attached(f.posts)
    ensures p in f.posts && HasValidKey(p) ==> PostHit(p) !in DirectHits(f)
    ensures CourseHit(c) in DirectHits(f) <==> c in f.courses
    ensures ArticleHit(a) in DirectHits(f) <==> a in f.articles
  {
    SortedMembers(f, PostHit(p));
    SortedMembers(f, CourseHit(c));
    SortedMembers(f, ArticleHit(a));
    CandidatePost(f, p);
    CandidateCourse(f, c);
    CandidateArticle(f, a);
  }

  lemma SortedMembers(f: Found, x: DirectHit)
    ensures x in DirectHits(f) <==> x in Candidates(f)
  {
    assert x in DirectHits(f) <==> x in multiset(DirectHits(f));
  }

  lemma CandidatePost(f: Found, p: PostResult)
    ensures PostHit(p) in Candidates(f) <==> p in f.posts && p.postId !in Attached(f.posts)
    ensures p in f.posts && HasValidKey(p) ==> p.postId in Attached(f.posts)
  {
    var free := Filter(f.posts, Unattached(Attached(f.posts)));
    CandidatePostIsFree(f, p);
    FilterMembers(f.posts, Unattached(Attached(f.posts)), p);
    if p in f.posts {
      var i :| 0 <= i < |f.posts| && f.posts[i] == p;
      if HasValidKey(p) {
        assert HasValidKey(f.posts[i]);
      }
    }
  }

  /** A post is a candidate exactly when it survives the attachment filter. */
  lemma CandidatePostIsFree(f: Found, p: PostResult)
    ensures PostHit(p) in Candidates(f) <==> p in Filter(f.posts, Unattached(Attached(f.posts)))
  {
    var free := Filter(f.posts, Unattached(Attached(f.posts)));
    assert Candidates(f) == PostHits(free) + (CourseHits(f.courses) + ArticleHits(f.articles));
    PostHitsMembers(free, p);
    NoPostAmongOthers(f.courses, f.articles, p);
  }

  lemma PostHitsMembers(ps: seq<PostResult>, p: PostResult)
    ensures PostHit(p) in PostHits(ps) <==> p in ps
  {
    if PostHit(p) in PostHits(ps) {
      var i :| 0 <= i < |PostHits(ps)| && PostHits(ps)[i] == PostHit(p);
    }
    if p in ps {
      var j :| 0 <= j < |ps| && ps[j] == p;
      assert PostHits(ps)[j] == PostHit(p);
    }
  }

  lemma NoPostAmongOthers(cs: seq<CourseResult>, as_: seq<ArticleResult>, p: PostResult)
    ensures PostHit(p) !in CourseHits(cs) + ArticleHits(as_)
  {
  }

  lemma CandidateCourse(f: Found, c: CourseResult)
    ensures CourseHit(c) in Candidates(f) <==> c in f.courses
  {
    if CourseHit(c) in Candidates(f) {
      assert CourseHit(c) in CourseHits(f.courses);
      var i :| 0 <= i < |CourseHits(f.courses)| && CourseHits(f.courses)[i] == CourseHit(c);
    }
    if c in f.courses {
      var i :| 0 <= i < |f.courses| && f.courses[i] == c;
      assert CourseHits(f.courses)[i] == CourseHit(c);
    }
  }

  lemma CandidateArticle(f: Found, a: ArticleResult)
    ensures ArticleHit(a) in Candidates(f) <==> a in f.articles
  {
    if ArticleHit(a) in Candidates(f) {
      assert ArticleHit(a) in ArticleHits(f.articles);
      var i :| 0 <= i < |ArticleHits(f.articles)| && ArticleHits(f.articles)[i] == ArticleHit(a);
    }
    if a in f.articles {
      var i :| 0 <= i < |f.articles| && f.articles[i] == a;
      assert ArticleHits(f.articles)[i] == ArticleHit(a);
    }
  }

  /** The language results are ordered for: the request's unless it is
      absent or blank, then the configured default; lower-cased. */
  function ResolveLanguage(cfg: Config, language: Option<string>): (r: string)
    ensures forall i :: 0 <= i < |r| ==> !IsUpperAscii(r[i])
    ensures !IsNullOrBlank(language) ==> EqualsIgnoreCase(r, language.value)
    ensures IsNullOrBlank(language) ==> EqualsIgnoreCase(r, cfg.defaultLanguage)
  {
    var chosen := if language.None? || IsBlank(language.value) then cfg.defaultLanguage else language.value;
    LowerOfLower(ToLower(chosen));
    ToLower(chosen)
  }

  /** Without a language in the request, results are ordered for exactly the
      configured default, which the configuration already lower-cased. */
  lemma ResolveLanguageDefault(env: Env, apiKey: string, language: Option<string>)
    requires IsNullOrBlank(language)
    ensures ResolveLanguage(Settings(env, apiKey), language) == Settings(env, apiKey).defaultLanguage
  {
    SettingsLanguageIsLower(env, apiKey);
    LowerOfLower(Settings(env, apiKey).defaultLanguage);
  }

  /** A language given in the request is used whatever its letter case: two
      spellings that differ only in case order results the same way. */
  lemma ResolveLanguageIgnoresCase(cfg: Config, a: string, b: string)
    requires !IsBlank(a) && EqualsIgnoreCase(a, b)
    ensures ResolveLanguage(cfg, Some(a)) == ResolveLanguage(cfg, Some(b))
  {
    assert |b| == |a|;
    assert !IsBlank(b) by {
      var i :| 0 <= i < |a| && !IsJavaWhitespace(a[i]);
      assert LowerChar(a[i]) == LowerChar(b[i]);
    }
  }

  /** The query with surrounding whitespace removed, `""` when absent. */
  function QueryOf(request: SearchRequest): string {
    if request.query.None? then "" else Trim(request.query.value)
  }

  /** The groups after all three phases of grouping. */
  function Groups(ctx: Context, query: string, f: Found): AyahMap {
    EnsureTranslations(ctx.repos, EnsureQuranText(ctx, query, PrimaryGroups(f)))
  }

  /** The first phase's results. */
  function FoundFor(ctx: Context, query: string, request: SearchRequest): Found {
    Classify(ctx.repos, Collect(ctx, query, Plan(ctx.cfg, ParseSpaces(request.spaces), ctx.spaceIds, request.limit)))
  }

  // ---------------------------------------------------------------------------
  // What the phases keep

  lemma VerseEventsScores(kind: Kind, vs: seq<VerseResult>)
    requires forall j :: 0 <= j < |vs| ==> vs[j].score >= 0.0
    ensures ScoresNonNegative(VerseEvents(kind, vs))
  {
    var ok := Filter(vs, HasValidVerseKey());
    var es := VerseUpdates(kind, ok);
    assert VerseEvents(kind, vs) == es;
    forall i | 0 <= i < |es| ensures Score(es[i]) >= 0.0 {
      assert es[i].verse == ok[i] && ok[i] in vs;
    }
  }

  lemma {:induction false} PostEventsScores(ps: seq<PostResult>)
    requires forall j :: 0 <= j < |ps| ==> ps[j].score >= 0.0
    ensures ScoresNonNegative(PostEvents(ps))
    decreases |ps|
  {
    if |ps| > 0 {
      PostEventsScores(ps[1..]);
      var a := KeyUpdates(ps[0], Filter(ps[0].ayahKeys, IsValidKey()));
      assert KeyEvents(ps[0], ps[0].ayahKeys) == a;
      assert PostEvents(ps) == a + PostEvents(ps[1..]);
      assert ScoresNonNegative(a);
      ScoresConcat(a, PostEvents(ps[1..]));
    }
  }

  lemma PrimaryScores(f: Found)
    requires FoundNonNegative(f)
    ensures ScoresNonNegative(PrimaryEvents(f))
  {
    var a := VerseEvents(QuranKind, f.quran);
    var b := VerseEvents(TranslationKind, f.translations);
    var c := VerseEvents(TafsirKind, f.tafsirs);
    var d := PostEvents(f.posts);
    VerseEventsScores(QuranKind, f.quran);
    VerseEventsScores(TranslationKind, f.translations);
    VerseEventsScores(TafsirKind, f.tafsirs);
    PostEventsScores(f.posts);
    assert PrimaryEvents(f) == a + b + c + d;
    ScoresConcat(a, b);
    ScoresConcat(a + b, c);
    ScoresConcat(a + b + c, d);
  }

  /** What every phase of grouping keeps: each key listed once, each group
      under its own key with a top score no member exceeds and some member
      attains, and no negative score. */
  ghost predicate Healthy(m: AyahMap) {
    WellKeyed(m) && Sound(m) && NonNegativeScores(m)
  }

  lemma ApplyAllHealthy(m: AyahMap, es: seq<Event>)
    requires Healthy(m) && ScoresNonNegative(es)
    ensures Healthy(ApplyAll(m, es))
  {
    ApplyAllWellKeyed(m, es);
    ApplyAllSound(m, es);
  }

  /** All three phases of grouping keep the groups healthy when the first
      phase's results score at least 0. */
  lemma GroupsHealthy(ctx: Context, query: string, f: Found)
    requires FoundNonNegative(f)
    ensures Healthy(PrimaryGroups(f))
    ensures Healthy(EnsureQuranText(ctx, query, PrimaryGroups(f)))
    ensures Healthy(Groups(ctx, query, f))
  {
    PrimaryScores(f);
    ApplyAllHealthy(Empty, PrimaryEvents(f));
    var m1 := PrimaryGroups(f);
    var qt := QuranTextEvents(ctx, query, m1);
    ApplyAllHealthy(m1, qt);
    var m2 := ApplyAll(m1, qt);
    var te := TranslationEvents(ctx.repos, m2, m2.keys);
    ApplyAllHealthy(m2, te);
  }

  /** Every verse result of healthy groups has the best score among its
      members as its top score. */
  lemma AyahResultsTopIsBest(m: AyahMap, language: string)
    requires Healthy(m)
    ensures forall i :: 0 <= i < |AyahResults(m, language)| ==> TopIsBest(AyahResults(m, language)[i])
  {
    var unsorted := GroupResults(m, language);
    forall j | 0 <= j < |unsorted| ensures TopIsBest(unsorted[j]) {
      GroupTopIsBest(m, m.keys[j], language);
    }
    PermutationKeepsTopIsBest(unsorted, AyahResults(m, language));
  }

  /** Reordering verse results keeps each one's top score the best. */
  lemma PermutationKeepsTopIsBest(s: seq<ConsolidatedAyah>, r: seq<ConsolidatedAyah>)
    requires multiset(r) == multiset(s)
    requires forall j :: 0 <= j < |s| ==> TopIsBest(s[j])
    ensures forall i :: 0 <= i < |r| ==> TopIsBest(r[i])
  {
    forall i | 0 <= i < |r| ensures TopIsBest(r[i]) {
      assert r[i] in multiset(s);
      var j :| 0 <= j < |s| && s[j] == r[i];
    }
  }

  lemma GroupTopIsBest(m: AyahMap, k: Option<string>, language: string)
    requires Healthy(m) && k in m.keys
    ensures TopIsBest(ToResult(Before(m, k), language))
  {
    assert k in m.groups;
    ToResultTopIsBest(m.groups[k], language);
  }

  /** A post listing a valid verse key ends up in that verse's group. */
  lemma AttachedPostGrouped(ctx: Context, query: string, f: Found, p: PostResult, key: string)
    requires p in f.posts && key in p.ayahKeys && ValidKey(key)
    ensures p in Before(Groups(ctx, query, f), Some(key)).posts
  {
    var j :| 0 <= j < |f.posts| && f.posts[j] == p;
    assert ListsKey(f.posts, p, key);
    PrimaryGroupLists(f, Some(key), p);
    QuranTextKeeps(ctx, query, PrimaryGroups(f), Some(key));
    TranslationsKeep(ctx.repos, EnsureQuranText(ctx, query, PrimaryGroups(f)), Some(key));
  }

  /** `search`: a blank query is rejected; otherwise the trimmed query, the
      direct hits and the verse groups, each sorted by score, and their
      total. */
  function Search(ctx: Context, request: SearchRequest): (r: Result<SearchResponse, SearchError>)
    ensures r.Failure? <==> IsBlank(QueryOf(request))
    ensures r.Failure? ==> r.error == BadArgument("query is required")
    ensures r.Success? ==> r.value.query == QueryOf(request) && !IsBlank(r.value.query)
    ensures r.Success? ==> r.value.totalResults == |r.value.directHits| + |r.value.ayahResults|
    ensures r.Success? ==> SortedDesc(r.value.directHits, HitScore) && SortedDesc(r.value.ayahResults, AyahScore)
  {
    var query := QueryOf(request);
    if IsBlank(query) then Failure(BadArgument("query is required"))
    else
      var language := ResolveLanguage(ctx.cfg, request.language);
      var f := FoundFor(ctx, query, request);
      var direct := DirectHits(f);
      var ayahs := AyahResults(Groups(ctx, query, f), language);
      Success(SearchResponse(query, direct, ayahs, |direct| + |ayahs|))
  }

  /** Every verse result of a successful search has the best score among its
      members as its top score. */
  lemma SearchAyahsTopIsBest(ctx: Context, request: SearchRequest)
    ensures Search(ctx, request).Success? ==>
      forall i :: 0 <= i < |Search(ctx, request).value.ayahResults| ==> TopIsBest(Search(ctx, request).value.ayahResults[i])
  {
    var query := QueryOf(request);
    if !IsBlank(query) {
      var plan := Plan(ctx.cfg, ParseSpaces(request.spaces), ctx.spaceIds, request.limit);
      ClassifyNonNegative(ctx.repos, Collect(ctx, query, plan));
      var f := FoundFor(ctx, query, request);
      GroupsHealthy(ctx, query, f);
      AyahResultsTopIsBest(Groups(ctx, query, f), ResolveLanguage(ctx.cfg, request.language));
    }
  }

  /** The direct hits of a successful search are the posts attached to no
      verse, every course and every article. */
  lemma SearchDirectHits(ctx: Context, request: SearchRequest, p: PostResult, c: CourseResult, a: ArticleResult)
    ensures Search(ctx, request).Success? ==>
      (PostHit(p) in Search(ctx, request).value.directHits <==>
        p in FoundFor(ctx, QueryOf(request), request).posts
        && p.postId !in Attached(FoundFor(ctx, QueryOf(request), request).posts))
    ensures Search(ctx, request).Success? ==>
      (CourseHit(c) in Search(ctx, request).value.directHits <==> c in FoundFor(ctx, QueryOf(request), request).courses)
    ensures Search(ctx, request).Success? ==>
      (ArticleHit(a) in Search(ctx, request).value.directHits <==> a in FoundFor(ctx, QueryOf(request), request).articles)
  {
    DirectHitsContents(FoundFor(ctx, QueryOf(request), request), p, c, a);
  }
}
