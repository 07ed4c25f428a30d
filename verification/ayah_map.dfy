/** The verse map `SearchService.search` fills (`ayahMap`): one aggregate per
    verse key, each update being a `computeIfAbsent` for the key followed by
    one call on the aggregate. Java's `HashMap` iterates in an unspecified
    order; here the keys are kept in first-insertion order, and nothing
    proved about the search depends on that order. As in `HashMap`, a
    missing (`null`) key is a key like any other. */
module AyahMaps {
  import opened Wrappers
  import opened Seqs
  import opened Sorting
  import opened Models
  import opened Aggregate

  /** Which list of an aggregate a verse-level hit goes to. */
  datatype Kind = QuranKind | TranslationKind | TafsirKind

  /** One update of the map: a verse-level hit, or a post, for the group of
      `key`. */
  datatype Event =
    | VerseEv(kind: Kind, key: Option<string>, verse: VerseResult)
    | PostEv(key: Option<string>, post: PostResult)

  function Score(e: Event): real {
    match e
    case VerseEv(_, _, v) => v.score
    case PostEv(_, p) => p.score
  }

  /** The hit an event adds to the list of `kind`, if any. */
  function VerseOf(e: Event, kind: Kind): seq<VerseResult> {
    if e.VerseEv? && e.kind == kind then [e.verse] else []
  }

  /** The post an event adds, if any. */
  function PostOf(e: Event): seq<PostResult> {
    if e.PostEv? then [e.post] else []
  }

  /** The aggregate `computeIfAbsent` creates for a new key: a verse-level
      hit supplies its numbers, a post has them parsed from the key. */
  function Seed(e: Event): (g: AyahAggregate)
    ensures Inv(g) && NonNegative(g) && g.ayahKey == e.key
    ensures g.quran.None? && g.translations == [] && g.tafsirs == [] && g.posts == []
  {
    match e
    case VerseEv(_, key, v) => New(key, v.surah, v.ayah)
    case PostEv(key, _) => FromKey(key)
  }

  /** `setQuran`, `addTranslation`, `addTafsir` or `addPost`, by event. */
  function ApplyTo(g: AyahAggregate, e: Event): (r: AyahAggregate)
    ensures r.ayahKey == g.ayahKey && HasMember(r)
    ensures r.translations == g.translations + VerseOf(e, TranslationKind)
    ensures r.tafsirs == g.tafsirs + VerseOf(e, TafsirKind)
    ensures r.posts == g.posts + PostOf(e)
    ensures r.quran == if e.VerseEv? && e.kind == QuranKind then SetQuran(g, e.verse).quran else g.quran
    ensures Inv(g) ==> Inv(r)
    ensures NonNegative(g) && Score(e) >= 0.0 ==> NonNegative(r)
  {
    match e
    case VerseEv(QuranKind, _, v) => SetQuran(g, v)
    case VerseEv(TranslationKind, _, v) => AddTranslation(g, v)
    case VerseEv(TafsirKind, _, v) => AddTafsir(g, v)
    case PostEv(_, p) => AddPost(g, p)
  }

  // ---------------------------------------------------------------------------
  // The map

  datatype AyahMap = AyahMap(keys: seq<Option<string>>, groups: map<Option<string>, AyahAggregate>)

  const Empty: AyahMap := AyahMap([], map[])

  /** `keys` lists every key of `groups` exactly once. */
  ghost predicate WellKeyed(m: AyahMap) {
    Distinct(m.keys) && forall k :: k in m.groups <==> k in m.keys
  }

  /** Every group sits under its own key, keeps the top-score invariant and
      has at least one member. */
  predicate Sound(m: AyahMap) {
    forall k :: k in m.groups ==> m.groups[k].ayahKey == k && Inv(m.groups[k]) && HasMember(m.groups[k])
  }

  /** No member of any group scores below 0. */
  predicate NonNegativeScores(m: AyahMap) {
    forall k :: k in m.groups ==> NonNegative(m.groups[k])
  }

  predicate ScoresNonNegative(es: seq<Event>) {
    forall i :: 0 <= i < |es| ==> Score(es[i]) >= 0.0
  }

  /** The group under `k`, or an empty one when there is none. */
  function Before(m: AyahMap, k: Option<string>): (g: AyahAggregate)
    ensures k !in m.groups ==> g.quran.None? && g.translations == [] && g.tafsirs == [] && g.posts == []
  {
    if k in m.groups then m.groups[k] else New(k, 0, 0)
  }

  /** `ayahMap.computeIfAbsent(key, ...)` followed by the event's update. */
  function Apply(m: AyahMap, e: Event): (r: AyahMap)
    ensures e.key in r.groups
    ensures r.groups[e.key] == ApplyTo(if e.key in m.groups then m.groups[e.key] else Seed(e), e)
    ensures forall k :: k != e.key ==> (k in r.groups <==> k in m.groups)
    ensures forall k :: k != e.key && k in m.groups ==> r.groups[k] == m.groups[k]
    ensures WellKeyed(m) ==> WellKeyed(r)
  {
    var g := if e.key in m.groups then m.groups[e.key] else Seed(e);
    var keys := if e.key in m.groups then m.keys else m.keys + [e.key];
    AyahMap(keys, m.groups[e.key := ApplyTo(g, e)])
  }

  /** The events applied in order. */
  function ApplyAll(m: AyahMap, es: seq<Event>): AyahMap
    decreases |es|
  {
    if |es| == 0 then m else ApplyAll(Apply(m, es[0]), es[1..])
  }

  /** The hits of `kind` that events for `k` add, in order. */
  function VersesFor(es: seq<Event>, k: Option<string>, kind: Kind): seq<VerseResult>
    decreases |es|
  {
    if |es| == 0 then []
    else (if es[0].key == k then VerseOf(es[0], kind) else []) + VersesFor(es[1..], k, kind)
  }

  /** The posts that events for `k` add, in order. */
  function PostsFor(es: seq<Event>, k: Option<string>): seq<PostResult>
    decreases |es|
  {
    if |es| == 0 then []
    else (if es[0].key == k then PostOf(es[0]) else []) + PostsFor(es[1..], k)
  }

  // ---------------------------------------------------------------------------
  // What applying events does

  /** Some event is for `k`. */
  predicate Mentions(es: seq<Event>, k: Option<string>) {
    exists i :: 0 <= i < |es| && es[i].key == k
  }

  lemma MentionsCons(es: seq<Event>, k: Option<string>)
    requires |es| > 0
    ensures Mentions(es, k) <==> es[0].key == k || Mentions(es[1..], k)
  {
    if exists i :: 1 <= i < |es| && es[i].key == k {
      var i :| 1 <= i < |es| && es[i].key == k;
      assert es[1..][i - 1].key == k;
    }
    if Mentions(es[1..], k) {
      var i :| 0 <= i < |es[1..]| && es[1..][i].key == k;
      assert es[i + 1].key == k;
    }
  }

  /** The map's keys are the old keys and the events' keys. */
  lemma {:induction false} ApplyAllKeys(m: AyahMap, es: seq<Event>, k: Option<string>)
    ensures k in ApplyAll(m, es).groups <==> k in m.groups || Mentions(es, k)
    decreases |es|
  {
    if |es| > 0 {
      var m' := Apply(m, es[0]);
      assert ApplyAll(m, es) == ApplyAll(m', es[1..]);
      ApplyAllKeys(m', es[1..], k);
      MentionsCons(es, k);
      assert k in m'.groups <==> k in m.groups || es[0].key == k;
    }
  }

  /** Each key is listed once, in first-insertion order. */
  lemma {:induction false} ApplyAllWellKeyed(m: AyahMap, es: seq<Event>)
    requires WellKeyed(m)
    ensures WellKeyed(ApplyAll(m, es))
    decreases |es|
  {
    if |es| > 0 {
      var m' := Apply(m, es[0]);
      assert ApplyAll(m, es) == ApplyAll(m', es[1..]);
      ApplyAllWellKeyed(m', es[1..]);
    }
  }

  /** Applying events keeps every group sound, and keeps scores non-negative
      when the events' scores are. */
  lemma {:induction false} ApplyAllSound(m: AyahMap, es: seq<Event>)
    ensures Sound(m) ==> Sound(ApplyAll(m, es))
    ensures NonNegativeScores(m) && ScoresNonNegative(es) ==> NonNegativeScores(ApplyAll(m, es))
    decreases |es|
  {
    if |es| > 0 {
      var m' := Apply(m, es[0]);
      assert Sound(m) ==> Sound(m');
      assert ScoresNonNegative(es) ==> ScoresNonNegative(es[1..]) by {
        if ScoresNonNegative(es) {
          forall i | 0 <= i < |es[1..]| ensures Score(es[1..][i]) >= 0.0 {
            assert es[1..][i] == es[i + 1];
          }
        }
      }
      ApplyAllSound(m', es[1..]);
    }
  }

  /** Each list of a group is what it held before followed by what the events
      for its key add. */
  lemma ApplyAllLists(m: AyahMap, es: seq<Event>, k: Option<string>)
    ensures Before(ApplyAll(m, es), k).translations == Before(m, k).translations + VersesFor(es, k, TranslationKind)
    ensures Before(ApplyAll(m, es), k).tafsirs == Before(m, k).tafsirs + VersesFor(es, k, TafsirKind)
    ensures Before(ApplyAll(m, es), k).posts == Before(m, k).posts + PostsFor(es, k)
  {
    ApplyAllVerses(m, es, k, TranslationKind);
    ApplyAllVerses(m, es, k, TafsirKind);
    ApplyAllPosts(m, es, k);
  }

  /** Starting from no groups, a group's lists are exactly what the events
      for its key add. */
  lemma ApplyAllFromEmpty(es: seq<Event>, k: Option<string>)
    ensures Before(ApplyAll(Empty, es), k).translations == VersesFor(es, k, TranslationKind)
    ensures Before(ApplyAll(Empty, es), k).tafsirs == VersesFor(es, k, TafsirKind)
    ensures Before(ApplyAll(Empty, es), k).posts == PostsFor(es, k)
  {
    ApplyAllLists(Empty, es, k);
    assert Before(Empty, k).translations == [] && Before(Empty, k).tafsirs == [] && Before(Empty, k).posts == [];
  }

  /** The list of `kind` of a group, by kind. */
  function ListOf(g: AyahAggregate, kind: Kind): seq<VerseResult> {
    match kind
    case QuranKind => []
    case TranslationKind => g.translations
    case TafsirKind => g.tafsirs
  }

  /** One event adds its hit to the list of its kind in its own group and
      changes no other group. */
  lemma StepVerses(m: AyahMap, e: Event, k: Option<string>, kind: Kind)
    requires kind != QuranKind
    ensures ListOf(Before(Apply(m, e), k), kind) == ListOf(Before(m, k), kind) + (if e.key == k then VerseOf(e, kind) else [])
  {
    if e.key == k {
      var base := if k in m.groups then m.groups[k] else Seed(e);
      assert ListOf(base, kind) == ListOf(Before(m, k), kind);
    }
  }

  /** Only a Quran-verse event of the group sets its verse. */
  lemma StepQuran(m: AyahMap, e: Event, k: Option<string>)
    ensures Before(Apply(m, e), k).quran == if e.key == k && e.VerseEv? && e.kind == QuranKind then SetQuran(Before(m, k), e.verse).quran else Before(m, k).quran
  {
    if e.key == k {
      var base := if k in m.groups then m.groups[k] else Seed(e);
      assert base.quran == Before(m, k).quran;
    }
  }

  /** One event adds its post, if any, to its own group only. */
  lemma StepPosts(m: AyahMap, e: Event, k: Option<string>)
    ensures Before(Apply(m, e), k).posts == Before(m, k).posts + (if e.key == k then PostOf(e) else [])
  {
    if e.key == k {
      var base := if k in m.groups then m.groups[k] else Seed(e);
      assert base.posts == Before(m, k).posts;
    }
  }

  lemma {:induction false} ApplyAllVerses(m: AyahMap, es: seq<Event>, k: Option<string>, kind: Kind)
    requires kind != QuranKind
    ensures ListOf(Before(ApplyAll(m, es), k), kind) == ListOf(Before(m, k), kind) + VersesFor(es, k, kind)
    decreases |es|
  {
    if |es| > 0 {
      var m' := Apply(m, es[0]);
      assert ApplyAll(m, es) == ApplyAll(m', es[1..]);
      ApplyAllVerses(m', es[1..], k, kind);
      StepVerses(m, es[0], k, kind);
      var head := if es[0].key == k then VerseOf(es[0], kind) else [];
      assert VersesFor(es, k, kind) == head + VersesFor(es[1..], k, kind);
      assert ListOf(Before(m', k), kind) == ListOf(Before(m, k), kind) + head;
      ConcatAssoc(ListOf(Before(m, k), kind), head, VersesFor(es[1..], k, kind));
    }
  }

  lemma {:induction false} ApplyAllPosts(m: AyahMap, es: seq<Event>, k: Option<string>)
    ensures Before(ApplyAll(m, es), k).posts == Before(m, k).posts + PostsFor(es, k)
    decreases |es|
  {
    if |es| > 0 {
      var m' := Apply(m, es[0]);
      assert ApplyAll(m, es) == ApplyAll(m', es[1..]);
      ApplyAllPosts(m', es[1..], k);
      StepPosts(m, es[0], k);
      var head := if es[0].key == k then PostOf(es[0]) else [];
      calc {
        Before(ApplyAll(m, es), k).posts;
        Before(ApplyAll(m', es[1..]), k).posts;
        Before(m', k).posts + PostsFor(es[1..], k);
        (Before(m, k).posts + head) + PostsFor(es[1..], k);
        { ConcatAssoc(Before(m, k).posts, head, PostsFor(es[1..], k)); }
        Before(m, k).posts + (head + PostsFor(es[1..], k));
        Before(m, k).posts + PostsFor(es, k);
      }
    }
  }

  /** The Quran hit a group keeps is the one `setQuran` keeps when called on
      its earlier state with each Quran hit for its key in turn. */
  lemma {:induction false} ApplyAllQuran(m: AyahMap, es: seq<Event>, k: Option<string>, h: AyahAggregate)
    requires h.quran == Before(m, k).quran
    ensures Before(ApplyAll(m, es), k).quran == SetQuranAll(h, VersesFor(es, k, QuranKind)).quran
    decreases |es|
  {
    if |es| > 0 {
      var e := es[0];
      var m' := Apply(m, e);
      StepQuran(m, e, k);
      SameQuranSameChoice(h, Before(m, k), e);
      var rest := VersesFor(es[1..], k, QuranKind);
      if e.key == k && e.VerseEv? && e.kind == QuranKind {
        var h' := SetQuran(h, e.verse);
        ApplyAllQuran(m', es[1..], k, h');
        var qs := VersesFor(es, k, QuranKind);
        assert qs == [e.verse] + rest;
        assert qs[1..] == rest;
        assert SetQuranAll(h, qs) == SetQuranAll(h', rest);
      } else {
        ApplyAllQuran(m', es[1..], k, h);
        assert VersesFor(es, k, QuranKind) == rest;
      }
    }
  }

  /** `setQuran`'s choice depends only on the Quran hit held before. */
  lemma SameQuranSameChoice(g1: AyahAggregate, g2: AyahAggregate, e: Event)
    requires g1.quran == g2.quran
    ensures e.VerseEv? ==> SetQuran(g1, e.verse).quran == SetQuran(g2, e.verse).quran
  {
  }

  /** A group starting without a Quran hit keeps the first best-scoring Quran
      hit for its key, or none when there is none. */
  lemma ApplyAllKeepsFirstBestQuran(m: AyahMap, es: seq<Event>, k: Option<string>)
    requires Before(m, k).quran.None?
    ensures var qs := VersesFor(es, k, QuranKind);
      && (|qs| == 0 ==> Before(ApplyAll(m, es), k).quran.None?)
      && (|qs| > 0 ==> Before(ApplyAll(m, es), k).quran == Some(qs[FirstMaxIndex(qs, VerseScore)]))
  {
    var qs := VersesFor(es, k, QuranKind);
    ApplyAllQuran(m, es, k, Before(m, k));
    if |qs| > 0 {
      SetQuranKeepsFirstBest(Before(m, k), qs);
    }
  }

  /** A group holds a Quran hit afterwards when it held one before or some
      Quran hit for its key arrives. */
  lemma ApplyAllQuranPresent(m: AyahMap, es: seq<Event>, k: Option<string>)
    requires Before(m, k).quran.Some? || |VersesFor(es, k, QuranKind)| > 0
    ensures Before(ApplyAll(m, es), k).quran.Some?
  {
    ApplyAllQuran(m, es, k, Before(m, k));
    SetQuranAllPresent(Before(m, k), VersesFor(es, k, QuranKind));
  }

  lemma {:induction false} SetQuranAllPresent(g: AyahAggregate, qs: seq<VerseResult>)
    requires g.quran.Some? || |qs| > 0
    ensures SetQuranAll(g, qs).quran.Some?
    decreases |qs|
  {
    if |qs| > 0 {
      SetQuranAllPresent(SetQuran(g, qs[0]), qs[1..]);
    }
  }

  lemma {:induction false} VersesForConcat(a: seq<Event>, b: seq<Event>, k: Option<string>, kind: Kind)
    ensures VersesFor(a + b, k, kind) == VersesFor(a, k, kind) + VersesFor(b, k, kind)
    decreases |a|
  {
    if |a| == 0 {
      assert a + b == b;
    } else {
      VersesForConcat(a[1..], b, k, kind);
      assert (a + b)[1..] == a[1..] + b;
      var head := if a[0].key == k then VerseOf(a[0], kind) else [];
      assert VersesFor(a + b, k, kind) == head + VersesFor(a[1..] + b, k, kind);
    }
  }

  lemma {:induction false} PostsForConcat(a: seq<Event>, b: seq<Event>, k: Option<string>)
    ensures PostsFor(a + b, k) == PostsFor(a, k) + PostsFor(b, k)
    decreases |a|
  {
    if |a| == 0 {
      assert a + b == b;
    } else {
      PostsForConcat(a[1..], b, k);
      assert (a + b)[1..] == a[1..] + b;
      var head := if a[0].key == k then PostOf(a[0]) else [];
      assert PostsFor(a + b, k) == head + PostsFor(a[1..] + b, k);
    }
  }

  /** The scores of two event sequences are all non-negative exactly when
      those of their concatenation are. */
  lemma ScoresConcat(a: seq<Event>, b: seq<Event>)
    ensures ScoresNonNegative(a + b) <==> ScoresNonNegative(a) && ScoresNonNegative(b)
  {
    if ScoresNonNegative(a) && ScoresNonNegative(b) {
      forall i | 0 <= i < |a + b| ensures Score((a + b)[i]) >= 0.0 {
        if i >= |a| {
          assert (a + b)[i] == b[i - |a|];
        }
      }
    }
    if ScoresNonNegative(a + b) {
      forall i | 0 <= i < |a| ensures Score(a[i]) >= 0.0 {
        assert (a + b)[i] == a[i];
      }
      forall i | 0 <= i < |b| ensures Score(b[i]) >= 0.0 {
        assert (a + b)[|a| + i] == b[i];
      }
    }
  }

  /** Events that are all verse-level hits add no posts. */
  lemma {:induction false} VerseEventsAddNoPosts(es: seq<Event>, k: Option<string>)
    requires forall i :: 0 <= i < |es| ==> es[i].VerseEv?
    ensures PostsFor(es, k) == []
    decreases |es|
  {
    if |es| > 0 {
      VerseEventsAddNoPosts(es[1..], k);
    }
  }

  /** Events that are all posts add no verse-level hits. */
  lemma {:induction false} PostEventsAddNoVerses(es: seq<Event>, k: Option<string>, kind: Kind)
    requires forall i :: 0 <= i < |es| ==> es[i].PostEv?
    ensures VersesFor(es, k, kind) == []
    decreases |es|
  {
    if |es| > 0 {
      PostEventsAddNoVerses(es[1..], k, kind);
    }
  }
}
