/** The browser-side stand-in for the search server (`mockSearch` in the
    front end's mock data): verse groups built from fixture records with
    `createConsolidatedAyah`, and the post-processing every mock response
    goes through: the generic fallback when no keyword matched, removal of
    direct hits whose id was already seen, sorting by score and the total.
    Which fixtures each keyword selects depends on their text, which is not
    part of this model: what the keyword branches collected is an input. */
module MockData {
  import opened Wrappers
  import opened Seqs
  import opened Sorting
  import opened Models

  // ---------------------------------------------------------------------------
  // createConsolidatedAyah

  /** `Math.max(first, ...rest)`. */
  function MaxOf(first: real, rest: seq<real>): (m: real)
    ensures m >= first && forall i :: 0 <= i < |rest| ==> rest[i] <= m
    ensures m == first || m in rest
    decreases |rest|
  {
    if |rest| == 0 then first
    else
      var tail := MaxOf(first, rest[1..]);
      assert forall i :: 1 <= i < |rest| ==> rest[i] == rest[1..][i - 1];
      if rest[0] > tail then rest[0] else tail
  }

  function VerseScores(vs: seq<VerseResult>): (r: seq<real>)
    ensures |r| == |vs| && forall i :: 0 <= i < |r| ==> r[i] == vs[i].score
  {
    seq(|vs|, i requires 0 <= i < |vs| => vs[i].score)
  }

  function PostScores(ps: seq<PostResult>): (r: seq<real>)
    ensures |r| == |ps| && forall i :: 0 <= i < |r| ==> r[i] == ps[i].score
  {
    seq(|ps|, i requires 0 <= i < |ps| => ps[i].score)
  }

  function CourseScores(cs: seq<CourseResult>): (r: seq<real>)
    ensures |r| == |cs| && forall i :: 0 <= i < |r| ==> r[i] == cs[i].score
  {
    seq(|cs|, i requires 0 <= i < |cs| => cs[i].score)
  }

  function ArticleScores(as_: seq<ArticleResult>): (r: seq<real>)
    ensures |r| == |as_| && forall i :: 0 <= i < |r| ==> r[i] == as_[i].score
  {
    seq(|as_|, i requires 0 <= i < |as_| => as_[i].score)
  }

  /** `createConsolidatedAyah`: the group of `quran`'s verse holding the given
      members, its top score the largest of all their scores. */
  function CreateConsolidatedAyah(
    quran: VerseResult, translations: seq<VerseResult>, tafsirs: seq<VerseResult>,
    posts: seq<PostResult>, courses: seq<CourseResult>, articles: seq<ArticleResult>)
    : (a: ConsolidatedAyah)
    ensures a.ayahKey == quran.ayahKey && a.surah == quran.surah && a.ayah == quran.ayah
    ensures a.quran == Some(quran) && a.translations == translations && a.tafsirs == tafsirs
    ensures a.posts == posts && a.courses == courses && a.articles == articles
    ensures TopIsBest(a)
  {
    var rest := VerseScores(translations) + VerseScores(tafsirs) + PostScores(posts)
      + CourseScores(courses) + ArticleScores(articles);
    var top := MaxOf(quran.score, rest);
    var a := ConsolidatedAyah(quran.ayahKey, quran.surah, quran.ayah, Some(quran),
      translations, tafsirs, posts, courses, articles, top);
    CreatedTopIsBest(a, rest);
    a
  }

  lemma CreatedTopIsBest(a: ConsolidatedAyah, rest: seq<real>)
    requires a.quran.Some?
    requires rest == VerseScores(a.translations) + VerseScores(a.tafsirs) + PostScores(a.posts)
      + CourseScores(a.courses) + ArticleScores(a.articles)
    requires a.topScore == MaxOf(a.quran.value.score, rest)
    ensures TopIsBest(a)
  {
    var top := a.topScore;
    forall i | 0 <= i < |a.translations| ensures VerseScore(a.translations[i]) <= top {
      assert VerseScores(a.translations)[i] in rest;
    }
    forall i | 0 <= i < |a.tafsirs| ensures VerseScore(a.tafsirs[i]) <= top {
      assert VerseScores(a.tafsirs)[i] in rest;
    }
    forall i | 0 <= i < |a.posts| ensures PostScore(a.posts[i]) <= top {
      assert PostScores(a.posts)[i] in rest;
    }
    forall i | 0 <= i < |a.courses| ensures CourseScore(a.courses[i]) <= top {
      assert CourseScores(a.courses)[i] in rest;
    }
    forall i | 0 <= i < |a.articles| ensures ArticleScore(a.articles[i]) <= top {
      assert ArticleScores(a.articles)[i] in rest;
    }
    if top != a.quran.value.score {
      assert top in rest;
      if top in VerseScores(a.translations) {
        var i :| 0 <= i < |a.translations| && VerseScores(a.translations)[i] == top;
        assert VerseScore(a.translations[i]) == top;
      } else if top in VerseScores(a.tafsirs) {
        var i :| 0 <= i < |a.tafsirs| && VerseScores(a.tafsirs)[i] == top;
        assert VerseScore(a.tafsirs[i]) == top;
      } else if top in PostScores(a.posts) {
        var i :| 0 <= i < |a.posts| && PostScores(a.posts)[i] == top;
        assert PostScore(a.posts[i]) == top;
      } else if top in CourseScores(a.courses) {
        var i :| 0 <= i < |a.courses| && CourseScores(a.courses)[i] == top;
        assert CourseScore(a.courses[i]) == top;
      } else {
        assert top in ArticleScores(a.articles);
        var i :| 0 <= i < |a.articles| && ArticleScores(a.articles)[i] == top;
        assert ArticleScore(a.articles[i]) == top;
      }
    }
  }

  // ---------------------------------------------------------------------------
  // Removing repeated direct hits

  /** The id a direct hit is known by: a post's `post_id`, a course's
      `course_id`, an article's `slug`. All three share one set of seen ids. */
  function HitId(h: DirectHit): Option<string> {
    match h
    case PostHit(p) => p.postId
    case CourseHit(c) => c.courseId
    case ArticleHit(a) => a.slug
  }

  /** The ids of `hits`. */
  function Ids(hits: seq<DirectHit>): set<Option<string>> {
    set i | 0 <= i < |hits| :: HitId(hits[i])
  }

  /** No two of `hits` share an id. */
  predicate DistinctIds(hits: seq<DirectHit>) {
    forall i, j :: 0 <= i < j < |hits| ==> HitId(hits[i]) != HitId(hits[j])
  }

  /** The first of `hits` with id `id`, if any. */
  function FirstWithId(hits: seq<DirectHit>, id: Option<string>): Option<DirectHit>
    decreases |hits|
  {
    if |hits| == 0 then None
    else if HitId(hits[0]) == id then Some(hits[0])
    else FirstWithId(hits[1..], id)
  }

  /** The `filter` with the `seenIds` set, starting from the ids in `seen`. */
  function DedupFrom(hits: seq<DirectHit>, seen: set<Option<string>>): seq<DirectHit>
    decreases |hits|
  {
    if |hits| == 0 then []
    else if HitId(hits[0]) in seen then DedupFrom(hits[1..], seen)
    else [hits[0]] + DedupFrom(hits[1..], seen + {HitId(hits[0])})
  }

  /** What the filter keeps: distinct ids, in input order, none of them in
      `seen`, each the first hit with its id; and every id not in `seen`
      survives. */
  lemma {:induction false} DedupFromSound(hits: seq<DirectHit>, seen: set<Option<string>>)
    ensures DistinctIds(DedupFrom(hits, seen))
    ensures IsSubsequence(DedupFrom(hits, seen), hits)
    ensures forall i :: 0 <= i < |DedupFrom(hits, seen)| ==>
      HitId(DedupFrom(hits, seen)[i]) !in seen && FirstWithId(hits, HitId(DedupFrom(hits, seen)[i])) == Some(DedupFrom(hits, seen)[i])
    ensures forall k :: 0 <= k < |hits| ==> HitId(hits[k]) in seen || HitId(hits[k]) in Ids(DedupFrom(hits, seen))
    decreases |hits|
  {
    if |hits| > 0 {
      var h := hits[0];
      if HitId(h) in seen {
        DedupFromSound(hits[1..], seen);
        assert forall k :: 1 <= k < |hits| ==> hits[k] == hits[1..][k - 1];
      } else {
        var rest := DedupFrom(hits[1..], seen + {HitId(h)});
        DedupFromSound(hits[1..], seen + {HitId(h)});
        var r := [h] + rest;
        assert DedupFrom(hits, seen) == r;
        assert forall i :: 1 <= i < |r| ==> r[i] == rest[i - 1];
        assert forall k :: 1 <= k < |hits| ==> hits[k] == hits[1..][k - 1];
        assert HitId(r[0]) in Ids(r);
        assert forall k :: 0 <= k < |hits| && HitId(hits[k]) in Ids(rest) ==> HitId(hits[k]) in Ids(r) by {
          forall k | 0 <= k < |hits| && HitId(hits[k]) in Ids(rest) ensures HitId(hits[k]) in Ids(r) {
            var i :| 0 <= i < |rest| && HitId(rest[i]) == HitId(hits[k]);
            assert r[i + 1] == rest[i];
          }
        }
      }
    }
  }

  /** The hits without repeated ids, the first of each id kept. */
  function Dedup(hits: seq<DirectHit>): (r: seq<DirectHit>)
    ensures DistinctIds(r) && IsSubsequence(r, hits)
    ensures forall i :: 0 <= i < |r| ==> FirstWithId(hits, HitId(r[i])) == Some(r[i])
    ensures Ids(r) == Ids(hits)
  {
    var r := DedupFrom(hits, {});
    DedupFromSound(hits, {});
    assert Ids(r) <= Ids(hits) by {
      forall id | id in Ids(r) ensures id in Ids(hits) {
        var i :| 0 <= i < |r| && HitId(r[i]) == id;
        FirstWithIdIn(hits, id);
      }
    }
    r
  }

  lemma {:induction false} FirstWithIdIn(hits: seq<DirectHit>, id: Option<string>)
    ensures FirstWithId(hits, id).Some? ==> HitId(FirstWithId(hits, id).value) == id && id in Ids(hits)
    decreases |hits|
  {
    if |hits| > 0 && HitId(hits[0]) != id {
      FirstWithIdIn(hits[1..], id);
      if FirstWithId(hits, id).Some? {
        var i :| 0 <= i < |hits[1..]| && HitId(hits[1..][i]) == id;
        assert hits[i + 1] == hits[1..][i];
      }
    }
  }

  /** Hits whose ids are already distinct come through unchanged, so
      removing repeats twice is the same as once. */
  lemma {:induction false} DedupFromOfDistinct(hits: seq<DirectHit>, seen: set<Option<string>>)
    requires DistinctIds(hits)
    requires forall k :: 0 <= k < |hits| ==> HitId(hits[k]) !in seen
    ensures DedupFrom(hits, seen) == hits
    decreases |hits|
  {
    if |hits| > 0 {
      var h := hits[0];
      var tail := hits[1..];
      assert DistinctIds(tail) by {
        forall i, j | 0 <= i < j < |tail| ensures HitId(tail[i]) != HitId(tail[j]) {
          assert tail[i] == hits[i + 1] && tail[j] == hits[j + 1];
        }
      }
      assert forall k :: 0 <= k < |tail| ==> HitId(tail[k]) !in seen + {HitId(h)} by {
        forall k | 0 <= k < |tail| ensures HitId(tail[k]) !in seen + {HitId(h)} {
          assert tail[k] == hits[k + 1];
        }
      }
      DedupFromOfDistinct(tail, seen + {HitId(h)});
      assert HitId(h) !in seen;
      assert hits == [h] + tail;
    }
  }

  lemma DedupIdempotent(hits: seq<DirectHit>)
    ensures Dedup(Dedup(hits)) == Dedup(hits)
  {
    DedupFromOfDistinct(Dedup(hits), {});
  }

  // ---------------------------------------------------------------------------
  // The response

  /** What the keyword branches pushed: verse groups and direct hits, in
      push order. */
  datatype Collected = Collected(ayahs: seq<ConsolidatedAyah>, hits: seq<DirectHit>)

  /** The fixture records the generic fallback uses: Al-Fatiha's first verse
      with one translation, the sample posts and the sample articles. */
  datatype Fixtures = Fixtures(
    fatiha: VerseResult,
    fatihaTranslation: VerseResult,
    posts: seq<PostResult>,
    articles: seq<ArticleResult>)

  /** `slice(0, n)`: at most the first `n`. */
  function Take<T>(s: seq<T>, n: nat): (r: seq<T>)
    ensures |r| == if |s| < n then |s| else n
    ensures r == s[..|r|]
  {
    if |s| < n then s else s[..n]
  }

  /** The generic fallback: when nothing was collected, the group of verse
      1:1 with its one translation, two sample posts and one sample article. */
  function WithFallback(c: Collected, fx: Fixtures): (r: Collected)
    ensures |c.ayahs| > 0 || |c.hits| > 0 ==> r == c
    ensures |c.ayahs| == 0 && |c.hits| == 0 ==>
      r.ayahs == [CreateConsolidatedAyah(fx.fatiha, [fx.fatihaTranslation], [], [], [], [])]
      && r.hits == PostHits(Take(fx.posts, 2)) + ArticleHits(Take(fx.articles, 1))
    ensures |r.ayahs| > 0 || |r.hits| > 0
  {
    if |c.ayahs| > 0 || |c.hits| > 0 then c
    else
      Collected(
        [CreateConsolidatedAyah(fx.fatiha, [fx.fatihaTranslation], [], [], [], [])],
        PostHits(Take(fx.posts, 2)) + ArticleHits(Take(fx.articles, 1)))
  }

  /** `mockSearch` for what its keyword branches collected: the query echoed
      unchanged, the fallback when nothing matched, repeated direct hits
      removed, both lists sorted by score and the total counted. */
  function MockSearch(query: string, c: Collected, fx: Fixtures): (r: SearchResponse)
    ensures r.query == query
    ensures SortedDesc(r.directHits, HitScore) && SortedDesc(r.ayahResults, AyahScore)
    ensures DistinctIds(r.directHits) && Ids(r.directHits) == Ids(WithFallback(c, fx).hits)
    ensures multiset(r.directHits) == multiset(Dedup(WithFallback(c, fx).hits))
    ensures multiset(r.ayahResults) == multiset(WithFallback(c, fx).ayahs)
    ensures r.totalResults == |r.directHits| + |r.ayahResults|
    ensures r.totalResults >= 1
  {
    var all := WithFallback(c, fx);
    var unique := Dedup(all.hits);
    var direct := SortDesc(unique, HitScore);
    var ayahs := SortDesc(all.ayahs, AyahScore);
    SortedKeepsIds(unique, direct);
    assert |all.ayahs| == 0 ==> HitId(all.hits[0]) in Ids(all.hits);
    SearchResponse(query, direct, ayahs, |direct| + |ayahs|)
  }

  /** Reordering hits keeps their ids and their distinctness. */
  lemma SortedKeepsIds(a: seq<DirectHit>, b: seq<DirectHit>)
    requires multiset(a) == multiset(b)
    requires DistinctIds(a)
    ensures DistinctIds(b) && Ids(b) == Ids(a)
  {
    forall i, j | 0 <= i < j < |b| ensures HitId(b[i]) != HitId(b[j]) {
      assert b[i] in multiset(a) && b[j] in multiset(a);
      var i' :| 0 <= i' < |a| && a[i'] == b[i];
      var j' :| 0 <= j' < |a| && a[j'] == b[j];
      if i' == j' {
        assert multiset(b)[b[i]] >= 2 by {
          assert b[i] == b[j];
          assert multiset(b[..j]) + multiset(b[j..]) == multiset(b) by { assert b[..j] + b[j..] == b; }
          assert b[i] in multiset(b[..j]);
          assert b[j] in multiset(b[j..]);
        }
        assert multiset(a)[a[i']] >= 2;
        MultiplicityOfDistinct(a, i');
      }
    }
    forall id | id in Ids(b) ensures id in Ids(a) {
      var i :| 0 <= i < |b| && HitId(b[i]) == id;
      assert b[i] in multiset(a);
    }
    forall id | id in Ids(a) ensures id in Ids(b) {
      var i :| 0 <= i < |a| && HitId(a[i]) == id;
      assert a[i] in multiset(b);
    }
  }

  /** In hits with distinct ids each hit occurs once. */
  lemma {:induction false} MultiplicityOfDistinct(a: seq<DirectHit>, i: nat)
    requires DistinctIds(a) && i < |a|
    ensures multiset(a)[a[i]] == 1
    decreases |a|
  {
    DistinctTail(a);
    assert a == [a[0]] + a[1..];
    if i == 0 {
      assert a[0] !in a[1..];
    } else {
      MultiplicityOfDistinct(a[1..], i - 1);
      assert a[1..][i - 1] == a[i];
      assert a[0] != a[i];
    }
  }

  /** Dropping the first of hits with distinct ids keeps them distinct, and
      no later hit shares the first one's id. */
  lemma DistinctTail(a: seq<DirectHit>)
    requires DistinctIds(a) && |a| > 0
    ensures DistinctIds(a[1..])
    ensures forall k :: 0 <= k < |a[1..]| ==> HitId(a[1..][k]) != HitId(a[0])
    ensures a[0] !in a[1..]
  {
    var t := a[1..];
    forall p, q | 0 <= p < q < |t| ensures HitId(t[p]) != HitId(t[q]) {
      assert t[p] == a[p + 1] && t[q] == a[q + 1];
    }
    forall k | 0 <= k < |t| ensures HitId(t[k]) != HitId(a[0]) {
      assert t[k] == a[k + 1];
    }
  }

  /** A query no keyword matches gets exactly the fallback: the group of
      verse 1:1 and up to three direct hits. */
  lemma NothingMatchedGivesFallback(query: string, fx: Fixtures)
    ensures |MockSearch(query, Collected([], []), fx).ayahResults| == 1
    ensures |MockSearch(query, Collected([], []), fx).directHits| <= 3
  {
    var hits := WithFallback(Collected([], []), fx).hits;
    DedupSubsequenceLength(Dedup(hits), hits);
  }

  lemma {:induction false} DedupSubsequenceLength(a: seq<DirectHit>, b: seq<DirectHit>)
    requires IsSubsequence(a, b)
    ensures |a| <= |b|
    decreases |b|
  {
    if |a| > 0 && |b| > 0 {
      if a[0] == b[0] {
        DedupSubsequenceLength(a[1..], b[1..]);
      } else {
        DedupSubsequenceLength(a, b[1..]);
      }
    }
  }
}
