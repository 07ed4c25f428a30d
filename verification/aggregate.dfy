/** `SearchService.AyahAggregate`: the results collected for one verse while a
    search is assembled, and its conversion into a `ConsolidatedAyah`. The
    Java class mutates its fields; here every operation returns the updated
    aggregate. */
module Aggregate {
  import opened Wrappers
  import opened Text
  import opened Seqs
  import opened Sorting
  import opened Models
  import opened AyahKeys

  datatype AyahAggregate = AyahAggregate(
    ayahKey: Option<string>,
    surah: int,
    ayah: int,
    quran: Option<VerseResult>,
    translations: seq<VerseResult>,
    tafsirs: seq<VerseResult>,
    posts: seq<PostResult>,
    topScore: real)

  /** The constructor: no members yet and a top score of 0. */
  function New(key: Option<string>, surah: int, ayah: int): (g: AyahAggregate)
    ensures Inv(g) && g.quran.None? && g.translations == [] && g.tafsirs == [] && g.posts == []
  {
    AyahAggregate(key, surah, ayah, None, [], [], [], 0.0)
  }

  /** `AyahAggregate.fromKey`: numbers taken from the key without trimming. */
  function FromKey(key: Option<string>): (g: AyahAggregate)
    ensures Inv(g) && g.ayahKey == key && (g.surah, g.ayah) == PartsFromKey(key)
  {
    var (surah, ayah) := PartsFromKey(key);
    New(key, surah, ayah)
  }

  // ---------------------------------------------------------------------------
  // The top-score invariant

  /** `topScore` is non-negative, no member scores above it, and unless it is
      still the initial 0 some member attains it. */
  predicate Inv(g: AyahAggregate) {
    && g.topScore >= 0.0
    && (g.quran.Some? ==> g.quran.value.score <= g.topScore)
    && AllAtMost(g.translations, VerseScore, g.topScore)
    && AllAtMost(g.tafsirs, VerseScore, g.topScore)
    && AllAtMost(g.posts, PostScore, g.topScore)
    && (g.topScore == 0.0 || Attained(g))
  }

  predicate Attained(g: AyahAggregate) {
    || (g.quran.Some? && g.quran.value.score == g.topScore)
    || SomeAt(g.translations, VerseScore, g.topScore)
    || SomeAt(g.tafsirs, VerseScore, g.topScore)
    || SomeAt(g.posts, PostScore, g.topScore)
  }

  /** Every member scores at least 0, as normalised retrieval scores and the
      local fallbacks' 0.0 do. */
  predicate NonNegative(g: AyahAggregate) {
    && (g.quran.Some? ==> g.quran.value.score >= 0.0)
    && (forall i :: 0 <= i < |g.translations| ==> g.translations[i].score >= 0.0)
    && (forall i :: 0 <= i < |g.tafsirs| ==> g.tafsirs[i].score >= 0.0)
    && (forall i :: 0 <= i < |g.posts| ==> g.posts[i].score >= 0.0)
  }

  predicate HasMember(g: AyahAggregate) {
    g.quran.Some? || |g.translations| > 0 || |g.tafsirs| > 0 || |g.posts| > 0
  }

  /** With non-negative scores and at least one member, the top score is the
      best member score even when it is 0. */
  lemma InvAttained(g: AyahAggregate)
    requires Inv(g) && NonNegative(g) && HasMember(g)
    ensures Attained(g)
  {
    if g.topScore == 0.0 {
      if g.quran.Some? {
      } else if |g.translations| > 0 {
        assert VerseScore(g.translations[0]) == 0.0;
      } else if |g.tafsirs| > 0 {
        assert VerseScore(g.tafsirs[0]) == 0.0;
      } else {
        assert PostScore(g.posts[0]) == 0.0;
      }
    }
  }

  // ---------------------------------------------------------------------------
  // Updates

  /** `updateScore`: the top score rises to `score` when `score` is greater. */
  function UpdateScore(g: AyahAggregate, score: real): (r: AyahAggregate)
    ensures r.topScore >= g.topScore && r.topScore >= score
    ensures r.topScore == g.topScore || r.topScore == score
    ensures r == g.(topScore := r.topScore)
  {
    if score > g.topScore then g.(topScore := score) else g
  }

  /** `updateAyah`: a number is filled in only while it is still 0 and the
      reported one is positive. */
  function UpdateAyah(g: AyahAggregate, surah: int, ayah: int): (r: AyahAggregate)
    ensures g.surah != 0 ==> r.surah == g.surah
    ensures g.ayah != 0 ==> r.ayah == g.ayah
    ensures r == g.(surah := r.surah, ayah := r.ayah)
  {
    g.(surah := if g.surah == 0 && surah > 0 then surah else g.surah,
       ayah := if g.ayah == 0 && ayah > 0 then ayah else g.ayah)
  }

  /** `setQuran`: the first Quran hit is kept unless a strictly better one
      arrives. */
  function SetQuran(g: AyahAggregate, q: VerseResult): (r: AyahAggregate)
    ensures r.quran.Some?
    ensures g.quran.Some? && q.score <= g.quran.value.score ==> r.quran == g.quran
    ensures g.quran.None? || q.score > g.quran.value.score ==> r.quran == Some(q)
    ensures r.translations == g.translations && r.tafsirs == g.tafsirs && r.posts == g.posts
    ensures r.ayahKey == g.ayahKey
    ensures Inv(g) ==> Inv(r)
    ensures NonNegative(g) && q.score >= 0.0 ==> NonNegative(r)
  {
    var kept := if g.quran.None? || q.score > g.quran.value.score then Some(q) else g.quran;
    UpdateAyah(UpdateScore(g.(quran := kept), q.score), q.surah, q.ayah)
  }

  /** `addTranslation`: appended; top score and numbers updated. */
  function AddTranslation(g: AyahAggregate, t: VerseResult): (r: AyahAggregate)
    ensures r.translations == g.translations + [t]
    ensures r.quran == g.quran && r.tafsirs == g.tafsirs && r.posts == g.posts && r.ayahKey == g.ayahKey
    ensures Inv(g) ==> Inv(r)
    ensures NonNegative(g) && t.score >= 0.0 ==> NonNegative(r)
  {
    var r := UpdateAyah(UpdateScore(g.(translations := g.translations + [t]), t.score), t.surah, t.ayah);
    assert Inv(g) ==> Inv(r) by {
      if Inv(g) {
        AppendKeepsScores(g.translations, t, VerseScore, g.topScore, r.topScore);
      }
    }
    r
  }

  /** `addTafsir`: appended; top score and numbers updated. */
  function AddTafsir(g: AyahAggregate, t: VerseResult): (r: AyahAggregate)
    ensures r.tafsirs == g.tafsirs + [t]
    ensures r.quran == g.quran && r.translations == g.translations && r.posts == g.posts && r.ayahKey == g.ayahKey
    ensures Inv(g) ==> Inv(r)
    ensures NonNegative(g) && t.score >= 0.0 ==> NonNegative(r)
  {
    var r := UpdateAyah(UpdateScore(g.(tafsirs := g.tafsirs + [t]), t.score), t.surah, t.ayah);
    assert Inv(g) ==> Inv(r) by {
      if Inv(g) {
        AppendKeepsScores(g.tafsirs, t, VerseScore, g.topScore, r.topScore);
      }
    }
    r
  }

  /** `addPost`: appended and the top score updated; the numbers are not. */
  function AddPost(g: AyahAggregate, p: PostResult): (r: AyahAggregate)
    ensures r.posts == g.posts + [p]
    ensures r.quran == g.quran && r.translations == g.translations && r.tafsirs == g.tafsirs
    ensures r.ayahKey == g.ayahKey && r.surah == g.surah && r.ayah == g.ayah
    ensures Inv(g) ==> Inv(r)
    ensures NonNegative(g) && p.score >= 0.0 ==> NonNegative(r)
  {
    var r := UpdateScore(g.(posts := g.posts + [p]), p.score);
    assert Inv(g) ==> Inv(r) by {
      if Inv(g) {
        AppendKeepsScores(g.posts, p, PostScore, g.topScore, r.topScore);
      }
    }
    r
  }

  /** Appending an element scoring at most the new top keeps every bound, and
      an element attaining the old top still attains it when the top is
      unchanged. */
  lemma AppendKeepsScores<T>(s: seq<T>, x: T, key: T -> real, oldTop: real, newTop: real)
    requires AllAtMost(s, key, oldTop) && oldTop <= newTop && key(x) <= newTop
    ensures AllAtMost(s + [x], key, newTop)
    ensures SomeAt(s, key, oldTop) && oldTop == newTop ==> SomeAt(s + [x], key, newTop)
    ensures key(x) == newTop ==> SomeAt(s + [x], key, newTop)
  {
    if SomeAt(s, key, oldTop) && oldTop == newTop {
      var i :| 0 <= i < |s| && key(s[i]) == oldTop;
      assert (s + [x])[i] == s[i];
    }
    if key(x) == newTop {
      assert (s + [x])[|s|] == x;
    }
  }

  // ---------------------------------------------------------------------------
  // Folding many Quran hits

  /** The aggregate after `setQuran` has been called with each hit in turn. */
  function SetQuranAll(g: AyahAggregate, qs: seq<VerseResult>): AyahAggregate
    decreases |qs|
  {
    if |qs| == 0 then g else SetQuranAll(SetQuran(g, qs[0]), qs[1..])
  }

  /** Starting without a Quran hit, the one kept is the first of the best
      scoring hits. */
  lemma {:induction false} SetQuranKeepsFirstBest(g: AyahAggregate, qs: seq<VerseResult>)
    requires g.quran.None? && |qs| > 0
    ensures SetQuranAll(g, qs).quran == Some(qs[FirstMaxIndex(qs, VerseScore)])
  {
    KeepsFirstBestFrom(SetQuran(g, qs[0]), qs, 1);
  }

  /** Invariant of the fold: after the first `n` hits the kept one is the
      first best of those. */
  lemma {:induction false} KeepsFirstBestFrom(g: AyahAggregate, qs: seq<VerseResult>, n: nat)
    requires 0 < n <= |qs|
    requires g.quran == Some(qs[FirstMaxIndex(qs[..n], VerseScore)])
    ensures SetQuranAll(g, qs[n..]).quran == Some(qs[FirstMaxIndex(qs, VerseScore)])
    decreases |qs| - n
  {
    assert qs[..n][FirstMaxIndex(qs[..n], VerseScore)] == qs[FirstMaxIndex(qs[..n], VerseScore)];
    if n == |qs| {
      assert qs[..n] == qs;
    } else {
      var g' := SetQuran(g, qs[n]);
      assert qs[..n + 1] == qs[..n] + [qs[n]];
      FirstMaxExtend(qs[..n], qs[n], VerseScore);
      assert qs[n..][1..] == qs[n + 1..];
      KeepsFirstBestFrom(g', qs, n + 1);
    }
  }

  /** The first positive number reported, or 0. */
  function FirstPositive(xs: seq<int>): (r: int)
    ensures r == 0 || r > 0
    ensures r > 0 ==> r in xs
  {
    if |xs| == 0 then 0 else if xs[0] > 0 then xs[0] else FirstPositive(xs[1..])
  }

  function UpdateAyahAll(g: AyahAggregate, reports: seq<(int, int)>): AyahAggregate
    decreases |reports|
  {
    if |reports| == 0 then g else UpdateAyahAll(UpdateAyah(g, reports[0].0, reports[0].1), reports[1..])
  }

  function Surahs(reports: seq<(int, int)>): (r: seq<int>)
    ensures |r| == |reports| && forall i :: 0 <= i < |r| ==> r[i] == reports[i].0
  {
    seq(|reports|, i requires 0 <= i < |reports| => reports[i].0)
  }

  function Ayahs(reports: seq<(int, int)>): (r: seq<int>)
    ensures |r| == |reports| && forall i :: 0 <= i < |r| ==> r[i] == reports[i].1
  {
    seq(|reports|, i requires 0 <= i < |reports| => reports[i].1)
  }

  /** A group created with unknown numbers takes the first positive surah and
      the first positive ayah reported by its members, independently. */
  lemma {:induction false} FirstPositiveNumbersWin(g: AyahAggregate, reports: seq<(int, int)>)
    requires g.surah == 0 && g.ayah == 0
    ensures UpdateAyahAll(g, reports).surah == FirstPositive(Surahs(reports))
    ensures UpdateAyahAll(g, reports).ayah == FirstPositive(Ayahs(reports))
    decreases |reports|
  {
    if |reports| > 0 {
      var g' := UpdateAyah(g, reports[0].0, reports[0].1);
      assert Surahs(reports[1..]) == Surahs(reports)[1..];
      assert Ayahs(reports[1..]) == Ayahs(reports)[1..];
      if g'.surah == 0 && g'.ayah == 0 {
        FirstPositiveNumbersWin(g', reports[1..]);
      } else {
        KeepsPositive(g', reports[1..]);
        if g'.surah == 0 {
          FirstPositiveNumbersWinSurah(g', reports[1..]);
        }
        if g'.ayah == 0 {
          FirstPositiveNumbersWinAyah(g', reports[1..]);
        }
      }
    }
  }

  lemma {:induction false} FirstPositiveNumbersWinSurah(g: AyahAggregate, reports: seq<(int, int)>)
    requires g.surah == 0
    ensures UpdateAyahAll(g, reports).surah == FirstPositive(Surahs(reports))
    decreases |reports|
  {
    if |reports| > 0 {
      var g' := UpdateAyah(g, reports[0].0, reports[0].1);
      assert Surahs(reports[1..]) == Surahs(reports)[1..];
      if g'.surah == 0 {
        FirstPositiveNumbersWinSurah(g', reports[1..]);
      } else {
        KeepsPositive(g', reports[1..]);
      }
    }
  }

  lemma {:induction false} FirstPositiveNumbersWinAyah(g: AyahAggregate, reports: seq<(int, int)>)
    requires g.ayah == 0
    ensures UpdateAyahAll(g, reports).ayah == FirstPositive(Ayahs(reports))
    decreases |reports|
  {
    if |reports| > 0 {
      var g' := UpdateAyah(g, reports[0].0, reports[0].1);
      assert Ayahs(reports[1..]) == Ayahs(reports)[1..];
      if g'.ayah == 0 {
        FirstPositiveNumbersWinAyah(g', reports[1..]);
      } else {
        KeepsPositive(g', reports[1..]);
      }
    }
  }

  /** A number that is no longer 0 never changes again. */
  lemma {:induction false} KeepsPositive(g: AyahAggregate, reports: seq<(int, int)>)
    ensures g.surah != 0 ==> UpdateAyahAll(g, reports).surah == g.surah
    ensures g.ayah != 0 ==> UpdateAyahAll(g, reports).ayah == g.ayah
    decreases |reports|
  {
    if |reports| > 0 {
      KeepsPositive(UpdateAyah(g, reports[0].0, reports[0].1), reports[1..]);
    }
  }

  // ---------------------------------------------------------------------------
  // Conversion

  /** The item's language equals the requested one, ignoring case. */
  predicate Prefers(v: VerseResult, language: string) {
    v.lang.Some? && EqualsIgnoreCase(v.lang.value, language)
  }

  function PrefersIn(language: string): VerseResult -> bool {
    v => Prefers(v, language)
  }

  /** `sortByLanguage`: items in the requested language first, then the rest,
      each block by descending score and otherwise in arrival order. */
  function SortByLanguage(items: seq<VerseResult>, language: string): (r: seq<VerseResult>)
    ensures multiset(r) == multiset(items) && |r| == |items|
    ensures var n := |Filter(items, PrefersIn(language))|;
      && n <= |r|
      && (forall i :: 0 <= i < n ==> Prefers(r[i], language))
      && (forall i :: n <= i < |r| ==> !Prefers(r[i], language))
      && SortedDesc(r[..n], VerseScore)
      && SortedDesc(r[n..], VerseScore)
  {
    var preferred := Filter(items, PrefersIn(language));
    var other := Reject(items, PrefersIn(language));
    FilterPartition(items, PrefersIn(language));
    LanguageBlocks(SortDesc(preferred, VerseScore), SortDesc(other, VerseScore), language);
    SortDesc(preferred, VerseScore) + SortDesc(other, VerseScore)
  }

  lemma LanguageBlocks(a: seq<VerseResult>, b: seq<VerseResult>, language: string)
    requires forall x :: x in multiset(a) ==> Prefers(x, language)
    requires forall x :: x in multiset(b) ==> !Prefers(x, language)
    ensures var r := a + b;
      && (forall i :: 0 <= i < |a| ==> Prefers(r[i], language))
      && (forall i :: |a| <= i < |r| ==> !Prefers(r[i], language))
      && r[..|a|] == a && r[|a|..] == b
  {
    var r := a + b;
    forall i | 0 <= i < |a| ensures Prefers(r[i], language) {
      assert r[i] == a[i] && a[i] in multiset(a);
    }
    forall i | |a| <= i < |r| ensures !Prefers(r[i], language) {
      assert r[i] == b[i - |a|] && b[i - |a|] in multiset(b);
    }
    assert r[..|a|] == a && r[|a|..] == b;
  }

  /** Within each language block, items with the same score keep their
      arrival order. */
  lemma SortByLanguageStable(items: seq<VerseResult>, language: string, v: real)
    ensures var n := |Filter(items, PrefersIn(language))|;
      var r := SortByLanguage(items, language);
      && WithKey(r[..n], VerseScore, v) == WithKey(Filter(items, PrefersIn(language)), VerseScore, v)
      && WithKey(r[n..], VerseScore, v) == WithKey(Reject(items, PrefersIn(language)), VerseScore, v)
  {
    var preferred := Filter(items, PrefersIn(language));
    var other := Reject(items, PrefersIn(language));
    var r := SortByLanguage(items, language);
    assert r == SortDesc(preferred, VerseScore) + SortDesc(other, VerseScore);
    assert r[..|preferred|] == SortDesc(preferred, VerseScore);
    assert r[|preferred|..] == SortDesc(other, VerseScore);
    SortDescStable(preferred, VerseScore, v);
    SortDescStable(other, VerseScore, v);
  }

  /** `toResult`: translations and tafsirs ordered by language, posts by
      score, no courses or articles, the top score carried over. */
  function ToResult(g: AyahAggregate, language: string): (a: ConsolidatedAyah)
    ensures a.ayahKey == g.ayahKey && a.surah == g.surah && a.ayah == g.ayah && a.quran == g.quran
    ensures a.translations == SortByLanguage(g.translations, language)
    ensures a.tafsirs == SortByLanguage(g.tafsirs, language)
    ensures multiset(a.posts) == multiset(g.posts) && SortedDesc(a.posts, PostScore)
    ensures a.courses == [] && a.articles == []
    ensures a.topScore == g.topScore
  {
    ConsolidatedAyah(
      g.ayahKey, g.surah, g.ayah, g.quran,
      SortByLanguage(g.translations, language),
      SortByLanguage(g.tafsirs, language),
      SortDesc(g.posts, PostScore),
      [], [],
      g.topScore)
  }

  /** The result's top score is the best score among the members it lists. */
  lemma ToResultTopIsBest(g: AyahAggregate, language: string)
    requires Inv(g) && NonNegative(g) && HasMember(g)
    ensures TopIsBest(ToResult(g, language))
  {
    var a := ToResult(g, language);
    InvAttained(g);
    PermutationKeepsScores(g.translations, a.translations, VerseScore, g.topScore);
    PermutationKeepsScores(g.tafsirs, a.tafsirs, VerseScore, g.topScore);
    PermutationKeepsScores(g.posts, a.posts, PostScore, g.topScore);
  }
}
