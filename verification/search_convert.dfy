/** How `SearchService` turns retrieved memories into typed results
    (`toQuranResult`, `toTranslationResult`, `toTafsirResult`,
    `toPostResult`, `toCourseResult`, `toArticleResult`), and the two local
    verse repositories it consults (`QuranTextRepository`,
    `TranslationRepository`), given here as maps loaded beforehand. */
module Conversions {
  import opened Wrappers
  import opened Seqs
  import opened Spaces
  import opened Models
  import opened AyahKeys
  import opened TextCleaner

  /** Length at which result snippets are cut. */
  const SnippetChars: int := 400

  /** A verse known locally: its numbers, its canonical key and its text. */
  datatype VerseInfo = VerseInfo(surah: int, ayah: int, ayahKey: string, text: string)

  /** The Uthmani text of each verse (with diacritics) and one English
      translation of each verse, both by verse key. */
  datatype Repos = Repos(verses: map<string, VerseInfo>, translations: map<string, VerseInfo>)

  /** `getVerseText`: the local text of a verse; `HashMap.get(null)` finds
      nothing. */
  function VerseText(repos: Repos, key: Option<string>): (r: Option<string>)
    ensures r.Some? <==> key.Some? && key.value in repos.verses
    ensures r.Some? ==> r.value == repos.verses[key.value].text
  {
    if key.Some? && key.value in repos.verses then Some(repos.verses[key.value].text) else None
  }

  /** The Quran result built for a verse found locally: Arabic, score 0. */
  function LocalQuran(v: VerseInfo): (q: VerseResult)
    ensures q.ayahKey == Some(v.ayahKey) && q.surah == v.surah && q.ayah == v.ayah
    ensures q.text == v.text && q.lang == Some("ar") && q.score == 0.0
  {
    VerseResult(Some(v.ayahKey), v.surah, v.ayah, v.text, Some("ar"), 0.0)
  }

  /** `TranslationRepository.toTranslationResult`: English, score 0. */
  function LocalTranslation(v: VerseInfo): (t: VerseResult)
    ensures t.ayahKey == Some(v.ayahKey) && t.surah == v.surah && t.ayah == v.ayah
    ensures t.text == v.text && t.lang == Some("en") && t.score == 0.0
  {
    VerseResult(Some(v.ayahKey), v.surah, v.ayah, v.text, Some("en"), 0.0)
  }

  // ---------------------------------------------------------------------------
  // Conversions

  /** The verse-level fields every Quran, translation and tafsir hit shares:
      `ayah_key`, the numbers from `AyahParts.from`, `lang` and the score. */
  function VerseFields(hit: MemoryHit, text: string): (v: VerseResult)
    ensures v.ayahKey == GetString(hit.metadata, "ayah_key")
    ensures (v.surah, v.ayah) == PartsFrom(hit.metadata, v.ayahKey)
    ensures v.text == text && v.lang == GetString(hit.metadata, "lang") && v.score == hit.score
  {
    var key := GetString(hit.metadata, "ayah_key");
    var parts := PartsFrom(hit.metadata, key);
    VerseResult(key, parts.0, parts.1, text, GetString(hit.metadata, "lang"), hit.score)
  }

  /** `toQuranResult`: the local text of the verse when there is one, else the
      retrieved text. */
  function ToQuranResult(repos: Repos, hit: MemoryHit): (q: VerseResult)
    ensures q == VerseFields(hit, VerseText(repos, GetString(hit.metadata, "ayah_key")).GetOr(hit.text))
  {
    var key := GetString(hit.metadata, "ayah_key");
    VerseFields(hit, VerseText(repos, key).GetOr(hit.text))
  }

  /** `toTranslationResult`: the retrieved text as is. */
  function ToTranslationResult(hit: MemoryHit): (t: VerseResult) {
    VerseFields(hit, hit.text)
  }

  /** `toTafsirResult`: the retrieved text cleaned and cut to 400 characters. */
  function ToTafsirResult(hit: MemoryHit): (t: VerseResult) {
    VerseFields(hit, CleanSnippet(Some(hit.text), SnippetChars))
  }

  /** `toPostResult`. */
  function ToPostResult(hit: MemoryHit): (p: PostResult) {
    PostResult(
      GetString(hit.metadata, "post_id"),
      CleanSnippet(Some(hit.text), SnippetChars),
      GetStringList(hit.metadata, "ayah_keys"),
      GetString(hit.metadata, "category"),
      hit.score)
  }

  /** `toCourseResult`. */
  function ToCourseResult(hit: MemoryHit): (c: CourseResult) {
    CourseResult(
      GetString(hit.metadata, "course_id"),
      CleanSnippet(Some(hit.text), SnippetChars),
      GetStringList(hit.metadata, "tags"),
      hit.score)
  }

  /** `toArticleResult`. */
  function ToArticleResult(hit: MemoryHit): (a: ArticleResult) {
    ArticleResult(
      GetString(hit.metadata, "slug"),
      CleanSnippet(Some(hit.text), SnippetChars),
      hit.score)
  }

  /** A Quran result carries the local text when the repository knows its
      key, and the retrieved text otherwise. */
  lemma QuranTextPrefersRepository(repos: Repos, hit: MemoryHit)
    ensures GetString(hit.metadata, "ayah_key").Some? && GetString(hit.metadata, "ayah_key").value in repos.verses ==>
      ToQuranResult(repos, hit).text == repos.verses[GetString(hit.metadata, "ayah_key").value].text
    ensures GetString(hit.metadata, "ayah_key").None? || GetString(hit.metadata, "ayah_key").value !in repos.verses ==>
      ToQuranResult(repos, hit).text == hit.text
    ensures ToQuranResult(repos, hit).score == hit.score
  {
  }

  /** Snippets of tafsirs, posts, courses and articles are at most 403
      characters long and free of Markdown code ticks; every conversion keeps
      the hit's score. */
  lemma SnippetsBounded(hit: MemoryHit)
    ensures |ToTafsirResult(hit).text| <= SnippetChars + 3 && '`' !in ToTafsirResult(hit).text
    ensures |ToPostResult(hit).text| <= SnippetChars + 3 && '`' !in ToPostResult(hit).text
    ensures |ToCourseResult(hit).text| <= SnippetChars + 3 && '`' !in ToCourseResult(hit).text
    ensures |ToArticleResult(hit).text| <= SnippetChars + 3 && '`' !in ToArticleResult(hit).text
    ensures ToTafsirResult(hit).score == hit.score && ToPostResult(hit).score == hit.score
    ensures ToCourseResult(hit).score == hit.score && ToArticleResult(hit).score == hit.score
  {
    CleanFits(hit.text);
  }

  /** A snippet cut at 400 characters has at most 403. */
  lemma CleanFits(text: string)
    ensures |CleanSnippet(Some(text), SnippetChars)| <= SnippetChars + 3
  {
  }

  // ---------------------------------------------------------------------------
  // Buckets

  /** Whether a hit came from space `t`. */
  function FromSpace(t: SpaceType): MemoryHit -> bool {
    (h: MemoryHit) => h.space == t
  }

  /** The hits of one space, in retrieval order (the `switch` over
      `hit.spaceType()` appending to one list per space). */
  function Bucket(hits: seq<MemoryHit>, t: SpaceType): (r: seq<MemoryHit>)
    ensures forall k :: 0 <= k < |r| ==> r[k].space == t && r[k] in hits
    ensures forall k :: 0 <= k < |hits| && hits[k].space == t ==> hits[k] in r
  {
    Filter(hits, FromSpace(t))
  }

  function QuranResults(repos: Repos, hits: seq<MemoryHit>): (r: seq<VerseResult>)
    ensures |r| == |hits|
    ensures forall k :: 0 <= k < |r| ==> r[k] == ToQuranResult(repos, hits[k])
  {
    seq(|hits|, k requires 0 <= k < |hits| => ToQuranResult(repos, hits[k]))
  }

  function TranslationResults(hits: seq<MemoryHit>): (r: seq<VerseResult>)
    ensures |r| == |hits|
    ensures forall k :: 0 <= k < |r| ==> r[k] == ToTranslationResult(hits[k])
  {
    seq(|hits|, k requires 0 <= k < |hits| => ToTranslationResult(hits[k]))
  }

  function TafsirResults(hits: seq<MemoryHit>): (r: seq<VerseResult>)
    ensures |r| == |hits|
    ensures forall k :: 0 <= k < |r| ==> r[k] == ToTafsirResult(hits[k])
  {
    seq(|hits|, k requires 0 <= k < |hits| => ToTafsirResult(hits[k]))
  }

  function PostResults(hits: seq<MemoryHit>): (r: seq<PostResult>)
    ensures |r| == |hits|
    ensures forall k :: 0 <= k < |r| ==> r[k] == ToPostResult(hits[k])
  {
    seq(|hits|, k requires 0 <= k < |hits| => ToPostResult(hits[k]))
  }

  function CourseResults(hits: seq<MemoryHit>): (r: seq<CourseResult>)
    ensures |r| == |hits|
    ensures forall k :: 0 <= k < |r| ==> r[k] == ToCourseResult(hits[k])
  {
    seq(|hits|, k requires 0 <= k < |hits| => ToCourseResult(hits[k]))
  }

  function ArticleResults(hits: seq<MemoryHit>): (r: seq<ArticleResult>)
    ensures |r| == |hits|
    ensures forall k :: 0 <= k < |r| ==> r[k] == ToArticleResult(hits[k])
  {
    seq(|hits|, k requires 0 <= k < |hits| => ToArticleResult(hits[k]))
  }

  /** The six buckets one after another. */
  function AllBuckets(hits: seq<MemoryHit>): seq<MemoryHit> {
    Bucket(hits, Quran) + Bucket(hits, Translation) + Bucket(hits, Tafsir)
      + Bucket(hits, Post) + Bucket(hits, Course) + Bucket(hits, Article)
  }

  /** Every hit lands in exactly one bucket: the buckets together are as
      long as the retrieved list, and each hit is in the bucket of its space. */
  lemma {:induction false} BucketsPartition(hits: seq<MemoryHit>)
    ensures |AllBuckets(hits)| == |hits|
    ensures forall k :: 0 <= k < |hits| ==> hits[k] in Bucket(hits, hits[k].space)
    decreases |hits|
  {
    if |hits| > 0 {
      BucketsPartition(hits[1..]);
      var h := hits[0];
      var rest := hits[1..];
      BucketLength(hits, Quran);
      BucketLength(hits, Translation);
      BucketLength(hits, Tafsir);
      BucketLength(hits, Post);
      BucketLength(hits, Course);
      BucketLength(hits, Article);
      match h.space
      case Quran =>
      case Translation =>
      case Tafsir =>
      case Post =>
      case Course =>
      case Article =>
    }
  }

  lemma BucketLength(hits: seq<MemoryHit>, t: SpaceType)
    requires |hits| > 0
    ensures |Bucket(hits, t)| == (if hits[0].space == t then 1 else 0) + |Bucket(hits[1..], t)|
  {
  }
}
