/** The records exchanged by the search server and shown by the frontend
    (`Models`, the TypeScript `types`), the retrieval hit the GoodMem client
    hands back (`MemoryHit`), and the decoded JSON metadata those hits carry
    together with the accessors that read it (`getString`, `getInt`,
    `getStringList`). Descriptive fields that are copied verbatim and never
    inspected (edition, author, url, user and lesson names) are omitted. */
module Models {
  import opened Wrappers
  import opened Text
  import opened Spaces
  import opened Seqs

  // ---------------------------------------------------------------------------
  // JSON metadata

  /** A decoded JSON value. Numbers are integral; fractional numbers are not
      modelled. */
  datatype Json =
    | JNull
    | JBool(b: bool)
    | JInt(n: int)
    | JText(s: string)
    | JArray(items: seq<Json>)
    | JObject(fields: map<string, Json>)

  /** `node.get(field)` when it is neither absent nor JSON `null`; every
      non-object node has no fields. */
  function Field(node: Json, name: string): (r: Option<Json>)
    ensures r.Some? ==> node.JObject? && name in node.fields && r.value == node.fields[name] && !r.value.JNull?
  {
    if node.JObject? && name in node.fields && !node.fields[name].JNull? then Some(node.fields[name])
    else None
  }

  /** Decimal rendering of an integer with a leading minus sign when negative
      (`Long.toString`, `String.valueOf`). */
  function IntToString(n: int): (r: string)
    ensures |r| >= 1
    ensures n >= 0 ==> r == NatToString(n)
    ensures n < 0 ==> r == "-" + NatToString(-n)
  {
    if n < 0 then "-" + NatToString(-n) else NatToString(n)
  }

  /** Reading back the rendering of a 32-bit integer gives the integer. */
  lemma ParseIntOfIntToString(n: int)
    requires InInt32(n)
    ensures ParseInt(IntToString(n)) == Some(n)
  {
    if n < 0 {
      ParseIntOfNegative(-n);
    } else {
      ParseIntOfNatToString(n);
    }
  }

  lemma ParseIntOfNegative(m: nat)
    requires 0 < m <= -IntMin
    ensures ParseInt("-" + NatToString(m)) == Some(-(m as int))
  {
    var s := "-" + NatToString(m);
    assert s[0] == '-';
    assert s[1..] == NatToString(m);
    DigitsValueOfNatToString(m);
  }

  /** `JsonNode.asText()`: the text of a scalar, `""` for a container. */
  function AsText(v: Json): string {
    match v
    case JNull => "null"
    case JBool(b) => if b then "true" else "false"
    case JInt(n) => IntToString(n)
    case JText(s) => s
    case JArray(_) => ""
    case JObject(_) => ""
  }

  // ---------------------------------------------------------------------------
  // Integral JSON numbers as `getString` reads them: through a `double`

  /** The range of a Java `long`. */
  const LongMin: int := -0x8000_0000_0000_0000
  const LongMax: int := 0x7FFF_FFFF_FFFF_FFFF

  /** 2^53: every integer of at most this magnitude is a `double`. */
  const ExactLimit: nat := 0x20_0000_0000_0000

  /** 2 to the power `k`. */
  function Pow2(k: nat): (p: nat)
    ensures p >= 1
  {
    if k == 0 then 1 else 2 * Pow2(k - 1)
  }

  lemma {:induction false} Pow2Add(a: nat, b: nat)
    ensures Pow2(a + b) == Pow2(a) * Pow2(b)
    decreases a
  {
    if a > 0 {
      Pow2Add(a - 1, b);
      assert Pow2(a + b) == 2 * Pow2(a - 1 + b);
    }
  }

  lemma {:induction false} Pow2Mono(a: nat, b: nat)
    requires a <= b
    ensures Pow2(a) <= Pow2(b)
    decreases b
  {
    if a < b {
      Pow2Mono(a, b - 1);
    }
  }

  /** 2^63 is one past the largest `long`. */
  lemma Pow2Of63()
    ensures Pow2(63) == -LongMin
  {
    Pow2Of32();
    Pow2Of31();
    Pow2Add(32, 31);
  }

  lemma Pow2Of8()
    ensures Pow2(8) == 0x100
  {
    assert Pow2(4) == 16;
    Pow2Add(4, 4);
  }

  lemma Pow2Of32()
    ensures Pow2(32) == 0x1_0000_0000
  {
    Pow2Of8();
    Pow2Add(8, 8);
    Pow2Add(16, 16);
  }

  lemma Pow2Of31()
    ensures Pow2(31) == 0x8000_0000
  {
    Pow2Of8();
    Pow2Add(8, 8);
    Pow2Add(16, 8);
    assert Pow2(7) == 0x80;
    Pow2Add(24, 7);
  }

  /** How many low bits of `m` a `double` cannot hold: the spacing of the
      doubles around `m` is `2^k`. */
  function ExcessBits(m: nat): (k: nat)
    ensures m < ExactLimit * Pow2(k)
    ensures k > 0 ==> ExactLimit * Pow2(k - 1) <= m
    decreases m
  {
    if m < ExactLimit then 0
    else
      var k := 1 + ExcessBits(m / 2);
      assert m / 2 < ExactLimit * Pow2(k - 1);
      assert Pow2(k) == 2 * Pow2(k - 1);
      k
  }

  /** The quotient of `m` by `p`, rounded to the nearer integer, and on a tie
      to the even one. */
  function RoundedQuotient(m: nat, p: nat): (q: nat)
    requires p >= 1
    ensures m / p <= q <= m / p + 1
    ensures m % p == 0 ==> q == m / p
  {
    var q := m / p;
    var rem := m % p;
    if 2 * rem < p || (2 * rem == p && q % 2 == 0) then q else q + 1
  }

  /** The `double` nearest to a non-negative integer, ties to even. */
  function DoubleMagnitude(m: nat): nat {
    var p := Pow2(ExcessBits(m));
    RoundedQuotient(m, p) * p
  }

  /** `node.asDouble()` of an integral JSON number: the nearest `double`,
      ties to even. Beyond the largest `double` Java gives infinity, which
      the cast below treats like any number above the `long` range. */
  function AsDouble(n: int): (d: int)
    ensures -(ExactLimit as int) <= n <= ExactLimit ==> d == n
    ensures n > LongMax ==> d > LongMax
    ensures n < LongMin ==> d <= LongMin
  {
    var m: nat := if n < 0 then -n else n;
    ExactBelowLimit(m);
    SaturatesAbove(m);
    if n < 0 then -(DoubleMagnitude(m) as int) else DoubleMagnitude(m)
  }

  /** `(long) node.asDouble()` for an integral JSON number: exact up to 2^53
      in magnitude, rounded beyond, and saturating outside the `long`
      range. */
  function NumberAsLong(n: int): (r: int)
    ensures LongMin <= r <= LongMax
    ensures -(ExactLimit as int) <= n <= ExactLimit ==> r == n
    ensures n > LongMax ==> r == LongMax
    ensures n < LongMin ==> r == LongMin
  {
    var d := AsDouble(n);
    if d > LongMax then LongMax else if d < LongMin then LongMin else d
  }

  /** Integers up to 2^53 are their own `double`. */
  lemma ExactBelowLimit(m: nat)
    ensures m <= ExactLimit ==> DoubleMagnitude(m) == m
  {
    if m <= ExactLimit {
      var k := ExcessBits(m);
      if k > 0 {
        assert m == ExactLimit && k == 1;
        assert Pow2(1) == 2;
        assert m % 2 == 0 && m / 2 * 2 == m;
      } else {
        assert Pow2(0) == 1;
      }
    }
  }

  /** Rounding never brings a magnitude of at least 2^63 below 2^63. */
  lemma SaturatesAbove(m: nat)
    ensures m >= -LongMin ==> DoubleMagnitude(m) >= -LongMin
  {
    if m >= -LongMin {
      var k := ExcessBits(m);
      var p := Pow2(k);
      var j: nat;
      if k <= 63 {
        Pow2Add(63 - k, k);
        Pow2Of63();
        j := Pow2(63 - k);
      } else {
        Pow2Mono(63, k);
        Pow2Of63();
        Pow2Add(k - 1, 1);
        assert Pow2(1) == 2;
        j := ExactLimit / 2;
        assert j * p == ExactLimit * Pow2(k - 1);
      }
      assert j * p <= m;
      assert j * p >= -LongMin;
      MultipleBelow(m, j, p);
      MulMono(j, RoundedQuotient(m, p), p);
    }
  }

  lemma MultipleBelow(m: nat, j: nat, p: nat)
    requires p >= 1 && j * p <= m
    ensures j <= m / p
  {
    var q := m / p;
    if q < j {
      assert m == q * p + m % p && m % p < p;
      assert (q + 1) * p == q * p + p;
      MulMono(q + 1, j, p);
    }
  }

  lemma MulMono(a: nat, b: nat, p: nat)
    requires a <= b
    ensures a * p <= b * p
  {
  }

  /** 2^53 + 1 is not a `double`; it rounds to the even neighbour 2^53. */
  lemma LargeNumbersCollide()
    ensures NumberAsLong(ExactLimit + 1) == ExactLimit
  {
    assert ExcessBits(ExactLimit + 1) == 1;
    assert Pow2(1) == 2;
  }

  /** `getString(meta, field)`: `None` for an absent or `null` field; a
      number is read as a `double` and, being integral, written as the
      `long` it casts to; anything else is the field's text. */
  function GetString(meta: Json, name: string): (r: Option<string>)
    ensures Field(meta, name).None? <==> r.None?
    ensures Field(meta, name).Some? && !Field(meta, name).value.JInt? ==> r == Some(AsText(Field(meta, name).value))
    ensures Field(meta, name).Some? && Field(meta, name).value.JInt? ==>
      r == Some(IntToString(NumberAsLong(Field(meta, name).value.n)))
  {
    match Field(meta, name)
    case None => None
    case Some(JInt(n)) => Some(IntToString(NumberAsLong(n)))
    case Some(v) => Some(AsText(v))
  }

  /** Two different numeric ids just above 2^53 read as the same text: the
      `double` between them cannot tell them apart. */
  lemma GetStringMergesLargeIds(name: string)
    ensures GetString(JObject(map[name := JInt(ExactLimit + 1)]), name)
      == GetString(JObject(map[name := JInt(ExactLimit)]), name)
      == Some(IntToString(ExactLimit))
  {
    LargeNumbersCollide();
    var a := JObject(map[name := JInt(ExactLimit + 1)]);
    var b := JObject(map[name := JInt(ExactLimit)]);
    assert Field(a, name) == Some(JInt(ExactLimit + 1));
    assert Field(b, name) == Some(JInt(ExactLimit));
  }

  /** `(int)` of a wider integer: the low 32 bits, read as two's complement. */
  function Wrap32(n: int): (r: int)
    ensures InInt32(r)
    ensures (r - n) % 0x1_0000_0000 == 0
    ensures InInt32(n) ==> r == n
  {
    (n - IntMin) % 0x1_0000_0000 + IntMin
  }

  /** `getInt(meta, field)`: a number is narrowed to 32 bits, anything else is
      read as trimmed decimal text; an absent, `null` or unparseable field
      gives 0. */
  function GetInt(meta: Json, name: string): (r: int)
    ensures InInt32(r)
    ensures Field(meta, name).None? ==> r == 0
  {
    match Field(meta, name)
    case None => 0
    case Some(JInt(n)) => Wrap32(n)
    case Some(v) => ParseInt(Trim(AsText(v))).GetOr(0)
  }

  /** `getStringList(meta, field)`: the texts of the non-`null` items of an
      array, or the single text of a scalar; empty when the field is absent. */
  function GetStringList(meta: Json, name: string): (r: seq<string>)
    ensures Field(meta, name).None? ==> r == []
    ensures Field(meta, name).Some? && !Field(meta, name).value.JArray? ==> r == [AsText(Field(meta, name).value)]
    ensures Field(meta, name).Some? && Field(meta, name).value.JArray? ==>
      forall t :: t in r <==> TextAmong(Field(meta, name).value.items, t)
  {
    match Field(meta, name)
    case None => []
    case Some(JArray(items)) => TextsOf(items)
    case Some(v) => [AsText(v)]
  }

  /** The loop over an array's items: `asText()` of each non-`null` item,
      in item order, and nothing else. */
  function TextsOf(items: seq<Json>): (r: seq<string>)
    ensures r == Texts(Filter(items, NonNull()))
    ensures forall t :: t in r <==> TextAmong(items, t)
    decreases |items|
  {
    if |items| == 0 then []
    else
      var kept := if items[0].JNull? then [] else [items[0]];
      assert Filter(items, NonNull()) == kept + Filter(items[1..], NonNull());
      TextsAppend(kept, Filter(items[1..], NonNull()));
      TextAmongCons(items);
      Texts(kept) + TextsOf(items[1..])
  }

  lemma TextsAppend(a: seq<Json>, b: seq<Json>)
    ensures Texts(a + b) == Texts(a) + Texts(b)
  {
  }

  /** Some non-`null` item of `items` has text `t`. */
  predicate TextAmong(items: seq<Json>, t: string) {
    exists i :: 0 <= i < |items| && !items[i].JNull? && AsText(items[i]) == t
  }

  lemma TextAmongCons(items: seq<Json>)
    requires |items| > 0
    ensures forall t :: TextAmong(items, t) <==>
      (!items[0].JNull? && AsText(items[0]) == t) || TextAmong(items[1..], t)
  {
    forall t | TextAmong(items, t)
      ensures (!items[0].JNull? && AsText(items[0]) == t) || TextAmong(items[1..], t)
    {
      var i :| 0 <= i < |items| && !items[i].JNull? && AsText(items[i]) == t;
      if i > 0 {
        assert items[1..][i - 1] == items[i];
      }
    }
    forall t | TextAmong(items[1..], t) ensures TextAmong(items, t) {
      var i :| 0 <= i < |items[1..]| && !items[1..][i].JNull? && AsText(items[1..][i]) == t;
      assert items[i + 1] == items[1..][i];
    }
  }

  /** Whether a JSON value is not `null`. */
  function NonNull(): Json -> bool {
    (v: Json) => !v.JNull?
  }

  /** `asText()` of each value, in order. */
  function Texts(vs: seq<Json>): (r: seq<string>)
    ensures |r| == |vs| && forall i :: 0 <= i < |r| ==> r[i] == AsText(vs[i])
  {
    seq(|vs|, i requires 0 <= i < |vs| => AsText(vs[i]))
  }

  /** A 32-bit integer field reads back the same whether the metadata holds it
      as a number or as text, padded or not. */
  lemma GetIntReadsNumbersAndText(n: int, name: string, pad: string)
    requires InInt32(n)
    requires forall k :: 0 <= k < |pad| ==> IsTrimmable(pad[k])
    ensures GetInt(JObject(map[name := JInt(n)]), name) == n
    ensures GetInt(JObject(map[name := JText(pad + IntToString(n) + pad)]), name) == n
    ensures GetString(JObject(map[name := JInt(n)]), name) == Some(IntToString(n))
  {
    GetIntOfText(pad + IntToString(n) + pad, name, n, pad);
  }

  lemma GetIntOfText(s: string, name: string, n: int, pad: string)
    requires InInt32(n)
    requires forall k :: 0 <= k < |pad| ==> IsTrimmable(pad[k])
    requires s == pad + IntToString(n) + pad
    ensures GetInt(JObject(map[name := JText(s)]), name) == n
  {
    var meta := JObject(map[name := JText(s)]);
    assert Field(meta, name) == Some(JText(s));
    assert AsText(JText(s)) == s;
    TrimRendered(n, pad);
    ParseIntOfIntToString(n);
  }

  /** Padding around a rendered integer trims away to the rendering. */
  lemma TrimRendered(n: int, pad: string)
    requires forall k :: 0 <= k < |pad| ==> IsTrimmable(pad[k])
    ensures Trim(pad + IntToString(n) + pad) == IntToString(n)
  {
    var t := IntToString(n);
    assert !IsTrimmable(t[0]);
    assert !IsTrimmable(t[|t| - 1]);
    TrimAroundPadding(pad, t);
  }

  // ---------------------------------------------------------------------------
  // Search results

  /** A Quran, translation or tafsir hit (`QuranResult`, `TranslationResult`,
      `TafsirResult`); which one is fixed by where it is stored. */
  datatype VerseResult = VerseResult(
    ayahKey: Option<string>,
    surah: int,
    ayah: int,
    text: string,
    lang: Option<string>,
    score: real)

  /** `PostResult`: a reflection post, attached to zero or more verses. */
  datatype PostResult = PostResult(
    postId: Option<string>,
    text: string,
    ayahKeys: seq<string>,
    category: Option<string>,
    score: real)

  /** `CourseResult`: one lesson of a course. */
  datatype CourseResult = CourseResult(
    courseId: Option<string>,
    text: string,
    tags: seq<string>,
    score: real)

  /** `ArticleResult`. */
  datatype ArticleResult = ArticleResult(
    slug: Option<string>,
    text: string,
    score: real)

  /** A result shown on its own rather than under a verse. */
  datatype DirectHit =
    | PostHit(post: PostResult)
    | CourseHit(course: CourseResult)
    | ArticleHit(article: ArticleResult)
  {
    function Score(): real {
      match this
      case PostHit(p) => p.score
      case CourseHit(c) => c.score
      case ArticleHit(a) => a.score
    }
  }

  /** Posts, courses and articles, each wrapped as a direct hit. */
  function PostHits(ps: seq<PostResult>): (r: seq<DirectHit>)
    ensures |r| == |ps| && forall i :: 0 <= i < |r| ==> r[i] == PostHit(ps[i])
  {
    seq(|ps|, i requires 0 <= i < |ps| => PostHit(ps[i]))
  }

  function CourseHits(cs: seq<CourseResult>): (r: seq<DirectHit>)
    ensures |r| == |cs| && forall i :: 0 <= i < |r| ==> r[i] == CourseHit(cs[i])
  {
    seq(|cs|, i requires 0 <= i < |cs| => CourseHit(cs[i]))
  }

  function ArticleHits(as_: seq<ArticleResult>): (r: seq<DirectHit>)
    ensures |r| == |as_| && forall i :: 0 <= i < |r| ==> r[i] == ArticleHit(as_[i])
  {
    seq(|as_|, i requires 0 <= i < |as_| => ArticleHit(as_[i]))
  }

  /** `ConsolidatedAyahResult`: everything found for one verse. */
  datatype ConsolidatedAyah = ConsolidatedAyah(
    ayahKey: Option<string>,
    surah: int,
    ayah: int,
    quran: Option<VerseResult>,
    translations: seq<VerseResult>,
    tafsirs: seq<VerseResult>,
    posts: seq<PostResult>,
    courses: seq<CourseResult>,
    articles: seq<ArticleResult>,
    topScore: real)

  /** `SearchRequest`, as decoded from a query string or a JSON body. */
  datatype SearchRequest = SearchRequest(
    query: Option<string>,
    spaces: Option<seq<Option<string>>>,
    language: Option<string>,
    limit: Option<int>)

  /** `SearchResponse`. */
  datatype SearchResponse = SearchResponse(
    query: string,
    directHits: seq<DirectHit>,
    ayahResults: seq<ConsolidatedAyah>,
    totalResults: int)

  /** `GoodMemClient.MemoryHit`: one retrieved memory with its metadata, its
      best chunk text and that chunk's normalised score. */
  datatype MemoryHit = MemoryHit(
    space: SpaceType,
    memoryId: string,
    metadata: Json,
    text: string,
    score: real)

  function VerseScore(v: VerseResult): real { v.score }
  function PostScore(p: PostResult): real { p.score }
  function CourseScore(c: CourseResult): real { c.score }
  function ArticleScore(a: ArticleResult): real { a.score }
  function HitScore(h: DirectHit): real { h.Score() }
  function AyahScore(a: ConsolidatedAyah): real { a.topScore }

  // ---------------------------------------------------------------------------
  // Top score

  /** Every element of `s` scores at most `top`. */
  predicate AllAtMost<T>(s: seq<T>, key: T -> real, top: real) {
    forall i :: 0 <= i < |s| ==> key(s[i]) <= top
  }

  /** Some element of `s` scores exactly `top`. */
  predicate SomeAt<T>(s: seq<T>, key: T -> real, top: real) {
    exists i :: 0 <= i < |s| && key(s[i]) == top
  }

  /** No member of the group scores above its `topScore`. */
  predicate TopBoundsMembers(a: ConsolidatedAyah) {
    && (a.quran.Some? ==> a.quran.value.score <= a.topScore)
    && AllAtMost(a.translations, VerseScore, a.topScore)
    && AllAtMost(a.tafsirs, VerseScore, a.topScore)
    && AllAtMost(a.posts, PostScore, a.topScore)
    && AllAtMost(a.courses, CourseScore, a.topScore)
    && AllAtMost(a.articles, ArticleScore, a.topScore)
  }

  /** Some member of the group scores exactly its `topScore`. */
  predicate TopAttained(a: ConsolidatedAyah) {
    || (a.quran.Some? && a.quran.value.score == a.topScore)
    || SomeAt(a.translations, VerseScore, a.topScore)
    || SomeAt(a.tafsirs, VerseScore, a.topScore)
    || SomeAt(a.posts, PostScore, a.topScore)
    || SomeAt(a.courses, CourseScore, a.topScore)
    || SomeAt(a.articles, ArticleScore, a.topScore)
  }

  /** `topScore` is the best score of the group's members. */
  predicate TopIsBest(a: ConsolidatedAyah) {
    TopBoundsMembers(a) && TopAttained(a)
  }

  /** An element scoring `top` stays among the elements of any permutation. */
  lemma PermutationKeepsScores<T>(a: seq<T>, b: seq<T>, key: T -> real, top: real)
    requires multiset(a) == multiset(b)
    ensures AllAtMost(a, key, top) <==> AllAtMost(b, key, top)
    ensures SomeAt(a, key, top) <==> SomeAt(b, key, top)
  {
    forall i | 0 <= i < |b| ensures exists j :: 0 <= j < |a| && a[j] == b[i] {
      assert b[i] in multiset(a);
    }
    forall i | 0 <= i < |a| ensures exists j :: 0 <= j < |b| && b[j] == a[i] {
      assert a[i] in multiset(b);
    }
  }
}
