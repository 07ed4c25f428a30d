/** The six content spaces a search can cover (`SpaceType`), with their API
    names, environment-variable suffixes and the alias-tolerant parser. */
module Spaces {
  import opened Wrappers
  import opened Text

  datatype SpaceType = Quran | Translation | Tafsir | Post | Course | Article

  /** `SpaceType.values()`, in declaration order. */
  const AllTypes: seq<SpaceType> := [Quran, Translation, Tafsir, Post, Course, Article]

  /** `EnumSet.allOf(SpaceType.class)`. */
  const AllSpaces: set<SpaceType> := {Quran, Translation, Tafsir, Post, Course, Article}

  lemma AllTypesEnumeratesAllSpaces(t: SpaceType)
    ensures t in AllTypes && t in AllSpaces && |AllSpaces| == 6
  {
    assert AllSpaces == set u | u in AllTypes;
  }

  /** The lower-case name used on the wire (`apiName()`). */
  function ApiName(t: SpaceType): string {
    match t
    case Quran => "quran"
    case Translation => "translation"
    case Tafsir => "tafsir"
    case Post => "post"
    case Course => "course"
    case Article => "article"
  }

  /** The enum constant's own name (`envKey()` returns `name()`), used as the
      suffix of the `GOODMEM_SPACE_<TYPE>` environment variables. */
  function EnvKey(t: SpaceType): string {
    match t
    case Quran => "QURAN"
    case Translation => "TRANSLATION"
    case Tafsir => "TAFSIR"
    case Post => "POST"
    case Course => "COURSE"
    case Article => "ARTICLE"
  }

  /** The spellings `fromString` accepts for each constant, after trimming and
      lower-casing: singular and plural, except that the Quran space has no
      plural form. */
  function Aliases(t: SpaceType): set<string> {
    match t
    case Quran => {"quran"}
    case Translation => {"translation", "translations"}
    case Tafsir => {"tafsir", "tafsirs"}
    case Post => {"post", "posts"}
    case Course => {"course", "courses"}
    case Article => {"article", "articles"}
  }

  /** `raw.trim().toLowerCase(Locale.ROOT)`. */
  function Normalize(raw: string): string {
    ToLower(Trim(raw))
  }

  /** The `switch` of `fromString` over an already normalised name. */
  function Recognize(n: string): (r: Option<SpaceType>) {
    if n == "quran" then Some(Quran)
    else if n == "translation" || n == "translations" then Some(Translation)
    else if n == "tafsir" || n == "tafsirs" then Some(Tafsir)
    else if n == "post" || n == "posts" then Some(Post)
    else if n == "course" || n == "courses" then Some(Course)
    else if n == "article" || n == "articles" then Some(Article)
    else None
  }

  /** `SpaceType.fromString`: `None` for a `null` input or an unrecognised
      name. */
  function FromString(raw: Option<string>): (r: Option<SpaceType>)
    ensures raw.None? ==> r.None?
    ensures raw.Some? ==> r == Recognize(Normalize(raw.value))
  {
    if raw.None? then None else Recognize(Normalize(raw.value))
  }

  /** The switch recognises exactly the aliases of each constant. */
  lemma RecognizeIffAlias(n: string, t: SpaceType)
    ensures Recognize(n) == Some(t) <==> n in Aliases(t)
  {
    match t
    case Quran =>
    case Translation =>
    case Tafsir =>
    case Post =>
    case Course =>
    case Article =>
  }

  /** `fromString` recognises exactly the aliases of each constant. */
  lemma FromStringIffAlias(raw: string, t: SpaceType)
    ensures FromString(Some(raw)) == Some(t) <==> Normalize(raw) in Aliases(t)
  {
    RecognizeIffAlias(Normalize(raw), t);
  }

  /** A name that is no constant's alias is rejected. */
  lemma FromStringRejectsOthers(raw: string)
    requires forall t :: Normalize(raw) !in Aliases(t)
    ensures FromString(Some(raw)) == None
  {
    var n := Normalize(raw);
    assert n !in Aliases(Quran) && n !in Aliases(Translation) && n !in Aliases(Tafsir);
    assert n !in Aliases(Post) && n !in Aliases(Course) && n !in Aliases(Article);
    RecognizeRejects(n);
  }

  lemma RecognizeRejects(n: string)
    requires n !in Aliases(Quran) && n !in Aliases(Translation) && n !in Aliases(Tafsir)
    requires n !in Aliases(Post) && n !in Aliases(Course) && n !in Aliases(Article)
    ensures Recognize(n) == None
  {
  }

  /** A word of lower-case ASCII letters is its own normal form. */
  lemma NormalizeLowerWord(w: string)
    requires |w| > 0 && forall i :: 0 <= i < |w| ==> 'a' <= w[i] <= 'z'
    ensures Normalize(w) == w
  {
    TrimOfTrimmed(w);
    LowerOfLower(w);
  }

  lemma LowerOfLower(s: string)
    requires forall i :: 0 <= i < |s| ==> !IsUpperAscii(s[i])
    ensures ToLower(s) == s
  {
  }

  lemma LowerOfUpperWord(u: string, l: string)
    requires |u| == |l|
    requires forall i :: 0 <= i < |u| ==> IsUpperAscii(u[i]) && l[i] as int == u[i] as int + 32
    ensures ToLower(u) == l
  {
  }

  /** Round trip: every constant's API name parses back to it. */
  lemma FromStringApiName(t: SpaceType)
    ensures FromString(Some(ApiName(t))) == Some(t)
  {
    match t
    case Quran => WordParses(ApiName(t), "quran", Some(Quran));
    case Translation => WordParses(ApiName(t), "translation", Some(Translation));
    case Tafsir => WordParses(ApiName(t), "tafsir", Some(Tafsir));
    case Post => WordParses(ApiName(t), "post", Some(Post));
    case Course => WordParses(ApiName(t), "course", Some(Course));
    case Article => WordParses(ApiName(t), "article", Some(Article));
  }

  /** Plural spellings are accepted for every constant except `QURAN`. */
  lemma FromStringPlural(t: SpaceType)
    ensures FromString(Some(ApiName(t) + "s")) == (if t == Quran then None else Some(t))
  {
    var p := ApiName(t) + "s";
    match t
    case Quran => WordParses(p, "qurans", None);
    case Translation => WordParses(p, "translations", Some(Translation));
    case Tafsir => WordParses(p, "tafsirs", Some(Tafsir));
    case Post => WordParses(p, "posts", Some(Post));
    case Course => WordParses(p, "courses", Some(Course));
    case Article => WordParses(p, "articles", Some(Article));
  }

  lemma WordParses(p: string, w: string, r: Option<SpaceType>)
    requires p == w && |w| > 0 && (forall i :: 0 <= i < |w| ==> 'a' <= w[i] <= 'z')
    requires Recognize(w) == r
    ensures FromString(Some(p)) == r
  {
    NormalizeLowerWord(w);
  }

  /** The environment key is the upper-cased API name, so it parses back to
      the same constant. */
  lemma EnvKeyIsUpperApiName(t: SpaceType)
    ensures ToLower(EnvKey(t)) == ApiName(t)
    ensures FromString(Some(EnvKey(t))) == Some(t)
  {
    var e := EnvKey(t);
    var a := ApiName(t);
    assert |e| == |a| && forall i :: 0 <= i < |e| ==> IsUpperAscii(e[i]) && a[i] as int == e[i] as int + 32 by {
      match t
      case Quran =>
      case Translation =>
      case Tafsir =>
      case Post =>
      case Course =>
      case Article =>
    }
    LowerOfUpperWord(e, a);
    EnvKeyParses(e, a, t);
  }

  lemma EnvKeyParses(e: string, a: string, t: SpaceType)
    requires ToLower(e) == a && a == ApiName(t)
    requires e == [] || (!IsTrimmable(e[0]) && !IsTrimmable(e[|e| - 1]))
    ensures FromString(Some(e)) == Some(t)
  {
    TrimOfTrimmed(e);
    assert Normalize(e) == a;
    FromStringApiName(t);
    assert Recognize(Normalize(a)) == Some(t);
    NormalizeLowerWordOf(t);
  }

  lemma NormalizeLowerWordOf(t: SpaceType)
    ensures Normalize(ApiName(t)) == ApiName(t)
  {
    NormalizeLowerWord(ApiName(t));
  }

  /** Surrounding whitespace and letter case never change the outcome: a
      padded name and any spelling of it that differs only in ASCII letter
      case are read as the same constant, or both rejected. */
  lemma FromStringIgnoresCaseAndPadding(pad: string, a: string, b: string)
    requires forall k :: 0 <= k < |pad| ==> IsTrimmable(pad[k])
    requires |a| > 0 && !IsTrimmable(a[0]) && !IsTrimmable(a[|a| - 1])
    requires EqualsIgnoreCase(a, b)
    ensures FromString(Some(pad + a + pad)) == FromString(Some(b))
  {
    TrimAroundPadding(pad, a);
    assert |b| == |a|;
    assert LowerChar(b[0]) == LowerChar(a[0]) && LowerChar(b[|b| - 1]) == LowerChar(a[|a| - 1]);
    TrimOfTrimmed(b);
  }

  lemma NormalizeIdempotent(raw: string)
    ensures Normalize(Normalize(raw)) == Normalize(raw)
  {
    var t := Trim(raw);
    var l := ToLower(t);
    assert l == [] || (!IsTrimmable(l[0]) && !IsTrimmable(l[|l| - 1]));
    TrimOfTrimmed(l);
    LowerOfLower(l);
  }
}
