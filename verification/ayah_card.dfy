/** The computed parts of a verse card (`AyahCard`): the verse number in
    Arabic-Indic digits after the end-of-verse sign, the count of related
    items behind the expand button with its summary, and whether the verse
    is one of the openings in disconnected letters (Huruf Muqatta'at).
    Markup, links and the expanded/collapsed state are not modelled. */
module AyahCard {
  import opened Wrappers
  import opened Text
  import opened Models
  import opened AyahKeys

  // ---------------------------------------------------------------------------
  // Arabic-Indic numerals

  /** `arabicDigits[d]`: ARABIC-INDIC DIGIT ZERO (U+0660) plus `d`. */
  function ArabicDigit(d: nat): (c: char)
    requires d < 10
    ensures IsArabicDigit(c)
  {
    (0x0660 + d) as char
  }

  predicate IsArabicDigit(c: char) {
    0x0660 <= c as int <= 0x0669
  }

  /** The number an Arabic-Indic digit string denotes, most significant
      digit first. */
  function ArabicValue(s: string): nat
    requires forall i :: 0 <= i < |s| ==> IsArabicDigit(s[i])
  {
    if |s| == 0 then 0
    else
      assert IsArabicDigit(s[|s| - 1]);
      ArabicValue(s[..|s| - 1]) * 10 + (s[|s| - 1] as int - 0x0660)
  }

  /** The `map`/`join` over the characters of `toString()`: a decimal digit
      becomes its Arabic-Indic digit; anything else (the minus sign) indexes
      the table with `NaN`, giving `undefined`, which `join` writes as
      nothing. */
  function Transliterate(s: string): (r: string)
    ensures |r| <= |s|
    ensures forall i :: 0 <= i < |r| ==> IsArabicDigit(r[i])
    decreases |s|
  {
    if |s| == 0 then []
    else
      var head := if IsDigit(s[0]) then [ArabicDigit(DigitValue(s[0]))] else [];
      var rest := Transliterate(s[1..]);
      assert forall i :: |head| <= i < |head + rest| ==> (head + rest)[i] == rest[i - |head|];
      head + rest
  }

  /** The absolute value of `n`. */
  function Magnitude(n: int): nat {
    if n < 0 then -n else n
  }

  /** `toArabicNumerals`: one Arabic-Indic digit per decimal digit of the
      number, reading back as its magnitude (a negative number loses its
      sign). */
  function ToArabicNumerals(n: int): (r: string)
    ensures forall i :: 0 <= i < |r| ==> IsArabicDigit(r[i])
    ensures |r| == |NatToString(Magnitude(n))|
    ensures forall i :: 0 <= i < |r| ==> r[i] as int - 0x0660 == DigitValue(NatToString(Magnitude(n))[i])
    ensures ArabicValue(r) == Magnitude(n)
  {
    var s := NatToString(Magnitude(n));
    TransliterateDropsSign(n);
    NumeralsOfDigits(s);
    DigitsValueOfNatToString(Magnitude(n));
    Transliterate(IntToString(n))
  }

  /** The minus sign of a negative number has no Arabic-Indic digit. */
  lemma TransliterateDropsSign(n: int)
    ensures Transliterate(IntToString(n)) == Transliterate(NatToString(Magnitude(n)))
  {
    if n < 0 {
      var t := IntToString(n);
      assert t[1..] == NatToString(-n);
      assert !IsDigit(t[0]);
    }
  }

  /** The Arabic-Indic transliteration of a digit string: digit for digit,
      denoting the same number. */
  lemma NumeralsOfDigits(s: string)
    requires AllDigits(s)
    ensures |Transliterate(s)| == |s|
    ensures forall i :: 0 <= i < |s| ==> Transliterate(s)[i] as int - 0x0660 == DigitValue(s[i])
    ensures ArabicValue(Transliterate(s)) == DigitsValue(s)
  {
    TransliterateDigits(s);
    ArabicValueOfDigits(s);
  }

  /** On a digit string the transliteration maps digit to digit. */
  lemma {:induction false} TransliterateDigits(s: string)
    requires AllDigits(s)
    ensures |Transliterate(s)| == |s|
    ensures forall i :: 0 <= i < |s| ==> Transliterate(s)[i] == ArabicDigit(DigitValue(s[i]))
    decreases |s|
  {
    if |s| > 0 {
      TransliterateDigits(s[1..]);
      var rest := Transliterate(s[1..]);
      assert Transliterate(s) == [ArabicDigit(DigitValue(s[0]))] + rest;
    }
  }

  /** The Arabic-Indic digits of a digit string denote the same number. */
  lemma {:induction false} ArabicValueOfDigits(s: string)
    requires AllDigits(s)
    ensures |Transliterate(s)| == |s|
    ensures ArabicValue(Transliterate(s)) == DigitsValue(s)
    decreases |s|
  {
    TransliterateDigits(s);
    if |s| > 0 {
      var init := s[..|s| - 1];
      TransliterateDigits(init);
      ArabicValueOfDigits(init);
      assert Transliterate(s)[..|s| - 1] == Transliterate(init);
    }
  }

  /** `ayahMarker`: END OF AYAH (U+06DD) followed by the verse number in
      Arabic-Indic digits. */
  function AyahMarker(ayah: int): (r: string)
    ensures |r| >= 2 && r[0] == '۝'
    ensures forall i :: 1 <= i < |r| ==> IsArabicDigit(r[i])
    ensures ayah >= 0 ==> ArabicValue(r[1..]) == ayah
  {
    var digits := ToArabicNumerals(ayah);
    var r := "۝" + digits;
    assert r[1..] == digits;
    r
  }

  // ---------------------------------------------------------------------------
  // Related items

  /** One entry of the expanded section. */
  datatype Related =
    | RelatedPost(post: PostResult)
    | RelatedCourse(course: CourseResult)
    | RelatedArticle(article: ArticleResult)
    | OtherTranslation(translation: VerseResult)

  /** The expanded section's entries: every post, course and article, then
      every translation after the first (the first is shown above). Tafsirs
      are shown separately and are not listed. */
  function Expanded(a: ConsolidatedAyah): (r: seq<Related>)
    ensures |r| == |a.posts| + |a.courses| + |a.articles| + (if |a.translations| > 0 then |a.translations| - 1 else 0)
    ensures forall i :: 0 <= i < |r| && r[i].OtherTranslation? ==>
      exists j :: 1 <= j < |a.translations| && a.translations[j] == r[i].translation
  {
    var others := if |a.translations| > 0 then a.translations[1..] else [];
    seq(|a.posts|, i requires 0 <= i < |a.posts| => RelatedPost(a.posts[i]))
      + seq(|a.courses|, i requires 0 <= i < |a.courses| => RelatedCourse(a.courses[i]))
      + seq(|a.articles|, i requires 0 <= i < |a.articles| => RelatedArticle(a.articles[i]))
      + seq(|others|, i requires 0 <= i < |others| => OtherTranslation(others[i]))
  }

  /** `extraTranslations`: the translations beyond the first. */
  function ExtraTranslations(a: ConsolidatedAyah): (n: nat)
    ensures |a.translations| > 0 ==> n == |a.translations[1..]|
    ensures |a.translations| == 0 ==> n == 0
  {
    if |a.translations| - 1 > 0 then |a.translations| - 1 else 0
  }

  /** `totalRelated`: as many as the expanded section lists, so the button
      appears exactly when there is something to expand. */
  function TotalRelated(a: ConsolidatedAyah): (n: nat)
    ensures n == |Expanded(a)|
    ensures n > 0 <==> |a.posts| > 0 || |a.courses| > 0 || |a.articles| > 0 || |a.translations| > 1
  {
    |a.posts| + |a.courses| + |a.articles| + ExtraTranslations(a)
  }

  /** Neither the tafsirs nor the first translation change the count. */
  lemma TotalRelatedIgnoresShownItems(a: ConsolidatedAyah, tafsirs: seq<VerseResult>, first: VerseResult)
    requires |a.translations| > 0
    ensures TotalRelated(a.(tafsirs := tafsirs)) == TotalRelated(a)
    ensures TotalRelated(a.(translations := [first] + a.translations[1..])) == TotalRelated(a)
  {
  }

  /** The parenthesised summary: a count and a noun for each kind present,
      in the order posts, courses, articles, more translations. */
  function SummaryParts(a: ConsolidatedAyah): (parts: seq<(nat, string)>)
    ensures forall i :: 0 <= i < |parts| ==> parts[i].0 > 0
    ensures |parts| <= 4
  {
    var all := [(|a.posts|, "posts"), (|a.courses|, "courses"), (|a.articles|, "articles"),
      (ExtraTranslations(a), "more translations")];
    Present(all)
  }

  /** The parts with a non-zero count (`filter(Boolean)` drops the `false`
      left by a zero count). */
  function Present(parts: seq<(nat, string)>): (r: seq<(nat, string)>)
    ensures |r| <= |parts|
    ensures forall i :: 0 <= i < |r| ==> r[i].0 > 0
    decreases |parts|
  {
    if |parts| == 0 then []
    else if parts[0].0 > 0 then [parts[0]] + Present(parts[1..])
    else Present(parts[1..])
  }

  function Total(parts: seq<(nat, string)>): nat
    decreases |parts|
  {
    if |parts| == 0 then 0 else parts[0].0 + Total(parts[1..])
  }

  /** Dropping the empty kinds loses nothing from the total. */
  lemma {:induction false} PresentKeepsTotal(parts: seq<(nat, string)>)
    ensures Total(Present(parts)) == Total(parts)
    decreases |parts|
  {
    if |parts| > 0 {
      PresentKeepsTotal(parts[1..]);
      if parts[0].0 > 0 {
        assert ([parts[0]] + Present(parts[1..]))[1..] == Present(parts[1..]);
      }
    }
  }

  /** The counts in the summary add up to the number on the button. */
  lemma SummaryAddsUp(a: ConsolidatedAyah)
    ensures Total(SummaryParts(a)) == TotalRelated(a)
  {
    var all := [(|a.posts|, "posts"), (|a.courses|, "courses"), (|a.articles|, "articles"),
      (ExtraTranslations(a), "more translations")];
    PresentKeepsTotal(all);
    assert all[1..][1..][1..][1..] == [];
    assert Total(all[1..][1..][1..]) == ExtraTranslations(a);
    assert Total(all[1..][1..]) == |a.articles| + ExtraTranslations(a);
  }

  // ---------------------------------------------------------------------------
  // Huruf Muqatta'at

  /** `HURUF_MUQATTAAT_VERSES`, in the order listed. */
  const HurufVerses: seq<string> := [
    "2:1", "3:1", "7:1", "10:1", "11:1", "12:1", "13:1", "14:1", "15:1",
    "19:1", "20:1", "26:1", "27:1", "28:1", "29:1", "30:1", "31:1", "32:1",
    "36:1", "38:1", "40:1", "41:1", "42:1", "43:1", "44:1", "45:1", "46:1",
    "50:1", "68:1"]

  /** The surahs that open with disconnected letters, in the same order. */
  const HurufSurahs: seq<nat> := [
    2, 3, 7, 10, 11, 12, 13, 14, 15, 19, 20, 26, 27, 28, 29, 30, 31, 32,
    36, 38, 40, 41, 42, 43, 44, 45, 46, 50, 68]

  /** Each listed key is the canonical key of the first verse of a surah. */
  lemma HurufVersesAreFirstVerses()
    ensures |HurufVerses| == |HurufSurahs| == 29
    ensures forall i :: 0 <= i < |HurufSurahs| ==> 1 <= HurufSurahs[i] <= SurahCount
    ensures forall i :: 0 <= i < |HurufVerses| ==> HurufVerses[i] == FormatKey(HurufSurahs[i], 1)
  {
    HurufKeysLow();
    HurufKeysMiddle();
    HurufKeysHigh();
  }

  /** The first ten listed keys. */
  lemma HurufKeysLow()
    ensures forall i :: 0 <= i < 10 ==> HurufVerses[i] == FormatKey(HurufSurahs[i], 1)
  {
  }

  /** The next ten listed keys. */
  lemma HurufKeysMiddle()
    ensures forall i :: 10 <= i < 20 ==> HurufVerses[i] == FormatKey(HurufSurahs[i], 1)
  {
  }

  /** The last nine listed keys. */
  lemma HurufKeysHigh()
    ensures forall i :: 20 <= i < 29 ==> HurufVerses[i] == FormatKey(HurufSurahs[i], 1)
  {
  }

  /** The listed surahs increase strictly. */
  lemma HurufSurahsIncrease()
    ensures forall i :: 0 <= i < |HurufSurahs| - 1 ==> HurufSurahs[i] < HurufSurahs[i + 1]
  {
  }

  /** Adjacent order gives order between any two positions. */
  lemma {:induction false} IncreasingEverywhere(s: seq<nat>)
    requires forall i :: 0 <= i < |s| - 1 ==> s[i] < s[i + 1]
    ensures forall i, j :: 0 <= i < j < |s| ==> s[i] < s[j]
    decreases |s|
  {
    if |s| > 1 {
      var t := s[1..];
      assert forall i :: 0 <= i < |t| - 1 ==> t[i] < t[i + 1] by {
        assert forall i :: 0 <= i < |t| ==> t[i] == s[i + 1];
      }
      IncreasingEverywhere(t);
      forall i, j | 0 <= i < j < |s| ensures s[i] < s[j] {
        if i == 0 {
          if j > 1 {
            assert t[0] < t[j - 1];
          }
        } else {
          assert t[i - 1] < t[j - 1];
        }
      }
    }
  }

  /** Keys of first verses of strictly increasing surahs, listed in that
      order, are all different, and a key is among them exactly when it is
      the first-verse key of one of the surahs. */
  lemma {:induction false} FirstVerseKeys(keys: seq<string>, surahs: seq<nat>, key: Option<string>)
    requires |keys| == |surahs|
    requires forall i :: 0 <= i < |surahs| ==> 1 <= surahs[i] <= SurahCount
    requires forall i :: 0 <= i < |keys| ==> keys[i] == FormatKey(surahs[i], 1)
    requires forall i, j :: 0 <= i < j < |surahs| ==> surahs[i] < surahs[j]
    ensures forall i, j :: 0 <= i < j < |keys| ==> keys[i] != keys[j]
    ensures key.Some? && key.value in keys ==> IsValidAyahKey(key) && PartsFromKey(key).1 == 1
  {
    forall i, j | 0 <= i < j < |keys| ensures keys[i] != keys[j] {
      FormatKeyRoundTrip(surahs[i], 1);
      FormatKeyRoundTrip(surahs[j], 1);
    }
    if key.Some? && key.value in keys {
      var i :| 0 <= i < |keys| && keys[i] == key.value;
      FormatKeyRoundTrip(surahs[i], 1);
    }
  }

  /** The listed keys are 29 different keys. */
  lemma HurufVersesDistinct()
    ensures forall i, j :: 0 <= i < j < |HurufVerses| ==> HurufVerses[i] != HurufVerses[j]
  {
    HurufVersesAreFirstVerses();
    HurufSurahsIncrease();
    IncreasingEverywhere(HurufSurahs);
    FirstVerseKeys(HurufVerses, HurufSurahs, None);
  }

  /** `isHurufMuqattaat`: the key is listed; such a key is always a valid key
      of a first verse. */
  function IsHurufMuqattaat(key: Option<string>): (b: bool)
    ensures b ==> IsValidAyahKey(key) && PartsFromKey(key).1 == 1
    ensures b <==> key.Some? && exists i :: 0 <= i < |HurufSurahs| && key.value == FormatKey(HurufSurahs[i], 1)
  {
    HurufVersesAreFirstVerses();
    HurufSurahsIncrease();
    IncreasingEverywhere(HurufSurahs);
    FirstVerseKeys(HurufVerses, HurufSurahs, key);
    key.Some? && key.value in HurufVerses
  }
}
