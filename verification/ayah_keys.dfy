/** Verse keys of the form `surah:ayah`: validation (`isValidAyahKey`), the
    two ways numbers are recovered from a hit (`AyahParts.from`,
    `AyahParts.fromKey`), and the batched filter the Quran-text fallback
    sends (`batch`, `buildAyahFilter`, `escapeFilterValue`). */
module AyahKeys {
  import opened Wrappers
  import opened Text
  import opened Seqs
  import opened Models

  // ---------------------------------------------------------------------------
  // Validation

  const SurahCount: int := 114

  /** `isValidAyahKey`: non-blank, a `:`, and on either side a trimmed 32-bit
      integer; the surah between 1 and 114 and the ayah at least 1. */
  predicate IsValidAyahKey(key: Option<string>) {
    if key.None? || IsBlank(key.value) then false
    else
      match SplitFirst(key.value, ':')
      case None => false
      case Some((before, after)) =>
        match (ParseInt(Trim(before)), ParseInt(Trim(after)))
        case (Some(surah), Some(ayah)) => 1 <= surah <= SurahCount && ayah >= 1
        case _ => false
  }

  /** The canonical key of a verse, as the Quran text repository builds it. */
  function FormatKey(surah: nat, ayah: nat): (k: string)
    ensures ':' in k
  {
    NatToString(surah) + ":" + NatToString(ayah)
  }

  /** `AyahParts.fromKey`: both numbers parsed without trimming; `(0, 0)` for a
      `null` key, a key without `:`, or a side that does not parse. */
  function PartsFromKey(key: Option<string>): (r: (int, int))
    ensures InInt32(r.0) && InInt32(r.1)
  {
    if key.None? then (0, 0)
    else
      match SplitFirst(key.value, ':')
      case None => (0, 0)
      case Some((before, after)) =>
        match (ParseInt(before), ParseInt(after))
        case (Some(surah), Some(ayah)) => (surah, ayah)
        case _ => (0, 0)
  }

  /** `AyahParts.from`: the metadata's `surah` and `ayah`, unless either is 0
      and a key is present, in which case both come from the key. */
  function PartsFrom(meta: Json, key: Option<string>): (r: (int, int))
    ensures InInt32(r.0) && InInt32(r.1)
    ensures GetInt(meta, "surah") != 0 && GetInt(meta, "ayah") != 0 ==> r == (GetInt(meta, "surah"), GetInt(meta, "ayah"))
    ensures (GetInt(meta, "surah") == 0 || GetInt(meta, "ayah") == 0) && key.Some? ==> r == PartsFromKey(key)
    ensures key.None? ==> r == (GetInt(meta, "surah"), GetInt(meta, "ayah"))
  {
    var surah := GetInt(meta, "surah");
    var ayah := GetInt(meta, "ayah");
    if (surah == 0 || ayah == 0) && key.Some? then PartsFromKey(key) else (surah, ayah)
  }

  lemma SplitFormatKey(surah: nat, ayah: nat)
    ensures SplitFirst(FormatKey(surah, ayah), ':') == Some((NatToString(surah), NatToString(ayah)))
  {
    assert ':' !in NatToString(surah);
    SplitAtFirst(NatToString(surah), NatToString(ayah));
  }

  /** Round trip: the canonical key of any verse number pair in 32-bit range is
      valid exactly when the numbers are in range, and both parsers recover
      the numbers. */
  lemma FormatKeyRoundTrip(surah: nat, ayah: nat)
    requires surah <= IntMax && ayah <= IntMax
    ensures IsValidAyahKey(Some(FormatKey(surah, ayah))) <==> 1 <= surah <= SurahCount && ayah >= 1
    ensures PartsFromKey(Some(FormatKey(surah, ayah))) == (surah, ayah)
  {
    var a := NatToString(surah);
    var b := NatToString(ayah);
    var k := FormatKey(surah, ayah);
    SplitFormatKey(surah, ayah);
    ParseIntOfNatToString(surah);
    ParseIntOfNatToString(ayah);
    TrimOfDigits(a);
    TrimOfDigits(b);
    assert k[|a|] == ':';
    KeyFromParsedSides(k, a, b, surah, ayah);
  }

  lemma KeyFromParsedSides(k: string, a: string, b: string, surah: int, ayah: int)
    requires SplitFirst(k, ':') == Some((a, b))
    requires ParseInt(a) == Some(surah) && ParseInt(b) == Some(ayah)
    requires Trim(a) == a && Trim(b) == b
    ensures IsValidAyahKey(Some(k)) <==> 1 <= surah <= SurahCount && ayah >= 1
    ensures PartsFromKey(Some(k)) == (surah, ayah)
  {
    assert k == a + ":" + b;
    assert k[|a|] == ':';
    assert !IsJavaWhitespace(k[|a|]);
    ValidFromSplit(k, a, b);
  }

  lemma TrimOfDigits(d: string)
    requires |d| > 0 && AllDigits(d)
    ensures Trim(d) == d
  {
    assert !IsTrimmable(d[0]) && !IsTrimmable(d[|d| - 1]);
    TrimOfTrimmed(d);
  }

  /** Validity in terms of the two sides of the first `:`. */
  lemma ValidFromSplit(key: string, before: string, after: string)
    requires !IsBlank(key) && SplitFirst(key, ':') == Some((before, after))
    ensures IsValidAyahKey(Some(key)) <==>
      && ParseInt(Trim(before)).Some? && 1 <= ParseInt(Trim(before)).value <= SurahCount
      && ParseInt(Trim(after)).Some? && ParseInt(Trim(after)).value >= 1
  {
  }

  /** A valid key never has a surah outside 1..114 or an ayah below 1, and it
      always contains a `:`. */
  lemma ValidKeyShape(key: string)
    requires IsValidAyahKey(Some(key))
    ensures ':' in key && !IsBlank(key)
    ensures exists before, after ::
      && key == before + ":" + after
      && ParseInt(Trim(before)).Some? && 1 <= ParseInt(Trim(before)).value <= SurahCount
      && ParseInt(Trim(after)).Some? && ParseInt(Trim(after)).value >= 1
  {
    var (before, after) := SplitFirst(key, ':').value;
    assert key == before + ":" + after;
  }

  /** Validation trims each side but `fromKey` does not: a key with a space
      after the colon is accepted, yet its numbers are read as `(0, 0)`. */
  lemma PaddedKeyReadsAsZero(surah: nat, ayah: nat)
    requires 1 <= surah <= SurahCount && 1 <= ayah <= IntMax
    ensures IsValidAyahKey(Some(NatToString(surah) + ": " + NatToString(ayah)))
    ensures PartsFromKey(Some(NatToString(surah) + ": " + NatToString(ayah))) == (0, 0)
  {
    var a := NatToString(surah);
    var t := NatToString(ayah);
    var b := " " + t;
    var k := a + ": " + t;
    ColonSpace(a, t);
    assert ':' !in a;
    SplitAtFirst(a, b);
    ParseIntOfNatToString(surah);
    ParseIntOfNatToString(ayah);
    TrimOfDigits(a);
    TrimOfDigits(t);
    TrimLeadingSpace(t);
    assert k[0] == a[0];
    DigitFirstNotBlank(k);
    PaddedSides(k, a, b, t, surah, ayah);
  }

  lemma PaddedSides(k: string, a: string, b: string, t: string, surah: int, ayah: int)
    requires !IsBlank(k) && SplitFirst(k, ':') == Some((a, b))
    requires Trim(a) == a && ParseInt(a) == Some(surah) && 1 <= surah <= SurahCount
    requires Trim(b) == t && ParseInt(t) == Some(ayah) && ayah >= 1
    requires |b| > 0 && b[0] == ' '
    ensures IsValidAyahKey(Some(k))
    ensures PartsFromKey(Some(k)) == (0, 0)
  {
    PaddedValid(k, a, b, surah, ayah);
    assert ParseInt(b).None?;
    UnparsedAyahSide(k, a, b);
  }

  lemma PaddedValid(k: string, a: string, b: string, surah: int, ayah: int)
    requires !IsBlank(k) && SplitFirst(k, ':') == Some((a, b))
    requires ParseInt(Trim(a)) == Some(surah) && 1 <= surah <= SurahCount
    requires ParseInt(Trim(b)) == Some(ayah) && ayah >= 1
    ensures IsValidAyahKey(Some(k))
  {
  }

  lemma UnparsedAyahSide(k: string, a: string, b: string)
    requires SplitFirst(k, ':') == Some((a, b)) && ParseInt(b).None?
    ensures PartsFromKey(Some(k)) == (0, 0)
  {
  }

  lemma DigitFirstNotBlank(k: string)
    requires |k| > 0 && IsDigit(k[0])
    ensures !IsBlank(k)
  {
  }

  lemma ColonSpace(a: string, t: string)
    ensures a + ": " + t == a + ":" + (" " + t)
  {
  }

  lemma SplitAtFirst(a: string, b: string)
    requires ':' !in a
    ensures SplitFirst(a + ":" + b, ':') == Some((a, b))
  {
    var k := a + ":" + b;
    assert k[|a|] == ':';
    var i := FirstIndex(k, ':');
    assert i == |a|;
    assert k[..i] == a;
    assert k[i + 1..] == b;
  }

  lemma TrimLeadingSpace(t: string)
    requires Trim(t) == t && |t| > 0
    ensures Trim(" " + t) == t
  {
    var s := " " + t;
    assert !IsTrimmable(t[0]) && !IsTrimmable(t[|t| - 1]);
    assert s[1] == t[0];
    assert TrimStart(s) == t;
    TrimOfTrimmed(t);
  }

  /** When the metadata lacks either number, the key decides both, discarding
      the number the metadata did supply. */
  lemma PartsFromReplacesBoth(surah: int, key: string)
    requires InInt32(surah) && surah != 0
    requires ':' !in key
    ensures PartsFrom(JObject(map["surah" := JInt(surah)]), Some(key)) == (0, 0)
  {
    var meta := JObject(map["surah" := JInt(surah)]);
    assert Field(meta, "ayah").None?;
  }

  // ---------------------------------------------------------------------------
  // Batches

  /** `batch(values, size)`: consecutive slices of `size` elements, the last
      one possibly shorter. */
  function Batches<T>(values: seq<T>, size: int): (batches: seq<seq<T>>)
    requires size > 0
    ensures forall i :: 0 <= i < |batches| ==> 0 < |batches[i]| <= size
    ensures forall i :: 0 <= i < |batches| - 1 ==> |batches[i]| == size
    decreases |values|
  {
    if |values| == 0 then []
    else if |values| <= size then [values]
    else [values[..size]] + Batches(values[size..], size)
  }

  /** The batches hold the values in order. */
  lemma {:induction false} BatchesFlatten<T>(values: seq<T>, size: int)
    requires size > 0
    ensures Flatten(Batches(values, size)) == values
    decreases |values|
  {
    var bs := Batches(values, size);
    if |values| == 0 {
    } else if |values| <= size {
      assert Flatten(bs) == values + Flatten(bs[1..]);
    } else {
      BatchesFlatten(values[size..], size);
      assert bs[1..] == Batches(values[size..], size);
      assert Flatten(bs) == values[..size] + Flatten(bs[1..]);
      assert values == values[..size] + values[size..];
    }
  }

  /** There are as few batches as the size allows: `ceil(|values| / size)`. */
  lemma {:induction false} BatchesCount<T>(values: seq<T>, size: int)
    requires size > 0
    ensures |values| <= |Batches(values, size)| * size
    ensures |Batches(values, size)| > 0 ==> (|Batches(values, size)| - 1) * size < |values|
    decreases |values|
  {
    if |values| > size {
      var n := |Batches(values[size..], size)|;
      BatchesCount(values[size..], size);
      assert |Batches(values, size)| == n + 1;
      MulSucc(n, size);
      MulSucc(n - 1, size);
    }
  }

  lemma MulSucc(a: int, b: int)
    ensures (a + 1) * b == a * b + b
  {
  }

  // ---------------------------------------------------------------------------
  // Filter

  /** `escapeFilterValue`: every `'` doubled. */
  function EscapeFilterValue(v: string): string {
    ReplaceAll(v, "'", "''")
  }

  /** How the filter language reads a quoted literal's body: `''` stands for
      one `'`. */
  function UnescapeFilterValue(e: string): string
    decreases |e|
  {
    if |e| == 0 then []
    else if |e| >= 2 && e[0] == '\'' && e[1] == '\'' then "'" + UnescapeFilterValue(e[2..])
    else [e[0]] + UnescapeFilterValue(e[1..])
  }

  /** Every `'` is immediately followed by another, so the literal cannot be
      closed early. */
  predicate QuotesPaired(e: string)
    decreases |e|
  {
    if |e| == 0 then true
    else if e[0] == '\'' then |e| >= 2 && e[1] == '\'' && QuotesPaired(e[2..])
    else QuotesPaired(e[1..])
  }

  /** Round trip and injection safety of the escaping. */
  lemma {:induction false} EscapeRoundTrip(v: string)
    ensures UnescapeFilterValue(EscapeFilterValue(v)) == v
    ensures QuotesPaired(EscapeFilterValue(v))
    decreases |v|
  {
    if |v| > 0 {
      EscapeRoundTrip(v[1..]);
      var rest := EscapeFilterValue(v[1..]);
      if v[0] == '\'' {
        assert v[..1] == "'";
        assert EscapeFilterValue(v) == "''" + rest;
        assert ("''" + rest)[2..] == rest;
        assert v == "'" + v[1..];
      } else {
        assert v[..1] != "'";
        assert EscapeFilterValue(v) == [v[0]] + rest;
        assert ([v[0]] + rest)[1..] == rest;
        assert v == [v[0]] + v[1..];
      }
    }
  }

  /** One equality test of the filter. */
  function KeyClause(key: string): string {
    "CAST(val('$.ayah_key') AS TEXT) = '" + EscapeFilterValue(key) + "'"
  }

  /** `buildAyahFilter`: the clauses of all keys joined by `" OR "`. */
  function BuildAyahFilter(keys: seq<string>): (r: string)
    ensures |keys| == 0 ==> r == ""
    ensures |keys| > 0 ==> IsPrefix(KeyClause(keys[0]), r)
  {
    if |keys| == 0 then ""
    else if |keys| == 1 then KeyClause(keys[0])
    else
      var rest := BuildAyahFilter(keys[1..]);
      assert (KeyClause(keys[0]) + " OR " + rest)[..|KeyClause(keys[0])|] == KeyClause(keys[0]);
      KeyClause(keys[0]) + " OR " + rest
  }

  /** A filter built from at least one key is never blank, so a filtered
      retrieval never asks for reranking. */
  lemma FilterOfKeysNotBlank(keys: seq<string>)
    requires |keys| > 0
    ensures !IsBlank(BuildAyahFilter(keys))
  {
    var r := BuildAyahFilter(keys);
    assert r[0] == KeyClause(keys[0])[0] == 'C';
  }

  /** The filter names each key of the batch by its clause, in order. */
  lemma {:induction false} FilterListsEveryKey(keys: seq<string>, i: nat)
    requires i < |keys|
    ensures Contains(BuildAyahFilter(keys), KeyClause(keys[i]))
    decreases |keys|
  {
    var r := BuildAyahFilter(keys);
    if i == 0 {
      ContainsPrefix(r, KeyClause(keys[0]));
    } else {
      FilterListsEveryKey(keys[1..], i - 1);
      var head := KeyClause(keys[0]) + " OR ";
      assert r == head + BuildAyahFilter(keys[1..]);
      ContainsSuffix(head, BuildAyahFilter(keys[1..]), KeyClause(keys[i]));
    }
  }

  lemma ContainsPrefix(s: string, p: string)
    requires IsPrefix(p, s)
    ensures Contains(s, p)
  {
  }

  lemma {:induction false} ContainsSuffix(a: string, b: string, sub: string)
    requires Contains(b, sub)
    ensures Contains(a + b, sub)
    decreases |a|
  {
    if |a| == 0 {
      assert a + b == b;
    } else {
      ContainsSuffix(a[1..], b, sub);
      assert (a + b)[1..] == a[1..] + b;
    }
  }
}
