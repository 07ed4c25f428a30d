/** `TextCleaner.cleanSnippet`: turns a Markdown/HTML snippet into plain text
    and truncates it. Each regular expression of the source is written out as
    the left-to-right scan `Matcher.replaceAll` performs. */
module TextCleaner {
  import opened Wrappers
  import opened Text

  // ---------------------------------------------------------------------------
  // `(?m)^#{1,6}\s+` replaced by ""

  /** A line terminator as `(?m)^` recognises one: line feed, carriage return,
      next line U+0085, and the line and paragraph separators. */
  predicate IsLineTerminator(c: char) {
    c == '\n' || c == '\r' || c == '\U{85}' || c == '\U{2028}' || c == '\U{2029}'
  }

  /** `^` in multi-line mode matches at index `i` of the original text. */
  predicate IsLineStart(s: string, i: nat)
    requires i <= |s|
  {
    i == 0 || IsLineTerminator(s[i - 1])
  }

  /** Number of consecutive `c` characters starting at index `i`. */
  function RunLength(s: string, i: nat, c: char): (n: nat)
    requires i <= |s|
    ensures i + n <= |s|
    ensures forall k :: i <= k < i + n ==> s[k] == c
    ensures i + n == |s| || s[i + n] != c
    decreases |s| - i
  {
    if i < |s| && s[i] == c then 1 + RunLength(s, i + 1, c) else 0
  }

  /** Index just past the run of `\s` characters starting at `i`. */
  function SpaceRunEnd(s: string, i: nat): (e: nat)
    requires i <= |s|
    ensures i <= e <= |s|
    ensures forall k :: i <= k < e ==> IsRegexSpace(s[k])
    ensures e == |s| || !IsRegexSpace(s[e])
    decreases |s| - i
  {
    if i < |s| && IsRegexSpace(s[i]) then SpaceRunEnd(s, i + 1) else i
  }

  /** End of a header-marker match at `i`: one to six `#` followed by at least
      one `\s`, the `\s+` taking the whole run. A run of more than six `#`
      cannot match, since backing off leaves a `#` where `\s` is needed. */
  function HeaderMatchEnd(s: string, i: nat): (r: Option<nat>)
    requires i <= |s|
    ensures r.Some? ==> i < r.value <= |s|
  {
    var hashes := RunLength(s, i, '#');
    if 1 <= hashes <= 6 && i + hashes < |s| && IsRegexSpace(s[i + hashes])
    then Some(SpaceRunEnd(s, i + hashes))
    else None
  }

  function StripHeadersFrom(s: string, i: nat): (r: string)
    requires i <= |s|
    ensures forall k :: 0 <= k < |r| ==> r[k] in s[i..]
    decreases |s| - i
  {
    if i == |s| then []
    else
      var m := if IsLineStart(s, i) then HeaderMatchEnd(s, i) else None;
      if m.Some? then
        StripHeadersFrom(s, m.value)
      else
        [s[i]] + StripHeadersFrom(s, i + 1)
  }

  function StripHeaders(s: string): (r: string)
    ensures forall k :: 0 <= k < |r| ==> r[k] in s
  {
    StripHeadersFrom(s, 0)
  }

  // ---------------------------------------------------------------------------
  // `\[([^\]]+)]\([^\)]+\)` replaced by "$1"

  /** The smallest index `j >= i` holding `c`, if any. */
  function NextIndex(s: string, i: nat, c: char): (r: Option<nat>)
    requires i <= |s|
    ensures r.Some? ==> i <= r.value < |s| && s[r.value] == c
    ensures r.Some? ==> forall k :: i <= k < r.value ==> s[k] != c
    ensures r.None? ==> forall k :: i <= k < |s| ==> s[k] != c
    decreases |s| - i
  {
    if i == |s| then None
    else if s[i] == c then Some(i)
    else NextIndex(s, i + 1, c)
  }

  /** A Markdown link `[text](target)` starting at `i`: the end of the match
      and the end of the link text. Neither character class can cross its
      closing bracket, so the match is determined by the first `]` and the
      first `)` after it. */
  function LinkMatch(s: string, i: nat): (r: Option<(nat, nat)>)
    requires i <= |s|
    ensures r.Some? ==> i + 1 < r.value.1 < r.value.0 <= |s|
  {
    if i < |s| && s[i] == '[' then
      var close := NextIndex(s, i + 1, ']');
      if close.Some? && close.value > i + 1 && close.value + 1 < |s| && s[close.value + 1] == '(' then
        var paren := NextIndex(s, close.value + 2, ')');
        if paren.Some? && paren.value > close.value + 2 then Some((paren.value + 1, close.value))
        else None
      else None
    else None
  }

  function ReplaceLinksFrom(s: string, i: nat): (r: string)
    requires i <= |s|
    ensures forall k :: 0 <= k < |r| ==> r[k] in s[i..]
    decreases |s| - i
  {
    if i == |s| then []
    else
      var m := LinkMatch(s, i);
      if m.Some? then
        var (end, close) := m.value;
        assert forall k :: i + 1 <= k < close ==> s[k] in s[i..];
        s[i + 1..close] + ReplaceLinksFrom(s, end)
      else
        [s[i]] + ReplaceLinksFrom(s, i + 1)
  }

  function ReplaceLinks(s: string): (r: string)
    ensures forall k :: 0 <= k < |r| ==> r[k] in s
  {
    ReplaceLinksFrom(s, 0)
  }

  // ---------------------------------------------------------------------------
  // `<[^>]*>` replaced by " "

  /** End of an HTML tag starting at `i`: up to and including the first `>`. */
  function TagMatchEnd(s: string, i: nat): (r: Option<nat>)
    requires i <= |s|
    ensures r.Some? ==> i < r.value <= |s|
  {
    if i < |s| && s[i] == '<' then
      var close := NextIndex(s, i + 1, '>');
      if close.Some? then Some(close.value + 1) else None
    else None
  }

  function ReplaceTagsFrom(s: string, i: nat): (r: string)
    requires i <= |s|
    ensures forall k :: 0 <= k < |r| ==> r[k] == ' ' || r[k] in s[i..]
    decreases |s| - i
  {
    if i == |s| then []
    else
      var m := TagMatchEnd(s, i);
      if m.Some? then " " + ReplaceTagsFrom(s, m.value)
      else [s[i]] + ReplaceTagsFrom(s, i + 1)
  }

  function ReplaceTags(s: string): (r: string)
    ensures forall k :: 0 <= k < |r| ==> r[k] == ' ' || r[k] in s
  {
    ReplaceTagsFrom(s, 0)
  }

  // ---------------------------------------------------------------------------
  // Entities

  /** `unescapeHtml`: six literal replacements, `&amp;` first. */
  function UnescapeHtml(s: string): string {
    var a := ReplaceAll(s, "&amp;", "&");
    var b := ReplaceAll(a, "&quot;", "\"");
    var c := ReplaceAll(b, "&#39;", "'");
    var d := ReplaceAll(c, "&lt;", "<");
    var e := ReplaceAll(d, "&gt;", ">");
    ReplaceAll(e, "&nbsp;", " ")
  }

  /** No decoded entity produces a backtick. */
  lemma UnescapeHtmlKeepsOutBacktick(s: string)
    requires '`' !in s
    ensures '`' !in UnescapeHtml(s)
  {
    var a := ReplaceAll(s, "&amp;", "&");
    ReplaceAllKeepsOut(s, "&amp;", "&", '`');
    var b := ReplaceAll(a, "&quot;", "\"");
    ReplaceAllKeepsOut(a, "&quot;", "\"", '`');
    var c := ReplaceAll(b, "&#39;", "'");
    ReplaceAllKeepsOut(b, "&#39;", "'", '`');
    var d := ReplaceAll(c, "&lt;", "<");
    ReplaceAllKeepsOut(c, "&lt;", "<", '`');
    var e := ReplaceAll(d, "&gt;", ">");
    ReplaceAllKeepsOut(d, "&gt;", ">", '`');
    ReplaceAllKeepsOut(e, "&nbsp;", " ", '`');
  }

  /** Because `&amp;` is decoded first, an escaped entity is decoded twice. */
  lemma DoubleEscapedLessThan()
    ensures UnescapeHtml("&amp;lt;") == "<"
  {
    assert ReplaceAll("&amp;lt;", "&amp;", "&") == "&lt;" by {
      assert "&amp;lt;"[..5] == "&amp;";
      assert "&amp;lt;"[5..] == "lt;";
      assert ReplaceAll("lt;", "&amp;", "&") == "lt;";
    }
    assert ReplaceAll("&lt;", "&quot;", "\"") == "&lt;";
    assert ReplaceAll("&lt;", "&#39;", "'") == "&lt;";
    assert ReplaceAll("&lt;", "&lt;", "<") == "<" by {
      assert "&lt;"[..4] == "&lt;";
    }
    assert ReplaceAll("<", "&gt;", ">") == "<";
    assert ReplaceAll("<", "&nbsp;", " ") == "<";
  }

  // ---------------------------------------------------------------------------
  // `\s+` replaced by " "

  /** Every maximal run of `\s` characters becomes a single space. */
  function CollapseSpaces(s: string): (r: string)
    ensures s == [] <==> r == []
    ensures |s| > 0 && !IsRegexSpace(s[0]) ==> r[0] == s[0]
    ensures forall k :: 0 <= k < |r| ==> r[k] == ' ' || r[k] in s
    ensures NoDoubleSpace(r)
    decreases |s|
  {
    if |s| == 0 then []
    else if IsRegexSpace(s[0]) then
      var e := SpaceRunEnd(s, 0);
      var rest := CollapseSpaces(s[e..]);
      assert forall k :: 0 <= k < |rest| ==> rest[k] == ' ' || rest[k] in s;
      " " + rest
    else
      var rest := CollapseSpaces(s[1..]);
      [s[0]] + rest
  }

  /** No two adjacent `\s` characters. */
  predicate NoDoubleSpace(s: string) {
    forall k :: 0 <= k < |s| - 1 ==> !(IsRegexSpace(s[k]) && IsRegexSpace(s[k + 1]))
  }

  /** Collapsing never changes the non-space content. */
  lemma {:induction false} CollapseKeepsWords(s: string)
    ensures NonSpace(CollapseSpaces(s)) == NonSpace(s)
    decreases |s|
  {
    if |s| > 0 {
      if IsRegexSpace(s[0]) {
        var e := SpaceRunEnd(s, 0);
        CollapseKeepsWords(s[e..]);
        NonSpaceOfSpaces(s[..e]);
        NonSpaceConcat(s[..e], s[e..]);
        assert s == s[..e] + s[e..];
        NonSpaceConcat(" ", CollapseSpaces(s[e..]));
      } else {
        CollapseKeepsWords(s[1..]);
        NonSpaceConcat([s[0]], CollapseSpaces(s[1..]));
        NonSpaceConcat([s[0]], s[1..]);
        assert s == [s[0]] + s[1..];
      }
    }
  }

  /** The characters of `s` that are not `\s`, in order. */
  function NonSpace(s: string): string {
    if |s| == 0 then [] else (if IsRegexSpace(s[0]) then [] else [s[0]]) + NonSpace(s[1..])
  }

  lemma {:induction false} NonSpaceConcat(a: string, b: string)
    ensures NonSpace(a + b) == NonSpace(a) + NonSpace(b)
  {
    if |a| > 0 {
      NonSpaceConcat(a[1..], b);
      assert (a + b)[1..] == a[1..] + b;
    } else {
      assert a + b == b;
    }
  }

  lemma {:induction false} NonSpaceOfSpaces(a: string)
    requires forall k :: 0 <= k < |a| ==> IsRegexSpace(a[k])
    ensures NonSpace(a) == []
  {
    if |a| > 0 {
      NonSpaceOfSpaces(a[1..]);
    }
  }

  /** A slice of a string without double spaces has none either. */
  lemma SliceNoDoubleSpace(s: string, i: nat, j: nat)
    requires i <= j <= |s| && NoDoubleSpace(s)
    ensures NoDoubleSpace(s[i..j])
  {
    forall k | 0 <= k < j - i - 1
      ensures !(IsRegexSpace(s[i..j][k]) && IsRegexSpace(s[i..j][k + 1]))
    {
      assert s[i..j][k] == s[i + k] && s[i..j][k + 1] == s[i + k + 1];
    }
  }

  lemma TrimNoDoubleSpace(s: string)
    requires NoDoubleSpace(s)
    ensures NoDoubleSpace(Trim(s))
  {
    var i, j := TrimIsSlice(s);
    SliceNoDoubleSpace(s, i, j);
  }

  lemma TrimKeepsOut(s: string, c: char)
    requires c !in s
    ensures c !in Trim(s)
  {
    var i, j := TrimIsSlice(s);
  }

  // ---------------------------------------------------------------------------
  // The whole pipeline

  /** The cleaned text before truncation: headers, links and tags stripped,
      backticks deleted, entities decoded, whitespace runs collapsed, trimmed. */
  function Clean(text: string): (r: string)
    ensures '`' !in r
    ensures NoDoubleSpace(r)
    ensures r == [] || (!IsTrimmable(r[0]) && !IsTrimmable(r[|r| - 1]))
  {
    var headersGone := StripHeaders(text);
    var linksGone := ReplaceLinks(headersGone);
    var tagsGone := ReplaceTags(linksGone);
    var noTicks := ReplaceAll(tagsGone, "`", "");
    RemoveAllRemoves(tagsGone, '`');
    var decoded := UnescapeHtml(noTicks);
    UnescapeHtmlKeepsOutBacktick(noTicks);
    var collapsed := CollapseSpaces(decoded);
    TrimNoDoubleSpace(collapsed);
    TrimKeepsOut(collapsed, '`');
    Trim(collapsed)
  }

  /** `cleanSnippet(text, maxChars)`: `""` for `null`; the cleaned text when
      `maxChars <= 0` or it fits; otherwise its first `maxChars` characters,
      trimmed again, followed by `"..."`. */
  function CleanSnippet(text: Option<string>, maxChars: int): (r: string)
    ensures text.None? ==> r == ""
    ensures text.Some? && (maxChars <= 0 || |Clean(text.value)| <= maxChars) ==> r == Clean(text.value)
    ensures text.Some? && maxChars > 0 && |Clean(text.value)| > maxChars ==>
              && |r| <= maxChars + 3
              && r == Trim(Clean(text.value)[..maxChars]) + "..."
    ensures '`' !in r
    ensures NoDoubleSpace(r)
  {
    if text.None? then ""
    else
      var cleaned := Clean(text.value);
      if maxChars > 0 && |cleaned| > maxChars then
        TruncatedIsClean(cleaned, maxChars);
        Trim(cleaned[..maxChars]) + "..."
      else cleaned
  }

  lemma TruncatedIsClean(cleaned: string, maxChars: nat)
    requires maxChars <= |cleaned| && NoDoubleSpace(cleaned) && '`' !in cleaned
    ensures NoDoubleSpace(Trim(cleaned[..maxChars]) + "...")
    ensures '`' !in Trim(cleaned[..maxChars]) + "..."
    ensures |Trim(cleaned[..maxChars]) + "..."| <= maxChars + 3
  {
    var head := cleaned[..maxChars];
    SliceNoDoubleSpace(cleaned, 0, maxChars);
    TrimNoDoubleSpace(head);
    TrimKeepsOut(head, '`');
    DotsNoDoubleSpace(Trim(head));
  }

  /** Appending `"..."` creates no double space. */
  lemma DotsNoDoubleSpace(t: string)
    requires NoDoubleSpace(t)
    ensures NoDoubleSpace(t + "...")
  {
    forall k | 0 <= k < |t + "..."| - 1
      ensures !(IsRegexSpace((t + "...")[k]) && IsRegexSpace((t + "...")[k + 1]))
    {
      if k + 1 >= |t| {
        assert (t + "...")[k + 1] == '.';
      } else {
        assert (t + "...")[k] == t[k] && (t + "...")[k + 1] == t[k + 1];
      }
    }
  }

  /** Text with no markup characters, no `\s` other than single inner spaces
      and nothing to trim passes through unchanged. */
  lemma PlainTextUnchanged(text: string)
    requires forall k :: 0 <= k < |text| ==> text[k] !in "#[<`&" && (IsRegexSpace(text[k]) ==> text[k] == ' ')
    requires NoDoubleSpace(text)
    requires text == [] || (!IsTrimmable(text[0]) && !IsTrimmable(text[|text| - 1]))
    ensures Clean(text) == text
  {
    NoHashNoHeaders(text, 0);
    NoBracketNoLinks(text, 0);
    NoAngleNoTags(text, 0);
    assert text[0..] == text;
    assert ReplaceTags(ReplaceLinks(StripHeaders(text))) == text;
    ReplaceAllAbsentChar(text, '`', "`");
    assert ReplaceAll(text, "`", "") == text;
    UnescapePlain(text);
    CollapseOfCollapsed(text);
    assert CollapseSpaces(UnescapeHtml(text)) == text;
    TrimOfTrimmed(text);
  }

  lemma UnescapePlain(text: string)
    requires '&' !in text
    ensures UnescapeHtml(text) == text
  {
    ReplaceAllAbsentChar(text, '&', "&amp;");
    ReplaceAllAbsentChar(text, '&', "&quot;");
    ReplaceAllAbsentChar(text, '&', "&#39;");
    ReplaceAllAbsentChar(text, '&', "&lt;");
    ReplaceAllAbsentChar(text, '&', "&gt;");
    ReplaceAllAbsentChar(text, '&', "&nbsp;");
  }

  lemma {:induction false} NoHashNoHeaders(s: string, i: nat)
    requires i <= |s| && forall k :: 0 <= k < |s| ==> s[k] != '#'
    ensures StripHeadersFrom(s, i) == s[i..]
    decreases |s| - i
  {
    if i < |s| {
      NoHashNoHeaders(s, i + 1);
      assert s[i..] == [s[i]] + s[i + 1..];
    }
  }

  lemma {:induction false} NoBracketNoLinks(s: string, i: nat)
    requires i <= |s| && forall k :: 0 <= k < |s| ==> s[k] != '['
    ensures ReplaceLinksFrom(s, i) == s[i..]
    decreases |s| - i
  {
    if i < |s| {
      NoBracketNoLinks(s, i + 1);
      assert s[i..] == [s[i]] + s[i + 1..];
    }
  }

  lemma {:induction false} NoAngleNoTags(s: string, i: nat)
    requires i <= |s| && forall k :: 0 <= k < |s| ==> s[k] != '<'
    ensures ReplaceTagsFrom(s, i) == s[i..]
    decreases |s| - i
  {
    if i < |s| {
      NoAngleNoTags(s, i + 1);
      assert s[i..] == [s[i]] + s[i + 1..];
    }
  }

  /** A target whose first character never occurs is never replaced. */
  lemma {:induction false} ReplaceAllAbsentChar(s: string, c: char, target: string)
    requires |target| > 0 && target[0] == c && c !in s
    ensures forall repl :: ReplaceAll(s, target, repl) == s
    decreases |s|
  {
    if |s| >= |target| {
      assert s[..|target|][0] == s[0] != c;
      ReplaceAllAbsentChar(s[1..], c, target);
      assert s == [s[0]] + s[1..];
    }
  }

  lemma {:induction false} CollapseOfCollapsed(s: string)
    requires NoDoubleSpace(s)
    requires forall k :: 0 <= k < |s| ==> IsRegexSpace(s[k]) ==> s[k] == ' '
    ensures CollapseSpaces(s) == s
    decreases |s|
  {
    if |s| > 0 {
      SliceNoDoubleSpace(s, 1, |s|);
      if IsRegexSpace(s[0]) {
        var e := SpaceRunEnd(s, 0);
        assert e == 1 by {
          if |s| > 1 {
            assert !IsRegexSpace(s[1]);
          }
        }
        CollapseOfCollapsed(s[1..]);
        assert s == " " + s[1..];
      } else {
        CollapseOfCollapsed(s[1..]);
        assert s == [s[0]] + s[1..];
      }
    }
  }
}
