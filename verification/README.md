# Quran search: a Dafny model of the search core

The system answers a free-text question about the Quran with material from
six content spaces held in a GoodMem retrieval service:

- the Arabic text of the verses;
- their translations;
- their tafsirs (commentaries);
- reflection posts;
- course lessons;
- articles.

A Java server receives the query at `GET/POST /api/search` (`Main`). It
resolves which GoodMem space holds each content type (`SpaceType`,
`SpaceRegistry`, `AppConfig`) and sends one retrieval per requested space
(`GoodMemClient`). It cleans the snippets (`TextCleaner`) and groups
everything that concerns one verse, keyed by `surah:ayah`, into a
consolidated verse result. It fills missing Arabic text and translations
from local repositories, then answers with the verse groups and the
remaining "direct hits" (posts, courses and articles), each list ordered by
score (`SearchService`).

A React front end shows the response:

- `SearchResults` filters the hits by the active spaces and by the post
  category, and splits them into a course sidebar and related content.
- `AyahCard` renders one verse group with its verse marker in Arabic-Indic
  digits and a count of related items.
- Without a server, `mockSearch` in the front end's mock data builds a
  response of the same shape from fixtures.

The model follows that structure, one module per source unit. Every
operation is a pure function over immutable datatypes. Java `null`,
`Optional.empty()` and JavaScript `undefined` become `Option`, and a thrown
`IllegalArgumentException` becomes a `Result` failure. The mutable parts
are modelled as functions that return the new state:

- the per-verse aggregate;
- the verse map;
- the space registry's cache.

Each operation's contract states what it means for callers. Lemmas then
relate operations to one another:

- `fromString` and `apiName` round trips, and key formatting and parsing;
- what survives each filter, in both directions;
- sortedness and permutation of the returned lists;
- one group per verse key, with a top score that is the best of its
  members;
- totals that add up.

## Model

| member | source | states |
|---|---|---|
| Text.Trim | server/src/main/java/com/quran/omni/AppConfig.java:83 | `String.trim()`: the result is no longer than the input and neither starts nor ends with a character up to U+0020 |
| Text.TrimIsSlice | server/src/main/java/com/quran/omni/AppConfig.java:83 | the trimmed string is a contiguous slice of the input, and everything cut off on either side is a trimmable character |
| Text.TrimIdempotent | server/src/main/java/com/quran/omni/AppConfig.java:83 | trimming twice is the same as trimming once |
| Text.ToLower | server/src/main/java/com/quran/omni/SpaceType.java:32 | `toLowerCase(Locale.ROOT)` keeps the length and lower-cases each character in place (ASCII letters only) |
| Text.Split | server/src/main/java/com/quran/omni/AppConfig.java:111 | `split(",")`: at least one piece, and no piece holds the separator |
| Text.JoinSplit | server/src/main/java/com/quran/omni/AppConfig.java:111 | joining the pieces of a split with the separator gives back the input, so no character is lost or added |
| Text.SplitFirst | server/src/main/java/com/quran/omni/AppConfig.java:36 | `split("=", 2)`: no second part exactly when the separator is absent; otherwise the first part is separator-free and the two parts around the first separator rebuild the input |
| Text.ParseInt | server/src/main/java/com/quran/omni/AppConfig.java:92 | `Integer.parseInt`: a result is always a 32-bit value and comes from a string that starts with a sign or a digit |
| Text.ParseIntOfNatToString | server/src/main/java/com/quran/omni/AppConfig.java:92 | every non-negative 32-bit number, rendered in decimal, parses back to itself |
| Text.ContainsIffOccurs | frontend/src/data/mockData.ts:316-331 | `includes` holds exactly when the substring occurs at some position of the string |
| Text.ReplaceAllAbsent | server/src/main/java/com/quran/omni/search/TextCleaner.java:32-38 | `replace` with a target that does not occur returns the input unchanged |
| Text.ReplaceAllKeepsOut | server/src/main/java/com/quran/omni/search/TextCleaner.java:32-38 | `replace` never introduces a character that neither the input nor the replacement holds |
| Text.RemoveAllRemoves | server/src/main/java/com/quran/omni/search/TextCleaner.java:22 | deleting a character with `replace(c, "")` leaves no occurrence of it |
| Spaces.FromString | server/src/main/java/com/quran/omni/SpaceType.java:28-54 | `fromString`: a `null` input gives no constant; otherwise the trimmed, lower-cased name decides |
| Spaces.RecognizeIffAlias | server/src/main/java/com/quran/omni/SpaceType.java:33-53 | the switch maps a normalised name to a constant exactly when the name is one of that constant's accepted spellings |
| Spaces.FromStringIffAlias | server/src/main/java/com/quran/omni/SpaceType.java:28-54 | `fromString` yields a constant exactly when the normalised input is one of its aliases |
| Spaces.FromStringRejectsOthers | server/src/main/java/com/quran/omni/SpaceType.java:51-52 | a name that is no constant's alias yields no constant |
| Spaces.FromStringApiName | server/src/main/java/com/quran/omni/SpaceType.java:7-22 | every constant's API name parses back to that constant |
| Spaces.FromStringPlural | server/src/main/java/com/quran/omni/SpaceType.java:34-50 | the plural of every API name is accepted, except for the Quran space, which has no plural case |
| Spaces.EnvKeyIsUpperApiName | server/src/main/java/com/quran/omni/SpaceType.java:24-26 | the environment key is the upper-cased API name and parses back to the same constant |
| Spaces.FromStringIgnoresCaseAndPadding | server/src/main/java/com/quran/omni/SpaceType.java:28-32 | a name padded with trimmable characters and any spelling of it that differs only in ASCII letter case are read as the same constant, or are both rejected |
| Spaces.NormalizeIdempotent | server/src/main/java/com/quran/omni/SpaceType.java:32 | normalising a normalised name changes nothing |
| Spaces.AllTypesEnumeratesAllSpaces | server/src/main/java/com/quran/omni/SpaceType.java:6-12 | `values()` lists every constant and there are exactly six of them |
| AppConfig.ReadEnv | server/src/main/java/com/quran/omni/AppConfig.java:78-84 | `readEnv`: an unset or blank variable yields the fallback (possibly `null`); a set one yields its value with the padding trimmed |
| AppConfig.ReadEnvIsTrimmed | server/src/main/java/com/quran/omni/AppConfig.java:78-84 | a value read from a set variable is present and already trimmed |
| AppConfig.ReadIntEnv | server/src/main/java/com/quran/omni/AppConfig.java:86-96 | `readIntEnv`: the fallback for an unset, blank or unparseable variable, otherwise the trimmed value as a 32-bit integer |
| AppConfig.ReadIntEnvOfRendered | server/src/main/java/com/quran/omni/AppConfig.java:86-96 | any 32-bit integer written with surrounding whitespace reads back as itself, whatever the fallback |
| AppConfig.ReadBoolEnv | server/src/main/java/com/quran/omni/AppConfig.java:98-104 | `readBoolEnv`: the fallback only for an unset or blank variable; otherwise true exactly for "true" or "1" in any letter case |
| AppConfig.ReadBoolEnvIgnoresFallback | server/src/main/java/com/quran/omni/AppConfig.java:98-104 | a set variable never falls back: the result is the same whichever fallback is given |
| AppConfig.TrimmedNonBlank | server/src/main/java/com/quran/omni/AppConfig.java:111-116 | the kept pieces are never blank and there are no more of them than pieces |
| AppConfig.TrimmedNonBlankAvoids | server/src/main/java/com/quran/omni/AppConfig.java:111-116 | a character no piece holds is in no kept entry, since trimming only removes characters |
| AppConfig.SplitCsv | server/src/main/java/com/quran/omni/AppConfig.java:106-118 | `splitCsv`: nothing for a `null` or blank value; every entry is non-blank and comma-free |
| AppConfig.SplitCsvOfJoin | server/src/main/java/com/quran/omni/AppConfig.java:106-118 | trimmed, non-blank, comma-free entries joined with commas split back into exactly the same list |
| AppConfig.EntryPairs | server/src/main/java/com/quran/omni/AppConfig.java:35-44 | each entry contributes the type its name parses to (none when the entry has no '=') and its trimmed id |
| AppConfig.CsvOverridesContents | server/src/main/java/com/quran/omni/AppConfig.java:33-46 | a type is overridden by `GOODMEM_SPACE_IDS` exactly when some well-formed entry names it, and its id is the non-blank id of such an entry |
| AppConfig.CsvOverridesLastWins | server/src/main/java/com/quran/omni/AppConfig.java:33-46 | when several entries name a type, the last one's id is kept |
| AppConfig.EntryValueNotBlank | server/src/main/java/com/quran/omni/AppConfig.java:39-41 | an entry only counts when its trimmed id is not blank |
| AppConfig.EnvSpaceId | server/src/main/java/com/quran/omni/AppConfig.java:47-53 | an id read from a `GOODMEM_SPACE_<TYPE>` variable is never blank |
| AppConfig.EnvOverrides | server/src/main/java/com/quran/omni/AppConfig.java:47-53 | the per-type variables override exactly the types whose variable is set to a non-blank value, with that value |
| AppConfig.OverridePrecedence | server/src/main/java/com/quran/omni/AppConfig.java:32-53 | a type's own `GOODMEM_SPACE_<TYPE>` variable beats its `GOODMEM_SPACE_IDS` entry; without it, the entry decides |
| AppConfig.OverridesNotBlank | server/src/main/java/com/quran/omni/AppConfig.java:32-53 | every space id override is a non-blank id |
| AppConfig.NoOverrideWithoutVariables | server/src/main/java/com/quran/omni/AppConfig.java:32-53 | a type with neither variable set has no override |
| AppConfig.ApiKey | server/src/main/java/com/quran/omni/AppConfig.java:23-26 | the API key is `GOODMEM_API_KEY` when usable, else `GM_API_KEY` when usable, else absent; a key is never blank |
| AppConfig.FromEnv | server/src/main/java/com/quran/omni/AppConfig.java:20-76 | `fromEnv` fails exactly when neither API key variable is usable; otherwise the configuration carries the chosen key and every other setting read from the environment |
| AppConfig.MissingApiKeyFails | server/src/main/java/com/quran/omni/AppConfig.java:27-29 | an empty environment cannot produce a configuration |
| AppConfig.SettingsReadEveryLimit | server/src/main/java/com/quran/omni/AppConfig.java:55-61 | every space type gets a limit, read from its own `SEARCH_LIMIT_<TYPE>` variable with its own default (6, 12, 10, 8, 6 and 6) |
| AppConfig.UnsetLimitTakesDefault | server/src/main/java/com/quran/omni/AppConfig.java:55-61 | a type whose limit variable is unset or blank keeps its default limit |
| AppConfig.SettingsLanguageIsLower | server/src/main/java/com/quran/omni/AppConfig.java:63 | the default language never holds an upper-case letter, wherever it came from |
| AppConfig.UnsetLanguageIsEnglish | server/src/main/java/com/quran/omni/AppConfig.java:63 | without `SEARCH_DEFAULT_LANGUAGE` the default language is "en" |
| AppConfig.UnsetScalarsTakeDefaults | server/src/main/java/com/quran/omni/AppConfig.java:21-64 | an unset port, base URL, SSL switch or cache lifetime takes its default (7070, the development URL, insecure, 600 seconds) |
| TextCleaner.HeaderMatchEnd | server/src/main/java/com/quran/omni/search/TextCleaner.java:8 | a header marker (one to six `#` at a line start, then whitespace) always consumes at least one character and stays inside the text |
| TextCleaner.StripHeaders | server/src/main/java/com/quran/omni/search/TextCleaner.java:19 | removing header markers only deletes characters: every character left comes from the input |
| TextCleaner.NoHashNoHeaders | server/src/main/java/com/quran/omni/search/TextCleaner.java:19 | text without `#` has no header marker to strip and comes through unchanged |
| TextCleaner.LinkMatch | server/src/main/java/com/quran/omni/search/TextCleaner.java:7 | a Markdown link match is `[` + non-empty text + `](` + target + `)`, the text ending before the match does |
| TextCleaner.ReplaceLinks | server/src/main/java/com/quran/omni/search/TextCleaner.java:20 | replacing links by their text only deletes characters |
| TextCleaner.NoBracketNoLinks | server/src/main/java/com/quran/omni/search/TextCleaner.java:20 | text without `[` holds no link and comes through unchanged |
| TextCleaner.ReplaceTags | server/src/main/java/com/quran/omni/search/TextCleaner.java:21 | replacing HTML tags introduces no character but the space |
| TextCleaner.NoAngleNoTags | server/src/main/java/com/quran/omni/search/TextCleaner.java:21 | text without `<` holds no tag and comes through unchanged |
| TextCleaner.UnescapeHtmlKeepsOutBacktick | server/src/main/java/com/quran/omni/search/TextCleaner.java:31-39 | decoding the six entities never produces a backtick, so the backtick removal done before it stays in effect |
| TextCleaner.DoubleEscapedLessThan | server/src/main/java/com/quran/omni/search/TextCleaner.java:31-39 | because `&amp;` is decoded first, the double-escaped `&amp;lt;` ends up as `<` |
| TextCleaner.UnescapePlain | server/src/main/java/com/quran/omni/search/TextCleaner.java:31-39 | text without `&` holds no entity and is left unchanged |
| TextCleaner.CollapseSpaces | server/src/main/java/com/quran/omni/search/TextCleaner.java:24 | every run of whitespace becomes one space: the result is empty only for an empty input, holds no two adjacent whitespace characters and introduces nothing but the space |
| TextCleaner.CollapseKeepsWords | server/src/main/java/com/quran/omni/search/TextCleaner.java:24 | collapsing whitespace never changes the non-whitespace characters or their order |
| TextCleaner.CollapseOfCollapsed | server/src/main/java/com/quran/omni/search/TextCleaner.java:24 | text whose only whitespace is single spaces is left as it is |
| TextCleaner.Clean | server/src/main/java/com/quran/omni/search/TextCleaner.java:18-24 | the cleaned text holds no backtick, no two adjacent whitespace characters and nothing to trim at either end |
| TextCleaner.PlainTextUnchanged | server/src/main/java/com/quran/omni/search/TextCleaner.java:18-24 | plain text without markup characters, double spaces or padding is its own cleaned form |
| TextCleaner.CleanSnippet | server/src/main/java/com/quran/omni/search/TextCleaner.java:14-29 | `cleanSnippet`: "" for `null`; the cleaned text when the limit is not positive or the text fits; otherwise a trimmed prefix of at most the limit plus "...", never longer than the limit plus three |
| TextCleaner.TruncatedIsClean | server/src/main/java/com/quran/omni/search/TextCleaner.java:25-27 | a truncated snippet stays clean: no backtick, no double whitespace, at most the limit plus three characters |
| Models.Field | server/src/main/java/com/quran/omni/search/SearchService.java:446-450 | a field is found only in an object that holds it with a non-`null` value |
| Models.IntToString | server/src/main/java/com/quran/omni/search/SearchService.java:453 | `Long.toString`: the decimal digits of the magnitude, behind a minus sign for a negative number |
| Models.ParseIntOfIntToString | server/src/main/java/com/quran/omni/search/SearchService.java:472 | `Integer.parseInt` reads back the rendering of every 32-bit integer |
| Models.GetString | server/src/main/java/com/quran/omni/search/SearchService.java:442-458 | `getString`: absent exactly when the field is missing or `null`; a number is written as the `long` its `double` casts to; anything else is the field's text |
| Models.NumberAsLong | server/src/main/java/com/quran/omni/search/SearchService.java:451-453 | `(long) value.asDouble()` of an integral number is a `long`, is exact up to 2^53 in magnitude, and saturates to `Long.MAX_VALUE` or `Long.MIN_VALUE` outside the `long` range |
| Models.AsDouble | server/src/main/java/com/quran/omni/search/SearchService.java:451 | `asDouble()` keeps every integer up to 2^53 in magnitude and keeps a number beyond the `long` range beyond it |
| Models.RoundedQuotient | server/src/main/java/com/quran/omni/search/SearchService.java:451 | rounding a quotient to nearest, ties to even, gives the floor or the next integer, and the exact quotient when there is no remainder |
| Models.ExcessBits | server/src/main/java/com/quran/omni/search/SearchService.java:451 | the spacing `2^k` of the doubles around a magnitude: a magnitude above 2^53 lies in [2^(52+k), 2^(53+k)) |
| Models.ExactBelowLimit | server/src/main/java/com/quran/omni/search/SearchService.java:451 | integers up to 2^53 are their own `double` |
| Models.SaturatesAbove | server/src/main/java/com/quran/omni/search/SearchService.java:451-453 | rounding to a `double` never brings a magnitude of at least 2^63 back into the `long` range |
| Models.LargeNumbersCollide | server/src/main/java/com/quran/omni/search/SearchService.java:451-453 | 2^53 + 1 reads as 2^53, its even neighbour |
| Models.GetStringMergesLargeIds | server/src/main/java/com/quran/omni/search/SearchService.java:442-458 | two different numeric ids, 2^53 and 2^53 + 1, are read as the same text |
| Models.Wrap32 | server/src/main/java/com/quran/omni/search/SearchService.java:469 | narrowing to `int` keeps a 32-bit value, agrees with the input modulo 2^32 and leaves a value already in range alone |
| Models.GetInt | server/src/main/java/com/quran/omni/search/SearchService.java:460-476 | `getInt` always yields a 32-bit value, and 0 for a missing or `null` field |
| Models.GetIntReadsNumbersAndText | server/src/main/java/com/quran/omni/search/SearchService.java:460-476 | a 32-bit field reads the same whether stored as a number or as padded decimal text, and `getString` renders the number as its decimal text |
| Models.GetStringList | server/src/main/java/com/quran/omni/search/SearchService.java:478-498 | `getStringList`: empty for a missing field, the one text of a scalar field, and for an array exactly the texts of its non-`null` items |
| Models.TextsOf | server/src/main/java/com/quran/omni/search/SearchService.java:487-493 | the array loop yields `asText()` of the non-`null` items, in item order, and a text occurs in it exactly when some non-`null` item has it |
| Models.PermutationKeepsScores | server/src/main/java/com/quran/omni/search/SearchService.java:682-683 | reordering a list keeps both its best score and whether some element attains a score |
| Seqs.Filter | frontend/src/components/SearchResults.tsx:43-54 | `filter`: the kept elements are exactly those of the input that pass, in input order |
| Seqs.FilterMembers | frontend/src/components/SearchResults.tsx:43-54 | an element survives a filter exactly when it occurs in the input and passes the test |
| Seqs.Reject | frontend/src/components/SearchResults.tsx:76 | the complementary filter keeps exactly the failing elements, in input order |
| Seqs.FilterPartition | frontend/src/components/SearchResults.tsx:75-76 | a filter and its complement split the input: together they hold every element exactly as often as the input does |
| Seqs.DefinedMembers | server/src/main/java/com/quran/omni/search/SearchService.java:133-143 | a value is collected from a list exactly when some element yields it |
| Seqs.Flatten | server/src/main/java/com/quran/omni/search/SearchService.java:78-81 | concatenating no lists gives the empty list |
| Seqs.FlattenAppend | server/src/main/java/com/quran/omni/search/SearchService.java:78-81 | concatenating one more list appends its elements at the end |
| Seqs.FlattenMembership | server/src/main/java/com/quran/omni/search/SearchService.java:78-81 | an element is in the concatenation exactly when it is in one of the lists |
| Seqs.Dedup | server/src/main/java/com/quran/omni/search/SearchService.java:192 | `distinct()`: no element occurs twice and exactly the input's elements occur |
| Seqs.DedupAfterOfDistinct | server/src/main/java/com/quran/omni/search/SearchService.java:192 | a list without repeats is its own `distinct()` |
| Seqs.PutAll | server/src/main/java/com/quran/omni/AppConfig.java:35-45 | successive `put`s: a key is in the map exactly when some pair has it, with the value of such a pair |
| Seqs.PutAllLastWins | server/src/main/java/com/quran/omni/AppConfig.java:35-45 | the value kept for a key is the one of its last pair |
| Seqs.MapOf | server/src/main/java/com/quran/omni/AppConfig.java:47-61 | a map filled by looping over a key set holds exactly the keys given a value, each with that value |
| Sorting.SortDesc | server/src/main/java/com/quran/omni/search/SearchService.java:149-152 | the stable descending sort returns a permutation of its input, ordered by non-increasing score |
| Sorting.SortDescStable | server/src/main/java/com/quran/omni/search/SearchService.java:149-152 | elements with equal scores come out in the order they went in |
| Sorting.SortDescOfSorted | server/src/main/java/com/quran/omni/search/SearchService.java:167-170 | a list already in descending order is left unchanged |
| Sorting.InsertStable | server/src/main/java/com/quran/omni/search/SearchService.java:167-170 | inserting an element puts it ahead of every element with the same score |
| Sorting.FirstMaxIndex | server/src/main/java/com/quran/omni/search/SearchService.java:592-601 | the first element with the highest score: nothing scores higher, and every earlier element scores strictly lower |
| Sorting.FirstMaxUnique | server/src/main/java/com/quran/omni/search/SearchService.java:592-601 | the index with the highest score and only strictly lower scores before it is the first maximum |
| Sorting.FirstMaxExtend | server/src/main/java/com/quran/omni/search/SearchService.java:592-601 | appending an element moves the first maximum to it exactly when its score is strictly higher |
| AyahKeys.FormatKey | server/src/main/java/com/quran/omni/search/QuranTextRepository.java:48 | a verse key built by the Quran text repository always holds a `:` |
| AyahKeys.PartsFromKey | server/src/main/java/com/quran/omni/search/SearchService.java:555-568 | `AyahParts.fromKey` always yields two 32-bit numbers, `(0, 0)` when the key cannot be read |
| AyahKeys.PartsFrom | server/src/main/java/com/quran/omni/search/SearchService.java:544-553 | `AyahParts.from`: the metadata's numbers when both are non-zero or there is no key; otherwise both numbers come from the key |
| AyahKeys.PartsFromReplacesBoth | server/src/main/java/com/quran/omni/search/SearchService.java:544-553 | when only one number is missing from the metadata, the key still decides both, discarding the one the metadata gave |
| AyahKeys.FormatKeyRoundTrip | server/src/main/java/com/quran/omni/search/SearchService.java:292-308 | the key of a verse number pair is valid exactly when the surah is in 1..114 and the ayah at least 1, and `fromKey` recovers both numbers |
| AyahKeys.ValidFromSplit | server/src/main/java/com/quran/omni/search/SearchService.java:292-308 | a non-blank key is valid exactly when the trimmed text before its first `:` reads as a surah in 1..114 and the trimmed text after it as an ayah of at least 1 |
| AyahKeys.ValidKeyShape | server/src/main/java/com/quran/omni/search/SearchService.java:292-308 | a valid key is non-blank and splits around a `:` into a surah in 1..114 and an ayah of at least 1 |
| AyahKeys.PaddedKeyReadsAsZero | server/src/main/java/com/quran/omni/search/SearchService.java:555-568 | a key with a space after the colon passes validation, which trims, yet `fromKey`, which does not trim, reads it as `(0, 0)` |
| AyahKeys.Batches | server/src/main/java/com/quran/omni/search/SearchService.java:532-541 | `batch`: every batch is non-empty and at most the batch size, and every batch but the last is full |
| AyahKeys.BatchesFlatten | server/src/main/java/com/quran/omni/search/SearchService.java:532-541 | the batches, concatenated, give back the values in their order |
| AyahKeys.BatchesCount | server/src/main/java/com/quran/omni/search/SearchService.java:532-541 | there are exactly as many batches as needed: the values fit in them and one batch fewer would not hold them |
| AyahKeys.EscapeRoundTrip | server/src/main/java/com/quran/omni/search/SearchService.java:316-318 | `escapeFilterValue` is undone by the filter language's reading of `''`, and every quote it leaves is paired, so a key cannot close its literal early |
| AyahKeys.BuildAyahFilter | server/src/main/java/com/quran/omni/search/SearchService.java:310-314 | `buildAyahFilter`: empty for no keys, otherwise it starts with the first key's equality clause |
| AyahKeys.FilterOfKeysNotBlank | server/src/main/java/com/quran/omni/search/SearchService.java:310-314 | a filter built from at least one key is never blank |
| AyahKeys.FilterListsEveryKey | server/src/main/java/com/quran/omni/search/SearchService.java:310-314 | the filter holds the equality clause of every key of the batch |
| Aggregate.New | server/src/main/java/com/quran/omni/search/SearchService.java:581-585 | a new group has no members, a top score of 0 and satisfies the score invariant |
| Aggregate.FromKey | server/src/main/java/com/quran/omni/search/SearchService.java:587-590 | a group created from a post's verse key takes its numbers from the key, read without trimming |
| Aggregate.InvAttained | server/src/main/java/com/quran/omni/search/SearchService.java:629-633 | with non-negative member scores and at least one member, the top score is attained by some member, even when it is 0 |
| Aggregate.UpdateScore | server/src/main/java/com/quran/omni/search/SearchService.java:629-633 | `updateScore` only raises the top score, to the new score when that is higher, and changes nothing else |
| Aggregate.UpdateAyah | server/src/main/java/com/quran/omni/search/SearchService.java:635-642 | `updateAyah` never overwrites a number that is already non-zero and changes nothing else |
| Aggregate.SetQuran | server/src/main/java/com/quran/omni/search/SearchService.java:592-601 | `setQuran` always leaves a Quran hit, keeps the current one unless the new one scores strictly higher, leaves the lists alone and keeps the score invariant |
| Aggregate.AddTranslation | server/src/main/java/com/quran/omni/search/SearchService.java:603-610 | `addTranslation` appends the translation, leaves the other members alone and keeps the score invariant |
| Aggregate.AddTafsir | server/src/main/java/com/quran/omni/search/SearchService.java:612-619 | `addTafsir` appends the tafsir, leaves the other members alone and keeps the score invariant |
| Aggregate.AddPost | server/src/main/java/com/quran/omni/search/SearchService.java:621-627 | `addPost` appends the post, keeps the verse numbers and the other members, and keeps the score invariant |
| Aggregate.AppendKeepsScores | server/src/main/java/com/quran/omni/search/SearchService.java:629-633 | appending an element scoring at most the new top keeps every member under it and keeps the top attained |
| Aggregate.SetQuranKeepsFirstBest | server/src/main/java/com/quran/omni/search/SearchService.java:592-601 | after a series of Quran hits the group keeps the first of the best-scoring ones |
| Aggregate.FirstPositive | server/src/main/java/com/quran/omni/search/SearchService.java:635-642 | the first positive number reported is positive and was reported, or it is 0 |
| Aggregate.FirstPositiveNumbersWin | server/src/main/java/com/quran/omni/search/SearchService.java:635-642 | a group created with unknown numbers ends up with the first positive surah and the first positive ayah its members reported, independently of each other |
| Aggregate.KeepsPositive | server/src/main/java/com/quran/omni/search/SearchService.java:635-642 | a verse number that is no longer 0 never changes again |
| Aggregate.SortByLanguage | server/src/main/java/com/quran/omni/search/SearchService.java:663-688 | `sortByLanguage` is a permutation that puts every item in the requested language (ignoring case) before every other item, each block in descending score order |
| Aggregate.SortByLanguageStable | server/src/main/java/com/quran/omni/search/SearchService.java:663-688 | within each language block, items with equal scores keep their arrival order |
| Aggregate.ToResult | server/src/main/java/com/quran/omni/search/SearchService.java:644-661 | `toResult` keeps the key, numbers, Quran hit and top score, orders translations and tafsirs by language, sorts the posts by score without losing any, and adds no courses or articles |
| Aggregate.ToResultTopIsBest | server/src/main/java/com/quran/omni/search/SearchService.java:644-661 | the consolidated verse's top score is the best score among the members it lists |
| SearchRequests.PiecesTypes | server/src/main/java/com/quran/omni/search/SearchService.java:268-275 | a type is requested by a list of pieces exactly when `fromString` reads some piece as that type |
| SearchRequests.ParseSpaces | server/src/main/java/com/quran/omni/search/SearchService.java:263-280 | `parseSpaces` never returns an empty set: every space for an absent or empty list or one naming no space, otherwise exactly the named spaces |
| SearchRequests.ApiNamesHaveNoComma | server/src/main/java/com/quran/omni/search/SearchService.java:272 | no API name holds a comma, so a comma-joined list of them splits back into the names |
| SearchRequests.PiecesTypesOfApiNames | server/src/main/java/com/quran/omni/search/SearchService.java:268-275 | each API name among the pieces is read back as its own type, and no other type is named |
| SearchRequests.ParseSpacesOfApiNames | server/src/main/java/com/quran/omni/search/SearchService.java:263-280 | one entry listing API names separated by commas requests exactly those spaces |
| SearchRequests.UnknownNameMeansAll | server/src/main/java/com/quran/omni/search/SearchService.java:276-278 | a single name that is no space's alias requests every space |
| SearchRequests.ResolveLimit | server/src/main/java/com/quran/omni/search/SearchService.java:282-287 | `resolveLimit`: a positive override wins; otherwise the configured limit of the space, or 8 when it has none |
| SearchRequests.ResolveLimitFromEnvironment | server/src/main/java/com/quran/omni/search/SearchService.java:282-287 | with a configuration read from the environment and no positive override, the limit is the space's `SEARCH_LIMIT_<TYPE>` value, or its default when that variable is unset |
| SearchRequests.PlanCoversSearched | server/src/main/java/com/quran/omni/search/SearchService.java:60-76 | a space is retrieved from exactly when it was requested and has a non-blank space id |
| SearchRequests.PlanDistinct | server/src/main/java/com/quran/omni/search/SearchService.java:60-76 | no space is retrieved from twice |
| Conversions.VerseText | server/src/main/java/com/quran/omni/search/QuranTextRepository.java:68-71 | `getVerseText`: a text exactly when there is a key the repository knows, and then the repository's text |
| Conversions.LocalQuran | server/src/main/java/com/quran/omni/search/SearchService.java:205-217 | the Quran result built for a locally known verse carries its key, numbers and text, in Arabic, with score 0 |
| Conversions.LocalTranslation | server/src/main/java/com/quran/omni/search/TranslationRepository.java:95-109 | the translation built for a locally known verse carries its key, numbers and text, in English, with score 0 |
| Conversions.VerseFields | server/src/main/java/com/quran/omni/search/SearchService.java:343-364 | a Quran, translation or tafsir result takes `ayah_key` and `lang` from the metadata, its numbers from `AyahParts.from` and its score from the hit |
| Conversions.ToQuranResult | server/src/main/java/com/quran/omni/search/SearchService.java:320-341 | `toQuranResult` fills the shared verse fields and takes its text from the local repository, falling back to the retrieved text |
| Conversions.QuranTextPrefersRepository | server/src/main/java/com/quran/omni/search/SearchService.java:320-341 | a Quran result carries the local text when the repository knows its key and the retrieved text otherwise, and keeps the hit's score |
| Conversions.SnippetsBounded | server/src/main/java/com/quran/omni/search/SearchService.java:366-440 | tafsir, post, course and article snippets are at most 403 characters long and free of backticks, and every conversion keeps the hit's score |
| Conversions.Bucket | server/src/main/java/com/quran/omni/search/SearchService.java:90-99 | the bucket of a space holds exactly the retrieved hits of that space |
| Conversions.QuranResults | server/src/main/java/com/quran/omni/search/SearchService.java:92 | every Quran hit is converted, one result per hit, in retrieval order |
| Conversions.TranslationResults | server/src/main/java/com/quran/omni/search/SearchService.java:93 | every translation hit is converted, one result per hit, in retrieval order |
| Conversions.TafsirResults | server/src/main/java/com/quran/omni/search/SearchService.java:94 | every tafsir hit is converted, one result per hit, in retrieval order |
| Conversions.PostResults | server/src/main/java/com/quran/omni/search/SearchService.java:95 | every post hit is converted, one result per hit, in retrieval order |
| Conversions.CourseResults | server/src/main/java/com/quran/omni/search/SearchService.java:96 | every course hit is converted, one result per hit, in retrieval order |
| Conversions.ArticleResults | server/src/main/java/com/quran/omni/search/SearchService.java:97 | every article hit is converted, one result per hit, in retrieval order |
| Conversions.BucketsPartition | server/src/main/java/com/quran/omni/search/SearchService.java:90-99 | every retrieved hit lands in exactly one bucket, the one of its own space: the six buckets together are as long as the retrieved list |
| AyahMaps.Seed | server/src/main/java/com/quran/omni/search/SearchService.java:103-138 | the group `computeIfAbsent` creates for a new key is empty, sits under that key, scores 0 and satisfies the score invariant |
| AyahMaps.ApplyTo | server/src/main/java/com/quran/omni/search/SearchService.java:592-627 | one update appends the event's hit to the list of its kind (or lets `setQuran` choose the Quran hit), leaves the key alone, leaves the group with a member and keeps its score invariant |
| AyahMaps.Before | server/src/main/java/com/quran/omni/search/SearchService.java:101 | looking up a key with no group yields an empty group |
| AyahMaps.Apply | server/src/main/java/com/quran/omni/search/SearchService.java:103-139 | `computeIfAbsent` plus an update: the event's key then has a group, built from the old one or a fresh one, and every other group is untouched |
| AyahMaps.ApplyAllKeys | server/src/main/java/com/quran/omni/search/SearchService.java:103-144 | after a series of updates the map's keys are the old keys plus every key some update named |
| AyahMaps.ApplyAllWellKeyed | server/src/main/java/com/quran/omni/search/SearchService.java:103-144 | the key list stays a list of the map's keys without repeats |
| AyahMaps.ApplyAllSound | server/src/main/java/com/quran/omni/search/SearchService.java:103-144 | every group stays under its own key, keeps its score invariant and has a member, and scores stay non-negative when the updates' scores are |
| AyahMaps.ApplyAllLists | server/src/main/java/com/quran/omni/search/SearchService.java:103-144 | each list of a group is what it held before followed by what the updates for its key added, in order |
| AyahMaps.ApplyAllFromEmpty | server/src/main/java/com/quran/omni/search/SearchService.java:103-144 | starting from an empty map, a group's lists hold exactly what the updates for its key added, in order |
| AyahMaps.ApplyAllQuran | server/src/main/java/com/quran/omni/search/SearchService.java:103-109 | the Quran hit a group keeps is the one `setQuran` keeps when called with each Quran hit for its key in turn |
| AyahMaps.ApplyAllKeepsFirstBestQuran | server/src/main/java/com/quran/omni/search/SearchService.java:103-109 | a group starting without a Quran hit keeps the first of the best-scoring Quran hits for its key, or none when none arrived |
| AyahMaps.ApplyAllQuranPresent | server/src/main/java/com/quran/omni/search/SearchService.java:103-109 | a group holds a Quran hit afterwards when it held one before or a Quran hit for its key arrived |
| AyahMaps.StepVerses | server/src/main/java/com/quran/omni/search/SearchService.java:111-125 | one update adds its translation or tafsir to its own group's list and changes no other group's list |
| AyahMaps.StepQuran | server/src/main/java/com/quran/omni/search/SearchService.java:103-109 | only a Quran update for the group changes its Quran hit, and then as `setQuran` decides |
| AyahMaps.StepPosts | server/src/main/java/com/quran/omni/search/SearchService.java:127-144 | one update adds its post, if any, to its own group only |
| AyahMaps.VerseEventsAddNoPosts | server/src/main/java/com/quran/omni/search/SearchService.java:103-125 | updates from verse-level hits add no posts |
| AyahMaps.PostEventsAddNoVerses | server/src/main/java/com/quran/omni/search/SearchService.java:127-144 | updates from posts add no verse-level hits |
| SearchService.CallHits | server/src/main/java/com/quran/omni/search/SearchService.java:68-75 | a retrieval yields only hits of the space it searched, none when it fails, each scoring at least 0 |
| SearchService.Collect | server/src/main/java/com/quran/omni/search/SearchService.java:78-81 | the joined hits all come from searched spaces and score at least 0 |
| SearchService.ClassifyNonNegative | server/src/main/java/com/quran/omni/search/SearchService.java:90-99 | sorting non-negative hits into typed results keeps every score non-negative |
| SearchService.VerseUpdates | server/src/main/java/com/quran/omni/search/SearchService.java:107 | each verse-level result updates the group of its own key |
| SearchService.VerseEvents | server/src/main/java/com/quran/omni/search/SearchService.java:103-125 | only verse-level results with a valid key update a group, and the group of their own key |
| SearchService.KeyUpdates | server/src/main/java/com/quran/omni/search/SearchService.java:138-139 | a post updates one group per key it lists |
| SearchService.KeyEvents | server/src/main/java/com/quran/omni/search/SearchService.java:133-140 | a post updates only groups of valid keys it lists |
| SearchService.PostEvents | server/src/main/java/com/quran/omni/search/SearchService.java:128-144 | posts update only groups of valid verse keys |
| SearchService.PrimaryEvents | server/src/main/java/com/quran/omni/search/SearchService.java:103-144 | the first grouping only ever creates groups for valid verse keys |
| SearchService.VerseEventsFor | server/src/main/java/com/quran/omni/search/SearchService.java:103-125 | the group of a valid key receives exactly the results of each kind with that key, in retrieval order, and an invalid key receives nothing |
| SearchService.KeyUpdatesFor | server/src/main/java/com/quran/omni/search/SearchService.java:133-140 | a post joins the group of a key exactly when it lists that key |
| SearchService.PostEventsFor | server/src/main/java/com/quran/omni/search/SearchService.java:128-144 | a post joins the group of a key exactly when the key is valid and the post lists it; posts add no verse-level results |
| SearchService.ValidKeysKept | server/src/main/java/com/quran/omni/search/SearchService.java:133-136 | the valid keys a post contributes are exactly the keys it lists that are valid |
| SearchService.PrimaryKeysValid | server/src/main/java/com/quran/omni/search/SearchService.java:103-140 | after the first grouping there is a group only for valid verse keys |
| SearchService.PrimaryGroupLists | server/src/main/java/com/quran/omni/search/SearchService.java:101-144 | after the first grouping, a valid key's group holds the translations and tafsirs with that key in retrieval order and exactly the posts listing it; an invalid key's group holds nothing |
| SearchService.PrimaryGroupQuran | server/src/main/java/com/quran/omni/search/SearchService.java:103-109 | after the first grouping, a valid key's group holds the first of the best-scoring Quran results with that key, and none when there is none |
| SearchService.MissingFrom | server/src/main/java/com/quran/omni/search/SearchService.java:188-191 | every group with a key and no Quran text has its key among the missing keys |
| SearchService.MissingKeys | server/src/main/java/com/quran/omni/search/SearchService.java:188-193 | `missingKeys` names each key once |
| SearchService.LocalEvents | server/src/main/java/com/quran/omni/search/SearchService.java:200-223 | the local repository only supplies Quran text, at score 0 |
| SearchService.LocalEventsFor | server/src/main/java/com/quran/omni/search/SearchService.java:200-219 | every missing key the local repository knows receives its Quran text |
| SearchService.BatchEvents | server/src/main/java/com/quran/omni/search/SearchService.java:236-247 | a fallback retrieval only supplies Quran results, each scoring at least 0, and none when it fails |
| SearchService.FallbackEvents | server/src/main/java/com/quran/omni/search/SearchService.java:236-248 | the fallback retrievals of all batches only supply Quran results scoring at least 0 |
| SearchService.QuranTextEvents | server/src/main/java/com/quran/omni/search/SearchService.java:180-249 | filling in Quran text only adds Quran results scoring at least 0 |
| SearchService.QuranTextFilled | server/src/main/java/com/quran/omni/search/SearchService.java:180-249 | after `ensureQuranText`, a group holds Quran text when it held some before or the local repository knows its verse |
| SearchService.QuranTextKeeps | server/src/main/java/com/quran/omni/search/SearchService.java:180-249 | filling in Quran text leaves every group's translations, tafsirs and posts unchanged |
| SearchService.OnlyKindAdds | server/src/main/java/com/quran/omni/search/SearchService.java:240-244 | updates that only add Quran results add no translations or tafsirs |
| SearchService.FallbackBatchesCover | server/src/main/java/com/quran/omni/search/SearchService.java:226-235 | the keys the local repository lacks are all asked for, in order, in batches of one to 25 keys, and nothing is asked when the Quran space has no usable id |
| SearchService.FallbackRequestShape | server/src/main/java/com/quran/omni/search/SearchService.java:236-239 | a fallback request filters on every key of its batch, is never reranked and asks for as many hits as the batch has keys |
| SearchService.TranslationEvents | server/src/main/java/com/quran/omni/search/SearchService.java:254-261 | filling in translations only adds translations, at score 0 |
| SearchService.TranslationEventsFor | server/src/main/java/com/quran/omni/search/SearchService.java:254-261 | a group receives one local translation exactly when it had none and the repository knows its key |
| SearchService.TranslationsFilled | server/src/main/java/com/quran/omni/search/SearchService.java:254-261 | after `ensureTranslations`, a group that had no translation and whose verse the repository knows holds exactly the local translation; every other group keeps its translations |
| SearchService.TranslationsKeep | server/src/main/java/com/quran/omni/search/SearchService.java:254-261 | filling in translations leaves every group's Quran text, tafsirs and posts unchanged |
| SearchService.AyahResults | server/src/main/java/com/quran/omni/search/SearchService.java:149-152 | the verse results are every group converted, each once, sorted by descending top score |
| SearchService.GroupResults | server/src/main/java/com/quran/omni/search/SearchService.java:149-150 | each group is converted for the resolved language |
| SearchService.AyahResultsTopIsBest | server/src/main/java/com/quran/omni/search/SearchService.java:149-152 | every verse result of healthy groups has the best score among its members as its top score |
| SearchService.PermutationKeepsTopIsBest | server/src/main/java/com/quran/omni/search/SearchService.java:151 | sorting the verse results keeps each one's top score the best of its members |
| SearchService.DirectHits | server/src/main/java/com/quran/omni/search/SearchService.java:167-170 | the direct hits are the candidates, none lost or added, sorted by descending score |
| SearchService.DirectHitsContents | server/src/main/java/com/quran/omni/search/SearchService.java:154-165 | a post is a direct hit exactly when no post with its id is attached to a verse, so a post listing a valid key never is; every course and every article is one |
| SearchService.CandidatePost | server/src/main/java/com/quran/omni/search/SearchService.java:155-159 | a post is a candidate exactly when its id is not attached, and a post listing a valid key has its id attached |
| SearchService.CandidatePostIsFree | server/src/main/java/com/quran/omni/search/SearchService.java:155-159 | a post is a candidate exactly when it survives the attachment filter |
| SearchService.CandidateCourse | server/src/main/java/com/quran/omni/search/SearchService.java:160-162 | every course is a candidate, and only courses found |
| SearchService.CandidateArticle | server/src/main/java/com/quran/omni/search/SearchService.java:163-165 | every article is a candidate, and only articles found |
| SearchService.ResolveLanguage | server/src/main/java/com/quran/omni/search/SearchService.java:51-55 | the language results are ordered for has no upper-case letter and equals, up to case, the request's language when that is given and not blank, and the configured default otherwise |
| SearchService.ResolveLanguageDefault | server/src/main/java/com/quran/omni/search/SearchService.java:51-55 | without a language in the request, results are ordered for exactly the configured default language |
| SearchService.ResolveLanguageIgnoresCase | server/src/main/java/com/quran/omni/search/SearchService.java:51-55 | two request languages that differ only in letter case order results the same way |
| SearchService.GroupsHealthy | server/src/main/java/com/quran/omni/search/SearchService.java:101-147 | all three phases of grouping keep each key listed once, each group under its own key with a top score no member exceeds and some member attains, and no negative score |
| SearchService.ApplyAllHealthy | server/src/main/java/com/quran/omni/search/SearchService.java:101-147 | applying updates with non-negative scores keeps healthy groups healthy |
| SearchService.AttachedPostGrouped | server/src/main/java/com/quran/omni/search/SearchService.java:133-140 | a post listing a valid verse key ends up in that verse's group, even after the fill-in phases |
| SearchService.Search | server/src/main/java/com/quran/omni/search/SearchService.java:45-174 | `search` fails exactly for a blank query, with "query is required"; otherwise it answers with the trimmed query, direct hits and verse results each sorted by score, and their total |
| SearchService.SearchAyahsTopIsBest | server/src/main/java/com/quran/omni/search/SearchService.java:45-174 | every verse result of a successful search has the best score among its members as its top score |
| SearchService.SearchDirectHits | server/src/main/java/com/quran/omni/search/SearchService.java:154-170 | the direct hits of a successful search are exactly the posts attached to no verse, every course and every article |
| GoodMemClient.ResolveRerankCandidateSize | server/src/main/java/com/quran/omni/goodmem/GoodMemClient.java:323-328 | the reranker candidate count is always positive, and is the configured one exactly when that is positive (100 otherwise) |
| GoodMemClient.BuildRetrieveRequest | server/src/main/java/com/quran/omni/goodmem/GoodMemClient.java:108-131 | the request carries the query and space id, is reranked exactly when a reranker is configured and no filter is given, asks for at least the limit (exactly the limit without reranking, at least the candidate count with it), and sends a filter exactly when one is given and not blank |
| GoodMemClient.FilteredRequestNotReranked | server/src/main/java/com/quran/omni/goodmem/GoodMemClient.java:108-131 | a request with a non-blank filter is never reranked, asks for exactly the limit and carries the filter |
| GoodMemClient.NormalizeScore | server/src/main/java/com/quran/omni/goodmem/GoodMemClient.java:338-346 | a normalised score is never negative, 0 for a missing or NaN relevance, otherwise the relevance or its negation |
| GoodMemClient.NormalizeScoreIsMagnitude | server/src/main/java/com/quran/omni/goodmem/GoodMemClient.java:338-346 | the normalised score is the magnitude of the relevance: opposite signs score alike, it bounds both signs, and normalising again changes nothing |
| GoodMemClient.Absorb | server/src/main/java/com/quran/omni/goodmem/GoodMemClient.java:157-187 | a stream line records the last metadata given for its memory, and a chunk replaces the memory's best entry only when it scores strictly higher; a memory joins the order when its first chunk arrives |
| GoodMemClient.Merge | server/src/main/java/com/quran/omni/goodmem/GoodMemClient.java:151-189 | reading the stream succeeds exactly when every line decodes |
| GoodMemClient.EntryOf | server/src/main/java/com/quran/omni/goodmem/GoodMemClient.java:168-184 | a line contributes at most one chunk for a memory, with a non-negative score |
| GoodMemClient.ChunkEntries | server/src/main/java/com/quran/omni/goodmem/GoodMemClient.java:168-184 | every chunk of the stream scores at least 0 once normalised |
| GoodMemClient.ReferenceSnoc | server/src/main/java/com/quran/omni/goodmem/GoodMemClient.java:151-189 | one more line adds its chunk to a memory's chunks and, when it defines the memory, becomes its last metadata |
| GoodMemClient.MergeReflectsStream | server/src/main/java/com/quran/omni/goodmem/GoodMemClient.java:147-189 | for every memory, the merged state keeps the first of its highest-scoring chunks and the metadata of its last definition, and lists each memory with a chunk exactly once |
| GoodMemClient.MergeStep | server/src/main/java/com/quran/omni/goodmem/GoodMemClient.java:151-189 | reading one more line keeps the merged state in agreement with the stream read so far |
| GoodMemClient.HitsFrom | server/src/main/java/com/quran/omni/goodmem/GoodMemClient.java:191-200 | each emitted hit carries its memory's metadata and best chunk, and there is at most one hit per listed memory |
| GoodMemClient.HitsFromCovers | server/src/main/java/com/quran/omni/goodmem/GoodMemClient.java:191-200 | every listed memory with both metadata and a chunk text yields a hit |
| GoodMemClient.HitsFromDistinct | server/src/main/java/com/quran/omni/goodmem/GoodMemClient.java:191-200 | no memory yields two hits |
| GoodMemClient.Retrieve | server/src/main/java/com/quran/omni/goodmem/GoodMemClient.java:97-203 | `retrieve` returns nothing for a non-positive limit; otherwise it succeeds exactly when the exchange succeeds with status 200 and every line decodes; the hits belong to the searched space, score at least 0 and name distinct memories |
| GoodMemClient.RetrieveSkipsRequest | server/src/main/java/com/quran/omni/goodmem/GoodMemClient.java:104-106 | with a non-positive limit the server is never consulted: any exchange gives the same answer |
| GoodMemClient.RetrieveKeepsBestChunk | server/src/main/java/com/quran/omni/goodmem/GoodMemClient.java:147-200 | each hit of a successful retrieval carries its memory's first highest-scoring chunk and the metadata of its last definition, and every memory with both a chunk and a definition yields a hit |
| GoodMemClient.ResolveOverviewCandidateSize | server/src/main/java/com/quran/omni/goodmem/GoodMemClient.java:330-336 | the overview candidate count is positive, never below the overview's result count or a positive configured count, and is one of those or 24 |
| GoodMemClient.NonBlankIds | server/src/main/java/com/quran/omni/goodmem/GoodMemClient.java:220-227 | the overview names exactly the given space ids that are present and not blank, and none when all are blank |
| GoodMemClient.SetIf | server/src/main/java/com/quran/omni/goodmem/GoodMemClient.java:243-251 | an optional setting is sent exactly when its condition holds, with its value |
| GoodMemClient.BuildOverviewRequest | server/src/main/java/com/quran/omni/goodmem/GoodMemClient.java:214-257 | the overview request carries the query as its message, the given spaces, the configured model and the post-processor; the reranker, its threshold and the chronological-resort switch are sent, with their configured values, exactly when a reranker is configured; each generation setting and prompt is sent, with its configured value, exactly when it is set |
| GoodMemClient.FirstResultSummary | server/src/main/java/com/quran/omni/goodmem/GoodMemClient.java:294-309 | the summary taken from `results` is the trimmed first non-blank one, and there is none exactly when every entry is missing or blank |
| GoodMemClient.TrimResultIsTrimmed | server/src/main/java/com/quran/omni/goodmem/GoodMemClient.java:280-309 | each step of reading the overview leaves a trimmed text |
| GoodMemClient.ParseOverview | server/src/main/java/com/quran/omni/goodmem/GoodMemClient.java:273-312 | reading the overview succeeds exactly when every line decodes, and an overview read is always trimmed |
| GoodMemClient.LastAbstractWins | server/src/main/java/com/quran/omni/goodmem/GoodMemClient.java:280-287 | whenever the stream carries a non-blank abstract reply, the overview is the last one, whatever summaries came before or after it |
| GoodMemClient.GenerateOverview | server/src/main/java/com/quran/omni/goodmem/GoodMemClient.java:209-315 | `generateOverview` answers nothing, without a request, when the overview is disabled or no usable space id is given; otherwise it fails exactly when the exchange fails, the status is not 200 or a line does not decode, and on success it is the overview read from the stream, trimmed |
| GoodMemClient.OverviewIsLastAbstract | server/src/main/java/com/quran/omni/goodmem/GoodMemClient.java:266-287 | an accepted exchange whose stream carries a non-blank abstract reply answers with the last such abstract |
| GoodMemClient.OverviewAsksUsableSpaces | server/src/main/java/com/quran/omni/goodmem/GoodMemClient.java:220-230 | when some space id is usable, the overview request lists only usable given ids, at least one, and asks for at least the overview's result count |
| GoodMemClient.SpaceMap | server/src/main/java/com/quran/omni/goodmem/GoodMemClient.java:85-93 | the listing maps exactly the names of entries that carry both a name and an id |
| GoodMemClient.SpaceMapLastWins | server/src/main/java/com/quran/omni/goodmem/GoodMemClient.java:87-93 | the id kept for a name is the one of its last complete entry |
| GoodMemClient.ListSpaces | server/src/main/java/com/quran/omni/goodmem/GoodMemClient.java:71-95 | `listSpaces` succeeds exactly on status 200, and then maps exactly the names of complete entries |
| SpaceRegistry.NewRegistry | server/src/main/java/com/quran/omni/goodmem/SpaceRegistry.java:22-26 | a new registry keeps the configured overrides and lifetime and has fetched nothing |
| SpaceRegistry.Classify | server/src/main/java/com/quran/omni/goodmem/SpaceRegistry.java:59-61 | each listed name is read with `fromString`, keeping its id |
| SpaceRegistry.MapEntriesContents | server/src/main/java/com/quran/omni/goodmem/SpaceRegistry.java:57-63 | a type enters the cached mapping exactly when some listed name reads as it, with the id of such an entry; unrecognised names are dropped |
| SpaceRegistry.MapEntriesLastWins | server/src/main/java/com/quran/omni/goodmem/SpaceRegistry.java:59-62 | when several listed names read as the same type, the last one's id is kept |
| SpaceRegistry.Refresh | server/src/main/java/com/quran/omni/goodmem/SpaceRegistry.java:52-68 | `refresh` replaces the cache and stamps the time only when the cache is missing or expired and the listing arrives; otherwise nothing changes |
| SpaceRegistry.Resolve | server/src/main/java/com/quran/omni/goodmem/SpaceRegistry.java:28-43 | `resolve` returns the overrides alone when they cover every type; otherwise a type is resolved exactly when it is overridden or in the (refreshed if needed) cache, and the override wins over the cache |
| SpaceRegistry.FetchedTypesResolved | server/src/main/java/com/quran/omni/goodmem/SpaceRegistry.java:33-42 | a resolve that fetches answers exactly the overridden types and the types some listed name reads as, taking the listing's id where there is no override |
| SpaceRegistry.FullOverridesNeverFetch | server/src/main/java/com/quran/omni/goodmem/SpaceRegistry.java:29-31 | with overrides for all six types the listing is never consulted and every type is resolved |
| SpaceRegistry.FullKeysHaveAll | server/src/main/java/com/quran/omni/goodmem/SpaceRegistry.java:29 | a map with six space-type keys has every space type as a key |
| SpaceRegistry.FailedFetchRetries | server/src/main/java/com/quran/omni/goodmem/SpaceRegistry.java:56-67 | a failed listing leaves the registry as it was, so the next resolution tries again |
| SpaceRegistry.CacheHitWithinTtl | server/src/main/java/com/quran/omni/goodmem/SpaceRegistry.java:33-50 | after a successful fetch, resolving again within the lifetime uses the cache, with the overrides on top, whatever the listing would say |
| SpaceRegistry.RefetchAfterTtl | server/src/main/java/com/quran/omni/goodmem/SpaceRegistry.java:45-50 | once the lifetime has passed, the next resolution fetches again and stamps the new time |
| Handlers.FirstNonBlank | server/src/main/java/com/quran/omni/Main.java:74-82 | `firstNonBlank` gives a value exactly when one of the two is given, never a blank one, preferring the first |
| Handlers.FirstNonBlankStable | server/src/main/java/com/quran/omni/Main.java:74-82 | the answer is one of the two arguments or nothing, and asking again with the answer first returns it again |
| Handlers.ParseIntParam | server/src/main/java/com/quran/omni/Main.java:84-93 | `parseInt` gives nothing for an absent or blank value, otherwise the trimmed value read as a 32-bit integer |
| Handlers.ParseIntParamOfRendered | server/src/main/java/com/quran/omni/Main.java:84-93 | any 32-bit integer padded with whitespace reads back as itself |
| Handlers.RequestOf | server/src/main/java/com/quran/omni/Main.java:57-63 | the query-string request takes `query` before `q` and `language` before `lang`, reads `limit` with `parseInt`, and passes a non-blank `spaces` value as a one-element list |
| Handlers.BlankSpacesSearchAll | server/src/main/java/com/quran/omni/Main.java:62 | a missing or blank `spaces` parameter searches every space |
| Handlers.QueryBeatsQ | server/src/main/java/com/quran/omni/Main.java:58 | a given `query` parameter wins over `q` |
| Handlers.ErrorReply | server/src/main/java/com/quran/omni/Main.java:38-48 | an `IllegalArgumentException` becomes 400 `bad_request` with its message, and only it; anything else becomes 500 `server_error` |
| Handlers.Answer | server/src/main/java/com/quran/omni/Main.java:68-72 | a request is answered with an error exactly when its query is blank, and then with 400 "query is required"; otherwise the response's total counts its direct hits and verse results |
| Handlers.HandleSearchQuery | server/src/main/java/com/quran/omni/Main.java:57-66 | `GET /api/search` answers 400 `bad_request` exactly when neither `query` nor `q` gives a query that is non-blank once trimmed |
| Handlers.MissingQueryIsBadRequest | server/src/main/java/com/quran/omni/Main.java:57-66 | with neither a non-blank `query` nor a non-blank `q` the reply is 400 "query is required" |
| Handlers.QParamIsSearched | server/src/main/java/com/quran/omni/Main.java:57-66 | a non-blank `q` alone is searched for, trimmed |
| MockData.MaxOf | frontend/src/data/mockData.ts:300 | `Math.max` of the scores is one of them and no score exceeds it |
| MockData.CreateConsolidatedAyah | frontend/src/data/mockData.ts:273-302 | a mock verse group carries its Quran record's key and numbers and exactly the given members, and its top score is the best score among them |
| MockData.CreatedTopIsBest | frontend/src/data/mockData.ts:281-300 | the largest of all member scores is a top score no member exceeds and some member attains |
| MockData.DedupFromSound | frontend/src/data/mockData.ts:480-492 | removing repeated ids keeps hits in input order, each the first with its id, no two sharing an id and none already seen, and every unseen id survives |
| MockData.Dedup | frontend/src/data/mockData.ts:480-492 | the deduplicated hits are the first hit of each id, in input order, and every id of the input is still present |
| MockData.FirstWithIdIn | frontend/src/data/mockData.ts:480-492 | the first hit with an id has that id, which is then an id of the hits |
| MockData.DedupFromOfDistinct | frontend/src/data/mockData.ts:480-492 | hits whose ids are already distinct and unseen come through unchanged |
| MockData.DedupIdempotent | frontend/src/data/mockData.ts:480-492 | removing repeated ids twice is the same as once |
| MockData.Take | frontend/src/data/mockData.ts:477 | `slice(0, n)` is the first `n` elements, or all of them when there are fewer |
| MockData.WithFallback | frontend/src/data/mockData.ts:450-478 | the generic fallback applies only when nothing was collected and then supplies the group of verse 1:1 with one translation, two posts and one article; afterwards something is always there |
| MockData.SortedKeepsIds | frontend/src/data/mockData.ts:494-496 | sorting hits keeps their ids and their distinctness |
| MockData.MultiplicityOfDistinct | frontend/src/data/mockData.ts:480-492 | in hits with distinct ids each hit occurs once |
| MockData.DistinctTail | frontend/src/data/mockData.ts:480-492 | dropping the first of hits with distinct ids keeps them distinct, and no later hit shares its id |
| MockData.MockSearch | frontend/src/data/mockData.ts:305-502 | `mockSearch` echoes the query, falls back to verse 1:1 when nothing matched, sorts both lists by score, keeps exactly one hit per id (the first) without losing an id, loses no verse group, and counts at least one result |
| MockData.NothingMatchedGivesFallback | frontend/src/data/mockData.ts:450-478 | a query no keyword matches gets exactly one verse group and at most three direct hits |
| MockData.DedupSubsequenceLength | frontend/src/data/mockData.ts:480-492 | removing repeats never lengthens the list |
| DisplayFilter.ActiveCategory | frontend/src/components/SearchResults.tsx:41 | the post category filter is in force only while posts are shown, and is then the chosen one |
| DisplayFilter.FilterHits | frontend/src/components/SearchResults.tsx:43-54 | the filtered direct hits keep the response's order and come from it |
| DisplayFilter.ShownGroups | frontend/src/components/SearchResults.tsx:56 | verse groups are shown unchanged exactly when the Quran space is active, and none otherwise |
| DisplayFilter.DisplayTotal | frontend/src/components/SearchResults.tsx:57 | the displayed count never exceeds the response's direct hits plus verse groups |
| DisplayFilter.Courses | frontend/src/components/SearchResults.tsx:75 | the sidebar holds only courses |
| DisplayFilter.OtherHits | frontend/src/components/SearchResults.tsx:76 | the related-content column holds no course |
| DisplayFilter.CourseAndArticleSurvival | frontend/src/components/SearchResults.tsx:43-54 | a course or an article of the response is shown exactly when its space is active, whatever the category |
| DisplayFilter.PostSurvival | frontend/src/components/SearchResults.tsx:45-51 | a post is shown exactly when posts are active and either no category is chosen or the post is a reflection |
| DisplayFilter.EverythingShown | frontend/src/components/SearchResults.tsx:36-57 | with every space active and no category, the view shows the whole response and its count is the response's |
| DisplayFilter.FilterHitsIdempotent | frontend/src/components/SearchResults.tsx:43-54 | filtering again with the same spaces and category changes nothing |
| DisplayFilter.FilterKeepsAll | frontend/src/components/SearchResults.tsx:43-54 | a filter every hit passes keeps the list as it is |
| DisplayFilter.ColumnsPartition | frontend/src/components/SearchResults.tsx:75-76 | the sidebar and the related content together hold each shown hit exactly as often as the filtered list, so the count is also the groups plus both columns |
| DisplayFilter.ColumnsContents | frontend/src/components/SearchResults.tsx:75-76 | both columns keep the filtered order, and with Course inactive the sidebar is empty |
| AyahCard.Transliterate | frontend/src/components/AyahCard.tsx:29-33 | the characters of a number's text become Arabic-Indic digits, never more of them than there were characters |
| AyahCard.ToArabicNumerals | frontend/src/components/AyahCard.tsx:27-34 | one Arabic-Indic digit per decimal digit of the number, digit for digit, reading back as the number's magnitude |
| AyahCard.TransliterateDropsSign | frontend/src/components/AyahCard.tsx:29-33 | a negative number is written like its magnitude, the minus sign contributing nothing |
| AyahCard.NumeralsOfDigits | frontend/src/components/AyahCard.tsx:29-33 | a decimal digit string becomes as many Arabic-Indic digits, each the same digit, denoting the same number |
| AyahCard.TransliterateDigits | frontend/src/components/AyahCard.tsx:29-33 | on a decimal digit string each character becomes the Arabic-Indic digit of the same value |
| AyahCard.ArabicValueOfDigits | frontend/src/components/AyahCard.tsx:29-33 | the Arabic-Indic digits of a decimal digit string denote the same number |
| AyahCard.AyahMarker | frontend/src/components/AyahCard.tsx:57 | the verse marker is the end-of-ayah sign followed by Arabic-Indic digits that read back as the verse number |
| AyahCard.Expanded | frontend/src/components/AyahCard.tsx:189-284 | the expanded section lists every post, course and article and every translation but the first, and only those translations |
| AyahCard.ExtraTranslations | frontend/src/components/AyahCard.tsx:49 | the extra translations are those after the first, none when there are no translations |
| AyahCard.TotalRelated | frontend/src/components/AyahCard.tsx:47-54 | the button's count is the number of entries the expanded section lists, so it appears exactly when there is a post, a course, an article or a second translation |
| AyahCard.TotalRelatedIgnoresShownItems | frontend/src/components/AyahCard.tsx:47-54 | changing the tafsirs or the first translation leaves the count unchanged |
| AyahCard.SummaryParts | frontend/src/components/AyahCard.tsx:174-179 | the summary has at most four parts, each with a positive count |
| AyahCard.Present | frontend/src/components/AyahCard.tsx:179 | `filter(Boolean)` keeps only parts with a positive count and never adds one |
| AyahCard.PresentKeepsTotal | frontend/src/components/AyahCard.tsx:174-179 | dropping the zero counts keeps the sum of the counts |
| AyahCard.SummaryAddsUp | frontend/src/components/AyahCard.tsx:171-179 | the counts in the summary add up to the number on the button |
| AyahCard.HurufVersesAreFirstVerses | frontend/src/components/AyahCard.tsx:19-24 | each of the 29 listed keys is the canonical key of the first verse of a surah within the 114 |
| AyahCard.HurufSurahsIncrease | frontend/src/components/AyahCard.tsx:19-24 | the listed surahs are in strictly increasing order |
| AyahCard.IncreasingEverywhere | frontend/src/components/AyahCard.tsx:19-24 | order between neighbours gives order between any two positions of the list |
| AyahCard.FirstVerseKeys | frontend/src/components/AyahCard.tsx:19-24 | first-verse keys of increasing surahs are all different, and a listed key is a valid key of a first verse |
| AyahCard.HurufVersesDistinct | frontend/src/components/AyahCard.tsx:19-24 | the 29 listed keys are all different, as a `Set` of them holds 29 |
| AyahCard.IsHurufMuqattaat | frontend/src/components/AyahCard.tsx:45 | a verse opens with disconnected letters exactly when its key is the first-verse key of a listed surah, and such a key is always valid |

## Left out

- Character handling: case folding (`toLowerCase`, `equalsIgnoreCase`) covers ASCII letters only. Digits for `Integer.parseInt` are ASCII only. Strings count characters, not UTF-16 units. Full Unicode case mapping is outside the model.
- JSON decoding: only integral numbers are modelled. `getString` reads them through the rounding of `asDouble()` and the saturating `(long)` cast. Fractional numbers are left out, and so is `Double.toString`, the form `getString` gives them. Descriptive fields that are copied verbatim and never inspected are omitted: edition, author, url, user and lesson names.
- Networking: HTTP, TLS, timeouts, headers and the HTTP client setup (`buildClient`, `readErrorBody`) are left out. A request is a function from request to reply, `None` when the exchange fails.
- Concurrency: the per-space retrievals run concurrently in the source and are joined in submission order. Here they are made one after another in that order. All retrieval events are computed before the verse map is filled.
- `HashMap` iteration order is unspecified in Java. The verse map, the score-by-memory map and the space listing keep first-insertion order instead. Only sortedness and permutation are claimed about lists that come from them.
- Relevance scores are reals. A missing or NaN relevance is `None`. The distinction between `-0.0` and `0.0` is not modelled.
- GoodMemClient: the client reads the reranker id, the LLM id, the overview prompts and the reranking threshold through accessors that the `AppConfig` record does not declare. These settings are therefore a parameter of the client (`ClientSettings`), not fields of `AppConfig`.
- `getIntList`: a post's `surahs` list is copied verbatim and never inspected, so it is omitted along with the other descriptive fields.
- Local repositories: `QuranTextRepository` and `TranslationRepository` are maps loaded beforehand. Loading `quran.json` and the SQLite translation file is left out.
- The Quran-text fallback: its retrieved hits enter the verse map under whatever key they carry, without the key validation the primary hits go through. The model reproduces this.
- AyahKeys.Batches: requires a positive batch size. The only caller passes 25, and the source loops forever on a size of 0.
- AyahKeys.PaddedKeyReadsAsZero: a key such as `"2: 5"` passes `isValidAyahKey` but `fromKey` reads it as surah 0, ayah 0. This is modelled as the behaviour of the code, not corrected.
- The `setQuran`, `addTranslation` and related aggregate calls are never passed `null` in the source. The model does not consider such calls.
- `String.split` drops trailing empty strings in Java. The model's `Split` keeps them. Every caller skips blank pieces, so the results agree.
- Attached posts are identified by their `post_id`, which may be missing. An unattached post whose id equals that of an attached post is therefore also kept out of the direct hits. The model reproduces this.
- SpaceRegistry: the clock is a parameter of each step. The second `Instant.now()` read during a refresh is taken to be the same instant as the first.
- SearchService: the search context holds the space ids the registry has already resolved, not the registry itself.
- `Main`: the Javalin routes, CORS headers, JSON encoding, the health endpoint and shutdown are left out. Only the assembly of the request and the error replies are modelled.
- `SearchResults` has a `return true` branch for a direct hit of unknown type. The model's direct hits have exactly three kinds, so that branch has no counterpart.
- Rendering is left out: markup, icons, links, `formatDate`, the summary text with its plural forms, the surah-name lookup (`surahNames`) and the expanded/collapsed state of a card.
- AyahCard.ToArabicNumerals: only integers are modelled. For a fraction or an exponent form, the characters `.`, `e` and `+` would be dropped like the minus sign.
- MockData: the fixture texts and the keyword tests that select fixtures are left out. What the keyword branches collected is an input of `MockSearch`.

