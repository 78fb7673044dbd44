# Activity recommendations — a Dafny model

This project models the recommendation endpoint of a catalog site for
school-age extracurricular activities: hackathons, essay contests, startup
competitions and summer programs. It also models the category links on the
home page.

When the route module loads, it merges the four activity collections into
one catalog (`app/api/recommendations/route.ts:12-17`), tagging each record
with its category in Russian. The merge happens once, before any request.
The handler `POST /api/recommendations` (route.ts:19-150) then works in three
steps:

1. It rejects a questionnaire with a missing answer.
2. It keeps the records whose age range admits the user's age. English-
   language records are dropped when the user's level is the literal `A1-A2`.
3. It offers the first twenty survivors to a language model. The reply is
   returned if it parses as JSON. If it does not parse, the handler falls
   back to the first three survivors, each with a fixed reason text.

In the model, `Handle` merges the collections on every call. That is the
same catalog as the one merged at load time, because the collections are
constants that no code changes. All lemmas about the handler are stated
about `Respond`, which takes the merged catalog as an arbitrary sequence of
records.

The home page (`app/page.tsx`) derives each category's URL slug from its name:
- lower-case the name;
- replace every run of white space with `-`;
- replace `ё` with `е`.

The model is written in Dafny's functional style, because the source is
functional: expression bodies, `filter`/`slice`/`map`, no loops, no mutable
state. The files are:

- `js_values.dfy` (`JsValues`):
  - JavaScript values, as far as the handler observes them;
  - truthiness and `||`;
  - string conversion;
  - ECMAScript `parseInt` (leading white space, sign, `0x` prefix, longest
    digit prefix, `NaN`);
  - `String.prototype.includes`.
- `age_range.dfy` (`AgeRange`): the regular expression `/(\d+)-(\d+)/` as a
  leftmost-match scan. A declarative definition of a match is proved against
  the scan.
- `eligibility.dfy` (`Eligibility`):
  - the catalog;
  - the filter callback (the age rule, then the language rule);
  - `Array.prototype.filter`, including the case where the callback throws.
- `route.dfy` (`RecommendationRoute`):
  - the handler;
  - the twenty-record prompt projection;
  - the three-record fallback.
- `route_scenarios.dfy` (`RouteScenarios`): concrete requests against small
  catalogs.
- `category_slug.dfy` (`CategorySlug`):
  - the slug expression;
  - a position-wise reference definition of the slug;
  - the slugs of the four category names on the home page.

The handler is a function of the questionnaire, the catalog, the model's
answer and the behaviour of `JSON.parse`. It returns the HTTP response
together with the request it would have sent to the model, if any. This makes
"the model is not asked" a statement the lemmas can make.

Points where the code does less, or other, than its surroundings suggest:
- **English levels.** The questionnaire (`app/recommendations/page.tsx:223-228`)
  offers the levels A1, A2, B1, B2, C1 and C2, one at a time. The handler
  compares `englishLevel` with the literal string `'A1-A2'`
  (route.ts:51), which none of those levels equals. So no answer from the
  questionnaire ever drops an English-language record, not even "A1".
  `FormLevelsNeverBar` and `EnglishRecordScenario` state this.
- **Well-formed replies.** The prompt asks the model for an object with a
  `recommendations` list (route.ts:88-102). The handler falls back only when
  `JSON.parse` throws (route.ts:122-141). Any JSON value that parses is
  returned as it is, whatever its shape (`ParsedReplyPassedThrough`,
  `DistinctRepliesDistinctAnswers`).
- **Age as text.** The questionnaire sends the age as a string
  (`app/recommendations/page.tsx:15`), read with `parseInt(age)` (route.ts:42).
  The model accepts any value and converts it to a string first, as
  `parseInt` does.
- **Non-string languages.** The handler calls `includes` on any truthy
  `language` (route.ts:51). A truthy language that is neither a string nor an
  array throws there, and the outer `catch` (route.ts:143-148) answers with
  status 500.

## Model

| member | source | states |
|---|---|---|
| JsValues.Truthy | app/api/recommendations/route.ts:24-29 | ToBoolean: `undefined`, `null`, `false`, `0` and `""` are falsy, every other value is truthy; a definition with no contract of its own, used by Complete, AgeLimit, Or and LanguageRule |
| JsValues.Or | app/api/recommendations/route.ts:34 | `a \|\| b`: the first operand when it is truthy, otherwise the second; no contract of its own; what it does for the age limit is stated by Eligibility.AgeLimitPrefersSnakeCase |
| JsValues.ToJsString | app/api/recommendations/route.ts:42 | ToString: `undefined`, `null`, `true`/`false`, the decimal text of a number, a string itself, an array's elements joined by commas, `[object Object]` for an object; no contract of its own; stated by ParseIntOfIntToString and RecommendationRoute.ReasonSpec |
| JsValues.ParseDigits | app/api/recommendations/route.ts:40-42 | the value of the longest prefix of digits in the radix, NaN when the text does not start with one; no contract of its own; stated by DigitRun and ParseDigitsOfDecimal |
| JsValues.ParseUnsigned | app/api/recommendations/route.ts:40-42 | the number after the sign: hexadecimal after `0x` or `0X`, decimal otherwise; no contract of its own; stated by ParseIntUnsigned and DecimalHexPrefix |
| JsValues.ParseInt | app/api/recommendations/route.ts:40-42 | `parseInt` without a radix: skip leading white space, take an optional sign, then read as ParseUnsigned does; no contract of its own; stated by TrimStart, ParseIntUnsigned, ParseIntNegative, ParseIntOfDecimal and ParseIntOfIntToString |
| JsValues.Contains | app/api/recommendations/route.ts:51 | `includes` on a string: the search text is a prefix of the text or of one of its suffixes; no contract of its own; stated by ContainsIffOccurs |
| JsValues.TrimStart | app/api/recommendations/route.ts:42 | `parseInt` first skips leading white space: the result is a suffix of the input, everything dropped is white space, and what remains does not start with white space |
| JsValues.DigitRun | app/api/recommendations/route.ts:40-42 | the digits `parseInt` reads form the longest prefix of digits valid in the radix |
| JsValues.NatToString | app/api/recommendations/route.ts:42 | the decimal text of a number is non-empty, all digits, has no leading zero, and reads back as the number |
| JsValues.ContainsIffOccurs | app/api/recommendations/route.ts:51 | `includes` on a string holds exactly when the search text occurs at some position |
| JsValues.DigitsValueAppend | app/api/recommendations/route.ts:40-42 | appending a digit multiplies the value read so far by the radix and adds that digit |
| JsValues.ParseIntUnsigned | app/api/recommendations/route.ts:40-42 | a text that starts with a decimal digit, without a `0x` prefix, is read in base ten |
| JsValues.ParseIntNegative | app/api/recommendations/route.ts:42 | a leading minus sign negates the number read after it |
| JsValues.DigitRunOfDecimal | app/api/recommendations/route.ts:40-42 | the digit run of decimal digits followed by a non-digit is exactly those digits |
| JsValues.ParseDigitsOfDecimal | app/api/recommendations/route.ts:40-42 | reading decimal digits followed by a non-digit gives the digits' value |
| JsValues.DecimalHexPrefix | app/api/recommendations/route.ts:40-42 | decimal digits start a hexadecimal prefix only when they are the single digit 0 followed by `x` or `X` |
| JsValues.ParseIntOfDecimal | app/api/recommendations/route.ts:40-42 | `parseInt` of decimal digits followed by a non-digit gives their value, except for the `0x` prefix |
| JsValues.ParseIntOfIntToString | app/api/recommendations/route.ts:42 | `parseInt(age)` of an integer age gives that integer back |
| AgeRange.MatchAt | app/api/recommendations/route.ts:38 | one attempt of `(\d+)-(\d+)` at a position: the longest digit run there, a `-`, and the longest non-empty digit run after it, or no match; no contract of its own; stated by MatchAtSpec |
| AgeRange.FirstFrom | app/api/recommendations/route.ts:38 | the first successful attempt at the position or later; no contract of its own; stated by FirstFromSpec |
| AgeRange.FirstRangeMatch | app/api/recommendations/route.ts:38 | `ageLimit.match(/(\d+)-(\d+)/)`: the two groups of the first match, or none for `null`; no contract of its own; stated by FirstRangeMatchSpec |
| AgeRange.MatchAtSound | app/api/recommendations/route.ts:38 | a match the scan reports at a position is a match of `(\d+)-(\d+)` there, with its two groups |
| AgeRange.DigitRunAt | app/api/recommendations/route.ts:38 | a maximal run of digits at a position is what the scan reads as a group |
| AgeRange.MatchAtRuns | app/api/recommendations/route.ts:38 | two digit runs separated by `-` make the scan report exactly those runs as the groups |
| AgeRange.MatchAtComplete | app/api/recommendations/route.ts:38 | every match at a position is the one the scan reports there |
| AgeRange.MatchAtSpec | app/api/recommendations/route.ts:38 | the scan at a position reports a match exactly when one exists, and reports that match |
| AgeRange.FirstFromSpec | app/api/recommendations/route.ts:38 | scanning from a position finds the leftmost match from there, or none when none exists |
| AgeRange.FirstRangeMatchSpec | app/api/recommendations/route.ts:38-39 | `ageLimit.match(...)` is null exactly when the text has no match; otherwise it gives the groups of the leftmost match |
| AgeRange.FirstFromGroups | app/api/recommendations/route.ts:38 | both capture groups of a match are non-empty decimal digit strings |
| AgeRange.ParseIntOfGroup | app/api/recommendations/route.ts:40-41 | `parseInt` of a capture group is its decimal value, never NaN |
| Eligibility.AllActivities | app/api/recommendations/route.ts:12-17 | `allActivities`: the four collections concatenated, each record tagged with its category; no contract of its own; stated by AllActivitiesLayout and CatalogCategories |
| Eligibility.AgeLimit | app/api/recommendations/route.ts:34 | `age_limit \|\| ageLimit` of a record; no contract of its own; stated by AgeLimitPrefersSnakeCase |
| Eligibility.AgeExcludes | app/api/recommendations/route.ts:34-47 | the age test: a truthy string limit with a range, and `parseInt` of the age below the first group or above the second, every comparison with NaN false; no contract of its own; stated by AgeExcludesDecimal, AgeRuleByFirstMatch and AgeRuleNoConstraint |
| Eligibility.LanguageRule | app/api/recommendations/route.ts:51-53 | the language test: a bar for an English string or array at level `A1-A2`, a thrown error for another truthy language, otherwise nothing; no contract of its own; stated by LanguageBarSpec, LanguageTypeErrorSpec and FormLevelsNeverBar |
| Eligibility.Judge | app/api/recommendations/route.ts:32-56 | the filter callback: drop when the age test holds; otherwise throw, drop or keep as the language test says; no contract of its own; stated through AgeExcludesDecimal and LanguageBarSpec, and by the scenarios in RouteScenarios |
| Eligibility.FilterBy | app/api/recommendations/route.ts:32-56 | `filter`: the accepted elements in order, or nothing when the callback throws on an element; no contract of its own; stated by FilterByThrows and FilterBySelects |
| Eligibility.Filter | app/api/recommendations/route.ts:32-56 | `filteredActivities`: FilterBy with the callback Judge; no contract of its own; stated by FilterSpec and FilterPrefix |
| Eligibility.Tag | app/api/recommendations/route.ts:13-16 | tagging keeps the length, and each tagged record is the original with `category` set |
| Eligibility.AllActivitiesLayout | app/api/recommendations/route.ts:12-17 | the catalog is the hackathons, essays, startups and summer programs in that order, each tagged with its category |
| Eligibility.TagCategory | app/api/recommendations/route.ts:13-16 | a tagged record's `category` is the collection's category name |
| Eligibility.CatalogCategories | app/api/recommendations/route.ts:12-17 | every catalog record carries one of the four category names |
| Eligibility.AgeExcludesDecimal | app/api/recommendations/route.ts:34-47 | the age test drops a record exactly when its age limit is a string with a range, the age parses, and the age lies below the first group or above the second |
| Eligibility.AgeRuleByFirstMatch | app/api/recommendations/route.ts:34-47 | against the leftmost match of the range, a record is dropped exactly when the age is outside `min..max`; both bounds are inclusive |
| Eligibility.AgeRuleNoConstraint | app/api/recommendations/route.ts:34-39 | a missing or non-string age limit, a limit without a range, or an unparsable age never makes the age test drop a record; the language test can still drop it |
| Eligibility.AgeLimitPrefersSnakeCase | app/api/recommendations/route.ts:34 | `age_limit` wins over `ageLimit` whenever it is truthy |
| Eligibility.LanguageBarSpec | app/api/recommendations/route.ts:51-53 | the language test drops a record exactly when the level is the literal `A1-A2` and the language mentions English, as a substring or as an array element |
| Eligibility.LanguageTypeErrorSpec | app/api/recommendations/route.ts:51 | the language test throws exactly for a truthy language that is neither a string nor an array |
| Eligibility.FormLevelsNeverBar | app/api/recommendations/route.ts:51 | the levels A1, A2, B1, B2, C1 and C2 never drop a record on its language |
| Eligibility.FilterByThrows | app/api/recommendations/route.ts:32-56 | `filter` throws exactly when the callback throws on some element |
| Eligibility.ShiftMembers | app/api/recommendations/route.ts:32-56 | shifting a selection's positions by one adds one to each position |
| Eligibility.SelectionCons | app/api/recommendations/route.ts:32-56 | extending a selection by the list's head, kept or not, gives a selection of the longer list |
| Eligibility.SelectsAcceptedCons | app/api/recommendations/route.ts:32-56 | the head step of `filter` preserves "selects exactly the accepted elements" |
| Eligibility.FilterBySelects | app/api/recommendations/route.ts:32-56 | when `filter` returns, its result is, in order, exactly the elements the callback accepts |
| Eligibility.FilterSpec | app/api/recommendations/route.ts:32-56 | the filtered list is absent exactly when the callback throws on some record; otherwise it is the kept records, in catalog order, with none missing |
| Eligibility.FilterByPrefix | app/api/recommendations/route.ts:32-56 | any prefix of the filter's result consists of accepted elements at increasing positions |
| Eligibility.FilterPrefix | app/api/recommendations/route.ts:32-56 | any prefix of the filtered list consists of kept catalog records, in catalog order |
| RecommendationRoute.Complete | app/api/recommendations/route.ts:24-29 | the questionnaire check: all five answers are truthy; no contract of its own; stated by IncompleteProfileRejected and CompleteProfileAccepted |
| RecommendationRoute.Project | app/api/recommendations/route.ts:59-72 | one prompt entry: the record's fields, with the team size `teamSize \|\| team_size`; no contract of its own; stated by PromptCandidates |
| RecommendationRoute.Reason | app/api/recommendations/route.ts:130 | the reason template with the subject converted to a string; no contract of its own; stated by ReasonSpec |
| RecommendationRoute.FallbackFor | app/api/recommendations/route.ts:127-136 | one fallback item: title, description, reason, category, level, format, deadline and organizer of a record; no contract of its own; stated by FallbackItems and FallbackItemsFromEligible |
| RecommendationRoute.ReplyText | app/api/recommendations/route.ts:120-123 | `responseText \|\| '{}'`: the content, or `{}` when it is missing or empty; no contract of its own; stated by EmptyReplyIsEmptyObject |
| RecommendationRoute.Respond | app/api/recommendations/route.ts:19-150 | the handler over a given catalog: 400 for an incomplete questionnaire; 500 when the callback throws or the provider fails; otherwise the parsed reply, or the three-record fallback when it does not parse, with the request the model was sent; no contract of its own; stated by IncompleteProfileRejected, CompleteProfileAccepted, RespondAsks, ParseErrorFallsBack and ParsedReplyPassedThrough |
| RecommendationRoute.Handle | app/api/recommendations/route.ts:19-150 | `POST`: Respond against the catalog merged at module load; no contract of its own; stated by HandleCandidateCategories |
| RecommendationRoute.HandleCandidateCategories | app/api/recommendations/route.ts:12-72 | against the merged catalog, every activity listed in the prompt carries one of the four category names |
| RecommendationRoute.PromptCandidates | app/api/recommendations/route.ts:59-72 | the prompt lists at most twenty activities: the projections of the first filtered records, in order |
| RecommendationRoute.FallbackItems | app/api/recommendations/route.ts:127-136 | the fallback lists at most three items, built from the first filtered records in order |
| RecommendationRoute.ReasonSpec | app/api/recommendations/route.ts:130 | the fallback reason is the fixed text followed by the subject; a missing subject reads as "undefined" |
| RecommendationRoute.IncompleteProfileRejected | app/api/recommendations/route.ts:21-29 | a questionnaire with a missing or falsy answer gets status 400, and the model is not asked |
| RecommendationRoute.CompleteProfileAccepted | app/api/recommendations/route.ts:24-56 | a complete questionnaire is never rejected; the model is asked exactly when the callback throws on no record, and otherwise the answer is status 500 |
| RecommendationRoute.RespondAsks | app/api/recommendations/route.ts:59-118 | when the model is asked, the questionnaire was complete, the filter returned, and the request holds the profile and the prompt candidates |
| RecommendationRoute.CandidatesFromEligible | app/api/recommendations/route.ts:59-72 | the prompt candidates number at most twenty, each the projection of a kept catalog record, in catalog order |
| RecommendationRoute.ModelRequestFromEligible | app/api/recommendations/route.ts:59-118 | the request sent to the model carries the user's answers and at most twenty projections of kept catalog records, in catalog order |
| RecommendationRoute.ParseErrorFallsBack | app/api/recommendations/route.ts:122-141 | a reply that fails to parse gives the fallback built from the whole filtered list, with at most three items |
| RecommendationRoute.ParsedReplyPassedThrough | app/api/recommendations/route.ts:122-124 | a reply that parses is returned as it is, whatever its shape |
| RecommendationRoute.DistinctRepliesDistinctAnswers | app/api/recommendations/route.ts:122-124 | replies that parse to different values, objects with different properties included, get different responses |
| RecommendationRoute.EmptyReplyIsEmptyObject | app/api/recommendations/route.ts:120-124 | a missing or empty reply is parsed as `{}`, so it is answered and never falls back |
| RecommendationRoute.FallbackDeterministic | app/api/recommendations/route.ts:125-141 | two replies that both fail to parse give the same response |
| RecommendationRoute.FallbackFromEligible | app/api/recommendations/route.ts:125-141 | every fallback item is built from a kept catalog record, in catalog order, at most three, and is the same activity as the prompt candidate at its position |
| RecommendationRoute.FallbackItemsFromEligible | app/api/recommendations/route.ts:127-136 | the fallback items come from kept catalog records, in catalog order, and match the prompt candidates position by position |
| RouteScenarios.RangeOf | app/api/recommendations/route.ts:38 | an age limit that starts with `min-max` followed by a non-digit has that range as its leftmost match |
| RouteScenarios.TwoDigits | app/api/recommendations/route.ts:40-41 | a two-digit group reads as ten times its first digit plus its second |
| RouteScenarios.HackathonRange | app/api/recommendations/route.ts:37-41 | "15-18 лет" reads as the range 15 to 18 |
| RouteScenarios.SummerProgramRange | app/api/recommendations/route.ts:37-41 | "19-25 лет" reads as the range 19 to 25 |
| RouteScenarios.AgeSixteen | app/api/recommendations/route.ts:42 | the age 16, sent as a number, parses to 16 |
| RouteScenarios.HackathonKept | app/api/recommendations/route.ts:32-56 | a Russian-language activity for ages 15 to 18 is kept for a sixteen-year-old |
| RouteScenarios.SummerProgramDropped | app/api/recommendations/route.ts:34-47 | an activity for ages 19 to 25 is dropped for a sixteen-year-old |
| RouteScenarios.FilterByKeepThenDrop | app/api/recommendations/route.ts:32-56 | of an accepted element followed by a rejected one, `filter` keeps the first |
| RouteScenarios.SixteenYearOldScenario | app/api/recommendations/route.ts:32-56 | of those two activities, a sixteen-year-old's filtered list is the first alone |
| RouteScenarios.EnglishRecordScenario | app/api/recommendations/route.ts:51-53 | an English-language activity is kept at level "A1" and dropped only at the literal "A1-A2" |
| RouteScenarios.TruncationScenario | app/api/recommendations/route.ts:59-141 | with twenty or more eligible records and an unparsable reply, the prompt holds the first twenty, while the fallback holds the first three of the whole list |
| CategorySlug.LowerChar | app/page.tsx:113 | `toLowerCase` of one character over Basic Latin, Latin-1 and the Cyrillic blocks, any other character unchanged; no contract of its own; stated by LowerCharFacts and LowerKazakhLetters |
| CategorySlug.Lower | app/page.tsx:113 | `toLowerCase`: every character lower-cased, in place; no contract of its own; stated by TrimStartLower and LowerSpaceHead |
| CategorySlug.CollapseSpaces | app/page.tsx:113 | `replace(/\s+/g, "-")`: each maximal run of white space becomes one `-`; no contract of its own; stated by CollapseSpacesOfSpaceHead |
| CategorySlug.ReplaceYo | app/page.tsx:113 | `replace(/ё/g, "е")`: every `ё` becomes `е`; no contract of its own; stated by ReplaceYoAppend |
| CategorySlug.Slug | app/page.tsx:113 | the three steps in the order written; no contract of its own; stated by SlugSpec, SlugFolded, SlugKeepsLetters and SlugIdempotent |
| CategorySlug.LowerCharFacts | app/page.tsx:113 | lower-casing a character keeps white space and `-`, yields `ё` exactly from `ё` and `Ё`, and lower-casing twice changes nothing |
| CategorySlug.LowerKazakhLetters | app/page.tsx:113 | the Kazakh letters beyond Russian's, and І, are lower-cased |
| CategorySlug.FoldFacts | app/page.tsx:113 | the per-character fold keeps white space and `-`, never yields `ё`, and folding twice changes nothing |
| CategorySlug.TrimStartLower | app/page.tsx:113 | lower-casing commutes with dropping leading white space |
| CategorySlug.ReplaceYoAppend | app/page.tsx:113 | replacing `ё` distributes over concatenation |
| CategorySlug.ScanAfterSpace | app/page.tsx:113 | right after a space, the slug skips further white space |
| CategorySlug.CollapseSpacesOfSpaceHead | app/page.tsx:113 | a run of white space at the head becomes a single `-` |
| CategorySlug.SlugOfSpaceHead | app/page.tsx:113 | a name starting with white space slugs to `-` followed by the slug of the rest after that run |
| CategorySlug.LowerSpaceHead | app/page.tsx:113 | lower-casing keeps a leading white-space character |
| CategorySlug.SlugOfOtherHead | app/page.tsx:113 | a name starting with another character slugs to that character folded, followed by the slug of the rest |
| CategorySlug.SlugIsScan | app/page.tsx:113 | the slug expression equals a single left-to-right scan |
| CategorySlug.ScanIsPieces | app/page.tsx:113 | the scan from a position equals the position-wise definition from there |
| CategorySlug.SlugSpec | app/page.tsx:113 | the slug is, position by position, the folded character, `-` for the first white space of a run, and nothing for the rest of the run |
| CategorySlug.ScanFolded | app/page.tsx:113 | the scan yields no white space and no `ё` |
| CategorySlug.SlugFolded | app/page.tsx:113 | a slug contains no white space and no `ё` |
| CategorySlug.ScanOfFolded | app/page.tsx:113 | the scan leaves folded text unchanged |
| CategorySlug.SlugIdempotent | app/page.tsx:113 | slugging a slug changes nothing |
| CategorySlug.LettersOfDashHead | app/page.tsx:113 | a leading `-` carries no letters |
| CategorySlug.ScanLetters | app/page.tsx:113 | the scan keeps every non-space, non-dash character, folded, in order |
| CategorySlug.SlugKeepsLetters | app/page.tsx:113 | a slug keeps every character of the name other than white space and `-`, folded, in order, and adds none |
| CategorySlug.ScanWordThen | app/page.tsx:113 | a word without white space scans to its folded letters, followed by the scan of what comes after |
| CategorySlug.OneWordSlug | app/page.tsx:113 | a one-word name slugs to its folded letters |
| CategorySlug.TwoWordSlug | app/page.tsx:113 | two words around one space slug to the folded words joined by `-` |
| CategorySlug.SummerProgramsSlug | app/page.tsx:15 | "Летние программы" links to `летние-программы` |
| CategorySlug.StartupsSlug | app/page.tsx:16 | "Стартап конкурсы" links to `стартап-конкурсы` |
| CategorySlug.HackathonsSlug | app/page.tsx:17 | "Хакатоны" links to `хакатоны` |
| CategorySlug.EssaysSlug | app/page.tsx:18 | "Конкурсы Эссе" links to `конкурсы-эссе` |
| CategorySlug.CapitalYoBecomesYe | app/page.tsx:113 | a capital `Ё` is lower-cased and then replaced, so "Ёлка Ёж" links to `елка-еж` |

## Left out

- The call to the OpenAI chat API (`app/api/recommendations/route.ts:105-118`). The model's answer is an input: a provider error, or the content of the first choice, which may be null.
- `JSON.parse` is an input, a function from text to a parsed value or a parse error. Which texts are valid JSON is not modelled.
- The prompt text and `JSON.stringify` of the candidates. The model request carries the profile and the candidate list instead.
- HTTP plumbing and logging: reading the request body (a body that is not JSON also ends in status 500), `Response.json`, the response texts and `console.error`.
- The data modules `data/hackathons`, `data/essays`, `data/startups` and `data/summer-programs` are not part of this model. The collections are arbitrary sequences of records.
- Numbers are integers. Fractions, `NaN` and infinite values as JSON numbers are left out, and so is JavaScript's exponent notation for numbers of 10^21 and above.
- `parseInt` is exact. Its loss of precision above 2^53 is left out.
- `toLowerCase` covers Basic Latin (U+0041 to U+005A), Latin-1 (U+00C0 to U+00DE) and the Cyrillic and Cyrillic Supplement blocks (U+0400 to U+052F). Characters outside these ranges are left unchanged. Full Unicode case mapping would also lower-case Latin Extended, Greek, Armenian and others. No category name on the home page uses them.
- Properties inherited through an object's prototype are not seen by property lookup. Records are plain maps.
- The React page, the components and everything else in `app/page.tsx` except the slug expression.
- TruncationScenario: states the truncation for any filtered list of twenty or more records, not for exactly twenty-five.
- SixteenYearOldScenario: states the ages and languages of the two activities and the age of the user; the other fields of the questionnaire play no part in the filter and are left free.
