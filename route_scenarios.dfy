/** Concrete requests against small catalogs: the age ranges "15-18 лет" and
    "19-25 лет", the English-language record under the levels the
    questionnaire offers, and a filtered list longer than the prompt. */
module RouteScenarios {
  import opened JsValues
  import opened AgeRange
  import opened Eligibility
  import opened RecommendationRoute

  /** An age-limit text that starts with `min-max` followed by a non-digit
      has that range as its first match. */
  lemma RangeOf(s: string, g1: string, g2: string, rest: string)
    requires |g1| > 0 && AllDecimal(g1) && |g2| > 0 && AllDecimal(g2)
    requires rest == [] || !IsDecimalDigit(rest[0])
    requires s == g1 + "-" + g2 + rest
    ensures FirstRangeMatch(s) == Some((g1, g2))
  {
    var j := |g1|;
    var k := j + 1 + |g2|;
    assert s[..j] == g1 && s[j] == '-' && s[j + 1..k] == g2;
    assert k < |s| ==> s[k] == rest[0];
    assert Matches(s, 0, g1, g2);
    assert IsFirstMatch(s, 0, g1, g2);
    FirstRangeMatchSpec(s);
  }

  /** The value of a two-digit decimal group. */
  lemma TwoDigits(g: string)
    requires |g| == 2 && AllDecimal(g)
    ensures DigitsValue(g, 10) == DigitVal(g[0]) * 10 + DigitVal(g[1])
  {
    var h := g[..1];
    assert g[..|g| - 1] == h && h[..|h| - 1] == [];
    assert DigitsValue(h, 10) == DigitVal(h[0]);
  }

  /** A record whose only age limit is `ageLimit: limit`. */
  predicate OnlyCamelLimit(r: Record, limit: string) {
    Get(r, "age_limit") == Undefined && Get(r, "ageLimit") == Str(limit)
  }

  /** The hackathon's age limit reads as the range 15 to 18. */
  lemma HackathonRange(limit: string)
    requires limit == "15-18 лет"
    ensures FirstRangeMatch(limit) == Some((limit[..2], limit[3..5]))
    ensures DigitsValue(limit[..2], 10) == 15 && DigitsValue(limit[3..5], 10) == 18
  {
    var g1, g2, rest := limit[..2], limit[3..5], limit[5..];
    assert g1 == "15" && g2 == "18" && rest == " лет" && limit == g1 + "-" + g2 + rest;
    RangeOf(limit, g1, g2, rest);
    TwoDigits(g1);
    TwoDigits(g2);
  }

  /** The summer program's age limit reads as the range 19 to 25. */
  lemma SummerProgramRange(limit: string)
    requires limit == "19-25 лет"
    ensures FirstRangeMatch(limit) == Some((limit[..2], limit[3..5]))
    ensures DigitsValue(limit[..2], 10) == 19 && DigitsValue(limit[3..5], 10) == 25
  {
    var g1, g2, rest := limit[..2], limit[3..5], limit[5..];
    assert g1 == "19" && g2 == "25" && rest == " лет" && limit == g1 + "-" + g2 + rest;
    RangeOf(limit, g1, g2, rest);
    TwoDigits(g1);
    TwoDigits(g2);
  }

  /** A user aged sixteen, sent as the number 16. */
  lemma AgeSixteen(age: Value)
    requires age == Num(16)
    ensures ParseInt(ToJsString(age)) == Int(16)
  {
    ParseIntOfIntToString(16);
  }

  /** The hackathon for ages 15 to 18 in Russian is kept for a sixteen-year-old. */
  lemma HackathonKept(hackathon: Record, p: Profile, limit: string)
    requires limit == "15-18 лет"
    requires OnlyCamelLimit(hackathon, limit) && Get(hackathon, "language") == Str("Русский")
    requires p.age == Num(16)
    ensures Judge(hackathon, p) == Keep
  {
    HackathonRange(limit);
    AgeSixteen(p.age);
    AgeExcludesDecimal(hackathon, p.age);
    assert !AgeExcludes(hackathon, p.age);
  }

  /** The summer program for ages 19 to 25 is dropped for a sixteen-year-old. */
  lemma SummerProgramDropped(summer: Record, p: Profile, limit: string)
    requires limit == "19-25 лет"
    requires OnlyCamelLimit(summer, limit)
    requires p.age == Num(16)
    ensures Judge(summer, p) == Drop
  {
    SummerProgramRange(limit);
    AgeSixteen(p.age);
    AgeExcludesDecimal(summer, p.age);
    assert AgeExcludes(summer, p.age);
  }

  /** Of an accepted element followed by a rejected one, `filter` keeps
      the first. */
  lemma FilterByKeepThenDrop<T>(a: T, b: T, callback: T -> Verdict)
    requires callback(a) == Keep && callback(b) == Drop
    ensures FilterBy([a, b], callback) == Some([a])
  {
    var xs, ys := [a, b], [b];
    assert ys[1..] == [];
    assert FilterBy(ys, callback) == Some([]);
    assert xs[1..] == ys && xs[0] == a;
    assert [a] + [] == [a];
    assert FilterBy(xs, callback) == Some([a]);
  }

  /** A sixteen-year-old: of the hackathon for ages 15 to 18 in Russian and
      the summer program for ages 19 to 25, the filtered list keeps the
      hackathon alone. */
  lemma SixteenYearOldScenario(hackathon: Record, summer: Record, p: Profile,
                               hackathonLimit: string, summerLimit: string)
    requires hackathonLimit == "15-18 лет" && summerLimit == "19-25 лет"
    requires OnlyCamelLimit(hackathon, hackathonLimit) && Get(hackathon, "language") == Str("Русский")
    requires OnlyCamelLimit(summer, summerLimit)
    requires p.age == Num(16)
    ensures Filter([hackathon, summer], p) == Some([hackathon])
  {
    HackathonKept(hackathon, p, hackathonLimit);
    SummerProgramDropped(summer, p, summerLimit);
    FilterByKeepThenDrop(hackathon, summer, r => Judge(r, p));
  }

  /** An English-language record with no age limit: the level "A1" that the
      questionnaire sends keeps it; only the literal "A1-A2" drops it. */
  lemma EnglishRecordScenario(r: Record, p: Profile, q: Profile)
    requires Get(r, "age_limit") == Undefined && Get(r, "ageLimit") == Undefined
    requires Get(r, "language") == Str(English)
    requires p.englishLevel == Str("A1") && q.englishLevel == Str(LowestTier)
    ensures Judge(r, p) == Keep
    ensures Judge(r, q) == Drop
  {
    AgeRuleNoConstraint(r, p.age);
    AgeRuleNoConstraint(r, q.age);
    LanguageBarSpec(r, q.englishLevel);
    assert OccursAt(English, English, 0);
  }

  /** A filtered list of at least twenty records whose reply does not
      parse: the prompt holds the first twenty, while the fallback holds the
      first three of the whole list. */
  lemma TruncationScenario(all: seq<Record>, p: Profile, content: Option<string>, parse: string -> ParseResult)
    requires Complete(p) && Filter(all, p).Some? && |Filter(all, p).value| >= PromptLimit
    requires parse(ReplyText(content)) == ParseError
    ensures var f := Filter(all, p).value;
      var x := Respond(all, p, Completed(content), parse);
      && x.modelRequest == Some(ModelRequest(p, PromptCandidates(f)))
      && |x.modelRequest.value.candidates| == PromptLimit
      && x.modelRequest.value.candidates == seq(PromptLimit, k requires 0 <= k < PromptLimit => Project(f[k]))
      && x.response == Fallback([FallbackFor(f[0]), FallbackFor(f[1]), FallbackFor(f[2])])
  {
    var f := Filter(all, p).value;
    ParseErrorFallsBack(all, p, content, parse);
    var items := FallbackItems(f);
    assert |items| == 3;
    assert items == [FallbackFor(f[0]), FallbackFor(f[1]), FallbackFor(f[2])];
    var cs := PromptCandidates(f);
    assert |cs| == PromptLimit;
    assert cs == seq(PromptLimit, k requires 0 <= k < PromptLimit => Project(f[k]));
  }
}
