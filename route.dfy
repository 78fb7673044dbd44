/** The `POST` handler of the recommendation route: it validates the
    questionnaire, filters the catalog, sends the first twenty eligible
    activities to the language model, and answers with the model's parsed
    reply or, when that reply is not JSON, with the first three eligible
    activities and a templated reason. The model call and `JSON.parse` are
    inputs: the completion the provider returned and a parse oracle. */
module RecommendationRoute {
  import opened JsValues
  import opened Eligibility

  function Min(a: int, b: int): int {
    if a < b then a else b
  }

  /** `!age || !grade || !interests || !englishLevel || !essaySkills` is
      false: every answer of the questionnaire is truthy. */
  predicate Complete(p: Profile) {
    && Truthy(p.age)
    && Truthy(p.grade)
    && Truthy(p.interests)
    && Truthy(p.englishLevel)
    && Truthy(p.essaySkills)
  }

  // ---------------------------------------------------------------------------
  // The candidates embedded in the prompt

  /** The reduced view of an activity that the prompt lists. */
  datatype Candidate = Candidate(
    title: Value,
    description: Value,
    category: Value,
    subject: Value,
    level: Value,
    format: Value,
    language: Value,
    organizer: Value,
    deadline: Value,
    teamSize: Value,
    location: Value,
    prizes: Value)

  /** The projection of one record; the team size is `teamSize || team_size`. */
  function Project(r: Record): Candidate {
    Candidate(
      Get(r, "title"), Get(r, "description"), Get(r, "category"), Get(r, "subject"),
      Get(r, "level"), Get(r, "format"), Get(r, "language"), Get(r, "organizer"),
      Get(r, "deadline"), Or(Get(r, "teamSize"), Get(r, "team_size")),
      Get(r, "location"), Get(r, "prizes"))
  }

  const PromptLimit: nat := 20
  const FallbackCount: nat := 3

  /** `activitiesData`: the projections of the first twenty eligible
      activities, in order. */
  function PromptCandidates(f: seq<Record>): (cs: seq<Candidate>)
    ensures |cs| == Min(PromptLimit, |f|)
    ensures forall i :: 0 <= i < |cs| ==> cs[i] == Project(f[i])
  {
    seq(Min(PromptLimit, |f|), i requires 0 <= i < Min(PromptLimit, |f|) => Project(f[i]))
  }

  // ---------------------------------------------------------------------------
  // The fallback answer

  /** One recommendation of the fallback answer. */
  datatype FallbackItem = FallbackItem(
    title: Value,
    description: Value,
    reason: string,
    category: Value,
    level: Value,
    format: Value,
    deadline: Value,
    organizer: Value)

  const ReasonPrefix: string := "Подходит для вашего возраста и интересов в области "

  /** The reason template with the activity's subject interpolated. */
  function Reason(subject: Value): string {
    ReasonPrefix + ToJsString(subject)
  }

  function FallbackFor(r: Record): FallbackItem {
    FallbackItem(
      Get(r, "title"), Get(r, "description"), Reason(Get(r, "subject")),
      Get(r, "category"), Get(r, "level"), Get(r, "format"),
      Get(r, "deadline"), Get(r, "organizer"))
  }

  /** `fallbackRecommendations`: the first three eligible activities, taken
      from the whole filtered list, not from the twenty sent to the model. */
  function FallbackItems(f: seq<Record>): (items: seq<FallbackItem>)
    ensures |items| == Min(FallbackCount, |f|)
    ensures forall i :: 0 <= i < |items| ==> items[i] == FallbackFor(f[i])
  {
    seq(Min(FallbackCount, |f|), i requires 0 <= i < Min(FallbackCount, |f|) => FallbackFor(f[i]))
  }

  /** The reason is the fixed template followed by the subject's text, which
      can be read back from it; a record without a subject gets the text
      "undefined". */
  lemma ReasonSpec(subject: Value)
    ensures |Reason(subject)| >= |ReasonPrefix|
    ensures Reason(subject)[..|ReasonPrefix|] == ReasonPrefix
    ensures Reason(subject)[|ReasonPrefix|..] == ToJsString(subject)
    ensures subject.Str? ==> Reason(subject) == ReasonPrefix + subject.s
    ensures subject == Undefined ==> Reason(subject) == ReasonPrefix + "undefined"
  {
  }

  // ---------------------------------------------------------------------------
  // The handler

  /** What the provider returned: a failure (network error, an error status,
      a reply without choices), or the content of the first choice, which
      may be null. */
  datatype Completion = ProviderError | Completed(content: Option<string>)

  /** The outcome of `JSON.parse` on a text. */
  datatype ParseResult = Parsed(value: Value) | ParseError

  /** The response: status 400, status 500, the parsed reply, or the
      fallback `{ recommendations }`. */
  datatype Response =
    | BadRequest
    | ServerError
    | Answer(body: Value)
    | Fallback(recommendations: seq<FallbackItem>)

  /** What the prompt is built from: the answers and the candidate list. */
  datatype ModelRequest = ModelRequest(profile: Profile, candidates: seq<Candidate>)

  /** A request's response, and the model request it made, if any. */
  datatype Exchange = Exchange(response: Response, modelRequest: Option<ModelRequest>)

  /** `responseText || '{}'`. */
  function ReplyText(content: Option<string>): string {
    match content
    case None => "{}"
    case Some(text) => if text == "" then "{}" else text
  }

  /** The handler's answer for the answers `p` against the catalog `all`,
      given what the provider returns for the prompt and what `JSON.parse`
      does. */
  function Respond(all: seq<Record>, p: Profile, completion: Completion, parse: string -> ParseResult): Exchange {
    if !Complete(p) then Exchange(BadRequest, None)
    else match Filter(all, p)
      case None => Exchange(ServerError, None)
      case Some(f) =>
        var request := Some(ModelRequest(p, PromptCandidates(f)));
        match completion
        case ProviderError => Exchange(ServerError, request)
        case Completed(content) =>
          match parse(ReplyText(content))
          case Parsed(v) => Exchange(Answer(v), request)
          case ParseError => Exchange(Fallback(FallbackItems(f)), request)
  }

  /** `POST /api/recommendations` against the catalog built from the
      collections `c`. */
  function Handle(c: Collections, p: Profile, completion: Completion, parse: string -> ParseResult): Exchange {
    Respond(AllActivities(c), p, completion, parse)
  }

  // ---------------------------------------------------------------------------
  // Properties of the handler

  /** An incomplete questionnaire is answered with 400 before anything else:
      whatever the catalog, the provider and the parser, the model is never
      asked. */
  lemma IncompleteProfileRejected(all: seq<Record>, p: Profile, completion: Completion, parse: string -> ParseResult)
    requires !Complete(p)
    ensures Respond(all, p, completion, parse) == Exchange(BadRequest, None)
  {
  }

  /** A complete questionnaire is never answered with 400, and the model is
      asked exactly when the filter callback throws on no catalog record. */
  lemma CompleteProfileAccepted(all: seq<Record>, p: Profile, completion: Completion, parse: string -> ParseResult)
    requires Complete(p)
    ensures Respond(all, p, completion, parse).response != BadRequest
    ensures Respond(all, p, completion, parse).modelRequest.Some? <==>
      forall i :: 0 <= i < |all| ==> Judge(all[i], p) != Throws
    ensures Respond(all, p, completion, parse).modelRequest.None? ==>
      Respond(all, p, completion, parse).response == ServerError
  {
    FilterSpec(all, p);
  }

  /** The model is asked only for a complete questionnaire and a filter
      that did not throw, with the first twenty eligible activities. */
  lemma RespondAsks(all: seq<Record>, p: Profile, completion: Completion, parse: string -> ParseResult)
    requires Respond(all, p, completion, parse).modelRequest.Some?
    ensures Complete(p) && Filter(all, p).Some?
    ensures Respond(all, p, completion, parse).modelRequest.value ==
      ModelRequest(p, PromptCandidates(Filter(all, p).value))
  {
  }

  /** The prompt candidates of a filter result: at most twenty, each the
      projection of a record the callback keeps, in catalog order. */
  lemma CandidatesFromEligible(all: seq<Record>, p: Profile)
    requires Filter(all, p).Some?
    ensures var cs := PromptCandidates(Filter(all, p).value);
      && |cs| <= PromptLimit
      && exists idx: seq<int> ::
        && KeptPositions(all, p, idx) && |idx| == |cs|
        && (forall k :: 0 <= k < |idx| ==> cs[k] == Project(all[idx[k]]))
  {
    var f := Filter(all, p).value;
    var cs := PromptCandidates(f);
    FilterPrefix(all, p, |cs|);
    var idx: seq<int> :| KeptPositions(all, p, idx) && |idx| == |cs|
      && forall k :: 0 <= k < |idx| ==> f[k] == all[idx[k]];
    forall k | 0 <= k < |idx| ensures cs[k] == Project(all[idx[k]]) {
      assert f[k] == all[idx[k]];
    }
  }

  /** The model is asked with the answers and with at most twenty
      candidates, each the projection of an eligible catalog record, in
      catalog order. */
  lemma ModelRequestFromEligible(all: seq<Record>, p: Profile, completion: Completion, parse: string -> ParseResult)
    requires Respond(all, p, completion, parse).modelRequest.Some?
    ensures Respond(all, p, completion, parse).modelRequest.value.profile == p
    ensures var cs := Respond(all, p, completion, parse).modelRequest.value.candidates;
      && |cs| <= PromptLimit
      && exists idx: seq<int> ::
        && KeptPositions(all, p, idx) && |idx| == |cs|
        && (forall k :: 0 <= k < |idx| ==> cs[k] == Project(all[idx[k]]))
  {
    RespondAsks(all, p, completion, parse);
    CandidatesFromEligible(all, p);
  }

  /** Against the merged catalog, every activity listed in the prompt
      carries one of the four category names. */
  lemma HandleCandidateCategories(c: Collections, p: Profile, completion: Completion, parse: string -> ParseResult)
    requires Handle(c, p, completion, parse).modelRequest.Some?
    ensures var cs := Handle(c, p, completion, parse).modelRequest.value.candidates;
      forall k :: 0 <= k < |cs| ==>
        || cs[k].category == Str(Hackathons) || cs[k].category == Str(Essays)
        || cs[k].category == Str(Startups) || cs[k].category == Str(SummerPrograms)
  {
    var all := AllActivities(c);
    ModelRequestFromEligible(all, p, completion, parse);
    var cs := Respond(all, p, completion, parse).modelRequest.value.candidates;
    var idx: seq<int> :| && KeptPositions(all, p, idx) && |idx| == |cs|
      && (forall j :: 0 <= j < |idx| ==> cs[j] == Project(all[idx[j]]));
    forall k | 0 <= k < |cs|
      ensures || cs[k].category == Str(Hackathons) || cs[k].category == Str(Essays)
              || cs[k].category == Str(Startups) || cs[k].category == Str(SummerPrograms)
    {
      CatalogCategories(c, idx[k]);
    }
  }

  /** When the reply does not parse, the answer is the fallback built from
      the whole filtered list: its first three records, the twenty-record cut
      of the prompt notwithstanding. */
  lemma ParseErrorFallsBack(all: seq<Record>, p: Profile, content: Option<string>, parse: string -> ParseResult)
    requires Complete(p) && Filter(all, p).Some?
    requires parse(ReplyText(content)) == ParseError
    ensures var f := Filter(all, p).value;
      && Respond(all, p, Completed(content), parse).response == Fallback(FallbackItems(f))
      && |FallbackItems(f)| == Min(FallbackCount, |f|)
  {
  }

  /** When the reply parses, its value is the answer, unchanged. */
  lemma ParsedReplyPassedThrough(all: seq<Record>, p: Profile, content: Option<string>, parse: string -> ParseResult, v: Value)
    requires Complete(p) && Filter(all, p).Some?
    requires parse(ReplyText(content)) == Parsed(v)
    ensures Respond(all, p, Completed(content), parse).response == Answer(v)
  {
  }

  /** Replies that parse to different values, different objects included,
      get different responses: the body is the reply itself, not a stand-in. */
  lemma DistinctRepliesDistinctAnswers(all: seq<Record>, p: Profile,
                                       content1: Option<string>, parse1: string -> ParseResult, v1: Value,
                                       content2: Option<string>, parse2: string -> ParseResult, v2: Value)
    requires Complete(p) && Filter(all, p).Some?
    requires parse1(ReplyText(content1)) == Parsed(v1) && parse2(ReplyText(content2)) == Parsed(v2)
    requires v1 != v2
    ensures Respond(all, p, Completed(content1), parse1).response != Respond(all, p, Completed(content2), parse2).response
  {
    ParsedReplyPassedThrough(all, p, content1, parse1, v1);
    ParsedReplyPassedThrough(all, p, content2, parse2, v2);
  }

  /** A null or empty reply is read as "{}", so, with a parser that accepts
      "{}", it never leads to the fallback. */
  lemma EmptyReplyIsEmptyObject(all: seq<Record>, p: Profile, content: Option<string>, parse: string -> ParseResult, v: Value)
    requires Complete(p) && Filter(all, p).Some?
    requires content == None || content == Some("")
    requires parse("{}") == Parsed(v)
    ensures Respond(all, p, Completed(content), parse).response == Answer(v)
  {
  }

  /** The fallback does not depend on the reply: two requests with the same
      catalog and answers whose replies both fail to parse get the same
      response. */
  lemma FallbackDeterministic(all: seq<Record>, p: Profile,
                              content1: Option<string>, parse1: string -> ParseResult,
                              content2: Option<string>, parse2: string -> ParseResult)
    requires parse1(ReplyText(content1)) == ParseError
    requires parse2(ReplyText(content2)) == ParseError
    ensures Respond(all, p, Completed(content1), parse1).response == Respond(all, p, Completed(content2), parse2).response
  {
  }

  /** Every fallback recommendation copies the title, description,
      category, level, format, deadline and organizer of an eligible catalog
      record, in catalog order, and those are also the first candidates the
      model was offered. */
  lemma FallbackFromEligible(all: seq<Record>, p: Profile, content: Option<string>, parse: string -> ParseResult)
    requires Respond(all, p, Completed(content), parse).response.Fallback?
    ensures var x := Respond(all, p, Completed(content), parse);
      var items := x.response.recommendations;
      && x.modelRequest.Some?
      && |items| <= FallbackCount
      && (forall k :: 0 <= k < |items| ==> SameActivity(items[k], x.modelRequest.value.candidates[k]))
      && exists idx: seq<int> ::
        && KeptPositions(all, p, idx) && |idx| == |items|
        && (forall k :: 0 <= k < |idx| ==> items[k] == FallbackFor(all[idx[k]]))
  {
    var f := Filter(all, p).value;
    assert Respond(all, p, Completed(content), parse) ==
      Exchange(Fallback(FallbackItems(f)), Some(ModelRequest(p, PromptCandidates(f))));
    FallbackItemsFromEligible(all, p);
  }

  /** The fallback items of a filter result: at most three, each built
      from a record the callback keeps, in catalog order, and each the same
      activity as the prompt candidate at its position. */
  lemma FallbackItemsFromEligible(all: seq<Record>, p: Profile)
    requires Filter(all, p).Some?
    ensures var f := Filter(all, p).value;
      var items := FallbackItems(f);
      && |items| <= FallbackCount
      && (forall k :: 0 <= k < |items| ==> SameActivity(items[k], PromptCandidates(f)[k]))
      && exists idx: seq<int> ::
        && KeptPositions(all, p, idx) && |idx| == |items|
        && (forall k :: 0 <= k < |idx| ==> items[k] == FallbackFor(all[idx[k]]))
  {
    var f := Filter(all, p).value;
    var items := FallbackItems(f);
    FilterPrefix(all, p, |items|);
    var idx: seq<int> :| KeptPositions(all, p, idx) && |idx| == |items|
      && forall k :: 0 <= k < |idx| ==> f[k] == all[idx[k]];
    forall k | 0 <= k < |idx| ensures items[k] == FallbackFor(all[idx[k]]) {
      assert f[k] == all[idx[k]];
    }
  }

  /** A fallback item and a prompt candidate describe the same activity. */
  predicate SameActivity(item: FallbackItem, cand: Candidate) {
    && item.title == cand.title
    && item.description == cand.description
    && item.category == cand.category
    && item.level == cand.level
    && item.format == cand.format
    && item.deadline == cand.deadline
    && item.organizer == cand.organizer
    && item.reason == Reason(cand.subject)
  }
}
