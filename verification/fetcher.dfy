/** Question acquisition: the questions URL with its optional session
    token, the dispatch on the provider's response status with retry on
    rate limiting, and the fixed fallback questions. */
module Fetcher {
  import opened Wrappers
  import opened Questions

  /** The questions endpoint, asking for ten multiple-choice questions. */
  const QuestionsEndpoint := "https://opentdb.com/api.php?amount=10&type=multiple"

  /** The query parameter that carries the session token. */
  const TokenParameter := "&token="

  /** HTTP statuses the fetch distinguishes. */
  const StatusOk := 200
  const StatusTooManyRequests := 429

  /** What the token request produced: it failed (network, malformed JSON,
      missing field all raise), or it returned the token. */
  datatype TokenReply = TokenRequestFailed | TokenIssued(token: string)

  /** The session token kept for the fetch: absent when the request failed. */
  function SessionToken(reply: TokenReply): (t: Option<string>)
    ensures t.Some? <==> reply.TokenIssued?
    ensures reply.TokenIssued? ==> t.value == reply.token
  {
    match reply
    case TokenRequestFailed => None
    case TokenIssued(t) => Some(t)
  }

  /** The URL of the questions request: the endpoint, followed by the token
      parameter exactly when a token is held. */
  function QuestionsUrl(token: Option<string>): (url: string)
    ensures |url| >= |QuestionsEndpoint| && url[..|QuestionsEndpoint|] == QuestionsEndpoint
    ensures token.None? <==> url == QuestionsEndpoint
  {
    match token
    case None => QuestionsEndpoint
    case Some(t) => QuestionsEndpoint + TokenParameter + t
  }

  /** Reads the token back out of a questions URL. */
  function TokenOf(url: string): Option<string>
  {
    var head := QuestionsEndpoint + TokenParameter;
    if |url| >= |head| && url[..|head|] == head then Some(url[|head|..]) else None
  }

  /** The URL carries exactly the token the fetch was given. */
  lemma UrlCarriesToken(token: Option<string>)
    ensures TokenOf(QuestionsUrl(token)) == token
  {
    var head := QuestionsEndpoint + TokenParameter;
    match token
    case None =>
      assert |QuestionsUrl(token)| < |head|;
    case Some(t) =>
      assert QuestionsUrl(token) == head + t;
      assert (head + t)[..|head|] == head;
      assert (head + t)[|head|..] == t;
  }

  /** The response body: JSON the parser rejects, or the envelope with its
      `results` array of parsed records. */
  datatype Body = Unparseable | Envelope(results: seq<RawQuestion>)

  /** One attempt of the questions request: a status with its body, or an
      exception before any status was read (connection failure, or the
      retry wait interrupted). */
  datatype Response = Reply(status: int, body: Body) | Unreachable

  /** The result of question acquisition. `Pending` means every response
      seen so far asked to wait, so the fetch is still retrying. */
  datatype FetchOutcome = Loaded(questions: seq<Question>) | FellBack(questions: seq<Question>) | Pending

  predicate IsRateLimit(resp: Response)
  {
    resp.Reply? && resp.status == StatusTooManyRequests
  }

  /** The three questions used when the provider cannot be used. */
  const FallbackQuestions: seq<Question> := [
    Question("What is Java?",
      ["A. A programming language", "B. An island", "C. A drink", "D. All of the above"], 'D' as int),
    Question("Which keyword is used to inherit a class?",
      ["A. this", "B. super", "C. extends", "D. implements"], 'C' as int),
    Question("Which method starts a Java application?",
      ["A. main()", "B. start()", "C. run()", "D. init()"], 'A' as int)
  ]

  /** The draws for the shuffle of record `i`; a record without draws keeps its order. */
  function DrawsFor(draws: seq<seq<nat>>, i: nat): seq<nat>
  {
    if i < |draws| then draws[i] else []
  }

  /** Every question of the list starts each option with its slot's label. */
  predicate AllLabelled(questions: seq<Question>)
  {
    forall i :: 0 <= i < |questions| ==> Labelled(questions[i])
  }

  /** Every record carries at least the three incorrect answers the build needs. */
  predicate Buildable(records: seq<RawQuestion>)
  {
    forall i :: 0 <= i < |records| ==> |records[i].incorrectAnswers| >= OptionSlots - 1
  }

  /** Runs through per-record build results in order and stops at the
      first failure, as the loop over the results array does when a build
      throws. */
  function Collect<T, E>(results: seq<Result<T, E>>): (r: Result<seq<T>, E>)
    ensures r.Success? <==> forall k :: 0 <= k < |results| ==> results[k].Success?
    ensures r.Success? ==> |r.value| == |results| && forall k :: 0 <= k < |results| ==> results[k] == Success(r.value[k])
    decreases |results|
  {
    if |results| == 0 then Success([])
    else if results[0].Failure? then Failure(results[0].error)
    else
      var later := Collect(results[1..]);
      if later.Failure? then Failure(later.error)
      else Success([results[0].value] + later.value)
  }

  /** The loop over the results array: builds every record in order, and
      stops at the first record whose build throws. */
  function BuildAll(records: seq<RawQuestion>, draws: seq<seq<nat>>): (r: Result<seq<Question>, BuildError>)
    ensures r.Success? <==> Buildable(records)
    ensures r.Success? ==> |r.value| == |records|
    ensures r.Success? ==> forall k :: 0 <= k < |records| ==> Success(r.value[k]) == BuildQuestion(records[k], DrawsFor(draws, k))
  {
    var results := seq(|records|, k requires 0 <= k < |records| => BuildQuestion(records[k], DrawsFor(draws, k)));
    assert forall k :: 0 <= k < |records| ==> results[k] == BuildQuestion(records[k], DrawsFor(draws, k));
    assert forall k :: 0 <= k < |records| ==> (results[k].Success? <==> |records[k].incorrectAnswers| >= OptionSlots - 1);
    Collect(results)
  }

  /** One attempt that was not rate limited: status 200 with a parsed
      envelope whose records all build appends the built questions to
      `loaded`; any other status, an unparseable body, a record that fails
      to build, or an exception clears the list and loads the fallback. */
  function Attempt(loaded: seq<Question>, resp: Response, draws: seq<seq<nat>>): (r: FetchOutcome)
    requires !IsRateLimit(resp)
    ensures r.Loaded? || r.FellBack?
    ensures r.FellBack? ==> r.questions == FallbackQuestions
    ensures r.Loaded? <==> resp.Reply? && resp.status == StatusOk && resp.body.Envelope?
                           && BuildAll(resp.body.results, draws).Success?
    ensures r.Loaded? ==> r.questions == loaded + BuildAll(resp.body.results, draws).value
    ensures AllLabelled(loaded) ==> AllLabelled(r.questions)
  {
    FallbackShape();
    match resp
    case Unreachable => FellBack(FallbackQuestions)
    case Reply(status, body) =>
      if status != StatusOk then FellBack(FallbackQuestions)
      else match body
        case Unparseable => FellBack(FallbackQuestions)
        case Envelope(results) =>
          match BuildAll(results, draws)
          case Failure(_) => FellBack(FallbackQuestions)
          case Success(qs) => Loaded(loaded + qs)
  }

  /** The fetch over the successive responses to its request: a 429 waits
      and repeats the same request, anything else is decided by `Attempt`. */
  function Fetch(loaded: seq<Question>, responses: seq<Response>, draws: seq<seq<nat>>): (r: FetchOutcome)
    ensures r.Pending? <==> forall i :: 0 <= i < |responses| ==> IsRateLimit(responses[i])
    ensures r.FellBack? ==> r.questions == FallbackQuestions
    ensures AllLabelled(loaded) && !r.Pending? ==> AllLabelled(r.questions)
    decreases |responses|
  {
    if |responses| == 0 then Pending
    else if IsRateLimit(responses[0]) then Fetch(loaded, responses[1..], draws)
    else Attempt(loaded, responses[0], draws)
  }

  /** `k` rate-limited replies in a row. */
  function RateLimits(k: nat): (r: seq<Response>)
    ensures |r| == k && forall i :: 0 <= i < k ==> IsRateLimit(r[i])
  {
    if k == 0 then [] else [Reply(StatusTooManyRequests, Unparseable)] + RateLimits(k - 1)
  }

  /** Any number of rate-limited replies at the head of the responses are
      waited out: the outcome is that of the responses after them. */
  lemma {:induction false} RateLimitsAreSkipped(loaded: seq<Question>, responses: seq<Response>, k: nat, draws: seq<seq<nat>>)
    requires k <= |responses| && forall i :: 0 <= i < k ==> IsRateLimit(responses[i])
    ensures Fetch(loaded, responses, draws) == Fetch(loaded, responses[k..], draws)
    decreases k
  {
    if k > 0 {
      FetchSkipsRateLimit(loaded, responses, draws);
      RateLimitsAreSkipped(loaded, responses[1..], k - 1, draws);
      assert responses[1..][k - 1..] == responses[k..];
    }
  }

  /** Any number of rate-limited replies before the first other response
      change nothing: that response alone decides the outcome, and later
      responses are never read. */
  lemma RetriesAreTransparent(loaded: seq<Question>, k: nat, resp: Response, rest: seq<Response>, draws: seq<seq<nat>>)
    requires !IsRateLimit(resp)
    ensures Fetch(loaded, RateLimits(k) + [resp] + rest, draws) == Attempt(loaded, resp, draws)
  {
    var rs := RateLimits(k) + [resp] + rest;
    assert forall i :: 0 <= i < k ==> rs[i] == RateLimits(k)[i];
    assert rs[k..] == [resp] + rest;
    RateLimitsAreSkipped(loaded, rs, k, draws);
    FetchDecidesOnFirst(loaded, rs[k..], draws);
  }

  /** A 429 at the head of the responses is waited out and the request
      repeated: the outcome is that of the remaining responses. */
  lemma FetchSkipsRateLimit(loaded: seq<Question>, responses: seq<Response>, draws: seq<seq<nat>>)
    requires |responses| > 0 && IsRateLimit(responses[0])
    ensures Fetch(loaded, responses, draws) == Fetch(loaded, responses[1..], draws)
  {
  }

  /** Any other response at the head decides the outcome by itself. */
  lemma FetchDecidesOnFirst(loaded: seq<Question>, responses: seq<Response>, draws: seq<seq<nat>>)
    requires |responses| > 0 && !IsRateLimit(responses[0])
    ensures Fetch(loaded, responses, draws) == Attempt(loaded, responses[0], draws)
  {
  }

  /** Rate limiting followed by a good reply loads the built questions, not
      the fallback. */
  lemma RetryThenLoad(k: nat, records: seq<RawQuestion>, rest: seq<Response>, draws: seq<seq<nat>>)
    requires Buildable(records)
    ensures var r := Fetch([], RateLimits(k) + [Reply(StatusOk, Envelope(records))] + rest, draws);
      && r.Loaded? && |r.questions| == |records|
      && forall i :: 0 <= i < |records| ==> Success(r.questions[i]) == BuildQuestion(records[i], DrawsFor(draws, i))
  {
    var resp := Reply(StatusOk, Envelope(records));
    RetriesAreTransparent([], k, resp, rest, draws);
    var built := BuildAll(records, draws);
    assert built.Success?;
    assert Attempt([], resp, draws) == Loaded([] + built.value);
    assert [] + built.value == built.value;
  }

  /** Rate limiting followed by a failing reply loads the fallback questions. */
  lemma RetryThenFallBack(k: nat, resp: Response, rest: seq<Response>, draws: seq<seq<nat>>)
    requires || resp.Unreachable?
             || (resp.status != StatusOk && resp.status != StatusTooManyRequests)
             || (resp.status == StatusOk && resp.body.Unparseable?)
    ensures Fetch([], RateLimits(k) + [resp] + rest, draws) == FellBack(FallbackQuestions)
  {
    RetriesAreTransparent([], k, resp, rest, draws);
  }

  /** A reply whose records include one with fewer than three incorrect
      answers loads the fallback, discarding the questions built before it. */
  lemma ShortRecordFallsBack(loaded: seq<Question>, records: seq<RawQuestion>, i: nat, draws: seq<seq<nat>>)
    requires i < |records| && |records[i].incorrectAnswers| < OptionSlots - 1
    ensures Fetch(loaded, [Reply(StatusOk, Envelope(records))], draws) == FellBack(FallbackQuestions)
  {
  }

  /** A good reply with an empty results array yields an empty quiz, not the fallback. */
  lemma EmptyResultsLoadNothing(rest: seq<Response>, draws: seq<seq<nat>>)
    ensures Fetch([], [Reply(StatusOk, Envelope([]))] + rest, draws) == Loaded([])
  {
    RetriesAreTransparent([], 0, Reply(StatusOk, Envelope([])), rest, draws);
  }

  /** The fallback set: three labelled questions whose correct labels are
      D, C and A, naming the options "All of the above", "extends" and "main()". */
  lemma FallbackShape()
    ensures |FallbackQuestions| == 3
    ensures forall i :: 0 <= i < 3 ==> Labelled(FallbackQuestions[i])
    ensures FallbackQuestions[0].correctOption == 'D' as int
    ensures FallbackQuestions[1].correctOption == 'C' as int
    ensures FallbackQuestions[2].correctOption == 'A' as int
    ensures OptionText(FallbackQuestions[0], 3) == "All of the above"
    ensures OptionText(FallbackQuestions[1], 2) == "extends"
    ensures OptionText(FallbackQuestions[2], 0) == "main()"
  {
    forall i | 0 <= i < 3
      ensures Labelled(FallbackQuestions[i])
    {
      FallbackLabelled(i);
    }
  }

  /** Each fallback question labels its four options A to D. */
  lemma FallbackLabelled(i: nat)
    requires i < 3
    ensures Labelled(FallbackQuestions[i])
  {
    var q := FallbackQuestions[i];
    forall j | 0 <= j < OptionSlots
      ensures |q.options[j]| >= PrefixLength && q.options[j][..PrefixLength] == [LabelChar(j)] + ". "
    {
      assert LabelChar(j) as int == 'A' as int + j;
    }
  }
}
