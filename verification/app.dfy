/** The application's start-up: request a session token, fetch the
    questions with it, and open the quiz session on what was loaded. */
module QuizApp {
  import opened Wrappers
  import opened Questions
  import opened Fetcher
  import opened QuizSession

  /** The state the constructor reaches: the questions URL it requested,
      whether it warned that the fallback questions were loaded, and the
      session, absent while the provider keeps answering 429. */
  datatype Startup = Startup(url: string, warned: bool, session: Option<Session>)

  /** Token request, fetch and session start, over the supplied token
      reply, the responses to successive attempts and the shuffle draws. */
  function Launch(reply: TokenReply, responses: seq<Response>, draws: seq<seq<nat>>): (r: Startup)
    ensures |r.url| >= |QuestionsEndpoint| && r.url[..|QuestionsEndpoint|] == QuestionsEndpoint
    ensures TokenOf(r.url) == SessionToken(reply)
    ensures SessionToken(reply).None? ==> r.url == QuestionsEndpoint
    ensures r.session.Some? <==> exists i :: 0 <= i < |responses| && !IsRateLimit(responses[i])
    ensures r.session.Some? ==> r.session.value.index == 0 && r.session.value.score == 0 && Valid(r.session.value)
    ensures r.warned <==> r.session.Some? && Fetch([], responses, draws).FellBack?
    ensures r.warned ==> r.session.value.questions == FallbackQuestions
    ensures r.session.Some? ==> !Fetch([], responses, draws).Pending?
                                && r.session.value.questions == Fetch([], responses, draws).questions
  {
    var url := QuestionsUrl(SessionToken(reply));
    UrlCarriesToken(SessionToken(reply));
    match Fetch([], responses, draws)
    case Pending => Startup(url, false, None)
    case Loaded(qs) => Startup(url, false, Some(Start(qs)))
    case FellBack(qs) => Startup(url, true, Some(Start(qs)))
  }

  /** A failing provider leaves a three-question quiz; answering D, C and A
      scores all three. */
  lemma FallbackQuizPerfectRun(reply: TokenReply, status: int)
    requires status != StatusOk && status != StatusTooManyRequests
    ensures var st := Launch(reply, [Reply(status, Unparseable)], []);
      && st.warned && st.session.Some?
      && FinalResult(Play(st.session.value, [3, 2, 0])) == (3, 3)
  {
    var st := Launch(reply, [Reply(status, Unparseable)], []);
    FallbackShape();
    PlayScores(FallbackQuestions, [3, 2, 0]);
    forall i | 0 <= i < 3
      ensures Scores(FallbackQuestions[i], [3, 2, 0][i])
    {
      assert ActionCommand(FallbackQuestions[i], [3, 2, 0][i]) == LabelCode([3, 2, 0][i]);
    }
  }
}
