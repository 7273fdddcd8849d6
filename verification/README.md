# Online quiz application — verified model of the question pipeline

This project models, in Dafny, the logic of the quiz application's single
class `QuizAppGUI`: the HTML entity decoder applied to provider text, the
construction of a multiple-choice question from a provider record (decode,
shuffle, label, format), the fetch of questions from the trivia provider with
its session token, rate-limit retry and fixed fallback set, and the quiz
session that scores one submitted answer at a time.

Modules, one per part of the class:

- `Wrappers` — `Option` (a Java reference that may be null) and `Result`
  (a value or the exception that stopped its computation).
- `HtmlEntities` — `htmlDecode` as a chain of five literal replace-alls, and
  the five-entity encoding `Escape` as its partner.
- `Questions` — `Question`, the provider record, the shuffle and the body of
  the loop that builds one question.
- `Fetcher` — the questions URL, the status-code dispatch with retry on 429,
  the loop over the results array and the fallback questions.
- `QuizSession` — the index and score fields and `checkAnswer`.
- `QuizApp` — the constructor's sequence: token, fetch, session.

Abstractions. The network, the JSON parser and the random number generator
are parameters. A token request is a `TokenReply`. Each attempt of the
questions request is a `Response`: a status with a body that parsed or
did not, or an exception. The shuffle consumes a supplied sequence of draws.
It follows the swap loop of `Collections.shuffle`: for `i` from the list size
down to 2, swap position `i - 1` with a drawn position below `i`. A draw is
taken modulo its bound, and a missing draw leaves the slot in place. A Java
`char` label is kept as its numeric code, so `(char)('A' + i)` wraps at 16 bits
exactly as in Java.

Behaviour of the code worth knowing:

- A status-200 reply whose `results` array is empty loads an empty quiz, not
  the fallback (`Fetcher.EmptyResultsLoadNothing`).
- The envelope's `response_code` field is never read; only the HTTP status
  decides.
- A record with fewer than three incorrect answers makes the formatting loop
  throw, so the whole fetch falls back (`Fetcher.ShortRecordFallsBack`).
- A record with more than three incorrect answers is built from the first four
  shuffled answers. Its label can then name a fifth slot that no button shows
  (`Questions.MisplacedCorrectAnswer`).
- Because `&amp;` is decoded before `&lt;` and `&gt;`, an encoded `&lt;` is
  decoded twice (`HtmlEntities.DoubleDecoding`). Decoding undoes the encoding
  on every text that contains neither `&lt;` nor `&gt;`
  (`HtmlEntities.DecodeInvertsEscape`).

## Model

| member | source | states |
|---|---|---|
| HtmlEntities.ReplaceAll | QuizAppGUI/src/QuizAppGUI.java:175-179 | one literal replace-all never lengthens the text when the replacement is no longer than the pattern |
| HtmlEntities.ReplaceAllSkipsPrefix | QuizAppGUI/src/QuizAppGUI.java:175-179 | a replace-all leaves a leading part alone when none of its characters can start the pattern |
| HtmlEntities.ReplaceAllLeadingMatch | QuizAppGUI/src/QuizAppGUI.java:175-179 | one branch of the replace-all's definition, unfolded for later proofs: an occurrence of the pattern at the start is replaced and scanning resumes after it |
| HtmlEntities.ReplaceAllKeepsHead | QuizAppGUI/src/QuizAppGUI.java:175-179 | one branch of the replace-all's definition, unfolded for later proofs: a leading character where no occurrence of the pattern starts is kept and scanning resumes at the next one |
| HtmlEntities.ReplaceAllSkipsWord | QuizAppGUI/src/QuizAppGUI.java:175-179 | a leading word that differs from the pattern in its second character, and whose later characters cannot start it, passes through unchanged |
| HtmlEntities.EntityShape | QuizAppGUI/src/QuizAppGUI.java:175-179 | every decoded entity starts with `&` and contains no other `&` |
| HtmlEntities.EntitiesDiffer | QuizAppGUI/src/QuizAppGUI.java:175-179 | two different decoded entities already differ in their second character |
| HtmlEntities.ReplaceAllSkipsOtherEntity | QuizAppGUI/src/QuizAppGUI.java:175-179 | one entity step passes a different entity's name through untouched |
| HtmlEntities.HtmlDecode | QuizAppGUI/src/QuizAppGUI.java:174-180 | the five-step decoder never lengthens its input |
| HtmlEntities.HtmlDecodeIsSteps | QuizAppGUI/src/QuizAppGUI.java:174-180 | the decoder is the five replacements applied in the fixed order `&quot;`, `&#039;`, `&amp;`, `&lt;`, `&gt;` |
| HtmlEntities.DecodeKeepsPlainText | QuizAppGUI/src/QuizAppGUI.java:174-180 | a text without `&` is returned unchanged |
| HtmlEntities.DecodeStep | QuizAppGUI/src/QuizAppGUI.java:175-179 | each replacement, in the fixed order `&quot;`, `&#039;`, `&amp;`, `&lt;`, `&gt;`, turns one entity of the five-entity encoding back into its character; the `&lt;` and `&gt;` steps do so provided the text does not itself spell that entity |
| HtmlEntities.DecodeInvertsEscape | QuizAppGUI/src/QuizAppGUI.java:174-180 | decoding the five-entity encoding of any text that contains neither `&lt;` nor `&gt;` gives back that text |
| HtmlEntities.AmpLtSurvivesFirstSteps | QuizAppGUI/src/QuizAppGUI.java:175-176 | the `&quot;` and `&#039;` steps leave `&amp;lt;` unchanged |
| HtmlEntities.AmpStepOnAmpLt | QuizAppGUI/src/QuizAppGUI.java:177 | the `&amp;` step turns `&amp;lt;` into `&lt;` |
| HtmlEntities.LastStepsOnLt | QuizAppGUI/src/QuizAppGUI.java:178-179 | the `&lt;` and `&gt;` steps turn `&lt;` into `<` |
| HtmlEntities.DoubleDecoding | QuizAppGUI/src/QuizAppGUI.java:174-180 | because `&amp;` is decoded before `&lt;`, the encoding of the text `&lt;`, which is `&amp;lt;`, decodes to `<` |
| Questions.LabelCode | QuizAppGUI/src/QuizAppGUI.java:145 | the label code of position `i` is a 16-bit char code, and `'A' + i` for every position below 65471, where the 16-bit code would wrap |
| Questions.FormatOption | QuizAppGUI/src/QuizAppGUI.java:148 | a formatted option starts with its slot's label and shows the answer text after the three-character prefix |
| Questions.ActionCommand | QuizAppGUI/src/QuizAppGUI.java:188 | on a question whose options carry their labels, the action command of button `j` (the option's first character) is the label of slot `j` |
| Questions.Answers | QuizAppGUI/src/QuizAppGUI.java:134-142 | the answer list holds one more entry than the incorrect answers: the decoded correct answer first, then each decoded incorrect answer in provider order |
| Questions.Shuffle | QuizAppGUI/src/QuizAppGUI.java:143 | the shuffled list has the same length and the same multiset of answers as the input |
| Questions.Swap | QuizAppGUI/src/QuizAppGUI.java:143 | a swap keeps the list's length and its multiset of elements |
| Questions.ShuffleDown | QuizAppGUI/src/QuizAppGUI.java:143 | the shuffle's swap loop keeps the length and the multiset of the list, whatever the draws |
| Questions.IndexOf | QuizAppGUI/src/QuizAppGUI.java:145 | the result is -1 exactly when the value is absent, and otherwise the first position holding it |
| Questions.Layout | QuizAppGUI/src/QuizAppGUI.java:133-151 | a question built from a record with at least four answers has four options, each starting with its slot's label, and the decoded question text |
| Questions.BuildQuestion | QuizAppGUI/src/QuizAppGUI.java:133-151 | building succeeds exactly when the record has at least three incorrect answers; the built question has labelled options and the decoded text |
| Questions.BuildLayout | QuizAppGUI/src/QuizAppGUI.java:143-149 | slot `j` of a built question shows the `j`-th shuffled answer, and the label is that of the first shuffled position holding the decoded correct answer |
| Questions.BuildKeepsAnswers | QuizAppGUI/src/QuizAppGUI.java:134-143 | with three incorrect answers, the four option texts are a permutation of the decoded correct and incorrect answers |
| Questions.BuildMarksCorrect | QuizAppGUI/src/QuizAppGUI.java:145-149 | with three incorrect answers, the correct label is one of A to D, its option shows the decoded correct answer, and no earlier option does |
| Questions.ChosenOptionScores | QuizAppGUI/src/QuizAppGUI.java:145-149 | pressing button `j` of a built question matches the correct label exactly when slot `j` is the first to show the correct answer |
| Questions.DistinctAnswersScore | QuizAppGUI/src/QuizAppGUI.java:145-149 | when no two answers share a text, button `j` matches the correct label exactly when its option shows the correct answer |
| Questions.MisplacedCorrectAnswer | QuizAppGUI/src/QuizAppGUI.java:140-149 | when more answers arrive than the four slots and the correct one is shuffled past the fourth (at any position before the label code wraps), no button's action command matches the label |
| Fetcher.SessionToken | QuizAppGUI/src/QuizAppGUI.java:93-96 | a token is held exactly when the token request succeeded, and it is the token the provider returned; a failed request leaves it null |
| Fetcher.QuestionsUrl | QuizAppGUI/src/QuizAppGUI.java:102-105 | the request URL starts with the endpoint and equals it exactly when no token is held |
| Fetcher.UrlCarriesToken | QuizAppGUI/src/QuizAppGUI.java:102-105 | the token read back from the request URL is exactly the token held, and none when none is held |
| Fetcher.Collect | QuizAppGUI/src/QuizAppGUI.java:132-152 | the loop over the records succeeds exactly when every record's build succeeds, and then yields the built questions in record order |
| Fetcher.BuildAll | QuizAppGUI/src/QuizAppGUI.java:132-152 | the results loop succeeds exactly when every record has at least three incorrect answers, and then yields one question per record, built with that record's draws |
| Fetcher.Attempt | QuizAppGUI/src/QuizAppGUI.java:112-157 | a response that is not a 429 loads questions exactly when it is status 200 with a parsed envelope whose records all build, appending them to the list; in every other case the list becomes the fallback set |
| Fetcher.Fetch | QuizAppGUI/src/QuizAppGUI.java:112-119 | the fetch is still retrying exactly when every response so far was a 429; a fallback outcome is the fallback set; all loaded questions carry their labels |
| Fetcher.FetchSkipsRateLimit | QuizAppGUI/src/QuizAppGUI.java:114-117 | one branch of the fetch's definition, unfolded for later proofs: a 429 at the head is waited out and the same request repeated, so the outcome is that of the remaining responses |
| Fetcher.FetchDecidesOnFirst | QuizAppGUI/src/QuizAppGUI.java:112-119 | one branch of the fetch's definition, unfolded for later proofs: any response other than a 429 decides the outcome on its own |
| Fetcher.RateLimitsAreSkipped | QuizAppGUI/src/QuizAppGUI.java:114-117 | when the first `k` responses are 429 replies, the outcome is that of the responses after them |
| Fetcher.RetriesAreTransparent | QuizAppGUI/src/QuizAppGUI.java:114-117 | any number of 429 replies before the first other response leave the outcome to that response alone; later responses are never read |
| Fetcher.RetryThenLoad | QuizAppGUI/src/QuizAppGUI.java:114-152 | 429 replies followed by status 200 with well-formed records load one built question per record, without the fallback |
| Fetcher.RetryThenFallBack | QuizAppGUI/src/QuizAppGUI.java:114-119 | 429 replies followed by an exception, a status other than 200 and 429, or an unparseable 200 body load the fallback set |
| Fetcher.ShortRecordFallsBack | QuizAppGUI/src/QuizAppGUI.java:146-162 | a 200 reply holding a record with fewer than three incorrect answers loads the fallback set, discarding the questions already built |
| Fetcher.EmptyResultsLoadNothing | QuizAppGUI/src/QuizAppGUI.java:129-152 | a 200 reply with an empty results array loads no questions and does not fall back |
| Fetcher.FallbackShape | QuizAppGUI/src/QuizAppGUI.java:161-172 | the fallback set has three questions with labelled options and correct labels D, C and A, naming "All of the above", "extends" and "main()" |
| Fetcher.FallbackLabelled | QuizAppGUI/src/QuizAppGUI.java:161-172 | each fallback question starts its four options with the labels A to D and `". "` |
| QuizSession.Start | QuizAppGUI/src/QuizAppGUI.java:33-41 | the session starts at index 0 with score 0 over the loaded questions, and is finished at once only when there are none |
| QuizSession.Current | QuizAppGUI/src/QuizAppGUI.java:182-184 | a question is shown exactly while the index is below the number of questions, and it is the question at the current index |
| QuizSession.CheckAnswer | QuizAppGUI/src/QuizAppGUI.java:198-209 | with no selection nothing changes and the user is asked to select; with one, the index advances by one and the score rises by one exactly when the selected button's action command equals the current question's correct label; `0 <= score <= index <= total` is preserved |
| QuizSession.FinalResult | QuizAppGUI/src/QuizAppGUI.java:232-233 | the reported result is the score out of the number of questions, and the score never exceeds it |
| QuizSession.CountCorrect | QuizAppGUI/src/QuizAppGUI.java:199-203 | the number of correctly chosen answers is at most the number of questions |
| QuizSession.Play | QuizAppGUI/src/QuizAppGUI.java:198-209 | submitting a sequence of selections keeps the session invariant |
| QuizSession.PlayFromScores | QuizAppGUI/src/QuizAppGUI.java:198-209 | answering every remaining question once finishes the quiz with one point added per correct choice |
| QuizSession.PlayScores | QuizAppGUI/src/QuizAppGUI.java:182-209 | a quiz answered with one choice per question ends finished, reporting the number of correct choices out of the number of questions |
| QuizApp.Launch | QuizAppGUI/src/QuizAppGUI.java:38-41 | start-up requests the questions endpoint itself when no token was obtained, and otherwise a URL on that endpoint carrying exactly the token obtained; opens a session at 0/0 exactly when some response was not a 429, and warns exactly when the fallback set was loaded; the opened session holds exactly the questions the fetch loaded |
| QuizApp.FallbackQuizPerfectRun | QuizAppGUI/src/QuizAppGUI.java:161-209 | when the provider fails, the quiz holds the fallback set and answering D, C, A scores 3 out of 3 |

## Left out

- Swing widgets, layout, dialogs and `main`: presentation only. The two
  warning dialogs appear as `Feedback.SelectAnswer` and `Startup.warned`.
- The `e.printStackTrace()` logging when the fetch fails (line 155): a
  console side effect with no bearing on the state.
- Entities other than the five the decoder knows, such as `&eacute;` or
  `&rsquo;` that the provider's HTML encoding also emits: `htmlDecode` leaves
  them as they are, and so does the model. The round trip
  `HtmlEntities.DecodeInvertsEscape` is stated for the five-entity encoding
  `Escape` only, not for the provider's full encoding.
- The question label text `"Q<n>: ..."` set at line 185 is display only.
- Network I/O, the `Scanner` reads and the 2-second `Thread.sleep`: replaced
  by the supplied `TokenReply` and `Response` values. An interrupted sleep is
  an exception and is modelled as the next response being `Unreachable`.
- Parsing with `org.json`: that library is not part of this model. A body is
  either `Unparseable` or an envelope of parsed records. A record missing a
  field throws like an unparseable body does, so it is folded into
  `Unparseable`.
- `storeResultInDatabase` (lines 211-230), the username prompt and the JDBC
  write: a persistence side effect outside the model. Only the score and total
  it would report are modelled, by `QuizSession.FinalResult`.
- The randomness of `Collections.shuffle` and its uniform distribution: the
  draws are a parameter. That every permutation arises from some draws is not
  proved.
- The unbounded retry on 429: a finite sequence of responses is modelled, and
  a run of only 429s ends as `Pending`. Non-termination is not stated.
- Stack depth of the retry: each retry nests a call, so a long enough run of
  429s exhausts the stack. The resulting `StackOverflowError` escapes the
  catch at line 154, and start-up fails with neither quiz nor fallback. The
  model's retries are unbounded, so `Fetcher.RetriesAreTransparent` and
  `Fetcher.RateLimitsAreSkipped` hold for any number of 429s, where the
  program holds only up to the stack limit.
- Strings are sequences of Unicode scalar values, not UTF-16 code units, so an
  option's first character is compared by code point. The two agree for every
  option the application formats, since each starts with `A`–`D`.
- The session's handling of an option with an empty text, where Java's
  `charAt(0)` would throw at line 188: sessions require every question to have
  four non-empty options. Built and fallback questions always do.
