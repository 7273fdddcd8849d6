/** The quiz session: the question list, the index of the question on
    screen and the score, advanced one submitted answer at a time. */
module QuizSession {
  import opened Wrappers
  import opened Questions

  /** The application's session fields: the questions, the current index
      and the score. */
  datatype Session = Session(questions: seq<Question>, index: nat, score: nat)

  /** One of the four option buttons. */
  type Button = b: nat | b < OptionSlots

  /** What a press of the Next button leads to: the answer was taken, the
      user was asked to select an answer first, or there was no current
      question to answer. The last stands for the IndexOutOfBoundsException
      that looking up the current question then throws; the state is left
      as it was. */
  datatype Feedback = Advanced | SelectAnswer | NoCurrentQuestion

  /** Score never exceeds the number of answered questions, which never
      exceeds the number of questions; every question can be displayed. */
  predicate Valid(s: Session)
  {
    && s.score <= s.index <= |s.questions|
    && forall i :: 0 <= i < |s.questions| ==> WellFormed(s.questions[i])
  }

  /** No question is left to show: the quiz reports its result. */
  predicate Finished(s: Session)
  {
    s.index >= |s.questions|
  }

  /** The session the application starts with once its questions are loaded. */
  function Start(questions: seq<Question>): (s: Session)
    requires forall i :: 0 <= i < |questions| ==> WellFormed(questions[i])
    ensures Valid(s) && s.questions == questions
    ensures s.index == 0 && s.score == 0
    ensures Finished(s) <==> |questions| == 0
  {
    Session(questions, 0, 0)
  }

  /** The question on screen, if any. */
  function Current(s: Session): (q: Option<Question>)
    requires Valid(s)
    ensures q.Some? <==> !Finished(s)
    ensures q.Some? ==> q.value == s.questions[s.index]
  {
    if s.index < |s.questions| then Some(s.questions[s.index]) else None
  }

  /** A press of Next with the given button selected, or none. Without a
      selection nothing changes and the user is asked to select. With one,
      the selected button's action command is compared with the current
      question's correct label, a match earns a point, and the index
      moves on. */
  function CheckAnswer(s: Session, selection: Option<Button>): (r: (Session, Feedback))
    requires Valid(s)
    ensures Valid(r.0) && r.0.questions == s.questions
    ensures selection.None? ==> r == (s, SelectAnswer)
    ensures selection.Some? && Finished(s) ==> r == (s, NoCurrentQuestion)
    ensures selection.Some? && !Finished(s) ==>
      && r.1 == Advanced
      && r.0.index == s.index + 1
      && s.score <= r.0.score <= s.score + 1
      && (r.0.score == s.score + 1 <==> ActionCommand(s.questions[s.index], selection.value) == s.questions[s.index].correctOption)
  {
    match selection
    case None => (s, SelectAnswer)
    case Some(b) =>
      if s.index >= |s.questions| then (s, NoCurrentQuestion)
      else
        var q := s.questions[s.index];
        var score := if ActionCommand(q, b) == q.correctOption then s.score + 1 else s.score;
        (Session(s.questions, s.index + 1, score), Advanced)
  }

  /** The final score and the number of questions, as shown when the quiz ends. */
  function FinalResult(s: Session): (r: (nat, nat))
    requires Valid(s) && Finished(s)
    ensures r.0 <= r.1 && r.1 == |s.questions|
    ensures r.0 == s.score
  {
    (s.score, |s.questions|)
  }

  /** Whether pressing button `b` answers `q` correctly. */
  predicate Scores(q: Question, b: Button)
    requires WellFormed(q)
  {
    ActionCommand(q, b) == q.correctOption
  }

  /** How many of the questions the choices, taken pairwise, answer correctly. */
  function CountCorrect(questions: seq<Question>, choices: seq<Button>): (n: nat)
    requires |choices| == |questions|
    requires forall i :: 0 <= i < |questions| ==> WellFormed(questions[i])
    ensures n <= |questions|
  {
    if |questions| == 0 then 0
    else (if Scores(questions[0], choices[0]) then 1 else 0) + CountCorrect(questions[1..], choices[1..])
  }

  /** Presses Next once per choice, each time with that choice selected. */
  function Play(s: Session, choices: seq<Button>): (r: Session)
    requires Valid(s)
    ensures Valid(r)
    decreases |choices|
  {
    if |choices| == 0 then s
    else Play(CheckAnswer(s, Some(choices[0])).0, choices[1..])
  }

  /** Answering the remaining questions one choice each finishes the quiz
      with one extra point per correct choice. */
  lemma {:induction false} PlayFromScores(s: Session, choices: seq<Button>)
    requires Valid(s)
    requires |choices| == |s.questions| - s.index
    ensures Play(s, choices) == Session(s.questions, |s.questions|, s.score + CountCorrect(s.questions[s.index..], choices))
    decreases |choices|
  {
    if |choices| > 0 {
      var next := CheckAnswer(s, Some(choices[0])).0;
      PlayFromScores(next, choices[1..]);
      assert s.questions[s.index..][1..] == s.questions[next.index..];
      assert s.questions[s.index..][0] == s.questions[s.index];
    }
  }

  /** A whole quiz answered with one choice per question ends finished, with
      the index at the number of questions and the score equal to the
      number of correct choices. */
  lemma PlayScores(questions: seq<Question>, choices: seq<Button>)
    requires forall i :: 0 <= i < |questions| ==> WellFormed(questions[i])
    requires |choices| == |questions|
    ensures var s := Play(Start(questions), choices);
      && Finished(s)
      && FinalResult(s) == (CountCorrect(questions, choices), |questions|)
  {
    PlayFromScores(Start(questions), choices);
    assert questions[0..] == questions;
  }
}
