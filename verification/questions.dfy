/** Building a quiz question from a provider record: decoding, shuffling
    the answers, formatting the four labelled options and recording the
    label of the correct one. */
module Questions {
  import opened Wrappers
  import opened HtmlEntities

  /** A parsed provider record, still entity-encoded: the JSON fields
      `question`, `correct_answer` and `incorrect_answers`. */
  datatype RawQuestion = RawQuestion(question: string, correctAnswer: string, incorrectAnswers: seq<string>)

  /** A question as the quiz shows it: its text, the formatted options and
      the correct option's label, kept as the numeric code of a Java char. */
  datatype Question = Question(text: string, options: seq<string>, correctOption: int)

  /** The exception that stops a build: the formatting loop reads an
      option slot the shuffled list does not have. */
  datatype BuildError = TooFewAnswers

  /** The quiz shows four options per question. */
  const OptionSlots := 4

  /** Length of the `"X. "` prefix in front of every formatted option. */
  const PrefixLength := 3

  /** Java's `(char)('A' + i)`: the code wraps at 16 bits. */
  function LabelCode(i: int): (c: int)
    ensures 0 <= c < 0x1_0000
    ensures 0 <= i < 0x1_0000 - 'A' as int ==> c - 'A' as int == i
  {
    ('A' as int + i) % 0x1_0000
  }

  /** The label of option slot `j`: `A`, `B`, `C` or `D`. */
  function LabelChar(j: nat): (c: char)
    requires j < OptionSlots
    ensures c as int == LabelCode(j)
  {
    ('A' as int + j) as char
  }

  /** An option as displayed: `"<label>. <text>"`. */
  function FormatOption(j: nat, text: string): (r: string)
    requires j < OptionSlots
    ensures |r| == PrefixLength + |text| && r[0] == LabelChar(j) && r[PrefixLength..] == text
  {
    [LabelChar(j)] + ". " + text
  }

  /** The quiz can display `q`: four options, none empty, so that each has
      a first character to serve as its action command. */
  predicate WellFormed(q: Question)
  {
    |q.options| == OptionSlots && forall j :: 0 <= j < OptionSlots ==> |q.options[j]| > 0
  }

  /** Every option of `q` starts with the label of its slot and `". "`. */
  predicate Labelled(q: Question)
  {
    && WellFormed(q)
    && forall j :: 0 <= j < OptionSlots ==>
         |q.options[j]| >= PrefixLength && q.options[j][..PrefixLength] == [LabelChar(j)] + ". "
  }

  /** The text shown after the label prefix of option `j`. */
  function OptionText(q: Question, j: nat): string
    requires Labelled(q) && j < OptionSlots
  {
    q.options[j][PrefixLength..]
  }

  /** The action command of the radio button showing option `j`: the
      option's first character, as a char code. */
  function ActionCommand(q: Question, j: nat): (c: int)
    requires WellFormed(q) && j < OptionSlots
    ensures Labelled(q) ==> c == LabelCode(j)
  {
    assert Labelled(q) ==> q.options[j][0] == q.options[j][..PrefixLength][0];
    q.options[j][0] as int
  }

  /** Exchanges the elements at positions `i` and `j`. */
  function Swap<T>(s: seq<T>, i: nat, j: nat): (r: seq<T>)
    requires i < |s| && j < |s|
    ensures |r| == |s| && multiset(r) == multiset(s)
  {
    s[i := s[j]][j := s[i]]
  }

  /** The `k`-th random draw, a value below `bound`. A supplied draw is
      taken modulo its bound; when no draw is supplied the slot stays in
      place. */
  function Draw(draws: seq<nat>, k: nat, bound: nat): (d: nat)
    requires bound > 0
    ensures d < bound
  {
    if k < |draws| then draws[k] % bound else bound - 1
  }

  /** Collections.shuffle on a random-access list: for `i` from the size
      down to 2, swap position `i - 1` with a position drawn below `i`.
      The randomness is the supplied sequence of draws. */
  function ShuffleDown<T>(s: seq<T>, draws: seq<nat>, i: nat): (r: seq<T>)
    requires i <= |s|
    ensures |r| == |s| && multiset(r) == multiset(s)
    decreases i
  {
    if i <= 1 then s
    else ShuffleDown(Swap(s, i - 1, Draw(draws, |s| - i, i)), draws, i - 1)
  }

  /** A shuffle of `s` determined by `draws`. */
  function Shuffle<T>(s: seq<T>, draws: seq<nat>): (r: seq<T>)
    ensures |r| == |s| && multiset(r) == multiset(s)
  {
    ShuffleDown(s, draws, |s|)
  }

  /** Java's List.indexOf: the first position holding `x`, or -1. */
  function IndexOf<T(==)>(s: seq<T>, x: T): (r: int)
    ensures -1 <= r < |s|
    ensures r == -1 <==> x !in s
    ensures r >= 0 ==> s[r] == x && forall i :: 0 <= i < r ==> s[i] != x
  {
    if |s| == 0 then -1
    else if s[0] == x then 0
    else
      var r := IndexOf(s[1..], x);
      if r == -1 then -1 else r + 1
  }

  /** The decoded answers in provider order: the correct one first, then
      the incorrect ones. */
  function Answers(rec: RawQuestion): (r: seq<string>)
    ensures |r| == 1 + |rec.incorrectAnswers|
    ensures r[0] == HtmlDecode(rec.correctAnswer)
    ensures forall i :: 0 <= i < |rec.incorrectAnswers| ==> r[i + 1] == HtmlDecode(rec.incorrectAnswers[i])
  {
    [HtmlDecode(rec.correctAnswer)] + seq(|rec.incorrectAnswers|, i requires 0 <= i < |rec.incorrectAnswers| => HtmlDecode(rec.incorrectAnswers[i]))
  }

  /** The question built from a record with at least four answers: decode,
      shuffle, label the correct answer by its first shuffled position,
      format the first four options. */
  function Layout(rec: RawQuestion, draws: seq<nat>): (q: Question)
    requires |rec.incorrectAnswers| >= OptionSlots - 1
    ensures Labelled(q) && q.text == HtmlDecode(rec.question)
  {
    var correct := HtmlDecode(rec.correctAnswer);
    var options := Shuffle(Answers(rec), draws);
    assert correct in multiset(Answers(rec));
    var formatted := seq(OptionSlots, j requires 0 <= j < OptionSlots => FormatOption(j, options[j]));
    Question(HtmlDecode(rec.question), formatted, LabelCode(IndexOf(options, correct)))
  }

  /** The body of the fetch loop for one record. The shuffled list holds
      the correct answer and the incorrect ones; with fewer than four the
      formatting loop reads past its end and throws. */
  function BuildQuestion(rec: RawQuestion, draws: seq<nat>): (r: Result<Question, BuildError>)
    ensures r.Success? <==> |rec.incorrectAnswers| >= OptionSlots - 1
    ensures r.Success? ==> Labelled(r.value) && r.value.text == HtmlDecode(rec.question)
  {
    if |Answers(rec)| < OptionSlots then Failure(TooFewAnswers)
    else Success(Layout(rec, draws))
  }

  /** How a successful build lays out its options: slot `j` shows the
      `j`-th shuffled answer and the label names the first slot holding the
      correct answer. */
  lemma BuildLayout(rec: RawQuestion, draws: seq<nat>)
    requires |rec.incorrectAnswers| >= OptionSlots - 1
    ensures var q, shuffled := BuildQuestion(rec, draws).value, Shuffle(Answers(rec), draws);
      && |shuffled| >= OptionSlots
      && (forall j :: 0 <= j < OptionSlots ==> OptionText(q, j) == shuffled[j])
      && 0 <= IndexOf(shuffled, HtmlDecode(rec.correctAnswer))
      && q.correctOption == LabelCode(IndexOf(shuffled, HtmlDecode(rec.correctAnswer)))
  {
    assert HtmlDecode(rec.correctAnswer) in multiset(Answers(rec));
  }

  /** The texts of the four options, without their label prefixes. */
  function OptionTexts(q: Question): (texts: seq<string>)
    requires Labelled(q)
    ensures |texts| == OptionSlots && forall j :: 0 <= j < OptionSlots ==> texts[j] == OptionText(q, j)
  {
    seq(OptionSlots, j requires 0 <= j < OptionSlots => OptionText(q, j))
  }

  /** With the three incorrect answers the provider sends, the four options
      show exactly the four decoded answers: the shuffle loses and
      duplicates none. */
  lemma BuildKeepsAnswers(rec: RawQuestion, draws: seq<nat>)
    requires |rec.incorrectAnswers| == OptionSlots - 1
    ensures multiset(OptionTexts(BuildQuestion(rec, draws).value)) == multiset(Answers(rec))
  {
    var shuffled := Shuffle(Answers(rec), draws);
    BuildLayout(rec, draws);
    assert OptionTexts(BuildQuestion(rec, draws).value) == shuffled;
  }

  /** With three incorrect answers the correct label is one of `A`..`D`,
      the option it names shows the decoded correct answer, and no earlier
      option does. */
  lemma BuildMarksCorrect(rec: RawQuestion, draws: seq<nat>)
    requires |rec.incorrectAnswers| == OptionSlots - 1
    ensures var q := BuildQuestion(rec, draws).value;
      && 'A' as int <= q.correctOption <= 'D' as int
      && OptionText(q, q.correctOption - 'A' as int) == HtmlDecode(rec.correctAnswer)
      && forall i :: 0 <= i < q.correctOption - 'A' as int ==> OptionText(q, i) != HtmlDecode(rec.correctAnswer)
  {
    BuildLayout(rec, draws);
  }

  /** Choosing option `j` of a built question earns the point exactly when
      `j` is the first slot showing the correct answer. */
  lemma ChosenOptionScores(rec: RawQuestion, draws: seq<nat>, j: nat)
    requires |rec.incorrectAnswers| == OptionSlots - 1 && j < OptionSlots
    ensures var q := BuildQuestion(rec, draws).value;
      ActionCommand(q, j) == q.correctOption
      <==> (OptionText(q, j) == HtmlDecode(rec.correctAnswer)
            && forall i :: 0 <= i < j ==> OptionText(q, i) != HtmlDecode(rec.correctAnswer))
  {
    var q := BuildQuestion(rec, draws).value;
    BuildMarksCorrect(rec, draws);
    assert ActionCommand(q, j) == LabelCode(j);
    var c := q.correctOption - 'A' as int;
    if OptionText(q, j) == HtmlDecode(rec.correctAnswer)
       && forall i :: 0 <= i < j ==> OptionText(q, i) != HtmlDecode(rec.correctAnswer)
    {
      assert !(j < c) && !(c < j);
    }
  }

  /** Two positions holding the same value make it occur twice. */
  lemma OccursTwice<T>(s: seq<T>, i: nat, k: nat)
    requires i < k < |s| && s[i] == s[k]
    ensures multiset(s)[s[i]] >= 2
  {
    assert s == s[..k] + s[k..];
    assert s[i] == s[..k][i];
    assert s[k] == s[k..][0];
    assert multiset(s) == multiset(s[..k]) + multiset(s[k..]);
  }

  /** When no two answers share a text, choosing option `j` earns the point
      exactly when it shows the correct answer. */
  lemma DistinctAnswersScore(rec: RawQuestion, draws: seq<nat>, j: nat)
    requires |rec.incorrectAnswers| == OptionSlots - 1 && j < OptionSlots
    requires forall a :: a in multiset(Answers(rec)) ==> multiset(Answers(rec))[a] == 1
    ensures var q := BuildQuestion(rec, draws).value;
      ActionCommand(q, j) == q.correctOption <==> OptionText(q, j) == HtmlDecode(rec.correctAnswer)
  {
    var q, shuffled := BuildQuestion(rec, draws).value, Shuffle(Answers(rec), draws);
    var correct := HtmlDecode(rec.correctAnswer);
    ChosenOptionScores(rec, draws, j);
    BuildLayout(rec, draws);
    if OptionText(q, j) == correct {
      forall i | 0 <= i < j
        ensures OptionText(q, i) != correct
      {
        if OptionText(q, i) == correct {
          OccursTwice(shuffled, i, j);
          assert false;
        }
      }
    }
  }

  /** With more incorrect answers than the provider sends, the correct
      answer can be shuffled past the fourth slot; the question is then
      built, but no button carries its label. The bound on the position is
      where the 16-bit label code would wrap round to a small value. */
  lemma MisplacedCorrectAnswer(rec: RawQuestion, draws: seq<nat>)
    requires |rec.incorrectAnswers| >= OptionSlots - 1
    requires OptionSlots <= IndexOf(Shuffle(Answers(rec), draws), HtmlDecode(rec.correctAnswer)) < 0x1_0000 - 'A' as int
    ensures var q := BuildQuestion(rec, draws).value;
      forall j :: 0 <= j < OptionSlots ==> ActionCommand(q, j) != q.correctOption
  {
    var q := BuildQuestion(rec, draws).value;
    BuildLayout(rec, draws);
    forall j | 0 <= j < OptionSlots
      ensures ActionCommand(q, j) != q.correctOption
    {
      assert ActionCommand(q, j) == LabelCode(j);
    }
  }
}
