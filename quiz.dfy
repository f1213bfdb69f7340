/**
 * The quiz of website/quiz.py: questions as read from the quiz file, the conversion
 * between answer letters and choice numbers, and the progress of one player through a
 * quiz, which every submitted answer updates.
 */
module Quiz {
  import opened Wrappers
  import opened Builtins
  import Text

  /** How often a question may be answered wrongly before its answer is shown. */
  const MAX_ATTEMPTS: int := 2

  // ---------------------------------------------------------------------------
  // Answer letters and choice numbers.

  /** `number_from_letter(letter)`: `A`, `B`, `C` (either case) become 1, 2, 3; `ord` needs one character. */
  function NumberFromLetter(letter: string): (r: Result<int, Error>)
    ensures r.Success? <==> |letter| == 1
    ensures r.Failure? ==> r.error == TypeError
    ensures |letter| == 1 && 'A' <= letter[0] <= 'Z' ==> r == Success(letter[0] as int - 'A' as int + 1)
    ensures |letter| == 1 && 'a' <= letter[0] <= 'z' ==> r == Success(letter[0] as int - 'a' as int + 1)
  {
    var upper := Text.Upper(letter);
    if |upper| != 1 then Failure(TypeError) else Success(upper[0] as int - 'A' as int + 1)
  }

  /**
   * `letter_from_number(num)`: 1, 2, 3 become `A`, `B`, `C`. The one-character string is
   * given by its code point, since `chr` also gives the surrogates 0xD800 to 0xDFFF, which
   * a Dafny `char` cannot hold; outside 0 to 0x10FFFF `chr` raises ValueError.
   */
  function LetterFromNumber(num: int): (r: Result<int, Error>)
    ensures r.Success? <==> 0 <= 'A' as int + num - 1 <= 0x10FFFF
    ensures r.Success? ==> r.value == 'A' as int + num - 1
    ensures r.Failure? ==> r.error == ValueError
  {
    var code := 'A' as int + num - 1;
    if 0 <= code <= 0x10FFFF then Success(code) else Failure(ValueError)
  }

  /** A letter's number gives the upper-case letter back. */
  lemma LetterOfNumberOfLetter(c: char)
    requires 'A' <= c <= 'Z' || 'a' <= c <= 'z'
    ensures NumberFromLetter([c]).Success?
    ensures LetterFromNumber(NumberFromLetter([c]).value) == Success(Text.UpperChar(c) as int)
  {
  }

  /** The number of a letter does not depend on its case. */
  lemma NumberIgnoresCase(c: char)
    ensures NumberFromLetter([c]) == NumberFromLetter([Text.UpperChar(c)])
    ensures NumberFromLetter([Text.LowerChar(c)]) == NumberFromLetter([Text.UpperChar(c)])
  {
  }

  /** The letters of the numbers 1 to 26 give those numbers back. */
  lemma NumberOfLetterOfNumber(n: int)
    requires 1 <= n <= 26
    ensures LetterFromNumber(n).Success?
    ensures NumberFromLetter([LetterFromNumber(n).value as char]) == Success(n)
  {
  }

  // ---------------------------------------------------------------------------
  // Questions.

  datatype Choice = Choice(number: int, text: string, feedback: string, code: Option<string>)

  datatype Question = Question(number: int, text: string, choices: seq<Choice>, correctAnswer: int,
                               hint: string, score: int, code: Option<string>, output: Option<string>)

  /** `get_choice(number)`: choices are numbered from 1 (`choices[number - 1]`, Python indexing). */
  function GetChoice(q: Question, number: int): (r: Result<Choice, Error>)
    ensures 1 <= number <= |q.choices| ==> r == Success(q.choices[number - 1])
    ensures number > |q.choices| || number < 1 - |q.choices| ==> r == Failure(IndexError)
  {
    Index(q.choices, number - 1)
  }

  /** One entry of `mp_choice_options` in the quiz file; absent keys are `None`. */
  datatype OptionData = OptionData(option: Option<string>, feedback: Option<string>)

  /** A scalar of the quiz file that `int()` is applied to: a number or a text. */
  datatype Scalar = Num(n: int) | Str(s: string)

  /** A question as written in the quiz file; absent keys are `None`. */
  datatype QuestionData = QuestionData(questionText: Option<string>, code: Option<string>,
                                       options: Option<seq<OptionData>>, correctAnswer: Option<string>,
                                       hint: Option<string>, questionScore: Option<Scalar>, output: Option<string>)

  /** `int(x)`: a number stays itself, a text is parsed and raises ValueError when it is not a number. */
  function ToInt(x: Scalar): (r: Result<int, Error>)
    ensures x.Num? ==> r == Success(x.n)
    ensures r.Failure? ==> r.error == ValueError
    ensures x.Str? ==> (r.Success? <==> Text.ParseInt(x.s).Some?)
  {
    match x
    case Num(n) => Success(n)
    case Str(s) => if Text.ParseInt(s).Some? then Success(Text.ParseInt(s).value) else Failure(ValueError)
  }

  function Choices(options: seq<OptionData>): (cs: seq<Choice>)
    ensures |cs| == |options|
    ensures forall i :: 0 <= i < |options| ==>
      cs[i] == Choice(i + 1, options[i].option.GetOr(""), options[i].feedback.GetOr(""), None)
  {
    seq(|options|, i requires 0 <= i < |options| =>
      Choice(i + 1, options[i].option.GetOr(""), options[i].feedback.GetOr(""), None))
  }

  /**
   * `Question.from_yaml(nr, data)`: choices numbered 1, 2, ... in file order, the correct
   * answer as a number (letter `A` when absent), score `int(question_score)` with 10 when
   * absent, and empty texts for absent texts. The correct answer is converted before the
   * score, so its error comes first.
   */
  function FromYaml(nr: int, data: QuestionData): (r: Result<Question, Error>)
    ensures r.Success? <==>
      NumberFromLetter(data.correctAnswer.GetOr("A")).Success? && ToInt(data.questionScore.GetOr(Num(10))).Success?
    ensures NumberFromLetter(data.correctAnswer.GetOr("A")).Failure? ==>
      r == Failure(NumberFromLetter(data.correctAnswer.GetOr("A")).error)
    ensures data.correctAnswer.None? && data.questionScore.None? ==> r.Success? && r.value.correctAnswer == 1 && r.value.score == 10
    ensures r.Success? ==> r.value.number == nr && r.value.text == data.questionText.GetOr("")
    ensures r.Success? ==> r.value.choices == Choices(data.options.GetOr([]))
    ensures r.Success? ==> r.value.score == ToInt(data.questionScore.GetOr(Num(10))).value
  {
    var correct :- NumberFromLetter(data.correctAnswer.GetOr("A"));
    var score :- ToInt(data.questionScore.GetOr(Num(10)));
    Success(Question(nr, data.questionText.GetOr(""), Choices(data.options.GetOr([])), correct,
                     data.hint.GetOr(""), score, data.code, data.output))
  }

  /** A score written as text is read as its number: `int("5")` is 5 and `int("five")` raises. */
  lemma ScoreFromText(nr: int, data: QuestionData)
    requires data.correctAnswer.None?
    ensures FromYaml(nr, data.(questionScore := Some(Str("5")))) .Success?
    ensures FromYaml(nr, data.(questionScore := Some(Str("5")))).value.score == 5
    ensures FromYaml(nr, data.(questionScore := Some(Str("five")))) == Failure(ValueError)
  {
    var five := "five";
    assert Text.ParseInt(five) == None by {
      assert Text.Strip(five) == five by {
        assert !Text.IsSpace(five[0]) && !Text.IsSpace(five[|five| - 1]);
        assert Text.TrimStart(five) == five;
      }
      assert Text.Unsigned(five) == five;
      assert !Text.IsDigit(five[0]);
    }
    assert ToInt(Str(five)) == Failure(ValueError);
    Text.ParseIntOfString(5);
    assert Text.IntToString(5) == "5";
  }

  /** In a question read from the file, choice `n` is the `n`-th option and carries number `n`. */
  lemma GetChoiceFromYaml(nr: int, data: QuestionData, n: int)
    requires FromYaml(nr, data).Success?
    requires 1 <= n <= |data.options.GetOr([])|
    ensures GetChoice(FromYaml(nr, data).value, n).Success?
    ensures GetChoice(FromYaml(nr, data).value, n).value.number == n
    ensures GetChoice(FromYaml(nr, data).value, n).value.text == data.options.GetOr([])[n - 1].option.GetOr("")
  {
  }

  // ---------------------------------------------------------------------------
  // Progress.

  /** `incorrect_answers_so_far`: the questions up to the current one not answered correctly. */
  function IncorrectSoFar(question: int, correct: seq<int>): set<int> {
    set i | 1 <= i <= question && i !in correct
  }

  /**
   * The questions up to the current one split into the correctly answered ones and the
   * others, and no question is in both.
   */
  lemma IncorrectAndCorrect(question: int, correct: seq<int>)
    ensures IncorrectSoFar(question, correct) * (set x | x in correct) == {}
    ensures forall i :: 1 <= i <= question ==> (i in IncorrectSoFar(question, correct) <==> i !in correct)
    ensures forall i :: i in IncorrectSoFar(question, correct) ==> 1 <= i <= question
  {
  }

  /** A list has at most as many distinct elements as entries, and exactly as many when none repeats. */
  lemma {:induction false} ElementsCount(s: seq<int>)
    ensures |set x | x in s| <= |s|
    ensures (forall a, b :: 0 <= a < b < |s| ==> s[a] != s[b]) ==> |set x | x in s| == |s|
  {
    if s != [] {
      var init := s[..|s| - 1];
      ElementsCount(init);
      assert (set x | x in s) == (set x | x in init) + {s[|s| - 1]};
      if forall a, b :: 0 <= a < b < |s| ==> s[a] != s[b] {
        assert forall a, b :: 0 <= a < b < |init| ==> init[a] != init[b];
        assert s[|s| - 1] !in (set x | x in init);
      }
    }
  }

  /** The outcome of `submit_answer`, leaving out the redirects' URLs. */
  datatype Outcome =
      /** No answer, or answer 0: the request is refused. */
    | NoAnswer
      /** The question was already answered wrongly the maximum number of times: review it. */
    | AlreadyFinished
    | Answered(correct: bool, finished: bool, quizFinished: bool)

  /** `QuizProgress`: one player's state in a quiz. */
  class QuizProgress {
    var level: int
    var question: int
    var attemptId: string
    var questionAttempt: int
    var totalScore: int
    var correctlyAnswered: seq<int>
    var lastWrongAnswer: Option<int>
    var wrongAnswerFeedback: Option<string>
    var isPreview: Option<bool>
    var cypressPageCounter: int

    /** `QuizProgress(level, question, attempt_id, question_attempt, total_score)` with the defaults. */
    constructor(level: int, question: int, attemptId: string, questionAttempt: int, totalScore: int)
      ensures this.level == level && this.question == question && this.attemptId == attemptId
      ensures this.questionAttempt == questionAttempt && this.totalScore == totalScore
      ensures correctlyAnswered == [] && lastWrongAnswer == None && wrongAnswerFeedback == None
      ensures isPreview == None && cypressPageCounter == 0
    {
      this.level := level;
      this.question := question;
      this.attemptId := attemptId;
      this.questionAttempt := questionAttempt;
      this.totalScore := totalScore;
      correctlyAnswered := [];
      lastWrongAnswer := None;
      wrongAnswerFeedback := None;
      isPreview := None;
      cypressPageCounter := 0;
    }

    /** No question number is recorded twice. */
    predicate Distinct()
      reads this
    {
      forall a, b :: 0 <= a < b < |correctlyAnswered| ==> correctlyAnswered[a] != correctlyAnswered[b]
    }

    /** `correct_answers_so_far`: as many questions as numbers recorded, when none is recorded twice. */
    function CorrectSoFar(): (r: set<int>)
      reads this
      ensures |r| <= |correctlyAnswered|
      ensures Distinct() ==> |r| == |correctlyAnswered|
    {
      ElementsCount(correctlyAnswered);
      set x | x in correctlyAnswered
    }

    /**
     * `incorrect_answers_so_far`: the questions up to the current one split into these and
     * the correctly answered ones.
     */
    function IncorrectAnswersSoFar(): (r: set<int>)
      reads this
      ensures r * CorrectSoFar() == {}
      ensures forall i :: i in r ==> 1 <= i <= question
      ensures forall i :: 1 <= i <= question ==> i in r || i in CorrectSoFar()
    {
      IncorrectAndCorrect(question, correctlyAnswered);
      IncorrectSoFar(question, correctlyAnswered)
    }

    /**
     * `correctly_answered(question)`: the score is added, and the number recorded, only
     * the first time; the wrong-answer fields are cleared.
     */
    method CorrectlyAnswered(q: Question)
      modifies this
      ensures q.number !in old(correctlyAnswered) ==>
        totalScore == old(totalScore) + q.score && correctlyAnswered == old(correctlyAnswered) + [q.number]
      ensures q.number in old(correctlyAnswered) ==>
        totalScore == old(totalScore) && correctlyAnswered == old(correctlyAnswered)
      ensures lastWrongAnswer == None && wrongAnswerFeedback == None
      ensures level == old(level) && question == old(question) && attemptId == old(attemptId)
      ensures questionAttempt == old(questionAttempt) && isPreview == old(isPreview)
      ensures cypressPageCounter == old(cypressPageCounter)
      ensures old(Distinct()) ==> Distinct()
      ensures CorrectSoFar() == old(CorrectSoFar()) + {q.number}
    {
      if q.number !in correctlyAnswered {
        totalScore := totalScore + q.score;
        correctlyAnswered := correctlyAnswered + [q.number];
      }
      lastWrongAnswer := None;
      wrongAnswerFeedback := None;
    }

    /** `incorrectly_answered(choice)`: one more attempt, and the wrong choice is remembered. */
    method IncorrectlyAnswered(choice: Choice)
      modifies this
      ensures questionAttempt == old(questionAttempt) + 1
      ensures lastWrongAnswer == Some(choice.number) && wrongAnswerFeedback == Some(choice.feedback)
      ensures level == old(level) && question == old(question) && attemptId == old(attemptId)
      ensures totalScore == old(totalScore) && correctlyAnswered == old(correctlyAnswered)
      ensures isPreview == old(isPreview) && cypressPageCounter == old(cypressPageCounter)
    {
      questionAttempt := questionAttempt + 1;
      lastWrongAnswer := Some(choice.number);
      wrongAnswerFeedback := Some(choice.feedback);
    }

    /** `next_question()`: on to the next question, with no attempts and no wrong answer yet. */
    method NextQuestion()
      modifies this
      ensures question == old(question) + 1 && questionAttempt == 0
      ensures lastWrongAnswer == None && wrongAnswerFeedback == None
      ensures level == old(level) && attemptId == old(attemptId) && totalScore == old(totalScore)
      ensures correctlyAnswered == old(correctlyAnswered)
      ensures isPreview == old(isPreview) && cypressPageCounter == old(cypressPageCounter)
    {
      question := question + 1;
      questionAttempt := 0;
      lastWrongAnswer := None;
      wrongAnswerFeedback := None;
    }

    /** `advance_cypress_page_counter()` */
    method AdvanceCypressPageCounter()
      modifies this
      ensures cypressPageCounter == old(cypressPageCounter) + 1
      ensures level == old(level) && question == old(question) && attemptId == old(attemptId)
      ensures questionAttempt == old(questionAttempt) && totalScore == old(totalScore)
      ensures correctlyAnswered == old(correctlyAnswered) && isPreview == old(isPreview)
      ensures lastWrongAnswer == old(lastWrongAnswer) && wrongAnswerFeedback == old(wrongAnswerFeedback)
    {
      cypressPageCounter := cypressPageCounter + 1;
    }

    /**
     * The progress part of `submit_answer(answer)` for the current question of a quiz
     * with `questionCount` questions: answer 0 is refused; once the attempts are used up
     * nothing is recorded; otherwise the answer is recorded as correct or wrong (a wrong
     * answer needs its choice, which may raise IndexError), and the question is finished
     * when the answer was correct or the attempts are now used up.
     */
    method SubmitAnswer(q: Question, answer: int, questionCount: int) returns (r: Result<Outcome, Error>)
      modifies this
      ensures answer == 0 ==> r == Success(NoAnswer) && unchanged(this)
      ensures answer != 0 && old(questionAttempt) >= MAX_ATTEMPTS ==> r == Success(AlreadyFinished) && unchanged(this)
      ensures r.Failure? ==> r.error == IndexError && unchanged(this)
      ensures answer != 0 && old(questionAttempt) < MAX_ATTEMPTS ==>
        (r.Failure? <==> answer != q.correctAnswer && GetChoice(q, answer).Failure?) &&
        (r.Success? ==> r.value.Answered?)
      ensures r.Success? && r.value.Answered? ==>
        old(questionAttempt) < MAX_ATTEMPTS && answer != 0 &&
        (r.value.correct <==> answer == q.correctAnswer) &&
        (r.value.finished <==> r.value.correct || questionAttempt >= MAX_ATTEMPTS) &&
        (r.value.quizFinished <==> r.value.finished && question == questionCount) &&
        cypressPageCounter == old(cypressPageCounter) + 1
      ensures r.Success? && r.value.Answered? && r.value.correct ==>
        questionAttempt == old(questionAttempt) && CorrectSoFar() == old(CorrectSoFar()) + {q.number} &&
        totalScore == old(totalScore) + (if q.number in old(correctlyAnswered) then 0 else q.score) &&
        correctlyAnswered == (if q.number in old(correctlyAnswered) then old(correctlyAnswered) else old(correctlyAnswered) + [q.number]) &&
        lastWrongAnswer == None && wrongAnswerFeedback == None
      ensures r.Success? && r.value.Answered? && !r.value.correct ==>
        questionAttempt == old(questionAttempt) + 1 && correctlyAnswered == old(correctlyAnswered) &&
        totalScore == old(totalScore) &&
        GetChoice(q, answer).Success? && lastWrongAnswer == Some(GetChoice(q, answer).value.number) &&
        wrongAnswerFeedback == Some(GetChoice(q, answer).value.feedback)
      ensures r.Success? ==> question == old(question) && level == old(level)
      ensures attemptId == old(attemptId) && isPreview == old(isPreview)
    {
      if answer == 0 {
        return Success(NoAnswer);
      }
      if questionAttempt >= MAX_ATTEMPTS {
        return Success(AlreadyFinished);
      }
      var isCorrect := q.correctAnswer == answer;
      if isCorrect {
        CorrectlyAnswered(q);
      } else {
        var choice := GetChoice(q, answer);
        if choice.Failure? {
          return Failure(choice.error);
        }
        IncorrectlyAnswered(choice.value);
      }
      AdvanceCypressPageCounter();
      var finished := isCorrect || questionAttempt >= MAX_ATTEMPTS;
      r := Success(Answered(isCorrect, finished, finished && question == questionCount));
    }
  }

  /** From a fresh question, a second wrong answer finishes it, and a third is not recorded. */
  method TwoWrongAnswersFinish(p: QuizProgress, q: Question, wrong: int, count: int)
      returns (second: Result<Outcome, Error>, third: Result<Outcome, Error>)
    requires p.questionAttempt == 0
    requires wrong != 0 && wrong != q.correctAnswer && 1 <= wrong <= |q.choices|
    modifies p
    ensures second.Success? && second.value.Answered? && second.value.finished && !second.value.correct
    ensures third == Success(AlreadyFinished)
    ensures p.questionAttempt == MAX_ATTEMPTS
  {
    var first := p.SubmitAnswer(q, wrong, count);
    assert first == Success(Answered(false, false, false));
    second := p.SubmitAnswer(q, wrong, count);
    third := p.SubmitAnswer(q, wrong, count);
  }
}
