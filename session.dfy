/**
 The quiz session: the page's globals `currentQuestionIndex`, `score` and
 `userAnswers` over the loaded bank, and the handlers that change them.
 */
module QuizSession {
  import opened Quiz

  /** What the feedback area shows after an option is clicked. */
  datatype Feedback =
    | Ignored                         // the question was already answered: nothing happens
    | Right                           // "correct", and the quiz moves on by itself after a second
    | Wrong(correctAnswer: string, nextButton: NextButton)  // "wrong", naming the correct option; the next button appears

  /** What the result screen shows: the score and one row per question. */
  datatype Summary = Summary(score: int, rows: seq<ResultRow>)

  /** What the next button did. */
  datatype NextOutcome = Moved | Ended(summary: Summary)

  class Session {
    const bank: seq<Question>
    var currentQuestionIndex: int
    var score: int
    var userAnswers: array<int>

    /**
     The session invariant: the index points into the bank, every recorded
     answer is the sentinel or an option of its question, and `score`, which
     the handlers keep up to date step by step, is the number of questions
     answered correctly. Before the first start `userAnswers` is still empty.
     */
    ghost predicate Valid()
      reads this, userAnswers
    {
      && ValidBank(bank)
      && 0 <= currentQuestionIndex < |bank|
      && (userAnswers.Length == 0 || userAnswers.Length == |bank|)
      && ValidAnswers(bank, userAnswers[..])
      && score == CountCorrect(bank, userAnswers[..])
    }

    /** The quiz has been started: there is one answer slot per question. */
    predicate Started()
      reads this
    {
      userAnswers.Length == |bank|
    }

    /** The globals as the page declares them, over the loaded bank. */
    constructor (quizData: seq<Question>)
      requires ValidBank(quizData)
      ensures Valid() && !Started()
      ensures bank == quizData && currentQuestionIndex == 0 && score == 0
    {
      bank := quizData;
      currentQuestionIndex := 0;
      score := 0;
      userAnswers := new int[0];
    }

    /** `startQuiz`: first question, no score, every question unanswered. */
    method StartQuiz()
      requires ValidBank(bank)
      modifies this
      ensures Valid() && Started() && fresh(userAnswers)
      ensures currentQuestionIndex == 0 && score == 0
      ensures forall i :: 0 <= i < userAnswers.Length ==> userAnswers[i] == Unanswered
    {
      currentQuestionIndex := 0;
      score := 0;
      userAnswers := new int[|bank|](_ => Unanswered);
      CountCorrectAllUnanswered(bank, userAnswers[..]);
    }

    /** `restartQuiz`: the same reset as `startQuiz`; the bank keeps its order. */
    method RestartQuiz()
      requires ValidBank(bank)
      modifies this
      ensures Valid() && Started() && fresh(userAnswers)
      ensures currentQuestionIndex == 0 && score == 0
      ensures forall i :: 0 <= i < userAnswers.Length ==> userAnswers[i] == Unanswered
    {
      StartQuiz();
    }

    /**
     `selectOption`: the first pick for a question is final. On an unanswered
     question it records the pick, scores it, and reports right or wrong; on an
     answered one it changes nothing.
     */
    method SelectOption(questionIndex: int, optionIndex: int) returns (feedback: Feedback)
      requires Valid() && Started()
      requires 0 <= questionIndex < |bank| && 0 <= optionIndex < |bank[questionIndex].options|
      modifies this`score, userAnswers
      ensures Valid() && Started()
      ensures KeepsRecorded(old(userAnswers[..]), userAnswers[..])
      ensures old(userAnswers[questionIndex]) != Unanswered ==>
        && feedback == Ignored
        && score == old(score)
        && userAnswers[..] == old(userAnswers[..])
      ensures old(userAnswers[questionIndex]) == Unanswered ==>
        var q := bank[questionIndex];
        && userAnswers[..] == old(userAnswers[..])[questionIndex := optionIndex]
        && score == old(score) + (if optionIndex == q.correct then 1 else 0)
        && feedback == (if optionIndex == q.correct then Right
                        else Wrong(q.options[q.correct],
                                   NextButtonAfterPickRefreshed(|bank|, questionIndex, q, optionIndex)))
    {
      if userAnswers[questionIndex] != Unanswered {
        return Ignored;
      }
      var question := bank[questionIndex];
      ghost var before := userAnswers[..];
      userAnswers[questionIndex] := optionIndex;
      assert userAnswers[..] == before[questionIndex := optionIndex];
      CountCorrectRecord(bank, before, questionIndex, optionIndex);
      if optionIndex == question.correct {
        score := score + 1;
        feedback := Right;
      } else {
        feedback := Wrong(question.options[question.correct],
                          NextButtonAfterPickRefreshed(|bank|, questionIndex, question, optionIndex));
      }
    }

    /** `goToPreviousQuestion`: one question back, except on the first. */
    method GoToPreviousQuestion()
      requires Valid()
      modifies this`currentQuestionIndex
      ensures Valid()
      ensures currentQuestionIndex == PreviousIndex(old(currentQuestionIndex))
    {
      if currentQuestionIndex > 0 {
        currentQuestionIndex := currentQuestionIndex - 1;
      }
    }

    /**
     `goToNextQuestion`: one question forward, or, on the last question, the
     end of the quiz with exactly the summary `endQuiz` produces.
     */
    method GoToNextQuestion() returns (outcome: NextOutcome)
      requires Valid() && Started()
      modifies this`currentQuestionIndex
      ensures Valid()
      ensures match NextStepOf(|bank|, old(currentQuestionIndex))
        case Advance(k) => currentQuestionIndex == k && outcome == Moved
        case Finish =>
          && currentQuestionIndex == old(currentQuestionIndex)
          && outcome == Ended(Summary(score, ResultRows(bank, userAnswers[..])))
    {
      if currentQuestionIndex < |bank| - 1 {
        currentQuestionIndex := currentQuestionIndex + 1;
        outcome := Moved;
      } else {
        var summary := EndQuiz();
        outcome := Ended(summary);
      }
    }

    /**
     `endQuiz`, its data part: the score and one result row per question, in
     bank order. The score shown is the number of rows marked correct.
     */
    method EndQuiz() returns (summary: Summary)
      requires Valid() && Started()
      ensures summary.score == score
      ensures summary.rows == ResultRows(bank, userAnswers[..])
      ensures summary.score == CorrectRows(summary.rows)
    {
      var rows: seq<ResultRow> := [];
      var index := 0;
      while index < |bank|
        invariant 0 <= index <= |bank|
        invariant rows == ResultRows(bank, userAnswers[..])[..index]
      {
        var question := bank[index];
        var answer := userAnswers[index];
        var isCorrect := answer == question.correct;
        var yourAnswer := if answer != Unanswered then question.options[answer] else UnansweredText;
        rows := rows + [ResultRow(index + 1, question.question, yourAnswer,
                                  question.options[question.correct], isCorrect)];
        index := index + 1;
      }
      assert rows == ResultRows(bank, userAnswers[..]);
      ScoreIsCorrectRows(bank, userAnswers[..]);
      summary := Summary(score, rows);
    }
  }

  /**
   A three-question run: the first answered right, the second wrong, the third
   left unanswered before the quiz is finished from the last question.
   */
  method ThreeQuestionRun()
  {
    var bank := [
      Question("q1", ["a", "b"], 0),
      Question("q2", ["a", "b", "c"], 2),
      Question("q3", ["a", "b"], 1)
    ];
    var session := new Session(bank);
    session.StartQuiz();
    var feedback := session.SelectOption(0, 0);
    assert feedback == Right;
    feedback := session.SelectOption(0, 1);
    assert feedback == Ignored && session.score == 1;
    var outcome := session.GoToNextQuestion();
    assert outcome == Moved && session.currentQuestionIndex == 1;
    feedback := session.SelectOption(1, 0);
    assert feedback == Wrong("c", Shown(NextLabel)) && session.score == 1;
    outcome := session.GoToNextQuestion();
    assert session.currentQuestionIndex == 2;
    outcome := session.GoToNextQuestion();
    assert outcome.Ended? && outcome.summary.score == 1;
    var rows := outcome.summary.rows;
    assert |rows| == 3;
    assert rows[0].isCorrect && !rows[1].isCorrect && !rows[2].isCorrect;
    assert rows[1].yourAnswer == "a" && rows[2].yourAnswer == UnansweredText;
    assert rows[2].correctAnswer == "b";
    session.RestartQuiz();
    assert session.score == 0 && session.currentQuestionIndex == 0;
  }
}
