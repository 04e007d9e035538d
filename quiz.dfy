/**
 The question bank and the pure queries the quiz screen derives from the session
 state: how each option is marked, which navigation buttons are shown, where the
 navigation buttons lead, and the rows of the result screen.
 */
module Quiz {

  /** One record of `questions.json`. */
  datatype Question = Question(question: string, options: seq<string>, correct: int)

  /** The value `userAnswers` holds for a question not answered yet. */
  const Unanswered: int := -1

  /** The "your answer" text of a result row for an unanswered question. */
  const UnansweredText: string := "未回答"

  /** The labels of the next button: on the last question, and on any other. */
  const FinishLabel: string := "完成答题"
  const NextLabel: string := "下一题"

  /** `correct` indexes one of the options. */
  predicate WellFormed(q: Question)
  {
    0 <= q.correct < |q.options|
  }

  /** A loaded bank the quiz can run on: non-empty, every question well formed. */
  predicate ValidBank(bank: seq<Question>)
  {
    |bank| > 0 && forall i :: 0 <= i < |bank| ==> WellFormed(bank[i])
  }

  /** A recorded answer is the sentinel or the index of one of the question's options. */
  predicate ValidAnswer(q: Question, a: int)
  {
    a == Unanswered || 0 <= a < |q.options|
  }

  /** `answers[i]` is a valid answer to `bank[i]` for every index it covers. */
  predicate ValidAnswers(bank: seq<Question>, answers: seq<int>)
  {
    |answers| <= |bank| && forall i :: 0 <= i < |answers| ==> ValidAnswer(bank[i], answers[i])
  }

  /** Every answer recorded in `before` is still recorded, unchanged, in `after`. */
  predicate KeepsRecorded(before: seq<int>, after: seq<int>)
  {
    |before| == |after| &&
    forall i :: 0 <= i < |before| && before[i] != Unanswered ==> after[i] == before[i]
  }

  /** Whether `answers` agrees with `bank` at index `i`. */
  predicate AnsweredCorrectly(bank: seq<Question>, answers: seq<int>, i: int)
    requires 0 <= i < |answers| <= |bank|
  {
    answers[i] == bank[i].correct
  }

  // ---------------------------------------------------------------------------
  // Score

  /** The number of indices whose recorded answer is the correct option. */
  function CountCorrect(bank: seq<Question>, answers: seq<int>): (n: nat)
    requires |answers| <= |bank|
    ensures n <= |answers|
  {
    if |answers| == 0 then 0
    else
      var last := |answers| - 1;
      CountCorrect(bank, answers[..last]) + (if answers[last] == bank[last].correct then 1 else 0)
  }

  /** A full score means every question was answered with its correct option. */
  lemma {:induction false} CountCorrectFull(bank: seq<Question>, answers: seq<int>)
    requires |answers| <= |bank|
    ensures CountCorrect(bank, answers) == |answers|
        <==> forall i :: 0 <= i < |answers| ==> AnsweredCorrectly(bank, answers, i)
  {
    if |answers| > 0 {
      var last := |answers| - 1;
      var prefix := answers[..last];
      CountCorrectFull(bank, prefix);
      assert answers[..last] == prefix;
      assert forall i :: 0 <= i < last ==>
        (AnsweredCorrectly(bank, prefix, i) <==> AnsweredCorrectly(bank, answers, i));
      if forall i :: 0 <= i < |answers| ==> AnsweredCorrectly(bank, answers, i) {
        assert AnsweredCorrectly(bank, answers, last);
      }
    }
  }

  /** No answer recorded, nothing scored. */
  lemma {:induction false} CountCorrectAllUnanswered(bank: seq<Question>, answers: seq<int>)
    requires |answers| <= |bank| && ValidBank(bank)
    requires forall i :: 0 <= i < |answers| ==> answers[i] == Unanswered
    ensures CountCorrect(bank, answers) == 0
  {
    if |answers| > 0 {
      CountCorrectAllUnanswered(bank, answers[..|answers| - 1]);
    }
  }

  /**
   Recording option `o` for an unanswered question `i` adds one to the count
   exactly when `o` is that question's correct option.
   */
  lemma {:induction false} CountCorrectRecord(bank: seq<Question>, answers: seq<int>, i: int, o: int)
    requires |answers| <= |bank| && ValidBank(bank)
    requires 0 <= i < |answers| && answers[i] == Unanswered
    ensures CountCorrect(bank, answers[i := o])
         == CountCorrect(bank, answers) + (if o == bank[i].correct then 1 else 0)
  {
    var last := |answers| - 1;
    var updated := answers[i := o];
    if i == last {
      assert updated[..last] == answers[..last];
    } else {
      assert updated[..last] == answers[..last][i := o];
      CountCorrectRecord(bank, answers[..last], i, o);
    }
  }

  // ---------------------------------------------------------------------------
  // Option marks

  /** The CSS classes an option element carries besides `option`. */
  datatype OptionClasses = OptionClasses(selected: bool, correct: bool, incorrect: bool)

  /**
   The classes `showQuestion` gives option `i` when `answer` is recorded for the
   question: nothing while unanswered; once answered every option is `selected`,
   the correct option is `correct`, and a wrong pick is `incorrect`.
   */
  function ShownOptionClasses(q: Question, answer: int, i: int): (c: OptionClasses)
    ensures c.selected <==> answer != Unanswered
    ensures c.correct <==> answer != Unanswered && i == q.correct
    ensures c.incorrect <==> answer != Unanswered && i == answer && answer != q.correct
    ensures !(c.correct && c.incorrect)
  {
    if answer != Unanswered then
      if i == answer then
        if i == q.correct then OptionClasses(true, true, false)
        else OptionClasses(true, false, true)
      else if i == q.correct then OptionClasses(true, true, false)
      else OptionClasses(true, false, false)
    else OptionClasses(false, false, false)
  }

  /**
   The classes `selectOption` adds to option `i` right after option `optionIndex`
   is picked. They are the ones `showQuestion` shows when the question is
   revisited, so the live feedback and the redrawn question agree.
   */
  function ClickedOptionClasses(q: Question, optionIndex: int, i: int): (c: OptionClasses)
    requires 0 <= optionIndex
    ensures c == ShownOptionClasses(q, optionIndex, i)
  {
    if i == optionIndex then
      if i == q.correct then OptionClasses(true, true, false)
      else OptionClasses(true, false, true)
    else if i == q.correct then OptionClasses(true, true, false)
    else OptionClasses(true, false, false)
  }

  /** Once answered, exactly one option (the correct one) is marked correct. */
  lemma OneOptionMarkedCorrect(q: Question, answer: int)
    requires WellFormed(q) && ValidAnswer(q, answer) && answer != Unanswered
    ensures ShownOptionClasses(q, answer, q.correct).correct
    ensures forall i :: 0 <= i < |q.options| && ShownOptionClasses(q, answer, i).correct ==> i == q.correct
    ensures (exists i :: 0 <= i < |q.options| && ShownOptionClasses(q, answer, i).incorrect)
        <==> answer != q.correct
  {
    if answer != q.correct {
      assert ShownOptionClasses(q, answer, answer).incorrect;
    }
  }

  // ---------------------------------------------------------------------------
  // Navigation

  /** Where the previous button leads from `current`: one back, or nowhere on the first question. */
  function PreviousIndex(current: int): (p: int)
    requires current >= 0
    ensures 0 <= p <= current
    ensures p == current <==> current == 0
    ensures p != current ==> p == current - 1
  {
    if current > 0 then current - 1 else current
  }

  /** What the next button does: move to another question, or end the quiz. */
  datatype NextStep = Advance(index: int) | Finish

  function NextStepOf(n: int, current: int): (step: NextStep)
    requires 0 <= current < n
    ensures step.Finish? <==> current == n - 1
    ensures step.Advance? ==> step.index == current + 1 && step.index < n
  {
    if current < n - 1 then Advance(current + 1) else Finish
  }

  /** How the next button is shown. */
  datatype NextButton = Hidden | Shown(caption: string)

  datatype NavigationButtons = NavigationButtons(previousShown: bool, next: NextButton)

  /**
   The rule of `updateNavigationButtons` for question `current` of `n` with
   recorded answer `answer`: previous is shown exactly when it moves, next is
   shown once the question is answered, and it reads "finish" exactly when it
   ends the quiz.
   */
  function Navigation(n: int, current: int, answer: int): (b: NavigationButtons)
    requires 0 <= current < n
    ensures b.previousShown <==> PreviousIndex(current) != current
    ensures b.next.Shown? <==> answer != Unanswered
    ensures b.next.Shown? ==> (b.next.caption == FinishLabel <==> NextStepOf(n, current).Finish?)
    ensures b.next.Shown? ==> (b.next.caption == NextLabel <==> NextStepOf(n, current).Advance?)
  {
    var next :=
      if answer != Unanswered then
        if current == n - 1 then Shown(FinishLabel) else Shown(NextLabel)
      else Hidden;
    NavigationButtons(current > 0, next)
  }

  /**
   The next button right after a pick, as `selectOption` leaves it: after a
   right pick it stays hidden (the quiz moves on by itself); after a wrong pick
   it becomes visible, still carrying `lastCaption`, the caption the last call
   of `updateNavigationButtons` gave it.
   */
  function NextButtonAfterPick(lastCaption: string, pickIsCorrect: bool): (b: NextButton)
    ensures b.Shown? <==> !pickIsCorrect
    ensures b.Shown? ==> b.caption == lastCaption
  {
    if pickIsCorrect then Hidden else Shown(lastCaption)
  }

  /**
   The caption is stale: on a two-question bank, revisiting the answered last
   question sets the caption to "finish"; after a restart, a wrong pick on the
   first question shows that caption, although the button moves on to the
   second question.
   */
  lemma StaleCaptionAfterWrongPick()
    ensures Navigation(2, 1, 0).next == Shown(FinishLabel)
    ensures NextButtonAfterPick(Navigation(2, 1, 0).next.caption, false) == Shown(FinishLabel)
    ensures NextStepOf(2, 0) == Advance(1)
  {
  }

  /**
   The next button after a pick with its caption refreshed by the navigation
   rule: shown after a wrong pick only, and reading "finish" exactly when it
   ends the quiz.
   */
  function NextButtonAfterPickRefreshed(n: int, current: int, q: Question, pick: int): (b: NextButton)
    requires 0 <= current < n && pick != Unanswered
    ensures b.Shown? <==> pick != q.correct
    ensures b.Shown? ==> (b.caption == FinishLabel <==> NextStepOf(n, current).Finish?)
    ensures b.Shown? ==> (b.caption == NextLabel <==> NextStepOf(n, current).Advance?)
  {
    if pick == q.correct then Hidden else Navigation(n, current, pick).next
  }

  // ---------------------------------------------------------------------------
  // Result screen

  /** One entry of the result screen. */
  datatype ResultRow = ResultRow(number: int, question: string, yourAnswer: string,
                                 correctAnswer: string, isCorrect: bool)

  /** The result row of question `index`. */
  function ResultRowAt(bank: seq<Question>, answers: seq<int>, index: int): (r: ResultRow)
    requires ValidBank(bank) && |answers| == |bank| && ValidAnswers(bank, answers)
    requires 0 <= index < |bank|
    ensures r.number == index + 1 && r.question == bank[index].question
    ensures r.isCorrect <==> AnsweredCorrectly(bank, answers, index)
    ensures r.isCorrect ==> r.yourAnswer == r.correctAnswer
    ensures answers[index] == Unanswered ==> !r.isCorrect && r.yourAnswer == UnansweredText
    ensures answers[index] != Unanswered ==> r.yourAnswer == bank[index].options[answers[index]]
    ensures r.correctAnswer == bank[index].options[bank[index].correct]
  {
    var q := bank[index];
    var a := answers[index];
    ResultRow(index + 1, q.question,
              if a != Unanswered then q.options[a] else UnansweredText,
              q.options[q.correct],
              a == q.correct)
  }

  /** The rows of the result screen, one per question in bank order. */
  function ResultRows(bank: seq<Question>, answers: seq<int>): (rows: seq<ResultRow>)
    requires ValidBank(bank) && |answers| == |bank| && ValidAnswers(bank, answers)
    ensures |rows| == |bank|
  {
    seq(|bank|, i requires 0 <= i < |bank| => ResultRowAt(bank, answers, i))
  }

  /** The number of rows shown as correct. */
  function CorrectRows(rows: seq<ResultRow>): (n: nat)
    ensures n <= |rows|
  {
    if |rows| == 0 then 0
    else CorrectRows(rows[..|rows| - 1]) + (if rows[|rows| - 1].isCorrect then 1 else 0)
  }

  lemma {:induction false} CorrectRowsPrefix(bank: seq<Question>, answers: seq<int>, k: nat)
    requires ValidBank(bank) && |answers| == |bank| && ValidAnswers(bank, answers)
    requires k <= |bank|
    ensures CorrectRows(ResultRows(bank, answers)[..k]) == CountCorrect(bank, answers[..k])
  {
    if k > 0 {
      var rows := ResultRows(bank, answers);
      assert rows[..k][..k - 1] == rows[..k - 1];
      assert answers[..k][..k - 1] == answers[..k - 1];
      CorrectRowsPrefix(bank, answers, k - 1);
    }
  }

  /** The score counts exactly the rows the result screen marks as correct. */
  lemma ScoreIsCorrectRows(bank: seq<Question>, answers: seq<int>)
    requires ValidBank(bank) && |answers| == |bank| && ValidAnswers(bank, answers)
    ensures CorrectRows(ResultRows(bank, answers)) == CountCorrect(bank, answers)
  {
    CorrectRowsPrefix(bank, answers, |bank|);
    assert ResultRows(bank, answers)[..|bank|] == ResultRows(bank, answers);
    assert answers[..|bank|] == answers;
  }
}
