# Jin Yong quiz: the session model

The quiz is a browser page. It loads a bank of multiple-choice questions from
`questions.json` and shuffles it once. Then it shows one question at a time,
records the first option picked for each question and keeps a running score.
At the end it shows a result screen with one row per question.

The page keeps its state in module-level globals: `quizData`, `currentQuestionIndex`,
`score` and `userAnswers`. `userAnswers` uses `-1` to mean "not answered yet".
This project models that state and the handlers that change it. It also models
the pure rules the page applies to that state when drawing.

- `shuffle.dfy` (module `Shuffle`): the in-place Fisher-Yates (Durstenfeld)
  shuffle `shuffleArray`. It is a method on an array, proved against the
  specification function `Shuffled`. The random index of each step is an
  input, `draws`, with `draws[i]` in `[0, i]`. The lemmas prove three things.
  The result is a permutation of the input. On distinct questions, different
  draw sequences give different orders. Every order can be reached. So the
  draws and the orders are in bijection, which is why uniform draws give a
  uniform shuffle.
- `loader.dfy` (module `Loader`): `loadQuizData`. The fetch and JSON outcome
  is a parameter. A parsed bank comes back shuffled. A failed fetch, a
  non-success status or a body that is not valid JSON gives an empty bank and
  `false`.
- `quiz.dfy` (module `Quiz`): the question record and the pure rules.
  - The score as a count of correctly answered questions.
  - The CSS classes of each option after a pick and on a redraw.
  - Where the previous and next buttons lead, and when they are shown.
  - The rows of the result screen.
- `session.dfy` (module `QuizSession`): class `Session` holds the globals.
  It has one method per handler: `startQuiz`, `restartQuiz`, `selectOption`,
  `goToPreviousQuestion`, `goToNextQuestion` and the data part of `endQuiz`.
  Its invariant `Valid()` says three things. The current index stays in the
  bank. Every recorded answer is `-1` or an option of its question. The
  running `score` equals the number of correctly answered questions.

## Model

| member | source | states |
|---|---|---|
| `Shuffle.Swap` | script.js:26 | the swap exchanges the two positions and leaves every other position as it was |
| `Shuffle.ShuffleDown` | script.js:24-27 | the steps from `k - 1` down to `1` keep the length, never touch positions at or above `k`, and leave at `k - 1` the element that step `k - 1` chose |
| `Shuffle.ShuffleDownPermutes` | script.js:24-27 | any number of shuffle steps keeps the multiset of elements |
| `Shuffle.Shuffled` | script.js:23-28 | the shuffled bank is a permutation of the loaded bank |
| `Shuffle.ShuffleArray` | script.js:23-28 | the in-place loop leaves exactly `Shuffled(old contents, draws)` in the array, a permutation of the old contents |
| `Shuffle.ShuffleDownUsesDrawsBelow` | script.js:24-27 | the first `k` steps depend only on the draws below `k` |
| `Shuffle.ShuffleDownInjective` | script.js:24-27 | on distinct elements, equal results of the first `k` steps mean equal draws below `k` |
| `Shuffle.ShuffleInjective` | script.js:23-28 | on distinct elements, two valid draw sequences that give the same order are equal |
| `Shuffle.SwapIntoPlace` | script.js:26 | swapping an occurrence of the target's element into position `k - 1` makes the array agree with the target from `k - 1` on |
| `Shuffle.SwapIntoPlaceKeepsRest` | script.js:26 | after that swap the elements below `k - 1` are a permutation of the target's |
| `Shuffle.ShuffleDownReaches` | script.js:24-27 | for any target that agrees above `k` and is a permutation below `k`, some valid draws make the first `k` steps produce it |
| `Shuffle.ShuffleReachesEveryPermutation` | script.js:23-28 | every permutation of the bank is produced by some valid draw sequence |
| `Loader.LoadQuizData` | script.js:5-20 | success exactly when the data was fetched and parsed, and then the bank is the parsed questions shuffled (a permutation of them); a failed fetch, a non-success status or a body that is not valid JSON gives an empty bank |
| `Quiz.CountCorrect` | script.js:142 | the score never exceeds the number of answer slots |
| `Quiz.CountCorrectFull` | script.js:249 | a full score holds exactly when every question was answered with its correct option |
| `Quiz.CountCorrectAllUnanswered` | script.js:81-82 | with every slot at `-1`, the score is `0` |
| `Quiz.CountCorrectRecord` | script.js:132-142 | recording an option on an unanswered question raises the count by one exactly when it is the correct option, and otherwise leaves it |
| `Quiz.ShownOptionClasses` | script.js:106-117 | unanswered: no marks; answered: every option `selected`, exactly the correct option `correct`, and the pick `incorrect` exactly when it is wrong |
| `Quiz.ClickedOptionClasses` | script.js:136-154 | the classes added right after a pick equal those a redraw of the answered question shows |
| `Quiz.OneOptionMarkedCorrect` | script.js:106-117 | once answered, the correct option and only it is marked correct, and some option is marked incorrect exactly when the pick was wrong |
| `Quiz.PreviousIndex` | script.js:180-186 | previous moves one back when not on the first question and otherwise stays; it never leaves the bank |
| `Quiz.NextStepOf` | script.js:189-198 | next ends the quiz exactly on the last question; elsewhere it moves one forward and stays in the bank |
| `Quiz.Navigation` | script.js:164-177 | previous is shown exactly when it would move; next is shown exactly when the question is answered, and it reads "完成答题" (finish) exactly when pressing it ends the quiz and "下一题" (next) exactly when it moves on |
| `Quiz.NextButtonAfterPick` | script.js:157-160 | as written: a wrong pick shows the next button with the caption it last had; a right pick leaves it hidden |
| `Quiz.StaleCaptionAfterWrongPick` | script.js:157-176 | as written: on a two-question bank the first question can show a "finish" caption on a button that moves on to the second question |
| `Quiz.NextButtonAfterPickRefreshed` | script.js:157-176 | corrected: after a wrong pick the button is shown and reads "完成答题" exactly when it ends the quiz and "下一题" exactly when it moves on; after a right pick it is hidden |
| `Quiz.ResultRowAt` | script.js:249-255 | a row numbers its question from 1. It is correct exactly when the recorded answer is the correct option, so an unanswered row is never correct. It shows the picked option's text (`options[answer]`) or `未回答`, and always the correct option's text |
| `Quiz.ResultRows` | script.js:245-259 | one row per question of the bank |
| `Quiz.CorrectRows` | script.js:250 | the number of rows marked correct never exceeds the number of rows |
| `Quiz.CorrectRowsPrefix` | script.js:245-250 | over the first `k` questions, the rows marked correct number exactly the correctly answered questions |
| `Quiz.ScoreIsCorrectRows` | script.js:240-250 | the number of correct rows equals the count of correctly answered questions |
| `QuizSession.Session.constructor` | script.js:31-33 | the globals before the first start: index `0`, score `0`, no answer slots, and the invariant holds |
| `QuizSession.Session.StartQuiz` | script.js:80-82 | index `0`, score `0`, a fresh answer array of the bank's length filled with `-1`; the invariant holds |
| `QuizSession.Session.RestartQuiz` | script.js:263-265 | the same reset as starting; the bank is not reshuffled |
| `QuizSession.Session.SelectOption` | script.js:128-161 | on an answered question nothing changes. Otherwise only that slot changes, to the pick. The score rises by one exactly when the pick is correct. The feedback is right, or wrong with the correct option's text. The score stays the count of correct answers, and no recorded answer ever changes |
| `QuizSession.Session.GoToPreviousQuestion` | script.js:180-186 | the index becomes `PreviousIndex` of the old index; answers and score are untouched |
| `QuizSession.Session.GoToNextQuestion` | script.js:189-198 | before the last question the index moves one forward. On the last it stays, and the outcome is exactly the summary of ending the quiz. Answers and score are untouched |
| `QuizSession.Session.EndQuiz` | script.js:226-260 | the summary shows the running score and the result rows of every question in bank order, and that score is the number of rows marked correct |

## Left out

- Fetching `questions.json` and decoding JSON are not modelled. Their outcome is the `Fetched` parameter of `LoadQuizData`. The error dialog and the console message are left out too.
- `Parsed` assumes the JSON body is an array of records of the `Question` shape. The page never checks that shape. Its behaviour on valid JSON of another shape is not modelled: `{}` or `[1, 2]` passes through the shuffle and loads, and `null` is assigned to `quizData` before the shuffle throws.
- `Math.random` is not modelled. Its choices are the `draws` parameter. Uniformity is a property of the random source, so it is argued through the bijection lemmas, not stated.
- An empty bank is not modelled. `showQuestion(0)` would fail on it, so `Session` requires a non-empty bank in which every `correct` is an index into `options`. Options are not required to number at least two, because the page does not check that.
- DOM work is left out: screen switching, element creation, `innerHTML`, event wiring, `goToHome` (which only switches screens) and the progress bar and its text. The data this work shows is modelled as functions.
- The one-second `setInterval` display timer, `Date.now()` and the rounded elapsed seconds are left out. They are clocks and floating point.
- The one-second `setTimeout` auto-advance after a right pick is not modelled as a timer. `SelectOption` reports it as the `Right` feedback. Races between that timer and user clicks are not modelled.
- `QuizSession.Session.SelectOption`: it returns the corrected next button (see Findings), not the stale caption the page shows.
- `QuizSession.Session.EndQuiz`: it shows the running `score`, as the page does. It does not recompute the score from the answers. The invariant and `ScoreIsCorrectRows` prove the two agree.
- Handlers the page never calls before the quiz starts (picks, next, finish) require `Started()`. Before then there are no answer slots.

## Findings

| source | as written | input that shows it | evidently intended | confidence | as-written member | corrected member |
|---|---|---|---|---|---|---|
| script.js:157-160 | after a wrong pick the next button is made visible, but its caption is not updated; it keeps whatever caption `updateNavigationButtons` last gave it | two questions: answer both wrongly, go back to question 1 and forward to question 2 (caption becomes "完成答题"), finish, restart, pick a wrong option on question 1; the button reads "完成答题" but moves to question 2 | the caption follows the navigation rule: "下一题" before the last question and "完成答题" on it | medium, not executed | `Quiz.NextButtonAfterPick`, `Quiz.StaleCaptionAfterWrongPick` | `Quiz.NextButtonAfterPickRefreshed` |
