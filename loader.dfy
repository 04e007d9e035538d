/**
 Loading the question bank: the outcome of fetching and parsing
 `questions.json` is a parameter, and a successfully parsed bank is shuffled
 in place before the quiz can start.
 */
module Loader {
  import opened Quiz
  import Shuffle

  /** What fetching and decoding `questions.json` produced. */
  datatype Fetched =
    | Unreachable                        // `fetch` itself failed
    | NotOk                              // the response's status was not a success
    | Unparsable                         // the body was not valid JSON
    | Parsed(questions: seq<Question>)

  /**
   `loadQuizData`: on success the bank is the parsed questions in shuffled
   order and the result is true; a failed fetch, a non-success status or a
   body that is not valid JSON leaves the bank empty and gives false. `Parsed`
   stands for a body that decodes to records of the `Question` shape.
   */
  method LoadQuizData(fetched: Fetched, draws: seq<nat>) returns (quizData: array<Question>, loaded: bool)
    requires fetched.Parsed? ==> Shuffle.ValidDraws(draws, |fetched.questions|)
    ensures loaded <==> fetched.Parsed?
    ensures loaded ==> quizData[..] == Shuffle.Shuffled(fetched.questions, draws)
    ensures loaded ==> multiset(quizData[..]) == multiset(fetched.questions)
    ensures !loaded ==> quizData.Length == 0
  {
    match fetched {
      case Parsed(questions) =>
        quizData := new Question[|questions|](i requires 0 <= i < |questions| => questions[i]);
        assert quizData[..] == questions;
        Shuffle.ShuffleArray(quizData, draws);
        loaded := true;
      case _ =>
        quizData := new Question[0];
        loaded := false;
    }
  }
}
