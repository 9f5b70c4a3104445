/** The quiz component's answer handler (`handleAnswer`): a forward state
    machine over the question indices, then the score and the two
    persistence writes. The hosted auth/database calls are inputs (`Backend`);
    the toasts and router calls are the returned `Outcome`. */
module QuizTaking {
  import opened Wrappers
  import Quiz
  import Seqs

  datatype Question = Question(question: string, options: seq<string>, correctAnswer: string)

  datatype QuestionResponse = QuestionResponse(
    questionIndex: nat,
    question: string,
    selectedAnswer: string,
    correctAnswer: string,
    isCorrect: bool)

  /** The row inserted into `quiz_attempts`. */
  datatype Attempt = Attempt(quizId: string, userId: string, score: int, questionResponses: seq<QuestionResponse>)

  /** What the hosted services answer during one call: the signed-in user's id,
      if any, and whether the `quizzes` update and the `quiz_attempts` insert
      succeed. */
  datatype Backend = Backend(user: Option<string>, quizUpdateOk: bool, attemptInsertOk: bool)

  /** The visible effect of one answer. */
  datatype Outcome =
    | NextQuestion
      /** "You must be logged in…" toast and a push to `/login`. */
    | LoginRequired
      /** The `quizzes` update with this score failed. */
    | ScoreUpdateFailed(score: int)
      /** The score was stored but inserting this attempt failed. */
    | AttemptSaveFailed(attempt: Attempt)
      /** Both writes succeeded: results shown and the page refreshed. */
    | ResultsShown(attempt: Attempt)

  /** The component's three pieces of state. */
  datatype QuizState = QuizState(currentQuestion: nat, responses: seq<QuestionResponse>, showResults: bool)

  datatype Step = Step(state: QuizState, outcome: Outcome)

  /** How an answer is checked; the component uses `compareAnswers` (`Quiz.CompareAnswers`). */
  type AnswerCheck = (string, string) -> bool

  function Initial(): QuizState {
    QuizState(0, [], false)
  }

  /** The record built for an answer to question `index`. */
  function ResponseFor(grade: AnswerCheck, questions: seq<Question>, index: nat, selected: string): (r: QuestionResponse)
    requires index < |questions|
    ensures r.questionIndex == index && r.selectedAnswer == selected
    ensures r.question == questions[index].question
    ensures r.correctAnswer == questions[index].correctAnswer
    ensures r.isCorrect <==> grade(selected, questions[index].correctAnswer)
  {
    var q := questions[index];
    QuestionResponse(index, q.question, selected, q.correctAnswer,
      grade(selected, q.correctAnswer))
  }

  function IsCorrect(r: QuestionResponse): bool {
    r.isCorrect
  }

  /** `newResponses.filter(r => r.isCorrect).length`. */
  function CountCorrect(responses: seq<QuestionResponse>): (r: nat)
    ensures r <= |responses|
  {
    |Seqs.Filter(responses, IsCorrect)|
  }

  /** `Math.round((correct / total) * 100)`: the integer nearest to
      `100 * correct / total`, halves rounded up. */
  function Score(correct: nat, total: nat): (r: int)
    requires total >= 1
  {
    (200 * correct + total) / (2 * total)
  }

  lemma DivBelow(x: int, d: int, q: int)
    requires 0 <= x && 0 < d && x < d * q
    ensures x / d < q
  {
    var k := x / d;
    assert x == d * k + x % d;
    assert d * k <= x;
    assert d * k < d * q;
    assert d * (q - k) > 0;
  }

  /** `Score` is the nearest integer to `100 * correct / total` (halves up):
      `r - 1/2 <= 100 * correct / total < r + 1/2`. */
  lemma ScoreIsRoundedPercentage(correct: nat, total: nat)
    requires total >= 1
    ensures var r := Score(correct, total);
      2 * total * r <= 200 * correct + total < 2 * total * r + 2 * total
  {
    var x, d := 200 * correct + total, 2 * total;
    assert x == d * (x / d) + x % d;
  }

  /** A score of at most all the questions lies between 0 and 100. */
  lemma ScoreInRange(correct: nat, total: nat)
    requires 1 <= total && correct <= total
    ensures 0 <= Score(correct, total) <= 100
  {
    DivBelow(200 * correct + total, 2 * total, 101);
  }

  /** One call of `handleAnswer(selected)`, as written: the new response is
      always appended. */
  function Answer(grade: AnswerCheck, questions: seq<Question>, quizId: string, st: QuizState, selected: string, backend: Backend): (r: Step)
    requires st.currentQuestion < |questions|
    ensures r.state.currentQuestion < |questions|
  {
    var newResponses := st.responses + [ResponseFor(grade, questions, st.currentQuestion, selected)];
    Finish(questions, quizId, st, newResponses, backend)
  }

  /** What follows once `newResponses` is stored: advance, or score and save. */
  function Finish(questions: seq<Question>, quizId: string, st: QuizState, newResponses: seq<QuestionResponse>, backend: Backend): (r: Step)
    requires st.currentQuestion < |questions|
    ensures r.state.currentQuestion < |questions|
    ensures r.state.responses == newResponses
  {
    var cur := st.currentQuestion;
    if cur < |questions| - 1 then
      Step(QuizState(cur + 1, newResponses, st.showResults), NextQuestion)
    else
      var score := Score(CountCorrect(newResponses), |questions|);
      var stay := QuizState(cur, newResponses, st.showResults);
      match backend.user
      case None => Step(stay, LoginRequired)
      case Some(uid) =>
        if !backend.quizUpdateOk then Step(stay, ScoreUpdateFailed(score))
        else
          var attempt := Attempt(quizId, uid, score, newResponses);
          if !backend.attemptInsertOk then Step(stay, AttemptSaveFailed(attempt))
          else Step(QuizState(cur, newResponses, true), ResultsShown(attempt))
  }

  // ---------------------------------------------------------------------
  // Properties of one answer
  // ---------------------------------------------------------------------

  /** Before the last question the index moves forward by exactly one and
      nothing is written; on the last question it never moves. */
  lemma AnswerMovesForwardByOne(grade: AnswerCheck, questions: seq<Question>, quizId: string, st: QuizState, selected: string, backend: Backend)
    requires st.currentQuestion < |questions|
    ensures var r := Answer(grade, questions, quizId, st, selected, backend);
      if st.currentQuestion < |questions| - 1
      then r.state.currentQuestion == st.currentQuestion + 1 && r.outcome == NextQuestion
        && r.state.showResults == st.showResults
      else r.state.currentQuestion == st.currentQuestion && r.outcome != NextQuestion
  {
  }

  /** Every answer adds exactly one response, describing the question shown. */
  lemma AnswerAppendsOneResponse(grade: AnswerCheck, questions: seq<Question>, quizId: string, st: QuizState, selected: string, backend: Backend)
    requires st.currentQuestion < |questions|
    ensures var r := Answer(grade, questions, quizId, st, selected, backend);
      && |r.state.responses| == |st.responses| + 1
      && r.state.responses[..|st.responses|] == st.responses
      && var last := r.state.responses[|st.responses|];
      && last.questionIndex == st.currentQuestion
      && last.selectedAnswer == selected
      && last.question == questions[st.currentQuestion].question
      && last.correctAnswer == questions[st.currentQuestion].correctAnswer
      && (last.isCorrect <==> grade(selected, questions[st.currentQuestion].correctAnswer))
  {
    var r := Answer(grade, questions, quizId, st, selected, backend);
    assert r.state.responses == st.responses + [ResponseFor(grade, questions, st.currentQuestion, selected)];
  }

  /** On the last question: results are shown exactly when a user is signed
      in and both writes succeed; with no user the outcome is the login
      redirect; on any failure the results stay hidden. */
  lemma ResultsOnlyAfterBothWrites(grade: AnswerCheck, questions: seq<Question>, quizId: string, st: QuizState, selected: string, backend: Backend)
    requires st.currentQuestion == |questions| - 1 && !st.showResults
    ensures var r := Answer(grade, questions, quizId, st, selected, backend);
      && (r.state.showResults <==> backend.user.Some? && backend.quizUpdateOk && backend.attemptInsertOk)
      && (r.outcome.ResultsShown? <==> r.state.showResults)
      && (r.outcome == LoginRequired <==> backend.user.None?)
  {
  }

  /** The score written on the last question is `round(100 * #correct / N)`
      over all stored responses, and the same score goes into the quiz row
      and the attempt row. */
  lemma ScoreWrittenEverywhere(grade: AnswerCheck, questions: seq<Question>, quizId: string, st: QuizState, selected: string, backend: Backend)
    requires st.currentQuestion == |questions| - 1
    ensures var r := Answer(grade, questions, quizId, st, selected, backend);
      var s := Score(CountCorrect(r.state.responses), |questions|);
      && (r.outcome.ScoreUpdateFailed? ==> r.outcome.score == s)
      && (r.outcome.AttemptSaveFailed? || r.outcome.ResultsShown? ==>
            r.outcome.attempt == Attempt(quizId, backend.user.value, s, r.state.responses))
  {
  }

  // ---------------------------------------------------------------------
  // A run of answers from the start
  // ---------------------------------------------------------------------

  /** The answers `answers` given in order, `backends[i]` answering the
      service calls of the i-th one; once the results are shown no question
      is on screen, so the remaining answers are ignored. */
  function Run(grade: AnswerCheck, questions: seq<Question>, quizId: string, st: QuizState, answers: seq<string>, backends: seq<Backend>): (r: QuizState)
    requires st.currentQuestion < |questions| && |answers| == |backends|
    ensures r.currentQuestion < |questions|
    decreases |answers|
  {
    if answers == [] || st.showResults then st
    else Run(grade, questions, quizId, Answer(grade, questions, quizId, st, answers[0], backends[0]).state, answers[1..], backends[1..])
  }

  /** The responses a user produces by answering questions `start`,
      `start + 1`, … with `answers`. */
  function InOrder(grade: AnswerCheck, questions: seq<Question>, start: nat, answers: seq<string>): (r: seq<QuestionResponse>)
    requires start + |answers| <= |questions|
    ensures |r| == |answers|
    ensures forall i :: 0 <= i < |r| ==> r[i].questionIndex == start + i && r[i].selectedAnswer == answers[i]
    decreases |answers|
  {
    if answers == [] then []
    else [ResponseFor(grade, questions, start, answers[0])] + InOrder(grade, questions, start + 1, answers[1..])
  }

  /** Answering `k <= N` questions from the start, none of them a retry,
      leaves response `i` describing question `i` and answer `i`; the index
      stands at `k` (or on the last question once all are answered). */
  lemma {:induction false} RunRecordsAnswersInOrder(grade: AnswerCheck, questions: seq<Question>, quizId: string, st: QuizState, answers: seq<string>, backends: seq<Backend>)
    requires st.currentQuestion < |questions| && !st.showResults
    requires |st.responses| == st.currentQuestion && st.currentQuestion + |answers| <= |questions|
    requires |answers| == |backends|
    ensures var r := Run(grade, questions, quizId, st, answers, backends);
      && r.responses == st.responses + InOrder(grade, questions, st.currentQuestion, answers)
      && r.currentQuestion == (if st.currentQuestion + |answers| < |questions| then st.currentQuestion + |answers| else |questions| - 1)
    decreases |answers|
  {
    var cur := st.currentQuestion;
    if answers != [] {
      var first := ResponseFor(grade, questions, cur, answers[0]);
      if cur < |questions| - 1 {
        var next := QuizState(cur + 1, st.responses + [first], false);
        RunStep(grade, questions, quizId, st, answers, backends);
        RunRecordsAnswersInOrder(grade, questions, quizId, next, answers[1..], backends[1..]);
      } else {
        RunLast(grade, questions, quizId, st, answers, backends);
      }
    }
  }

  /** Before the last question, one step of `Run` moves to the next question
      with one more response. */
  lemma RunStep(grade: AnswerCheck, questions: seq<Question>, quizId: string, st: QuizState, answers: seq<string>, backends: seq<Backend>)
    requires st.currentQuestion < |questions| - 1 && !st.showResults
    requires answers != [] && |answers| == |backends|
    ensures var next := QuizState(st.currentQuestion + 1, st.responses + [ResponseFor(grade, questions, st.currentQuestion, answers[0])], false);
      Run(grade, questions, quizId, st, answers, backends) == Run(grade, questions, quizId, next, answers[1..], backends[1..])
  {
  }

  /** On the last question, `Run` takes the one remaining answer and stops. */
  lemma RunLast(grade: AnswerCheck, questions: seq<Question>, quizId: string, st: QuizState, answers: seq<string>, backends: seq<Backend>)
    requires st.currentQuestion == |questions| - 1 && !st.showResults
    requires |answers| == 1 && |backends| == 1
    ensures var r := Run(grade, questions, quizId, st, answers, backends);
      && r.responses == st.responses + InOrder(grade, questions, st.currentQuestion, answers)
      && r.currentQuestion == st.currentQuestion
  {
    assert answers[1..] == [];
  }

  /** Completing the quiz on the first try, with a signed-in user and both
      writes succeeding, shows the results and stores one response per
      question and a score between 0 and 100. */
  lemma FirstCompletionScoreInRange(grade: AnswerCheck, questions: seq<Question>, quizId: string, st: QuizState, selected: string, backend: Backend)
    requires st.currentQuestion == |questions| - 1 && |st.responses| == st.currentQuestion && !st.showResults
    requires backend.user.Some? && backend.quizUpdateOk && backend.attemptInsertOk
    ensures var r := Answer(grade, questions, quizId, st, selected, backend);
      && r.state.showResults && r.outcome.ResultsShown?
      && |r.outcome.attempt.questionResponses| == |questions|
      && 0 <= r.outcome.attempt.score <= 100
  {
    var r := Answer(grade, questions, quizId, st, selected, backend);
    ScoreInRange(CountCorrect(r.state.responses), |questions|);
  }

  // ---------------------------------------------------------------------
  // Retrying after a failed save
  // ---------------------------------------------------------------------

  /** As written, a failed save leaves the last question on screen, and a
      second click appends a second response for it: with one question
      answered correctly twice, the stored score is 200. */
  lemma RetryAfterFailedSaveDoublesScore(grade: AnswerCheck, q: Question, quizId: string, uid: string)
    requires grade(q.correctAnswer, q.correctAnswer)
    ensures var qs := [q];
      var first := Answer(grade, qs, quizId, Initial(), q.correctAnswer, Backend(Some(uid), false, true));
      var second := Answer(grade, qs, quizId, first.state, q.correctAnswer, Backend(Some(uid), true, true));
      && first.outcome == ScoreUpdateFailed(100)
      && second.outcome.ResultsShown?
      && second.outcome.attempt.score == 200
  {
    var qs := [q];
    var first := Answer(grade, qs, quizId, Initial(), q.correctAnswer, Backend(Some(uid), false, true));
    Seqs.FilterKeepsAll(first.state.responses, IsCorrect);
    var second := Answer(grade, qs, quizId, first.state, q.correctAnswer, Backend(Some(uid), true, true));
    assert second.state.responses == first.state.responses + [ResponseFor(grade, qs, 0, q.correctAnswer)];
    Seqs.FilterKeepsAll(second.state.responses, IsCorrect);
  }

  /** The evidently intended handler: the answer to the question on screen
      replaces any earlier answer to it, so a retry does not count twice. */
  function AnswerFixed(grade: AnswerCheck, questions: seq<Question>, quizId: string, st: QuizState, selected: string, backend: Backend): (r: Step)
    requires st.currentQuestion < |questions| && st.currentQuestion <= |st.responses|
    ensures r.state.currentQuestion < |questions|
  {
    var newResponses := st.responses[..st.currentQuestion] + [ResponseFor(grade, questions, st.currentQuestion, selected)];
    Finish(questions, quizId, st, newResponses, backend)
  }

  /** Response `i` answers question `i`, and there is at most one per
      question answered so far. */
  predicate OnePerQuestion(questions: seq<Question>, st: QuizState) {
    && st.currentQuestion < |questions|
    && st.currentQuestion <= |st.responses| <= st.currentQuestion + 1
    && forall i :: 0 <= i < |st.responses| ==> st.responses[i].questionIndex == i
  }

  /** With the fix, one response per question is kept however often the last
      question is retried, so every score written is between 0 and 100. */
  lemma FixedAnswerKeepsScoreInRange(grade: AnswerCheck, questions: seq<Question>, quizId: string, st: QuizState, selected: string, backend: Backend)
    requires OnePerQuestion(questions, st)
    ensures var r := AnswerFixed(grade, questions, quizId, st, selected, backend);
      && OnePerQuestion(questions, r.state)
      && |r.state.responses| == st.currentQuestion + 1
      && (r.outcome.ScoreUpdateFailed? ==> 0 <= r.outcome.score <= 100)
      && (r.outcome.AttemptSaveFailed? || r.outcome.ResultsShown? ==> 0 <= r.outcome.attempt.score <= 100)
  {
    var newResponses := st.responses[..st.currentQuestion] + [ResponseFor(grade, questions, st.currentQuestion, selected)];
    assert forall i :: 0 <= i < |newResponses| ==> newResponses[i].questionIndex == i by {
      forall i | 0 <= i < |newResponses|
        ensures newResponses[i].questionIndex == i
      {
        if i < st.currentQuestion {
          assert newResponses[i] == st.responses[i];
        }
      }
    }
    var r := AnswerFixed(grade, questions, quizId, st, selected, backend);
    assert r.state.responses == newResponses;
    ScoreInRange(CountCorrect(newResponses), |questions|);
  }

  /** The retry from `RetryAfterFailedSaveDoublesScore`, under the fix: the
      stored score is 100. */
  lemma FixedRetryKeepsScore(grade: AnswerCheck, q: Question, quizId: string, uid: string)
    requires grade(q.correctAnswer, q.correctAnswer)
    ensures var qs := [q];
      var first := AnswerFixed(grade, qs, quizId, Initial(), q.correctAnswer, Backend(Some(uid), false, true));
      var second := AnswerFixed(grade, qs, quizId, first.state, q.correctAnswer, Backend(Some(uid), true, true));
      && second.outcome.ResultsShown?
      && second.outcome.attempt.score == 100
  {
    var qs := [q];
    var first := AnswerFixed(grade, qs, quizId, Initial(), q.correctAnswer, Backend(Some(uid), false, true));
    var second := AnswerFixed(grade, qs, quizId, first.state, q.correctAnswer, Backend(Some(uid), true, true));
    assert second.state.responses == [ResponseFor(grade, qs, 0, q.correctAnswer)];
    Seqs.FilterKeepsAll(second.state.responses, IsCorrect);
  }

  // ---------------------------------------------------------------------
  // The component
  // ---------------------------------------------------------------------

  /** What holds between calls, as written: before the last question one
      response per question answered; on the last question at least that
      many (retries append); response `i` describes question `min(i, N-1)`
      and is graded by `compareAnswers`; results need one response per
      question. */
  predicate SessionInvariant(grade: AnswerCheck, questions: seq<Question>, st: QuizState) {
    && |questions| >= 1
    && st.currentQuestion < |questions|
    && (st.currentQuestion < |questions| - 1 ==> |st.responses| == st.currentQuestion && !st.showResults)
    && |st.responses| >= st.currentQuestion
    && (st.showResults ==> |st.responses| >= |questions|)
    && forall i :: 0 <= i < |st.responses| ==> DescribesQuestion(grade, questions, i, st.responses[i])
  }

  predicate DescribesQuestion(grade: AnswerCheck, questions: seq<Question>, i: nat, r: QuestionResponse)
    requires |questions| >= 1
  {
    var index := if i < |questions| then i else |questions| - 1;
    && r.questionIndex == index
    && r.question == questions[index].question
    && r.correctAnswer == questions[index].correctAnswer
    && (r.isCorrect <==> grade(r.selectedAnswer, r.correctAnswer))
  }

  /** Every answer given while a question is on screen keeps the invariant. */
  lemma AnswerKeepsInvariant(grade: AnswerCheck, questions: seq<Question>, quizId: string, st: QuizState, selected: string, backend: Backend)
    requires SessionInvariant(grade, questions, st) && !st.showResults
    ensures SessionInvariant(grade, questions, Answer(grade, questions, quizId, st, selected, backend).state)
  {
    var r := Answer(grade, questions, quizId, st, selected, backend);
    assert r.state.responses == st.responses + [ResponseFor(grade, questions, st.currentQuestion, selected)];
    assert DescribesQuestion(grade, questions, |st.responses|, ResponseFor(grade, questions, st.currentQuestion, selected));
  }

  class QuizSession {
    const questions: seq<Question>
    const quizId: string
    var currentQuestion: nat
    var responses: seq<QuestionResponse>
    var showResults: bool

    function State(): QuizState
      reads this
    {
      QuizState(currentQuestion, responses, showResults)
    }

    predicate Valid()
      reads this
    {
      SessionInvariant(Quiz.CompareAnswers, questions, State())
    }

    /** The component requires at least one question. */
    constructor(questions: seq<Question>, quizId: string)
      requires |questions| >= 1
      ensures this.questions == questions && this.quizId == quizId
      ensures State() == Initial() && Valid()
    {
      this.questions := questions;
      this.quizId := quizId;
      currentQuestion := 0;
      responses := [];
      showResults := false;
    }

    /** `handleAnswer(selected)`: the answer buttons exist only while no
        results are shown. */
    method HandleAnswer(selected: string, backend: Backend) returns (outcome: Outcome)
      requires Valid() && !showResults
      modifies this
      ensures Step(State(), outcome) == Answer(Quiz.CompareAnswers, questions, quizId, old(State()), selected, backend)
      ensures Valid()
    {
      AnswerKeepsInvariant(Quiz.CompareAnswers, questions, quizId, State(), selected, backend);
      var q := questions[currentQuestion];
      var isCorrect := Quiz.CompareAnswers(selected, q.correctAnswer);
      var response := QuestionResponse(currentQuestion, q.question, selected, q.correctAnswer, isCorrect);
      outcome := StoreAndFinish(responses + [response], backend);
    }

    /** The rest of `handleAnswer` once the new response is built: store
        the responses, then advance, or score and save. */
    method StoreAndFinish(newResponses: seq<QuestionResponse>, backend: Backend) returns (outcome: Outcome)
      requires currentQuestion < |questions|
      modifies this
      ensures Step(State(), outcome) == Finish(questions, quizId, old(State()), newResponses, backend)
    {
      responses := newResponses;
      if currentQuestion < |questions| - 1 {
        currentQuestion := currentQuestion + 1;
        return NextQuestion;
      }
      var correctAnswers := CountCorrect(newResponses);
      var score := Score(correctAnswers, |questions|);
      if backend.user.None? {
        return LoginRequired;
      }
      if !backend.quizUpdateOk {
        return ScoreUpdateFailed(score);
      }
      var attempt := Attempt(quizId, backend.user.value, score, newResponses);
      if !backend.attemptInsertOk {
        return AttemptSaveFailed(attempt);
      }
      showResults := true;
      return ResultsShown(attempt);
    }
  }
}
