/** Judging a True/False press against a question's answer. */
module Answers {

  datatype Verdict = Correct | Incorrect

  /** The comparison `checkAnswer` makes. */
  function Evaluate(userAnswer: bool, correctAnswer: bool): (v: Verdict)
    ensures v == Correct <==> userAnswer == correctAnswer
    ensures v == Incorrect <==> userAnswer != correctAnswer
  {
    if userAnswer == correctAnswer then Correct else Incorrect
  }

  /** The text of the notification that announces a verdict. */
  function Message(v: Verdict): (m: string)
    ensures m == "Correct!" <==> v == Correct
    ensures m == "Incorrect!" <==> v == Incorrect
  {
    match v
    case Correct => "Correct!"
    case Incorrect => "Incorrect!"
  }

  /** Different verdicts are announced by different texts, so the text
      alone tells the user which verdict was reached. */
  lemma MessageInjective(v: Verdict, w: Verdict)
    ensures Message(v) == Message(w) <==> v == w
  {
    if v != w {
      assert Message(v)[0] != Message(w)[0];
    }
  }

  /** The message `checkAnswer` shows for a press of `userAnswer` on a
      question whose answer is `correctAnswer`. */
  function CheckAnswer(userAnswer: bool, correctAnswer: bool): (m: string)
    ensures m == "Correct!" <==> userAnswer == correctAnswer
    ensures m == "Incorrect!" <==> userAnswer != correctAnswer
  {
    MessageInjective(Correct, Incorrect);
    Message(Evaluate(userAnswer, correctAnswer))
  }

  /** The verdict truth table: both agreeing pairs are correct, both mixed
      pairs incorrect. */
  lemma EvaluateTable()
    ensures Evaluate(true, true) == Correct && Evaluate(false, false) == Correct
    ensures Evaluate(true, false) == Incorrect && Evaluate(false, true) == Incorrect
  {
  }

  /** Whatever a question's answer, exactly one of the two buttons is judged
      correct, and the verdict depends only on whether the two agree. */
  lemma ExactlyOneButtonCorrect(correctAnswer: bool)
    ensures (Evaluate(true, correctAnswer) == Correct) != (Evaluate(false, correctAnswer) == Correct)
    ensures Evaluate(true, correctAnswer) == Evaluate(false, !correctAnswer)
  {
  }
}
