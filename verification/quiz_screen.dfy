/** The quiz screen as a state machine: the four buttons are events, the
    state is the saved question index together with the notifications shown
    so far, and reading the current question out of range ends the session. */
module QuizScreen {
  import opened KotlinInt
  import opened Questions
  import opened Navigation
  import opened Answers
  import opened Residues

  /** The four buttons the screen wires to the activity's callbacks. */
  datatype Event = TrueClicked | FalseClicked | PreviousClicked | NextClicked {

    /** True for the two answer buttons. */
    predicate IsAnswer() {
      TrueClicked? || FalseClicked?
    }

    /** The answer an answer button submits. */
    function Pressed(): bool
      requires IsAnswer()
    {
      TrueClicked?
    }
  }

  /** The activity's state: the saved index and every notification shown so
      far (newest last), or the crash of reading the question at an index
      outside the bank. */
  datatype Screen = Live(index: Int32, toasts: seq<string>) | Crashed(index: Int32)

  /** A live screen whose index reads a question. */
  predicate Healthy(bank: Bank, s: Screen) {
    s.Live? && ValidIndex(bank, s.index)
  }

  /** A freshly created activity: index 0, nothing shown yet. */
  function Start(bank: Bank): (s: Screen)
    ensures Healthy(bank, s) && s.toasts == []
  {
    Live(Initial(bank), [])
  }

  /** The screen composed for an index handed back by saved state. The
      question is read while composing, so an out-of-range index crashes
      before any button can be pressed. */
  function Restore(bank: Bank, index: Int32): (s: Screen)
    ensures s.index == index
    ensures Healthy(bank, s) <==> ValidIndex(bank, index)
    ensures s.Crashed? <==> !ValidIndex(bank, index)
    ensures s.Live? ==> s.toasts == []
  {
    match Get(bank, index)
    case Found(_) => Live(index, [])
    case IndexOutOfBounds(_) => Crashed(index)
  }

  /** One button press. The current question is read first, as composition
      does before any button can be pressed; an answer button then appends
      its verdict's message and leaves the index alone, and a navigation
      button moves the index and shows nothing. */
  function Step(bank: Bank, s: Screen, e: Event): (t: Screen)
    ensures s.Crashed? ==> t == s
    ensures s.Live? ==> (t.Crashed? <==> !ValidIndex(bank, s.index))
    ensures Healthy(bank, s) ==> Healthy(bank, t)
    ensures Healthy(bank, s) && e.IsAnswer() ==>
      && t.index == s.index
      && |t.toasts| == |s.toasts| + 1
      && t.toasts[..|s.toasts|] == s.toasts
      && (t.toasts[|s.toasts|] == "Correct!" <==> e.Pressed() == bank[s.index].answer)
      && (t.toasts[|s.toasts|] == "Incorrect!" <==> e.Pressed() != bank[s.index].answer)
    ensures Healthy(bank, s) && !e.IsAnswer() ==> t.toasts == s.toasts
    ensures Healthy(bank, s) && e.NextClicked? ==> t.index == (s.index + 1) % |bank|
    ensures Healthy(bank, s) && e.PreviousClicked? ==> t.index == (s.index - 1) % |bank|
  {
    match s
    case Crashed(_) => s
    case Live(index, toasts) =>
      match Get(bank, index)
      case IndexOutOfBounds(_) => Crashed(index)
      case Found(q) =>
        match e
        case TrueClicked => Live(index, toasts + [CheckAnswer(true, q.answer)])
        case FalseClicked => Live(index, toasts + [CheckAnswer(false, q.answer)])
        case PreviousClicked => Live(Prev(bank, index), toasts)
        case NextClicked => Live(Next(bank, index), toasts)
  }

  /** A sequence of presses, oldest first. */
  function Run(bank: Bank, s: Screen, events: seq<Event>): (t: Screen)
    ensures Healthy(bank, s) ==> Healthy(bank, t)
    ensures s.Crashed? ==> t == s
    decreases |events|
  {
    if |events| == 0 then s else Run(bank, Step(bank, s, events[0]), events[1..])
  }

  /** A session that starts as the activity does never reads out of range,
      whatever buttons are pressed. */
  lemma SessionNeverCrashes(bank: Bank, events: seq<Event>)
    ensures Healthy(bank, Run(bank, Start(bank), events))
  {
  }

  /** The net number of forward moves in a sequence of presses. */
  function NetMoves(events: seq<Event>): int {
    (multiset(events)[NextClicked] as int) - multiset(events)[PreviousClicked]
  }

  /** The number of answer presses in a sequence of presses. */
  function AnswerPresses(events: seq<Event>): nat {
    multiset(events)[TrueClicked] + multiset(events)[FalseClicked]
  }

  /** Splitting off the first press splits the counts the same way. */
  lemma CountsOfCons(events: seq<Event>)
    requires |events| > 0
    ensures NetMoves(events) == NetMoves([events[0]]) + NetMoves(events[1..])
    ensures AnswerPresses(events) == AnswerPresses([events[0]]) + AnswerPresses(events[1..])
  {
    assert events == [events[0]] + events[1..];
    assert multiset(events) == multiset([events[0]]) + multiset(events[1..]);
  }

  /** Where a session ends depends only on how many Next and Previous
      presses it holds: the answer buttons never move the cursor, and the
      order of the moves does not matter. */
  lemma {:induction false} RunPosition(bank: Bank, s: Screen, events: seq<Event>)
    requires Healthy(bank, s)
    ensures Run(bank, s, events).index == (s.index + NetMoves(events)) % |bank|
    decreases |events|
  {
    var n := |bank|;
    if |events| == 0 {
      ModOfSmall(s.index, n);
    } else {
      var e := events[0];
      var rest := events[1..];
      var t := Step(bank, s, e);
      RunPosition(bank, t, rest);
      CountsOfCons(events);
      match e
      case NextClicked =>
        ModAddLeft(s.index + 1, NetMoves(rest), n);
      case PreviousClicked =>
        ModAddLeft(s.index - 1, NetMoves(rest), n);
      case TrueClicked =>
      case FalseClicked =>
    }
  }

  /** A session shows one notification per answer press, after the ones
      already shown. */
  lemma {:induction false} RunToasts(bank: Bank, s: Screen, events: seq<Event>)
    requires Healthy(bank, s)
    ensures |Run(bank, s, events).toasts| == |s.toasts| + AnswerPresses(events)
    ensures Run(bank, s, events).toasts[..|s.toasts|] == s.toasts
    decreases |events|
  {
    if |events| > 0 {
      var t := Step(bank, s, events[0]);
      RunToasts(bank, t, events[1..]);
      CountsOfCons(events);
      var r := Run(bank, t, events[1..]).toasts;
      assert r[..|s.toasts|] == r[..|t.toasts|][..|s.toasts|];
    }
  }

  /** The event loop of the activity, with the index and the shown messages
      as plain variables: every lookup of the current question is in range,
      and the loop ends in the state the functional model predicts. */
  method Play(bank: Bank, events: seq<Event>) returns (index: Int32, toasts: seq<string>)
    ensures ValidIndex(bank, index)
    ensures Run(bank, Start(bank), events) == Live(index, toasts)
    ensures index == NetMoves(events) % |bank|
    ensures |toasts| == AnswerPresses(events)
  {
    index := Initial(bank);
    toasts := [];
    for k := 0 to |events|
      invariant ValidIndex(bank, index)
      invariant Run(bank, Start(bank), events) == Run(bank, Live(index, toasts), events[k..])
    {
      var question := bank[index];
      assert events[k..][1..] == events[k + 1..];
      match events[k]
      case TrueClicked =>
        toasts := toasts + [CheckAnswer(true, question.answer)];
      case FalseClicked =>
        toasts := toasts + [CheckAnswer(false, question.answer)];
      case PreviousClicked =>
        index := Prev(bank, index);
      case NextClicked =>
        index := Next(bank, index);
    }
    assert events[|events|..] == [];
    RunPosition(bank, Start(bank), events);
    RunToasts(bank, Start(bank), events);
  }

  /** The walk-through of the built-in bank: Previous from the first
      question shows the last, Next from there returns to the first, True
      on the first question is correct and True on the third is not. */
  lemma GeoBankWalkthrough()
    ensures Step(GeoBank, Start(GeoBank), PreviousClicked) == Live(5, [])
    ensures Step(GeoBank, Live(5, []), NextClicked) == Live(0, [])
    ensures Step(GeoBank, Start(GeoBank), TrueClicked) == Live(0, ["Correct!"])
    ensures Step(GeoBank, Live(2, []), TrueClicked) == Live(2, ["Incorrect!"])
  {
    GeoBankShape();
  }
}
