/** The typing-test component: its state hooks as fields, and each handler as
    a method that updates them in place. Every method is specified by the
    matching transition of module Session, whose properties are proved there. */
module App {
  import opened Compare
  import opened Session

  class TypingTest {
    var timeLeft: int
    var isRunning: bool
    var text: string
    var targetText: string
    var charCount: int
    var correctCount: int

    /** The current values of the six fields. */
    function State(): Snapshot
      reads this
    {
      Snapshot(timeLeft, isRunning, text, targetText, charCount, correctCount)
    }

    ghost predicate Valid()
      reads this
    {
      Inv(State())
    }

    /** The initial values of the state hooks. */
    constructor ()
      ensures State() == Initial && Valid()
    {
      timeLeft := Duration;
      isRunning := false;
      text := "";
      targetText := "";
      charCount := 0;
      correctCount := 0;
      new;
      InitialIsValid();
    }

    /** Starts a test on the passage at `passageIndex`. */
    method Start(passageIndex: nat)
      requires passageIndex < |Paragraphs|
      modifies this
      ensures State() == Started(old(State()), passageIndex)
      ensures Valid()
    {
      targetText := Paragraphs[passageIndex];
      isRunning := true;
      timeLeft := Duration;
      text := "";
      charCount := 0;
      correctCount := 0;
    }

    /** One callback of the interval timer. The interval exists only while a
        test runs with time left, so the decrement happens only then. */
    method Tick()
      requires Valid()
      modifies this
      ensures State() == Ticked(old(State()))
      ensures Valid()
    {
      if isRunning && timeLeft > 0 {
        timeLeft := timeLeft - 1;
      }
    }

    /** Ends the test and records how many characters were typed. */
    method End()
      requires Valid()
      modifies this
      ensures State() == Ended(old(State()))
      ensures Valid()
    {
      isRunning := false;
      charCount := |text|;
    }

    /** The text area changed to `newText`. */
    method Input(newText: string)
      requires Valid()
      modifies this
      ensures State() == Typed(old(State()), newText)
      ensures Valid()
    {
      if isRunning {
        text := newText;
        correctCount := CountCorrect(newText, targetText);
      }
    }

    /** The timer effect: arms the interval while the clock runs, and ends
        the test once it reads zero. */
    method TimerEffect()
      requires Valid()
      modifies this
      ensures State() == Settled(old(State()))
      ensures Valid()
    {
      if isRunning && timeLeft > 0 {
        // the interval is armed; each of its callbacks is a call to Tick
      } else if timeLeft == 0 {
        End();
      }
    }

    /** The per-character marks the passage is rendered with. */
    method RenderTargetText() returns (marks: seq<Mark>)
      requires Valid()
      ensures |marks| == |targetText|
      ensures forall i :: 0 <= i < |marks| ==> (marks[i] == Neutral <==> i >= |text|)
      ensures forall i :: 0 <= i < |marks| && i < |text| ==>
                (marks[i] == Correct <==> text[i] == targetText[i])
      ensures CountMarks(marks, Correct) == correctCount
    {
      marks := Classify(targetText, text);
      ClassifyAgreesWithCount(targetText, text);
    }

    /** The results block, present only after a test in which something was
        typed, with an accuracy between 0 and 100. */
    method ShowResults() returns (r: Option<Results>)
      requires Valid()
      ensures r.Some? <==> !isRunning && charCount > 0
      ensures r.Some? ==> r.value.charsTyped == |text| && r.value.correctChars == correctCount
      ensures r.Some? ==> r.value.correctChars <= r.value.charsTyped
      ensures r.Some? ==> r.value.accuracy == Percent(correctCount, charCount)
      ensures r.Some? ==> 0.0 <= r.value.accuracy <= 100.0
    {
      r := ShownResults(State());
    }
  }

  /** A full test driven through the component: start, type the whole
      passage, let sixty seconds pass and the effect run. */
  method FullTest(passageIndex: nat) returns (r: Option<Results>)
    requires passageIndex < |Paragraphs|
    ensures r.Some? && r.value.charsTyped == |Paragraphs[passageIndex]|
    ensures r.value.correctChars == r.value.charsTyped && r.value.accuracy == 100.0
  {
    var test := new TypingTest();
    test.Start(passageIndex);
    var passage := test.targetText;
    test.Input(passage);
    var seconds := 0;
    while seconds < Duration
      invariant 0 <= seconds <= Duration
      invariant test.Valid() && test.isRunning && test.timeLeft == Duration - seconds
      invariant test.text == passage && test.targetText == passage
    {
      test.Tick();
      seconds := seconds + 1;
    }
    test.TimerEffect();
    ExactTypingCountsAll(passage);
    ParagraphsAreNonEmpty(passageIndex);
    PercentOfAll(|passage|);
    r := test.ShowResults();
  }
}
