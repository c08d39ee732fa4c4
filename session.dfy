/** The typing-test session as a value: the six pieces of component state,
    the transitions the component applies to them, the invariant every
    reachable state keeps, and the results view with its accuracy. */
module Session {
  import opened Compare

  datatype Option<T> = None | Some(value: T)

  /** Length of a test in seconds. */
  const Duration: int := 60

  /** The fixed corpus a test draws its passage from. */
  const Paragraphs: seq<string> := [
    "The quick brown fox jumps over the lazy dog.",
    "Pack my box with five dozen liquor jugs.",
    "How vexingly quick daft zebras jump!",
    "The five boxing wizards jump quickly.",
    "Jackdaws love my big sphinx of quartz."
  ]

  lemma ParagraphsAreNonEmpty(passageIndex: nat)
    requires passageIndex < |Paragraphs|
    ensures |Paragraphs[passageIndex]| > 0
  {
  }

  /** The component state, one field per state hook. */
  datatype Snapshot = Snapshot(
    timeLeft: int,
    isRunning: bool,
    text: string,
    targetText: string,
    charCount: int,
    correctCount: int)

  /** The state before any test was started. */
  const Initial: Snapshot := Snapshot(Duration, false, "", "", 0, 0)

  /** What holds in every reachable state: the clock stays within the test's
      length, the passage is empty or one of the corpus, the counter matches
      the typed text, and the typed-character total is frozen only once the
      test is over. */
  predicate Inv(s: Snapshot)
  {
    && 0 <= s.timeLeft <= Duration
    && (s.targetText == "" || s.targetText in Paragraphs)
    && s.correctCount == CountCorrect(s.text, s.targetText)
    && s.charCount == (if s.isRunning then 0 else |s.text|)
  }

  /** Starting a test: a passage from the corpus, a full clock, nothing typed. */
  function Started(s: Snapshot, passageIndex: nat): (t: Snapshot)
    requires passageIndex < |Paragraphs|
    ensures t.targetText in Paragraphs && t.targetText == Paragraphs[passageIndex]
    ensures t.isRunning && t.timeLeft == Duration
    ensures t.text == "" && t.charCount == 0 && t.correctCount == 0
    ensures Inv(t)
  {
    Snapshot(Duration, true, "", Paragraphs[passageIndex], 0, 0)
  }

  /** One second of the countdown. */
  function Ticked(s: Snapshot): (t: Snapshot)
    ensures t == s.(timeLeft := t.timeLeft)
    ensures t.timeLeft != s.timeLeft <==> s.isRunning && s.timeLeft > 0
    ensures t.timeLeft != s.timeLeft ==> t.timeLeft == s.timeLeft - 1
    ensures s.timeLeft >= 0 ==> t.timeLeft >= 0
    ensures Inv(s) ==> Inv(t)
  {
    if s.isRunning && s.timeLeft > 0 then s.(timeLeft := s.timeLeft - 1) else s
  }

  /** Ending a test freezes the typed-character total; text, passage and
      counter stay as they are. */
  function Ended(s: Snapshot): (t: Snapshot)
    ensures !t.isRunning && t.charCount == |s.text|
    ensures t.text == s.text && t.targetText == s.targetText
    ensures t.correctCount == s.correctCount && t.timeLeft == s.timeLeft
    ensures Inv(s) ==> Inv(t) && t.correctCount <= t.charCount
  {
    s.(isRunning := false, charCount := |s.text|)
  }

  /** A change of the text area: taken only while a test runs, and then the
      counter is recomputed for the new text. */
  function Typed(s: Snapshot, newText: string): (t: Snapshot)
    ensures !s.isRunning ==> t == s
    ensures s.isRunning ==> t == s.(text := newText, correctCount := t.correctCount)
    ensures s.isRunning ==> t.correctCount == |MatchSet(newText, s.targetText)|
    ensures Inv(s) ==> t.correctCount <= |t.text|
    ensures s.isRunning ==> t.correctCount <= |t.targetText|
    ensures Inv(s) ==> Inv(t)
  {
    if s.isRunning then
      CountCorrectIsMatchCount(newText, s.targetText);
      s.(text := newText, correctCount := CountCorrect(newText, s.targetText))
    else s
  }

  /** The timer effect, run when `isRunning` or `timeLeft` changes: while the
      clock runs it only arms the interval; at zero it ends the test. */
  function Settled(s: Snapshot): (t: Snapshot)
    ensures s.timeLeft == 0 ==> t == Ended(s)
    ensures s.timeLeft != 0 ==> t == s
    ensures Inv(s) ==> Inv(t)
  {
    if s.isRunning && s.timeLeft > 0 then s
    else if s.timeLeft == 0 then Ended(s)
    else s
  }

  /** The results block: characters typed, correct characters and the
      accuracy percentage, shown only after a test in which something was typed. */
  datatype Results = Results(charsTyped: int, correctChars: int, accuracy: real)

  function Percent(correct: int, total: int): real
    requires total > 0
  {
    correct as real / total as real * 100.0
  }

  lemma PercentBounds(correct: int, total: int)
    requires total > 0
    ensures 0 <= correct <= total ==> 0.0 <= Percent(correct, total) <= 100.0
  {
  }

  lemma PercentOfAll(total: int)
    requires total > 0
    ensures Percent(total, total) == 100.0
  {
    assert total as real / total as real == 1.0;
  }

  function ShownResults(s: Snapshot): (r: Option<Results>)
    ensures r.Some? <==> !s.isRunning && s.charCount > 0
    ensures r.Some? ==> r.value.charsTyped == s.charCount && r.value.correctChars == s.correctCount
    ensures r.Some? ==> r.value.accuracy == Percent(s.correctCount, s.charCount)
    ensures r.Some? && Inv(s) ==> 0.0 <= r.value.accuracy <= 100.0
  {
    if !s.isRunning && s.charCount > 0 then
      PercentBounds(s.correctCount, s.charCount);
      Some(Results(s.charCount, s.correctCount, Percent(s.correctCount, s.charCount)))
    else None
  }

  /** What reaches the component: a click on the start button (carrying the
      passage drawn for it), a second of the interval timer, a change of the
      text area, and a run of the timer effect. */
  datatype Event =
    | StartClicked(passageIndex: nat)
    | SecondElapsed
    | TextChanged(value: string)
    | EffectRan

  predicate WellFormed(e: Event)
  {
    e.StartClicked? ==> e.passageIndex < |Paragraphs|
  }

  /** One event. The start button is disabled while a test runs, so a click
      then does nothing. */
  function Step(s: Snapshot, e: Event): (t: Snapshot)
    requires WellFormed(e)
    ensures e.StartClicked? && s.isRunning ==> t == s
    ensures Inv(s) ==> Inv(t)
  {
    match e
    case StartClicked(i) => if s.isRunning then s else Started(s, i)
    case SecondElapsed => Ticked(s)
    case TextChanged(v) => Typed(s, v)
    case EffectRan => Settled(s)
  }

  /** A sequence of events, oldest first. */
  function Run(s: Snapshot, events: seq<Event>): Snapshot
    requires forall i :: 0 <= i < |events| ==> WellFormed(events[i])
    decreases |events|
  {
    if |events| == 0 then s
    else Step(Run(s, events[..|events| - 1]), events[|events| - 1])
  }

  lemma InitialIsValid()
    ensures Inv(Initial)
  {
  }

  /** Every state reachable by events from one satisfying the invariant
      satisfies it too. */
  lemma {:induction false} RunPreservesInv(s: Snapshot, events: seq<Event>)
    requires forall i :: 0 <= i < |events| ==> WellFormed(events[i])
    requires Inv(s)
    ensures Inv(Run(s, events))
    decreases |events|
  {
    if |events| > 0 {
      var prefix := events[..|events| - 1];
      RunPreservesInv(s, prefix);
    }
  }

  /** Whatever the user does, the clock never goes below zero and the
      accuracy shown lies between 0 and 100. */
  lemma ReachableStatesAreSound(events: seq<Event>)
    requires forall i :: 0 <= i < |events| ==> WellFormed(events[i])
    ensures 0 <= Run(Initial, events).timeLeft <= Duration
    ensures Run(Initial, events).correctCount <= |Run(Initial, events).text|
    ensures var r := ShownResults(Run(Initial, events));
            r.Some? ==> 0.0 <= r.value.accuracy <= 100.0
  {
    InitialIsValid();
    RunPreservesInv(Initial, events);
  }

  /** Ending is idempotent: the effect runs again after `isRunning` flips while
      the clock still reads zero, and that second end changes nothing. */
  lemma EndIsIdempotent(s: Snapshot)
    ensures Ended(Ended(s)) == Ended(s)
    ensures s.timeLeft == 0 ==> Settled(Settled(s)) == Settled(s)
  {
  }

  /** `k` seconds of the interval timer. */
  function Ticks(k: nat): seq<Event>
  {
    seq(k, _ => SecondElapsed)
  }

  /** `k` seconds of a running test take exactly `k` off the clock, as long as
      the clock does not run out first, and change nothing else. */
  lemma {:induction false} CountDown(s: Snapshot, k: nat)
    requires s.isRunning && k <= s.timeLeft
    ensures Run(s, Ticks(k)) == s.(timeLeft := s.timeLeft - k)
    decreases k
  {
    if k > 0 {
      assert Ticks(k)[..k - 1] == Ticks(k - 1);
      CountDown(s, k - 1);
    }
  }

  /** A full test: after the start, sixty seconds bring the clock to zero with
      the test still running, and the following timer effect ends it. */
  lemma FullTestEnds(s: Snapshot, passageIndex: nat)
    requires passageIndex < |Paragraphs|
    ensures var t := Run(Started(s, passageIndex), Ticks(Duration));
            t.timeLeft == 0 && t.isRunning && !Settled(t).isRunning
  {
    CountDown(Started(s, passageIndex), Duration);
  }
}
