# Typing test engine

A Dafny model of the engine inside the `TypingTest` React component of a
sixty-second typing test (`src/App.js`). The component keeps six pieces of
state: the seconds left, whether a test runs, the typed text, the target
passage, the number of characters typed and the number typed correctly. Four
handlers change that state:

- the start button, which draws one of five fixed passages and resets everything;
- the interval timer, which takes one second off the clock while a test runs;
- the timer effect, which ends the test once the clock reads zero;
- the text area's change handler, which takes input only while a test runs.

The component also derives two views from the state:

- a per-character classification of the passage (neutral, correct or incorrect);
- a results block with the accuracy, `correctCount / charCount * 100`.

The model has three modules:

- `Compare` (`compare.dfy`) holds the pure comparison. `CountCorrect` models
  the filter that counts typed characters equal to the target character at the
  same index. `Classify` models the map that marks each passage character.
  Both are proved equal to one reference definition, the set of matching
  positions. So the number of correct marks always equals the counter.
- `Session` (`session.dfy`) holds the state as a value (`Snapshot`). It gives
  one function per transition and an invariant `Inv` that every transition
  keeps. The invariant says four things:
  - the clock lies in [0, 60];
  - the passage is empty or one of the corpus;
  - the counter equals `CountCorrect` of the typed text;
  - `charCount` is 0 while a test runs and the length of the text otherwise.
  It also gives the results view and an event runner. The runner carries the
  facts that hold of every reachable state, a full countdown, and the
  idempotence of ending.
- `App` (`app.dfy`) holds the component as a class `TypingTest`. It has one
  field per state hook and one method per handler, each updating the fields in
  place. Each method is specified by the matching `Session` transition.

Three facts about the code shape the model:

- The decrement of the clock and the end of the test are two separate steps:
  the interval callback, then the next run of the effect. So a state with
  `timeLeft == 0` while the test still runs is reachable, and input is still
  accepted in that state.
- There is no words-per-minute figure, no duration setting and no attempt
  history or persistence in the code, so none is modelled.
- The results block is hidden whenever `charCount` is 0, so the accuracy
  division never divides by zero. `ShownResults` returns `None` there.

## Model

| member | source | states |
|---|---|---|
| `Compare.CountCorrect` | src/App.js:53 | the correct count is at most the typed length and at most the passage length |
| `Compare.CountCorrectIsMatchCount` | src/App.js:53 | the count equals the number of indices i < \|typed\| where typed[i] equals target[i] (an index past the passage never matches) |
| `Compare.OverTypingIgnored` | src/App.js:53 | characters typed beyond the passage's end never change the count |
| `Compare.ExactTypingCountsAll` | src/App.js:53 | typing the passage exactly counts every character |
| `Compare.Classify` | src/App.js:57-64 | one mark per passage character; mark i is neutral iff i >= \|text\|; otherwise it is correct iff text[i] equals the passage character |
| `Compare.CorrectMarksAreMatchCount` | src/App.js:57-64 | the number of correct marks equals the number of matching indices |
| `Compare.ClassifyAgreesWithCount` | src/App.js:53-64 | the number of positions rendered correct equals the counter kept by the change handler |
| `Compare.TypedMarksSplit` | src/App.js:58-62 | correct plus incorrect marks number min(\|text\|, \|passage\|): each typed position inside the passage is one or the other |
| `Session.ParagraphsAreNonEmpty` | src/App.js:4-10 | every passage of the corpus is non-empty |
| `Session.InitialIsValid` | src/App.js:13-18 | the initial state (60 s, not running, empty strings, zero counts) satisfies the invariant |
| `Session.Started` | src/App.js:33-40 | start gives a running test on a corpus passage with 60 s, empty text and zero counts, which satisfies the invariant |
| `Session.Ticked` | src/App.js:23-25 | a tick takes exactly 1 off the clock iff the test runs with time left, changes nothing else, never drives the clock below 0, and keeps the invariant |
| `Session.Ended` | src/App.js:44-47 | ending stops the test and sets charCount to \|text\|, leaving text, passage, counter and clock unchanged; afterwards correctCount <= charCount |
| `Session.Typed` | src/App.js:49-55 | a change is ignored when no test runs; otherwise text becomes the new value and the counter the number of matching indices, at most \|text\| and \|passage\| |
| `Session.Settled` | src/App.js:21-31 | the timer effect ends the test exactly when the clock reads 0 and otherwise changes nothing |
| `Session.EndIsIdempotent` | src/App.js:27-28 | ending twice equals ending once, so the effect's second run after the flip of isRunning changes nothing |
| `Session.PercentBounds` | src/App.js:86 | the accuracy percentage lies in [0, 100] whenever correct <= typed |
| `Session.PercentOfAll` | src/App.js:86 | all characters correct gives an accuracy of exactly 100 |
| `Session.ShownResults` | src/App.js:82-88 | results are shown iff no test runs and charCount > 0; they carry both counts and the accuracy, which lies in [0, 100] in any valid state |
| `Session.Step` | src/App.js:67-81 | a click on the disabled start button while a test runs does nothing; every event keeps the invariant |
| `Session.RunPreservesInv` | src/App.js:13-55 | any sequence of events keeps the invariant |
| `Session.ReachableStatesAreSound` | src/App.js:13-86 | in every reachable state the clock is in [0, 60], correctCount <= \|text\|, and any accuracy shown is in [0, 100] |
| `Session.CountDown` | src/App.js:23-25 | k ticks of a running test with at least k seconds left take exactly k seconds off and change nothing else |
| `Session.FullTestEnds` | src/App.js:21-40 | after a start, 60 ticks leave the clock at 0 with the test running, and the following effect ends it |
| `App.TypingTest.constructor` | src/App.js:13-18 | the fields start at their initial values, which satisfy the invariant |
| `App.TypingTest.Start` | src/App.js:33-40 | the fields become those of `Session.Started` |
| `App.TypingTest.Tick` | src/App.js:24-26 | the fields become those of `Session.Ticked`; the invariant is kept |
| `App.TypingTest.End` | src/App.js:44-47 | the fields become those of `Session.Ended`; the invariant is kept |
| `App.TypingTest.Input` | src/App.js:49-55 | the fields become those of `Session.Typed`; the invariant is kept |
| `App.TypingTest.TimerEffect` | src/App.js:21-31 | the fields become those of `Session.Settled`; the invariant is kept |
| `App.TypingTest.RenderTargetText` | src/App.js:57-65 | the marks cover the passage, are neutral exactly past the typed text and correct exactly where the characters agree, and the correct marks number correctCount |
| `App.TypingTest.ShowResults` | src/App.js:82-88 | results exist iff no test runs and charCount > 0; then correct <= typed = \|text\| and the accuracy is the percentage, in [0, 100] |
| `App.FullTest` | src/App.js:33-86 | starting, typing the passage exactly and letting 60 seconds and the effect run shows results with every character correct and an accuracy of 100 |

## Left out

- Rendering: the JSX, CSS class names as strings, the button and text area markup, and the focus call at `src/App.js:41`. The marks `Neutral`, `Correct` and `Incorrect` stand for the class names.
- Timer scheduling: `setInterval`, `clearInterval` and React's effect scheduling. A second of the interval is an explicit call of `Tick`, and each run of the effect is an explicit call of `TimerEffect`. The guard in `Tick` stands for the fact that the interval only exists while a test runs with time left.
- Random passage choice: `Math.random` is replaced by a passage index in [0, 5) supplied by the caller.
- Accuracy formatting: `toFixed(2)` and floating point. Accuracy is the exact real ratio times 100, and only its bounds and its value for a perfect test are stated.
- Characters: strings are sequences of Dafny `char`, which are Unicode scalar values, while JavaScript's `length`, `split('')` and indexing work on UTF-16 code units. For input outside the Basic Multilingual Plane the model therefore differs: such a character is one position here and two in the code, so `charCount` is smaller and the index alignment of later characters (and hence the correct count and the marks) differs.
