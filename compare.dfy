/** Character-level comparison of the typed text against the target passage:
    the correct-character count kept in `correctCount` and the per-character
    classification used to colour the passage. Strings are sequences of
    Unicode scalar values. */
module Compare {

  /** The class a target character is rendered with. */
  datatype Mark = Neutral | Correct | Incorrect

  /** Position `i` was typed, lies inside the target, and matches it. */
  predicate MatchAt(typed: string, target: string, i: int)
  {
    0 <= i < |typed| && i < |target| && typed[i] == target[i]
  }

  /** Reference definition: the set of positions that count as correct. */
  ghost function MatchSet(typed: string, target: string): set<int>
  {
    set i | 0 <= i < |typed| && MatchAt(typed, target, i)
  }

  /** The number of typed characters that equal the target character at the
      same index. Like the filter over the typed characters, it walks the typed
      text; an index past the end of the target has no character to match. */
  function CountCorrect(typed: string, target: string): (n: nat)
    ensures n <= |typed| && n <= |target|
    decreases |typed|
  {
    if |typed| == 0 then 0
    else
      CountCorrect(typed[..|typed| - 1], target)
      + (if MatchAt(typed, target, |typed| - 1) then 1 else 0)
  }

  /** The mark of one target position against the typed text. */
  function MarkAt(target: string, typed: string, i: nat): Mark
    requires i < |target|
  {
    if i < |typed| then (if typed[i] == target[i] then Correct else Incorrect)
    else Neutral
  }

  /** One mark per target character: neutral where nothing was typed yet,
      otherwise correct or incorrect by comparison with the typed character. */
  function Classify(target: string, typed: string): (marks: seq<Mark>)
    ensures |marks| == |target|
    ensures forall i :: 0 <= i < |marks| ==> (marks[i] == Neutral <==> i >= |typed|)
    ensures forall i :: 0 <= i < |marks| && i < |typed| ==>
              (marks[i] == Correct <==> typed[i] == target[i])
    decreases |target|
  {
    if |target| == 0 then []
    else Classify(target[..|target| - 1], typed) + [MarkAt(target, typed, |target| - 1)]
  }

  /** How many entries of `marks` equal `m`. */
  function CountMarks(marks: seq<Mark>, m: Mark): (n: nat)
    ensures n <= |marks|
    decreases |marks|
  {
    if |marks| == 0 then 0
    else CountMarks(marks[..|marks| - 1], m) + (if marks[|marks| - 1] == m then 1 else 0)
  }

  /** The counter agrees with the reference definition: it counts exactly the
      matching positions. */
  lemma {:induction false} CountCorrectIsMatchCount(typed: string, target: string)
    ensures CountCorrect(typed, target) == |MatchSet(typed, target)|
    decreases |typed|
  {
    if |typed| == 0 {
      assert MatchSet(typed, target) == {};
    } else {
      var k := |typed| - 1;
      var prefix := typed[..k];
      CountCorrectIsMatchCount(prefix, target);
      var last := if MatchAt(typed, target, k) then {k} else {};
      assert MatchSet(typed, target) == MatchSet(prefix, target) + last;
      assert k !in MatchSet(prefix, target);
    }
  }

  /** The correct marks of a classification are the matching positions. */
  lemma {:induction false} CorrectMarksAreMatchCount(target: string, typed: string)
    ensures CountMarks(Classify(target, typed), Correct) == |MatchSet(typed, target)|
    decreases |target|
  {
    if |target| == 0 {
      assert MatchSet(typed, target) == {};
    } else {
      var k := |target| - 1;
      var prefix := target[..k];
      CorrectMarksAreMatchCount(prefix, typed);
      var marks := Classify(target, typed);
      assert marks[..k] == Classify(prefix, typed);
      var last := if MatchAt(typed, target, k) then {k} else {};
      assert MatchSet(typed, target) == MatchSet(typed, prefix) + last;
      assert k !in MatchSet(typed, prefix);
    }
  }

  /** The number of positions rendered as correct equals the counter. */
  lemma ClassifyAgreesWithCount(target: string, typed: string)
    ensures CountMarks(Classify(target, typed), Correct) == CountCorrect(typed, target)
  {
    CorrectMarksAreMatchCount(target, typed);
    CountCorrectIsMatchCount(typed, target);
  }

  /** Characters typed past the end of the target never count: the count
      over the whole text equals the count over its part inside the target. */
  lemma {:induction false} OverTypingIgnored(typed: string, target: string)
    requires |typed| >= |target|
    ensures CountCorrect(typed, target) == CountCorrect(typed[..|target|], target)
    decreases |typed|
  {
    if |typed| > |target| {
      var k := |typed| - 1;
      assert !MatchAt(typed, target, k);
      OverTypingIgnored(typed[..k], target);
      assert typed[..k][..|target|] == typed[..|target|];
    } else {
      assert typed[..|target|] == typed;
    }
  }

  /** Every typed position inside the target is marked either correct or
      incorrect, so the two kinds together number the typed positions that
      lie inside the target. */
  lemma {:induction false} TypedMarksSplit(target: string, typed: string)
    ensures CountMarks(Classify(target, typed), Correct)
            + CountMarks(Classify(target, typed), Incorrect)
            == (if |typed| < |target| then |typed| else |target|)
    decreases |target|
  {
    if |target| > 0 {
      var k := |target| - 1;
      var prefix := target[..k];
      TypedMarksSplit(prefix, typed);
      var marks := Classify(target, typed);
      assert marks[..k] == Classify(prefix, typed);
    }
  }

  /** Typing the passage exactly makes every character count. */
  lemma {:induction false} ExactTypingCountsAll(passage: string)
    ensures CountCorrect(passage, passage) == |passage|
    decreases |passage|
  {
    if |passage| > 0 {
      var k := |passage| - 1;
      var prefix := passage[..k];
      ExactTypingCountsAll(prefix);
      assert MatchAt(passage, passage, k);
      CountCorrectIsMatchCount(prefix, passage);
      CountCorrectIsMatchCount(prefix, prefix);
      assert MatchSet(prefix, passage) == MatchSet(prefix, prefix);
    }
  }
}
