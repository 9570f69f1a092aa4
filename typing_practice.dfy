/** The typing practice page (pages/fun/typing-practice.tsx). The target sentence is
    split into UTF-16 code units, and each unit is shown pending (nothing typed at its
    position yet), correct (the typed unit there is the same) or wrong. Units typed past
    the end of the target are not shown. Reset clears the typed text; Next clears it and
    draws a new sentence. `Math.random()` is a parameter. */
module TypingPractice {
  import opened JsString

  datatype Status = Pending | Correct | Wrong

  /** The feedback of `renderFeedback`: one status per code unit of the target. */
  function Feedback(target: string, typed: string): seq<Status> {
    var t, u := Utf16Units(target), Utf16Units(typed);
    seq(|t|, i requires 0 <= i < |t| => if i >= |u| then Pending else if u[i] == t[i] then Correct else Wrong)
  }

  /** The number of positions with a status. */
  function Count(fb: seq<Status>, st: Status): nat {
    if fb == [] then 0 else (if fb[0] == st then 1 else 0) + Count(fb[1..], st)
  }

  // ---------------------------------------------------------------------------------
  // Properties of the feedback

  /** One status per target code unit; a position is pending exactly when nothing is
      typed there, and otherwise correct exactly when the typed unit matches. */
  lemma Classification(target: string, typed: string, i: nat)
    requires i < Utf16Length(target)
    ensures |Feedback(target, typed)| == Utf16Length(target)
    ensures Feedback(target, typed)[i] == Pending <==> i >= Utf16Length(typed)
    ensures Feedback(target, typed)[i] == Correct <==>
      i < Utf16Length(typed) && Utf16Units(typed)[i] == Utf16Units(target)[i]
    ensures Feedback(target, typed)[i] == Wrong <==>
      i < Utf16Length(typed) && Utf16Units(typed)[i] != Utf16Units(target)[i]
  {
  }

  lemma {:induction false} CountAppend(a: seq<Status>, b: seq<Status>, st: Status)
    ensures Count(a + b, st) == Count(a, st) + Count(b, st)
  {
    if a == [] {
      assert a + b == b;
    } else {
      assert (a + b)[1..] == a[1..] + b;
      CountAppend(a[1..], b, st);
    }
  }

  lemma {:induction false} CountAll(fb: seq<Status>, st: Status)
    requires forall i :: 0 <= i < |fb| ==> fb[i] == st
    ensures Count(fb, st) == |fb|
  {
    if fb != [] {
      CountAll(fb[1..], st);
    }
  }

  lemma {:induction false} CountNone(fb: seq<Status>, st: Status)
    requires forall i :: 0 <= i < |fb| ==> fb[i] != st
    ensures Count(fb, st) == 0
  {
    if fb != [] {
      CountNone(fb[1..], st);
    }
  }

  lemma {:induction false} CountTotal(fb: seq<Status>)
    ensures Count(fb, Pending) + Count(fb, Correct) + Count(fb, Wrong) == |fb|
  {
    if fb != [] {
      CountTotal(fb[1..]);
    }
  }

  /** Units typed past the target are ignored: the pending positions are the target's
      units that nothing is typed at, and every position has exactly one status. */
  lemma PendingCount(target: string, typed: string)
    ensures var fb := Feedback(target, typed);
      Count(fb, Pending) == (if Utf16Length(target) > Utf16Length(typed) then Utf16Length(target) - Utf16Length(typed) else 0)
    ensures var fb := Feedback(target, typed);
      Count(fb, Pending) + Count(fb, Correct) + Count(fb, Wrong) == Utf16Length(target)
  {
    var fb := Feedback(target, typed);
    var n := if Utf16Length(typed) < |fb| then Utf16Length(typed) else |fb|;
    assert fb == fb[..n] + fb[n..];
    CountAppend(fb[..n], fb[n..], Pending);
    CountNone(fb[..n], Pending);
    CountAll(fb[n..], Pending);
    CountTotal(fb);
  }

  /** Typing the target shows every position correct, whatever follows it. */
  lemma TypedTarget(target: string, extra: string)
    ensures forall i :: 0 <= i < |Feedback(target, target + extra)| ==> Feedback(target, target + extra)[i] == Correct
    ensures Count(Feedback(target, target + extra), Correct) == Utf16Length(target)
  {
    Utf16UnitsAppend(target, extra);
    CountAll(Feedback(target, target + extra), Correct);
  }

  /** Nothing typed shows every position pending. */
  lemma NothingTyped(target: string)
    ensures forall i :: 0 <= i < |Feedback(target, "")| ==> Feedback(target, "")[i] == Pending
    ensures Count(Feedback(target, ""), Pending) == Utf16Length(target)
  {
    CountAll(Feedback(target, ""), Pending);
  }

  // ---------------------------------------------------------------------------------
  // The page

  const SampleSentences: seq<string> := [
    "Typing is a skill that improves with practice.\nKeep your fingers on the home row.",
    "Consistency and focus are keys to better typing.\nAvoid looking at the keyboard.",
    "Practice makes perfect. Don't give up easily.\nEven slow progress is progress.",
    "Accuracy is more important than speed at first.\nLater, both will improve together.",
    "Typing is a foundational skill for developers.\nSharpen it a little every day.",
    "Use all your fingers while typing.\nThis will increase your speed over time.",
    "Take breaks to avoid strain.\nHealthy hands type better.",
    "Set small goals for each practice session.\nCelebrate your improvements.",
    "Try to type without looking at the screen.\nThis builds muscle memory.",
    "Stay relaxed while typing.\nTension can lead to mistakes.",
    "Explore different typing exercises online.\nVariety keeps practice interesting.",
    "Use typing games to make practice fun.\nCompetition can boost motivation."
  ]

  /** `Math.floor(x * sampleSentences.length)`: an index of a sentence for every value
      `x` of `Math.random()`. */
  function SampleIndex(x: real): (i: int)
    requires 0.0 <= x < 1.0
    ensures 0 <= i < |SampleSentences|
  {
    assert 0.0 <= x * 12.0 < 12.0;
    (x * |SampleSentences| as real).Floor
  }

  /** `getRandomSentence`. */
  function RandomSentence(x: real): string
    requires 0.0 <= x < 1.0
  {
    SampleSentences[SampleIndex(x)]
  }

  /** The page state: the target sentence and the typed text. */
  datatype State = State(targetText: string, userInput: string)

  /** The first render: no target, nothing typed. */
  const Initial: State := State("", "")

  /** The mount effect draws the first sentence. */
  function Mount(st: State, x: real): (r: State)
    requires 0.0 <= x < 1.0
    ensures r.targetText == RandomSentence(x) && r.userInput == st.userInput
  {
    st.(targetText := RandomSentence(x))
  }

  /** `handleInputChange`. */
  function Type(st: State, value: string): (r: State)
    ensures r.targetText == st.targetText && r.userInput == value
  {
    st.(userInput := value)
  }

  /** `handleReset`: the typed text is cleared and the target kept, so every position is
      pending again. */
  function Reset(st: State): (r: State)
    ensures r.targetText == st.targetText && r.userInput == ""
    ensures forall i :: 0 <= i < |Feedback(r.targetText, r.userInput)| ==> Feedback(r.targetText, r.userInput)[i] == Pending
  {
    State(st.targetText, "")
  }

  /** `handleNext`: the typed text is cleared and a sentence drawn. */
  function Next(st: State, x: real): (r: State)
    requires 0.0 <= x < 1.0
    ensures r.targetText == RandomSentence(x) && r.userInput == ""
    ensures forall i :: 0 <= i < |Feedback(r.targetText, r.userInput)| ==> Feedback(r.targetText, r.userInput)[i] == Pending
  {
    State(RandomSentence(x), "")
  }
}
