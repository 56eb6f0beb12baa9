/**
 * Concrete runs of the session engine: words collected from a short stream,
 * and sequences of handler calls and timer callbacks on one `Session`.
 */
module Scenarios {
  import opened Wrappers
  import opened Ascii
  import opened WordDetector
  import opened Ledger
  import opened App

  /**
   * Typing `t`, `y`, `p`, `e` with a maximum word length of 8 collects every
   * prefix of two letters or more, each at a range starting at 0, and the
   * newest, longest one leads.
   */
  lemma TypingCollectsPrefixes()
    ensures var w := AfterKeystroke(AfterKeystroke(AfterKeystroke(AfterKeystroke(NoWords, 't', 8), 'y', 8), 'p', 8), 'e', 8);
            && w.stream == "type"
            && w.collection == ["ty", "typ", "type"]
            && w.ranges == [Range(0, 2), Range(0, 3), Range(0, 4)]
            && w.leading == Some("type")
  {
    TypeT();
    TypeY();
    TypeP();
    TypeE();
  }

  /** A lower-case stream no longer than the maximum and not yet collected is collected whole. */
  lemma WholeStreamCollected(stream: string, collected: seq<string>, maxWordLength: nat)
    requires AllLower(stream) && 2 <= |stream| <= maxWordLength && stream !in collected
    ensures NewWordLength(stream, collected, maxWordLength) == Some(|stream|)
  {
    ValidLowercaseIffLength(stream);
    assert Suffix(stream, |stream|) == stream;
  }

  /** A new word at least as long as every collected one leads. */
  lemma NewLongestLeads(collected: seq<string>, word: string)
    requires forall k :: 0 <= k < |collected| ==> |collected[k]| <= |word|
    ensures LeadingAfter(collected + [word], word) == Some(word)
  {
    var all := collected + [word];
    assert all[|collected|] == word;
    assert forall k :: 0 <= k < |all| ==> |all[k]| <= |word|;
  }

  /** `t` alone is no word. */
  lemma TypeT()
    ensures AfterKeystroke(NoWords, 't', 8) == NoWords.(stream := "t")
  {
    assert NoWords.stream + [ToLower('t')] == "t";
    assert !IsValidWord("t") by { ValidLowercaseIffLength("t"); }
    assert Suffix("t", 1) == "t";
  }

  /** `ty` is the first word. */
  lemma TypeY()
    ensures AfterKeystroke(NoWords.(stream := "t"), 'y', 8) == Words("ty", ["ty"], ["ty"], [Range(0, 2)], Some("ty"))
  {
    assert "t" + [ToLower('y')] == "ty";
    WholeStreamCollected("ty", [], 8);
    assert Suffix("ty", |"ty"|) == "ty";
    NewLongestLeads([], "ty");
  }

  /** `typ` is new and longest. */
  lemma TypeP()
    ensures AfterKeystroke(Words("ty", ["ty"], ["ty"], [Range(0, 2)], Some("ty")), 'p', 8)
         == Words("typ", ["ty", "typ"], ["ty", "typ"], [Range(0, 2), Range(0, 3)], Some("typ"))
  {
    assert "ty" + [ToLower('p')] == "typ";
    WholeStreamCollected("typ", ["ty"], 8);
    assert Suffix("typ", |"typ"|) == "typ";
    NewLongestLeads(["ty"], "typ");
  }

  /** `type` is new and longest. */
  lemma TypeE()
    ensures AfterKeystroke(Words("typ", ["ty", "typ"], ["ty", "typ"], [Range(0, 2), Range(0, 3)], Some("typ")), 'e', 8)
         == Words("type", ["ty", "typ", "type"], ["ty", "typ", "type"], [Range(0, 2), Range(0, 3), Range(0, 4)], Some("type"))
  {
    var typed := Words("type", ["ty", "typ"], ["ty", "typ"], [Range(0, 2), Range(0, 3)], Some("typ"));
    assert "typ" + [ToLower('e')] == typed.stream;
    WholeStreamCollected("type", ["ty", "typ"], 8);
    assert AfterKeystroke(typed.(stream := "typ"), 'e', 8) == Collect(typed, 4);
    assert Suffix("type", 4) == "type";
    assert ["ty", "typ"] + ["type"] == ["ty", "typ", "type"];
    assert [Range(0, 2), Range(0, 3)] + [Range(0, 4)] == [Range(0, 2), Range(0, 3), Range(0, 4)];
    NewLongestLeads(["ty", "typ"], "type");
  }

  /**
   * With a maximum word length of 2, `abab` collects `ab` and `ba`; at the
   * last keystroke `ab` is already collected and `b` is no word, so nothing
   * is added.
   */
  lemma RepeatedWordNotCollectedTwice()
    ensures var w := AfterKeystroke(AfterKeystroke(AfterKeystroke(AfterKeystroke(NoWords, 'a', 2), 'b', 2), 'a', 2), 'b', 2);
            && w.stream == "abab"
            && w.collection == ["ab", "ba"]
            && w.ranges == [Range(0, 2), Range(1, 3)]
            && w.leading == Some("ba")
  {
    TypeA();
    TypeAB();
    TypeABA();
    TypeABAB();
  }

  /** `a` alone is no word. */
  lemma TypeA()
    ensures AfterKeystroke(NoWords, 'a', 2) == NoWords.(stream := "a")
  {
    assert NoWords.stream + [ToLower('a')] == "a";
    assert !IsValidWord("a") by { ValidLowercaseIffLength("a"); }
    assert Suffix("a", 1) == "a";
  }

  /** `ab` is the first word. */
  lemma TypeAB()
    ensures AfterKeystroke(NoWords.(stream := "a"), 'b', 2) == Words("ab", ["ab"], ["ab"], [Range(0, 2)], Some("ab"))
  {
    assert "a" + [ToLower('b')] == "ab";
    WholeStreamCollected("ab", [], 2);
    assert Suffix("ab", |"ab"|) == "ab";
    NewLongestLeads([], "ab");
  }

  /** Only the last two characters are tried: `ba` is new, ties in length and leads. */
  lemma TypeABA()
    ensures AfterKeystroke(Words("ab", ["ab"], ["ab"], [Range(0, 2)], Some("ab")), 'a', 2)
         == Words("aba", ["ab", "ba"], ["ab", "ba"], [Range(0, 2), Range(1, 3)], Some("ba"))
  {
    var stream := "aba";
    assert "ab" + [ToLower('a')] == stream;
    assert IsValidWord("ba") by { ValidLowercaseIffLength("ba"); }
    assert Suffix(stream, 2) == "ba";
    assert NewWordLength(stream, ["ab"], 2) == Some(2);
    assert ["ab"] + ["ba"] == ["ab", "ba"];
    NewLongestLeads(["ab"], "ba");
  }

  /** `ab` is already collected and `b` is no word. */
  lemma TypeABAB()
    ensures AfterKeystroke(Words("aba", ["ab", "ba"], ["ab", "ba"], [Range(0, 2), Range(1, 3)], Some("ba")), 'b', 2)
         == Words("abab", ["ab", "ba"], ["ab", "ba"], [Range(0, 2), Range(1, 3)], Some("ba"))
  {
    assert "aba" + [ToLower('b')] == "abab";
    assert !IsValidWord("b") by { ValidLowercaseIffLength("b"); }
    assert Suffix("abab", 2) == "ab" && Suffix("abab", 1) == "b";
  }

  /**
   * A 30-second countdown: choose the duration, start, let the start callback
   * run at 1000 ms, and tick at 31000 ms. The display reaches 0 and the
   * session stops with no interval armed.
   */
  method CountdownRunsOut() returns (s: Session)
    ensures !s.timer.isTyping && s.timer.elapsedTime == 0 && s.timer.intervals == map[]
    ensures s.timer.targetTime == Some(30)
  {
    s := new Session(8);
    s.DurationSelect(30);
    s.Start();
    assert s.timer.pendingStarts == [StartCapture(Some(30), 30)];
    s.FireStart(1000);
    var h := 1;
    assert s.timer.intervals == map[h := Countdown(30)];
    s.Tick(h, 31000);
  }

  /**
   * Two taps inside the 600 ms warm-up (each a `handleStart`, since the
   * session is not typing yet): both start callbacks run, the second
   * interval replaces the first in the ref, and the stop clears only the
   * second. The first goes on ticking and moves the
   * displayed time while the session is stopped.
   */
  method DoubleTapLeaks() returns (s: Session, leaked: nat)
    ensures !s.timer.isTyping && leaked in s.timer.intervals && s.timer.timerRef.None?
    ensures s.timer.elapsedTime == 8
  {
    s := new Session(8);
    s.Start();
    s.Start();
    assert s.timer.pendingStarts == [StartCapture(None, 0), StartCapture(None, 0)];
    s.FireStart(600);
    leaked := 1;
    s.FireStart(700);
    assert s.timer.isTyping && s.timer.timerRef == Some(2) && s.timer.intervals == map[1 := CountUp, 2 := CountUp];
    s.Stop();
    assert s.timer.intervals == map[1 := CountUp] && s.timer.anchor == Some(700);
    s.Tick(leaked, 9000);
  }

  /**
   * A hold while typing, from any state with no start pending: the deadline
   * runs the reset, and the release that follows neither starts nor stops
   * the session.
   */
  method HoldResetsWithoutToggle(s: Session, now: int)
    requires s.TimersValid() && s.timer.isTyping && s.timer.pendingStarts == []
    modifies s
    ensures s.words == NoWords && !s.timer.isTyping && s.timer.pendingStarts == []
    ensures s.timer.elapsedTime == if s.timer.targetTime.Some? then s.timer.targetTime.value else 0
    ensures s.hold.deadlineRef.None? && !s.hold.completed
  {
    var pressedAt := s.nextHandle;
    s.PressStart(now);
    assert pressedAt + 1 in s.hold.deadlines;
    s.FireDeadline(pressedAt + 1);
    assert !IsTap(s.hold) && !s.timer.isTyping && s.timer.pendingStarts == [];
    s.PressEnd();
  }

  /**
   * Two presses while typing and one release: the release is a tap and
   * stops the session, and the first press's deadline, which no release
   * cleared, later resets it and leaves the hold shown as completed.
   */
  method SecondPressResetsAfterTap(s: Session, now1: int, now2: int)
    requires s.TimersValid() && s.timer.isTyping && s.timer.pendingStarts == [] && !s.hold.isLongPressing
    modifies s
    ensures s.words == NoWords && !s.timer.isTyping && s.timer.pendingStarts == []
    ensures s.timer.elapsedTime == if s.timer.targetTime.Some? then s.timer.targetTime.value else 0
    ensures s.hold.completed && s.hold.deadlineRef.None?
  {
    var first := s.nextHandle;
    s.PressStart(now1);
    s.PressStart(now2);
    assert first + 1 in s.hold.deadlines && s.hold.deadlineRef == Some(first + 3);
    s.PressEnd();
    assert !s.timer.isTyping && first + 1 in s.hold.deadlines;
    s.FireDeadline(first + 1);
  }
}
