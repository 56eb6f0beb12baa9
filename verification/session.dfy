/**
 * The session engine inside `App` (src/App.tsx): keystroke ingestion and word
 * collection, the session timer and the hold-to-reset gesture.
 *
 * The component's state is grouped by concern into three records, `Words`
 * (module Ledger), `Timer` and `Hold`; the handlers are the methods of class
 * `Session`, which holds one of each and updates them in place. Each handler
 * is specified by a function from the old record to the new one, and the
 * lemmas of this module state what those functions promise.
 *
 * Scheduling is explicit. The callbacks the code keeps a handle for (the
 * 100 ms timer intervals, the 16 ms progress samplers and the 1500 ms hold
 * deadlines) are numbered from one counter (`nextHandle`); the numbers are
 * opaque, only distinct and positive, as browsers promise. An armed one is an
 * entry keyed by its number, a ref is an `Option` holding a number, and
 * `clearInterval`/`clearTimeout` remove the entry. The callbacks the code
 * never cancels are not numbered: the 600 ms start callbacks form a queue and
 * the 100 ms settles a count. `Date.now()` is the `now` parameter of the
 * methods that read it. A callback runs only through its Fire or Tick method;
 * one whose handle was cleared does nothing.
 *
 * Callbacks see the state of the render that created them: the 600 ms start
 * callback keeps the `targetTime` and `elapsedTime` of the tap that armed it
 * (`StartCapture`), a countdown interval keeps its target (`Countdown`), and a
 * hold deadline keeps the `targetTime` its reset will use. Handlers invoked
 * directly by events read the current state.
 */
module App {
  import opened Wrappers
  import opened Ascii
  import opened Ledger

  /** Delay of the hold gesture, in milliseconds. */
  const HoldMs := 1500

  /** What the 600 ms callback armed by `handleStart` captured from its render. */
  datatype StartCapture = StartCapture(target: Option<int>, elapsed: int)

  /** The 100 ms interval a start installs: countdown from a captured target, or count-up. */
  datatype Ticker = Countdown(target: int) | CountUp

  /** `Math.floor((now - anchor) / 1000)`; Dafny's `/` by a positive divisor rounds down. */
  function SecondsSince(anchor: int, now: int): int
  {
    (now - anchor) / 1000
  }

  /** `Math.max(0, target - elapsed)`: the countdown display. */
  function CountdownRemaining(target: int, anchor: int, now: int): (remaining: int)
    ensures remaining >= 0
    ensures remaining == 0 <==> target <= SecondsSince(anchor, now)
    ensures remaining > 0 ==> remaining + SecondsSince(anchor, now) == target
  {
    var elapsed := SecondsSince(anchor, now);
    if target - elapsed > 0 then target - elapsed else 0
  }

  /** The count-up anchor on (re)start: `Date.now() - elapsedTime * 1000`. */
  function ResumeAnchor(now: int, elapsed: int): int
  {
    now - elapsed * 1000
  }

  /**
   * Count-up resumes where it stopped: right at the restart the display reads
   * the held value again, and at any later instant it reads that plus the
   * whole seconds since the restart.
   */
  lemma CountUpResumeKeepsElapsed(now: int, later: int, elapsed: int)
    requires now <= later
    ensures SecondsSince(ResumeAnchor(now, elapsed), now) == elapsed
    ensures SecondsSince(ResumeAnchor(now, elapsed), later) == elapsed + SecondsSince(now, later)
    ensures SecondsSince(ResumeAnchor(now, elapsed), later) >= elapsed
  {
    var d := later - now;
    assert later - ResumeAnchor(now, elapsed) == elapsed * 1000 + d;
    assert (elapsed * 1000 + d) / 1000 == elapsed + d / 1000;
  }

  /** The hold progress bar: `Math.min(100, (elapsed / 1500) * 100)`. */
  function HoldProgress(pressStart: int, now: int): (progress: real)
    ensures progress <= 100.0
    ensures now >= pressStart ==> progress >= 0.0
    ensures now - pressStart >= HoldMs ==> progress == 100.0
  {
    var p := ((now - pressStart) as real / HoldMs as real) * 100.0;
    if p < 100.0 then p else 100.0
  }

  /** The bar never moves back while the button is held. */
  lemma HoldProgressMonotone(pressStart: int, now: int, later: int)
    requires now <= later
    ensures HoldProgress(pressStart, now) <= HoldProgress(pressStart, later)
  {
    var a := (now - pressStart) as real / HoldMs as real;
    var b := (later - pressStart) as real / HoldMs as real;
    assert a <= b;
    assert a * 100.0 <= b * 100.0;
  }

  /**
   * `clearInterval(ref)`/`clearTimeout(ref)` on a handle map: the referenced
   * callback is disarmed, every other armed callback stays armed unchanged,
   * and nothing new is armed.
   */
  function Cleared<V>(armed: map<nat, V>, ref: Option<nat>): (r: map<nat, V>)
    ensures ref.Some? ==> ref.value !in r
    ensures forall k :: k in armed && ref != Some(k) ==> k in r && r[k] == armed[k]
    ensures forall k :: k in r ==> k in armed
  {
    if ref.Some? then armed - {ref.value} else armed
  }

  /** Clearing the same ref twice is the same as clearing it once. */
  lemma ClearingTwice<V>(armed: map<nat, V>, ref: Option<nat>)
    ensures Cleared(Cleared(armed, ref), ref) == Cleared(armed, ref)
  {
  }

  // ---------------------------------------------------------------------
  // Session timer
  // ---------------------------------------------------------------------

  /**
   * The timer's state: `isTyping`, `isTimerStarting`, `elapsedTime`,
   * `targetTime`, `startTimeRef.current` (`anchor`), the start callbacks not
   * yet run (oldest first; nothing can cancel them), the armed 100 ms
   * intervals by handle, and `timerIntervalRef.current` (`timerRef`).
   */
  datatype Timer = Timer(isTyping: bool, isTimerStarting: bool, elapsedTime: int, targetTime: Option<int>,
                         anchor: Option<int>, pendingStarts: seq<StartCapture>,
                         intervals: map<nat, Ticker>, timerRef: Option<nat>)

  /** The timer of the first render. */
  const IdleTimer: Timer := Timer(false, false, 0, None, None, [], map[], None)

  /** `if (startTimeRef.current)`: set and not 0. */
  predicate AnchorSet(t: Timer)
  {
    t.anchor.Some? && t.anchor.value != 0
  }

  /** Every armed interval is the referenced one, so clearing the ref disarms them all. */
  predicate NoLeakedInterval(t: Timer)
  {
    forall h :: h in t.intervals ==> t.timerRef == Some(h)
  }

  /** `handleStop`: not typing, not starting, and the referenced interval cleared. */
  function Stopped(t: Timer): Timer
  {
    t.(isTyping := false, isTimerStarting := false, intervals := Cleared(t.intervals, t.timerRef), timerRef := None)
  }

  /** `handleStart`: show the warm-up and queue a start callback capturing this render's target and time. */
  function Started(t: Timer): Timer
  {
    t.(isTimerStarting := true, pendingStarts := t.pendingStarts + [StartCapture(t.targetTime, t.elapsedTime)])
  }

  /**
   * The oldest start callback runs at `now` and arms interval `h`: a
   * positive captured target starts a countdown anchored at `now`, anything
   * else resumes count-up from the captured elapsed seconds.
   */
  function StartFired(t: Timer, h: nat, now: int): Timer
    requires t.pendingStarts != []
  {
    var capture := t.pendingStarts[0];
    var running := t.(pendingStarts := t.pendingStarts[1..], isTimerStarting := false, isTyping := true,
                      timerRef := Some(h));
    if capture.target.Some? && capture.target.value > 0 then
      running.(anchor := Some(now), intervals := t.intervals[h := Countdown(capture.target.value)])
    else
      running.(anchor := Some(ResumeAnchor(now, capture.elapsed)), intervals := t.intervals[h := CountUp])
  }

  /**
   * One run of interval `h` at `now`: count-up shows the whole seconds since
   * the anchor; countdown shows what is left of its target and stops the
   * session when that reaches 0.
   */
  function Ticked(t: Timer, h: nat, now: int): Timer
  {
    if h !in t.intervals || !AnchorSet(t) then t
    else
      match t.intervals[h]
      case CountUp => t.(elapsedTime := SecondsSince(t.anchor.value, now))
      case Countdown(target) =>
        var remaining := CountdownRemaining(target, t.anchor.value, now);
        if remaining == 0 then Stopped(t.(elapsedTime := 0)) else t.(elapsedTime := remaining)
  }

  /**
   * The timer part of `handleReset`, with `target` the `targetTime` its
   * caller saw: stopped, showing the target (or 0 when none was chosen), with
   * no anchor.
   */
  function TimerReset(t: Timer, target: Option<int>): Timer
  {
    Stopped(t).(elapsedTime := if target.Some? then target.value else 0, anchor := None)
  }

  /** `handleDurationSelect`: choose a countdown target, ignored while typing. */
  function DurationSelected(t: Timer, seconds: int): Timer
  {
    if t.isTyping then t else t.(targetTime := Some(seconds), elapsedTime := seconds)
  }

  /** A tap on the control button: stop while typing, start otherwise. */
  function Toggled(t: Timer): Timer
  {
    if t.isTyping then Stopped(t) else Started(t)
  }

  /**
   * Stopping leaves the session stopped and clears only the referenced
   * interval; a second stop changes nothing, and when no interval leaked,
   * none stays armed.
   */
  lemma StopClearsReferenced(t: Timer)
    ensures var s := Stopped(t);
            && !s.isTyping && !s.isTimerStarting && s.timerRef.None?
            && s.intervals == Cleared(t.intervals, t.timerRef)
            && s.elapsedTime == t.elapsedTime && s.anchor == t.anchor && s.pendingStarts == t.pendingStarts
            && Stopped(s) == s
    ensures NoLeakedInterval(t) ==> Stopped(t).intervals == map[]
  {
    if NoLeakedInterval(t) {
      assert forall h :: h !in Stopped(t).intervals;
    }
  }

  /**
   * Resetting twice is the same as resetting once. A reset disarms only the
   * referenced interval, so none stays armed unless one had leaked, and a
   * leaked interval that still fires changes nothing once the anchor is gone.
   */
  lemma ResetIdempotent(t: Timer, target: Option<int>, h: nat, now: int)
    ensures TimerReset(TimerReset(t, target), target) == TimerReset(t, target)
    ensures var r := TimerReset(t, target);
            && !r.isTyping && !r.isTimerStarting && r.timerRef.None? && r.anchor.None?
            && r.elapsedTime == (if target.Some? then target.value else 0)
    ensures TimerReset(t, target).intervals == Cleared(t.intervals, t.timerRef)
    ensures NoLeakedInterval(t) ==> TimerReset(t, target).intervals == map[]
    ensures Ticked(TimerReset(t, target), h, now) == TimerReset(t, target)
  {
    StopClearsReferenced(t);
  }

  /**
   * A countdown interval shows the remaining seconds, and the tick at which
   * the target has elapsed shows 0 and stops the session; before that the
   * session keeps running.
   */
  lemma CountdownTick(t: Timer, h: nat, now: int)
    requires h in t.intervals && t.intervals[h].Countdown? && AnchorSet(t)
    ensures var target := t.intervals[h].target;
            var r := Ticked(t, h, now);
            && r.elapsedTime == CountdownRemaining(target, t.anchor.value, now)
            && (target <= SecondsSince(t.anchor.value, now) ==>
                  r == Stopped(t.(elapsedTime := 0)) && !r.isTyping && r.elapsedTime == 0)
            && (target > SecondsSince(t.anchor.value, now) ==>
                  r == t.(elapsedTime := target - SecondsSince(t.anchor.value, now)))
  {
  }

  /**
   * A start callback that captured no positive target resumes count-up:
   * once armed, its interval shows the captured seconds plus the whole
   * seconds since the restart, so a pause and a resume lose no time.
   */
  lemma CountUpResumes(t: Timer, h: nat, now: int, later: int)
    requires t.pendingStarts != [] && now <= later
    requires !(t.pendingStarts[0].target.Some? && t.pendingStarts[0].target.value > 0)
    requires ResumeAnchor(now, t.pendingStarts[0].elapsed) != 0
    ensures var r := Ticked(StartFired(t, h, now), h, later);
            r.elapsedTime == t.pendingStarts[0].elapsed + SecondsSince(now, later) && r.isTyping
  {
    CountUpResumeKeepsElapsed(now, later, t.pendingStarts[0].elapsed);
  }

  /**
   * A countdown start callback anchors at the moment it runs, so a resumed
   * countdown shows its full target again, whatever had elapsed before the
   * pause.
   */
  lemma CountdownRestartsFromTarget(t: Timer, h: nat, now: int)
    requires t.pendingStarts != []
    requires t.pendingStarts[0].target.Some? && t.pendingStarts[0].target.value > 0 && now != 0
    ensures Ticked(StartFired(t, h, now), h, now).elapsedTime == t.pendingStarts[0].target.value
  {
  }

  /**
   * Two taps before the first start callback runs arm two intervals; the
   * ref keeps only the second, so a stop leaves the first one armed, and it
   * goes on ticking while the session is stopped.
   */
  lemma DoubleStartLeaksInterval(t: Timer, h1: nat, h2: nat, now: int)
    requires t.pendingStarts == [] && h1 != h2
    ensures var fired := StartFired(StartFired(Started(Started(t)), h1, now), h2, now);
            var stopped := Stopped(fired);
            && fired.timerRef == Some(h2)
            && h1 in stopped.intervals && !stopped.isTyping && stopped.pendingStarts == []
  {
  }

  /**
   * Choosing a duration is ignored while typing; otherwise it shows the
   * chosen seconds at once. With no start pending, a tap followed by its
   * start callback counts down from them. During the 600 ms warm-up the
   * session is not typing yet, so the choice is shown, but the pending start
   * callback runs in the mode and from the time it captured at the tap.
   */
  lemma DurationSelectedCountsDown(t: Timer, seconds: int, h: nat, now: int)
    ensures t.isTyping ==> DurationSelected(t, seconds) == t
    ensures !t.isTyping ==>
              var d := DurationSelected(t, seconds);
              && d.targetTime == Some(seconds) && d.elapsedTime == seconds
              && (t.pendingStarts == [] && seconds > 0 && now != 0 ==>
                    var r := StartFired(Started(d), h, now);
                    && r.isTyping && h in r.intervals && r.intervals[h] == Countdown(seconds)
                    && Ticked(r, h, now).elapsedTime == seconds)
    ensures !t.isTyping && t.pendingStarts != [] ==>
              var d := DurationSelected(t, seconds);
              && d.pendingStarts == t.pendingStarts
              && StartFired(d, h, now).intervals == StartFired(t, h, now).intervals
              && StartFired(d, h, now).anchor == StartFired(t, h, now).anchor
              && StartFired(d, h, now).targetTime == Some(seconds)
  {
  }

  /**
   * A 30 s countdown chosen during the warm-up of a count-up start: the
   * target says 30, but the start callback arms a count-up, and its tick
   * shows the seconds since the start rather than what is left of 30.
   */
  lemma WarmUpDurationIgnored(h: nat, now: int)
    ensures var r := StartFired(DurationSelected(Started(IdleTimer), 30), h, now);
            && r.isTyping && r.targetTime == Some(30) && h in r.intervals && r.intervals[h] == CountUp
            && (now != 0 ==> Ticked(r, h, now).elapsedTime == 0 && Ticked(r, h, now + 5000).elapsedTime == 5)
  {
  }

  // ---------------------------------------------------------------------
  // Hold-to-reset gesture
  // ---------------------------------------------------------------------

  /**
   * The gesture's state: the armed 1500 ms deadlines by handle (each with
   * the `targetTime` its reset uses), `longPressTimerRef.current`
   * (`deadlineRef`), the armed 16 ms progress samplers,
   * `longPressProgressIntervalRef.current` (`samplerRef`),
   * `longPressStartTimeRef.current`, `longPressProgress`, `isLongPressing`,
   * `longPressCompletedRef.current` (`completed`) and the 100 ms visual
   * settle callbacks not yet run.
   */
  datatype Hold = Hold(deadlines: map<nat, Option<int>>, deadlineRef: Option<nat>,
                       samplers: set<nat>, samplerRef: Option<nat>,
                       pressStart: Option<int>, progress: real, isLongPressing: bool, completed: bool,
                       settlesPending: nat)

  /** The gesture state of the first render. */
  const NoHold: Hold := Hold(map[], None, {}, None, None, 0.0, false, false, 0)

  /**
   * `handleButtonPressStart`: forget any completed hold; while typing, also
   * start sampler `p` and arm deadline `p + 1`. Refs still holding earlier
   * handles are overwritten, not cleared.
   */
  function Pressed(h: Hold, isTyping: bool, targetTime: Option<int>, now: int, p: nat): Hold
  {
    if !isTyping then h.(completed := false)
    else
      h.(completed := false, progress := 0.0, pressStart := Some(now),
         samplers := h.samplers + {p}, samplerRef := Some(p),
         deadlines := h.deadlines[p + 1 := targetTime], deadlineRef := Some(p + 1))
  }

  /** One run of sampler `s` at `now`. */
  function Sampled(h: Hold, s: nat, now: int): Hold
  {
    if s in h.samplers && h.pressStart.Some? && h.pressStart.value != 0 then
      h.(progress := HoldProgress(h.pressStart.value, now))
    else h
  }

  /** The gesture part of deadline `d` running: hold shown as completed, bar full, a settle queued. */
  function DeadlineFired(h: Hold, d: nat): Hold
  {
    if d !in h.deadlines then h
    else
      h.(deadlines := h.deadlines - {d}, isLongPressing := true, completed := true, progress := 100.0,
         settlesPending := h.settlesPending + 1)
  }

  /** The 100 ms settle after a completed hold: clear the visual hold state. */
  function Settled(h: Hold): Hold
  {
    if h.settlesPending == 0 then h
    else h.(settlesPending := h.settlesPending - 1, isLongPressing := false, progress := 0.0)
  }

  /** What release and cancel both do: clear the referenced deadline and sampler and the hold display. */
  function Released(h: Hold): Hold
  {
    h.(deadlines := Cleared(h.deadlines, h.deadlineRef), deadlineRef := None,
       samplers := if h.samplerRef.Some? then h.samplers - {h.samplerRef.value} else h.samplers,
       samplerRef := None,
       isLongPressing := false, progress := 0.0, pressStart := None, completed := false)
  }

  /** A release is a tap, which toggles the session, unless a hold completed or is still shown. */
  predicate IsTap(h: Hold)
  {
    !h.completed && !h.isLongPressing
  }

  /**
   * Once a deadline has run, the release that follows is not a tap, and a
   * settle is queued to clear the display; a fresh press is a tap unless a
   * completed hold is still shown.
   */
  lemma HoldResetIsNotTap(h: Hold, d: nat, isTyping: bool, target: Option<int>, now: int, p: nat)
    requires d in h.deadlines
    ensures !IsTap(DeadlineFired(h, d))
    ensures DeadlineFired(h, d).settlesPending > 0
    ensures IsTap(Pressed(h, isTyping, target, now, p)) <==> !h.isLongPressing
  {
  }

  /**
   * A press arms the deadline and the sampler only while typing, as handles
   * `p` and `p + 1` (`Session.PressStart` supplies fresh ones), and the
   * deadline keeps the target the reset will use; a press while not typing only forgets a completed hold.
   */
  /**
   * A second press before any release overwrites both refs: the release
   * that follows is a tap and clears only the second press's sampler and
   * deadline. The first press's deadline stays armed with its target and
   * will still complete a hold, after the tap has already toggled the session.
   */
  lemma SecondPressLeaksDeadline(h: Hold, target: Option<int>, now1: int, now2: int, p1: nat, p2: nat)
    requires p1 != p2 && !h.isLongPressing
    ensures var twice := Pressed(Pressed(h, true, target, now1, p1), true, target, now2, p2);
            var r := Released(twice);
            && IsTap(twice)
            && p1 + 1 in r.deadlines && r.deadlines[p1 + 1] == target && p1 in r.samplers
            && r.deadlineRef.None? && r.samplerRef.None?
            && !IsTap(DeadlineFired(r, p1 + 1))
  {
  }

  lemma PressArmsOnlyWhileTyping(h: Hold, isTyping: bool, target: Option<int>, now: int, p: nat)
    ensures !isTyping ==> Pressed(h, isTyping, target, now, p) == h.(completed := false)
    ensures isTyping ==>
              var r := Pressed(h, isTyping, target, now, p);
              && r.deadlines == h.deadlines[p + 1 := target] && r.deadlineRef == Some(p + 1)
              && r.samplers == h.samplers + {p} && r.samplerRef == Some(p)
              && r.pressStart == Some(now) && r.progress == 0.0 && !r.completed
  {
  }

  /**
   * Releasing and cancelling clear the gesture the same way: no refs, an
   * empty bar, nothing shown as holding, and no completed hold remembered;
   * doing it again changes nothing.
   */
  lemma ReleaseClearsHold(h: Hold)
    ensures var r := Released(h);
            && r.deadlineRef.None? && r.samplerRef.None? && r.pressStart.None?
            && r.progress == 0.0 && !r.isLongPressing && !r.completed && IsTap(r)
            && Released(r) == r
    ensures h.deadlineRef.Some? ==> h.deadlineRef.value !in Released(h).deadlines
    ensures h.samplerRef.Some? ==> h.samplerRef.value !in Released(h).samplers
  {
  }

  // ---------------------------------------------------------------------
  // Handles
  // ---------------------------------------------------------------------

  /**
   * Every armed interval, deadline and sampler has a handle below `next`, and
   * the interval ref names an armed interval.
   */
  ghost predicate HandlesBelow(t: Timer, h: Hold, next: nat)
  {
    && 1 <= next
    && (forall x :: x in t.intervals ==> x < next)
    && (forall x :: x in h.deadlines ==> x < next)
    && (forall x :: x in h.samplers ==> x < next)
    && (t.timerRef.Some? ==> t.timerRef.value in t.intervals)
  }

  // ---------------------------------------------------------------------
  // The component
  // ---------------------------------------------------------------------

  class Session {
    /** `MAX_WORD_LENGTH`, defined outside this model. */
    const maxWordLength: nat
    var words: Words
    var timer: Timer
    var hold: Hold
    /** The next handle `setTimeout`/`setInterval` will return. */
    var nextHandle: nat
    /** A hold deadline has run a reset since the last press started. */
    ghost var holdResetSincePress: bool

    /** The word state keeps the collection invariant. */
    ghost predicate WordsValid()
      reads this`words
    {
      WordsInvariant(words)
    }

    /** Handles are fresh when handed out, the bar stays within 100, and a hold reset is remembered. */
    ghost predicate TimersValid()
      reads this`timer, this`hold, this`nextHandle, this`holdResetSincePress
    {
      && HandlesBelow(timer, hold, nextHandle)
      && hold.progress <= 100.0
      && (holdResetSincePress ==> hold.completed)
    }

    /** The initial render's state. */
    constructor (maxWordLength: nat)
      ensures WordsValid() && TimersValid()
      ensures this.maxWordLength == maxWordLength
      ensures words == NoWords && timer == IdleTimer && hold == NoHold && nextHandle == 1
    {
      this.maxWordLength := maxWordLength;
      words := NoWords;
      timer := IdleTimer;
      hold := NoHold;
      nextHandle := 1;
      holdResetSincePress := false;
    }

    /**
     * `handleKeystroke`: append the lower-cased character, then collect the
     * longest trailing candidate that is a valid word not yet collected,
     * recording its range and recomputing the leading word.
     */
    method Keystroke(c: char)
      requires WordsValid()
      modifies this`words
      ensures words == AfterKeystroke(old(words), c, maxWordLength)
      ensures WordsValid()
    {
      KeystrokeKeepsInvariant(words, c, maxWordLength);
      var w := words.(stream := words.stream + [ToLower(c)]);
      var found := ScanTrailing(w.stream, w.wordSet, maxWordLength);
      if found.Some? {
        w := Collect(w, found.value);
      }
      words := w;
    }

    /**
     * `handleStart`: show the warm-up animation and arm the 600 ms start
     * callback. There is no guard: a second tap before the callback runs
     * arms a second one.
     */
    method Start()
      requires TimersValid()
      modifies this`timer
      ensures TimersValid()
      ensures timer == Started(old(timer))
    {
      timer := Started(timer);
    }

    /**
     * The oldest 600 ms start callback runs: the session is typing and a
     * fresh 100 ms interval is armed and referenced. An interval referenced
     * before is not cleared.
     */
    method FireStart(now: int)
      requires TimersValid()
      modifies this`timer, this`nextHandle
      ensures TimersValid()
      ensures old(timer.pendingStarts) == [] ==> timer == old(timer) && nextHandle == old(nextHandle)
      ensures old(timer.pendingStarts) != [] ==>
                && old(nextHandle) !in old(timer.intervals)
                && timer == StartFired(old(timer), old(nextHandle), now)
                && nextHandle == old(nextHandle) + 1
    {
      if timer.pendingStarts == [] {
        return;
      }
      var h := nextHandle;
      var capture := timer.pendingStarts[0];
      var t := timer.(pendingStarts := timer.pendingStarts[1..], isTimerStarting := false, isTyping := true);
      if capture.target.Some? && capture.target.value > 0 {
        t := t.(anchor := Some(now), intervals := t.intervals[h := Countdown(capture.target.value)]);
      } else {
        t := t.(anchor := Some(ResumeAnchor(now, capture.elapsed)), intervals := t.intervals[h := CountUp]);
      }
      timer := t.(timerRef := Some(h));
      nextHandle := h + 1;
    }

    /** One run of the 100 ms interval `h` at `now`. */
    method Tick(h: nat, now: int)
      requires TimersValid()
      modifies this`timer
      ensures TimersValid()
      ensures timer == Ticked(old(timer), h, now)
    {
      if h !in timer.intervals || !AnchorSet(timer) {
        return;
      }
      match timer.intervals[h]
      case CountUp =>
        timer := timer.(elapsedTime := SecondsSince(timer.anchor.value, now));
      case Countdown(target) =>
        var remaining := CountdownRemaining(target, timer.anchor.value, now);
        timer := timer.(elapsedTime := remaining);
        if remaining == 0 {
          Stop();
        }
    }

    /** `handleStop`. */
    method Stop()
      requires TimersValid()
      modifies this`timer
      ensures TimersValid()
      ensures timer == Stopped(old(timer))
    {
      var t := timer.(isTyping := false, isTimerStarting := false);
      if t.timerRef.Some? {
        t := t.(intervals := t.intervals - {t.timerRef.value}, timerRef := None);
      }
      timer := t;
    }

    /**
     * `handleReset`, with `target` the `targetTime` its caller's closure saw:
     * the timer is reset and the stream, the set, the collection, the ranges
     * and the leading word are emptied.
     */
    method Reset(target: Option<int>)
      requires TimersValid()
      modifies this`timer, this`words
      ensures TimersValid() && WordsValid()
      ensures timer == TimerReset(old(timer), target)
      ensures words == NoWords
    {
      Stop();
      timer := timer.(elapsedTime := if target.Some? then target.value else 0, anchor := None);
      words := NoWords;
    }

    /** `handleDurationSelect`. */
    method DurationSelect(seconds: int)
      requires TimersValid()
      modifies this`timer
      ensures TimersValid()
      ensures timer == DurationSelected(old(timer), seconds)
    {
      if !timer.isTyping {
        timer := timer.(targetTime := Some(seconds), elapsedTime := seconds);
      }
    }

    /** `handleButtonPressStart`: while typing, sampler and deadline get fresh handles. */
    method PressStart(now: int)
      requires TimersValid()
      modifies this`hold, this`nextHandle, this`holdResetSincePress
      ensures TimersValid()
      ensures hold == Pressed(old(hold), timer.isTyping, timer.targetTime, now, old(nextHandle))
      ensures timer.isTyping ==>
                && old(nextHandle) !in old(hold.samplers) && old(nextHandle) + 1 !in old(hold.deadlines)
                && nextHandle == old(nextHandle) + 2
      ensures !timer.isTyping ==> nextHandle == old(nextHandle)
      ensures !holdResetSincePress
    {
      holdResetSincePress := false;
      var h := hold.(completed := false);
      if timer.isTyping {
        var p := nextHandle;
        h := h.(progress := 0.0, pressStart := Some(now), samplers := h.samplers + {p}, samplerRef := Some(p));
        var d := p + 1;
        h := h.(deadlines := h.deadlines[d := timer.targetTime], deadlineRef := Some(d));
        nextHandle := p + 2;
      }
      hold := h;
    }

    /** One run of the 16 ms progress sampler `s` at `now`. */
    method ProgressTick(s: nat, now: int)
      requires TimersValid()
      modifies this`hold
      ensures TimersValid()
      ensures hold == Sampled(old(hold), s, now)
    {
      if s in hold.samplers && hold.pressStart.Some? && hold.pressStart.value != 0 {
        hold := hold.(progress := HoldProgress(hold.pressStart.value, now));
      }
    }

    /**
     * The 1500 ms deadline `d` runs: mark the hold completed, fill the bar,
     * run the full reset with the captured target, and queue the visual
     * settle. The deadline ref keeps the spent handle.
     */
    method FireDeadline(d: nat)
      requires TimersValid()
      modifies this`hold, this`timer, this`words, this`holdResetSincePress
      ensures TimersValid()
      ensures old(WordsValid()) || d in old(hold.deadlines) ==> WordsValid()
      ensures hold == DeadlineFired(old(hold), d)
      ensures d !in old(hold.deadlines) ==>
                timer == old(timer) && words == old(words) && holdResetSincePress == old(holdResetSincePress)
      ensures d in old(hold.deadlines) ==>
                timer == TimerReset(old(timer), old(hold.deadlines)[d]) && words == NoWords && holdResetSincePress
    {
      if d !in hold.deadlines {
        return;
      }
      var target := hold.deadlines[d];
      hold := hold.(deadlines := hold.deadlines - {d}, isLongPressing := true, completed := true, progress := 100.0,
                    settlesPending := hold.settlesPending + 1);
      holdResetSincePress := true;
      Reset(target);
    }

    /** The 100 ms settle after a completed hold. */
    method FireSettle()
      requires TimersValid()
      modifies this`hold
      ensures TimersValid()
      ensures hold == Settled(old(hold))
    {
      if hold.settlesPending > 0 {
        hold := hold.(settlesPending := hold.settlesPending - 1, isLongPressing := false, progress := 0.0);
      }
    }

    /**
     * `handleButtonPressEnd`: clear the referenced deadline and sampler; the
     * release is a tap that stops a typing session or starts one unless the
     * hold completed or is still shown as holding. A release after a hold
     * reset in the same press never toggles.
     */
    method PressEnd()
      requires TimersValid()
      modifies this`hold, this`timer, this`holdResetSincePress
      ensures TimersValid()
      ensures hold == Released(old(hold))
      ensures timer == if IsTap(old(hold)) then Toggled(old(timer)) else old(timer)
      ensures old(holdResetSincePress) ==> timer == old(timer)
      ensures !holdResetSincePress
    {
      var wasLongPress := hold.completed;
      var h := hold;
      if h.deadlineRef.Some? {
        h := h.(deadlines := h.deadlines - {h.deadlineRef.value}, deadlineRef := None);
      }
      if h.samplerRef.Some? {
        h := h.(samplers := h.samplers - {h.samplerRef.value}, samplerRef := None);
      }
      if !wasLongPress && !h.isLongPressing {
        if timer.isTyping {
          Stop();
        } else {
          Start();
        }
      }
      holdResetSincePress := false;
      hold := h.(isLongPressing := false, progress := 0.0, pressStart := None, completed := false);
    }

    /** `handleButtonPressCancel`: the release without the tap; it never stops or starts the session. */
    method PressCancel()
      requires TimersValid()
      modifies this`hold, this`holdResetSincePress
      ensures TimersValid()
      ensures hold == Released(old(hold))
      ensures !holdResetSincePress
    {
      var h := hold;
      if h.deadlineRef.Some? {
        h := h.(deadlines := h.deadlines - {h.deadlineRef.value}, deadlineRef := None);
      }
      if h.samplerRef.Some? {
        h := h.(samplers := h.samplers - {h.samplerRef.value}, samplerRef := None);
      }
      holdResetSincePress := false;
      hold := h.(isLongPressing := false, progress := 0.0, pressStart := None, completed := false);
    }
  }
}
