# Typer Monkey session engine, modelled in Dafny

Typer Monkey shows a monkey typing random letters. The page collects every
"word" that appears at the end of the typed stream and highlights it in a grid
of typed characters. A session timer runs either a countdown or a count-up. A
single button starts and stops the session on a tap and resets it when held for
1.5 s.

This project models the engine behind that page: the handlers of the `App`
component, the string helpers in `src/utils/wordDetector.ts`, and the pure
display logic of `TypingDisplay`.

Modules:

- `Wrappers`: `Option`.
- `Ascii`: the ASCII character classes, plus `toLowerCase` on characters and strings.
- `WordDetector`: covers `isValidWord`, `detectWords` and `getLastWord`.
  - `DetectWords` is a method with the source's loop.
  - It is proved against the function `Detected`.
  - `isValidWord` and `getLastWord` are functions.
  - Partners: `getLastWord` is compared with its regular expression, and `detectWords` has a round trip.
- `Ledger`: the word state of `handleKeystroke`, held in the record `Words`:
  - the stream;
  - `collectionSetRef` in insertion order;
  - the published collection;
  - the highlighted ranges;
  - the leading word.

  It also holds:
  - the longest-first scan loop, as the method `ScanTrailing`, proved against `NewWordLength`;
  - the leading-word rule;
  - the collection invariant `WordsInvariant`: no duplicates, every word valid, every range locates its word in the stream, and the leading word is a longest collected word.
- `App`: the class `Session`, whose methods are the handlers of `App.tsx`. The state is grouped into three records (`Words`, `Timer`, `Hold`), and each method updates in place the records its handler touches: `PressEnd`, `Reset` and `FireDeadline` update two or three. Each method is specified by a pure transition function, and the lemmas state what those functions promise.
- `TypingDisplay`: covers:
  - highlight membership;
  - the absolute cell index and the typed/cursor/glyph classification of every grid cell;
  - the `m:ss` time stat, with a parser as its partner;
  - the `Words` stat.
- `Scenarios`: concrete runs of the model that show the source's behaviour.
  - "type" collects "ty", "typ", "type".
  - A repeated word is not collected twice.
  - A countdown runs out.
  - A double tap leaks an interval.
  - A second press before a release leaks its predecessor's deadline. The tap then toggles the session, and the leaked deadline still resets it later. "At most one of reset or toggle" therefore holds per release, not per press.
  - A hold resets without toggling.

Scheduling is explicit:

- The callbacks the code keeps a handle for are numbered from one counter: the 100 ms timer intervals, the 16 ms progress samplers and the 1500 ms hold deadlines. The numbers are opaque: they are only distinct and positive, which is all browsers promise.
- An armed numbered callback is an entry keyed by its number. A ref holds an `Option` of a number.
- The callbacks the code never cancels are not numbered. The 600 ms start callbacks form a queue (`pendingStarts`), and the 100 ms settles are a count (`settlesPending`).
- `Date.now()` is the `now` parameter of the methods that read it: `PressStart`, `FireStart`, `Tick` and `ProgressTick`. `FireDeadline` and `FireSettle` do not read the clock.
- A callback whose handle was cleared does nothing.
- Callbacks keep the values of the render that created them:
  - the 600 ms start callback keeps `targetTime` and `elapsedTime`;
  - a countdown interval keeps its target;
  - the hold deadline keeps the `targetTime` its reset uses.

JavaScript arithmetic is written out:

- `Math.floor(x / 1000)` is Dafny's `/` by a positive divisor.
- `%` on a negative time truncates (`JsRem`).
- `slice(-0)` returns the whole string, so `StreamEnd` returns the whole stream when `MAX_WORD_LENGTH` is 0.

## Model

| member | source | states |
|---|---|---|
| Ascii.ToLower | src/App.tsx:44 | `toLowerCase` maps 'A'..'Z' to the matching lower-case letter and leaves every other character alone |
| Ascii.LowerStr | src/utils/wordDetector.ts:41 | lower-casing a string keeps its length and lowers each character in place |
| WordDetector.Clean | src/utils/wordDetector.ts:41 | `replace(/[^a-z]/g, '')` leaves only a-z and never lengthens the string |
| WordDetector.CleanLowerIsCleanOfLower | src/utils/wordDetector.ts:41 | lower-casing then cleaning keeps exactly the ASCII letters, lower-cased, in order |
| WordDetector.CleanLowerShape | src/utils/wordDetector.ts:41 | the cleaned form is a-z only and no longer than the input |
| WordDetector.CleanLowerCountsLetters | src/utils/wordDetector.ts:41-42 | the cleaned length equals the number of ASCII letters of either case |
| WordDetector.LetterCountPositive | src/utils/wordDetector.ts:41-42 | the string has at least one letter iff some position holds a letter |
| WordDetector.LetterCountTwo | src/utils/wordDetector.ts:41-42 | the string has at least two letters iff two distinct positions hold letters |
| WordDetector.ValidIffTwoLetters | src/utils/wordDetector.ts:40-43 | `isValidWord(w)` holds iff two distinct positions of `w` hold ASCII letters |
| WordDetector.CleanLowerOfLowercase | src/utils/wordDetector.ts:41 | cleaning a string of a-z only returns it unchanged |
| WordDetector.ValidLowercaseIffLength | src/utils/wordDetector.ts:41-42 | on a-z strings, which is all the keystroke engine passes, validity is exactly length >= 2 |
| WordDetector.LowerStrIdempotent | src/utils/wordDetector.ts:41 | lower-casing twice equals lower-casing once |
| WordDetector.ValidIgnoresCase | src/utils/wordDetector.ts:41 | `isValidWord(w) == isValidWord(w.toLowerCase())` |
| WordDetector.ValidWordLength | src/utils/wordDetector.ts:40-43 | a valid word has at least two characters |
| WordDetector.SkipWhitespace | src/utils/wordDetector.ts:9 | drops a leading whitespace run: the result is a suffix, it starts with a non-space, and it is shorter when the input starts with whitespace |
| WordDetector.SkipWhitespaceDropsWhitespace | src/utils/wordDetector.ts:9 | everything `SkipWhitespace` drops is whitespace |
| WordDetector.SplitFrom | src/utils/wordDetector.ts:9 | `split(/\s+/)` yields at least one token and no token contains whitespace; SplitWhitespaceDecomposes says what the tokens are |
| WordDetector.SplitWhitespace | src/utils/wordDetector.ts:9 | the tokens of the text: at least one, none containing whitespace; SplitWhitespaceDecomposes ties them to the text |
| WordDetector.GapsFrom | src/utils/wordDetector.ts:9 | definition: the whitespace runs the split cuts at, in order; see GapsAreWhitespace |
| WordDetector.Interleave | src/utils/wordDetector.ts:9 | definition: tokens and the runs between them, concatenated in turn; see SplitWhitespaceDecomposes |
| WordDetector.InterleaveCons | src/utils/wordDetector.ts:9 | putting a token and a run in front adds them in front of the concatenation |
| WordDetector.RejoinCons | src/utils/wordDetector.ts:9 | a token and a run `g` in front of a rejoin of `r` rejoin to the token followed by `g + r` |
| WordDetector.SplitAtGap | src/utils/wordDetector.ts:9 | a leading whitespace run ends the current token and is recorded as the first run |
| WordDetector.RejoinAtGap | src/utils/wordDetector.ts:9 | the rejoin step across a leading whitespace run |
| WordDetector.SplitFromRejoins | src/utils/wordDetector.ts:9 | the tokens and the runs between them, concatenated in turn, give back the current token followed by the rest of the text |
| WordDetector.GapsAreWhitespace | src/utils/wordDetector.ts:9 | every run the split cuts at is non-empty and all whitespace |
| WordDetector.SplitFromTokensNonEmpty | src/utils/wordDetector.ts:9 | every token but the first and the last is non-empty; the first is non-empty when something precedes the first run |
| WordDetector.SplitWhitespaceDecomposes | src/utils/wordDetector.ts:9 | `text.split(/\s+/)` cuts the text exactly at its maximal whitespace runs. The tokens with those runs put back give the text. Every run is non-empty whitespace, the inner tokens are non-empty, and the first token is empty exactly when the text is empty or starts with whitespace |
| WordDetector.IsValidWord | src/utils/wordDetector.ts:40-43 | definition of `isValidWord`; see ValidIffTwoLetters, ValidIgnoresCase and ValidLowercaseIffLength |
| WordDetector.Kept | src/utils/wordDetector.ts:14-19 | definition of what one token contributes; see KeepWordsMembership |
| WordDetector.KeepWords | src/utils/wordDetector.ts:12-20 | definition of the filter over the tokens; see KeepWordsAppend, KeepWordsAtMostOnePerToken and KeepWordsMembership |
| WordDetector.Detected | src/utils/wordDetector.ts:5-23 | definition of the value `detectWords` returns; see DetectedWellFormed and DetectedRoundTrip |
| WordDetector.JoinSpaces | src/utils/wordDetector.ts:5-23 | definition of the single-space join the round trip feeds back; see SplitJoin and DetectedRoundTrip |
| WordDetector.DetectWords | src/utils/wordDetector.ts:5-23 | the loop over tokens returns exactly `Detected(text)`: the cleaned tokens with two letters or more, in order |
| WordDetector.KeepWordsAppend | src/utils/wordDetector.ts:12-20 | tokens are handled independently: the words of `a + b` are the words of `a` followed by those of `b` |
| WordDetector.KeepWordsAtMostOnePerToken | src/utils/wordDetector.ts:12-20 | at most one word per token |
| WordDetector.KeepWordsMembership | src/utils/wordDetector.ts:12-20 | a word is detected iff it has at least 2 characters and some token cleans to it |
| WordDetector.KeepWordsWellFormed | src/utils/wordDetector.ts:13-19 | every kept word is a-z only with length >= 2 |
| WordDetector.DetectedWellFormed | src/utils/wordDetector.ts:5-23 | every word `detectWords` returns is a-z only with length >= 2 |
| WordDetector.JoinSpacesStartsWithFirst | src/utils/wordDetector.ts:9 | a space-joined list starts with the first character of its first word |
| WordDetector.SplitThroughWord | src/utils/wordDetector.ts:9 | splitting runs through a whitespace-free prefix by adding it to the current token |
| WordDetector.SplitAfterSpace | src/utils/wordDetector.ts:9 | one space before a non-space closes the current token and starts a new one |
| WordDetector.AllTokensIff | src/utils/wordDetector.ts:9 | the recursive token predicate is equivalent to "every word is non-empty and has no whitespace" |
| WordDetector.SplitJoin | src/utils/wordDetector.ts:9 | splitting a single-space join of non-empty, whitespace-free words gives the words back |
| WordDetector.KeepWordsOfCleanWords | src/utils/wordDetector.ts:13-19 | cleaned words of length >= 2 pass through the filter unchanged |
| WordDetector.DetectedRoundTrip | src/utils/wordDetector.ts:5-23 | `detectWords(detectWords(t).join(' ')) == detectWords(t)` |
| WordDetector.TrimmedEnd | src/utils/wordDetector.ts:30 | the end of the text with trailing `\s*` removed: all after it is whitespace and the character before it is not |
| WordDetector.LetterRunStart | src/utils/wordDetector.ts:30 | the start of the maximal letter run ending at a position |
| WordDetector.GetLastWord | src/utils/wordDetector.ts:28-35 | the result is null or a non-empty a-z string |
| WordDetector.GetLastWordMatchesRegex | src/utils/wordDetector.ts:28-35 | the result is non-null iff `/([a-zA-Z]+)\s*$/` matches, and it is group 1 of the leftmost match, lower-cased |
| Ledger.StreamEnd | src/App.tsx:49 | `slice(-MAX_WORD_LENGTH)` is a suffix of the stream, of length `min(length, MAX_WORD_LENGTH)` when the constant is positive |
| Ledger.LongestFrom | src/App.tsx:52-61 | a found length lies between 1 and the starting length |
| Ledger.NewWordLength | src/App.tsx:49-61 | definition of the length detection picks; see NewWordLengthIsLongest and ScanTrailing |
| Ledger.LongestFromIsLongest | src/App.tsx:52-61 | the downward scan returns the largest qualifying length (valid, not collected), or nothing when none qualifies |
| Ledger.NewWordLengthIsLongest | src/App.tsx:49-61 | detection returns `n` iff `n` is the longest qualifying trailing length up to `min(length, MAX_WORD_LENGTH)`, and nothing iff no length qualifies |
| Ledger.ScanTrailing | src/App.tsx:49-61 | the `for` loop with `break` returns exactly `NewWordLength` |
| Ledger.MaxLen | src/App.tsx:78 | `Math.max(...lengths)`: an upper bound reached by some word, 0 for an empty list |
| Ledger.EarliestLongest | src/App.tsx:85-89 | the first index holding a word of maximal length |
| Ledger.FoldLongest | src/App.tsx:85-89 | definition of the strict `>` reduce; see FoldKeepsLongest and FoldFindsEarliest |
| Ledger.LeadingAfter | src/App.tsx:78-90 | definition of the leading-word rule; see LeadingAfterIsLongest and RecencyLeaderDisplaced |
| Ledger.FoldKeepsLongest | src/App.tsx:85-89 | the strict `>` fold keeps its accumulator when nothing is longer |
| Ledger.FoldFindsEarliest | src/App.tsx:85-89 | the strict `>` fold returns the earliest word of maximal length |
| Ledger.LeadingAfterIsLongest | src/App.tsx:78-90 | after a detection the leading word is a collected word of maximal length: the new word when its length equals the maximum, otherwise the earliest word of maximal length |
| Ledger.RecencyLeaderDisplaced | src/App.tsx:80-89 | a tie chosen by recency ("def" after "abc") is displaced by the first tied word ("abc") once a shorter word is added |
| Ledger.CollectedIff | src/App.tsx:54-73 | the inductive collection history is equivalent to: no duplicates, one valid range per word, each locating its word in the stream |
| Ledger.CollectedRecorded | src/App.tsx:54-73 | an inductively built history has one distinct, located word per range |
| Ledger.RecordedCollected | src/App.tsx:54-73 | such a set of words and ranges can be built inductively |
| Ledger.CollectedExtend | src/App.tsx:43-44 | appending a character keeps every recorded range and word located |
| Ledger.CollectExtendsCollected | src/App.tsx:54-73 | recording the detected word and its range extends the history |
| Ledger.Collect | src/App.tsx:54-90 | definition of recording a detection; see CollectKeepsInvariant |
| Ledger.AfterKeystroke | src/App.tsx:38-92 | definition of `handleKeystroke` on the word state; see KeystrokeKeepsInvariant, KeystrokeCollectsLongest and KeystrokeWithoutWord |
| Ledger.CollectKeepsInvariant | src/App.tsx:54-90 | recording a detection keeps the collection invariant: no duplicates, ranges match stream slices, the collection equals the set in insertion order, the leading word is maximal |
| Ledger.KeystrokeKeepsInvariant | src/App.tsx:38-92 | every keystroke keeps the collection invariant |
| Ledger.KeystrokeCollectsLongest | src/App.tsx:43-90 | on a detection of length `n`: the stream grows by the lower-cased character; the set and collection grow by exactly the new suffix; one range `(len-n, len)` is appended; the leading word is recomputed |
| Ledger.KeystrokeWithoutWord | src/App.tsx:43-67 | when no length qualifies, only the stream changes |
| App.CountdownRemaining | src/App.tsx:107-108 | `max(0, target - elapsed)`: never negative, 0 exactly when the target has elapsed, otherwise remaining plus elapsed equals the target |
| App.CountUpResumeKeepsElapsed | src/App.tsx:120-123 | back-dating the anchor by `elapsedTime` seconds shows `elapsedTime` at once and `elapsedTime` plus the new seconds later |
| App.HoldProgress | src/App.tsx:166-167 | `min(100, elapsed / 1500 * 100)`: at most 100, not negative once the press has started, and 100 from 1500 ms on |
| App.HoldProgressMonotone | src/App.tsx:166-167 | the progress never decreases as time passes |
| App.Cleared | src/App.tsx:133-135 | `clearInterval(ref)` disarms the referenced callback; every other armed callback stays armed and unchanged, and nothing new is armed |
| App.ClearingTwice | src/App.tsx:133-135 | clearing the same ref twice is the same as clearing it once |
| App.StopClearsReferenced | src/App.tsx:130-137 | stopping clears typing, starting and the ref, removes only the referenced interval, keeps the display and anchor, and is idempotent; without a leaked interval none stays armed |
| App.DurationSelectedCountsDown | src/App.tsx:237-242 | choosing a duration is ignored while typing. Otherwise the display shows the chosen seconds at once. With no start pending, the next start arms a countdown from them whose first tick shows them. During the 600 ms warm-up the choice is shown, but the pending start keeps the mode and anchor it captured at the tap |
| App.WarmUpDurationIgnored | src/App.tsx:94-127 | a 30 s duration chosen during the warm-up of a count-up start leaves the target at 30, but the session counts up from 0 |
| App.ResetIdempotent | src/App.tsx:139-154 | reset is idempotent and leaves the session stopped, unreferenced and unanchored, showing `targetTime` if it is non-null and 0 otherwise; it disarms only the referenced interval, so none stays armed absent a leak, and a leaked interval firing afterwards changes nothing |
| App.CountdownTick | src/App.tsx:105-116 | a countdown tick shows the remaining seconds; once the target has elapsed it shows 0 and stops the session, and before that only the display changes |
| App.CountUpResumes | src/App.tsx:117-125 | a count-up restart shows the captured seconds plus those since the restart, so the session keeps typing and no time is lost |
| App.CountdownRestartsFromTarget | src/App.tsx:102-109 | a resumed countdown anchors at `Date.now()` and shows its full target again |
| App.DoubleStartLeaksInterval | src/App.tsx:94-137 | two starts before the first callback arm two intervals; the ref keeps only the second, so stopping leaves the first armed |
| App.HoldResetIsNotTap | src/App.tsx:173-202 | after the deadline runs, the release is not a tap and a settle is queued; a fresh press is a tap unless a completed hold is still shown |
| App.SecondPressLeaksDeadline | src/App.tsx:156-216 | after two presses and one release, the release is a tap, and the first press's deadline and sampler stay armed with the captured target; that deadline still completes a hold |
| App.PressArmsOnlyWhileTyping | src/App.tsx:156-185 | while typing, a press arms sampler `p` and deadline `p + 1`, which keeps the target its reset will use. Otherwise it only clears the completed flag. That these numbers are fresh is stated by `App.Session.PressStart` |
| App.ReleaseClearsHold | src/App.tsx:187-234 | release and cancel clear both refs, the bar, the holding display and the completed flag, remove the referenced handles, and are idempotent |
| App.Stopped | src/App.tsx:130-137 | definition of `handleStop`; see StopClearsReferenced |
| App.Started | src/App.tsx:94-99 | definition of `handleStart` up to the deferred callback; see DoubleStartLeaksInterval |
| App.StartFired | src/App.tsx:99-127 | definition of the 600 ms start callback; see CountUpResumes and CountdownRestartsFromTarget |
| App.Ticked | src/App.tsx:105-125 | definition of one run of a 100 ms interval; see CountdownTick and CountUpResumes |
| App.TimerReset | src/App.tsx:139-147 | definition of the timer part of `handleReset`; see ResetIdempotent |
| App.DurationSelected | src/App.tsx:237-242 | definition of `handleDurationSelect`; see DurationSelectedCountsDown |
| App.Toggled | src/App.tsx:202-208 | definition of the tap: stop while typing, start otherwise; see App.Session.PressEnd |
| App.Pressed | src/App.tsx:156-185 | definition of `handleButtonPressStart`; see PressArmsOnlyWhileTyping |
| App.Sampled | src/App.tsx:164-170 | definition of one run of the progress sampler; see HoldProgress |
| App.DeadlineFired | src/App.tsx:173-183 | definition of the hold part of the 1500 ms deadline; see HoldResetIsNotTap |
| App.Settled | src/App.tsx:179-182 | definition of the 100 ms settle |
| App.Released | src/App.tsx:187-234 | definition of what release and cancel both do to the gesture; see ReleaseClearsHold |
| App.IsTap | src/App.tsx:202 | definition of the tap condition; see HoldResetIsNotTap and App.Session.PressEnd |
| App.Session.constructor | src/App.tsx:16-34 | the initial state: empty words, idle timer, no gesture, handles start at 1 |
| App.Session.Keystroke | src/App.tsx:38-92 | the new word state is `AfterKeystroke` of the old one, and the collection invariant is kept |
| App.Session.Start | src/App.tsx:94-99 | shows the start animation and queues a callback that captures the current target and elapsed time |
| App.Session.FireStart | src/App.tsx:99-127 | the first queued start callback arms a countdown or count-up interval under a fresh handle and makes it the ref; with none queued, nothing changes |
| App.Session.Tick | src/App.tsx:105-125 | one run of interval `h`, per `Ticked` (see CountdownTick and CountUpResumes) |
| App.Session.Stop | src/App.tsx:130-137 | the timer becomes `Stopped` of the old one (see StopClearsReferenced) |
| App.Session.Reset | src/App.tsx:139-154 | the timer becomes `TimerReset` of the old one and the word state is emptied |
| App.Session.DurationSelect | src/App.tsx:237-242 | sets target and display while not typing, otherwise changes nothing |
| App.Session.PressStart | src/App.tsx:156-185 | the gesture becomes `Pressed`, using two fresh handles only while typing (see PressArmsOnlyWhileTyping) |
| App.Session.ProgressTick | src/App.tsx:164-170 | an armed sampler sets the bar to `HoldProgress` |
| App.Session.FireDeadline | src/App.tsx:173-183 | an armed deadline marks the hold completed, fills the bar, and runs the full reset with its captured target, after which the collection invariant holds; a cleared one changes nothing and keeps the invariant |
| App.Session.FireSettle | src/App.tsx:179-182 | a pending settle clears the holding display and the bar |
| App.Session.PressEnd | src/App.tsx:187-216 | clears the gesture; toggles (stop if typing, else start) exactly when the press is a tap; never toggles after a hold reset in the same press |
| App.Session.PressCancel | src/App.tsx:218-234 | clears the gesture like a release and never touches the timer |
| TypingDisplay.IsCharHighlighted | src/components/typing/TypingDisplay.tsx:27-31 | an index is highlighted iff some range has `start <= i < end` |
| TypingDisplay.HighlightMembership | src/components/typing/TypingDisplay.tsx:27-31 | an empty range list highlights nothing, and an index inside any range is highlighted |
| TypingDisplay.HighlightWithinStream | src/components/typing/TypingDisplay.tsx:27-31 | on an engine state, a highlighted index lies inside the stream, and an index inside a word's range is highlighted and falls within that word |
| TypingDisplay.CellIndex | src/components/typing/TypingDisplay.tsx:60-64 | definition of `lineStartIndex + charIndex`; see CellIndexDecodes |
| TypingDisplay.RenderCell | src/components/typing/TypingDisplay.tsx:64-77 | definition of one cell's glyph and flags; see GridCell |
| TypingDisplay.CellIndexDecodes | src/components/typing/TypingDisplay.tsx:60-64 | the absolute index of cell (line, char) is `pageStart + line*charsPerLine + char`, and line and char are recovered by `/` and `%` |
| TypingDisplay.DivModUnique | src/components/typing/TypingDisplay.tsx:60-64 | quotient and remainder are unique, which lets the cell index be decoded |
| TypingDisplay.RenderLine | src/components/typing/TypingDisplay.tsx:63-77 | each line has exactly `charsPerLine` cells; a cell shows the line's character or a space past its end, typed iff below the stream length, cursor iff equal to it, highlighted per `isCharHighlighted` |
| TypingDisplay.RenderGrid | src/components/typing/TypingDisplay.tsx:59-83 | one rendered line per text line, each starting at `pageStart + lineIndex*charsPerLine` |
| TypingDisplay.GridCell | src/components/typing/TypingDisplay.tsx:59-77 | the full classification of any grid cell; no cell is both typed and cursor |
| TypingDisplay.TypedCellsArePrefix | src/components/typing/TypingDisplay.tsx:66 | cells before a typed cell are typed, so the typed cells form a prefix |
| TypingDisplay.OneCursor | src/components/typing/TypingDisplay.tsx:67 | at most one cell is the cursor, and it is the cell whose index equals the stream length when that lies on the page |
| TypingDisplay.NatToString | src/components/typing/TypingDisplay.tsx:48 | `toString()` of a natural number is non-empty decimal digits without a leading zero, a single digit iff below 10 |
| TypingDisplay.ParseNatToString | src/components/typing/TypingDisplay.tsx:48 | reading the digits back gives the number |
| TypingDisplay.PadStart2 | src/components/typing/TypingDisplay.tsx:48 | `padStart(2, '0')` keeps the string as its suffix, pads with '0' only, and reaches length 2 |
| TypingDisplay.JsRem | src/components/typing/TypingDisplay.tsx:48 | JavaScript `%`: the mathematical remainder for t >= 0, and the sign of the dividend for t < 0 |
| TypingDisplay.FormatTime | src/components/typing/TypingDisplay.tsx:48 | definition of the `m:ss` stat; see FormatTimeReadsBack |
| TypingDisplay.FormatTimeReadsBack | src/components/typing/TypingDisplay.tsx:48 | for t >= 0 the stat is minutes, ':', then exactly two second digits below 60, with minutes*60 + seconds = t |
| TypingDisplay.WordsStat | src/components/typing/TypingDisplay.tsx:43 | definition of the Words stat; see WordsStatCountsDistinct |
| TypingDisplay.DistinctCount | src/components/typing/TypingDisplay.tsx:43 | a list without duplicates has as many distinct elements as entries |
| TypingDisplay.WordsStatCountsDistinct | src/components/typing/TypingDisplay.tsx:43 | on an engine state the Words stat equals the number of distinct collected words and the number of ranges |
| Scenarios.TypingCollectsPrefixes | src/App.tsx:38-92 | typing "type" with a maximum length of 8 collects "ty", "typ", "type" with ranges (0,2), (0,3), (0,4), and the leading word is "type" |
| Scenarios.WholeStreamCollected | src/App.tsx:49-61 | an uncollected a-z stream of 2 to MAX_WORD_LENGTH characters is detected whole |
| Scenarios.NewLongestLeads | src/App.tsx:78-82 | a new word at least as long as every collected word becomes the leading word |
| Scenarios.TypeT | src/App.tsx:43-67 | one letter collects nothing |
| Scenarios.TypeY | src/App.tsx:43-90 | "ty" is collected with range (0,2) |
| Scenarios.TypeP | src/App.tsx:43-90 | "typ" is collected with range (0,3) and leads |
| Scenarios.TypeE | src/App.tsx:43-90 | "type" is collected with range (0,4) and leads |
| Scenarios.RepeatedWordNotCollectedTwice | src/App.tsx:49-61 | typing "abab" with a maximum length of 2 collects only "ab" and "ba"; the second "ab" is skipped |
| Scenarios.TypeA | src/App.tsx:43-67 | one letter collects nothing |
| Scenarios.TypeAB | src/App.tsx:43-90 | "ab" is collected with range (0,2) |
| Scenarios.TypeABA | src/App.tsx:43-90 | "ba" is collected with range (1,3) and leads by recency |
| Scenarios.TypeABAB | src/App.tsx:52-61 | the already collected "ab" is not detected again, so nothing changes but the stream |
| Scenarios.CountdownRunsOut | src/App.tsx:102-116 | a 30 s countdown ticked at 31 s shows 0, stops, and leaves no interval armed |
| Scenarios.DoubleTapLeaks | src/App.tsx:94-137 | after two starts and one stop, the first interval stays armed and keeps updating the display of a stopped session |
| Scenarios.SecondPressResetsAfterTap | src/App.tsx:156-216 | two presses while typing and one release: the tap stops the session, then the first deadline resets it and leaves the hold shown as completed |
| Scenarios.HoldResetsWithoutToggle | src/App.tsx:156-216 | press, deadline, release while typing: the session is reset to its target and stopped, and the release does not restart it |

## Left out

- The WPM stat (src/components/typing/TypingDisplay.tsx:23-24) is left out: it uses floating-point division and `Math.round`.
- The `Chars` stat is left out: it only displays its input.
- The unmount cleanup (src/App.tsx:264-277) is left out: it only runs when the component is destroyed, and nothing observable follows.
- The JSX, the `window.threeApp` bridge and dev-mode effects, the auth and profile gating, and the monkey keystroke generator are left out. The generator is replaced by calls to `Keystroke`.
- `MAX_WORD_LENGTH` is the `maxWordLength` parameter of the session. The file that defines it is not part of this model.
- Unicode is not modelled. `toLowerCase` folds only 'A'..'Z', and `\s` is the six ASCII whitespace characters.
- Real time is not modelled. `Date.now()` is a parameter, and callbacks run only when their Fire/Tick method is called, in any order a caller chooses.
- The model does not enforce the 16 ms, 100 ms, 600 ms and 1500 ms delays themselves.
- React render batching, and StrictMode double-invoking the `setTypingStream` updater, are not modelled.
  - Each handler is one atomic step.
  - The `isTyping` and `isLongPressing` that `handleButtonPressEnd` reads are the current state, not a stale render.
- The state is grouped into three records (`Words`, `Timer`, `Hold`) that the class fields hold. The model does not capture each React state as its own variable.
- `collectionSetRef` is a sequence in insertion order, which is also the order `Array.from` publishes it in.
- App.HoldProgress: the source computes this ratio in IEEE double precision, and the model computes it as an exact `real`. Rounding is not modelled. The upper bound of 100 comes from `Math.min` in both, and rounded division and multiplication by positive constants are monotone, so the bounds and the monotonicity carry over; that argument is not proved here.
- TypingDisplay.FormatTimeReadsBack: stated only for t >= 0. `FormatTime` on a negative t is modelled (floor minutes and a truncated, negative remainder), but no read-back is claimed for it.
- Scenarios.CountdownRunsOut and Scenarios.DoubleTapLeaks: these start the session with `Start` directly rather than through `PressStart`/`PressEnd`. `PressEnd` is proved to call the same toggle.
- Scenarios.HoldResetsWithoutToggle does not type any keystrokes before the press. Its reset empties whatever word state there was.
- A duration chosen during the 600 ms start animation is shown, but the pending start callback still runs in the mode and from the time it captured at the tap. For example, a 30 s countdown chosen then displays 30 as the target while the session counts up from 0 (see `App.WarmUpDurationIgnored`).
- A second press before a release overwrites the sampler and deadline refs without clearing them. The first press's deadline stays armed and resets the session 1500 ms after that press, even after the second release has toggled it (see `App.SecondPressLeaksDeadline` and `Scenarios.SecondPressResetsAfterTap`).
- The code has no double-start guard. A tap during the 600 ms start animation queues a second start. Starting while a start is pending is therefore not a no-op: it queues a second start callback (see `App.DoubleStartLeaksInterval`).
- Word validity is the concrete rule of `isValidWord`: two ASCII letters after lower-casing. It is not a dictionary lookup, so typing "type" collects "ty", "typ" and "type".
