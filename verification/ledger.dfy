/**
 * The pure parts of the keystroke handler in src/App.tsx: which trailing
 * substring of the stream is detected as a new word (longest first), and which
 * collected word becomes the leading word. The session class in module App
 * runs these on its own state.
 */
module Ledger {
  import opened Wrappers
  import opened Ascii
  import opened WordDetector

  /** `HighlightedRange` of src/models/typing.ts: the half-open index interval [start, end) of the stream. */
  datatype Range = Range(start: int, end: int)

  /** No word appears twice (a JavaScript `Set` seen in insertion order). */
  predicate NoDuplicates(words: seq<string>)
  {
    forall i, j :: 0 <= i < j < |words| ==> words[i] != words[j]
  }

  // ---------------------------------------------------------------------
  // Trailing-word detection
  // ---------------------------------------------------------------------

  /** The last `n` characters of `s`. */
  function Suffix(s: string, n: nat): string
    requires n <= |s|
  {
    s[|s| - n..]
  }

  /** The longest candidate length tried: `Math.min(streamEnd.length, MAX_WORD_LENGTH)`. */
  function ScanBound(stream: string, maxWordLength: nat): nat
  {
    if |stream| < maxWordLength then |stream| else maxWordLength
  }

  /** The trailing `n` characters form a valid word that has not been collected yet. */
  predicate Qualifies(stream: string, collected: seq<string>, n: nat)
  {
    1 <= n <= |stream| && IsValidWord(Suffix(stream, n)) && Suffix(stream, n) !in collected
  }

  /** `n` is the longest candidate length within the scan bound that qualifies. */
  predicate IsLongestQualifying(stream: string, collected: seq<string>, maxWordLength: nat, n: nat)
  {
    && n <= ScanBound(stream, maxWordLength)
    && Qualifies(stream, collected, n)
    && forall m :: n < m <= ScanBound(stream, maxWordLength) ==> !Qualifies(stream, collected, m)
  }

  /** No candidate length within the scan bound qualifies. */
  predicate NoneQualifies(stream: string, collected: seq<string>, maxWordLength: nat)
  {
    forall m :: 1 <= m <= ScanBound(stream, maxWordLength) ==> !Qualifies(stream, collected, m)
  }

  /** `newStream.slice(-MAX_WORD_LENGTH)`; note that `slice(-0)` is the whole string. */
  function StreamEnd(stream: string, maxWordLength: nat): (streamEnd: string)
    ensures |streamEnd| <= |stream| && streamEnd == stream[|stream| - |streamEnd|..]
    ensures maxWordLength > 0 ==> |streamEnd| == ScanBound(stream, maxWordLength)
  {
    if maxWordLength == 0 || maxWordLength >= |stream| then stream
    else stream[|stream| - maxWordLength..]
  }

  /** The longest length in 1..`length` whose trailing candidate qualifies, if any. */
  function LongestFrom(stream: string, collected: seq<string>, length: nat): (r: Option<nat>)
    ensures r.Some? ==> 1 <= r.value <= length
  {
    if length == 0 then None
    else if Qualifies(stream, collected, length) then Some(length)
    else LongestFrom(stream, collected, length - 1)
  }

  /** The length of the word a keystroke detects at the end of `stream`, if any. */
  function NewWordLength(stream: string, collected: seq<string>, maxWordLength: nat): Option<nat>
  {
    LongestFrom(stream, collected, ScanBound(stream, maxWordLength))
  }

  lemma {:induction false} LongestFromIsLongest(stream: string, collected: seq<string>, length: nat)
    ensures LongestFrom(stream, collected, length).Some? ==>
              && Qualifies(stream, collected, LongestFrom(stream, collected, length).value)
              && forall m :: LongestFrom(stream, collected, length).value < m <= length ==>
                               !Qualifies(stream, collected, m)
    ensures LongestFrom(stream, collected, length).None? ==>
              forall m :: 1 <= m <= length ==> !Qualifies(stream, collected, m)
  {
    if length > 0 && !Qualifies(stream, collected, length) {
      LongestFromIsLongest(stream, collected, length - 1);
    }
  }

  /**
   * The detected length is exactly the longest qualifying one: it is `n` if
   * and only if `n` is the longest qualifying length, and there is none if
   * and only if no length within the scan bound qualifies.
   */
  lemma NewWordLengthIsLongest(stream: string, collected: seq<string>, maxWordLength: nat)
    ensures forall n: nat :: NewWordLength(stream, collected, maxWordLength) == Some(n) <==>
                          IsLongestQualifying(stream, collected, maxWordLength, n)
    ensures NewWordLength(stream, collected, maxWordLength).None? <==>
              NoneQualifies(stream, collected, maxWordLength)
  {
    LongestFromIsLongest(stream, collected, ScanBound(stream, maxWordLength));
  }

  /**
   * The detection loop of `handleKeystroke`: try the trailing candidates of the
   * new stream from the longest down to length 1 and stop at the first that is
   * a valid word not in `collected`. The result is that candidate's length.
   */
  method ScanTrailing(stream: string, collected: seq<string>, maxWordLength: nat) returns (found: Option<nat>)
    ensures found == NewWordLength(stream, collected, maxWordLength)
  {
    found := None;
    var streamEnd := StreamEnd(stream, maxWordLength);
    var length := if |streamEnd| < maxWordLength then |streamEnd| else maxWordLength;
    while length >= 1
      invariant 0 <= length <= ScanBound(stream, maxWordLength)
      invariant NewWordLength(stream, collected, maxWordLength) == LongestFrom(stream, collected, length)
      invariant found.None?
    {
      var candidateWord := streamEnd[|streamEnd| - length..];
      assert candidateWord == Suffix(stream, length);
      if IsValidWord(candidateWord) && candidateWord !in collected {
        found := Some(length);
        break;
      }
      length := length - 1;
    }
  }

  // ---------------------------------------------------------------------
  // Leading word
  // ---------------------------------------------------------------------

  /** `Math.max(...words.map(w => w.length))`, taken as 0 for no words. */
  function MaxLen(words: seq<string>): (m: nat)
    ensures forall i :: 0 <= i < |words| ==> |words[i]| <= m
    ensures words != [] ==> exists i :: 0 <= i < |words| && |words[i]| == m
    ensures words == [] ==> m == 0
  {
    if words == [] then 0
    else
      var rest := MaxLen(words[1..]);
      if |words[0]| >= rest then |words[0]| else rest
  }

  /** `longest?.length || 0`. */
  function LengthOrZero(longest: Option<string>): nat
  {
    if longest.Some? then |longest.value| else 0
  }

  /** `words.reduce((longest, w) => w.length > (longest?.length || 0) ? w : longest, longest)`. */
  function FoldLongest(words: seq<string>, longest: Option<string>): Option<string>
  {
    if words == [] then longest
    else FoldLongest(words[1..], if |words[0]| > LengthOrZero(longest) then Some(words[0]) else longest)
  }

  /**
   * The leading word after `word` has been added to `collection`: `word` itself
   * when its length equals the maximum, otherwise the fold started from
   * `collection[0] || null`.
   */
  function LeadingAfter(collection: seq<string>, word: string): Option<string>
  {
    var maxLength := if |collection| > 0 then MaxLen(collection) else 0;
    if |word| == maxLength then Some(word)
    else FoldLongest(collection, if |collection| > 0 && collection[0] != "" then Some(collection[0]) else None)
  }

  /** The first index holding a word of maximal length. */
  function EarliestLongest(words: seq<string>): (i: nat)
    requires words != []
    ensures i < |words| && |words[i]| == MaxLen(words)
    ensures forall j :: 0 <= j < i ==> |words[j]| < MaxLen(words)
  {
    if |words[0]| == MaxLen(words) then 0
    else
      var i := 1 + EarliestLongest(words[1..]);
      assert words[i] == words[1..][i - 1];
      assert forall j :: 1 <= j < i ==> words[j] == words[1..][j - 1];
      i
  }

  lemma {:induction false} FoldKeepsLongest(words: seq<string>, longest: Option<string>)
    requires forall i :: 0 <= i < |words| ==> |words[i]| <= LengthOrZero(longest)
    ensures FoldLongest(words, longest) == longest
  {
    if words != [] {
      FoldKeepsLongest(words[1..], longest);
    }
  }

  /** The strict `>` makes the fold pick the earliest word of maximal length. */
  lemma {:induction false} FoldFindsEarliest(words: seq<string>, longest: Option<string>, i: nat)
    requires i < |words| && |words[i]| == MaxLen(words) && MaxLen(words) > LengthOrZero(longest)
    requires forall j :: 0 <= j < i ==> |words[j]| < MaxLen(words)
    ensures FoldLongest(words, longest) == Some(words[i])
  {
    var next := if |words[0]| > LengthOrZero(longest) then Some(words[0]) else longest;
    if i == 0 {
      FoldKeepsLongest(words[1..], next);
    } else {
      assert words[1..][i - 1] == words[i];
      FoldFindsEarliest(words[1..], next, i - 1);
    }
  }

  /**
   * After a detection the leading word has maximal length among the collected
   * words: it is the new word when that has the maximal length, and otherwise
   * the earliest-discovered word of maximal length.
   */
  lemma LeadingAfterIsLongest(collection: seq<string>, word: string)
    requires word in collection
    requires forall i :: 0 <= i < |collection| ==> collection[i] != ""
    ensures LeadingAfter(collection, word).Some?
    ensures LeadingAfter(collection, word).value in collection
    ensures |LeadingAfter(collection, word).value| == MaxLen(collection)
    ensures |word| == MaxLen(collection) ==> LeadingAfter(collection, word) == Some(word)
    ensures |word| != MaxLen(collection) ==>
              LeadingAfter(collection, word) == Some(collection[EarliestLongest(collection)])
  {
    if |word| != MaxLen(collection) {
      var i := EarliestLongest(collection);
      var start := Some(collection[0]);
      if i == 0 {
        FoldKeepsLongest(collection, start);
      } else {
        FoldFindsEarliest(collection, start, i);
      }
    }
  }

  /**
   * The recency-won leading word is not stable: "def" leads ["abc", "def"]
   * (equal length, newest wins), and adding the shorter "gh" hands the lead
   * back to the first-discovered "abc".
   */
  lemma RecencyLeaderDisplaced()
    ensures LeadingAfter(["abc", "def"], "def") == Some("def")
    ensures LeadingAfter(["abc", "def", "gh"], "gh") == Some("abc")
  {
    var words := ["abc", "def", "gh"];
    assert MaxLen(words) == 3;
    LeadingAfterIsLongest(words, "gh");
    assert EarliestLongest(words) == 0;
  }

  // ---------------------------------------------------------------------
  // Collection invariant
  // ---------------------------------------------------------------------

  /** Range `r` lies inside `stream` and spells `word` there. */
  predicate Locates(stream: string, r: Range, word: string)
  {
    0 <= r.start <= r.end <= |stream| && stream[r.start..r.end] == word
  }

  /**
   * The words of `wordSet` were collected, in order, at the ranges of
   * `ranges`: stated from the newest word back, each one is valid, is not
   * among the words before it, and its range spells it in `stream`.
   */
  ghost predicate Collected(stream: string, wordSet: seq<string>, ranges: seq<Range>)
    decreases |wordSet|
  {
    && |ranges| == |wordSet|
    && (wordSet != [] ==>
          var n := |wordSet| - 1;
          && Collected(stream, wordSet[..n], ranges[..n])
          && IsValidWord(wordSet[n])
          && wordSet[n] !in wordSet[..n]
          && Locates(stream, ranges[n], wordSet[n]))
  }

  /** The words are distinct and valid, and range k spells word k in the stream. */
  predicate Recorded(stream: string, wordSet: seq<string>, ranges: seq<Range>)
  {
    && |ranges| == |wordSet|
    && NoDuplicates(wordSet)
    && (forall k :: 0 <= k < |wordSet| ==> IsValidWord(wordSet[k]))
    && (forall k :: 0 <= k < |wordSet| && k < |ranges| ==> Locates(stream, ranges[k], wordSet[k]))
  }

  /** `Collected` says exactly that the words are recorded at their ranges. */
  lemma CollectedIff(stream: string, wordSet: seq<string>, ranges: seq<Range>)
    ensures Collected(stream, wordSet, ranges) <==> Recorded(stream, wordSet, ranges)
  {
    if Collected(stream, wordSet, ranges) {
      CollectedRecorded(stream, wordSet, ranges);
    }
    if Recorded(stream, wordSet, ranges) {
      RecordedCollected(stream, wordSet, ranges);
    }
  }

  lemma {:induction false} CollectedRecorded(stream: string, wordSet: seq<string>, ranges: seq<Range>)
    requires Collected(stream, wordSet, ranges)
    ensures Recorded(stream, wordSet, ranges)
    decreases |wordSet|
  {
    if wordSet != [] {
      var n := |wordSet| - 1;
      var ws, rs := wordSet[..n], ranges[..n];
      CollectedRecorded(stream, ws, rs);
      assert forall k :: 0 <= k < n ==> ws[k] == wordSet[k] && rs[k] == ranges[k];
      assert forall k :: 0 <= k < n ==> wordSet[k] != wordSet[n] by {
        forall k | 0 <= k < n
          ensures wordSet[k] != wordSet[n]
        {
          assert ws[k] in ws;
        }
      }
    }
  }

  lemma {:induction false} RecordedCollected(stream: string, wordSet: seq<string>, ranges: seq<Range>)
    requires Recorded(stream, wordSet, ranges)
    ensures Collected(stream, wordSet, ranges)
    decreases |wordSet|
  {
    if wordSet != [] {
      var n := |wordSet| - 1;
      var ws, rs := wordSet[..n], ranges[..n];
      assert forall k :: 0 <= k < n ==> ws[k] == wordSet[k] && rs[k] == ranges[k];
      assert Recorded(stream, ws, rs);
      RecordedCollected(stream, ws, rs);
    }
  }

  /** Appending to the stream keeps every recorded range in place. */
  lemma {:induction false} CollectedExtend(stream: string, wordSet: seq<string>, ranges: seq<Range>, c: char)
    requires Collected(stream, wordSet, ranges)
    ensures Collected(stream + [c], wordSet, ranges)
    decreases |wordSet|
  {
    if wordSet != [] {
      var n := |wordSet| - 1;
      CollectedExtend(stream, wordSet[..n], ranges[..n], c);
      var r := ranges[n];
      assert (stream + [c])[r.start..r.end] == stream[r.start..r.end];
    }
  }

  // ---------------------------------------------------------------------
  // The keystroke handler's state
  // ---------------------------------------------------------------------

  /**
   * The word state `handleKeystroke` updates: `typingStream`, the set held in
   * `collectionSetRef.current` (a `Set`, seen in insertion order), the
   * published `collection`, `highlightedRanges` and `leadingWord`.
   */
  datatype Words = Words(stream: string, wordSet: seq<string>, collection: seq<string>,
                         ranges: seq<Range>, leading: Option<string>)

  /** The word state of the first render, and the one `handleReset` restores. */
  const NoWords: Words := Words([], [], [], [], None)

  /**
   * What the keystroke handler keeps true of its word state: the set holds
   * the collected words, the published collection equals it, and there is a
   * leading word exactly when a word was collected, a collected word no
   * shorter than any other.
   */
  ghost predicate WordsInvariant(w: Words)
  {
    && Collected(w.stream, w.wordSet, w.ranges)
    && w.collection == w.wordSet
    && (w.leading.None? <==> w.wordSet == [])
    && (w.leading.Some? ==>
          && w.leading.value in w.wordSet
          && forall k :: 0 <= k < |w.wordSet| ==> |w.wordSet[k]| <= |w.leading.value|)
  }

  /**
   * The trailing `n` characters become a collected word: added to the set,
   * published, given their range, and the leading word recomputed.
   */
  function Collect(w: Words, n: nat): Words
    requires n <= |w.stream|
  {
    var word := Suffix(w.stream, n);
    var wordSet := w.wordSet + [word];
    Words(w.stream, wordSet, wordSet, w.ranges + [Range(|w.stream| - n, |w.stream|)], LeadingAfter(wordSet, word))
  }

  /** The word state `handleKeystroke(c)` leaves behind. */
  function AfterKeystroke(w: Words, c: char, maxWordLength: nat): Words
  {
    var typed := w.(stream := w.stream + [ToLower(c)]);
    match NewWordLength(typed.stream, w.wordSet, maxWordLength)
    case None => typed
    case Some(n) => Collect(typed, n)
  }

  /**
   * Collecting the detected trailing word keeps the invariant: the word is
   * new and valid, its range is where it was found, and the leading word
   * recomputed by `LeadingAfter` is a longest collected word.
   */
  lemma CollectKeepsInvariant(w: Words, maxWordLength: nat, n: nat)
    requires WordsInvariant(w)
    requires NewWordLength(w.stream, w.wordSet, maxWordLength) == Some(n)
    ensures n <= |w.stream| && WordsInvariant(Collect(w, n))
  {
    CollectExtendsCollected(w, maxWordLength, n);
    var r := Collect(w, n);
    CollectedIff(r.stream, r.wordSet, r.ranges);
    forall k | 0 <= k < |r.wordSet|
      ensures r.wordSet[k] != ""
    {
      ValidWordLength(r.wordSet[k]);
    }
    LeadingAfterIsLongest(r.wordSet, Suffix(w.stream, n));
  }

  /** The detected word is valid and new, and its range spells it. */
  lemma CollectExtendsCollected(w: Words, maxWordLength: nat, n: nat)
    requires Collected(w.stream, w.wordSet, w.ranges)
    requires NewWordLength(w.stream, w.wordSet, maxWordLength) == Some(n)
    ensures n <= |w.stream| && Collected(w.stream, Collect(w, n).wordSet, Collect(w, n).ranges)
  {
    LongestFromIsLongest(w.stream, w.wordSet, ScanBound(w.stream, maxWordLength));
    var r := Collect(w, n);
    assert r.wordSet[..|w.wordSet|] == w.wordSet && r.ranges[..|w.ranges|] == w.ranges;
  }

  /** Every keystroke keeps the invariant. */
  lemma KeystrokeKeepsInvariant(w: Words, c: char, maxWordLength: nat)
    requires WordsInvariant(w)
    ensures WordsInvariant(AfterKeystroke(w, c, maxWordLength))
  {
    var typed := w.(stream := w.stream + [ToLower(c)]);
    CollectedExtend(w.stream, w.wordSet, w.ranges, ToLower(c));
    match NewWordLength(typed.stream, w.wordSet, maxWordLength)
    case None =>
    case Some(n) => CollectKeepsInvariant(typed, maxWordLength, n);
  }

  /**
   * What a keystroke does when some trailing candidate qualifies: it appends
   * the lower-cased character to the stream and collects the longest
   * qualifying candidate, appending it to the set, the collection and (with
   * its range) the ranges, and recomputing the leading word. Earlier words
   * and ranges stay.
   */
  lemma KeystrokeCollectsLongest(w: Words, c: char, maxWordLength: nat, n: nat)
    requires IsLongestQualifying(w.stream + [ToLower(c)], w.wordSet, maxWordLength, n)
    ensures var r := AfterKeystroke(w, c, maxWordLength);
            && r.stream == w.stream + [ToLower(c)]
            && r.wordSet == w.wordSet + [Suffix(r.stream, n)]
            && r.collection == r.wordSet
            && r.ranges == w.ranges + [Range(|r.stream| - n, |r.stream|)]
            && r.leading == LeadingAfter(r.wordSet, Suffix(r.stream, n))
  {
    var stream := w.stream + [ToLower(c)];
    LongestFromIsLongest(stream, w.wordSet, ScanBound(stream, maxWordLength));
    assert NewWordLength(stream, w.wordSet, maxWordLength) == Some(n);
    assert AfterKeystroke(w, c, maxWordLength) == Collect(w.(stream := stream), n);
  }

  /**
   * When no trailing candidate qualifies, a keystroke only appends the
   * lower-cased character: the set, the collection, the ranges and the
   * leading word are unchanged.
   */
  lemma KeystrokeWithoutWord(w: Words, c: char, maxWordLength: nat)
    requires NoneQualifies(w.stream + [ToLower(c)], w.wordSet, maxWordLength)
    ensures AfterKeystroke(w, c, maxWordLength) == w.(stream := w.stream + [ToLower(c)])
  {
    var stream := w.stream + [ToLower(c)];
    LongestFromIsLongest(stream, w.wordSet, ScanBound(stream, maxWordLength));
  }
}
