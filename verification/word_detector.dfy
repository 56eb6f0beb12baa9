/**
 * The string helpers of src/utils/wordDetector.ts: `isValidWord` (the
 * predicate the keystroke engine calls), `detectWords` (tokenise, clean,
 * filter) and `getLastWord` (the trailing letter run).
 */
module WordDetector {
  import opened Wrappers
  import opened Ascii

  // ---------------------------------------------------------------------
  // isValidWord
  // ---------------------------------------------------------------------

  /** `s.replace(/[^a-z]/g, '')`: keep only the characters in `[a-z]`, in order. */
  function Clean(s: string): (r: string)
    ensures AllLower(r)
    ensures |r| <= |s|
  {
    if s == [] then []
    else (if IsLowerLetter(s[0]) then [s[0]] else []) + Clean(s[1..])
  }

  /**
   * The cleaned, lower-cased form both `isValidWord` and `detectWords` compute,
   * taken one character at a time: the letters of `s`, lower-cased, in order.
   * `CleanLowerIsCleanOfLower` shows it is `Clean(LowerStr(s))`.
   */
  function CleanLower(s: string): string
  {
    if s == [] then []
    else (if IsLetter(s[0]) then [ToLower(s[0])] else []) + CleanLower(s[1..])
  }

  /** Lower-casing and then dropping what is not in `[a-z]` keeps exactly the letters, lower-cased. */
  lemma {:induction false} CleanLowerIsCleanOfLower(s: string)
    ensures CleanLower(s) == Clean(LowerStr(s))
  {
    if s != [] {
      assert LowerStr(s)[1..] == LowerStr(s[1..]);
      CleanLowerIsCleanOfLower(s[1..]);
    }
  }

  /** The cleaned form is made of `[a-z]` only and is never longer than the input. */
  lemma {:induction false} CleanLowerShape(s: string)
    ensures |CleanLower(s)| <= |s| && AllLower(CleanLower(s))
  {
    if s != [] {
      CleanLowerShape(s[1..]);
    }
  }

  /** `isValidWord`: at least two letters survive lower-casing and cleaning. */
  predicate IsValidWord(word: string)
  {
    |CleanLower(word)| >= 2
  }

  /** The number of ASCII letters, either case, in `s`. */
  function LetterCount(s: string): nat
  {
    if s == [] then 0 else (if IsLetter(s[0]) then 1 else 0) + LetterCount(s[1..])
  }

  lemma {:induction false} CleanLowerCountsLetters(s: string)
    ensures |CleanLower(s)| == LetterCount(s)
  {
    if s != [] {
      CleanLowerCountsLetters(s[1..]);
    }
  }

  lemma {:induction false} LetterCountPositive(s: string)
    ensures LetterCount(s) >= 1 <==> exists i :: 0 <= i < |s| && IsLetter(s[i])
  {
    if s != [] {
      LetterCountPositive(s[1..]);
      if LetterCount(s[1..]) >= 1 {
        var i :| 0 <= i < |s[1..]| && IsLetter(s[1..][i]);
        assert IsLetter(s[i + 1]);
      }
      if exists i :: 0 <= i < |s| && IsLetter(s[i]) {
        var i :| 0 <= i < |s| && IsLetter(s[i]);
        if i > 0 { assert IsLetter(s[1..][i - 1]); }
      }
    }
  }

  lemma {:induction false} LetterCountTwo(s: string)
    ensures LetterCount(s) >= 2 <==> exists i, j :: 0 <= i < j < |s| && IsLetter(s[i]) && IsLetter(s[j])
  {
    if s != [] {
      LetterCountTwo(s[1..]);
      LetterCountPositive(s[1..]);
      if LetterCount(s) >= 2 {
        if IsLetter(s[0]) {
          var j :| 0 <= j < |s[1..]| && IsLetter(s[1..][j]);
          assert IsLetter(s[0]) && IsLetter(s[j + 1]);
        } else {
          var i, j :| 0 <= i < j < |s[1..]| && IsLetter(s[1..][i]) && IsLetter(s[1..][j]);
          assert IsLetter(s[i + 1]) && IsLetter(s[j + 1]);
        }
      }
      if exists i, j :: 0 <= i < j < |s| && IsLetter(s[i]) && IsLetter(s[j]) {
        var i, j :| 0 <= i < j < |s| && IsLetter(s[i]) && IsLetter(s[j]);
        assert IsLetter(s[1..][j - 1]);
        if i > 0 { assert IsLetter(s[1..][i - 1]); }
      }
    }
  }

  /** `isValidWord(w)` holds exactly when `w` has two ASCII letters somewhere in it. */
  lemma ValidIffTwoLetters(word: string)
    ensures IsValidWord(word) <==>
            exists i, j :: 0 <= i < j < |word| && IsLetter(word[i]) && IsLetter(word[j])
  {
    CleanLowerCountsLetters(word);
    LetterCountTwo(word);
  }

  lemma {:induction false} CleanLowerOfLowercase(s: string)
    requires AllLower(s)
    ensures CleanLower(s) == s
  {
    if s != [] {
      CleanLowerOfLowercase(s[1..]);
    }
  }

  /** On the strings the engine produces (only `[a-z]`), validity is just "two characters or more". */
  lemma ValidLowercaseIffLength(word: string)
    requires AllLower(word)
    ensures IsValidWord(word) <==> |word| >= 2
  {
    CleanLowerOfLowercase(word);
  }

  lemma {:induction false} LowerStrIdempotent(s: string)
    ensures LowerStr(LowerStr(s)) == LowerStr(s)
  {
    if s != [] {
      assert LowerStr(s)[1..] == LowerStr(s[1..]);
      LowerStrIdempotent(s[1..]);
    }
  }

  /** Validity ignores case. */
  lemma ValidIgnoresCase(word: string)
    ensures IsValidWord(word) == IsValidWord(LowerStr(word))
  {
    CleanLowerIsCleanOfLower(word);
    CleanLowerIsCleanOfLower(LowerStr(word));
    LowerStrIdempotent(word);
  }

  /** A valid word has at least two characters, so it is never the empty string. */
  lemma ValidWordLength(word: string)
    requires IsValidWord(word)
    ensures |word| >= 2
  {
    CleanLowerShape(word);
  }

  // ---------------------------------------------------------------------
  // detectWords
  // ---------------------------------------------------------------------

  /** Drop the leading run of `\s` characters. */
  function SkipWhitespace(s: string): (r: string)
    ensures |r| <= |s| && r == s[|s| - |r|..]
    ensures r == [] || !IsWhitespace(r[0])
    ensures s != [] && IsWhitespace(s[0]) ==> |r| < |s|
  {
    if s != [] && IsWhitespace(s[0]) then SkipWhitespace(s[1..]) else s
  }

  /** What `SkipWhitespace` drops is all whitespace. */
  lemma {:induction false} SkipWhitespaceDropsWhitespace(s: string)
    ensures AllWhitespace(s[..|s| - |SkipWhitespace(s)|])
  {
    if s != [] && IsWhitespace(s[0]) {
      SkipWhitespaceDropsWhitespace(s[1..]);
      var k := |s| - |SkipWhitespace(s)|;
      assert s[..k] == [s[0]] + s[1..][..k - 1];
    }
  }

  /**
   * `text.split(/\s+/)`, with `current` the token being accumulated: every
   * maximal run of whitespace ends one token and starts the next, so leading
   * whitespace yields an empty first token and trailing whitespace an empty
   * last one.
   */
  function SplitFrom(s: string, current: string): (tokens: seq<string>)
    ensures |tokens| >= 1
    ensures NoWhitespace(current) ==> forall k :: 0 <= k < |tokens| ==> NoWhitespace(tokens[k])
    decreases |s|
  {
    if s == [] then [current]
    else if IsWhitespace(s[0]) then [current] + SplitFrom(SkipWhitespace(s), "")
    else SplitFrom(s[1..], current + [s[0]])
  }

  function SplitWhitespace(text: string): (tokens: seq<string>)
    ensures |tokens| >= 1
    ensures forall k :: 0 <= k < |tokens| ==> NoWhitespace(tokens[k])
  {
    SplitFrom(text, "")
  }

  /** The whitespace runs of `s` that `SplitFrom` cuts at, in order. */
  function GapsFrom(s: string): seq<string>
    decreases |s|
  {
    if s == [] then []
    else if IsWhitespace(s[0]) then
      var r := SkipWhitespace(s);
      [s[..|s| - |r|]] + GapsFrom(r)
    else GapsFrom(s[1..])
  }

  /** `tokens[0] + gaps[0] + tokens[1] + ... + tokens[n]`. */
  function Interleave(tokens: seq<string>, gaps: seq<string>): string
    requires |tokens| == |gaps| + 1
  {
    if gaps == [] then tokens[0]
    else tokens[0] + gaps[0] + Interleave(tokens[1..], gaps[1..])
  }

  lemma InterleaveCons(t: string, g: string, tokens: seq<string>, gaps: seq<string>)
    requires |tokens| == |gaps| + 1
    ensures Interleave([t] + tokens, [g] + gaps) == t + g + Interleave(tokens, gaps)
  {
    assert ([t] + tokens)[1..] == tokens && ([g] + gaps)[1..] == gaps;
  }

  /** Putting a token and a gap in front of a rejoin of `r` rejoins `g + r`. */
  lemma RejoinCons(current: string, g: string, r: string, s: string, tokens: seq<string>, gaps: seq<string>)
    requires |tokens| == |gaps| + 1 && Interleave(tokens, gaps) == r && s == g + r
    ensures Interleave([current] + tokens, [g] + gaps) == current + s
  {
    InterleaveCons(current, g, tokens, gaps);
    assert current + g + r == current + (g + r);
  }

  /** Cutting at a leading whitespace run ends the current token there and records the run. */
  lemma SplitAtGap(s: string, current: string)
    requires s != [] && IsWhitespace(s[0])
    ensures s == s[..|s| - |SkipWhitespace(s)|] + SkipWhitespace(s)
    ensures SplitFrom(s, current) == [current] + SplitFrom(SkipWhitespace(s), "")
    ensures GapsFrom(s) == [s[..|s| - |SkipWhitespace(s)|]] + GapsFrom(SkipWhitespace(s))
  {
    var r := SkipWhitespace(s);
    assert r == s[|s| - |r|..];
    assert s == s[..|s| - |r|] + s[|s| - |r|..];
  }

  /** The rejoin step at a leading whitespace run, given the rejoin of what follows it. */
  lemma RejoinAtGap(s: string, current: string)
    requires s != [] && IsWhitespace(s[0])
    requires |SplitFrom(SkipWhitespace(s), "")| == |GapsFrom(SkipWhitespace(s))| + 1
    requires Interleave(SplitFrom(SkipWhitespace(s), ""), GapsFrom(SkipWhitespace(s))) == SkipWhitespace(s)
    ensures |SplitFrom(s, current)| == |GapsFrom(s)| + 1
    ensures Interleave(SplitFrom(s, current), GapsFrom(s)) == current + s
  {
    var r := SkipWhitespace(s);
    SplitAtGap(s, current);
    RejoinCons(current, s[..|s| - |r|], r, s, SplitFrom(r, ""), GapsFrom(r));
  }

  /** The tokens, with the whitespace runs between them put back, give `current + s` again. */
  lemma {:induction false} SplitFromRejoins(s: string, current: string)
    ensures |SplitFrom(s, current)| == |GapsFrom(s)| + 1
    ensures Interleave(SplitFrom(s, current), GapsFrom(s)) == current + s
    decreases |s|
  {
    if s == [] {
      assert current + s == current;
    } else if IsWhitespace(s[0]) {
      var r := SkipWhitespace(s);
      SplitFromRejoins(r, "");
      assert "" + r == r;
      RejoinAtGap(s, current);
    } else {
      SplitFromRejoins(s[1..], current + [s[0]]);
      assert current + [s[0]] + s[1..] == current + s;
    }
  }

  /** Every whitespace run the split cuts at is non-empty and all whitespace. */
  lemma {:induction false} GapsAreWhitespace(s: string)
    ensures forall k :: 0 <= k < |GapsFrom(s)| ==> GapsFrom(s)[k] != [] && AllWhitespace(GapsFrom(s)[k])
    decreases |s|
  {
    if s != [] {
      if IsWhitespace(s[0]) {
        var r := SkipWhitespace(s);
        GapsAreWhitespace(r);
        SkipWhitespaceDropsWhitespace(s);
        assert GapsFrom(s) == [s[..|s| - |r|]] + GapsFrom(r);
      } else {
        GapsAreWhitespace(s[1..]);
      }
    }
  }

  /**
   * Every token but the first and the last is non-empty, and the first is
   * non-empty when something precedes the first whitespace run.
   */
  lemma {:induction false} SplitFromTokensNonEmpty(s: string, current: string)
    ensures forall k :: 0 < k < |SplitFrom(s, current)| - 1 ==> SplitFrom(s, current)[k] != []
    ensures current != [] || (s != [] && !IsWhitespace(s[0])) ==> SplitFrom(s, current)[0] != []
    decreases |s|
  {
    if s != [] {
      if IsWhitespace(s[0]) {
        var r := SkipWhitespace(s);
        SplitFromTokensNonEmpty(r, "");
        var rest := SplitFrom(r, "");
        var tokens := SplitFrom(s, current);
        assert tokens == [current] + rest;
        forall k | 0 < k < |tokens| - 1
          ensures tokens[k] != []
        {
          assert tokens[k] == rest[k - 1];
        }
      } else {
        SplitFromTokensNonEmpty(s[1..], current + [s[0]]);
      }
    }
  }

  /**
   * `text.split(/\s+/)` cuts the text exactly at its whitespace runs: the
   * tokens joined back with those runs give the text, the tokens hold no
   * whitespace, the inner tokens are non-empty, and the first token is empty
   * exactly when the text is empty or starts with whitespace.
   */
  lemma SplitWhitespaceDecomposes(text: string)
    ensures var tokens := SplitWhitespace(text);
            var gaps := GapsFrom(text);
            && |tokens| == |gaps| + 1
            && Interleave(tokens, gaps) == text
            && (forall k :: 0 <= k < |gaps| ==> gaps[k] != [] && AllWhitespace(gaps[k]))
            && (forall k :: 0 < k < |tokens| - 1 ==> tokens[k] != [])
            && (tokens[0] == [] <==> text == [] || IsWhitespace(text[0]))
  {
    SplitFromRejoins(text, "");
    assert "" + text == text;
    GapsAreWhitespace(text);
    SplitFromTokensNonEmpty(text, "");
  }

  /** What one token contributes: its cleaned form when that has 2 letters or more. */
  function Kept(token: string): seq<string>
  {
    var cleanWord := CleanLower(token);
    if |cleanWord| >= 2 then [cleanWord] else []
  }

  /** The words kept from a list of tokens, in token order. */
  function KeepWords(tokens: seq<string>): seq<string>
  {
    if tokens == [] then []
    else KeepWords(tokens[..|tokens| - 1]) + Kept(tokens[|tokens| - 1])
  }

  /** The value `detectWords(text)` returns. */
  function Detected(text: string): seq<string>
  {
    KeepWords(SplitWhitespace(text))
  }

  /** `detectWords`: split into tokens, clean each, push the ones with 2 letters or more. */
  method DetectWords(text: string) returns (detectedWords: seq<string>)
    ensures detectedWords == Detected(text)
  {
    detectedWords := [];
    var words := SplitWhitespace(text);
    for i := 0 to |words|
      invariant detectedWords == KeepWords(words[..i])
    {
      assert words[..i + 1][..i] == words[..i];
      var cleanWord := Clean(LowerStr(words[i]));
      CleanLowerIsCleanOfLower(words[i]);
      if |cleanWord| >= 2 {
        detectedWords := detectedWords + [cleanWord];
      }
    }
    assert words[..|words|] == words;
  }

  /** Tokens are handled independently and their words come out in token order. */
  lemma {:induction false} KeepWordsAppend(a: seq<string>, b: seq<string>)
    ensures KeepWords(a + b) == KeepWords(a) + KeepWords(b)
    decreases |b|
  {
    if b == [] {
      assert a + b == a;
    } else {
      var b' := b[..|b| - 1];
      assert (a + b)[..|a + b| - 1] == a + b';
      KeepWordsAppend(a, b');
    }
  }

  /** At most one word per token. */
  lemma {:induction false} KeepWordsAtMostOnePerToken(tokens: seq<string>)
    ensures |KeepWords(tokens)| <= |tokens|
  {
    if tokens != [] {
      KeepWordsAtMostOnePerToken(tokens[..|tokens| - 1]);
    }
  }

  /** A word is detected exactly when some token cleans to it and it has 2 letters or more. */
  lemma {:induction false} KeepWordsMembership(tokens: seq<string>, word: string)
    ensures word in KeepWords(tokens) <==>
            |word| >= 2 && exists k :: 0 <= k < |tokens| && CleanLower(tokens[k]) == word
  {
    if tokens != [] {
      var init := tokens[..|tokens| - 1];
      KeepWordsMembership(init, word);
      if exists k :: 0 <= k < |init| && CleanLower(init[k]) == word {
        var k :| 0 <= k < |init| && CleanLower(init[k]) == word;
        assert CleanLower(tokens[k]) == word;
      }
      if exists k :: 0 <= k < |tokens| && CleanLower(tokens[k]) == word {
        var k :| 0 <= k < |tokens| && CleanLower(tokens[k]) == word;
        if k < |init| { assert CleanLower(init[k]) == word; }
      }
    }
  }

  /** Every detected word consists only of `[a-z]` and has 2 letters or more. */
  lemma {:induction false} KeepWordsWellFormed(tokens: seq<string>)
    ensures forall k :: 0 <= k < |KeepWords(tokens)| ==>
              AllLower(KeepWords(tokens)[k]) && |KeepWords(tokens)[k]| >= 2
  {
    if tokens != [] {
      KeepWordsWellFormed(tokens[..|tokens| - 1]);
      CleanLowerShape(tokens[|tokens| - 1]);
    }
  }

  lemma DetectedWellFormed(text: string)
    ensures forall k :: 0 <= k < |Detected(text)| ==>
              AllLower(Detected(text)[k]) && |Detected(text)[k]| >= 2
  {
    KeepWordsWellFormed(SplitWhitespace(text));
  }

  /** `words.join(' ')`. */
  function JoinSpaces(words: seq<string>): string
  {
    if words == [] then ""
    else if |words| == 1 then words[0]
    else words[0] + " " + JoinSpaces(words[1..])
  }

  lemma {:induction false} JoinSpacesStartsWithFirst(words: seq<string>)
    requires |words| >= 1 && words[0] != []
    ensures |JoinSpaces(words)| >= 1 && JoinSpaces(words)[0] == words[0][0]
  {
  }

  /** Reading a run of non-whitespace just extends the current token. */
  lemma {:induction false} SplitThroughWord(w: string, rest: string, current: string)
    requires NoWhitespace(w)
    ensures SplitFrom(w + rest, current) == SplitFrom(rest, current + w)
    decreases |w|
  {
    if w == [] {
      assert w + rest == rest && current + w == current;
    } else {
      assert (w + rest)[0] == w[0];
      assert (w + rest)[1..] == w[1..] + rest;
      SplitThroughWord(w[1..], rest, current + [w[0]]);
      assert current + [w[0]] + w[1..] == current + w;
    }
  }

  /** A single space ends the current token; the next one starts at the following non-space. */
  lemma SplitAfterSpace(tail: string, current: string)
    requires tail != [] && !IsWhitespace(tail[0])
    ensures SplitFrom(" " + tail, current) == [current] + SplitFrom(tail, "")
  {
    assert (" " + tail)[0] == ' ';
    assert (" " + tail)[1..] == tail;
    assert SkipWhitespace(" " + tail) == SkipWhitespace(tail) == tail;
  }

  /** Every word is non-empty and free of whitespace, stated from the front. */
  predicate AllTokens(words: seq<string>)
  {
    words == [] || (words[0] != [] && NoWhitespace(words[0]) && AllTokens(words[1..]))
  }

  lemma {:induction false} AllTokensIff(words: seq<string>)
    ensures AllTokens(words) <==> forall k :: 0 <= k < |words| ==> words[k] != [] && NoWhitespace(words[k])
  {
    if words != [] {
      AllTokensIff(words[1..]);
      assert forall k :: 1 <= k < |words| ==> words[k] == words[1..][k - 1];
    }
  }

  /** Splitting a single-space join of non-empty, whitespace-free words gives the words back. */
  lemma {:induction false} SplitJoin(words: seq<string>)
    requires |words| >= 1 && AllTokens(words)
    ensures SplitWhitespace(JoinSpaces(words)) == words
  {
    if |words| == 1 {
      SplitThroughWord(words[0], "", "");
      assert words[0] + "" == words[0];
      assert "" + words[0] == words[0];
    } else {
      var tail := JoinSpaces(words[1..]);
      JoinSpacesStartsWithFirst(words[1..]);
      assert JoinSpaces(words) == words[0] + (" " + tail);
      SplitThroughWord(words[0], " " + tail, "");
      assert "" + words[0] == words[0];
      SplitAfterSpace(tail, words[0]);
      SplitJoin(words[1..]);
      assert words == [words[0]] + words[1..];
    }
  }

  lemma {:induction false} KeepWordsOfCleanWords(words: seq<string>)
    requires forall k :: 0 <= k < |words| ==> AllLower(words[k]) && |words[k]| >= 2
    ensures KeepWords(words) == words
  {
    if words != [] {
      var init := words[..|words| - 1];
      KeepWordsOfCleanWords(init);
      CleanLowerOfLowercase(words[|words| - 1]);
      assert init + [words[|words| - 1]] == words;
    }
  }

  /** Round trip: detecting the words of the detected words, joined by spaces, gives them back. */
  lemma DetectedRoundTrip(text: string)
    ensures Detected(JoinSpaces(Detected(text))) == Detected(text)
  {
    var words := Detected(text);
    DetectedWellFormed(text);
    if words == [] {
      assert SplitWhitespace("") == [""];
      assert KeepWords([""]) == KeepWords([]) + Kept("");
    } else {
      AllTokensIff(words);
      SplitJoin(words);
      KeepWordsOfCleanWords(words);
    }
  }

  // ---------------------------------------------------------------------
  // getLastWord
  // ---------------------------------------------------------------------

  /** Every character of `s` is in `[a-zA-Z]`. */
  predicate AllLetters(s: string)
  {
    forall k :: 0 <= k < |s| ==> IsLetter(s[k])
  }

  /** Every character of `s` is in `\s`. */
  predicate AllWhitespace(s: string)
  {
    forall k :: 0 <= k < |s| ==> IsWhitespace(s[k])
  }

  /** `/([a-zA-Z]+)\s*$/` matches at `i` with group 1 being `text[i..j]`. */
  predicate MatchesAt(text: string, i: int, j: int)
  {
    0 <= i < j <= |text| && AllLetters(text[i..j]) && AllWhitespace(text[j..])
  }

  /** The index just past the last character that is not whitespace. */
  function TrimmedEnd(s: string): (t: nat)
    ensures t <= |s|
    ensures AllWhitespace(s[t..])
    ensures t == 0 || !IsWhitespace(s[t - 1])
  {
    if s != [] && IsWhitespace(s[|s| - 1]) then
      var t := TrimmedEnd(s[..|s| - 1]);
      assert s[t..] == s[..|s| - 1][t..] + [s[|s| - 1]];
      t
    else |s|
  }

  /** The start of the letter run that ends at `j`. */
  function LetterRunStart(s: string, j: nat): (i: nat)
    requires j <= |s|
    ensures i <= j
    ensures AllLetters(s[i..j])
    ensures i == 0 || !IsLetter(s[i - 1])
  {
    if j > 0 && IsLetter(s[j - 1]) then
      var i := LetterRunStart(s, j - 1);
      assert s[i..j] == s[i..j - 1] + [s[j - 1]];
      i
    else j
  }

  /**
   * `getLastWord`: the letter run that ends where the trailing whitespace
   * begins, lower-cased, or `None` when the text without its trailing
   * whitespace does not end in a letter.
   */
  function GetLastWord(text: string): (r: Option<string>)
    ensures r.Some? ==> r.value != [] && AllLower(r.value)
  {
    var j := TrimmedEnd(text);
    var i := LetterRunStart(text, j);
    if i < j then
      assert forall k :: 0 <= k < j - i ==> IsLetter(text[i..j][k]);
      Some(LowerStr(text[i..j]))
    else None
  }

  /**
   * `getLastWord` agrees with its regular expression: there is a result
   * exactly when `/([a-zA-Z]+)\s*$/` matches, and the result is group 1 of the
   * leftmost match (the one whose letter run cannot be extended to the left),
   * lower-cased.
   */
  lemma GetLastWordMatchesRegex(text: string)
    ensures GetLastWord(text).Some? <==> exists i, j :: MatchesAt(text, i, j)
    ensures forall i, j :: MatchesAt(text, i, j) && (i == 0 || !IsLetter(text[i - 1])) ==>
              GetLastWord(text) == Some(LowerStr(text[i..j]))
  {
    var j := TrimmedEnd(text);
    var i := LetterRunStart(text, j);
    assert i < j ==> MatchesAt(text, i, j);
    forall i', j' | MatchesAt(text, i', j')
      ensures j' == j && i <= i' && i < j
      ensures (i' == 0 || !IsLetter(text[i' - 1])) ==> i' == i
    {
      assert IsLetter(text[j' - 1]) by { assert text[i'..j'][j' - 1 - i'] == text[j' - 1]; }
    }
  }
}
