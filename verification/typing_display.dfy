/**
 * What `TypingDisplay` (src/components/typing/TypingDisplay.tsx) computes from
 * the engine's state: highlight membership, the absolute index and the
 * typed/cursor classification of each grid cell, the `m:ss` time stat and the
 * Words stat. All of it is pure.
 */
module TypingDisplay {
  import opened Ledger

  // ---------------------------------------------------------------------
  // Highlighting
  // ---------------------------------------------------------------------

  /** Half-open membership: `start <= i < end`. */
  predicate InRange(r: Range, i: int)
  {
    r.start <= i < r.end
  }

  /** `isCharHighlighted`: `highlightedRanges.some(...)`, scanned from the front. */
  function IsCharHighlighted(ranges: seq<Range>, i: int): (highlighted: bool)
    ensures highlighted <==> exists k :: 0 <= k < |ranges| && InRange(ranges[k], i)
  {
    if ranges == [] then false
    else if InRange(ranges[0], i) then true
    else
      var rest := IsCharHighlighted(ranges[1..], i);
      assert forall k :: 1 <= k < |ranges| ==> ranges[k] == ranges[1..][k - 1];
      rest
  }

  /** An empty range list highlights nothing; a character of any range's word is highlighted. */
  lemma HighlightMembership(ranges: seq<Range>, k: nat, i: int)
    ensures !IsCharHighlighted([], i)
    ensures k < |ranges| && InRange(ranges[k], i) ==> IsCharHighlighted(ranges, i)
  {
  }

  /**
   * Under the collection invariant, highlighted positions lie inside the
   * stream and every character of a collected word is highlighted.
   */
  lemma HighlightWithinStream(w: Words, i: int)
    requires WordsInvariant(w)
    ensures IsCharHighlighted(w.ranges, i) ==> 0 <= i < |w.stream|
    ensures forall k :: 0 <= k < |w.ranges| && w.ranges[k].start <= i < w.ranges[k].end ==>
              IsCharHighlighted(w.ranges, i) && i - w.ranges[k].start < |w.wordSet[k]|
  {
    CollectedIff(w.stream, w.wordSet, w.ranges);
    if IsCharHighlighted(w.ranges, i) {
      var k :| 0 <= k < |w.ranges| && InRange(w.ranges[k], i);
      assert Locates(w.stream, w.ranges[k], w.wordSet[k]);
    }
    forall k | 0 <= k < |w.ranges| && w.ranges[k].start <= i < w.ranges[k].end
      ensures i - w.ranges[k].start < |w.wordSet[k]|
    {
      assert Locates(w.stream, w.ranges[k], w.wordSet[k]);
    }
  }

  // ---------------------------------------------------------------------
  // The grid
  // ---------------------------------------------------------------------

  /** `pageStart + lineIndex * charsPerLine + charIndex`. */
  function CellIndex(pageStart: int, charsPerLine: nat, lineIndex: nat, charIndex: nat): int
  {
    pageStart + lineIndex * charsPerLine + charIndex
  }

  /**
   * Within a line of `charsPerLine` cells, the absolute index determines the
   * cell: its line and column are the quotient and remainder of the offset
   * from `pageStart`, so two cells of a page never share an index.
   */
  lemma CellIndexDecodes(pageStart: int, charsPerLine: nat, lineIndex: nat, charIndex: nat)
    requires charIndex < charsPerLine
    ensures var offset := CellIndex(pageStart, charsPerLine, lineIndex, charIndex) - pageStart;
            && offset >= 0 && offset / charsPerLine == lineIndex && offset % charsPerLine == charIndex
  {
    var offset := lineIndex * charsPerLine + charIndex;
    assert offset == charsPerLine * lineIndex + charIndex;
    DivModUnique(offset, charsPerLine, lineIndex, charIndex);
  }

  /** Quotient and remainder are unique. */
  lemma DivModUnique(n: int, d: int, q: int, r: int)
    requires d > 0 && 0 <= r < d && n == d * q + r
    ensures n / d == q && n % d == r
  {
    var q', r' := n / d, n % d;
    assert n == d * q' + r';
    var k := q - q';
    assert d * k == r' - r by {
      assert d * k == d * q - d * q';
    }
    if k >= 1 {
      MulAtLeast(d, k);
    } else if k <= -1 {
      MulAtLeast(d, -k);
    }
  }

  /** A positive multiple of `d` is at least `d`. */
  lemma {:induction false} MulAtLeast(d: int, k: int)
    requires d > 0 && k >= 1
    ensures d * k >= d
    decreases k
  {
    if k > 1 {
      MulAtLeast(d, k - 1);
      assert d * k == d * (k - 1) + d;
    }
  }

  /** One rendered cell: its glyph and its classes. */
  datatype Cell = Cell(glyph: char, typed: bool, cursor: bool, highlighted: bool)

  /** A cell of `line` at `charIndex` with absolute index `index`; a missing character shows as a space. */
  function RenderCell(line: string, charIndex: nat, index: int, streamLength: nat, ranges: seq<Range>): Cell
  {
    Cell(if charIndex < |line| then line[charIndex] else ' ',
         index < streamLength, index == streamLength, IsCharHighlighted(ranges, index))
  }

  /** One line: exactly `charsPerLine` cells, starting at absolute index `lineStart`. */
  function RenderLine(line: string, lineStart: int, charsPerLine: nat, streamLength: nat, ranges: seq<Range>)
    : (cells: seq<Cell>)
    ensures |cells| == charsPerLine
    ensures forall j :: 0 <= j < charsPerLine ==>
              cells[j] == RenderCell(line, j, lineStart + j, streamLength, ranges)
  {
    seq(charsPerLine, j requires 0 <= j < charsPerLine => RenderCell(line, j, lineStart + j, streamLength, ranges))
  }

  /** The page: one rendered line per text line, the `i`-th starting at `pageStart + i * charsPerLine`. */
  function RenderGrid(lines: seq<string>, pageStart: int, charsPerLine: nat, streamLength: nat, ranges: seq<Range>)
    : (grid: seq<seq<Cell>>)
    ensures |grid| == |lines|
    ensures forall i :: 0 <= i < |lines| ==>
              grid[i] == RenderLine(lines[i], CellIndex(pageStart, charsPerLine, i, 0), charsPerLine, streamLength, ranges)
  {
    seq(|lines|, i requires 0 <= i < |lines| =>
      RenderLine(lines[i], CellIndex(pageStart, charsPerLine, i, 0), charsPerLine, streamLength, ranges))
  }

  /**
   * Every cell of the grid: it shows the line's character or a space, it is
   * typed exactly when its absolute index is below the stream length, it is
   * the cursor exactly when the index equals it, never both, and it is
   * highlighted exactly when a range holds its index.
   */
  lemma GridCell(lines: seq<string>, pageStart: int, charsPerLine: nat, streamLength: nat, ranges: seq<Range>,
                 i: nat, j: nat)
    requires i < |lines| && j < charsPerLine
    ensures var c := RenderGrid(lines, pageStart, charsPerLine, streamLength, ranges)[i][j];
            var index := CellIndex(pageStart, charsPerLine, i, j);
            && |RenderGrid(lines, pageStart, charsPerLine, streamLength, ranges)[i]| == charsPerLine
            && c.glyph == (if j < |lines[i]| then lines[i][j] else ' ')
            && (c.typed <==> index < streamLength)
            && (c.cursor <==> index == streamLength)
            && !(c.typed && c.cursor)
            && (c.highlighted <==> exists k :: 0 <= k < |ranges| && InRange(ranges[k], index))
  {
  }

  /**
   * Typed cells form a prefix of the page in reading order: a typed cell
   * makes every cell before it typed, and a cell after the cursor is neither
   * typed nor the cursor.
   */
  lemma TypedCellsArePrefix(lines: seq<string>, pageStart: int, charsPerLine: nat, streamLength: nat,
                            ranges: seq<Range>, i: nat, j: nat, i': nat, j': nat)
    requires i < |lines| && j < charsPerLine && i' < |lines| && j' < charsPerLine
    requires i' * charsPerLine + j' <= i * charsPerLine + j
    ensures var grid := RenderGrid(lines, pageStart, charsPerLine, streamLength, ranges);
            && (grid[i][j].typed ==> grid[i'][j'].typed)
            && (grid[i'][j'].cursor && (i', j') != (i, j) ==> !grid[i][j].typed && !grid[i][j].cursor)
  {
    var grid: seq<seq<Cell>> := RenderGrid(lines, pageStart, charsPerLine, streamLength, ranges);
    if grid[i'][j'].cursor && (i', j') != (i, j) {
      if i' * charsPerLine + j' == i * charsPerLine + j {
        CellIndexDecodes(pageStart, charsPerLine, i, j);
        CellIndexDecodes(pageStart, charsPerLine, i', j');
      }
    }
  }

  /**
   * The page shows at most one cursor, and exactly one when the stream
   * length falls inside it: at the line and column given by the quotient
   * and remainder of the stream length's offset from `pageStart`.
   */
  lemma OneCursor(lines: seq<string>, pageStart: int, charsPerLine: nat, streamLength: nat, ranges: seq<Range>)
    ensures var grid := RenderGrid(lines, pageStart, charsPerLine, streamLength, ranges);
            forall i, j, i', j' ::
              (&& 0 <= i < |lines| && 0 <= j < charsPerLine && 0 <= i' < |lines| && 0 <= j' < charsPerLine
               && grid[i][j].cursor && grid[i'][j'].cursor) ==> i == i' && j == j'
    ensures var grid := RenderGrid(lines, pageStart, charsPerLine, streamLength, ranges);
            charsPerLine > 0 && pageStart <= streamLength < pageStart + |lines| * charsPerLine ==>
              var offset := streamLength - pageStart;
              && offset / charsPerLine < |lines|
              && grid[offset / charsPerLine][offset % charsPerLine].cursor
  {
    var grid: seq<seq<Cell>> := RenderGrid(lines, pageStart, charsPerLine, streamLength, ranges);
    forall i, j, i', j' |
      0 <= i < |lines| && 0 <= j < charsPerLine && 0 <= i' < |lines| && 0 <= j' < charsPerLine &&
      grid[i][j].cursor && grid[i'][j'].cursor
      ensures i == i' && j == j'
    {
      CellIndexDecodes(pageStart, charsPerLine, i, j);
      CellIndexDecodes(pageStart, charsPerLine, i', j');
    }
    if charsPerLine > 0 && pageStart <= streamLength < pageStart + |lines| * charsPerLine {
      var offset := streamLength - pageStart;
      var q, r := offset / charsPerLine, offset % charsPerLine;
      assert offset == charsPerLine * q + r;
      assert CellIndex(pageStart, charsPerLine, q, r) == streamLength;
    }
  }

  // ---------------------------------------------------------------------
  // The time stat
  // ---------------------------------------------------------------------

  predicate IsDigit(c: char)
  {
    '0' <= c <= '9'
  }

  predicate AllDigits(s: string)
  {
    forall i :: 0 <= i < |s| ==> IsDigit(s[i])
  }

  function DigitChar(d: nat): char
    requires d < 10
  {
    (d + '0' as int) as char
  }

  /** `n.toString()` for a non-negative integer: decimal digits, no leading zero. */
  function NatToString(n: nat): (s: string)
    ensures |s| >= 1 && AllDigits(s)
    ensures |s| == 1 <==> n < 10
    ensures |s| > 1 ==> s[0] != '0'
  {
    if n < 10 then [DigitChar(n)] else NatToString(n / 10) + [DigitChar(n % 10)]
  }

  /** `t.toString()` for any integer: a minus sign before the digits of a negative one. */
  function IntToString(t: int): string
  {
    if t < 0 then "-" + NatToString(-t) else NatToString(t)
  }

  /** The decimal value of a digit string; the partner of `NatToString`. */
  function ParseNat(s: string): nat
    requires AllDigits(s)
  {
    if s == [] then 0 else ParseNat(s[..|s| - 1]) * 10 + (s[|s| - 1] as int - '0' as int)
  }

  /** Reading back the digits `NatToString` writes gives the number. */
  lemma {:induction false} ParseNatToString(n: nat)
    ensures ParseNat(NatToString(n)) == n
  {
    if n >= 10 {
      var s := NatToString(n);
      assert s[..|s| - 1] == NatToString(n / 10);
      ParseNatToString(n / 10);
    }
  }

  /** `s.padStart(2, '0')`. */
  function PadStart2(s: string): (padded: string)
    ensures |padded| == if |s| >= 2 then |s| else 2
    ensures padded[|padded| - |s|..] == s
    ensures forall i :: 0 <= i < |padded| - |s| ==> padded[i] == '0'
  {
    if |s| >= 2 then s else seq(2 - |s|, _ => '0') + s
  }

  /** JavaScript's `%`: the remainder takes the sign of the dividend. */
  function JsRem(t: int, d: int): (r: int)
    requires d > 0
    ensures t >= 0 ==> r == t % d
    ensures t < 0 ==> r == -((-t) % d) && -d < r <= 0
  {
    if t >= 0 then t % d else -((-t) % d)
  }

  /**
   * The Time stat: `Math.floor(t / 60)`, a colon, and the JavaScript
   * remainder `t % 60` padded to two characters with zeros.
   */
  function FormatTime(t: int): string
  {
    IntToString(t / 60) + ":" + PadStart2(IntToString(JsRem(t, 60)))
  }

  /**
   * For `t >= 0` the stat reads back as the time: digits for the minutes,
   * a colon, then exactly two digits for the seconds, with
   * `minutes * 60 + seconds == t` and the seconds below 60.
   */
  lemma FormatTimeReadsBack(t: int)
    requires t >= 0
    ensures var s := FormatTime(t);
            && |s| >= 4 && s[|s| - 3] == ':'
            && AllDigits(s[..|s| - 3]) && AllDigits(s[|s| - 2..])
            && ParseNat(s[..|s| - 3]) * 60 + ParseNat(s[|s| - 2..]) == t
            && ParseNat(s[|s| - 2..]) < 60
  {
    var minutes, seconds := t / 60, t % 60;
    var m, sec := NatToString(minutes), NatToString(seconds);
    var padded := PadStart2(sec);
    var s := FormatTime(t);
    assert s == m + ":" + padded;
    assert |padded| == 2;
    assert s[..|s| - 3] == m;
    assert s[|s| - 2..] == padded;
    ParseNatToString(minutes);
    ParseNatToString(seconds);
    if |sec| == 1 {
      assert padded == ['0'] + sec;
      assert padded[..1] == ['0'];
      assert ParseNat(padded) == ParseNat(sec);
    }
  }

  // ---------------------------------------------------------------------
  // The Words stat
  // ---------------------------------------------------------------------

  /** The Words stat: `collection.length`. */
  function WordsStat(collection: seq<string>): nat
  {
    |collection|
  }

  /** A list without duplicates has as many elements as its set. */
  lemma {:induction false} DistinctCount(s: seq<string>)
    requires NoDuplicates(s)
    ensures |set x | x in s| == |s|
  {
    if s != [] {
      var init := s[..|s| - 1];
      assert NoDuplicates(init);
      DistinctCount(init);
      assert (set x | x in s) == (set x | x in init) + {s[|s| - 1]};
      assert s[|s| - 1] !in (set x | x in init);
    }
  }

  /**
   * Under the collection invariant the Words stat counts the distinct words
   * collected, and also the highlighted ranges, one per word.
   */
  lemma WordsStatCountsDistinct(w: Words)
    requires WordsInvariant(w)
    ensures WordsStat(w.collection) == |set x | x in w.wordSet| == |w.ranges|
  {
    CollectedIff(w.stream, w.wordSet, w.ranges);
    DistinctCount(w.wordSet);
  }
}
