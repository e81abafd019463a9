/** The wrapString examples of tests/utilities.test.js:10-53, proved of the
    model. Each example is first stated for any words of the example's
    lengths, one wrapper step at a time, and then for the example's text. */
module WrapExamples {
  import opened Strings
  import opened LineWrap

  // ---------------------------------------------------------------------------
  // Chopping a word that loses no piece or exactly one
  // ---------------------------------------------------------------------------

  lemma ChopNone(w: string, width: nat)
    requires width >= 2 && |w| <= width
    ensures Chop(w, width) == ([], w)
  {
  }

  lemma ChopOnce(w: string, width: nat)
    requires width >= 2 && width < |w| < 2 * width
    ensures Chop(w, width) == ([Line(w[..width - 1], true)], w[width - 1..])
  {
    assert [Line(w[..width - 1], true)] + [] == [Line(w[..width - 1], true)];
  }

  lemma ConsTwo<T>(x: T, y: T, r: seq<T>)
    ensures [x] + [y] + r == [x, y] + r
  {
  }

  // ---------------------------------------------------------------------------
  // One step of the wrapper: the words from index `i` on a current line `cur`
  // ---------------------------------------------------------------------------

  /** The first word onto an empty line: it is cut into pieces if it is too long. */
  lemma StepFirst(ws: seq<string>, i: nat, width: nat)
    requires width >= 2 && i < |ws|
    ensures WrapFrom("", ws[i..], width)
         == Chop(ws[i], width).0 + WrapFrom(Chop(ws[i], width).1, ws[i + 1..], width)
  {
    assert ws[i..][1..] == ws[i + 1..];
  }

  /** The first word onto an empty line, when it fits. */
  lemma StepFirstFits(ws: seq<string>, i: nat, width: nat)
    requires width >= 2 && i < |ws| && |ws[i]| <= width
    ensures WrapFrom("", ws[i..], width) == WrapFrom(ws[i], ws[i + 1..], width)
  {
    StepFirst(ws, i, width);
  }

  /** The next word fits after a space. */
  lemma StepFit(cur: string, ws: seq<string>, i: nat, width: nat)
    requires width >= 2 && cur != [] && i < |ws| && |cur| + 1 + |ws[i]| <= width
    ensures WrapFrom(cur, ws[i..], width) == WrapFrom(cur + " " + ws[i], ws[i + 1..], width)
  {
    assert ws[i..][1..] == ws[i + 1..];
  }

  /** The next word fits the width but not the rest of the line. */
  lemma StepNewLine(cur: string, ws: seq<string>, i: nat, width: nat)
    requires width >= 2 && cur != [] && i < |ws|
    requires |cur| + 1 + |ws[i]| > width && |ws[i]| <= width
    ensures WrapFrom(cur, ws[i..], width) == [Line(cur, false)] + WrapFrom(ws[i], ws[i + 1..], width)
  {
    assert ws[i..][1..] == ws[i + 1..];
  }

  /** No words left: the current line is the last. */
  lemma StepEnd(cur: string, ws: seq<string>, width: nat)
    requires width >= 2
    ensures WrapFrom(cur, ws[|ws|..], width) == [Line(cur, false)]
  {
    assert ws[|ws|..] == [];
  }

  /** The next word is too long for any line and no room is left on this one:
      the line is finished and the word is cut into pieces from a fresh line. */
  lemma StepFresh(cur: string, ws: seq<string>, i: nat, width: nat)
    requires width >= 2 && cur != [] && i < |ws| && |ws[i]| > width && |cur| + 3 > width
    ensures WrapFrom(cur, ws[i..], width)
         == [Line(cur, false)] + Chop(ws[i], width).0 + WrapFrom(Chop(ws[i], width).1, ws[i + 1..], width)
  {
    assert ws[i..][1..] == ws[i + 1..];
  }

  /** The next word is too long for any line but a space, a character and the
      hyphen still fit: its head goes onto this line, the rest is cut. */
  lemma StepSplit(cur: string, ws: seq<string>, i: nat, width: nat)
    requires width >= 2 && cur != [] && i < |ws| && |ws[i]| > width && |cur| + 3 <= width
    ensures var k := width - |cur| - 2;
      WrapFrom(cur, ws[i..], width)
        == [Line(cur + " " + ws[i][..k], true)] + Chop(ws[i][k..], width).0
           + WrapFrom(Chop(ws[i][k..], width).1, ws[i + 1..], width)
  {
    assert ws[i..][1..] == ws[i + 1..];
  }

  /** `StepFresh` for a word that loses exactly one piece. */
  lemma StepFreshOnce(cur: string, ws: seq<string>, i: nat, width: nat)
    requires width >= 2 && cur != [] && i < |ws| && width < |ws[i]| < 2 * width && |cur| + 3 > width
    ensures WrapFrom(cur, ws[i..], width)
         == [Line(cur, false), Line(ws[i][..width - 1], true)]
            + WrapFrom(ws[i][width - 1..], ws[i + 1..], width)
  {
    var w, d := ws[i], width - 1;
    StepFresh(cur, ws, i, width);
    ChopOnce(w, width);
    ConsTwo(Line(cur, false), Line(w[..d], true), WrapFrom(w[d..], ws[i + 1..], width));
  }

  /** `StepSplit` for a word whose rest fits the width. */
  lemma StepSplitOnce(cur: string, ws: seq<string>, i: nat, width: nat)
    requires width >= 2 && cur != [] && i < |ws| && |ws[i]| > width && |cur| + 3 <= width
    requires |ws[i]| - (width - |cur| - 2) <= width
    ensures var k := width - |cur| - 2;
      WrapFrom(cur, ws[i..], width)
        == [Line(cur + " " + ws[i][..k], true)] + WrapFrom(ws[i][k..], ws[i + 1..], width)
  {
    var k := width - |cur| - 2;
    StepSplit(cur, ws, i, width);
    ChopNone(ws[i][k..], width);
    assert [Line(cur + " " + ws[i][..k], true)] + [] == [Line(cur + " " + ws[i][..k], true)];
  }

  // ---------------------------------------------------------------------------
  // tests/utilities.test.js:20-25: the sentence at width 6
  // ---------------------------------------------------------------------------

  predicate SentenceLengths(ws: seq<string>) {
    && |ws| == 10
    && |ws[0]| == 4 && |ws[1]| == 2 && |ws[2]| == 1 && |ws[3]| == 7 && |ws[4]| == 8
    && |ws[5]| == 4 && |ws[6]| == 5 && |ws[7]| == 2 && |ws[8]| == 2 && |ws[9]| == 7
  }

  /** Words of lengths 4, 2, 1, 7, 8, 4, 5, 2, 2, 7 at width 6: two words
      share a line when they fit, a seven-letter word after a full line is cut
      from a fresh line, and an eight-letter word after a two-letter rest
      starts on that line. */
  lemma SentenceShape(ws: seq<string>)
    requires SentenceLengths(ws)
    ensures WrapFrom("", ws, 6)
         == [Line(ws[0], false), Line(ws[1] + " " + ws[2], false),
             Line(ws[3][..5], true), Line(ws[3][5..] + " " + ws[4][..2], true),
             Line(ws[4][2..], false), Line(ws[5], false), Line(ws[6], false),
             Line(ws[7] + " " + ws[8], false), Line(ws[9][..5], true), Line(ws[9][5..], false)]
  {
    Sentence0(ws);
    assert ws[0..] == ws;
  }

  lemma Sentence0(ws: seq<string>)
    requires SentenceLengths(ws)
    ensures WrapFrom("", ws[0..], 6)
         == [Line(ws[0], false),
             Line(ws[1] + " " + ws[2], false),
             Line(ws[3][..5], true),
             Line(ws[3][5..] + " " + ws[4][..2], true),
             Line(ws[4][2..], false),
             Line(ws[5], false),
             Line(ws[6], false),
             Line(ws[7] + " " + ws[8], false),
             Line(ws[9][..5], true),
             Line(ws[9][5..], false)]
  {
    StepFirstFits(ws, 0, 6);
    Sentence1(ws);
  }

  lemma Sentence1(ws: seq<string>)
    requires SentenceLengths(ws)
    ensures WrapFrom(ws[0], ws[1..], 6)
         == [Line(ws[0], false),
             Line(ws[1] + " " + ws[2], false),
             Line(ws[3][..5], true),
             Line(ws[3][5..] + " " + ws[4][..2], true),
             Line(ws[4][2..], false),
             Line(ws[5], false),
             Line(ws[6], false),
             Line(ws[7] + " " + ws[8], false),
             Line(ws[9][..5], true),
             Line(ws[9][5..], false)]
  {
    StepNewLine(ws[0], ws, 1, 6);
    Sentence2(ws);
  }

  lemma Sentence2(ws: seq<string>)
    requires SentenceLengths(ws)
    ensures WrapFrom(ws[1], ws[2..], 6)
         == [Line(ws[1] + " " + ws[2], false),
             Line(ws[3][..5], true),
             Line(ws[3][5..] + " " + ws[4][..2], true),
             Line(ws[4][2..], false),
             Line(ws[5], false),
             Line(ws[6], false),
             Line(ws[7] + " " + ws[8], false),
             Line(ws[9][..5], true),
             Line(ws[9][5..], false)]
  {
    StepFit(ws[1], ws, 2, 6);
    Sentence3(ws);
  }

  lemma Sentence3(ws: seq<string>)
    requires SentenceLengths(ws)
    ensures WrapFrom(ws[1] + " " + ws[2], ws[3..], 6)
         == [Line(ws[1] + " " + ws[2], false),
             Line(ws[3][..5], true),
             Line(ws[3][5..] + " " + ws[4][..2], true),
             Line(ws[4][2..], false),
             Line(ws[5], false),
             Line(ws[6], false),
             Line(ws[7] + " " + ws[8], false),
             Line(ws[9][..5], true),
             Line(ws[9][5..], false)]
  {
    StepFreshOnce(ws[1] + " " + ws[2], ws, 3, 6);
    Sentence4(ws);
  }

  lemma Sentence4(ws: seq<string>)
    requires SentenceLengths(ws)
    ensures WrapFrom(ws[3][5..], ws[4..], 6)
         == [Line(ws[3][5..] + " " + ws[4][..2], true),
             Line(ws[4][2..], false),
             Line(ws[5], false),
             Line(ws[6], false),
             Line(ws[7] + " " + ws[8], false),
             Line(ws[9][..5], true),
             Line(ws[9][5..], false)]
  {
    StepSplitOnce(ws[3][5..], ws, 4, 6);
    Sentence5(ws);
  }

  lemma Sentence5(ws: seq<string>)
    requires SentenceLengths(ws)
    ensures WrapFrom(ws[4][2..], ws[5..], 6)
         == [Line(ws[4][2..], false),
             Line(ws[5], false),
             Line(ws[6], false),
             Line(ws[7] + " " + ws[8], false),
             Line(ws[9][..5], true),
             Line(ws[9][5..], false)]
  {
    StepNewLine(ws[4][2..], ws, 5, 6);
    Sentence6(ws);
  }

  lemma Sentence6(ws: seq<string>)
    requires SentenceLengths(ws)
    ensures WrapFrom(ws[5], ws[6..], 6)
         == [Line(ws[5], false),
             Line(ws[6], false),
             Line(ws[7] + " " + ws[8], false),
             Line(ws[9][..5], true),
             Line(ws[9][5..], false)]
  {
    StepNewLine(ws[5], ws, 6, 6);
    Sentence7(ws);
  }

  lemma Sentence7(ws: seq<string>)
    requires SentenceLengths(ws)
    ensures WrapFrom(ws[6], ws[7..], 6)
         == [Line(ws[6], false),
             Line(ws[7] + " " + ws[8], false),
             Line(ws[9][..5], true),
             Line(ws[9][5..], false)]
  {
    StepNewLine(ws[6], ws, 7, 6);
    Sentence8(ws);
  }

  lemma Sentence8(ws: seq<string>)
    requires SentenceLengths(ws)
    ensures WrapFrom(ws[7], ws[8..], 6)
         == [Line(ws[7] + " " + ws[8], false),
             Line(ws[9][..5], true),
             Line(ws[9][5..], false)]
  {
    StepFit(ws[7], ws, 8, 6);
    Sentence9(ws);
  }

  lemma Sentence9(ws: seq<string>)
    requires SentenceLengths(ws)
    ensures WrapFrom(ws[7] + " " + ws[8], ws[9..], 6)
         == [Line(ws[7] + " " + ws[8], false),
             Line(ws[9][..5], true),
             Line(ws[9][5..], false)]
  {
    StepFreshOnce(ws[7] + " " + ws[8], ws, 9, 6);
    Sentence10(ws);
  }

  lemma Sentence10(ws: seq<string>)
    requires SentenceLengths(ws)
    ensures WrapFrom(ws[9][5..], ws[10..], 6) == [Line(ws[9][5..], false)]
  {
    StepEnd(ws[9][5..], ws, 6);
  }

  /** The sentence as a text: any ten words of those lengths, single-spaced. */
  lemma SentenceText(ws: seq<string>)
    requires AllWords(ws) && SentenceLengths(ws)
    ensures Shows(WrapLines(Unwords(ws), 6))
         == [ws[0], ws[1] + " " + ws[2], ws[3][..5] + "-", ws[3][5..] + " " + ws[4][..2] + "-",
             ws[4][2..], ws[5], ws[6], ws[7] + " " + ws[8], ws[9][..5] + "-", ws[9][5..]]
  {
    WordsOfUnwords(ws);
    SentenceShape(ws);
  }

  // ---------------------------------------------------------------------------
  // tests/utilities.test.js:27-53: three runs of one letter at width 6
  // ---------------------------------------------------------------------------

  /** How many hyphenated pieces of `width - 1` characters a word of `n`
      characters loses before the rest fits the width. */
  function Pieces(n: nat, width: nat): nat
    requires width >= 2
    decreases n
  {
    if n <= width then 0 else 1 + Pieces(n - (width - 1), width)
  }

  /** How many characters of such a word are left for the current line. */
  function Rest(n: nat, width: nat): nat
    requires width >= 2
    decreases n
  {
    if n <= width then n else Rest(n - (width - 1), width)
  }

  /** A word of `n` copies of one letter is cut into `Pieces(n, width)` equal
      hyphenated pieces and a rest of `Rest(n, width)` letters. */
  lemma {:induction false} ChopRepeat(c: char, n: nat, width: nat)
    requires width >= 2
    ensures Chop(Repeat(c, n), width)
         == (seq(Pieces(n, width), _ => Line(Repeat(c, width - 1), true)), Repeat(c, Rest(n, width)))
    decreases n
  {
    var w := Repeat(c, n);
    if n > width {
      var d := width - 1;
      assert w[..d] == Repeat(c, d);
      assert w[d..] == Repeat(c, n - d);
      ChopRepeat(c, n - d, width);
      var line := Line(Repeat(c, d), true);
      assert [line] + seq(Pieces(n - d, width), _ => line) == seq(Pieces(n, width), _ => line);
    } else {
      assert seq(0, _ => Line(Repeat(c, width - 1), true)) == [];
    }
  }

  /** `count` hyphenated lines of five copies of `c`. */
  function Hyphenated(c: char, count: nat): seq<Line> {
    seq(count, _ => Line(Repeat(c, 5), true))
  }

  /** Runs of 35, 28 and 27 letters. */
  function LongWords(a: char, b: char, c: char): seq<string> {
    [Repeat(a, 35), Repeat(b, 28), Repeat(c, 27)]
  }

  /** Runs of 35, 28 and 27 letters at width 6: the first is cut from the
      empty line into six pieces and a rest of five; the second does not fit
      after that rest, so it is cut from a fresh line into five pieces and a
      rest of three; after those three letters a space, one letter and the
      hyphen still fit, so the third starts on that line and its remaining 26
      letters are cut into four pieces and a last line of six. */
  lemma LongWordsShape(a: char, b: char, c: char)
    ensures WrapFrom("", LongWords(a, b, c), 6)
         == Hyphenated(a, 6)
            + ([Line(Repeat(a, 5), false)] + Hyphenated(b, 5)
               + ([Line(Repeat(b, 3) + " " + [c], true)] + Hyphenated(c, 4)
                  + [Line(Repeat(c, 6), false)]))
  {
    var ws := LongWords(a, b, c);
    LongWordsFrom1(a, b, c);
    StepFirst(ws, 0, 6);
    ChopRepeat(a, 35, 6);
    assert ws[0..] == ws;
  }

  lemma LongWordsFrom1(a: char, b: char, c: char)
    ensures WrapFrom(Repeat(a, 5), LongWords(a, b, c)[1..], 6)
         == [Line(Repeat(a, 5), false)] + Hyphenated(b, 5)
            + ([Line(Repeat(b, 3) + " " + [c], true)] + Hyphenated(c, 4)
               + [Line(Repeat(c, 6), false)])
  {
    var ws := LongWords(a, b, c);
    LongWordsFrom2(a, b, c);
    StepFresh(Repeat(a, 5), ws, 1, 6);
    ChopRepeat(b, 28, 6);
  }

  lemma LongWordsFrom2(a: char, b: char, c: char)
    ensures WrapFrom(Repeat(b, 3), LongWords(a, b, c)[2..], 6)
         == [Line(Repeat(b, 3) + " " + [c], true)] + Hyphenated(c, 4)
            + [Line(Repeat(c, 6), false)]
  {
    var ws := LongWords(a, b, c);
    StepSplit(Repeat(b, 3), ws, 2, 6);
    assert ws[2][..1] == [c];
    assert ws[2][1..] == Repeat(c, 26);
    ChopRepeat(c, 26, 6);
    StepEnd(Repeat(c, 6), ws, 6);
  }

  /** The printed lines of the wrapped text: six times five `a`s and a
      hyphen, five `a`s, five times five `b`s and a hyphen, three `b`s, a
      space, one `c` and a hyphen, four times five `c`s and a hyphen, and
      six `c`s. */
  lemma LongWordsText(a: char, b: char, c: char)
    requires !IsWhitespace(a) && !IsWhitespace(b) && !IsWhitespace(c)
    ensures Shows(WrapLines(Unwords(LongWords(a, b, c)), 6))
         == seq(6, _ => Repeat(a, 5) + "-") + [Repeat(a, 5)]
            + seq(5, _ => Repeat(b, 5) + "-") + [Repeat(b, 3) + " " + [c] + "-"]
            + seq(4, _ => Repeat(c, 5) + "-") + [Repeat(c, 6)]
  {
    var ws := LongWords(a, b, c);
    assert AllWords(ws);
    WordsOfUnwords(ws);
    LongWordsShape(a, b, c);
    var lines := WrapLines(Unwords(ws), 6);
    var want := seq(6, _ => Repeat(a, 5) + "-") + [Repeat(a, 5)]
            + seq(5, _ => Repeat(b, 5) + "-") + [Repeat(b, 3) + " " + [c] + "-"]
            + seq(4, _ => Repeat(c, 5) + "-") + [Repeat(c, 6)];
    assert |lines| == 18;
    forall i | 0 <= i < 18
      ensures Show(lines[i]) == want[i]
    {
    }
  }

  // ---------------------------------------------------------------------------
  // tests/utilities.test.js:10-18: the two short examples
  // ---------------------------------------------------------------------------

  /** Two words that each fit the width but not together go on two lines. */
  lemma TwoWords(a: string, b: string, width: nat)
    requires width >= 2 && IsWord(a) && IsWord(b)
    requires |a| <= width && |b| <= width && |a| + 1 + |b| > width
    ensures WrapLines(a + " " + b, width) == [Line(a, false), Line(b, false)]
  {
    var ws := [a, b];
    assert AllWords(ws);
    WordsOfUnwords(ws);
    assert ws[1..] == [b] && Spaced([b]) == " " + b;
    assert Unwords(ws) == a + " " + b;
    StepFirstFits(ws, 0, width);
    StepNewLine(a, ws, 1, width);
    StepEnd(b, ws, width);
    assert ws[0..] == ws;
  }

  /** The same, printed: the two words with a line feed between them. */
  lemma TwoWordsString(a: string, b: string, width: nat)
    requires width >= 2 && IsWord(a) && IsWord(b)
    requires |a| <= width && |b| <= width && |a| + 1 + |b| > width
    ensures WrapString(a + " " + b, width) == a + "\n" + b
  {
    TwoWords(a, b, width);
    assert Shows([Line(a, false), Line(b, false)]) == [a, b];
    assert [a, b][1..] == [b];
    assert Join([a, b], '\n') == a + ['\n'] + b;
  }

  /** A four-letter word at width 3 goes out as two letters and a hyphen,
      then the last two letters. */
  lemma WrapLong()
    ensures WrapString("Long", 3) == "Lo-\nng"
  {
    WordOverWidthByOne("Long", 3);
  }

  /** "Too long" at width 4 breaks at the space. */
  lemma WrapTooLong()
    ensures WrapString("Too" + " " + "long", 4) == "Too" + "\n" + "long"
  {
    TwoWordsString("Too", "long", 4);
  }

  // ---------------------------------------------------------------------------
  // A fitting word is not hyphenated beside an over-long one
  // ---------------------------------------------------------------------------

  /** Lines that hyphenate a 4-letter word at width 6, next to an 8-letter
      word that does need breaking, are not lines the wrapper prints: the
      first hyphenated line splits a word of only 2 + 2 visible characters. */
  lemma ShortWordSplitExcluded(a: string, b: string, c: string)
    requires IsWord(a) && IsWord(b) && IsWord(c) && |a| == 2 && |b| == 4 && |c| == 8
    ensures !SplitsOnlyLong(
      [Line(a + " " + b[..2], true), Line(b[2..] + " " + c[..2], true), Line(c[2..], false)], 6)
  {
    var first := a + " " + b[..2];
    var second := b[2..] + " " + c[..2];
    var lines := [Line(first, true), Line(second, true), Line(c[2..], false)];
    assert first[4] == b[1] && first[..4] == a + " " + b[..1];
    assert first[..4][3] == b[0] && first[..4][..3] == a + " ";
    assert LastWordLength(a + " ") == 0;
    assert LastWordLength(first[..4]) == 1;
    assert LastWordLength(first) == 2;
    assert IsWord(b[2..]);
    WordLengthOfWord(b[2..], " " + c[..2]);
    assert second == b[2..] + (" " + c[..2]);
    assert !SplitsLongWord(lines[0], lines[1], 6);
  }
}
