/** The line wrapper `wrapString(text, width)`: reflows text into lines of at
    most `width` characters, packing words greedily with single spaces and
    breaking a word longer than the width with a hyphen. Its behaviour is the
    one pinned by the examples in tests/utilities.test.js:10-53. */
module LineWrap {
  import opened Strings

  // ---------------------------------------------------------------------------
  // Words
  // ---------------------------------------------------------------------------

  /** A word: a non-empty run of non-whitespace characters. */
  predicate IsWord(w: string) {
    |w| > 0 && forall i :: 0 <= i < |w| ==> !IsWhitespace(w[i])
  }

  predicate AllWords(ws: seq<string>) {
    forall i :: 0 <= i < |ws| ==> IsWord(ws[i])
  }

  /** Length of the leading run of non-whitespace characters of `s`. */
  function WordLength(s: string): (k: nat)
    ensures k <= |s|
    ensures forall i :: 0 <= i < k ==> !IsWhitespace(s[i])
    ensures k < |s| ==> IsWhitespace(s[k])
    decreases |s|
  {
    if s == [] || IsWhitespace(s[0]) then 0 else 1 + WordLength(s[1..])
  }

  /** The maximal runs of non-whitespace characters of `s`, in order; runs of
      whitespace of any length only separate them. */
  function Words(s: string): (ws: seq<string>)
    ensures AllWords(ws)
    decreases |s|
  {
    if s == [] then []
    else if IsWhitespace(s[0]) then Words(s[1..])
    else
      var k := WordLength(s);
      [s[..k]] + Words(s[k..])
  }

  /** Each word preceded by one space. */
  function Spaced(ws: seq<string>): string {
    if ws == [] then "" else " " + ws[0] + Spaced(ws[1..])
  }

  /** The words separated by single spaces. */
  function Unwords(ws: seq<string>): string {
    if ws == [] then "" else ws[0] + Spaced(ws[1..])
  }

  /** What a line that reads `cur` would read with the words `ws` appended,
      one space before each (no space before the first word of an empty line). */
  function Continue(cur: string, ws: seq<string>): string {
    if cur == [] then Unwords(ws) else cur + Spaced(ws)
  }

  // ---------------------------------------------------------------------------
  // Lines
  // ---------------------------------------------------------------------------

  /** One output line. A `broken` line ends inside a word and is printed with a
      hyphen after its text. */
  datatype Line = Line(text: string, broken: bool)

  /** The printed form of a line. */
  function Show(l: Line): string {
    if l.broken then l.text + "-" else l.text
  }

  function Shows(ls: seq<Line>): (r: seq<string>)
    ensures |r| == |ls|
    ensures forall i :: 0 <= i < |ls| ==> r[i] == Show(ls[i])
  {
    seq(|ls|, i requires 0 <= i < |ls| => Show(ls[i]))
  }

  /** What re-joining puts after a line: nothing after a broken line, whose
      word continues on the next one, and one space otherwise. */
  function Joint(l: Line): string {
    if l.broken then "" else " "
  }

  /** Every line followed by its joint. */
  function Flow(ls: seq<Line>): string {
    if ls == [] then "" else ls[0].text + Joint(ls[0]) + Flow(ls[1..])
  }

  /** The text that lines read as once the hyphens the wrapper added are
      deleted and the lines are joined again. */
  function Unwrap(ls: seq<Line>): string {
    if ls == [] then ""
    else if |ls| == 1 then ls[0].text
    else ls[0].text + Joint(ls[0]) + Unwrap(ls[1..])
  }

  /** Spaces are the only whitespace, and none stands at either end. */
  predicate Tidy(s: string) {
    && (forall i :: 0 <= i < |s| ==> s[i] == ' ' || !IsWhitespace(s[i]))
    && (s == [] || (s[0] != ' ' && s[|s| - 1] != ' '))
  }

  /** A finished line of a wrap at `width`: its printed form is no longer
      than the width, a broken line's printed form fills the width exactly,
      and its text is tidy. */
  predicate Fits(l: Line, width: nat) {
    && |Show(l)| <= width
    && (l.broken ==> |Show(l)| == width)
    && Tidy(l.text)
  }

  // ---------------------------------------------------------------------------
  // The wrapper
  // ---------------------------------------------------------------------------

  /** Breaks a word at the start of a fresh line: while it is longer than the
      width, `width - 1` characters go out with a hyphen; the last piece, at
      most `width` characters, becomes the current line. */
  function Chop(w: string, width: nat): (seq<Line>, string)
    requires width >= 2
    decreases |w|
  {
    if |w| <= width then ([], w)
    else
      var rest := Chop(w[width - 1..], width);
      ([Line(w[..width - 1], true)] + rest.0, rest.1)
  }

  /** Places the next word `w` after the current line `cur`; returns the lines
      finished on the way and the new current line. */
  function Place(cur: string, w: string, width: nat): (seq<Line>, string)
    requires width >= 2
  {
    if cur == [] then
      Chop(w, width)
    else if |cur| + 1 + |w| <= width then
      ([], cur + " " + w)
    else if |w| <= width then
      ([Line(cur, false)], w)
    else if |cur| + 3 <= width then
      // a space, at least one character and the hyphen still fit
      var k := width - |cur| - 2;
      var rest := Chop(w[k..], width);
      ([Line(cur + " " + w[..k], true)] + rest.0, rest.1)
    else
      var rest := Chop(w, width);
      ([Line(cur, false)] + rest.0, rest.1)
  }

  /** Wraps the words `ws` onto a current line that reads `cur`. */
  function WrapFrom(cur: string, ws: seq<string>, width: nat): (lines: seq<Line>)
    requires width >= 2
    ensures |lines| >= 1
    decreases |ws|
  {
    if ws == [] then
      [Line(cur, false)]
    else
      var step := Place(cur, ws[0], width);
      step.0 + WrapFrom(step.1, ws[1..], width)
  }

  /** The lines `wrapString(text, width)` produces, before they are joined. */
  function WrapLines(text: string, width: nat): seq<Line>
    requires width >= 2
  {
    WrapFrom("", Words(text), width)
  }

  /** `wrapString(text, width)`: the printed lines joined with line feeds. */
  function WrapString(text: string, width: nat): string
    requires width >= 2
  {
    Join(Shows(WrapLines(text, width)), '\n')
  }

  // ---------------------------------------------------------------------------
  // What each step of the wrapper guarantees
  // ---------------------------------------------------------------------------

  /** Re-joining the pieces `Chop` cuts gives the word back. */
  lemma {:induction false} ChopRejoins(w: string, width: nat)
    requires width >= 2
    ensures Flow(Chop(w, width).0) + Chop(w, width).1 == w
    decreases |w|
  {
    if |w| > width {
      var d := width - 1;
      var head, tail := w[..d], w[d..];
      var rest := Chop(tail, width);
      assert Chop(w, width) == ([Line(head, true)] + rest.0, rest.1);
      ChopRejoins(tail, width);
      assert Flow(rest.0) + rest.1 == tail;
      FlowCons(Line(head, true), rest.0);
      assert Flow([Line(head, true)] + rest.0) == head + Flow(rest.0) by {
        assert head + "" == head;
      }
      Reassociate(head, Flow(rest.0), rest.1);
      assert head + tail == w;
    }
  }

  /** The pieces `Chop` cuts are hyphenated words of `width - 1` characters,
      the rest is a word that fits, and there are pieces exactly when the
      word is too long. */
  lemma {:induction false} ChopPieces(w: string, width: nat)
    requires width >= 2 && IsWord(w)
    ensures var res := Chop(w, width);
      && IsWord(res.1) && |res.1| <= width
      && (forall i :: 0 <= i < |res.0| ==>
            res.0[i].broken && IsWord(res.0[i].text) && |res.0[i].text| == width - 1)
      && (res.0 == [] <==> |w| <= width)
    decreases |w|
  {
    if |w| > width {
      var d := width - 1;
      var rest := Chop(w[d..], width);
      ChopPieces(w[d..], width);
      var res := Chop(w, width);
      assert res.0 == [Line(w[..d], true)] + rest.0;
      forall i | 0 <= i < |res.0|
        ensures res.0[i].broken && IsWord(res.0[i].text) && |res.0[i].text| == d
      {
        if i > 0 {
          assert res.0[i] == rest.0[i - 1];
        }
      }
    }
  }

  /** Both together. */
  lemma ChopSpec(w: string, width: nat)
    requires width >= 2 && IsWord(w)
    ensures var res := Chop(w, width);
      && Flow(res.0) + res.1 == w
      && IsWord(res.1) && |res.1| <= width
      && (forall i :: 0 <= i < |res.0| ==>
            res.0[i].broken && IsWord(res.0[i].text) && |res.0[i].text| == width - 1)
      && (res.0 == [] <==> |w| <= width)
  {
    ChopRejoins(w, width);
    ChopPieces(w, width);
  }

  /** One placement re-joins to the current line and the word. */
  lemma PlaceFlow(cur: string, w: string, width: nat)
    requires width >= 2 && IsWord(w) && |cur| <= width && Tidy(cur)
    ensures var res := Place(cur, w, width);
      Flow(res.0) + res.1 == Continue(cur, [w])
  {
    ContinueOne(cur, w);
    if cur == [] {
      ChopSpec(w, width);
    } else if |cur| + 1 + |w| <= width {
    } else if |w| <= width {
    } else if |cur| + 3 <= width {
      InLineFlow(cur, w, width, width - |cur| - 2);
    } else {
      FreshLineFlow(cur, w, width);
    }
  }

  /** One placement leaves a tidy non-empty current line that fits, and
      finishes only lines that fit. */
  lemma PlaceFits(cur: string, w: string, width: nat)
    requires width >= 2 && IsWord(w) && |cur| <= width && Tidy(cur)
    ensures var res := Place(cur, w, width);
      && 0 < |res.1| <= width && Tidy(res.1)
      && AllFit(res.0, width)
  {
    var res := Place(cur, w, width);
    if cur == [] {
      ChopRest(w, width);
      assert res == Chop(w, width);
    } else if |cur| + 1 + |w| <= width {
      TidyJoin(cur, w);
      assert res == ([], cur + " " + w);
    } else if |w| <= width {
      WordIsTidy(w);
      assert res == ([Line(cur, false)], w);
    } else if |cur| + 3 <= width {
      var k := width - |cur| - 2;
      InLineFits(cur, w, width, k);
      ChopRest(w[k..], width);
      assert res.1 == Chop(w[k..], width).1;
    } else {
      FreshLineFits(cur, w, width);
      ChopRest(w, width);
      assert res.1 == Chop(w, width).1;
    }
  }

  /** A chop's finished lines fit, and the current line it leaves is a
      non-empty tidy piece that fits. */
  lemma ChopRest(w: string, width: nat)
    requires width >= 2 && IsWord(w)
    ensures AllFit(Chop(w, width).0, width)
    ensures var rest := Chop(w, width).1;
      0 < |rest| <= width && Tidy(rest)
  {
    ChopSpec(w, width);
    ChopFits(w, width);
  }

  /** A wrap ends on an unbroken line, and every line it produces fits. */
  lemma {:induction false} WrapFromFits(cur: string, ws: seq<string>, width: nat)
    requires width >= 2 && |cur| <= width && Tidy(cur) && AllWords(ws)
    ensures var lines := WrapFrom(cur, ws, width);
      |lines| >= 1 && !lines[|lines| - 1].broken && AllFit(lines, width)
    decreases |ws|
  {
    if ws != [] {
      var step := Place(cur, ws[0], width);
      PlaceFits(cur, ws[0], width);
      WrapFromFits(step.1, ws[1..], width);
      var rest := WrapFrom(step.1, ws[1..], width);
      AllFitAppend(step.0, rest, width);
      assert (step.0 + rest)[|step.0 + rest| - 1] == rest[|rest| - 1];
    }
  }

  /** `wrapString` yields at least one line, and every line fits the width. */
  lemma WrapLinesFit(text: string, width: nat)
    requires width >= 2
    ensures |WrapLines(text, width)| >= 1 && AllFit(WrapLines(text, width), width)
  {
    WrapFromFits("", Words(text), width);
  }

  /** Splitting `wrapString`'s result at line feeds gives the printed lines,
      each no longer than the width. */
  lemma WrapStringLines(text: string, width: nat)
    requires width >= 2
    ensures Split(WrapString(text, width), '\n') == Shows(WrapLines(text, width))
    ensures forall i :: 0 <= i < |Split(WrapString(text, width), '\n')| ==>
              |Split(WrapString(text, width), '\n')[i]| <= width
  {
    var lines := WrapLines(text, width);
    WrapLinesFit(text, width);
    WrapSplitsBack(lines, width);
  }

  // ---------------------------------------------------------------------------
  // Lemmas
  // ---------------------------------------------------------------------------

  lemma WordIsTidy(w: string)
    requires IsWord(w)
    ensures Tidy(w)
  {
  }

  lemma TidyHasNoLineFeed(s: string)
    requires Tidy(s)
    ensures '\n' !in s
  {
  }

  /** Printed wrapped lines contain no line feed, so splitting their join
      gives them back. */
  lemma WrapSplitsBack(lines: seq<Line>, width: nat)
    requires |lines| >= 1
    requires forall i :: 0 <= i < |lines| ==> Fits(lines[i], width)
    ensures Split(Join(Shows(lines), '\n'), '\n') == Shows(lines)
  {
    var shown := Shows(lines);
    forall k | 0 <= k < |shown|
      ensures '\n' !in shown[k]
    {
      TidyHasNoLineFeed(lines[k].text);
    }
    SplitJoin(shown, '\n');
  }

  lemma {:induction false} FlowAppend(a: seq<Line>, b: seq<Line>)
    ensures Flow(a + b) == Flow(a) + Flow(b)
    decreases |a|
  {
    if a == [] {
      assert a + b == b;
    } else {
      assert (a + b)[1..] == a[1..] + b;
      FlowAppend(a[1..], b);
    }
  }

  lemma {:induction false} UnwrapAppend(a: seq<Line>, b: seq<Line>)
    requires |b| >= 1
    ensures Unwrap(a + b) == Flow(a) + Unwrap(b)
    decreases |a|
  {
    if a == [] {
      assert a + b == b;
    } else {
      assert (a + b)[1..] == a[1..] + b;
      UnwrapAppend(a[1..], b);
    }
  }

  lemma {:induction false} FlowCons(l: Line, ls: seq<Line>)
    ensures Flow([l] + ls) == l.text + Joint(l) + Flow(ls)
  {
    assert ([l] + ls)[1..] == ls;
  }

  lemma TidyJoin(a: string, b: string)
    requires Tidy(a) && a != [] && IsWord(b)
    ensures Tidy(a + " " + b)
  {
    var s := a + " " + b;
    forall i | 0 <= i < |s|
      ensures s[i] == ' ' || !IsWhitespace(s[i])
    {
      if i < |a| {
        assert s[i] == a[i];
      } else if i > |a| {
        assert s[i] == b[i - |a| - 1];
      }
    }
  }

  lemma ChopFits(w: string, width: nat)
    requires width >= 2 && IsWord(w)
    ensures forall i :: 0 <= i < |Chop(w, width).0| ==> Fits(Chop(w, width).0[i], width)
    ensures Tidy(Chop(w, width).1)
  {
    var res := Chop(w, width);
    ChopSpec(w, width);
    forall i | 0 <= i < |res.0|
      ensures Fits(res.0[i], width)
    {
      WordIsTidy(res.0[i].text);
    }
    WordIsTidy(res.1);
  }

  predicate AllFit(ls: seq<Line>, width: nat) {
    forall i :: 0 <= i < |ls| ==> Fits(ls[i], width)
  }

  lemma AllFitAppend(a: seq<Line>, b: seq<Line>, width: nat)
    requires AllFit(a, width) && AllFit(b, width)
    ensures AllFit(a + b, width)
  {
    forall i | 0 <= i < |a + b|
      ensures Fits((a + b)[i], width)
    {
      if i < |a| {
        assert (a + b)[i] == a[i];
      } else {
        assert (a + b)[i] == b[i - |a|];
      }
    }
  }

  /** Appending one word to a line. */
  lemma ContinueOne(cur: string, w: string)
    ensures Continue(cur, [w]) == if cur == [] then w else cur + " " + w
  {
    assert [w][1..] == [];
    assert Spaced([w]) == " " + w + "";
    assert Unwords([w]) == w + "";
  }

  lemma SplicePieces(cur: string, w: string, k: nat, f: string, r: string)
    requires 0 <= k <= |w|
    requires f + r == w[k..]
    ensures cur + " " + w[..k] + "" + f + r == cur + " " + w
  {
    assert w[..k] + w[k..] == w;
  }

  /** The over-long word's first `k` characters finish the current line:
      re-joining gives the current line, a space and the word. */
  lemma InLineFlow(cur: string, w: string, width: nat, k: nat)
    requires width >= 2 && IsWord(w) && cur != []
    requires |cur| + 3 <= width && k == width - |cur| - 2 && |w| > width
    ensures Flow([Line(cur + " " + w[..k], true)] + Chop(w[k..], width).0) + Chop(w[k..], width).1
            == Continue(cur, [w])
  {
    var rest := Chop(w[k..], width);
    ChopSpec(w[k..], width);
    FlowCons(Line(cur + " " + w[..k], true), rest.0);
    SplicePieces(cur, w, k, Flow(rest.0), rest.1);
    ContinueOne(cur, w);
  }

  /** The line finished with the first `k` characters and a hyphen fills the width. */
  lemma InLineFits(cur: string, w: string, width: nat, k: nat)
    requires width >= 2 && IsWord(w) && Tidy(cur) && cur != []
    requires |cur| + 3 <= width && k == width - |cur| - 2 && |w| > width
    ensures AllFit([Line(cur + " " + w[..k], true)] + Chop(w[k..], width).0, width)
  {
    var head := Line(cur + " " + w[..k], true);
    ChopFits(w[k..], width);
    TidyJoin(cur, w[..k]);
    assert Fits(head, width);
    assert AllFit([head], width);
    AllFitAppend([head], Chop(w[k..], width).0, width);
  }

  /** The current line is finished and the over-long word is broken from a
      fresh line: re-joining gives the current line, a space and the word. */
  lemma FreshLineFlow(cur: string, w: string, width: nat)
    requires width >= 2 && IsWord(w) && cur != []
    ensures Flow([Line(cur, false)] + Chop(w, width).0) + Chop(w, width).1 == Continue(cur, [w])
  {
    ChopSpec(w, width);
    FlowCons(Line(cur, false), Chop(w, width).0);
    ContinueOne(cur, w);
  }

  lemma FreshLineFits(cur: string, w: string, width: nat)
    requires width >= 2 && IsWord(w) && Tidy(cur) && |cur| <= width
    ensures AllFit([Line(cur, false)] + Chop(w, width).0, width)
  {
    ChopFits(w, width);
    assert AllFit([Line(cur, false)], width);
    AllFitAppend([Line(cur, false)], Chop(w, width).0, width);
  }

  lemma SpacedOne(w: string)
    ensures Spaced([w]) == " " + w
  {
    assert [w][1..] == [];
    assert " " + w + Spaced([]) == " " + w;
  }

  lemma ContinueCons(cur: string, w: string, ws: seq<string>)
    ensures Continue(cur, [w]) + Spaced(ws) == Continue(cur, [w] + ws)
  {
    var sw := Spaced(ws);
    var l := [w] + ws;
    assert l[0] == w && l[1..] == ws && [w][1..] == [];
    SpacedOne(w);
    if cur == [] {
      assert Unwords([w]) == w + Spaced([]);
      assert w + Spaced([]) == w;
    } else {
      Reassociate(cur, " " + w, sw);
    }
  }

  lemma ContinueLine(cur: string, ws: seq<string>)
    requires cur != []
    ensures Continue(cur, ws) == cur + Spaced(ws)
  {
  }

  lemma UnwrapStep(cur: string, ws: seq<string>, done: seq<Line>, next: string, rest: seq<Line>)
    requires |ws| >= 1 && next != []
    requires Flow(done) + next == Continue(cur, [ws[0]])
    requires |rest| >= 1 && Unwrap(rest) == Continue(next, ws[1..])
    ensures Unwrap(done + rest) == Continue(cur, ws)
  {
    UnwrapAppend(done, rest);
    ContinueLine(next, ws[1..]);
    Reassociate(Flow(done), next, Spaced(ws[1..]));
    ContinueCons(cur, ws[0], ws[1..]);
    assert [ws[0]] + ws[1..] == ws;
  }

  /** Re-joining the wrapped lines gives the current line followed by the words. */
  lemma {:induction false} WrapFromRejoins(cur: string, ws: seq<string>, width: nat)
    requires width >= 2 && |cur| <= width && Tidy(cur) && AllWords(ws)
    ensures Unwrap(WrapFrom(cur, ws, width)) == Continue(cur, ws)
    decreases |ws|
  {
    if ws != [] {
      var step := Place(cur, ws[0], width);
      PlaceFlow(cur, ws[0], width);
      PlaceFits(cur, ws[0], width);
      WrapFromRejoins(step.1, ws[1..], width);
      UnwrapStep(cur, ws, step.0, step.1, WrapFrom(step.1, ws[1..], width));
    }
  }

  // ---------------------------------------------------------------------------
  // Re-joining recovers the words
  // ---------------------------------------------------------------------------

  lemma {:induction false} WordLengthOfWord(w: string, t: string)
    requires IsWord(w) && (t == [] || IsWhitespace(t[0]))
    ensures WordLength(w + t) == |w|
    decreases |w|
  {
    if |w| == 1 {
      assert (w + t)[1..] == t;
    } else {
      assert (w + t)[1..] == w[1..] + t;
      WordLengthOfWord(w[1..], t);
    }
  }

  lemma WordsOfWord(w: string, t: string)
    requires IsWord(w) && (t == [] || IsWhitespace(t[0]))
    ensures Words(w + t) == [w] + Words(t)
  {
    WordLengthOfWord(w, t);
    assert (w + t)[..|w|] == w;
    assert (w + t)[|w|..] == t;
  }

  lemma SpacedIsSpaceUnwords(ws: seq<string>)
    requires ws != []
    ensures Spaced(ws) == " " + Unwords(ws)
  {
  }

  lemma WordsAfterSpace(s: string)
    ensures Words(" " + s) == Words(s)
  {
    assert (" " + s)[1..] == s;
  }

  /** Splitting the single-spaced text of some words into words gives them back. */
  lemma {:induction false} WordsOfUnwords(ws: seq<string>)
    requires AllWords(ws)
    ensures Words(Unwords(ws)) == ws
    decreases |ws|
  {
    if ws != [] {
      var rest := Spaced(ws[1..]);
      if ws[1..] != [] {
        SpacedIsSpaceUnwords(ws[1..]);
        WordsOfUnwords(ws[1..]);
        WordsAfterSpace(Unwords(ws[1..]));
      }
      assert Words(rest) == ws[1..];
      WordsOfWord(ws[0], rest);
      assert Unwords(ws) == ws[0] + rest;
      assert ws == [ws[0]] + ws[1..];
    }
  }

  /** Re-joining the wrapped lines (each hyphen a break added deleted) reads
      as the input's words separated by single spaces. */
  lemma WrapLinesRejoins(text: string, width: nat)
    requires width >= 2
    ensures Unwrap(WrapLines(text, width)) == Unwords(Words(text))
  {
    WrapFromRejoins("", Words(text), width);
  }

  /** ... so re-joining recovers the input's words, in order. */
  lemma WrapKeepsWords(text: string, width: nat)
    requires width >= 2
    ensures Words(Unwrap(WrapLines(text, width))) == Words(text)
  {
    WrapLinesRejoins(text, width);
    WordsOfUnwords(Words(text));
  }

  // ---------------------------------------------------------------------------
  // Text that fits stays on one line
  // ---------------------------------------------------------------------------

  /** Normalising whitespace never lengthens a text. */
  lemma {:induction false} UnwordsNoLonger(s: string)
    ensures |Unwords(Words(s))| <= |s|
    decreases |s|
  {
    if s == [] {
    } else if IsWhitespace(s[0]) {
      UnwordsNoLonger(s[1..]);
    } else {
      var k := WordLength(s);
      var rest := Words(s[k..]);
      assert Words(s) == [s[..k]] + rest;
      assert Unwords(Words(s)) == s[..k] + Spaced(rest);
      if rest != [] {
        assert s[k..] != [];
        assert Words(s[k..]) == Words(s[k + 1..]);
        UnwordsNoLonger(s[k + 1..]);
        SpacedIsSpaceUnwords(rest);
      }
    }
  }

  /** A word that fits after the current line joins it. */
  lemma PlaceFitting(cur: string, w: string, width: nat)
    requires width >= 2 && IsWord(w) && |cur| <= width && Tidy(cur)
    requires |Continue(cur, [w])| <= width
    ensures Place(cur, w, width) == ([], Continue(cur, [w]))
  {
    ContinueOne(cur, w);
  }

  /** Words whose single-spaced text still fits after `cur` finish no line. */
  lemma {:induction false} NoBreakWhileFitting(cur: string, ws: seq<string>, width: nat)
    requires width >= 2 && |cur| <= width && Tidy(cur) && AllWords(ws)
    requires |Continue(cur, ws)| <= width
    ensures WrapFrom(cur, ws, width) == [Line(Continue(cur, ws), false)]
    decreases |ws|
  {
    if ws == [] {
      assert Continue(cur, ws) == cur;
    } else {
      var w := ws[0];
      ContinueCons(cur, w, ws[1..]);
      assert [w] + ws[1..] == ws;
      PlaceFitting(cur, w, width);
      var step := Place(cur, w, width);
      NoBreakWhileFitting(step.1, ws[1..], width);
      assert WrapFrom(cur, ws, width) == step.0 + WrapFrom(step.1, ws[1..], width);
    }
  }

  /** A text stays on one line exactly when its words, single-spaced, fit the width. */
  lemma OneLineIffFits(text: string, width: nat)
    requires width >= 2
    ensures |WrapLines(text, width)| == 1 <==> |Unwords(Words(text))| <= width
    ensures |Unwords(Words(text))| <= width ==>
              WrapLines(text, width) == [Line(Unwords(Words(text)), false)]
  {
    var lines := WrapLines(text, width);
    WrapLinesFit(text, width);
    WrapLinesRejoins(text, width);
    if |lines| == 1 {
      assert Unwrap(lines) == lines[0].text;
      assert Fits(lines[0], width);
    }
    if |Unwords(Words(text))| <= width {
      NoBreakWhileFitting("", Words(text), width);
    }
  }

  /** In particular a text no longer than the width stays on one line. */
  lemma ShortTextOneLine(text: string, width: nat)
    requires width >= 2 && |text| <= width
    ensures WrapLines(text, width) == [Line(Unwords(Words(text)), false)]
  {
    UnwordsNoLonger(text);
    OneLineIffFits(text, width);
  }

  // ---------------------------------------------------------------------------
  // Greedy packing
  // ---------------------------------------------------------------------------

  /** A line `a` followed by `b` shows the greedy packing: when `a` ends at a
      word boundary, the first piece of `b` would not have fitted after a
      space on `a`, and when `b` is the first piece of an over-long word
      broken from a fresh line, not even one character and the hyphen would
      have fitted after a space on `a`. */
  predicate GreedyPair(a: Line, b: Line, width: nat) {
    !a.broken ==>
      && |a.text| + 1 + WordLength(b.text) > width
      && (b.broken && WordLength(b.text) == |b.text| ==> |a.text| + 3 > width)
  }

  predicate Greedy(lines: seq<Line>, width: nat) {
    forall i :: 0 <= i < |lines| - 1 ==> GreedyPair(lines[i], lines[i + 1], width)
  }

  /** `l` continues the current line `cur`: it is `cur` itself, finished, or
      `cur` followed by a space and more. */
  predicate Continues(l: Line, cur: string) {
    l == Line(cur, false) || (|l.text| > |cur| && l.text[..|cur| + 1] == cur + " ")
  }

  lemma GreedyAppend(a: seq<Line>, b: seq<Line>, width: nat)
    requires Greedy(a, width) && Greedy(b, width)
    requires a != [] && b != [] ==> GreedyPair(a[|a| - 1], b[0], width)
    ensures Greedy(a + b, width)
  {
    var ab := a + b;
    forall i | 0 <= i < |ab| - 1
      ensures GreedyPair(ab[i], ab[i + 1], width)
    {
      if i + 1 < |a| {
        assert ab[i] == a[i] && ab[i + 1] == a[i + 1];
      } else if i + 1 == |a| {
        assert ab[i] == a[|a| - 1] && ab[i + 1] == b[0];
      } else {
        assert ab[i] == b[i - |a|] && ab[i + 1] == b[i - |a| + 1];
      }
    }
  }

  lemma {:induction false} WordLengthExtend(c: string, t: string)
    requires t != [] && IsWhitespace(t[0])
    ensures WordLength(c + t) == WordLength(c)
    decreases |c|
  {
    if c == [] {
      assert c + t == t;
    } else {
      assert (c + t)[1..] == c[1..] + t;
      WordLengthExtend(c[1..], t);
    }
  }

  /** A line that continues `cur` begins with the same piece as `cur`, and is
      not the first piece of a word broken from a fresh line. */
  lemma ContinuesLead(l: Line, cur: string)
    requires cur != [] && Continues(l, cur)
    ensures WordLength(l.text) == WordLength(cur)
    ensures !(l.broken && WordLength(l.text) == |l.text|)
  {
    if l != Line(cur, false) {
      var t := l.text[|cur|..];
      assert l.text == cur + t;
      assert t[0] == ' ';
      WordLengthExtend(cur, t);
    }
  }

  /** The greedy facts of one placement: between the lines it finishes, and
      between its last finished line and the new current line. */
  lemma PlaceGreedy(cur: string, w: string, width: nat)
    requires width >= 2 && IsWord(w) && |cur| <= width && Tidy(cur)
    ensures Greedy(Place(cur, w, width).0, width)
    ensures var step := Place(cur, w, width);
      step.0 != [] && !step.0[|step.0| - 1].broken ==>
        |step.0[|step.0| - 1].text| + 1 + WordLength(step.1) > width
  {
    var step := Place(cur, w, width);
    if cur == [] {
      ChopSpec(w, width);
    } else if |cur| + 1 + |w| <= width {
    } else if |w| <= width {
      WordLengthOfWord(w, []);
      assert w + [] == w;
    } else if |cur| + 3 <= width {
      var k := width - |cur| - 2;
      var chop := Chop(w[k..], width);
      ChopSpec(w[k..], width);
      assert step.0 == [Line(cur + " " + w[..k], true)] + chop.0;
      assert forall i :: 0 <= i < |step.0| ==> step.0[i].broken;
    } else {
      var chop := Chop(w, width);
      ChopSpec(w, width);
      assert step.0 == [Line(cur, false)] + chop.0;
      var first := chop.0[0];
      WordLengthOfWord(first.text, []);
      assert first.text + [] == first.text;
      assert GreedyPair(Line(cur, false), first, width);
      assert forall i :: 1 <= i < |step.0| ==> step.0[i].broken;
    }
  }

  /** A wrap started on a non-empty current line begins by continuing it. */
  lemma {:induction false} WrapFromContinues(cur: string, ws: seq<string>, width: nat)
    requires width >= 2 && |cur| <= width && Tidy(cur) && AllWords(ws) && cur != []
    ensures Continues(WrapFrom(cur, ws, width)[0], cur)
    decreases |ws|
  {
    if ws != [] {
      var w := ws[0];
      var step := Place(cur, w, width);
      PlaceFits(cur, w, width);
      var rest := WrapFrom(step.1, ws[1..], width);
      assert WrapFrom(cur, ws, width) == step.0 + rest;
      if |cur| + 1 + |w| <= width {
        WrapFromContinues(step.1, ws[1..], width);
        var t := rest[0].text;
        assert step.1 == cur + " " + w;
        if rest[0] == Line(step.1, false) {
          assert t[..|cur| + 1] == cur + " ";
        } else {
          assert t[..|cur| + 1] == t[..|step.1| + 1][..|cur| + 1];
          assert (step.1 + " ")[..|cur| + 1] == cur + " ";
        }
      }
    }
  }

  /** The wrapper packs greedily: no line could have taken the piece that
      starts the next one. */
  lemma {:induction false} WrapFromGreedy(cur: string, ws: seq<string>, width: nat)
    requires width >= 2 && |cur| <= width && Tidy(cur) && AllWords(ws)
    ensures Greedy(WrapFrom(cur, ws, width), width)
    decreases |ws|
  {
    if ws != [] {
      var step := Place(cur, ws[0], width);
      var rest := WrapFrom(step.1, ws[1..], width);
      PlaceFits(cur, ws[0], width);
      PlaceGreedy(cur, ws[0], width);
      WrapFromGreedy(step.1, ws[1..], width);
      WrapFromContinues(step.1, ws[1..], width);
      ContinuesLead(rest[0], step.1);
      GreedyAppend(step.0, rest, width);
    }
  }

  lemma WrapLinesGreedy(text: string, width: nat)
    requires width >= 2
    ensures Greedy(WrapLines(text, width), width)
  {
    WrapFromGreedy("", Words(text), width);
  }

  // ---------------------------------------------------------------------------
  // Hyphens only for over-long words
  // ---------------------------------------------------------------------------

  /** No line ends in a break hyphen. */
  predicate Unbroken(lines: seq<Line>) {
    forall i :: 0 <= i < |lines| ==> !lines[i].broken
  }

  /** Every word fits the width on a line of its own. */
  predicate ShortWords(ws: seq<string>, width: nat) {
    forall i :: 0 <= i < |ws| ==> |ws[i]| <= width
  }

  lemma UnbrokenAppend(a: seq<Line>, b: seq<Line>)
    ensures Unbroken(a + b) <==> Unbroken(a) && Unbroken(b)
  {
    var ab := a + b;
    if Unbroken(ab) {
      forall i | 0 <= i < |a|
        ensures !a[i].broken
      {
        assert a[i] == ab[i];
      }
      forall i | 0 <= i < |b|
        ensures !b[i].broken
      {
        assert b[i] == ab[|a| + i];
      }
    }
    if Unbroken(a) && Unbroken(b) {
      forall i | 0 <= i < |ab|
        ensures !ab[i].broken
      {
        if i >= |a| {
          assert ab[i] == b[i - |a|];
        }
      }
    }
  }

  /** Placing a word finishes a hyphenated line exactly when the word is
      wider than the width. */
  lemma PlaceUnbroken(cur: string, w: string, width: nat)
    requires width >= 2
    ensures Unbroken(Place(cur, w, width).0) <==> |w| <= width
  {
    if |w| > width {
      var res := Place(cur, w, width);
      if cur == [] || |cur| + 3 > width {
        var chop := Chop(w, width);
        assert chop.0[0].broken;
        if cur == [] {
          assert res.0[0].broken;
        } else {
          assert res.0 == [Line(cur, false)] + chop.0;
          assert res.0[1].broken;
        }
      } else {
        assert res.0[0].broken;
      }
    }
  }

  /** A wrap has no hyphenated line exactly when each word to place fits
      the width. */
  lemma {:induction false} WrapFromUnbroken(cur: string, ws: seq<string>, width: nat)
    requires width >= 2
    ensures Unbroken(WrapFrom(cur, ws, width)) <==> ShortWords(ws, width)
    decreases |ws|
  {
    if ws != [] {
      var step := Place(cur, ws[0], width);
      var rest := WrapFrom(step.1, ws[1..], width);
      assert WrapFrom(cur, ws, width) == step.0 + rest;
      UnbrokenAppend(step.0, rest);
      PlaceUnbroken(cur, ws[0], width);
      WrapFromUnbroken(step.1, ws[1..], width);
      if ShortWords(ws[1..], width) && |ws[0]| <= width {
        forall i | 0 <= i < |ws|
          ensures |ws[i]| <= width
        {
          if i > 0 {
            assert ws[i] == ws[1..][i - 1];
          }
        }
      }
    }
  }

  /** `wrapString` hyphenates no line exactly when every word of the text
      fits the width. `OnlyLongWordsBroken` covers texts that also hold an
      over-long word. */
  lemma ShortWordsUnbroken(text: string, width: nat)
    requires width >= 2
    ensures Unbroken(WrapLines(text, width)) <==> ShortWords(Words(text), width)
  {
    WrapFromUnbroken("", Words(text), width);
  }

  /** Length of the trailing run of non-whitespace characters of `s`: the
      piece of a word that a line ends with. */
  function LastWordLength(s: string): (k: nat)
    ensures k <= |s|
    decreases |s|
  {
    if s == [] || IsWhitespace(s[|s| - 1]) then 0 else 1 + LastWordLength(s[..|s| - 1])
  }

  /** A hyphenated line `a` followed by `b` splits a word wider than the
      width: the piece that ends `a` and the piece that starts `b` are
      together wider than the width, or `b` is a further hyphenated piece of
      the same word, which goes on past it. */
  predicate SplitsLongWord(a: Line, b: Line, width: nat) {
    a.broken ==>
      || LastWordLength(a.text) + WordLength(b.text) > width
      || (b.broken && WordLength(b.text) == |b.text|)
  }

  /** Every hyphenated line with a successor splits a word wider than the
      width. */
  predicate SplitsOnlyLong(lines: seq<Line>, width: nat) {
    forall i :: 0 <= i < |lines| - 1 ==> SplitsLongWord(lines[i], lines[i + 1], width)
  }

  lemma {:induction false} LastWordLengthOfWord(t: string, p: string)
    requires IsWord(p)
    ensures LastWordLength(t + p) >= |p|
    decreases |p|
  {
    var s := t + p;
    assert s[|s| - 1] == p[|p| - 1];
    if |p| > 1 {
      assert s[..|s| - 1] == t + p[..|p| - 1];
      LastWordLengthOfWord(t, p[..|p| - 1]);
    }
  }

  lemma SplitsOnlyLongAppend(a: seq<Line>, b: seq<Line>, width: nat)
    requires SplitsOnlyLong(a, width) && SplitsOnlyLong(b, width)
    requires a != [] && b != [] ==> SplitsLongWord(a[|a| - 1], b[0], width)
    ensures SplitsOnlyLong(a + b, width)
  {
    var ab := a + b;
    forall i | 0 <= i < |ab| - 1
      ensures SplitsLongWord(ab[i], ab[i + 1], width)
    {
      if i + 1 < |a| {
        assert ab[i] == a[i] && ab[i + 1] == a[i + 1];
      } else if i + 1 == |a| {
        assert ab[i] == a[|a| - 1] && ab[i + 1] == b[0];
      } else {
        assert ab[i] == b[i - |a|] && ab[i + 1] == b[i - |a| + 1];
      }
    }
  }

  lemma WordSuffix(w: string, j: nat)
    requires IsWord(w) && j < |w|
    ensures IsWord(w[j..])
  {
    var v := w[j..];
    forall i | 0 <= i < |v| ensures !IsWhitespace(v[i]) {
      assert v[i] == w[j + i];
    }
  }

  /** The first piece chopped off a word and what follows it: a further
      piece when the rest is still too wide, otherwise the rest, which
      together with the piece is wider than the width. */
  lemma ChopHeadPair(w: string, width: nat)
    requires width >= 2 && IsWord(w) && |w| > width
    ensures var head := Line(w[..width - 1], true);
      var rest := Chop(w[width - 1..], width);
      && (rest.0 == [] ==> LastWordLength(head.text) + |rest.1| > width)
      && (rest.0 != [] ==> SplitsLongWord(head, rest.0[0], width))
  {
    var v := w[width - 1..];
    if |v| <= width {
      WordPrefix(w, width - 1);
      LastWordLengthOfWord([], w[..width - 1]);
      assert [] + w[..width - 1] == w[..width - 1];
      assert Chop(v, width) == ([], v);
    } else {
      var next := v[..width - 1];
      WordSuffix(w, width - 1);
      WordPrefix(v, width - 1);
      assert Chop(v, width).0[0] == Line(next, true);
      WordLengthOfWord(next, []);
      assert next + [] == next;
    }
  }

  lemma WordPrefix(w: string, j: nat)
    requires IsWord(w) && 0 < j <= |w|
    ensures IsWord(w[..j])
  {
  }

  /** The pieces of a chopped word: each is followed by a further piece,
      and the last piece and the rest are together wider than the width. */
  lemma {:induction false} ChopSplitsLong(w: string, width: nat)
    requires width >= 2 && IsWord(w)
    ensures var res := Chop(w, width);
      && SplitsOnlyLong(res.0, width)
      && (res.0 != [] ==> LastWordLength(res.0[|res.0| - 1].text) + |res.1| > width)
    decreases |w|
  {
    if |w| > width {
      var v := w[width - 1..];
      var rest := Chop(v, width);
      var head := Line(w[..width - 1], true);
      var lines := [head] + rest.0;
      assert Chop(w, width) == (lines, rest.1);
      WordSuffix(w, width - 1);
      ChopSplitsLong(v, width);
      ChopHeadPair(w, width);
      SplitsOnlyLongAppend([head], rest.0, width);
      if rest.0 != [] {
        assert lines[|lines| - 1] == rest.0[|rest.0| - 1];
      }
    }
  }

  /** One placement: the lines it finishes split only long words, and a
      hyphenated last one is continued by the new current line. */
  lemma PlaceSplitsLong(cur: string, w: string, width: nat)
    requires width >= 2 && IsWord(w) && |cur| <= width && Tidy(cur)
    ensures SplitsOnlyLong(Place(cur, w, width).0, width)
    ensures var step := Place(cur, w, width);
      step.0 != [] && step.0[|step.0| - 1].broken ==>
        LastWordLength(step.0[|step.0| - 1].text) + WordLength(step.1) > width
  {
    if cur == [] {
      ChopTailSplitsLong([], w, width);
      assert [] + Chop(w, width).0 == Chop(w, width).0;
    } else if |cur| + 1 + |w| <= width {
    } else if |w| <= width {
    } else if |cur| + 3 <= width {
      InLineSplitsLong(cur, w, width);
    } else {
      ChopTailSplitsLong([Line(cur, false)], w, width);
    }
  }

  /** A word chopped from a fresh line after the unbroken lines `done`. */
  lemma ChopTailSplitsLong(done: seq<Line>, w: string, width: nat)
    requires width >= 2 && IsWord(w) && Unbroken(done)
    ensures var chop := Chop(w, width);
      && SplitsOnlyLong(done + chop.0, width)
      && (done + chop.0 != [] && (done + chop.0)[|done + chop.0| - 1].broken ==>
            LastWordLength((done + chop.0)[|done + chop.0| - 1].text) + WordLength(chop.1) > width)
  {
    var chop := Chop(w, width);
    var lines := done + chop.0;
    ChopSplitsLong(w, width);
    ChopSpec(w, width);
    WordLengthOfWord(chop.1, []);
    assert chop.1 + [] == chop.1;
    assert SplitsOnlyLong(done, width);
    SplitsOnlyLongAppend(done, chop.0, width);
    if lines != [] && lines[|lines| - 1].broken {
      assert chop.0 != [] && lines[|lines| - 1] == chop.0[|chop.0| - 1];
    }
  }

  /** A word whose first piece continues the current line. */
  lemma InLineSplitsLong(cur: string, w: string, width: nat)
    requires width >= 2 && IsWord(w) && Tidy(cur) && cur != []
    requires |cur| + 3 <= width && |w| > width
    ensures var step := Place(cur, w, width);
      && SplitsOnlyLong(step.0, width)
      && step.0 != [] && step.0[|step.0| - 1].broken
      && LastWordLength(step.0[|step.0| - 1].text) + WordLength(step.1) > width
  {
    var k := width - |cur| - 2;
    var v := w[k..];
    var chop := Chop(v, width);
    var head := Line(cur + " " + w[..k], true);
    var lines := [head] + chop.0;
    assert Place(cur, w, width) == (lines, chop.1);
    assert IsWord(w[..k]);
    assert IsWord(v) by {
      forall i | 0 <= i < |v| ensures !IsWhitespace(v[i]) {
        assert v[i] == w[k + i];
      }
    }
    ChopSplitsLong(v, width);
    ChopSpec(v, width);
    LastWordLengthOfWord(cur + " ", w[..k]);
    WordLengthOfWord(chop.1, []);
    assert chop.1 + [] == chop.1;
    if chop.0 != [] {
      WordLengthOfWord(chop.0[0].text, []);
      assert chop.0[0].text + [] == chop.0[0].text;
      assert lines[|lines| - 1] == chop.0[|chop.0| - 1];
    }
    SplitsOnlyLongAppend([head], chop.0, width);
  }

  lemma {:induction false} WrapFromSplitsLong(cur: string, ws: seq<string>, width: nat)
    requires width >= 2 && |cur| <= width && Tidy(cur) && AllWords(ws)
    ensures SplitsOnlyLong(WrapFrom(cur, ws, width), width)
    decreases |ws|
  {
    if ws != [] {
      var step := Place(cur, ws[0], width);
      var rest := WrapFrom(step.1, ws[1..], width);
      assert WrapFrom(cur, ws, width) == step.0 + rest;
      PlaceFits(cur, ws[0], width);
      PlaceSplitsLong(cur, ws[0], width);
      WrapFromSplitsLong(step.1, ws[1..], width);
      WrapFromContinues(step.1, ws[1..], width);
      ContinuesLead(rest[0], step.1);
      assert step.0 != [] ==> SplitsLongWord(step.0[|step.0| - 1], rest[0], width);
      SplitsOnlyLongAppend(step.0, rest, width);
    }
  }

  /** `wrapString` hyphenates only words wider than the width, whatever
      else the text holds: a hyphenated line is never the last, and the
      piece it ends with and the piece the next line starts with are
      together wider than the width, unless the next line is itself a
      further hyphenated piece of the same word. A word that fits is thus
      never broken, even beside an over-long one. */
  lemma OnlyLongWordsBroken(text: string, width: nat)
    requires width >= 2
    ensures var lines := WrapLines(text, width);
      && SplitsOnlyLong(lines, width)
      && !lines[|lines| - 1].broken
  {
    WrapFromSplitsLong("", Words(text), width);
    WrapFromFits("", Words(text), width);
  }

  // ---------------------------------------------------------------------------
  // Boundaries
  // ---------------------------------------------------------------------------

  lemma WordsOfSingleWord(w: string)
    requires IsWord(w)
    ensures Words(w) == [w]
  {
    WordsOfWord(w, []);
    assert w + [] == w;
  }

  /** A word exactly as long as the width occupies one line, unbroken. */
  lemma WordOfExactWidth(w: string, width: nat)
    requires width >= 2 && IsWord(w) && |w| == width
    ensures WrapLines(w, width) == [Line(w, false)]
  {
    WordsOfSingleWord(w);
    ShortTextOneLine(w, width);
    assert Unwords([w]) == w;
  }

  /** A word one character longer than the width is broken after `width - 1`
      characters, with a hyphen, and its last two characters go on the next line. */
  lemma WordOverWidthByOne(w: string, width: nat)
    requires width >= 2 && IsWord(w) && |w| == width + 1
    ensures WrapLines(w, width) == [Line(w[..width - 1], true), Line(w[width - 1..], false)]
  {
    WordsOfSingleWord(w);
    var rest := Chop(w[width - 1..], width);
    assert rest == ([], w[width - 1..]);
    assert [Line(w[..width - 1], true)] + rest.0 == [Line(w[..width - 1], true)];
    assert Chop(w, width) == ([Line(w[..width - 1], true)], w[width - 1..]);
    assert [w] == [w] + [];
    assert WrapFrom("", [w], width) == [Line(w[..width - 1], true)] + WrapFrom(w[width - 1..], [], width);
  }
}
