/** Wrapping is idempotent: the printed lines of `wrapString(text, width)`
    already fit the width and break where the wrapper would, so wrapping
    the wrapped text again at the same width changes nothing. A line feed
    is whitespace to the wrapper, so the re-wrap sees the printed lines'
    words (hyphens included) and packs each line back as it was. */
module Rewrap {
  import opened Strings
  import opened LineWrap

  // ---------------------------------------------------------------------------
  // Single-spaced text
  // ---------------------------------------------------------------------------

  /** No two spaces stand next to each other. */
  predicate SingleSpaced(s: string) {
    forall i :: 0 <= i && i + 1 < |s| ==> !(s[i] == ' ' && s[i + 1] == ' ')
  }

  /** Text as the wrapper writes a line: tidy and single-spaced. */
  predicate Normal(s: string) {
    Tidy(s) && SingleSpaced(s)
  }

  /** After the first word of a normal text with more to come stands one
      space, and the rest after it is normal and has the same words. */
  lemma NormalRest(p: string)
    requires Normal(p) && WordLength(p) < |p|
    ensures var k := WordLength(p);
      && k > 0 && k + 1 < |p| && p[k] == ' '
      && Normal(p[k + 1..]) && p[k + 1..] != []
      && Words(p[k..]) == Words(p[k + 1..])
  {
    var k := WordLength(p);
    assert p[k] == ' ';
    var q := p[k + 1..];
    SingleSpacedSuffix(p, k + 1);
    assert q[|q| - 1] == p[|p| - 1];
    assert q[0] == p[k + 1];
    assert Tidy(q);
    assert p[k..][1..] == q;
  }

  lemma SingleSpacedSuffix(p: string, j: nat)
    requires SingleSpaced(p) && j <= |p|
    ensures SingleSpaced(p[j..])
  {
    var q := p[j..];
    forall i | 0 <= i && i + 1 < |q|
      ensures !(q[i] == ' ' && q[i + 1] == ' ')
    {
      assert q[i] == p[j + i] && q[i + 1] == p[j + i + 1];
    }
  }

  lemma UnwordsCons(w: string, ws: seq<string>)
    requires ws != []
    ensures Unwords([w] + ws) == w + " " + Unwords(ws)
  {
    assert ([w] + ws)[0] == w && ([w] + ws)[1..] == ws;
    SpacedIsSpaceUnwords(ws);
    Reassociate(w, " ", Unwords(ws));
  }

  /** The words of a non-empty normal text: its first word, then the words
      of the rest. */
  lemma NormalWords(p: string)
    requires Normal(p) && p != []
    ensures Words(p) == [p[..WordLength(p)]] + Words(p[WordLength(p)..])
  {
    assert p[0] != ' ';
  }

  lemma SplitAround(p: string, k: nat)
    requires k < |p| && p[k] == ' '
    ensures p == p[..k] + " " + p[k + 1..]
  {
  }

  /** A normal text is its own words, single-spaced. */
  lemma {:induction false} NormalUnwords(p: string)
    requires Normal(p)
    ensures Unwords(Words(p)) == p
    decreases |p|
  {
    if p != [] {
      var k := WordLength(p);
      var w := p[..k];
      NormalWords(p);
      if k == |p| {
        assert p[k..] == [] && w == p;
        assert Unwords([w]) == w + Spaced([]);
      } else {
        NormalRest(p);
        var q := p[k + 1..];
        NormalUnwords(q);
        UnwordsCons(w, Words(q));
        SplitAround(p, k);
      }
    }
  }

  lemma WordIsSingleSpaced(w: string)
    requires IsWord(w)
    ensures SingleSpaced(w)
  {
  }

  /** A tidy, single-spaced line, a space and a word stay single-spaced. */
  lemma SpacedJoin(a: string, b: string)
    requires Tidy(a) && a != [] && SingleSpaced(a) && IsWord(b)
    ensures SingleSpaced(a + " " + b)
  {
    var s := a + " " + b;
    forall i | 0 <= i && i + 1 < |s|
      ensures !(s[i] == ' ' && s[i + 1] == ' ')
    {
      if i + 1 < |a| {
        assert s[i] == a[i] && s[i + 1] == a[i + 1];
      } else if i + 1 == |a| {
        assert s[i] == a[|a| - 1];
      } else {
        assert s[i + 1] == b[i - |a|];
      }
    }
  }

  // ---------------------------------------------------------------------------
  // The wrapper writes normal, non-empty lines
  // ---------------------------------------------------------------------------

  /** Every line's text is single-spaced. */
  predicate SpacedTexts(ls: seq<Line>) {
    forall i :: 0 <= i < |ls| ==> SingleSpaced(ls[i].text)
  }

  /** No line's text is empty. */
  predicate FilledTexts(ls: seq<Line>) {
    forall i :: 0 <= i < |ls| ==> ls[i].text != []
  }

  lemma TextsAppend(a: seq<Line>, b: seq<Line>)
    ensures SpacedTexts(a) && SpacedTexts(b) ==> SpacedTexts(a + b)
    ensures FilledTexts(a) && FilledTexts(b) ==> FilledTexts(a + b)
  {
    var ab := a + b;
    forall i | |a| <= i < |ab|
      ensures ab[i] == b[i - |a|]
    {
    }
  }

  lemma ChopTexts(w: string, width: nat)
    requires width >= 2 && IsWord(w)
    ensures SpacedTexts(Chop(w, width).0) && FilledTexts(Chop(w, width).0)
    ensures SingleSpaced(Chop(w, width).1)
  {
    var ls := Chop(w, width).0;
    ChopPieces(w, width);
    WordIsSingleSpaced(Chop(w, width).1);
    forall i | 0 <= i < |ls|
      ensures SingleSpaced(ls[i].text)
    {
      WordIsSingleSpaced(ls[i].text);
    }
  }

  /** One placement finishes only non-empty single-spaced lines and leaves a
      single-spaced current line. */
  lemma PlaceSingleSpaced(cur: string, w: string, width: nat)
    requires width >= 2 && IsWord(w) && |cur| <= width && Tidy(cur) && SingleSpaced(cur)
    ensures SpacedTexts(Place(cur, w, width).0) && FilledTexts(Place(cur, w, width).0)
    ensures SingleSpaced(Place(cur, w, width).1)
  {
    var res := Place(cur, w, width);
    if cur == [] {
      ChopTexts(w, width);
    } else if |cur| + 1 + |w| <= width {
      SpacedJoin(cur, w);
    } else if |w| <= width {
      WordIsSingleSpaced(w);
    } else if |cur| + 3 <= width {
      var k := width - |cur| - 2;
      var first := Line(cur + " " + w[..k], true);
      assert res == ([first] + Chop(w[k..], width).0, Chop(w[k..], width).1);
      SpacedJoin(cur, w[..k]);
      ChopTexts(w[k..], width);
      TextsAppend([first], Chop(w[k..], width).0);
    } else {
      assert res == ([Line(cur, false)] + Chop(w, width).0, Chop(w, width).1);
      ChopTexts(w, width);
      TextsAppend([Line(cur, false)], Chop(w, width).0);
    }
  }

  /** Every line of a wrap is single-spaced, and none is empty once there is
      a current line or a word to place. */
  lemma {:induction false} WrapFromSingleSpaced(cur: string, ws: seq<string>, width: nat)
    requires width >= 2 && |cur| <= width && Tidy(cur) && SingleSpaced(cur) && AllWords(ws)
    ensures SpacedTexts(WrapFrom(cur, ws, width))
    ensures cur != [] || ws != [] ==> FilledTexts(WrapFrom(cur, ws, width))
    decreases |ws|
  {
    if ws != [] {
      var step := Place(cur, ws[0], width);
      PlaceFits(cur, ws[0], width);
      PlaceSingleSpaced(cur, ws[0], width);
      WrapFromSingleSpaced(step.1, ws[1..], width);
      assert WrapFrom(cur, ws, width) == step.0 + WrapFrom(step.1, ws[1..], width);
      TextsAppend(step.0, WrapFrom(step.1, ws[1..], width));
    }
  }

  /** A printed line is normal and fits the width. */
  lemma ShowNormal(l: Line, width: nat)
    requires width >= 2 && Fits(l, width) && SingleSpaced(l.text)
    ensures Normal(Show(l)) && |Show(l)| <= width
  {
    if l.broken {
      var s := l.text + "-";
      assert |l.text| >= 1;
      forall i | 0 <= i && i + 1 < |s|
        ensures !(s[i] == ' ' && s[i + 1] == ' ')
      {
        if i + 1 < |l.text| {
          assert s[i] == l.text[i] && s[i + 1] == l.text[i + 1];
        } else {
          assert s[i + 1] == '-';
        }
      }
      assert s[0] == l.text[0];
    }
  }

  lemma {:induction false} WordLengthGrows(c: string, t: string)
    ensures WordLength(c + t) >= WordLength(c)
    decreases |c|
  {
    if c != [] && !IsWhitespace(c[0]) {
      assert (c + t)[1..] == c[1..] + t;
      WordLengthGrows(c[1..], t);
    }
  }

  // ---------------------------------------------------------------------------
  // Printed lines as the wrapper leaves them
  // ---------------------------------------------------------------------------

  /** Lines that a wrap at `width` would reproduce: each normal and within
      the width, none empty unless it is the only one, and each too long to
      take the next line's first word after a space. */
  predicate Settled(ps: seq<string>, width: nat) {
    && |ps| >= 1
    && (forall i :: 0 <= i < |ps| ==> Normal(ps[i]) && |ps[i]| <= width)
    && (|ps| > 1 ==> forall i :: 0 <= i < |ps| ==> ps[i] != [])
    && (forall i :: 0 <= i < |ps| - 1 ==> |ps[i]| + 1 + WordLength(ps[i + 1]) > width)
  }

  /** The printed lines of any wrap are settled. */
  lemma PrintedSettled(text: string, width: nat)
    requires width >= 2
    ensures Settled(Shows(WrapLines(text, width)), width)
  {
    var lines := WrapLines(text, width);
    var ps := Shows(lines);
    WrapLinesFit(text, width);
    WrapLinesGreedy(text, width);
    WrapFromSingleSpaced("", Words(text), width);
    forall i | 0 <= i < |ps|
      ensures Normal(ps[i]) && |ps[i]| <= width
    {
      ShowNormal(lines[i], width);
    }
    if |ps| > 1 {
      assert Words(text) != [];
      forall i | 0 <= i < |ps|
        ensures ps[i] != []
      {
        assert lines[i].text != [];
      }
    }
    forall i | 0 <= i < |ps| - 1
      ensures |ps[i]| + 1 + WordLength(ps[i + 1]) > width
    {
      assert GreedyPair(lines[i], lines[i + 1], width);
      if lines[i + 1].broken {
        WordLengthGrows(lines[i + 1].text, "-");
      }
    }
  }

  // ---------------------------------------------------------------------------
  // Words across line feeds
  // ---------------------------------------------------------------------------

  /** Whitespace between two texts separates their words. */
  lemma {:induction false} WordsAppend(a: string, t: string)
    requires t != [] && IsWhitespace(t[0])
    ensures Words(a + t) == Words(a) + Words(t)
    decreases |a|
  {
    if a == [] {
      assert a + t == t;
    } else if IsWhitespace(a[0]) {
      assert (a + t)[1..] == a[1..] + t;
      WordsAppend(a[1..], t);
    } else {
      var k := WordLength(a);
      WordLengthExtend(a, t);
      assert (a + t)[..k] == a[..k];
      assert (a + t)[k..] == a[k..] + t;
      WordsAppend(a[k..], t);
    }
  }

  /** The words of lines joined by line feeds are the first line's words
      followed by the words of the rest. */
  lemma WordsOfJoin(ps: seq<string>)
    requires |ps| >= 1
    ensures Words(Join(ps, '\n')) == Words(ps[0]) + Words(Join(ps[1..], '\n'))
  {
    if |ps| == 1 {
      assert Join(ps[1..], '\n') == [];
      assert Words(ps[0]) + [] == Words(ps[0]);
    } else {
      var rest := Join(ps[1..], '\n');
      var t := ['\n'] + rest;
      assert Join(ps, '\n') == ps[0] + t;
      WordsAppend(ps[0], t);
      assert t[1..] == rest;
    }
  }

  /** The first word of a text that starts with a visible character. */
  lemma FirstWord(p: string, more: seq<string>)
    requires p != [] && !IsWhitespace(p[0])
    ensures var ws := Words(p) + more;
      ws != [] && |ws[0]| == WordLength(p) && ws[0] == p[..WordLength(p)]
  {
    assert Words(p) == [p[..WordLength(p)]] + Words(p[WordLength(p)..]);
  }

  // ---------------------------------------------------------------------------
  // Re-wrapping
  // ---------------------------------------------------------------------------

  /** Words that still fit after the current line only extend it. */
  lemma {:induction false} FittingPrefix(cur: string, us: seq<string>, more: seq<string>, width: nat)
    requires width >= 2 && |cur| <= width && Tidy(cur) && AllWords(us) && AllWords(more)
    requires |Continue(cur, us)| <= width
    ensures WrapFrom(cur, us + more, width) == WrapFrom(Continue(cur, us), more, width)
    decreases |us|
  {
    if us == [] {
      assert us + more == more;
      assert Continue(cur, us) == cur;
    } else {
      var w := us[0];
      ContinueCons(cur, w, us[1..]);
      assert [w] + us[1..] == us;
      PlaceFitting(cur, w, width);
      PlaceFits(cur, w, width);
      var step := Place(cur, w, width);
      ContinueLine(step.1, us[1..]);
      assert (us + more)[0] == w && (us + more)[1..] == us[1..] + more;
      assert AllWords(us + more);
      FittingPrefix(step.1, us[1..], more, width);
      assert WrapFrom(cur, us + more, width) == step.0 + WrapFrom(step.1, us[1..] + more, width);
    }
  }

  /** The words of a normal line, placed from an empty line, rebuild it. */
  lemma StartLine(p: string, more: seq<string>, width: nat)
    requires width >= 2 && p != [] && Normal(p) && |p| <= width && AllWords(more)
    ensures WrapFrom("", Words(p) + more, width) == WrapFrom(p, more, width)
  {
    var ws := Words(p);
    FirstWord(p, []);
    assert ws + [] == ws;
    var u := ws[0];
    NormalUnwords(p);
    assert Chop(u, width) == ([], u);
    assert (ws + more)[0] == u && (ws + more)[1..] == ws[1..] + more;
    assert WrapFrom("", ws + more, width) == WrapFrom(u, ws[1..] + more, width);
    WordIsTidy(u);
    assert Continue(u, ws[1..]) == p;
    FittingPrefix(u, ws[1..], more, width);
  }

  /** A word too long to join the current line starts a fresh one. */
  lemma BreakBefore(p: string, more: seq<string>, width: nat)
    requires width >= 2 && p != [] && Tidy(p) && |p| <= width && AllWords(more)
    requires more != [] && |more[0]| <= width && |p| + 1 + |more[0]| > width
    ensures WrapFrom(p, more, width) == [Line(p, false)] + WrapFrom("", more, width)
  {
    assert Place(p, more[0], width) == ([Line(p, false)], more[0]);
    assert Chop(more[0], width) == ([], more[0]);
    assert WrapFrom("", more, width) == WrapFrom(more[0], more[1..], width);
  }

  /** A settled line followed by words that start with one too long to join
      it comes back as that line, unbroken, and the wrap of those words. */
  lemma LineThenRest(p: string, more: seq<string>, width: nat)
    requires width >= 2 && p != [] && Normal(p) && |p| <= width && AllWords(more)
    requires more != [] ==> |more[0]| <= width && |p| + 1 + |more[0]| > width
    ensures WrapFrom("", Words(p) + more, width)
         == [Line(p, false)] + (if more == [] then [] else WrapFrom("", more, width))
  {
    StartLine(p, more, width);
    if more != [] {
      BreakBefore(p, more, width);
    } else {
      assert WrapFrom(p, more, width) == [Line(p, false)];
    }
  }

  /** Each line, unbroken, in order. */
  function Plain(ps: seq<string>): (ls: seq<Line>)
    ensures |ls| == |ps|
    ensures forall i :: 0 <= i < |ps| ==> ls[i] == Line(ps[i], false)
  {
    seq(|ps|, i requires 0 <= i < |ps| => Line(ps[i], false))
  }

  lemma SettledTail(ps: seq<string>, width: nat)
    requires Settled(ps, width) && |ps| > 1
    ensures Settled(ps[1..], width)
  {
    var tail := ps[1..];
    forall i | 0 <= i < |tail| - 1
      ensures |tail[i]| + 1 + WordLength(tail[i + 1]) > width
    {
      assert tail[i] == ps[i + 1] && tail[i + 1] == ps[i + 2];
    }
  }

  /** The first word of the lines after a settled line does not join it. */
  lemma SettledBreak(ps: seq<string>, width: nat)
    requires Settled(ps, width) && |ps| > 1
    ensures var more := Words(Join(ps[1..], '\n'));
      more != [] && |more[0]| <= width && |ps[0]| + 1 + |more[0]| > width
  {
    var tail := ps[1..];
    WordsOfJoin(tail);
    var q := tail[0];
    assert q == ps[1] && q != [] && Normal(q) && |q| <= width;
    FirstWord(q, Words(Join(tail[1..], '\n')));
  }

  lemma PlainCons(ps: seq<string>)
    requires ps != []
    ensures Plain(ps) == [Line(ps[0], false)] + Plain(ps[1..])
  {
  }

  /** A single normal line that fits comes back as itself. */
  lemma WrapOneLine(p: string, width: nat)
    requires width >= 2 && Normal(p) && |p| <= width
    ensures WrapLines(p, width) == [Line(p, false)]
  {
    if p == [] {
      assert Words(p) == [];
    } else {
      LineThenRest(p, [], width);
      assert Words(p) + [] == Words(p);
    }
  }

  /** Wrapping settled lines joined by line feeds gives each line back,
      unbroken. */
  lemma {:induction false} WrapSettled(ps: seq<string>, width: nat)
    requires width >= 2 && Settled(ps, width)
    ensures WrapLines(Join(ps, '\n'), width) == Plain(ps)
    decreases |ps|
  {
    if |ps| == 1 {
      WrapOneLine(ps[0], width);
      assert Join(ps, '\n') == ps[0];
      assert Plain(ps) == [Line(ps[0], false)];
    } else {
      var p, tail := ps[0], ps[1..];
      WordsOfJoin(ps);
      var more := Words(Join(tail, '\n'));
      SettledTail(ps, width);
      WrapSettled(tail, width);
      SettledBreak(ps, width);
      LineThenRest(p, more, width);
      assert WrapLines(Join(tail, '\n'), width) == WrapFrom("", more, width);
      PlainCons(ps);
    }
  }

  /** Re-wrapping wrapped text at the same width gives every printed line
      back as one unbroken line. */
  lemma RewrapLines(text: string, width: nat)
    requires width >= 2
    ensures WrapLines(WrapString(text, width), width) == Plain(Shows(WrapLines(text, width)))
  {
    PrintedSettled(text, width);
    WrapSettled(Shows(WrapLines(text, width)), width);
  }

  /** `wrapString` is idempotent at a fixed width. */
  lemma WrapIdempotent(text: string, width: nat)
    requires width >= 2
    ensures WrapString(WrapString(text, width), width) == WrapString(text, width)
  {
    var ps := Shows(WrapLines(text, width));
    RewrapLines(text, width);
    assert Shows(Plain(ps)) == ps;
  }
}
