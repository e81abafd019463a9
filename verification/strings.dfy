/** Character and string helpers shared by the line wrapper, the table
    renderer and the validators. Only ASCII whitespace and ASCII letters are
    modelled: the JavaScript `trim`, `toLowerCase` and `toUpperCase` also act
    on the rest of Unicode. */
module Strings {

  /** The conventional Some/None datatype, used where the original returns `undefined`. */
  datatype Option<+T> = None | Some(value: T)

  /** The values of a list of outcomes in order, or `None` as soon as one of
      them is `None`. */
  function AllValues<T>(xs: seq<Option<T>>): Option<seq<T>> {
    if xs == [] then Some([])
    else
      match xs[0]
      case None => None
      case Some(x) =>
        match AllValues(xs[1..])
        case None => None
        case Some(rest) => Some([x] + rest)
  }

  lemma {:induction false} AllValuesSpec<T>(xs: seq<Option<T>>)
    ensures AllValues(xs).Some? <==> forall i :: 0 <= i < |xs| ==> xs[i].Some?
    ensures AllValues(xs).Some? ==>
      && |AllValues(xs).value| == |xs|
      && forall i :: 0 <= i < |xs| ==> AllValues(xs).value[i] == xs[i].value
    decreases |xs|
  {
    if xs != [] {
      AllValuesSpec(xs[1..]);
      if !xs[0].Some? {
        assert !(forall i :: 0 <= i < |xs| ==> xs[i].Some?);
      } else if AllValues(xs[1..]).None? {
        var j :| 0 <= j < |xs[1..]| && !xs[1..][j].Some?;
        assert !xs[j + 1].Some?;
      } else {
        forall i | 1 <= i < |xs|
          ensures xs[i] == xs[1..][i - 1]
        {
        }
      }
    }
  }

  /** ASCII whitespace: space, tab, line feed, carriage return, vertical tab, form feed. */
  predicate IsWhitespace(c: char) {
    c == ' ' || c == '\t' || c == '\n' || c == '\r' || c == '\U{000B}' || c == '\U{000C}'
  }

  /** True iff the string holds nothing but whitespace (the empty string included). */
  predicate IsBlank(s: string) {
    forall i :: 0 <= i < |s| ==> IsWhitespace(s[i])
  }

  /** `n` copies of `c`, as JavaScript's `c.repeat(n)`. */
  function Repeat(c: char, n: nat): (r: string)
    ensures |r| == n
    ensures forall i :: 0 <= i < n ==> r[i] == c
  {
    seq(n, _ => c)
  }

  function Spaces(n: nat): (r: string)
    ensures |r| == n
    ensures forall i :: 0 <= i < n ==> r[i] == ' '
  {
    Repeat(' ', n)
  }

  lemma Reassociate(a: string, b: string, c: string)
    ensures a + (b + c) == (a + b) + c
  {
  }

  // ---------------------------------------------------------------------------
  // Trimming
  // ---------------------------------------------------------------------------

  function TrimStart(s: string): (r: string)
    ensures |r| <= |s| && r == s[|s| - |r|..]
    ensures r == [] || !IsWhitespace(r[0])
    ensures IsBlank(s[..|s| - |r|])
    decreases |s|
  {
    if s != [] && IsWhitespace(s[0]) then
      var r := TrimStart(s[1..]);
      assert forall i :: 0 <= i < |s| - |r| ==> IsWhitespace(s[i]) by {
        forall i | 1 <= i < |s| - |r|
          ensures IsWhitespace(s[i])
        {
          assert s[i] == s[1..][..|s| - 1 - |r|][i - 1];
        }
      }
      r
    else s
  }

  function TrimEnd(s: string): (r: string)
    ensures |r| <= |s| && r == s[..|r|]
    ensures r == [] || !IsWhitespace(r[|r| - 1])
    ensures IsBlank(s[|r|..])
    decreases |s|
  {
    if s != [] && IsWhitespace(s[|s| - 1]) then
      var init := s[..|s| - 1];
      var r := TrimEnd(init);
      assert forall i :: |r| <= i < |init| ==> IsWhitespace(init[i]) by {
        forall i | |r| <= i < |init|
          ensures IsWhitespace(init[i])
        {
          assert init[i] == init[|r|..][i - |r|];
        }
      }
      r
    else s
  }

  /** JavaScript's `String.prototype.trim`: drop leading and trailing whitespace. */
  function Trim(s: string): string {
    TrimEnd(TrimStart(s))
  }

  /** A string trims to the empty string exactly when it is blank. */
  lemma TrimEmptyIffBlank(s: string)
    ensures Trim(s) == [] <==> IsBlank(s)
  {
    var t := TrimStart(s);
    if Trim(s) == [] {
      assert s == s[..|s| - |t|] + t;
      assert IsBlank(t) by { assert t[|Trim(s)|..] == t; }
    } else {
      var r := Trim(s);
      assert r == t[..|r|];
      assert t == s[|s| - |t|..];
      assert !IsWhitespace(s[|s| - |t|]);
    }
  }

  /** A string that starts with a non-blank character and ends in one blank
      after a non-blank character loses exactly that last character to `Trim`. */
  lemma TrimDropsOneTrailingSpace(s: string)
    requires |s| >= 2 && !IsWhitespace(s[0])
    requires IsWhitespace(s[|s| - 1]) && !IsWhitespace(s[|s| - 2])
    ensures Trim(s) == s[..|s| - 1]
  {
    assert TrimStart(s) == s;
    assert TrimEnd(s[..|s| - 1]) == s[..|s| - 1];
  }

  // ---------------------------------------------------------------------------
  // ASCII case mapping
  // ---------------------------------------------------------------------------

  function ToLower(c: char): char {
    if 'A' <= c <= 'Z' then (c as int + 32) as char else c
  }

  function ToUpper(c: char): char {
    if 'a' <= c <= 'z' then (c as int - 32) as char else c
  }

  function LowerCase(s: string): (r: string)
    ensures |r| == |s|
    ensures forall i :: 0 <= i < |s| ==> r[i] == ToLower(s[i])
  {
    seq(|s|, i requires 0 <= i < |s| => ToLower(s[i]))
  }

  function UpperCase(s: string): (r: string)
    ensures |r| == |s|
    ensures forall i :: 0 <= i < |s| ==> r[i] == ToUpper(s[i])
  {
    seq(|s|, i requires 0 <= i < |s| => ToUpper(s[i]))
  }

  /** String comparison after `toLowerCase` on both sides. */
  predicate EqualsIgnoringCase(a: string, b: string) {
    LowerCase(a) == LowerCase(b)
  }

  // ---------------------------------------------------------------------------
  // Splitting on and joining with a delimiter character
  // ---------------------------------------------------------------------------

  /** JavaScript's `parts.join(d)` for a one-character delimiter. */
  function Join(parts: seq<string>, d: char): string {
    if |parts| == 0 then ""
    else if |parts| == 1 then parts[0]
    else parts[0] + [d] + Join(parts[1..], d)
  }

  /** JavaScript's `s.split(d)` for a one-character delimiter: always at least
      one part, none containing the delimiter, and joining them back gives `s`. */
  function Split(s: string, d: char): (parts: seq<string>)
    ensures |parts| >= 1
    ensures forall k :: 0 <= k < |parts| ==> d !in parts[k]
    ensures Join(parts, d) == s
    decreases |s|
  {
    if s == [] then [""]
    else
      var rest := Split(s[1..], d);
      if s[0] == d then
        [""] + rest
      else
        [[s[0]] + rest[0]] + rest[1..]
  }

  lemma {:induction false} SplitNoDelimiter(s: string, d: char)
    requires d !in s
    ensures Split(s, d) == [s]
    decreases |s|
  {
    if s != [] {
      SplitNoDelimiter(s[1..], d);
      assert [s[0]] + s[1..] == s;
    }
  }

  lemma {:induction false} SplitAfterPrefix(a: string, t: string, d: char)
    requires d !in a
    ensures Split(a + t, d) == [a + Split(t, d)[0]] + Split(t, d)[1..]
    decreases |a|
  {
    if a != [] {
      assert (a + t)[1..] == a[1..] + t;
      SplitAfterPrefix(a[1..], t, d);
      assert [a[0]] + (a[1..] + Split(t, d)[0]) == a + Split(t, d)[0];
    } else {
      assert a + t == t;
      var parts := Split(t, d);
      assert parts == [parts[0]] + parts[1..];
      assert a + parts[0] == parts[0];
    }
  }

  /** Splitting undoes joining when no part contains the delimiter. */
  lemma {:induction false} SplitJoin(parts: seq<string>, d: char)
    requires |parts| >= 1
    requires forall k :: 0 <= k < |parts| ==> d !in parts[k]
    ensures Split(Join(parts, d), d) == parts
    decreases |parts|
  {
    if |parts| == 1 {
      SplitNoDelimiter(parts[0], d);
    } else {
      var tail := Join(parts[1..], d);
      SplitJoin(parts[1..], d);
      assert Join(parts, d) == parts[0] + ([d] + tail);
      SplitAfterPrefix(parts[0], [d] + tail, d);
      assert ([d] + tail)[1..] == tail;
      assert parts[0] + "" == parts[0];
      assert parts == [parts[0]] + parts[1..];
    }
  }

  /** The text after the last part that `Join` writes is that part. */
  lemma {:induction false} JoinSnoc(parts: seq<string>, last: string, d: char)
    requires |parts| >= 1
    ensures Join(parts + [last], d) == Join(parts, d) + [d] + last
    decreases |parts|
  {
    if |parts| == 1 {
      assert parts + [last] == [parts[0], last];
    } else {
      assert (parts + [last])[1..] == parts[1..] + [last];
      JoinSnoc(parts[1..], last, d);
    }
  }

  /** The strings one after another. */
  function Concat(parts: seq<string>): string {
    if parts == [] then "" else parts[0] + Concat(parts[1..])
  }

  lemma {:induction false} ConcatAppend(a: seq<string>, b: seq<string>)
    ensures Concat(a + b) == Concat(a) + Concat(b)
    decreases |a|
  {
    if a == [] {
      assert a + b == b;
    } else {
      assert (a + b)[1..] == a[1..] + b;
      ConcatAppend(a[1..], b);
    }
  }

  /** Part `m` stands right after the parts before it. */
  lemma ConcatSlice(parts: seq<string>, m: nat)
    requires m < |parts|
    ensures var at := |Concat(parts[..m])|;
      && at + |parts[m]| <= |Concat(parts)|
      && Concat(parts)[at..at + |parts[m]|] == parts[m]
  {
    assert parts == parts[..m] + ([parts[m]] + parts[m + 1..]);
    ConcatAppend(parts[..m], [parts[m]] + parts[m + 1..]);
    assert Concat([parts[m]] + parts[m + 1..]) == parts[m] + Concat(parts[m + 1..]);
  }
}
