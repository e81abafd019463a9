/** The two validators the schedule relies on: `isValidDateString`, which
    accepts DD/MM/YYYY dates, and `generateFlightId`, which derives a flight
    ID from an airline name. Their implementation file is not part of this
    model; both are stated as tests/utilities.test.js pins them down. */
module Validation {
  import opened Strings

  // ---------------------------------------------------------------------------
  // Decimal digits
  // ---------------------------------------------------------------------------

  predicate IsDigit(c: char) {
    '0' <= c <= '9'
  }

  predicate AllDigits(s: string) {
    forall i :: 0 <= i < |s| ==> IsDigit(s[i])
  }

  function DigitValue(c: char): nat
    requires IsDigit(c)
  {
    c as int - '0' as int
  }

  function DigitChar(d: nat): (c: char)
    requires d < 10
  {
    ('0' as int + d) as char
  }

  /** The value of a string of decimal digits, most significant first. */
  function Number(s: string): nat
    requires AllDigits(s)
  {
    if s == [] then 0 else Number(s[..|s| - 1]) * 10 + DigitValue(s[|s| - 1])
  }

  function Pow10(n: nat): (r: nat)
    ensures r >= 1
  {
    if n == 0 then 1 else 10 * Pow10(n - 1)
  }

  /** `n` written with exactly `count` decimal digits, zero-padded on the
      left (the leading digits are dropped when `n` needs more). */
  function Digits(n: nat, count: nat): string {
    if count == 0 then "" else Digits(n / 10, count - 1) + [DigitChar(n % 10)]
  }

  /** A number below `10^count` written with `count` digits reads back as
      itself. */
  lemma {:induction false} NumberOfDigits(n: nat, count: nat)
    requires n < Pow10(count)
    ensures |Digits(n, count)| == count && AllDigits(Digits(n, count))
    ensures Number(Digits(n, count)) == n
  {
    if count > 0 {
      NumberOfDigits(n / 10, count - 1);
      var s := Digits(n, count);
      assert s[..|s| - 1] == Digits(n / 10, count - 1);
      assert DigitValue(DigitChar(n % 10)) == n % 10;
    }
  }

  /** A string of digits is the zero-padded form of its own value. */
  lemma {:induction false} DigitsOfNumber(s: string)
    requires AllDigits(s)
    ensures Number(s) < Pow10(|s|)
    ensures Digits(Number(s), |s|) == s
    decreases |s|
  {
    if s != [] {
      var init := s[..|s| - 1];
      DigitsOfNumber(init);
      var n := Number(s);
      assert n / 10 == Number(init) && n % 10 == DigitValue(s[|s| - 1]);
      assert DigitChar(n % 10) == s[|s| - 1];
      assert init + [s[|s| - 1]] == s;
    }
  }

  // ---------------------------------------------------------------------------
  // Dates
  // ---------------------------------------------------------------------------

  datatype Date = Date(day: nat, month: nat, year: nat)

  /** Day 1 to 31, month 1 to 12, year from 1. Month lengths and leap years
      are not checked. */
  predicate InRange(d: Date) {
    1 <= d.day <= 31 && 1 <= d.month <= 12 && 1 <= d.year
  }

  /** The date in DD/MM/YYYY, or `None`: the text must split at '/' into
      exactly three parts of two, two and four decimal digits, and the date
      they give must be in range. */
  function ParseDate(s: string): Option<Date> {
    var parts := Split(s, '/');
    if |parts| != 3 then None
    else if |parts[0]| != 2 || |parts[1]| != 2 || |parts[2]| != 4 then None
    else if !(AllDigits(parts[0]) && AllDigits(parts[1]) && AllDigits(parts[2])) then None
    else
      var d := Date(Number(parts[0]), Number(parts[1]), Number(parts[2]));
      if InRange(d) then Some(d) else None
  }

  /** `isValidDateString`. */
  predicate IsValidDateString(s: string) {
    ParseDate(s).Some?
  }

  lemma JoinThree(a: string, b: string, c: string, d: char)
    ensures Join([a, b, c], d) == a + [d] + b + [d] + c
  {
    assert [a, b, c][1..] == [b, c] && [b, c][1..] == [c];
    assert Join([b, c], d) == b + [d] + c;
    assert a + [d] + (b + [d] + c) == a + [d] + b + [d] + c;
  }

  lemma DigitsHaveNoSlash(s: string)
    requires AllDigits(s)
    ensures '/' !in s
  {
  }

  /** A date written as DD/MM/YYYY. */
  function FormatDate(d: Date): string {
    Digits(d.day, 2) + "/" + Digits(d.month, 2) + "/" + Digits(d.year, 4)
  }

  /** Text made of three slash-free parts is read part by part. */
  lemma ParseParts(dd: string, mm: string, yyyy: string)
    requires '/' !in dd && '/' !in mm && '/' !in yyyy
    ensures ParseDate(dd + "/" + mm + "/" + yyyy) ==
      if |dd| == 2 && |mm| == 2 && |yyyy| == 4 && AllDigits(dd) && AllDigits(mm) && AllDigits(yyyy)
         && InRange(Date(Number(dd), Number(mm), Number(yyyy)))
      then Some(Date(Number(dd), Number(mm), Number(yyyy)))
      else None
  {
    JoinThree(dd, mm, yyyy, '/');
    SplitJoin([dd, mm, yyyy], '/');
  }

  /** Every in-range date of at most four year digits is accepted in its
      DD/MM/YYYY form and read back as itself. */
  lemma ParseFormat(d: Date)
    requires InRange(d) && d.year <= 9999
    ensures ParseDate(FormatDate(d)) == Some(d)
  {
    NumberOfDigits(d.day, 2);
    NumberOfDigits(d.month, 2);
    NumberOfDigits(d.year, 4);
    var dd, mm, yyyy := Digits(d.day, 2), Digits(d.month, 2), Digits(d.year, 4);
    var parts := [dd, mm, yyyy];
    DigitsHaveNoSlash(dd);
    DigitsHaveNoSlash(mm);
    DigitsHaveNoSlash(yyyy);
    JoinThree(dd, mm, yyyy, '/');
    SplitJoin(parts, '/');
  }

  /** Every accepted text is the DD/MM/YYYY form of the date it gives. */
  lemma FormatParse(s: string)
    requires ParseDate(s).Some?
    ensures InRange(ParseDate(s).value) && ParseDate(s).value.year <= 9999
    ensures FormatDate(ParseDate(s).value) == s
  {
    var parts := Split(s, '/');
    DigitsOfNumber(parts[0]);
    DigitsOfNumber(parts[1]);
    DigitsOfNumber(parts[2]);
    assert parts == [parts[0], parts[1], parts[2]];
    JoinThree(parts[0], parts[1], parts[2], '/');
  }

  /** So the accepted texts are exactly the DD/MM/YYYY forms of in-range
      dates. */
  lemma ValidIffFormatted(s: string)
    ensures IsValidDateString(s) <==> exists d :: InRange(d) && d.year <= 9999 && FormatDate(d) == s
  {
    if IsValidDateString(s) {
      FormatParse(s);
    }
    if d :| InRange(d) && d.year <= 9999 && FormatDate(d) == s {
      ParseFormat(d);
    }
  }

  // ---------------------------------------------------------------------------
  // Flight IDs
  // ---------------------------------------------------------------------------

  /** The characters of `s` that are not whitespace, in order. */
  function NonBlank(s: string): string {
    if s == [] then ""
    else if IsWhitespace(s[0]) then NonBlank(s[1..])
    else [s[0]] + NonBlank(s[1..])
  }

  /** `generateFlightId`: `None` (undefined) when the name has fewer than
      two non-whitespace characters, and otherwise those two characters
      upper-cased followed by the rest of the ID. The rest is generated by
      code outside this model and is a parameter here. */
  function GenerateFlightId(name: string, rest: string): Option<string> {
    var letters := NonBlank(name);
    if |letters| < 2 then None else Some(UpperCase(letters[..2]) + rest)
  }

  /** `i` and `j` are the positions of the first two non-whitespace
      characters of `s`. */
  predicate FirstTwoVisible(s: string, i: int, j: int) {
    && 0 <= i < j < |s|
    && !IsWhitespace(s[i]) && !IsWhitespace(s[j])
    && (forall k :: 0 <= k < j && k != i ==> IsWhitespace(s[k]))
  }

  /** The position of the first non-whitespace character. */
  function FirstVisible(s: string): (i: nat)
    requires !IsBlank(s)
    ensures i < |s| && !IsWhitespace(s[i]) && IsBlank(s[..i])
  {
    if !IsWhitespace(s[0]) then 0
    else
      assert !IsBlank(s[1..]) by {
        var k :| 0 <= k < |s| && !IsWhitespace(s[k]);
        assert s[1..][k - 1] == s[k];
      }
      var i := 1 + FirstVisible(s[1..]);
      assert forall k :: 1 <= k < i ==> s[..i][k] == s[1..][..i - 1][k - 1];
      i
  }

  lemma {:induction false} NonBlankOfBlank(s: string)
    requires IsBlank(s)
    ensures NonBlank(s) == []
    decreases |s|
  {
    if s != [] {
      assert IsBlank(s[1..]) by {
        assert forall k :: 0 <= k < |s| - 1 ==> s[1..][k] == s[k + 1];
      }
      NonBlankOfBlank(s[1..]);
    }
  }

  /** Leading whitespace contributes nothing. */
  lemma {:induction false} NonBlankAfterBlank(s: string, i: nat)
    requires i < |s| && !IsWhitespace(s[i]) && IsBlank(s[..i])
    ensures NonBlank(s) == [s[i]] + NonBlank(s[i + 1..])
    decreases i
  {
    if i > 0 {
      assert IsWhitespace(s[..i][0]);
      var lead := s[1..][..i - 1];
      forall k | 0 <= k < |lead|
        ensures IsWhitespace(lead[k])
      {
        assert lead[k] == s[..i][k + 1];
      }
      NonBlankAfterBlank(s[1..], i - 1);
      assert s[1..][i - 1 + 1..] == s[i + 1..];
    }
  }

  /** The first two visible characters are the first two that `NonBlank`
      keeps. */
  lemma FirstTwoNonBlank(s: string, i: int, j: int)
    requires FirstTwoVisible(s, i, j)
    ensures |NonBlank(s)| >= 2 && NonBlank(s)[..2] == [s[i], s[j]]
  {
    assert IsBlank(s[..i]) by {
      assert forall k :: 0 <= k < i ==> s[..i][k] == s[k];
    }
    NonBlankAfterBlank(s, i);
    var tail := s[i + 1..];
    var gap := tail[..j - i - 1];
    forall k | 0 <= k < |gap|
      ensures IsWhitespace(gap[k])
    {
      assert gap[k] == s[k + i + 1];
    }
    assert tail[j - i - 1] == s[j];
    NonBlankAfterBlank(tail, j - i - 1);
  }

  /** A name with two visible characters has a first two. */
  lemma SomeFirstTwo(s: string)
    requires |NonBlank(s)| >= 2
    ensures exists i, j :: FirstTwoVisible(s, i, j)
  {
    if IsBlank(s) {
      NonBlankOfBlank(s);
    }
    var i := FirstVisible(s);
    NonBlankAfterBlank(s, i);
    var tail := s[i + 1..];
    if IsBlank(tail) {
      NonBlankOfBlank(tail);
    }
    var j' := FirstVisible(tail);
    var j := i + 1 + j';
    forall k | 0 <= k < j && k != i
      ensures IsWhitespace(s[k])
    {
      if k < i {
        assert s[k] == s[..i][k];
      } else {
        assert s[k] == tail[..j'][k - i - 1];
      }
    }
    assert FirstTwoVisible(s, i, j);
  }

  /** The ID is undefined exactly when the name has no two non-whitespace
      characters; otherwise it starts with the first two of them upper-cased
      and ends with the generated rest. */
  lemma FlightIdSpec(name: string, rest: string)
    ensures GenerateFlightId(name, rest).None?
        <==> !exists i, j :: FirstTwoVisible(name, i, j)
    ensures forall i, j :: FirstTwoVisible(name, i, j) ==>
      GenerateFlightId(name, rest) == Some([ToUpper(name[i]), ToUpper(name[j])] + rest)
  {
    if |NonBlank(name)| >= 2 {
      SomeFirstTwo(name);
    }
    forall i, j | FirstTwoVisible(name, i, j)
      ensures GenerateFlightId(name, rest) == Some([ToUpper(name[i]), ToUpper(name[j])] + rest)
    {
      FirstTwoNonBlank(name, i, j);
      assert UpperCase(NonBlank(name)[..2]) == [ToUpper(name[i]), ToUpper(name[j])];
    }
  }

  /** A name whose first two characters are visible starts its ID. */
  lemma LeadingLetters(name: string, rest: string)
    requires |name| >= 2 && !IsWhitespace(name[0]) && !IsWhitespace(name[1])
    ensures GenerateFlightId(name, rest) == Some([ToUpper(name[0]), ToUpper(name[1])] + rest)
  {
    assert FirstTwoVisible(name, 0, 1);
    FlightIdSpec(name, rest);
  }

  /** The first two characters of an ID are upper case whatever the case of
      the name. */
  lemma FlightIdPrefixUpper(name: string, rest: string)
    requires GenerateFlightId(name, rest).Some?
    ensures var id := GenerateFlightId(name, rest).value;
      |id| >= 2 && UpperCase(id[..2]) == id[..2]
  {
    var id := GenerateFlightId(name, rest).value;
    assert id[..2] == UpperCase(NonBlank(name)[..2]);
    forall k | 0 <= k < 2
      ensures ToUpper(id[k]) == id[k]
    {
    }
  }

  lemma UpperOfLower(c: char)
    ensures ToUpper(ToLower(c)) == ToUpper(c)
    ensures IsWhitespace(ToLower(c)) <==> IsWhitespace(c)
  {
  }

  lemma LowerCaseTail(s: string)
    requires s != []
    ensures LowerCase(s[1..]) == LowerCase(s)[1..]
  {
  }

  lemma LowerCaseCons(c: char, s: string)
    ensures LowerCase([c] + s) == [ToLower(c)] + LowerCase(s)
  {
  }

  /** Names that agree ignoring case keep the same non-whitespace
      characters, ignoring case. */
  lemma {:induction false} NonBlankIgnoringCase(a: string, b: string)
    requires LowerCase(a) == LowerCase(b)
    ensures LowerCase(NonBlank(a)) == LowerCase(NonBlank(b))
    decreases |a|
  {
    if a != [] {
      assert |b| == |a|;
      LowerCaseTail(a);
      LowerCaseTail(b);
      NonBlankIgnoringCase(a[1..], b[1..]);
      UpperOfLower(a[0]);
      UpperOfLower(b[0]);
      assert ToLower(a[0]) == ToLower(b[0]);
      if !IsWhitespace(a[0]) {
        LowerCaseCons(a[0], NonBlank(a[1..]));
        LowerCaseCons(b[0], NonBlank(b[1..]));
      }
    }
  }

  /** The ID does not depend on the case of the name. */
  lemma FlightIdIgnoresCase(a: string, b: string, rest: string)
    requires EqualsIgnoringCase(a, b)
    ensures GenerateFlightId(a, rest) == GenerateFlightId(b, rest)
  {
    NonBlankIgnoringCase(a, b);
    var x, y := NonBlank(a), NonBlank(b);
    assert |x| == |y|;
    if |x| >= 2 {
      forall k | 0 <= k < 2
        ensures ToUpper(x[k]) == ToUpper(y[k])
      {
        assert LowerCase(x)[k] == LowerCase(y)[k];
        UpperOfLower(x[k]);
        UpperOfLower(y[k]);
      }
      assert UpperCase(x[..2]) == UpperCase(y[..2]);
    }
  }
}
