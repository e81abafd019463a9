/** The cases tests/utilities.test.js checks for the two validators, stated
    about the model. */
module ValidationExamples {
  import opened Strings
  import opened Validation

  lemma TwoDigits(s: string)
    requires |s| == 2 && AllDigits(s)
    ensures Number(s) == DigitValue(s[0]) * 10 + DigitValue(s[1])
  {
    assert s[..|s| - 1] == s[..1] && s[..1][..0] == [] && s[..1][0] == s[0];
    assert Number(s[..1]) == DigitValue(s[0]);
  }

  lemma FourDigits(s: string)
    requires |s| == 4 && AllDigits(s)
    ensures Number(s) == ((DigitValue(s[0]) * 10 + DigitValue(s[1])) * 10 + DigitValue(s[2])) * 10 + DigitValue(s[3])
  {
    assert s[..|s| - 1] == s[..3];
    assert s[..3][..2] == s[..2] && s[..2][..1] == s[..1] && s[..1][..0] == [];
    assert s[..3][2] == s[2] && s[..2][1] == s[1] && s[..1][0] == s[0];
    assert Number(s[..1]) == DigitValue(s[0]);
    assert Number(s[..2]) == DigitValue(s[0]) * 10 + DigitValue(s[1]);
    assert Number(s[..3]) == (DigitValue(s[0]) * 10 + DigitValue(s[1])) * 10 + DigitValue(s[2]);
  }

  lemma TwelfthOfDecember2012()
    ensures IsValidDateString("12/12/2012")
    ensures ParseDate("12/12/2012") == Some(Date(12, 12, 2012))
  {
    var dd, yyyy := "12", "2012";
    TwoDigits(dd);
    FourDigits(yyyy);
    assert Number(dd) == 12 && Number(yyyy) == 2012;
    ParseParts(dd, dd, yyyy);
    assert dd + "/" + dd + "/" + yyyy == "12/12/2012";
  }

  lemma NotADate()
    ensures !IsValidDateString("notavaliddate")
  {
  }

  lemma FourSegments()
    ensures !IsValidDateString("12/12/2012/20")
  {
  }

  lemma OneDigitDay()
    ensures !IsValidDateString("1/12/2012")
  {
  }

  lemma OneDigitMonth()
    ensures !IsValidDateString("12/1/2012")
  {
  }

  lemma ThreeDigitYear()
    ensures !IsValidDateString("12/12/201")
  {
  }

  lemma DayAboveThirtyOne()
    ensures !IsValidDateString("32/81/2812")
  {
    assert "32/81/2812" == "32" + "/" + "81" + "/" + "2812";
    TwoDigits("32");
    ParseParts("32", "81", "2812");
  }

  /** Day 32 in an otherwise valid date. */
  lemma DayThirtyTwo()
    ensures !IsValidDateString("32/12/2012")
  {
    var dd, mm, yyyy := "32", "12", "2012";
    assert "32/12/2012" == dd + "/" + mm + "/" + yyyy;
    TwoDigits(dd);
    TwoDigits(mm);
    FourDigits(yyyy);
    ParseParts(dd, mm, yyyy);
  }

  lemma MonthAboveTwelve()
    ensures !IsValidDateString("12/13/2012")
  {
    assert "12/13/2012" == "12" + "/" + "13" + "/" + "2012";
    TwoDigits("13");
    ParseParts("12", "13", "2012");
  }

  lemma DayZero()
    ensures !IsValidDateString("00/12/2012")
  {
    assert "00/12/2012" == "00" + "/" + "12" + "/" + "2012";
    TwoDigits("00");
    ParseParts("00", "12", "2012");
  }

  lemma MonthZero()
    ensures !IsValidDateString("12/00/2012")
  {
    assert "12/00/2012" == "12" + "/" + "00" + "/" + "2012";
    TwoDigits("00");
    ParseParts("12", "00", "2012");
  }

  lemma YearZero()
    ensures !IsValidDateString("12/12/0000")
  {
    assert "12/12/0000" == "12" + "/" + "12" + "/" + "0000";
    FourDigits("0000");
    ParseParts("12", "12", "0000");
  }

  /** The airline names the tests use get IDs starting with their first
      two letters in upper case, whatever their case. */
  lemma QantasPrefix(rest: string)
    ensures GenerateFlightId("Qantas", rest) == Some("QA" + rest)
    ensures GenerateFlightId("qantas", rest) == Some("QA" + rest)
    ensures GenerateFlightId("qAnTas", rest) == Some("QA" + rest)
  {
    LeadingLetters("Qantas", rest);
    LeadingLetters("qantas", rest);
    LeadingLetters("qAnTas", rest);
  }

  lemma JetstarPrefix(rest: string)
    ensures GenerateFlightId("Jetstar", rest) == Some("JE" + rest)
    ensures GenerateFlightId("jetStar", rest) == Some("JE" + rest)
  {
    LeadingLetters("Jetstar", rest);
    LeadingLetters("jetStar", rest);
  }

  lemma VirginPrefix(rest: string)
    ensures GenerateFlightId("Virgin", rest) == Some("VI" + rest)
    ensures GenerateFlightId("VIRGIN", rest) == Some("VI" + rest)
  {
    LeadingLetters("Virgin", rest);
    LeadingLetters("VIRGIN", rest);
  }

  lemma MixedCasePrefix(rest: string)
    ensures GenerateFlightId("aIrLiNe", rest) == Some("AI" + rest)
  {
    LeadingLetters("aIrLiNe", rest);
  }

  /** Names without two visible characters get no ID. */
  lemma NoPrefix(rest: string)
    ensures GenerateFlightId("", rest) == None
    ensures GenerateFlightId("   \n", rest) == None
    ensures GenerateFlightId("A", rest) == None
    ensures GenerateFlightId(" A ", rest) == None
  {
  }
}
