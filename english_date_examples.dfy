/**
 * Worked instances of `get_english_date` on a concrete input, kept apart
 * from the general lemmas so that the literal table is unfolded only here.
 */
module EnglishDateExamples {

  import opened Wrappers
  import opened Text
  import opened CivilDate
  import opened EnglishDate

  /** The leap-year rule at work: "ಫೆಬ್ರವರಿ-29" resolves exactly in leap years. */
  lemma FebruaryTwentyNinth(year: int)
    ensures GetEnglishDate(Str("ಫೆಬ್ರವರಿ-29"), year) ==
              if MinYear <= year <= MaxYear && IsLeap(year) then Some(Format(Date(year, 2, 29))) else None
  {
    var a, b := "ಫೆಬ್ರವರಿ", "29";
    FebruaryName();
    FebruaryStrip();
    FebruaryDigits();
    EnglishDateOfDigits(a + "-" + b, a, b, year);
  }

  /** "ಫೆಬ್ರವರಿ" is the second name of the English month table. */
  lemma FebruaryName()
    ensures MonthNumber("ಫೆಬ್ರವರಿ") == Some(2)
  {
    assert FindMonth("ಫೆಬ್ರವರಿ", 1) == Some(1);
  }

  /** The input, its month part and its day part have no surrounding whitespace. */
  lemma FebruaryStrip()
    ensures Strip("ಫೆಬ್ರವರಿ-29") == "ಫೆಬ್ರವರಿ" + "-" + "29"
    ensures Strip("ಫೆಬ್ರವರಿ") == "ಫೆಬ್ರವರಿ" && Strip("29") == "29"
  {
    StripKeeps("ಫೆಬ್ರವರಿ-29");
    StripKeeps("29");
  }

  /** The day part is the digit string of 29, and neither part holds the separator. */
  lemma FebruaryDigits()
    ensures IsDigits("29") && DigitsValue("29") == 29
    ensures '-' !in "ಫೆಬ್ರವರಿ" && '-' !in "29"
  {
  }

  /** A century year not divisible by 400, such as 2100, has no 29 February. */
  lemma NoLeapDayInCenturies(year: int)
    requires year % 100 == 0 && year % 400 != 0
    ensures GetEnglishDate(Str("ಫೆಬ್ರವರಿ-29"), year) == None
  {
    FebruaryTwentyNinth(year);
  }

  /** The text `get_english_date` gives for 29 February 2024. */
  lemma FormatLeapDay2024()
    ensures Format(Date(2024, 2, 29)) == "29-02-2024"
  {
    assert NatToString(29) == "29";
    assert NatToString(2) == "2";
    assert NatToString(2024) == "2024";
  }
}
