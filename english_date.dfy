/**
 * The civil-date ("English date") pattern of calculations.py: a Kannada
 * month name, a hyphen and a day number, such as "ಮಾರ್ಚ್-15", resolved
 * against the Gregorian calendar of the requested year.
 */
module EnglishDate {

  import opened Wrappers
  import opened Text
  import opened CivilDate

  /**
   * `KANNADA_MONTHS` in the dictionary's own order. The source lists "ಜುಲೈ"
   * twice with the same value; a Python dict keeps one entry at the first
   * position, so the table has 17 keys.
   */
  const KannadaMonths: seq<(string, int)> := [
    ("ಜನವರಿ", 1), ("ಫೆಬ್ರವರಿ", 2), ("ಮಾರ್ಚ್", 3), ("ಏಪ್ರಿಲ್", 4), ("ಮೇ", 5), ("ಜೂನ್", 6),
    ("ಜುಲೈ", 7), ("ಆಗಸ್ಟ್", 8), ("ಸೆಪ್ಟೆಂಬರ್", 9), ("ಅಕ್ಟೋಬರ್", 10), ("ನವೆಂಬರ್", 11), ("ಡಿಸೆಂಬರ್", 12),
    ("ಮಾರ್ಚ", 3), ("ಎಪ್ರಿಲ್", 4), ("ಅಗೋಸ್ತು", 8), ("ಒಕ್ಟೋಬರ್", 10), ("ಸೆಪ್ಟಂಬರ್", 9)
  ]

  /** Every character is a letter or sign of the Kannada block (U+0C80..U+0CFF). */
  predicate KannadaOnly(s: string) {
    forall i :: 0 <= i < |s| ==> '\U{0C80}' <= s[i] <= '\U{0CFF}'
  }

  /** The table's shape: each key is Kannada text and each value a month number. */
  lemma TableShape()
    ensures |KannadaMonths| == 17
    ensures forall i :: 0 <= i < |KannadaMonths| ==>
              |KannadaMonths[i].0| > 0 && KannadaOnly(KannadaMonths[i].0) && 1 <= KannadaMonths[i].1 <= 12
  {
  }

  /**
   * A month key is a single word with neither `-` nor `.` in it, so it
   * survives `strip()`, `split("-")` and the separator clean-up intact.
   */
  lemma MonthKeyIsWord(i: nat)
    requires i < |KannadaMonths|
    ensures IsWord(KannadaMonths[i].0)
    ensures '-' !in KannadaMonths[i].0 && '.' !in KannadaMonths[i].0
  {
    TableShape();
    var k := KannadaMonths[i].0;
    assert forall j :: 0 <= j < |k| ==> !IsSpace(k[j]) && k[j] != '-' && k[j] != '.';
  }

  /** The first position at or after `from` whose key is `key`. */
  function FindMonth(key: string, from: nat): (r: Option<nat>)
    requires from <= |KannadaMonths|
    ensures r.Some? ==> from <= r.value < |KannadaMonths| && KannadaMonths[r.value].0 == key
    ensures r.None? ==> forall j :: from <= j < |KannadaMonths| ==> KannadaMonths[j].0 != key
    decreases |KannadaMonths| - from
  {
    if from == |KannadaMonths| then None
    else if KannadaMonths[from].0 == key then Some(from)
    else FindMonth(key, from + 1)
  }

  /** `KANNADA_MONTHS.get(key)`. */
  function MonthNumber(key: string): (r: Option<int>)
    ensures r.Some? ==> 1 <= r.value <= 12
  {
    match FindMonth(key, 0)
    case Some(i) => TableShape(); Some(KannadaMonths[i].1)
    case None => None
  }

  predicate IsMonthKey(key: string) {
    MonthNumber(key).Some?
  }

  /** The Python value handed to `get_english_date`: a `str` or anything else. */
  datatype PyValue = Str(s: string) | NotStr

  /**
   * The date `get_english_date` builds before formatting it: the stripped
   * text must split on `-` into exactly two parts, the stripped first part
   * must be a month key and the stripped second part an integer, and
   * `datetime.date` must accept the triple (its `ValueError` is caught).
   */
  function EnglishDateOf(v: PyValue, year: int): (r: Option<Date>)
    ensures r.Some? ==> ValidDate(r.value) && r.value.year == year && MinYear <= year <= MaxYear
  {
    if !v.Str? then None
    else
      var s := Strip(v.s);
      if '-' !in s then None
      else
        var parts := Split(s, '-');
        if |parts| != 2 then None
        else MonthDayDate(Strip(parts[0]), Strip(parts[1]), year)
  }

  /** The lookup and the `datetime.date` call on the two stripped parts. */
  function MonthDayDate(m: string, d: string, year: int): (r: Option<Date>)
    ensures r.Some? ==> ValidDate(r.value) && r.value.year == year && MinYear <= year <= MaxYear
  {
    match MonthNumber(m)
    case None => None
    case Some(month) =>
      match ParseInt(d)
      case None => None
      case Some(day) => MakeDate(year, month, day)
  }

  /** `get_english_date(date_str, year)`: the date as `DD-MM-YYYY` text, or `None`. */
  function GetEnglishDate(v: PyValue, year: int): (r: Option<string>)
    ensures r.None? <==> EnglishDateOf(v, year).None?
    ensures r.Some? ==> |r.value| == 10 && ParseFormatted(r.value) == EnglishDateOf(v, year)
  {
    match EnglishDateOf(v, year)
    case None => None
    case Some(d) => FormatParses(d); Some(Format(d))
  }

  /**
   * `get_english_date` returns `None` unless the input is a string whose
   * stripped text splits on `-` into exactly two parts, the stripped first
   * of which is a `KANNADA_MONTHS` key.
   */
  lemma EnglishDateNeedsMonthPattern(v: PyValue, year: int)
    requires GetEnglishDate(v, year).Some?
    ensures v.Str?
    ensures |Split(Strip(v.s), '-')| == 2
    ensures IsMonthKey(Strip(Split(Strip(v.s), '-')[0]))
  {
  }

  /**
   * With a month key before the hyphen and digits after it, the result is
   * that day of that month of `year` exactly when the day exists in the
   * Gregorian calendar (and `year` is one `datetime` accepts); otherwise
   * `None`, never an error.
   */
  lemma EnglishDateOfDigits(s: string, a: string, b: string, year: int)
    requires Strip(s) == a + "-" + b && '-' !in a && '-' !in b
    requires IsMonthKey(Strip(a)) && IsDigits(Strip(b))
    ensures var month, day := MonthNumber(Strip(a)).value, DigitsValue(Strip(b));
            GetEnglishDate(Str(s), year) ==
              if MinYear <= year <= MaxYear && 1 <= day <= DaysInMonth(year, month)
              then Some(Format(Date(year, month, day)))
              else None
  {
    var month, day := MonthNumber(Strip(a)).value, DigitsValue(Strip(b));
    DigitsDate(s, a, b, year);
  }

  lemma DigitsDate(s: string, a: string, b: string, year: int)
    requires Strip(s) == a + "-" + b && '-' !in a && '-' !in b
    requires IsMonthKey(Strip(a)) && IsDigits(Strip(b))
    ensures var month, day := MonthNumber(Strip(a)).value, DigitsValue(Strip(b));
            EnglishDateOf(Str(s), year) ==
              if MinYear <= year <= MaxYear && 1 <= day <= DaysInMonth(year, month)
              then Some(Date(year, month, day))
              else None
  {
    HyphenParts(s, a, b);
    assert EnglishDateOf(Str(s), year) == MonthDayDate(Strip(a), Strip(b), year);
    MonthDayDigits(Strip(a), Strip(b), year);
  }

  lemma MonthDayDigits(m: string, d: string, year: int)
    requires IsMonthKey(m) && IsDigits(d)
    ensures var month, day := MonthNumber(m).value, DigitsValue(d);
            MonthDayDate(m, d, year) ==
              if MinYear <= year <= MaxYear && 1 <= day <= DaysInMonth(year, month)
              then Some(Date(year, month, day))
              else None
  {
    assert ParseInt(d) == Some(DigitsValue(d));
  }

  lemma HyphenParts(s: string, a: string, b: string)
    requires Strip(s) == a + "-" + b && '-' !in a && '-' !in b
    ensures '-' in Strip(s) && Split(Strip(s), '-') == [a, b]
  {
    var t := Strip(s);
    assert t == a + ['-'] + b;
    assert t[|a|] == '-';
    SplitTwo(a, b, '-');
  }

  /**
   * A month key, a hyphen and a digit string: the result is that day of
   * that month when the day exists in `year`, and `None` otherwise.
   */
  lemma MonthDashDigits(key: string, digits: string, year: int)
    requires IsMonthKey(key) && IsDigits(digits)
    ensures var month, day := MonthNumber(key).value, DigitsValue(digits);
            GetEnglishDate(Str(key + "-" + digits), year) ==
              if MinYear <= year <= MaxYear && 1 <= day <= DaysInMonth(year, month)
              then Some(Format(Date(year, month, day)))
              else None
  {
    var k := FindMonth(key, 0).value;
    MonthKeyIsWord(k);
    StripWord(key);
    var s := key + "-" + digits;
    assert s[0] == key[0] && s[|s| - 1] == digits[|digits| - 1];
    StripKeeps(s);
    StripKeeps(digits);
    EnglishDateOfDigits(s, key, digits, year);
  }

  /** A day that is not an integer gives `None`, not an error. */
  lemma EnglishDateOfNonNumeric(s: string, a: string, b: string, year: int)
    requires Strip(s) == a + "-" + b && '-' !in a && '-' !in b
    requires ParseInt(Strip(b)).None?
    ensures GetEnglishDate(Str(s), year).None?
  {
    HyphenParts(s, a, b);
    assert EnglishDateOf(Str(s), year) == MonthDayDate(Strip(a), Strip(b), year);
  }
}
