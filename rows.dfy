/**
 * The per-row loop of app.py: it remembers the last Kannada month name
 * seen in the list ("fill-down"), completes bare day numbers with it, and
 * tries the date strategies in a fixed order until one is accepted.
 */
module Rows {

  import opened Wrappers
  import opened Text
  import opened CivilDate
  import opened Sky
  import opened Vocabulary
  import opened Search
  import opened EnglishDate

  /** A spreadsheet row: the name and `str()` of the date cell. */
  datatype Row = Row(name: string, cell: string)

  /** One entry of `results`. */
  datatype Record = Record(name: string, originalInput: string, processedInput: string,
                           calculatedDate: string, kind: string)

  /**
   * What the row loop works with: the tables, the ephemeris, and the three
   * strategies whose code is not part of this model
   * (`get_solar_month_tithi_date`, `get_lunar_month_star_date`,
   * `get_solar_day_date`), each taking the text and the year.
   */
  datatype Env = Env(tables: Tables, ephemeris: Ephemeris,
                     solarMonthTithi: (string, int) -> Option<string>,
                     lunarMonthStar: (string, int) -> Option<string>,
                     solarDay: (string, int) -> Option<string>)

  /** `str(row.get('ನಿಗದಿತ ದಿನ', '')).strip()`. */
  function OriginalText(row: Row): string {
    Strip(row.cell)
  }

  // ---------------------------------------------------------------- fill-down

  /** The first position at or after `from` whose month key occurs in `text`. */
  function MonthFrom(text: string, from: nat): (r: Option<nat>)
    requires from <= |KannadaMonths|
    ensures r.Some? ==> from <= r.value < |KannadaMonths| && Contains(text, KannadaMonths[r.value].0)
    decreases |KannadaMonths| - from
  {
    if from == |KannadaMonths| then None
    else if Contains(text, KannadaMonths[from].0) then Some(from)
    else MonthFrom(text, from + 1)
  }

  /** A key before the one the month loop stops at does not occur in the text. */
  lemma {:induction false} MonthFromSkips(text: string, from: nat, j: nat)
    requires from <= j < |KannadaMonths|
    requires MonthFrom(text, from).None? || j < MonthFrom(text, from).value
    ensures !Contains(text, KannadaMonths[j].0)
    decreases j - from
  {
    if j > from {
      MonthFromSkips(text, from + 1, j);
    }
  }

  /** When the month loop finds nothing, no key from `from` on occurs in the text. */
  lemma MonthFromNone(text: string, from: nat)
    requires from <= |KannadaMonths| && MonthFrom(text, from).None?
    ensures forall j :: from <= j < |KannadaMonths| ==> !Contains(text, KannadaMonths[j].0)
  {
    forall j | from <= j < |KannadaMonths| {
      MonthFromSkips(text, from, j);
    }
  }

  /** The month loop stops at the first key, in dictionary order, that occurs in the text. */
  lemma MonthFromFirst(text: string, from: nat)
    requires from <= |KannadaMonths| && MonthFrom(text, from).Some?
    ensures forall j :: from <= j < MonthFrom(text, from).value ==> !Contains(text, KannadaMonths[j].0)
  {
    forall j | from <= j < MonthFrom(text, from).value {
      MonthFromSkips(text, from, j);
    }
  }

  /** The month the `for km in KANNADA_MONTHS` loop stops at, if any. */
  function MonthIn(text: string): (r: Option<string>)
    ensures r.Some? ==> Contains(text, r.value)
  {
    match MonthFrom(text, 0)
    case None => None
    case Some(i) => Some(KannadaMonths[i].0)
  }

  /** What the fill-down remembers is always a key of `KANNADA_MONTHS`. */
  lemma MonthInIsKey(text: string)
    requires MonthIn(text).Some?
    ensures IsMonthKey(MonthIn(text).value)
  {
    var i := MonthFrom(text, 0).value;
    assert FindMonth(KannadaMonths[i].0, 0).Some?;
  }

  /** The stripped date cells of the rows, in order. */
  function Originals(rows: seq<Row>): (ts: seq<string>)
    ensures |ts| == |rows| && forall i :: 0 <= i < |rows| ==> ts[i] == OriginalText(rows[i])
  {
    seq(|rows|, i requires 0 <= i < |rows| => OriginalText(rows[i]))
  }

  /**
   * `last_seen_month` after rows with the given texts: no month is
   * remembered exactly when none of the texts names one.
   */
  function SeenThrough(texts: seq<string>): (r: Option<string>)
    ensures r.None? <==> forall i :: 0 <= i < |texts| ==> MonthIn(texts[i]).None?
  {
    if texts == [] then None
    else
      match MonthIn(texts[|texts| - 1])
      case Some(m) => Some(m)
      case None => SeenThrough(texts[..|texts| - 1])
  }

  /** The last `Some` of a sequence of per-row findings, if any. */
  function LastNamed(found: seq<Option<string>>): Option<string>
  {
    if found == [] then None
    else if found[|found| - 1].Some? then found[|found| - 1]
    else LastNamed(found[..|found| - 1])
  }

  lemma {:induction false} LastNamedIsLast(found: seq<Option<string>>)
    requires LastNamed(found).Some?
    ensures exists i :: 0 <= i < |found| && found[i] == LastNamed(found)
                          && forall j :: i < j < |found| ==> found[j].None?
  {
    var n := |found| - 1;
    if found[n].None? {
      var front := found[..n];
      LastNamedIsLast(front);
      var i :| 0 <= i < |front| && front[i] == LastNamed(front)
                && forall j :: i < j < |front| ==> front[j].None?;
      assert forall j :: 0 <= j < n ==> found[j] == front[j];
      assert found[i] == LastNamed(found);
      assert forall j :: i < j < |found| ==> found[j].None?;
    }
  }

  /** The month found in each text, row by row. */
  function MonthsIn(texts: seq<string>): (found: seq<Option<string>>)
    ensures |found| == |texts| && forall i :: 0 <= i < |texts| ==> found[i] == MonthIn(texts[i])
  {
    seq(|texts|, i requires 0 <= i < |texts| => MonthIn(texts[i]))
  }

  lemma {:induction false} SeenThroughIsLastNamed(texts: seq<string>)
    ensures SeenThrough(texts) == LastNamed(MonthsIn(texts))
  {
    if texts != [] {
      var n := |texts| - 1;
      SeenThroughIsLastNamed(texts[..n]);
      assert MonthsIn(texts)[..n] == MonthsIn(texts[..n]);
    }
  }

  /**
   * The remembered month is the one found in the last text that names a
   * month: a text without a month leaves it alone, and nothing resets it.
   */
  lemma SeenThroughLast(texts: seq<string>)
    requires SeenThrough(texts).Some?
    ensures exists i :: 0 <= i < |texts| && MonthIn(texts[i]) == SeenThrough(texts)
                          && forall j :: i < j < |texts| ==> MonthIn(texts[j]).None?
  {
    var found := MonthsIn(texts);
    SeenThroughIsLastNamed(texts);
    LastNamedIsLast(found);
  }

  /** One more row: its month, if it names one, replaces the remembered one. */
  lemma SeenThroughStep(texts: seq<string>, t: string)
    ensures SeenThrough(texts + [t]) == if MonthIn(t).Some? then MonthIn(t) else SeenThrough(texts)
  {
    assert (texts + [t])[..|texts|] == texts;
  }

  /** Extending a prefix by one element. */
  lemma PrefixStep<T>(s: seq<T>, n: nat)
    requires n < |s|
    ensures s[..n + 1] == s[..n] + [s[n]]
  {
  }

  /** `final_text`: a bare number is prefixed with the remembered month. */
  function ProcessedText(seen: Option<string>, text: string): (r: string)
    ensures MonthIn(text).Some? || seen.None? ==> r == text
    ensures r == text || (seen.Some? && r == seen.value + "-" + text)
  {
    if MonthIn(text).None? && IsDigits(text) && seen.Some? then seen.value + "-" + text else text
  }

  /**
   * The text changes exactly when it names no month, is all digits and a
   * month has been seen; then it becomes "month-number".
   */
  lemma ProcessedTextChanges(seen: Option<string>, text: string)
    ensures ProcessedText(seen, text) != text <==> MonthIn(text).None? && IsDigits(text) && seen.Some?
    ensures ProcessedText(seen, text) != text ==> ProcessedText(seen, text) == seen.value + "-" + text
  {
    if MonthIn(text).None? && IsDigits(text) && seen.Some? {
      assert |ProcessedText(seen, text)| > |text|;
    }
  }

  // ---------------------------------------------------------------- the strategy chain

  datatype Strategy = EnglishPattern | Festival | LunarTithi | SolarStar | SolarTithi | LunarStar | SolarDayNo

  /** The order the chain tries the strategies in. */
  const Order: seq<Strategy> := [EnglishPattern, Festival, LunarTithi, SolarStar, SolarTithi, LunarStar, SolarDayNo]

  /** The Type column for each strategy. */
  function Tag(s: Strategy): string {
    match s
    case EnglishPattern => "English/Pattern"
    case Festival => "Festival"
    case LunarTithi => "Lunar Tithi"
    case SolarStar => "Solar Star"
    case SolarTithi => "Solar + Tithi"
    case LunarStar => "Lunar + Star"
    case SolarDayNo => "Solar Day No."
  }

  const ManualCheck: string := "Manual Check"
  const UnknownFormat: string := "Unknown Format"

  /**
   * Whether the chain takes a strategy's result: it must be truthy; the
   * lunar result must not contain "Not Found" and the solar and solar+tithi
   * results must not contain "Check".
   */
  predicate Accepts(s: Strategy, res: Option<string>)
    ensures Accepts(s, res) ==> res.Some? && res.value != ""
  {
    TruthyStr(res)
    && (s == LunarTithi ==> !Contains(res.value, NotFound))
    && (s == SolarStar || s == SolarTithi ==> !Contains(res.value, "Check"))
  }

  /** What every strategy returns for a row, one field per strategy. */
  datatype Results = Results(english: Option<string>, festival: Option<string>,
                             lunar: Option<string>, solar: Option<string>,
                             solarTithi: Option<string>, lunarStar: Option<string>,
                             solarDay: Option<string>)

  /** The result of strategy `s`. */
  function ResultOf(rs: Results, s: Strategy): Option<string> {
    match s
    case EnglishPattern => rs.english
    case Festival => rs.festival
    case LunarTithi => rs.lunar
    case SolarStar => rs.solar
    case SolarTithi => rs.solarTithi
    case LunarStar => rs.lunarStar
    case SolarDayNo => rs.solarDay
  }

  /**
   * The strategies run on a row: the festival lookup reads the original
   * text, all others the processed text.
   */
  function Attempts(env: Env, original: string, processed: string, year: int): Results
    requires Fits(env.tables) && MinYear < year < MaxYear
  {
    Results(GetEnglishDate(Str(processed), year),
            FestivalDate(env.tables, env.ephemeris, original, year),
            LunarDate(env.tables, env.ephemeris, processed, year),
            SolarDate(env.tables, env.ephemeris, processed, year),
            env.solarMonthTithi(processed, year),
            env.lunarMonthStar(processed, year),
            env.solarDay(processed, year))
  }

  /** The (Calculated Date, Type) pair of the first accepted result from position `from` of `Order` on. */
  function Pick(rs: Results, from: nat): (string, string)
    requires from <= |Order|
    decreases |Order| - from
  {
    if from == |Order| then (ManualCheck, UnknownFormat)
    else if Accepts(Order[from], ResultOf(rs, Order[from])) then (ResultOf(rs, Order[from]).value, Tag(Order[from]))
    else Pick(rs, from + 1)
  }

  /** The (Calculated Date, Type) pair the strategy chain gives a row. */
  function Classify(env: Env, original: string, processed: string, year: int): (string, string)
    requires Fits(env.tables) && MinYear < year < MaxYear
  {
    Pick(Attempts(env, original, processed, year), 0)
  }

  /**
   * The pick is the result and tag of the first strategy, in `Order`, that
   * accepts its result; when none does it is ("Manual Check", "Unknown Format").
   */
  lemma {:induction false} PickFirstAccepted(rs: Results, from: nat)
    requires from <= |Order|
    ensures var r := Pick(rs, from);
            r.1 != UnknownFormat ==>
              exists k :: from <= k < |Order| && Accepts(Order[k], ResultOf(rs, Order[k]))
                && r == (ResultOf(rs, Order[k]).value, Tag(Order[k]))
                && forall j :: from <= j < k ==> !Accepts(Order[j], ResultOf(rs, Order[j]))
    ensures var r := Pick(rs, from);
            r.1 == UnknownFormat <==>
              r.0 == ManualCheck && forall j :: from <= j < |Order| ==> !Accepts(Order[j], ResultOf(rs, Order[j]))
    decreases |Order| - from
  {
    if from < |Order| {
      PickFirstAccepted(rs, from + 1);
      if Accepts(Order[from], ResultOf(rs, Order[from])) {
        assert Tag(Order[from]) != UnknownFormat;
      }
    }
  }

  /** The chain stops at an accepting strategy or before it: later strategies are never reached. */
  lemma {:induction false} PickStopsAt(rs: Results, from: nat, k: nat)
    requires from <= k < |Order| && Accepts(Order[k], ResultOf(rs, Order[k]))
    ensures exists j :: from <= j <= k && Pick(rs, from).1 == Tag(Order[j])
    decreases k - from
  {
    if !Accepts(Order[from], ResultOf(rs, Order[from])) {
      PickStopsAt(rs, from + 1, k);
    }
  }

  /** A Type after "Lunar Tithi" in `Order` means the lunar result was turned down. */
  lemma PickPastLunar(rs: Results)
    requires Pick(rs, 0).1 in {Tag(SolarStar), Tag(SolarTithi), Tag(LunarStar), Tag(SolarDayNo), UnknownFormat}
    ensures !Accepts(LunarTithi, rs.lunar)
  {
    if Accepts(LunarTithi, rs.lunar) {
      assert Accepts(Order[2], ResultOf(rs, Order[2]));
      PickStopsAt(rs, 0, 2);
    }
  }

  /** `Pick` at each position of `Order`, written out as the chain's tests. */
  lemma PickUnfolds(rs: Results)
    ensures Pick(rs, 0) == if TruthyStr(rs.english) then (rs.english.value, "English/Pattern") else Pick(rs, 1)
    ensures Pick(rs, 1) == if TruthyStr(rs.festival) then (rs.festival.value, "Festival") else Pick(rs, 2)
    ensures Pick(rs, 2) == if TruthyStr(rs.lunar) && !Contains(rs.lunar.value, NotFound)
                           then (rs.lunar.value, "Lunar Tithi") else Pick(rs, 3)
    ensures Pick(rs, 3) == if TruthyStr(rs.solar) && !Contains(rs.solar.value, "Check")
                           then (rs.solar.value, "Solar Star") else Pick(rs, 4)
    ensures Pick(rs, 4) == if TruthyStr(rs.solarTithi) && !Contains(rs.solarTithi.value, "Check")
                           then (rs.solarTithi.value, "Solar + Tithi") else Pick(rs, 5)
    ensures Pick(rs, 5) == if TruthyStr(rs.lunarStar) then (rs.lunarStar.value, "Lunar + Star") else Pick(rs, 6)
    ensures Pick(rs, 6) == if TruthyStr(rs.solarDay) then (rs.solarDay.value, "Solar Day No.") else Pick(rs, 7)
    ensures Pick(rs, 7) == (ManualCheck, UnknownFormat)
  {
  }

  /** Section "2. CALCULATE" of the row loop: the nested strategy chain. */
  method Calculate(env: Env, originalText: string, finalText: string, year: int)
    returns (calcDate: string, note: string)
    requires Fits(env.tables) && MinYear < year < MaxYear
    ensures (calcDate, note) == Classify(env, originalText, finalText, year)
  {
    ghost var rs := Attempts(env, originalText, finalText, year);
    PickUnfolds(rs);
    calcDate, note := "Unknown", "";
    var res := GetEnglishDate(Str(finalText), year);
    assert res == rs.english;
    if TruthyStr(res) {
      calcDate, note := res.value, "English/Pattern";
    } else {
      res := GetFestivalDate(env.tables, env.ephemeris, originalText, year);
      assert res == rs.festival;
      if TruthyStr(res) {
        calcDate, note := res.value, "Festival";
      } else {
        res := GetLunarDate(env.tables, env.ephemeris, finalText, year);
        assert res == rs.lunar;
        if TruthyStr(res) && !Contains(res.value, "Not Found") {
          calcDate, note := res.value, "Lunar Tithi";
        } else {
          res := GetSolarDate(env.tables, env.ephemeris, finalText, year);
          assert res == rs.solar;
          if TruthyStr(res) && !Contains(res.value, "Check") {
            calcDate, note := res.value, "Solar Star";
          } else {
            res := env.solarMonthTithi(finalText, year);
            assert res == rs.solarTithi;
            if TruthyStr(res) && !Contains(res.value, "Check") {
              calcDate, note := res.value, "Solar + Tithi";
            } else {
              res := env.lunarMonthStar(finalText, year);
              assert res == rs.lunarStar;
              if TruthyStr(res) {
                calcDate, note := res.value, "Lunar + Star";
              } else {
                res := env.solarDay(finalText, year);
                assert res == rs.solarDay;
                if TruthyStr(res) {
                  calcDate, note := res.value, "Solar Day No.";
                } else {
                  calcDate, note := ManualCheck, UnknownFormat;
                }
              }
            }
          }
        }
      }
    }
  }

  // ---------------------------------------------------------------- the row loop

  /** The record the loop appends for `row` when `seen` is the month remembered from earlier rows. */
  function RecordOf(env: Env, row: Row, seen: Option<string>, year: int): Record
    requires Fits(env.tables) && MinYear < year < MaxYear
  {
    var original := OriginalText(row);
    var processed := ProcessedText(seen, original);
    var outcome := Classify(env, original, processed, year);
    Record(row.name, original, processed, outcome.0, outcome.1)
  }

  /**
   * The `results` list for `rows`: record `i` is computed from row `i` and
   * the month remembered from the rows before it.
   */
  function Records(env: Env, rows: seq<Row>, year: int): (rs: seq<Record>)
    requires Fits(env.tables) && MinYear < year < MaxYear
  {
    seq(|rows|, i requires 0 <= i < |rows| => RecordOf(env, rows[i], SeenThrough(Originals(rows)[..i]), year))
  }

  /**
   * Section "1. FILL DOWN" of the row loop: remember the first month key,
   * in `KANNADA_MONTHS` order, that occurs in the text, and complete a
   * bare number with the month remembered so far.
   */
  method FillDown(originalText: string, lastSeenMonth: Option<string>)
    returns (finalText: string, seen: Option<string>)
    ensures seen == if MonthIn(originalText).Some? then MonthIn(originalText) else lastSeenMonth
    ensures finalText == ProcessedText(lastSeenMonth, originalText)
  {
    seen := lastSeenMonth;
    var monthFound := false;
    var k := 0;
    while k < |KannadaMonths|
      invariant 0 <= k <= |KannadaMonths|
      invariant !monthFound && seen == lastSeenMonth
      invariant MonthFrom(originalText, k) == MonthFrom(originalText, 0)
    {
      if Contains(originalText, KannadaMonths[k].0) {
        seen := Some(KannadaMonths[k].0);
        monthFound := true;
        break;
      }
      k := k + 1;
    }
    assert monthFound <==> MonthIn(originalText).Some?;
    finalText := originalText;
    if !monthFound && IsDigits(originalText) && seen.Some? {
      finalText := seen.value + "-" + originalText;
    }
  }

  /**
   * The row loop: one record per row, in row order, each computed with the
   * month remembered from the rows before it.
   */
  method ProcessRows(env: Env, rows: seq<Row>, year: int) returns (results: seq<Record>)
    requires Fits(env.tables) && MinYear < year < MaxYear
    ensures results == Records(env, rows, year)
  {
    ghost var texts := Originals(rows);
    ghost var all := Records(env, rows, year);
    results := [];
    var lastSeenMonth: Option<string> := None;
    for index := 0 to |rows|
      invariant lastSeenMonth == SeenThrough(texts[..index])
      invariant results == all[..index]
    {
      var row := rows[index];
      var name := row.name;
      var originalText := Strip(row.cell);

      // 1. fill-down
      var finalText;
      finalText, lastSeenMonth := FillDown(originalText, lastSeenMonth);

      // 2. calculate
      var calcDate, note := Calculate(env, originalText, finalText, year);
      var record := Record(name, originalText, finalText, calcDate, note);
      assert record == RecordOf(env, row, SeenThrough(texts[..index]), year);
      assert record == all[index];
      results := results + [record];
      SeenThroughStep(texts[..index], originalText);
      PrefixStep(texts, index);
      PrefixStep(all, index);
    }
  }

  // ---------------------------------------------------------------- what the loop gives

  /**
   * One record per row, in row order: record `i` carries row `i`'s name,
   * its stripped text as Original Input and the filled-down text as
   * Processed Input.
   */
  lemma RecordsShape(env: Env, rows: seq<Row>, year: int, i: nat)
    requires Fits(env.tables) && MinYear < year < MaxYear && i < |rows|
    ensures |Records(env, rows, year)| == |rows|
    ensures var r, original := Records(env, rows, year)[i], Strip(rows[i].cell);
            r.name == rows[i].name && r.originalInput == original
            && r.processedInput == ProcessedText(SeenThrough(Originals(rows)[..i]), original)
  {
  }

  /** The records of the first `n` rows do not depend on the rows after them. */
  lemma RecordsPrefix(env: Env, rows: seq<Row>, year: int, n: nat)
    requires Fits(env.tables) && MinYear < year < MaxYear && n <= |rows|
    ensures Records(env, rows[..n], year) == Records(env, rows, year)[..n]
  {
    var short, long := Records(env, rows[..n], year), Records(env, rows, year);
    forall i | 0 <= i < n
      ensures short[i] == long[i]
    {
      assert Originals(rows[..n])[..i] == Originals(rows)[..i];
      assert rows[..n][i] == rows[i];
    }
    assert |short| == |long[..n]|;
  }

  /** Digits never contain a month key, whose first character is Kannada. */
  lemma DigitsNameNoMonth(text: string)
    requires IsDigits(text)
    ensures MonthIn(text).None?
  {
    TableShape();
    if MonthFrom(text, 0).Some? {
      var key := KannadaMonths[MonthFrom(text, 0).value].0;
      NotContainsForeign(text, key, 0);
    }
  }

  /**
   * A bare day number under a month row is read as that day of the
   * remembered month: the processed text is "month-number", which the
   * civil-date pattern resolves to that day of the requested year when it
   * exists.
   */
  lemma BareNumberAfterMonth(seen: string, text: string, year: int)
    requires IsMonthKey(seen) && IsDigits(text)
    ensures ProcessedText(Some(seen), text) == seen + "-" + text
    ensures var month, day := MonthNumber(seen).value, DigitsValue(text);
            GetEnglishDate(Str(ProcessedText(Some(seen), text)), year) ==
              if MinYear <= year <= MaxYear && 1 <= day <= DaysInMonth(year, month)
              then Some(Format(Date(year, month, day)))
              else None
  {
    DigitsNameNoMonth(text);
    MonthDashDigits(seen, text, year);
  }

  /** A lunar search that found no day still passes the lunar test: "Calc Failed" has no "Not Found" in it. */
  lemma CalcFailedAccepted()
    ensures Accepts(LunarTithi, Some(CalcFailed))
  {
    NotContainsForeign(CalcFailed, NotFound, 0);
  }

  /** So does the missing-ephemeris error text. */
  lemma NoEphemerisAccepted()
    ensures Accepts(LunarTithi, Some(NoEphemeris))
  {
    NotContainsForeign(NoEphemeris, NotFound, 2);
  }

  /** Only a lunar result mentioning "Not Found" is passed over. */
  lemma NotFoundRejected()
    ensures !Accepts(LunarTithi, Some(NotFound))
  {
    ContainsPrefix(NotFound, NotFound);
  }

  /**
   * Without the ephemeris, a row that is neither a civil date nor a
   * festival gets the missing-ephemeris error as its "Lunar Tithi" date:
   * no later strategy is reached.
   */
  lemma NoEphemerisRow(env: Env, original: string, processed: string, year: int)
    requires Fits(env.tables) && MinYear < year < MaxYear && env.ephemeris.Unavailable?
    requires !TruthyStr(GetEnglishDate(Str(processed), year))
    requires !TruthyStr(FestivalDate(env.tables, env.ephemeris, original, year))
    ensures Classify(env, original, processed, year) == (NoEphemeris, Tag(LunarTithi))
  {
    var rs := Attempts(env, original, processed, year);
    PickUnfolds(rs);
    LunarDateResult(env.tables, env.ephemeris, processed, year);
    NoEphemerisAccepted();
  }

  /**
   * A lunar query whose 60-day scan finds no day is reported as the date
   * "Calc Failed" with Type "Lunar Tithi", and the solar strategies are not
   * tried.
   */
  lemma CalcFailedShown(env: Env, original: string, processed: string, year: int)
    requires Fits(env.tables) && MinYear < year < MaxYear
    requires !TruthyStr(GetEnglishDate(Str(processed), year))
    requires !TruthyStr(FestivalDate(env.tables, env.ephemeris, original, year))
    requires LunarDate(env.tables, env.ephemeris, processed, year) == Some(CalcFailed)
    ensures Classify(env, original, processed, year) == (CalcFailed, Tag(LunarTithi))
  {
    var rs := Attempts(env, original, processed, year);
    PickUnfolds(rs);
    CalcFailedAccepted();
  }

  /** A scan whose miss text is accepted returns an accepted text. */
  lemma ScanAccepted(at: Date -> SkyAt, c: Criterion, start: Date, span: nat, miss: string)
    requires ValidDate(start) && start.year >= 0 && !Contains(miss, NotFound)
    ensures !Contains(ScanResult(at, c, start, span, miss), NotFound)
  {
    match FirstHit(at, c, start, 0, span)
    case None =>
    case Some(i) => NotContainsForeign(Format(PlusDays(start, i)), NotFound, 0);
  }

  /**
   * The lunar strategy settles every row it can read: without the
   * ephemeris, or for any lunar query, its result is accepted.
   */
  lemma LunarQueryAccepted(t: Tables, eph: Ephemeris, text: string, year: int)
    requires Fits(t) && MinYear < year < MaxYear
    requires eph.Unavailable? || ParseLunar(t, text).Some?
    ensures Accepts(LunarTithi, LunarDate(t, eph, text, year))
  {
    if eph.Unavailable? {
      NoEphemerisAccepted();
    } else {
      var q := ParseLunar(t, text).value;
      CalcFailedAccepted();
      ScanAccepted(eph.at, TithiIs(TargetTithi(q.paksha, q.tithi)), LunarWindowStart(year, q.month), LunarSpan, CalcFailed);
    }
  }

  /**
   * "Solar Star" is only ever the Type of a row when the ephemeris is
   * loaded and the processed text is not a lunar query.
   */
  lemma SolarStarNeedsNoLunarQuery(env: Env, original: string, processed: string, year: int)
    requires Fits(env.tables) && MinYear < year < MaxYear
    requires Classify(env, original, processed, year).1 == Tag(SolarStar)
    ensures env.ephemeris.Available? && ParseLunar(env.tables, processed).None?
  {
    var rs := Attempts(env, original, processed, year);
    PickPastLunar(rs);
    if env.ephemeris.Unavailable? || ParseLunar(env.tables, processed).Some? {
      LunarQueryAccepted(env.tables, env.ephemeris, processed, year);
    }
  }
}
