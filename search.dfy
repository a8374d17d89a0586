/**
 * The astronomical date searches of calculations.py: `get_lunar_date`
 * (month, paksha and tithi words), `get_solar_date` (solar month and
 * nakshatra words), `calculate_from_indices` and `get_festival_date`.
 * Each search parses its query, opens a window of consecutive days and
 * returns the first day whose sky matches, formatted as `DD-MM-YYYY`, or
 * a sentinel text.
 */
module Search {

  import opened Wrappers
  import opened Text
  import opened CivilDate
  import opened Sky
  import opened Vocabulary

  const NoEphemeris: string := "Error: No de421.bsp"
  const IndicesError: string := "Error"
  const CalcFailed: string := "Calc Failed"
  const NotFound: string := "Not Found"

  /** Days the lunar searches examine, and days the solar search examines. */
  const LunarSpan: nat := 60
  const SolarSpan: nat := 45
  /** The lunar window opens this many days before the 1st of its civil month. */
  const WindowLead: nat := 15

  // ---------------------------------------------------------------- parsing the query

  /** `text.replace("-", " ").replace(".", " ")`. */
  function Clean(text: string): (r: string)
    ensures |r| == |text| && '-' !in r && '.' !in r
    ensures forall i :: 0 <= i < |text| && text[i] != '-' && text[i] != '.' ==> r[i] == text[i]
    ensures forall i :: 0 <= i < |text| && (text[i] == '-' || text[i] == '.') ==> r[i] == ' '
  {
    var dashless := Replace(text, '-', ' ');
    ReplaceAt(text, '-', ' ');
    ReplaceAt(dashless, '.', ' ');
    Replace(dashless, '.', ' ')
  }

  /** The words the token loop walks: `clean_str.split()`. */
  function QueryWords(text: string): seq<string> {
    Tokens(Clean(text))
  }

  /** The query words are words that hold no `-` and no `.`: the separators are gone. */
  lemma QueryWordsAreClean(text: string)
    ensures forall i :: 0 <= i < |QueryWords(text)| ==>
              IsWord(QueryWords(text)[i]) && '-' !in QueryWords(text)[i] && '.' !in QueryWords(text)[i]
  {
    TokensAvoid(Clean(text), '-');
    TokensAvoid(Clean(text), '.');
  }

  /**
   * What a `found_x = MAP[part]` loop leaves behind: the value of the last
   * word that is a key of `m`, a later word overwriting an earlier one.
   */
  function LastFound<V(==)>(words: seq<string>, m: map<string, V>): (r: Option<V>)
    ensures r.Some? ==> r.value in m.Values
  {
    if words == [] then None
    else if words[|words| - 1] in m then Some(m[words[|words| - 1]])
    else LastFound(words[..|words| - 1], m)
  }

  /** Nothing is found exactly when no word is a key of `m`. */
  lemma {:induction false} LastFoundNone<V>(words: seq<string>, m: map<string, V>)
    ensures LastFound(words, m).None? <==> forall i :: 0 <= i < |words| ==> words[i] !in m
  {
    if words != [] && words[|words| - 1] !in m {
      var front := words[..|words| - 1];
      LastFoundNone(front, m);
      assert forall j :: 0 <= j < |front| ==> front[j] == words[j];
    }
  }

  /** What is found is the value of a key word after which no word is a key. */
  lemma {:induction false} LastFoundIsLast<V>(words: seq<string>, m: map<string, V>)
    requires LastFound(words, m).Some?
    ensures exists i :: 0 <= i < |words| && words[i] in m && LastFound(words, m).value == m[words[i]]
              && forall j :: i < j < |words| ==> words[j] !in m
  {
    var n := |words| - 1;
    if words[n] in m {
      assert words[n] in m && LastFound(words, m).value == m[words[n]];
    } else {
      var front := words[..n];
      LastFoundIsLast(front, m);
      var i :| 0 <= i < |front| && front[i] in m && LastFound(front, m).value == m[front[i]]
                && forall j :: i < j < |front| ==> front[j] !in m;
      assert forall j :: 0 <= j < n ==> front[j] == words[j];
      assert words[i] in m && LastFound(words, m).value == m[words[i]];
      assert forall j :: i < j < |words| ==> words[j] !in m;
    }
  }

  /** One more word: it overwrites the value found so far when it is a key. */
  lemma LastFoundStep<V>(words: seq<string>, i: nat, m: map<string, V>)
    requires i < |words|
    ensures LastFound(words[..i + 1], m) ==
              if words[i] in m then Some(m[words[i]]) else LastFound(words[..i], m)
  {
    assert words[..i + 1][..i] == words[..i];
  }

  /** Python truthiness of a found number: `None` and `0` are false. */
  predicate TruthyInt(o: Option<int>) {
    o.Some? && o.value != 0
  }

  /** Python truthiness of a found text: `None` and `""` are false. */
  predicate TruthyStr(o: Option<string>) {
    o.Some? && o.value != ""
  }

  datatype LunarQuery = LunarQuery(month: int, paksha: string, tithi: int)

  /** The three values the lunar token loop finds, when all of them are truthy. */
  function ParseLunar(t: Tables, text: string): (r: Option<LunarQuery>)
    ensures r.Some? ==> r.value.month in t.lunarMonths.Values && r.value.month != 0
    ensures r.Some? ==> r.value.paksha != "" && r.value.tithi != 0
  {
    var words := QueryWords(text);
    var month := LastFound(words, t.lunarMonths);
    var paksha := LastFound(words, t.paksha);
    var tithi := LastFound(words, t.tithis);
    if TruthyInt(month) && TruthyStr(paksha) && TruthyInt(tithi)
    then Some(LunarQuery(month.value, paksha.value, tithi.value))
    else None
  }

  /**
   * The truthiness test of the lunar query: no query exactly when one of the
   * three loop variables is still `None` or holds a false value (`0`, `""`).
   */
  lemma LunarTruthyCheck(t: Tables, text: string)
    ensures var words := QueryWords(text);
            ParseLunar(t, text).None? <==>
              LastFound(words, t.lunarMonths) == None || LastFound(words, t.lunarMonths) == Some(0)
              || LastFound(words, t.paksha) == None || LastFound(words, t.paksha) == Some("")
              || LastFound(words, t.tithis) == None || LastFound(words, t.tithis) == Some(0)
  {
  }

  datatype SolarQuery = SolarQuery(month: int, star: int)

  /** The two values the solar token loop finds, when both are truthy. */
  function ParseSolar(t: Tables, text: string): (r: Option<SolarQuery>)
    ensures r.Some? ==> r.value.month in t.solarMonths.Values && r.value.month != 0 && r.value.star != 0
  {
    var words := QueryWords(text);
    var month := LastFound(words, t.solarMonths);
    var star := LastFound(words, t.nakshatras);
    if TruthyInt(month) && TruthyInt(star)
    then Some(SolarQuery(month.value, star.value))
    else None
  }

  /**
   * The truthiness test of the solar query: no query exactly when one of the
   * two loop variables is still `None` or holds `0`.
   */
  lemma SolarTruthyCheck(t: Tables, text: string)
    ensures var words := QueryWords(text);
            ParseSolar(t, text).None? <==>
              LastFound(words, t.solarMonths) == None || LastFound(words, t.solarMonths) == Some(0)
              || LastFound(words, t.nakshatras) == None || LastFound(words, t.nakshatras) == Some(0)
  {
  }

  // ---------------------------------------------------------------- search windows

  /** `date(year, approx_month, 1) - timedelta(days=15)`. */
  function LunarWindowStart(year: int, month: int): (r: Date)
    requires 1 <= LunarWindowMonth(month) <= 12
    ensures ValidDate(r) && year - 1 <= r.year <= year
  {
    FirstOfMonthMinus(year, LunarWindowMonth(month), WindowLead);
    MinusDays(Date(year, LunarWindowMonth(month), 1), WindowLead)
  }

  /** `date(year, start_greg_month, 1)`. */
  function SolarWindowStart(year: int, month: int): (r: Date)
    requires 1 <= SolarWindowMonth(month) <= 12
    ensures ValidDate(r) && r.year == year
  {
    Date(year, SolarWindowMonth(month), 1)
  }

  /**
   * Where the lunar window opens: 15 days before the 1st of the civil
   * month, always counted in the requested year, so that for the civil
   * month January it opens on 17 December of the year before.
   */
  lemma LunarWindowOpens(year: int, month: int)
    requires 1 <= LunarWindowMonth(month) <= 12
    ensures var m := LunarWindowMonth(month);
            LunarWindowStart(year, month) ==
              if m == 1 then Date(year - 1, 12, 17)
              else Date(year, m - 1, DaysInMonth(year, m - 1) - 14)
  {
    FirstOfMonthMinus(year, LunarWindowMonth(month), WindowLead);
  }

  /** Lunar month 11 is searched from 17 December of the previous year. */
  lemma LunarMonthElevenWindow(year: int)
    ensures LunarWindowStart(year, 11) == Date(year - 1, 12, 17)
  {
    LunarWindowOpens(year, 11);
  }

  // ---------------------------------------------------------------- the day-by-day scan

  /** What a search looks for on a day. */
  datatype Criterion = TithiIs(target: int) | SignAndStar(sign: int, star: int)

  predicate Hit(c: Criterion, s: SkyAt) {
    match c
    case TithiIs(target) => TithiOf(s) == target
    case SignAndStar(sign, star) => SunSign(s) == sign && NakshatraOf(s) == star
  }

  /** The first offset in `[from, bound)` from `start` whose day matches `c`. */
  function FirstHit(at: Date -> SkyAt, c: Criterion, start: Date, from: nat, bound: nat): (r: Option<nat>)
    requires from <= bound
    ensures r.Some? ==> from <= r.value < bound && Hit(c, at(PlusDays(start, r.value)))
    ensures r.Some? ==> forall j :: from <= j < r.value ==> !Hit(c, at(PlusDays(start, j)))
    ensures r.None? ==> forall j :: from <= j < bound ==> !Hit(c, at(PlusDays(start, j)))
    decreases bound - from
  {
    if from == bound then None
    else if Hit(c, at(PlusDays(start, from))) then Some(from)
    else FirstHit(at, c, start, from + 1, bound)
  }

  /** One step of a scan: a day that does not match passes the search on to the next day. */
  lemma FirstHitStep(at: Date -> SkyAt, c: Criterion, start: Date, i: nat, bound: nat)
    requires i < bound
    ensures FirstHit(at, c, start, i, bound) ==
              if Hit(c, at(PlusDays(start, i))) then Some(i) else FirstHit(at, c, start, i + 1, bound)
  {
  }

  /** The text a scan returns: the first matching day, or `miss` when none of the `span` days match. */
  function ScanResult(at: Date -> SkyAt, c: Criterion, start: Date, span: nat, miss: string): string
    requires ValidDate(start) && start.year >= 0
  {
    match FirstHit(at, c, start, 0, span)
    case Some(i) => Format(PlusDays(start, i))
    case None => miss
  }

  /**
   * A scan returns `miss` exactly when no day of the window matches, and
   * otherwise the text of the earliest matching day of the window.
   */
  lemma ScanCases(at: Date -> SkyAt, c: Criterion, start: Date, span: nat, miss: string)
    requires ValidDate(start) && start.year >= 0
    requires IsSentinel(miss)
    ensures ScanResult(at, c, start, span, miss) == miss <==>
              forall j :: 0 <= j < span ==> !Hit(c, at(PlusDays(start, j)))
    ensures ScanResult(at, c, start, span, miss) != miss ==>
              exists i :: 0 <= i < span && ScanResult(at, c, start, span, miss) == Format(PlusDays(start, i))
                && Hit(c, at(PlusDays(start, i)))
                && forall j :: 0 <= j < i ==> !Hit(c, at(PlusDays(start, j)))
  {
    match FirstHit(at, c, start, 0, span)
    case None =>
    case Some(i) =>
      assert ScanResult(at, c, start, span, miss) == Format(PlusDays(start, i));
      assert 0 <= i < span && Hit(c, at(PlusDays(start, i)));
      FormatIsNoSentinel(PlusDays(start, i), miss);
  }

  /** A formatted date is never a text that starts with a letter. */
  lemma FormatIsNoSentinel(d: Date, miss: string)
    requires ValidDate(d) && d.year >= 0
    requires IsSentinel(miss)
    ensures Format(d) != miss
  {
  }

  /** The sentinels are no `DD-MM-YYYY` text: each starts with a letter. */
  predicate IsSentinel(s: string) {
    |s| > 0 && !IsDigit(s[0]) && s[0] != '-'
  }

  lemma SentinelsAreNotDates()
    ensures IsSentinel(CalcFailed) && IsSentinel(NotFound)
    ensures IsSentinel(NoEphemeris) && IsSentinel(IndicesError)
  {
  }

  // ---------------------------------------------------------------- get_lunar_date

  /** `get_lunar_date(text, year)`. */
  function LunarDate(t: Tables, eph: Ephemeris, text: string, year: int): Option<string>
    requires Fits(t) && MinYear < year < MaxYear
  {
    if eph.Unavailable? then Some(NoEphemeris)
    else
      match ParseLunar(t, text)
      case None => None
      case Some(q) =>
        Some(ScanResult(eph.at, TithiIs(TargetTithi(q.paksha, q.tithi)),
                        LunarWindowStart(year, q.month), LunarSpan, CalcFailed))
  }

  /** The lunar token loop: each word that is a key overwrites what was found for its map. */
  method FindLunar(t: Tables, parts: seq<string>) returns (foundMonth: Option<int>, foundPaksha: Option<string>, foundTithi: Option<int>)
    requires forall i :: 0 <= i < |parts| ==> IsWord(parts[i])
    ensures foundMonth == LastFound(parts, t.lunarMonths)
    ensures foundPaksha == LastFound(parts, t.paksha)
    ensures foundTithi == LastFound(parts, t.tithis)
  {
    foundMonth, foundPaksha, foundTithi := None, None, None;
    for i := 0 to |parts|
      invariant foundMonth == LastFound(parts[..i], t.lunarMonths)
      invariant foundPaksha == LastFound(parts[..i], t.paksha)
      invariant foundTithi == LastFound(parts[..i], t.tithis)
    {
      var part := Strip(parts[i]);
      StripWord(parts[i]);
      LastFoundStep(parts, i, t.lunarMonths);
      LastFoundStep(parts, i, t.paksha);
      LastFoundStep(parts, i, t.tithis);
      if part in t.lunarMonths {
        foundMonth := Some(t.lunarMonths[part]);
      }
      if part in t.paksha {
        foundPaksha := Some(t.paksha[part]);
      }
      if part in t.tithis {
        foundTithi := Some(t.tithis[part]);
      }
    }
    assert parts[..|parts|] == parts;
  }

  /**
   * The day loop of `get_lunar_date`: day `i` of the window is the start
   * date plus `i` days, and the first day whose tithi is the target wins.
   */
  method ScanLunarDays(at: Date -> SkyAt, targetIndex: int, startDate: Date) returns (r: string)
    requires ValidDate(startDate) && startDate.year >= 0
    ensures r == ScanResult(at, TithiIs(targetIndex), startDate, LunarSpan, CalcFailed)
  {
    ghost var c := TithiIs(targetIndex);
    for i := 0 to LunarSpan
      invariant FirstHit(at, c, startDate, i, LunarSpan) == FirstHit(at, c, startDate, 0, LunarSpan)
    {
      var checkDate := PlusDays(startDate, i);
      var sky := at(checkDate);
      var angle := Elongation(sky);
      var currentTithi := (angle / 12.0).Floor + 1;
      FirstHitStep(at, c, startDate, i, LunarSpan);
      assert Hit(c, sky) <==> currentTithi == targetIndex;
      if currentTithi == targetIndex {
        return Format(checkDate);
      }
    }
    return CalcFailed;
  }

  method GetLunarDate(t: Tables, eph: Ephemeris, text: string, year: int) returns (r: Option<string>)
    requires Fits(t) && MinYear < year < MaxYear
    ensures r == LunarDate(t, eph, text, year)
  {
    if eph.Unavailable? {
      return Some(NoEphemeris);
    }
    var parts := Tokens(Clean(text));
    var foundMonth, foundPaksha, foundTithi := FindLunar(t, parts);
    if !(TruthyInt(foundMonth) && TruthyStr(foundPaksha) && TruthyInt(foundTithi)) {
      return None;
    }
    ghost var q := LunarQuery(foundMonth.value, foundPaksha.value, foundTithi.value);
    assert ParseLunar(t, text) == Some(q);
    var targetIndex := foundTithi.value;
    if foundPaksha.value == Krishna {
      targetIndex := foundTithi.value + 15;
    }
    assert targetIndex == TargetTithi(q.paksha, q.tithi);
    var approxMonth := foundMonth.value + 2;
    if approxMonth > 12 {
      approxMonth := approxMonth - 12;
    }
    var startDate := MinusDays(Date(year, approxMonth, 1), WindowLead);
    assert startDate == LunarWindowStart(year, q.month);
    var found := ScanLunarDays(eph.at, targetIndex, startDate);
    return Some(found);
  }

  // ---------------------------------------------------------------- get_solar_date

  /** `get_solar_date(text, year)`. */
  function SolarDate(t: Tables, eph: Ephemeris, text: string, year: int): Option<string>
    requires Fits(t) && MinYear < year < MaxYear
  {
    if eph.Unavailable? then Some(NoEphemeris)
    else
      match ParseSolar(t, text)
      case None => None
      case Some(q) =>
        Some(ScanResult(eph.at, SignAndStar(q.month, q.star),
                        SolarWindowStart(year, q.month), SolarSpan, CalcFailed))
  }

  /** The solar token loop: each word that is a key overwrites what was found for its map. */
  method FindSolar(t: Tables, parts: seq<string>) returns (foundSolarMonth: Option<int>, foundStar: Option<int>)
    requires forall i :: 0 <= i < |parts| ==> IsWord(parts[i])
    ensures foundSolarMonth == LastFound(parts, t.solarMonths)
    ensures foundStar == LastFound(parts, t.nakshatras)
  {
    foundSolarMonth, foundStar := None, None;
    for i := 0 to |parts|
      invariant foundSolarMonth == LastFound(parts[..i], t.solarMonths)
      invariant foundStar == LastFound(parts[..i], t.nakshatras)
    {
      var part := Strip(parts[i]);
      StripWord(parts[i]);
      LastFoundStep(parts, i, t.solarMonths);
      LastFoundStep(parts, i, t.nakshatras);
      if part in t.solarMonths {
        foundSolarMonth := Some(t.solarMonths[part]);
      }
      if part in t.nakshatras {
        foundStar := Some(t.nakshatras[part]);
      }
    }
    assert parts[..|parts|] == parts;
  }

  /**
   * The day loop of `get_solar_date`: the search date moves on one day at a
   * time, and the first day with the sun in the sign and the moon in the
   * nakshatra wins.
   */
  method ScanSolarDays(at: Date -> SkyAt, solarMonth: int, star: int, start: Date) returns (r: string)
    requires ValidDate(start) && start.year >= 0
    ensures r == ScanResult(at, SignAndStar(solarMonth, star), start, SolarSpan, CalcFailed)
  {
    ghost var c := SignAndStar(solarMonth, star);
    var searchDate := start;
    for i := 0 to SolarSpan
      invariant searchDate == PlusDays(start, i)
      invariant FirstHit(at, c, start, i, SolarSpan) == FirstHit(at, c, start, 0, SolarSpan)
    {
      var sky := at(searchDate);
      FirstHitStep(at, c, start, i, SolarSpan);
      var currentSolarMonth := (sky.sun / 30.0).Floor + 1;
      assert currentSolarMonth == SunSign(sky);
      if currentSolarMonth == solarMonth {
        var currentStar := (sky.moon / (360.0 / 27.0)).Floor + 1;
        assert currentStar == NakshatraOf(sky);
        if currentStar == star {
          return Format(searchDate);
        }
      }
      assert PlusDays(start, i + 1) == Next(searchDate);
      searchDate := Next(searchDate);
    }
    return CalcFailed;
  }

  method GetSolarDate(t: Tables, eph: Ephemeris, text: string, year: int) returns (r: Option<string>)
    requires Fits(t) && MinYear < year < MaxYear
    ensures r == SolarDate(t, eph, text, year)
  {
    if eph.Unavailable? {
      return Some(NoEphemeris);
    }
    var parts := Tokens(Clean(text));
    var foundSolarMonth, foundStar := FindSolar(t, parts);
    if !(TruthyInt(foundSolarMonth) && TruthyInt(foundStar)) {
      return None;
    }
    var startGregMonth := foundSolarMonth.value + 3;
    if startGregMonth > 12 {
      startGregMonth := startGregMonth - 12;
    }
    var searchDate := Date(year, startGregMonth, 1);
    assert ParseSolar(t, text) == Some(SolarQuery(foundSolarMonth.value, foundStar.value));
    assert searchDate == SolarWindowStart(year, foundSolarMonth.value);
    var found := ScanSolarDays(eph.at, foundSolarMonth.value, foundStar.value, searchDate);
    return Some(found);
  }

  // ---------------------------------------------------------------- calculate_from_indices

  /** `calculate_from_indices(month, paksha, tithi, year)`. */
  function IndicesDate(eph: Ephemeris, month: int, paksha: string, tithi: int, year: int): string
    requires 1 <= LunarWindowMonth(month) <= 12 && MinYear < year < MaxYear
  {
    if eph.Unavailable? then IndicesError
    else ScanResult(eph.at, TithiIs(TargetTithi(paksha, tithi)), LunarWindowStart(year, month), LunarSpan, NotFound)
  }

  /**
   * The day loop of `calculate_from_indices`: the current date moves on one
   * day at a time, and the first day whose tithi is the target wins.
   */
  method ScanIndicesDays(at: Date -> SkyAt, target: int, start: Date) returns (r: string)
    requires ValidDate(start) && start.year >= 0
    ensures r == ScanResult(at, TithiIs(target), start, LunarSpan, NotFound)
  {
    ghost var c := TithiIs(target);
    var curr := start;
    for i := 0 to LunarSpan
      invariant curr == PlusDays(start, i)
      invariant FirstHit(at, c, start, i, LunarSpan) == FirstHit(at, c, start, 0, LunarSpan)
    {
      var sky := at(curr);
      var angle := Elongation(sky);
      var currTithi := (angle / 12.0).Floor + 1;
      FirstHitStep(at, c, start, i, LunarSpan);
      assert currTithi == TithiOf(sky);
      if currTithi == target {
        return Format(curr);
      }
      assert PlusDays(start, i + 1) == Next(curr);
      curr := Next(curr);
    }
    return NotFound;
  }

  method CalculateFromIndices(eph: Ephemeris, monthIdx: int, pakshaStr: string, tithiIdx: int, year: int)
    returns (r: string)
    requires 1 <= LunarWindowMonth(monthIdx) <= 12 && MinYear < year < MaxYear
    ensures r == IndicesDate(eph, monthIdx, pakshaStr, tithiIdx, year)
  {
    if eph.Unavailable? {
      return IndicesError;
    }
    var target := tithiIdx;
    if pakshaStr == Krishna {
      target := target + 15;
    }
    assert target == TargetTithi(pakshaStr, tithiIdx);
    var approxM := monthIdx + 2;
    if approxM > 12 {
      approxM := approxM - 12;
    }
    var curr := MinusDays(Date(year, approxM, 1), WindowLead);
    assert curr == LunarWindowStart(year, monthIdx);
    r := ScanIndicesDays(eph.at, target, curr);
  }

  // ---------------------------------------------------------------- get_festival_date

  /** `get_festival_date(text, year)`: only rules of type `"lunar"` are computed. */
  function FestivalDate(t: Tables, eph: Ephemeris, text: string, year: int): Option<string>
    requires Fits(t) && MinYear < year < MaxYear
  {
    var name := Strip(text);
    if name !in t.festivalRules then None
    else
      var rule := t.festivalRules[name];
      assert rule in t.festivalRules.Values;
      if rule.kind == "lunar" then Some(IndicesDate(eph, rule.month, rule.paksha, rule.tithi, year))
      else None
  }

  method GetFestivalDate(t: Tables, eph: Ephemeris, text: string, year: int) returns (r: Option<string>)
    requires Fits(t) && MinYear < year < MaxYear
    ensures r == FestivalDate(t, eph, text, year)
  {
    var name := Strip(text);
    if name in t.festivalRules {
      var rule := t.festivalRules[name];
      assert rule in t.festivalRules.Values;
      if rule.kind == "lunar" {
        var d := CalculateFromIndices(eph, rule.month, rule.paksha, rule.tithi, year);
        return Some(d);
      }
    }
    return None;
  }

  // ---------------------------------------------------------------- what the searches promise

  /**
   * `r` is what a search for tithi `target` over the `span` days from
   * `start` must give: `miss` exactly when no day has that tithi, and
   * otherwise the text of the earliest day that has it.
   */
  predicate FirstTithiDay(at: Date -> SkyAt, start: Date, target: int, span: nat, miss: string, r: string)
    requires ValidDate(start) && start.year >= 0
  {
    (r == miss <==> forall j :: 0 <= j < span ==> TithiOf(at(PlusDays(start, j))) != target)
    && (r != miss ==>
          exists i :: 0 <= i < span && r == Format(PlusDays(start, i))
            && TithiOf(at(PlusDays(start, i))) == target
            && forall j :: 0 <= j < i ==> TithiOf(at(PlusDays(start, j))) != target)
  }

  /** A scan for a tithi gives the first day with that tithi, or its miss text. */
  lemma TithiScanCases(at: Date -> SkyAt, target: int, start: Date, span: nat, miss: string)
    requires ValidDate(start) && start.year >= 0 && IsSentinel(miss)
    ensures FirstTithiDay(at, start, target, span, miss, ScanResult(at, TithiIs(target), start, span, miss))
  {
    ScanCases(at, TithiIs(target), start, span, miss);
  }

  /**
   * `r` is what a search for the sun in sign `sign` and the moon in
   * nakshatra `star` over the `span` days from `start` must give: `miss`
   * exactly when no day has both, and otherwise the text of the earliest
   * day that has both.
   */
  predicate FirstSignAndStarDay(at: Date -> SkyAt, start: Date, sign: int, star: int, span: nat, miss: string, r: string)
    requires ValidDate(start) && start.year >= 0
  {
    (r == miss <==>
       forall j :: 0 <= j < span ==> !(SunSign(at(PlusDays(start, j))) == sign && NakshatraOf(at(PlusDays(start, j))) == star))
    && (r != miss ==>
          exists i :: 0 <= i < span && r == Format(PlusDays(start, i))
            && SunSign(at(PlusDays(start, i))) == sign && NakshatraOf(at(PlusDays(start, i))) == star
            && forall j :: 0 <= j < i ==>
                 !(SunSign(at(PlusDays(start, j))) == sign && NakshatraOf(at(PlusDays(start, j))) == star))
  }

  /** A scan for a sign and a star gives the first day with both, or its miss text. */
  lemma SignAndStarScanCases(at: Date -> SkyAt, sign: int, star: int, start: Date, span: nat, miss: string)
    requires ValidDate(start) && start.year >= 0 && IsSentinel(miss)
    ensures FirstSignAndStarDay(at, start, sign, star, span, miss, ScanResult(at, SignAndStar(sign, star), start, span, miss))
  {
    ScanCases(at, SignAndStar(sign, star), start, span, miss);
  }

  /**
   * `get_lunar_date`: the missing ephemeris gives its error text whatever
   * the query; otherwise `None` exactly when the query does not name a
   * month, a paksha and a tithi; otherwise the first of the 60 days from the
   * window start whose tithi is the target, or "Calc Failed" exactly when
   * none of them has it.
   */
  lemma LunarDateResult(t: Tables, eph: Ephemeris, text: string, year: int)
    requires Fits(t) && MinYear < year < MaxYear
    ensures eph.Unavailable? ==> LunarDate(t, eph, text, year) == Some(NoEphemeris)
    ensures eph.Available? ==> (LunarDate(t, eph, text, year).None? <==> ParseLunar(t, text).None?)
    ensures eph.Available? && ParseLunar(t, text).Some? ==>
              var q := ParseLunar(t, text).value;
              var r := LunarDate(t, eph, text, year);
              r.Some? && FirstTithiDay(eph.at, LunarWindowStart(year, q.month), TargetTithi(q.paksha, q.tithi),
                                       LunarSpan, CalcFailed, r.value)
  {
    if eph.Available? && ParseLunar(t, text).Some? {
      var q := ParseLunar(t, text).value;
      TithiScanCases(eph.at, TargetTithi(q.paksha, q.tithi), LunarWindowStart(year, q.month), LunarSpan, CalcFailed);
    }
  }

  /**
   * `get_solar_date`: the missing ephemeris gives its error text; otherwise
   * `None` exactly when the query does not name a solar month and a star;
   * otherwise the first of the 45 days from the 1st of the window month on
   * which the sun is in that sign and the moon in that nakshatra, or
   * "Calc Failed" exactly when there is none.
   */
  lemma SolarDateResult(t: Tables, eph: Ephemeris, text: string, year: int)
    requires Fits(t) && MinYear < year < MaxYear
    ensures eph.Unavailable? ==> SolarDate(t, eph, text, year) == Some(NoEphemeris)
    ensures eph.Available? ==> (SolarDate(t, eph, text, year).None? <==> ParseSolar(t, text).None?)
    ensures eph.Available? && ParseSolar(t, text).Some? ==>
              var q := ParseSolar(t, text).value;
              var r := SolarDate(t, eph, text, year);
              r.Some? && FirstSignAndStarDay(eph.at, SolarWindowStart(year, q.month), q.month, q.star,
                                             SolarSpan, CalcFailed, r.value)
  {
    if eph.Available? && ParseSolar(t, text).Some? {
      var q := ParseSolar(t, text).value;
      SignAndStarScanCases(eph.at, q.month, q.star, SolarWindowStart(year, q.month), SolarSpan, CalcFailed);
    }
  }

  /**
   * `calculate_from_indices`: "Error" without the ephemeris, otherwise the
   * first day of the 60-day window with the target tithi, or "Not Found"
   * exactly when none of them has it.
   */
  lemma IndicesDateResult(eph: Ephemeris, month: int, paksha: string, tithi: int, year: int)
    requires 1 <= LunarWindowMonth(month) <= 12 && MinYear < year < MaxYear
    ensures eph.Unavailable? ==> IndicesDate(eph, month, paksha, tithi, year) == IndicesError
    ensures eph.Available? ==>
              FirstTithiDay(eph.at, LunarWindowStart(year, month), TargetTithi(paksha, tithi), LunarSpan, NotFound,
                            IndicesDate(eph, month, paksha, tithi, year))
  {
    if eph.Available? {
      TithiScanCases(eph.at, TargetTithi(paksha, tithi), LunarWindowStart(year, month), LunarSpan, NotFound);
    }
  }

  /**
   * The word query and the index query run the same search: once the words
   * are read, `get_lunar_date` returns what `calculate_from_indices` returns
   * for the same month, paksha and tithi, but with its own sentinels.
   */
  lemma LunarAgreesWithIndices(t: Tables, eph: Ephemeris, text: string, year: int)
    requires Fits(t) && MinYear < year < MaxYear
    requires ParseLunar(t, text).Some?
    ensures var q := ParseLunar(t, text).value;
            var i := IndicesDate(eph, q.month, q.paksha, q.tithi, year);
            LunarDate(t, eph, text, year) ==
              Some(if i == IndicesError then NoEphemeris else if i == NotFound then CalcFailed else i)
  {
    var q := ParseLunar(t, text).value;
    if eph.Available? {
      var start, c := LunarWindowStart(year, q.month), TithiIs(TargetTithi(q.paksha, q.tithi));
      match FirstHit(eph.at, c, start, 0, LunarSpan)
      case None =>
      case Some(k) =>
        FormatIsNoSentinel(PlusDays(start, k), IndicesError);
        FormatIsNoSentinel(PlusDays(start, k), NotFound);
    }
  }

  /**
   * `get_festival_date`: a result exactly for the (stripped) name of a rule
   * of type "lunar", and then it is `calculate_from_indices` of the rule's
   * month, paksha and tithi; unknown names and other rule types give `None`.
   */
  lemma FestivalDateResult(t: Tables, eph: Ephemeris, text: string, year: int)
    requires Fits(t) && MinYear < year < MaxYear
    ensures FestivalDate(t, eph, text, year).Some? <==>
              Strip(text) in t.festivalRules && t.festivalRules[Strip(text)].kind == "lunar"
    ensures FestivalDate(t, eph, text, year).Some? ==>
              var rule := t.festivalRules[Strip(text)];
              assert rule in t.festivalRules.Values;
              FestivalDate(t, eph, text, year).value == IndicesDate(eph, rule.month, rule.paksha, rule.tithi, year)
  {
  }
}
