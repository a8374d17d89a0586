# Shashwatha Pooja Scheduler: date resolution

This project models, in Dafny, the part of the temple pooja scheduler that
turns the free-text "fixed day" of each devotee into a calendar date for a
chosen year. The model has two parts.

- **The date strategies of `calculations.py`:**
  - `get_english_date` reads a Kannada month name and a day number, such as
    "ಮಾರ್ಚ್-15".
  - `get_lunar_date` reads month, paksha and tithi words and finds the first
    of 60 days, from 15 days before the approximate civil month, whose tithi
    at sunrise matches.
  - `get_solar_date` reads solar month and nakshatra words and finds the first
    of 45 days with the sun in that sign and the moon in that nakshatra.
  - `get_festival_date` and `calculate_from_indices` resolve a festival rule
    given by indices.
- **The row loop of `app.py`:**
  - It strips each date cell.
  - It remembers the first `KANNADA_MONTHS` key found in the cell ("fill-down").
  - It completes a bare day number with the remembered month.
  - It tries the seven strategies in a fixed order and records the first
    result the chain accepts, with its Type. When no strategy accepts, the
    record holds ("Manual Check", "Unknown Format").
- **The entry strings of the "Add New Seva" form**, and how the parsers read
  them back.

The ephemeris is a parameter: either missing, or a function from a day to
the sun's and the moon's ecliptic longitudes at sunrise. The tithi, the sign
and the nakshatra are then the source's own formulas on those longitudes.
The mapping tables (lunar months, pakshas, tithis, solar months, nakshatras,
festival rules) are parameters too. The operations rely only on the shape
`Vocabulary.Fits` states: every month value leads to a civil month that
`datetime.date` accepts. The round-trip lemmas about the form's entries
(`Entries`) assume more about the tables, as listed under "## Left out".

Modules:
- `Text`: the Python string operations used: `strip`, `split`, `split()`,
  `replace`, `in`, `isdigit`, `int`.
- `CivilDate`: `datetime.date`, one-day steps and `strftime("%d-%m-%Y")`.
- `EnglishDate`: `KANNADA_MONTHS` and `get_english_date`.
- `Sky`: the sky of a day, with tithi, sign and nakshatra.
- `Vocabulary`: the tables and the window-month arithmetic.
- `Search`: the searches, each as a method with a loop proved equal to a
  specification function, plus the lemmas about those functions.
- `Rows`: the row loop, its fill-down and the strategy chain.
- `Entries`: the form's entry strings.
- `EnglishDateExamples`: worked examples for 29 February.

## Model

| member | source | states |
|---|---|---|
| Text.Strip | calculations.py:32 | the stripped text neither starts nor ends with whitespace |
| Text.StripSlice | calculations.py:32 | `strip()` removes whitespace from the ends and nothing else: the text is the result with only whitespace before and after it |
| Text.StripKeeps | calculations.py:36 | a text that neither starts nor ends with whitespace is left unchanged by `strip()` |
| Text.StripAbsent | calculations.py:32 | stripping never introduces a character that was not in the text |
| Text.Split | calculations.py:34 | `split` gives at least one part, and no part contains the separator |
| Text.JoinSplit | calculations.py:34 | joining the parts of `split("-")` with `-` gives back the text |
| Text.SplitJoin | calculations.py:34 | `split` undoes a join of parts that do not contain the separator |
| Text.SplitTwo | calculations.py:34-35 | "a-b" with no hyphen in a or b splits into exactly the two parts [a, b] |
| Text.Tokens | calculations.py:55 | every token of `split()` is a non-empty word without whitespace |
| Text.TokensLayout | calculations.py:55 | every text is its `split()` tokens, in order, with only whitespace before, between and after them, and at least one whitespace character between two tokens: the tokens are the maximal whitespace-free runs |
| Text.TokensOfLayout | calculations.py:55 | words laid out with whitespace, at least one character between two words, split back into exactly those words, so the tokens of a text are determined |
| Text.TokensAvoid | calculations.py:54-55 | a character absent from the text is absent from every token |
| Text.TokensJoin | calculations.py:55 | `split()` of words joined by single spaces gives back those words |
| Text.Replace | calculations.py:54 | `replace` keeps the length of the text |
| Text.ReplaceAt | calculations.py:54 | `replace` changes exactly the positions holding the replaced character, each to the replacement, and keeps every other character |
| Text.ReplaceConcat | calculations.py:54 | `replace` works character by character: replacing in a concatenation is replacing in each part |
| Text.ReplaceAfterFree | calculations.py:54 | replacing in "x + from + y", where `from` does not occur in x, changes that separator and then works on y |
| Text.NotContainsForeign | app.py:174 | a text lacking one character of `t` does not contain `t` |
| Text.ContainsPrefix | app.py:174 | a text that starts with `t` contains `t` |
| Text.ParseInt | calculations.py:39 | `int()` of an ASCII digit string is its decimal value. The day texts `get_english_date` passes cannot hold `-`, its split separator, so `int()` gives no negative day |
| Text.PaddedNumberValue | calculations.py:105 | a number zero-padded to any width reads back as that number |
| Text.NatToStringValue | app.py:54 | the decimal text of a number reads back as that number |
| CivilDate.MakeDate | calculations.py:39 | `datetime.date(y, m, d)` succeeds exactly when the triple is a real Gregorian date in years 1..9999, and then gives that date |
| CivilDate.DaysInMonth | calculations.py:39 | a month has 28 to 31 days, and February has 29 exactly in Gregorian leap years (`IsLeap`: divisible by 4, except for centuries not divisible by 400) |
| CivilDate.LeapCycle | calculations.py:39 | the leap years and the month lengths repeat every 400 years |
| CivilDate.Next | calculations.py:163 | one day forward keeps a date valid and never moves to an earlier year; `Prev` and `PrevNext` show it is the step that `Prev` undoes |
| CivilDate.PlusDays | calculations.py:91 | `date + timedelta(days=n)` keeps a date valid and never moves to an earlier year |
| CivilDate.MinusDays | calculations.py:85 | `date - timedelta(days=n)` keeps a date valid; `PlusMinusDays` shows that adding n days undoes it |
| CivilDate.Prev | calculations.py:85 | every valid date has a valid predecessor, one day before it |
| CivilDate.PrevNext | calculations.py:85 | stepping one day forward and then back returns the same date |
| CivilDate.PlusMinusDays | calculations.py:85 | going back n days and forward n days returns the same date |
| CivilDate.FirstOfMonthMinus | calculations.py:85 | n days (n <= 28) before the 1st of a month is day DaysInMonth - n + 1 of the previous month, in December of the year before for January |
| CivilDate.Format | calculations.py:105 | the `DD-MM-YYYY` text has only digits and hyphens, and is 10 characters long up to year 9999 |
| CivilDate.FormatParses | calculations.py:105 | reading the `DD-MM-YYYY` text back gives the same date |
| CivilDate.FormatInjective | calculations.py:105 | two dates with the same text are the same date |
| EnglishDate.TableShape | calculations.py:22-26 | `KANNADA_MONTHS` has 17 keys, each non-empty Kannada text, each mapped to a month 1..12 |
| EnglishDate.MonthKeyIsWord | calculations.py:22-26 | no month key contains whitespace, `-` or `.` |
| EnglishDate.FindMonth | calculations.py:37 | the dictionary lookup finds the position of the key, or reports that no entry has that key |
| EnglishDate.MonthNumber | calculations.py:39 | the value of any key is a month 1..12 |
| EnglishDate.EnglishDateOf | calculations.py:31-41 | a date built is valid and lies in the requested year |
| EnglishDate.MonthDayDate | calculations.py:36-41 | a date built from the two stripped parts is valid and lies in the requested year |
| EnglishDate.GetEnglishDate | calculations.py:29-42 | the result is `None` exactly when no date is built, and otherwise a 10-character text that parses back to that date |
| EnglishDate.EnglishDateNeedsMonthPattern | calculations.py:31-37 | a result needs a string that splits on `-` into exactly two parts, the stripped first of which is a month key |
| EnglishDate.EnglishDateOfDigits | calculations.py:32-41 | for a month key before the hyphen and digits after it, the result is that day of that month when the day exists in the year, and `None` otherwise |
| EnglishDate.EnglishDateOfNonNumeric | calculations.py:38-41 | a day part that `int()` rejects gives `None`, not an error |
| EnglishDate.MonthDashDigits | calculations.py:29-42 | "key-digits" gives that day of that month when it exists, and `None` otherwise |
| EnglishDateExamples.FebruaryTwentyNinth | calculations.py:39 | "ಫೆಬ್ರವರಿ-29" gives 29-02 of the year exactly in leap years |
| EnglishDateExamples.NoLeapDayInCenturies | calculations.py:38-41 | "ಫೆಬ್ರವರಿ-29" gives `None` in century years not divisible by 400 |
| EnglishDateExamples.FormatLeapDay2024 | calculations.py:39 | 29 February 2024 is written "29-02-2024" |
| Sky.Elongation | calculations.py:101 | `(moon - sun) % 360` is `moon - sun` or `moon - sun + 360` |
| Sky.ElongationUnique | calculations.py:101 | the elongation is the only angle in [0, 360) that differs from `moon - sun` by whole turns |
| Sky.TithiOf | calculations.py:102 | the tithi is 1..30 |
| Sky.TithiSpan | calculations.py:102 | tithi r covers the elongations in [12(r-1), 12r) |
| Sky.SunSign | calculations.py:151 | the sign is 1..12 |
| Sky.SunSignSpan | calculations.py:151 | sign r covers the solar longitudes in [30(r-1), 30r) |
| Sky.NakshatraOf | calculations.py:158 | the nakshatra is 1..27 |
| Sky.NakshatraSpan | calculations.py:158 | nakshatra r covers the lunar longitudes in [(r-1)·360/27, r·360/27) |
| Sky.WaxingHalf | calculations.py:101-102 | the tithi is at most 15 exactly when the elongation is below 180 degrees |
| Vocabulary.LunarWindowMonth | calculations.py:81-82 | for lunar months 1..12 the civil month is `(month + 1) % 12 + 1` |
| Vocabulary.SolarWindowMonth | calculations.py:135-136 | for solar months 1..12 the civil month is `(month + 2) % 12 + 1` |
| Vocabulary.LunarWindowDomain | calculations.py:81-85 | `datetime.date(year, approx_month, 1)` accepts exactly the month values -1..22 |
| Vocabulary.TargetTithi | calculations.py:74-76 | for tithis 1..15 the target is 1..30, and above 15 exactly in the Krishna half |
| Vocabulary.TargetTithiInjective | calculations.py:74-76 | different (half, tithi) pairs never share a target |
| Search.Clean | calculations.py:54 | the cleaned text has the same length, every `-` and `.` becomes a space, and every other character is unchanged |
| Search.QueryWordsAreClean | calculations.py:54-55 | the words the token loops walk are non-empty, whitespace-free, and hold no `-` and no `.` |
| Search.LunarTruthyCheck | calculations.py:68-69 | there is no lunar query exactly when one of the three loop variables is `None` or false (`0` or `""`) |
| Search.SolarTruthyCheck | calculations.py:129-130 | there is no solar query exactly when one of the two loop variables is `None` or `0` |
| Search.LastFound | calculations.py:61-65 | a found value is a value of the table |
| Search.LastFoundNone | calculations.py:61-65 | a loop variable stays `None` exactly when no word is a key of its table |
| Search.LastFoundIsLast | calculations.py:61-65 | a found value is that of a key word with no key word after it, so a later word overwrites an earlier one |
| Search.LastFoundStep | calculations.py:63 | one more word overwrites the found value exactly when it is a key |
| Search.ParseLunar | calculations.py:54-69 | a parsed query has a month value from the table and truthy month, paksha and tithi |
| Search.ParseSolar | calculations.py:118-130 | a parsed query has a month value from the table and truthy month and star |
| Search.FindLunar | calculations.py:61-65 | the lunar token loop leaves each variable at the value of the last word that is a key of its table |
| Search.FindSolar | calculations.py:124-127 | the solar token loop leaves each variable at the value of the last word that is a key of its table |
| Search.LunarWindowStart | calculations.py:85 | the window opens on a valid date in the requested year or the year before |
| Search.LunarWindowOpens | calculations.py:85 | the window opens on day DaysInMonth - 14 of the month before the civil month, or on 17 December of the previous year for January |
| Search.LunarMonthElevenWindow | calculations.py:81-85 | lunar month 11 is searched from 17 December of the year before |
| Search.SolarWindowStart | calculations.py:138 | the solar window opens on the 1st of its civil month in the requested year |
| Search.FirstHit | calculations.py:90-105 | the day found matches, and no earlier day of the window matches; no day is found exactly when none matches |
| Search.FirstHitStep | calculations.py:90-105 | a day that does not match passes the search on to the next day |
| Search.ScanCases | calculations.py:90-107 | a scan returns its miss text exactly when no day matches, and otherwise the text of the earliest matching day |
| Search.FormatIsNoSentinel | calculations.py:105-107 | no date text equals a miss or error text |
| Search.SentinelsAreNotDates | calculations.py:107 | "Calc Failed", "Not Found", "Error: No de421.bsp" and "Error" start with neither a digit nor a hyphen, so none of them can be a date text |
| Search.ScanLunarDays | calculations.py:90-107 | the `for i in range(60)` loop returns the first day, start + i, whose tithi is the target, or "Calc Failed" |
| Search.GetLunarDate | calculations.py:46-107 | `get_lunar_date` returns what the specification `LunarDate` gives |
| Search.ScanSolarDays | calculations.py:143-165 | the 45-day loop returns the first day with the sun in the sign and the moon in the nakshatra, or "Calc Failed" |
| Search.GetSolarDate | calculations.py:111-165 | `get_solar_date` returns what the specification `SolarDate` gives |
| Search.ScanIndicesDays | calculations.py:209-220 | the 60-day loop returns the first day whose tithi is the target, or "Not Found" |
| Search.CalculateFromIndices | calculations.py:196-220 | `calculate_from_indices` returns what the specification `IndicesDate` gives |
| Search.GetFestivalDate | calculations.py:169-193 | `get_festival_date` returns what the specification `FestivalDate` gives |
| Search.TithiScanCases | calculations.py:209-220 | a tithi scan gives the earliest day of the window with the target tithi, and its miss text exactly when no day has it |
| Search.SignAndStarScanCases | calculations.py:143-165 | a sign-and-star scan gives the earliest day of the window with both, and its miss text exactly when no day has both |
| Search.LunarDateResult | calculations.py:46-107 | "Error: No de421.bsp" without ephemeris; `None` exactly when the words do not give truthy month, paksha and tithi; otherwise the earliest of the 60 days with the target tithi, and "Calc Failed" exactly when none has it |
| Search.SolarDateResult | calculations.py:111-165 | "Error: No de421.bsp" without ephemeris; `None` exactly when the words do not give truthy month and star; otherwise the earliest of the 45 days with the sun in the sign and the moon in the nakshatra, and "Calc Failed" exactly when no day has both |
| Search.IndicesDateResult | calculations.py:196-220 | "Error" without ephemeris; otherwise the earliest of the 60 days with the target tithi, and "Not Found" exactly when none has it |
| Search.LunarAgreesWithIndices | calculations.py:196-220 | once the words are read, `get_lunar_date` gives what `calculate_from_indices` gives for the same month, paksha and tithi, with its own sentinels in place of "Error" and "Not Found" |
| Search.FestivalDateResult | calculations.py:173-193 | a result comes exactly for the stripped name of a "lunar" rule, and it is `calculate_from_indices` of that rule; other names and rule types give `None` |
| Rows.MonthFrom | app.py:138-142 | a month position found is a key that occurs in the text |
| Rows.MonthFromSkips | app.py:138-142 | every key before the one the month loop stops at is absent from the text |
| Rows.MonthFromNone | app.py:138-142 | when the loop finds nothing, no key occurs in the text |
| Rows.MonthFromFirst | app.py:138-142 | the loop stops at the first key, in dictionary order, that occurs in the text |
| Rows.MonthIn | app.py:138-142 | the month found occurs in the text |
| Rows.MonthInIsKey | app.py:140 | the remembered month is always a `KANNADA_MONTHS` key |
| Rows.Originals | app.py:134 | one stripped date cell per row, in row order |
| Rows.SeenThrough | app.py:126-142 | no month is remembered exactly when no earlier text names one |
| Rows.SeenThroughLast | app.py:126-150 | the remembered month is the one found in the last text that names a month, and later texts name none: nothing resets the memory |
| Rows.SeenThroughStep | app.py:138-142 | a row that names a month replaces the remembered one, and any other row keeps it |
| Rows.ProcessedText | app.py:144-146 | a text naming a month, or read before any month is remembered, is kept; otherwise the result is the text or "month-text" |
| Rows.ProcessedTextChanges | app.py:144-150 | the text changes exactly when it names no month, is all digits and a month is remembered, and then becomes "month-digits" |
| Rows.DigitsNameNoMonth | app.py:138-145 | an all-digit text names no month |
| Rows.BareNumberAfterMonth | app.py:144-159 | a bare number after a month row becomes "month-number", and the English strategy reads it as that day of the month when the day exists |
| Rows.Accepts | app.py:158-206 | an accepted result is a non-empty text |
| Rows.PickFirstAccepted | app.py:156-209 | the Type and Calculated Date are those of the first strategy, in chain order, whose result is accepted; "Manual Check" / "Unknown Format" exactly when none is |
| Rows.PickStopsAt | app.py:156-209 | the chain never passes an accepting strategy |
| Rows.PickPastLunar | app.py:173-181 | a Type after "Lunar Tithi" means the lunar result was turned down |
| Rows.PickUnfolds | app.py:156-209 | each step of the chain is its test: truthy, with no "Not Found" for the lunar result and no "Check" for the solar and solar+tithi results |
| Rows.Calculate | app.py:152-209 | the nested strategy chain computes the specification `Classify` |
| Rows.FillDown | app.py:136-150 | the month loop remembers the first key in the text, or keeps the old memory, and the final text is the processed text |
| Rows.ProcessRows | app.py:125-218 | the row loop builds `Records`: one record per row, in order, each from its row and the month remembered from the rows before it |
| Rows.RecordsShape | app.py:212-218 | record i has row i's name, its stripped cell as Original Input, and the fill-down of that cell as Processed Input |
| Rows.RecordsPrefix | app.py:130-218 | the records of the first n rows do not depend on later rows |
| Rows.CalcFailedAccepted | app.py:174 | "Calc Failed" passes the lunar acceptance test |
| Rows.NoEphemerisAccepted | app.py:174 | "Error: No de421.bsp" passes the lunar acceptance test |
| Rows.NotFoundRejected | app.py:174 | "Not Found" fails the lunar acceptance test |
| Rows.NoEphemerisRow | app.py:156-175 | without the ephemeris, a row that neither the English nor the festival strategy takes is recorded as "Error: No de421.bsp" with Type "Lunar Tithi" |
| Rows.CalcFailedShown | app.py:156-175 | a lunar search that finds no day is recorded as "Calc Failed" with Type "Lunar Tithi", unless an earlier strategy took the row |
| Rows.ScanAccepted | app.py:174 | a scan whose miss text passes the lunar test gives a text that passes it |
| Rows.LunarQueryAccepted | app.py:173-175 | without ephemeris, or when the words form a lunar query, the lunar strategy's result is always accepted |
| Rows.SolarStarNeedsNoLunarQuery | app.py:173-183 | the Type "Solar Star" only occurs when the ephemeris is loaded and the text is not a lunar query |
| Entries.FixedWordsAreTokens | app.py:44 | "ಮಾಸ" and "ನಕ್ಷತ್ರ" are single tokens without `-` or `.` |
| Entries.CleanLunarEntry | app.py:38 | cleaning "Month.Paksha.Tithi" gives the three words joined by spaces |
| Entries.LastFoundFirst | calculations.py:61-65 | a first word that is the only key of a table is what the loop finds |
| Entries.LunarEntryParses | app.py:33-38 | the lunar entry reads back as the values of its three drop-down keys, for single-token keys that are absent from the other tables and have truthy values |
| Entries.SolarEntryWords | app.py:44 | the solar entry is its four words joined by spaces |
| Entries.SolarEntryQueryWords | app.py:44 | the solar parser sees exactly those four words |
| Entries.SolarEntryParses | app.py:40-44 | the solar entry reads back as the values of its month and star keys, for single-token keys that are absent from the other table and have truthy values, when "ಮಾಸ" and "ನಕ್ಷತ್ರ" are not keys |
| Entries.EnglishEntryRoundTrip | app.py:51-54 | "Month-Day" reads back as that day of that month when it exists in the year, and `None` otherwise (the form offers 31 days for every month) |
| Entries.SolarDayEntryIsNoCivilDate | app.py:56-59 | a solar-day entry whose solar month key holds no `-` is never taken by the English strategy |

## Left out

- The Streamlit user interface, the Excel and CSV input and output, the
  progress bar and the backup copy (app.py lines 1-31, 62-124, 219-239).
  `ProcessRows` takes the rows as a sequence and returns the records.
- The `str()` of a missing or NaN cell: a row is a name and the text of its
  cell, and `row.get`'s defaults are left out.
- Skyfield: the ephemeris is a parameter that gives the sun's and the
  moon's longitudes for each day. The observer location, the time scale
  and the apparent-position computation are not modelled.
- Floating point: longitudes are exact reals in [0, 360). A float rounding
  such as `-1e-20 % 360 == 360.0` is not modelled.
- The contents of the `mappings` tables: they are parameters. The operations
  constrain them only by `Vocabulary.Fits`. The `Entries` round-trip lemmas
  add the hypotheses listed below.
- `get_solar_month_tithi_date`, `get_lunar_month_star_date` and
  `get_solar_day_date` are not part of this model. They are function
  parameters of `Rows.Env`, and the chain tests their results as app.py does.
- Python's `import` inside the chain: the chain evaluates all seven strategies
  as pure values (`Rows.Attempts`). The method `Rows.Calculate` calls them
  lazily, in the source's order.
- `int()` accepts ASCII digits with an optional leading `+` only. Underscores,
  a leading `-`, surrounding whitespace and non-ASCII digits are not modelled.
- `strftime("%Y")` for years below 1000: the padding depends on the platform
  in the source, and the model pads to four digits. The form offers only
  2024..2030.
- The years 1 and 9999 are left out of the searches and of the row loop.
  Those members require `1 < year < 9999`, as do the specification functions
  `LunarDate`, `SolarDate`, `IndicesDate`, `FestivalDate`, `Attempts`,
  `Classify`, `RecordOf` and `Records`. The lunar window opens 15 days before
  the 1st of its month, and the scans run 45 or 60 days. So in year 1 a window
  can open before 1 January 1, and in year 9999 a scan can run past
  31 December 9999. There `datetime` raises an `OverflowError` that the
  source does not catch. Without an ephemeris the source returns its error
  text in every year, but the model does not state that for these two years
  either. The members with this precondition are listed below.
- Search.GetLunarDate, Search.LunarDateResult: require 1 < year < 9999 (see above).
- Search.GetSolarDate, Search.SolarDateResult: require 1 < year < 9999 (see above).
- Search.CalculateFromIndices, Search.IndicesDateResult: require 1 < year < 9999 (see above).
- Search.GetFestivalDate, Search.FestivalDateResult: require 1 < year < 9999 (see above).
- Search.LunarAgreesWithIndices: requires 1 < year < 9999 (see above).
- Rows.Calculate, Rows.ProcessRows, Rows.RecordsShape, Rows.RecordsPrefix: require 1 < year < 9999 (see above).
- Rows.NoEphemerisRow, Rows.CalcFailedShown, Rows.LunarQueryAccepted, Rows.SolarStarNeedsNoLunarQuery: require 1 < year < 9999 (see above).
- Rows.ProcessedText: `str.isdigit()` at app.py:145 is modelled as ASCII
  digits only (`Text.IsDigits`). Python also accepts other Unicode decimal
  digits, such as the Kannada digits "೧೫". The source would fill down "೧೫"
  after a month row to "month-೧೫", and `int()` would read it as 15. In the
  model "೧೫" stays unchanged and the English strategy gives `None`.
  `Rows.FillDown`, `Rows.ProcessedTextChanges` and `Rows.BareNumberAfterMonth`
  share this restriction.
- The festival rules of type "solar" return `None`, as the source's `pass`
  does.
- Entries.LunarEntryParses, Entries.SolarEntryParses: these assume that the
  drop-down keys are single tokens and that each table's keys are absent
  from the other tables. They also assume that the chosen keys' values are
  truthy: a non-zero month, tithi or nakshatra and a non-empty paksha. With a
  falsy value the source's truthiness test reports no query. The real tables
  are not part of this model, so these facts are hypotheses.
- Entries.SolarEntryParses: this also assumes that the fixed words "ಮಾಸ" and
  "ನಕ್ಷತ್ರ" of the entry are keys of neither `SOLAR_MONTHS` nor `NAKSHATRAS`.
  If one were, the token loop could pick it up in place of the chosen key.
- Entries.SolarDayEntryIsNoCivilDate: this assumes that the solar month key
  holds no `-`. The `SOLAR_MONTHS` keys are a parameter of this model, and a
  key with a hyphen could make "key ಮಾಸ day" match the "month-day" pattern.
- The duplicate key "ಜುಲೈ" of `KANNADA_MONTHS`: as in a Python dict, it is
  one entry at its first position.
