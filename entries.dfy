/**
 * The entry strings the "Add New Seva" form of app.py builds from its
 * drop-downs, and how the date strategies read them back.
 */
module Entries {

  import opened Wrappers
  import opened Text
  import opened CivilDate
  import opened Vocabulary
  import opened Search
  import opened EnglishDate

  /** The fixed words of the solar entries: "month" and "star". */
  const Masa: string := "ಮಾಸ"
  const Nakshatra: string := "ನಕ್ಷತ್ರ"

  /** A vocabulary word the parsers can see: one token, untouched by the separator clean-up. */
  predicate IsToken(w: string) {
    IsWord(w) && '-' !in w && '.' !in w
  }

  /** "Month.Paksha.Tithi", from the lunar month, paksha and tithi drop-downs. */
  function LunarEntry(month: string, paksha: string, tithi: string): string {
    month + "." + paksha + "." + tithi
  }

  /** "Month ಮಾಸ Star ನಕ್ಷತ್ರ", from the solar month and nakshatra drop-downs. */
  function SolarEntry(month: string, star: string): string {
    month + " " + Masa + " " + star + " " + Nakshatra
  }

  /** "Month-Day", from the Kannada month drop-down and a day in 1..31. */
  function EnglishEntry(month: string, day: nat): string {
    month + "-" + NatToString(day)
  }

  /** "Month ಮಾಸ Day", from the solar month drop-down and a day number in 1..32. */
  function SolarDayEntry(month: string, day: nat): string {
    month + " " + Masa + " " + NatToString(day)
  }

  lemma FixedWordsAreTokens()
    ensures IsToken(Masa) && IsToken(Nakshatra)
  {
    assert forall i :: 0 <= i < |Masa| ==> '\U{0C80}' <= Masa[i] <= '\U{0CFF}';
    assert forall i :: 0 <= i < |Nakshatra| ==> '\U{0C80}' <= Nakshatra[i] <= '\U{0CFF}';
  }

  /** The clean-up turns the dots of a lunar entry into spaces and leaves the words alone. */
  lemma CleanLunarEntry(a: string, b: string, c: string)
    requires IsToken(a) && IsToken(b) && IsToken(c)
    ensures Clean(LunarEntry(a, b, c)) == Join([a, b, c], ' ')
  {
    var s := LunarEntry(a, b, c);
    assert Join([a, b, c], ' ') == a + [' '] + (b + [' '] + c) by {
      assert [a, b, c][1..] == [b, c];
      assert [b, c][1..] == [c];
      assert Join([b, c], ' ') == b + [' '] + c;
    }
    assert '-' !in s;
    ReplaceAbsent(s, '-', ' ');
    assert s == a + ['.'] + (b + ['.'] + c);
    ReplaceAfterFree(a, b + ['.'] + c, '.', ' ');
    ReplaceAfterFree(b, c, '.', ' ');
    ReplaceAbsent(c, '.', ' ');
  }

  /** A word that is a key of `m` at the front only: the last key found is that one. */
  lemma LastFoundFirst<V>(ws: seq<string>, m: map<string, V>)
    requires |ws| > 0 && ws[0] in m
    requires forall i :: 0 < i < |ws| ==> ws[i] !in m
    ensures LastFound(ws, m) == Some(m[ws[0]])
  {
    if |ws| > 1 {
      LastFoundFirst(ws[..|ws| - 1], m);
    }
  }

  /**
   * The lunar entry is read back by `get_lunar_date`'s parser as the
   * values of its three drop-down keys, when each key is a single token,
   * each belongs to its own map only, and the values are truthy.
   */
  lemma LunarEntryParses(t: Tables, month: string, paksha: string, tithi: string)
    requires IsToken(month) && IsToken(paksha) && IsToken(tithi)
    requires month in t.lunarMonths && paksha in t.paksha && tithi in t.tithis
    requires paksha !in t.lunarMonths && tithi !in t.lunarMonths
    requires month !in t.paksha && tithi !in t.paksha
    requires month !in t.tithis && paksha !in t.tithis
    requires t.lunarMonths[month] != 0 && t.paksha[paksha] != "" && t.tithis[tithi] != 0
    ensures ParseLunar(t, LunarEntry(month, paksha, tithi)) ==
              Some(LunarQuery(t.lunarMonths[month], t.paksha[paksha], t.tithis[tithi]))
  {
    var ws := [month, paksha, tithi];
    CleanLunarEntry(month, paksha, tithi);
    TokensJoin(ws);
    assert QueryWords(LunarEntry(month, paksha, tithi)) == ws;
    LastFoundFirst(ws, t.lunarMonths);
    assert LastFound(ws, t.paksha) == Some(t.paksha[paksha]) by {
      assert ws[..2][..1] == [month];
      LastFoundStep(ws, 1, t.paksha);
      assert ws[..3] == ws;
    }
    LastFoundStep(ws, 2, t.tithis);
    assert ws[..3] == ws;
  }

  /** The solar entry is the space-joined sequence of its four words. */
  lemma SolarEntryWords(month: string, star: string)
    ensures SolarEntry(month, star) == Join([month, Masa, star, Nakshatra], ' ')
  {
    var ws := [month, Masa, star, Nakshatra];
    assert ws[1..] == [Masa, star, Nakshatra];
    assert ws[1..][1..] == [star, Nakshatra];
    assert ws[1..][1..][1..] == [Nakshatra];
    assert Join([star, Nakshatra], ' ') == star + [' '] + Nakshatra;
    assert Join([Masa, star, Nakshatra], ' ') == Masa + [' '] + (star + [' '] + Nakshatra);
  }

  /** The words the solar parser sees in a solar entry are its four words. */
  lemma SolarEntryQueryWords(month: string, star: string)
    requires IsToken(month) && IsToken(star)
    ensures QueryWords(SolarEntry(month, star)) == [month, Masa, star, Nakshatra]
  {
    var ws := [month, Masa, star, Nakshatra];
    var s := SolarEntry(month, star);
    FixedWordsAreTokens();
    SolarEntryWords(month, star);
    assert '-' !in s && '.' !in s;
    ReplaceAbsent(s, '-', ' ');
    ReplaceAbsent(s, '.', ' ');
    TokensJoin(ws);
  }

  /**
   * The solar entry is read back by `get_solar_date`'s parser as the values
   * of its two drop-down keys, when both are single tokens, each belongs to
   * its own map only, neither map has the fixed words as keys, and the
   * values are truthy.
   */
  lemma SolarEntryParses(t: Tables, month: string, star: string)
    requires IsToken(month) && IsToken(star)
    requires month in t.solarMonths && star in t.nakshatras
    requires star !in t.solarMonths && month !in t.nakshatras
    requires Masa !in t.solarMonths && Nakshatra !in t.solarMonths
    requires Masa !in t.nakshatras && Nakshatra !in t.nakshatras
    requires t.solarMonths[month] != 0 && t.nakshatras[star] != 0
    ensures ParseSolar(t, SolarEntry(month, star)) ==
              Some(SolarQuery(t.solarMonths[month], t.nakshatras[star]))
  {
    var ws := [month, Masa, star, Nakshatra];
    SolarEntryQueryWords(month, star);
    LastFoundFirst(ws, t.solarMonths);
    LastFoundStep(ws, 3, t.nakshatras);
    LastFoundStep(ws, 2, t.nakshatras);
    assert ws[..4] == ws;
  }

  /**
   * The English entry round-trips: `get_english_date` reads it back as the
   * chosen day of the chosen month of the year, and as `None` when that
   * day does not exist in that month (the form offers 31 days for every
   * month).
   */
  lemma EnglishEntryRoundTrip(month: string, day: nat, year: int)
    requires IsMonthKey(month)
    ensures var m := MonthNumber(month).value;
            GetEnglishDate(Str(EnglishEntry(month, day)), year) ==
              if MinYear <= year <= MaxYear && 1 <= day <= DaysInMonth(year, m)
              then Some(Format(Date(year, m, day)))
              else None
  {
    NatToStringValue(day);
    MonthDashDigits(month, NatToString(day), year);
  }

  /** A solar-day entry has no hyphen, so the civil-date pattern never takes it. */
  lemma SolarDayEntryIsNoCivilDate(month: string, day: nat, year: int)
    requires '-' !in month
    ensures GetEnglishDate(Str(SolarDayEntry(month, day)), year).None?
  {
    var s := SolarDayEntry(month, day);
    FixedWordsAreTokens();
    assert '-' !in s;
    StripAbsent(s, '-');
  }
}
