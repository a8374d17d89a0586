/**
 * Proleptic Gregorian dates as Python's `datetime.date` knows them: the
 * leap-year rule, month lengths, stepping by one day (`+ timedelta(days=1)`
 * and `- timedelta(days=1)`) and the `strftime("%d-%m-%Y")` text the
 * scheduler returns.
 */
module CivilDate {

  import opened Wrappers
  import opened Text

  datatype Date = Date(year: int, month: int, day: int)

  /** `datetime.MINYEAR` and `datetime.MAXYEAR`. */
  const MinYear: int := 1
  const MaxYear: int := 9999

  predicate IsLeap(y: int) {
    y % 4 == 0 && (y % 100 != 0 || y % 400 == 0)
  }

  /** The length of month `m` of year `y` in the proleptic Gregorian calendar. */
  function DaysInMonth(y: int, m: int): (n: int)
    ensures 28 <= n <= 31
    ensures m == 2 ==> (n == 29 <==> IsLeap(y))
  {
    if m == 2 then (if IsLeap(y) then 29 else 28)
    else if m == 4 || m == 6 || m == 9 || m == 11 then 30
    else 31
  }

  /** The Gregorian calendar repeats every 400 years. */
  lemma LeapCycle(y: int, m: int)
    ensures IsLeap(y + 400) == IsLeap(y)
    ensures DaysInMonth(y + 400, m) == DaysInMonth(y, m)
  {
    ShiftRemainder4(y);
    ShiftRemainder100(y);
    ShiftRemainder400(y);
  }

  // Adding 400 years keeps each remainder the leap rule looks at.
  lemma ShiftRemainder4(y: int) ensures (y + 400) % 4 == y % 4 {}
  lemma ShiftRemainder100(y: int) ensures (y + 400) % 100 == y % 100 {}
  lemma ShiftRemainder400(y: int) ensures (y + 400) % 400 == y % 400 {}

  /** A real calendar day: month in 1..12 and day within that month of that year. */
  predicate ValidDate(d: Date) {
    1 <= d.month <= 12 && 1 <= d.day <= DaysInMonth(d.year, d.month)
  }

  /** `datetime.date(y, m, d)`: `None` stands for the `ValueError` it raises. */
  function MakeDate(y: int, m: int, d: int): (r: Option<Date>)
    ensures r.Some? ==> ValidDate(r.value) && MinYear <= r.value.year <= MaxYear
    ensures r.Some? ==> r.value == Date(y, m, d)
    ensures MinYear <= y <= MaxYear && ValidDate(Date(y, m, d)) ==> r.Some?
  {
    if MinYear <= y <= MaxYear && ValidDate(Date(y, m, d)) then Some(Date(y, m, d)) else None
  }

  /** `date + timedelta(days=1)`. */
  function Next(d: Date): (r: Date)
    ensures ValidDate(d) ==> ValidDate(r)
    ensures r.year >= d.year
  {
    if d.day < DaysInMonth(d.year, d.month) then Date(d.year, d.month, d.day + 1)
    else if d.month < 12 then Date(d.year, d.month + 1, 1)
    else Date(d.year + 1, 1, 1)
  }

  /** `date - timedelta(days=1)`; stepping forward again returns to the same day. */
  function Prev(d: Date): (r: Date)
    ensures ValidDate(d) ==> ValidDate(r) && Next(r) == d
  {
    if d.day > 1 then Date(d.year, d.month, d.day - 1)
    else if d.month > 1 then Date(d.year, d.month - 1, DaysInMonth(d.year, d.month - 1))
    else Date(d.year - 1, 12, 31)
  }

  lemma PrevNext(d: Date)
    requires ValidDate(d)
    ensures Prev(Next(d)) == d
  {
  }

  /** `date + timedelta(days=n)`. */
  function PlusDays(d: Date, n: nat): (r: Date)
    ensures ValidDate(d) ==> ValidDate(r)
    ensures r.year >= d.year
  {
    if n == 0 then d else Next(PlusDays(d, n - 1))
  }

  /** `date - timedelta(days=n)`. */
  function MinusDays(d: Date, n: nat): (r: Date)
    ensures ValidDate(d) ==> ValidDate(r)
    decreases n
  {
    if n == 0 then d else MinusDays(Prev(d), n - 1)
  }

  /** Going back `n` days and forward `n` days lands on the day started from. */
  lemma {:induction false} PlusMinusDays(d: Date, n: nat)
    requires ValidDate(d)
    ensures PlusDays(MinusDays(d, n), n) == d
    decreases n
  {
    if n > 0 {
      PlusMinusDays(Prev(d), n - 1);
    }
  }

  /** Going back fewer days than the day of the month stays in that month. */
  lemma {:induction false} MinusDaysWithinMonth(d: Date, n: nat)
    requires ValidDate(d) && n < d.day
    ensures MinusDays(d, n) == Date(d.year, d.month, d.day - n)
    decreases n
  {
    if n > 0 {
      MinusDaysWithinMonth(Prev(d), n - 1);
    }
  }

  /**
   * The 1st of a month minus `n` days (`n` at most 28) is day `L + 1 - n` of
   * the previous month, `L` being that month's length; from January it is
   * December of the previous year.
   */
  lemma FirstOfMonthMinus(y: int, m: int, n: nat)
    requires 1 <= m <= 12 && 1 <= n <= 28
    ensures MinusDays(Date(y, m, 1), n) ==
            if m == 1 then Date(y - 1, 12, 32 - n)
            else Date(y, m - 1, DaysInMonth(y, m - 1) + 1 - n)
  {
    var p := Prev(Date(y, m, 1));
    MinusDaysWithinMonth(p, n - 1);
  }

  // ---------------------------------------------------------------- strftime("%d-%m-%Y")

  /** `date.strftime("%d-%m-%Y")`: day and month padded to two digits, the year to four. */
  function Format(d: Date): (s: string)
    requires ValidDate(d) && d.year >= 0
    ensures forall i :: 0 <= i < |s| ==> IsDigit(s[i]) || s[i] == '-'
    ensures d.year <= MaxYear ==> |s| == 10
  {
    var dd := ZeroPad(NatToString(d.day), 2);
    var mm := ZeroPad(NatToString(d.month), 2);
    var yyyy := ZeroPad(NatToString(d.year), 4);
    FormatShape(d, dd, mm, yyyy);
    dd + "-" + mm + "-" + yyyy
  }

  lemma FormatShape(d: Date, dd: string, mm: string, yyyy: string)
    requires ValidDate(d) && d.year >= 0
    requires dd == ZeroPad(NatToString(d.day), 2)
    requires mm == ZeroPad(NatToString(d.month), 2)
    requires yyyy == ZeroPad(NatToString(d.year), 4)
    ensures forall i :: 0 <= i < |dd + "-" + mm + "-" + yyyy| ==>
              IsDigit((dd + "-" + mm + "-" + yyyy)[i]) || (dd + "-" + mm + "-" + yyyy)[i] == '-'
    ensures d.year <= MaxYear ==> |dd + "-" + mm + "-" + yyyy| == 10
  {
    PaddedNumberValue(d.day, 2);
    PaddedNumberValue(d.month, 2);
    PaddedNumberValue(d.year, 4);
    DashedDigits(dd, mm, yyyy);
    assert |dd| == 2 by { ShortNumber(d.day, 2); }
    assert |mm| == 2 by { ShortNumber(d.month, 2); }
    if d.year <= MaxYear {
      assert |yyyy| == 4 by { ShortNumber(d.year, 4); }
    }
  }

  lemma DashedDigits(a: string, b: string, c: string)
    requires IsDigits(a) && IsDigits(b) && IsDigits(c)
    ensures forall i :: 0 <= i < |a + "-" + b + "-" + c| ==>
              IsDigit((a + "-" + b + "-" + c)[i]) || (a + "-" + b + "-" + c)[i] == '-'
  {
    var s := a + "-" + b + "-" + c;
    forall i | 0 <= i < |s|
      ensures IsDigit(s[i]) || s[i] == '-'
    {
      if i < |a| {
        assert s[i] == a[i];
      } else if i < |a| + 1 + |b| && i > |a| {
        assert s[i] == b[i - |a| - 1];
      } else if i > |a| + 1 + |b| {
        assert s[i] == c[i - |a| - 2 - |b|];
      }
    }
  }

  function Pow10(k: nat): nat {
    if k == 0 then 1 else 10 * Pow10(k - 1)
  }

  /** A number below `10^k` prints in at most `k` digits. */
  lemma {:induction false} ShortNumber(n: nat, k: nat)
    requires k >= 1 && n < Pow10(k)
    ensures |NatToString(n)| <= k
  {
    if n >= 10 {
      assert k >= 2;
      assert n / 10 < Pow10(k - 1);
      ShortNumber(n / 10, k - 1);
    }
  }

  /** Reads `DD-MM-YYYY` text back into a date: the inverse of `Format`. */
  function ParseFormatted(s: string): Option<Date> {
    var parts := Split(s, '-');
    if |parts| == 3 && IsDigits(parts[0]) && IsDigits(parts[1]) && IsDigits(parts[2])
    then Some(Date(DigitsValue(parts[2]), DigitsValue(parts[1]), DigitsValue(parts[0])))
    else None
  }

  /** The formatted text determines the date: reading it back gives the date. */
  lemma FormatParses(d: Date)
    requires ValidDate(d) && d.year >= 0
    ensures ParseFormatted(Format(d)) == Some(d)
  {
    var dd := ZeroPad(NatToString(d.day), 2);
    var mm := ZeroPad(NatToString(d.month), 2);
    var yyyy := ZeroPad(NatToString(d.year), 4);
    PaddedNumberValue(d.day, 2);
    PaddedNumberValue(d.month, 2);
    PaddedNumberValue(d.year, 4);
    DigitsHaveNoDash(dd);
    DigitsHaveNoDash(mm);
    DigitsHaveNoDash(yyyy);
    SplitThree(dd, mm, yyyy, '-');
    assert Format(d) == dd + ['-'] + mm + ['-'] + yyyy;
  }

  lemma DigitsHaveNoDash(s: string)
    requires IsDigits(s)
    ensures '-' !in s
  {
  }

  lemma FormatInjective(d1: Date, d2: Date)
    requires ValidDate(d1) && d1.year >= 0 && ValidDate(d2) && d2.year >= 0
    requires Format(d1) == Format(d2)
    ensures d1 == d2
  {
    FormatParses(d1);
    FormatParses(d2);
  }
}
