/**
 * Calendar dates as the planner uses them: Python's `datetime.date`, its
 * ISO-8601 `full-date` text form (`YYYY-MM-DD`, as written by `isoformat`
 * and read by `fromisoformat`), its ordinal day number (which `date - date`
 * subtracts), and `date + timedelta(days = n)`.
 */
module Dates {
  import opened Wrappers

  datatype Date = Date(year: int, month: int, day: int)

  /** Python's `datetime.MINYEAR` and `datetime.MAXYEAR`. */
  const MinYear: int := 1
  const MaxYear: int := 9999

  predicate IsLeapYear(y: int) {
    y % 4 == 0 && (y % 100 != 0 || y % 400 == 0)
  }

  function DaysInMonth(y: int, m: int): (n: int)
    requires 1 <= m <= 12
    ensures 28 <= n <= 31
    ensures n == 29 <==> m == 2 && IsLeapYear(y)
  {
    if m == 2 then (if IsLeapYear(y) then 29 else 28)
    else if m == 4 || m == 6 || m == 9 || m == 11 then 30
    else 31
  }

  /** The (year, month, day) triples that `datetime.date` accepts. */
  predicate IsValid(d: Date) {
    MinYear <= d.year <= MaxYear && 1 <= d.month <= 12 && 1 <= d.day <= DaysInMonth(d.year, d.month)
  }

  type CalendarDate = d: Date | IsValid(d) witness Date(1, 1, 1)

  const LastDate: CalendarDate := Date(MaxYear, 12, 31)

  /** Python's `<` on dates: lexicographic on (year, month, day). */
  predicate Before(a: Date, b: Date) {
    a.year < b.year || (a.year == b.year && (a.month < b.month || (a.month == b.month && a.day < b.day)))
  }

  /** Python's `<=` on dates. */
  predicate NotAfter(a: Date, b: Date) {
    a == b || Before(a, b)
  }

  // ---------------------------------------------------------------------
  // Ordinal day numbers (`date.toordinal`, 0001-01-01 is day 1)
  // ---------------------------------------------------------------------

  function DaysInYear(y: int): int {
    if IsLeapYear(y) then 366 else 365
  }

  /** Days in the years before `y`, in CPython's closed form. */
  function DaysBeforeYear(y: int): int
    requires y >= 1
  {
    var p := y - 1;
    p * 365 + p / 4 - p / 100 + p / 400
  }

  /** Days in the months of year `y` before month `m`. */
  function DaysBeforeMonth(y: int, m: int): int
    requires 1 <= m <= 12
  {
    var common :=
      if m == 1 then 0 else if m == 2 then 31 else if m == 3 then 59
      else if m == 4 then 90 else if m == 5 then 120 else if m == 6 then 151
      else if m == 7 then 181 else if m == 8 then 212 else if m == 9 then 243
      else if m == 10 then 273 else if m == 11 then 304 else 334;
    common + (if m > 2 && IsLeapYear(y) then 1 else 0)
  }

  function DayNumber(d: CalendarDate): int {
    DaysBeforeYear(d.year) + DaysBeforeMonth(d.year, d.month) + d.day
  }

  lemma Div10(n: int, q: int, r: int)
    requires n == 10 * q + r && 0 <= r < 10
    ensures n / 10 == q && n % 10 == r
  {
  }

  lemma Div1000(n: int, q: int, r: int)
    requires n == 1000 * q + r && 0 <= r < 1000
    ensures n / 1000 == q && n % 1000 == r
  {
  }

  lemma Div4(n: int, q: int, r: int)
    requires n == 4 * q + r && 0 <= r < 4
    ensures n / 4 == q && n % 4 == r
  {
  }

  lemma Div100(n: int, q: int, r: int)
    requires n == 100 * q + r && 0 <= r < 100
    ensures n / 100 == q && n % 100 == r
  {
  }

  lemma Div400(n: int, q: int, r: int)
    requires n == 400 * q + r && 0 <= r < 400
    ensures n / 400 == q && n % 400 == r
  {
  }

  lemma NextQuotient4(y: int)
    requires y >= 1
    ensures y / 4 == (if y % 4 == 0 then (y - 1) / 4 + 1 else (y - 1) / 4)
  {
    var (q, r) := ((y - 1) / 4, (y - 1) % 4);
    if r == 3 { Div4(y, q + 1, 0); } else { Div4(y, q, r + 1); }
  }

  lemma NextQuotient100(y: int)
    requires y >= 1
    ensures y / 100 == (if y % 100 == 0 then (y - 1) / 100 + 1 else (y - 1) / 100)
    ensures y % 100 == 0 ==> y % 4 == 0
  {
    var (q, r) := ((y - 1) / 100, (y - 1) % 100);
    if r == 99 {
      Div100(y, q + 1, 0);
      Div4(y, 25 * (q + 1), 0);
    } else {
      Div100(y, q, r + 1);
    }
  }

  lemma NextQuotient400(y: int)
    requires y >= 1
    ensures y / 400 == (if y % 400 == 0 then (y - 1) / 400 + 1 else (y - 1) / 400)
    ensures y % 400 == 0 ==> y % 100 == 0
  {
    var (q, r) := ((y - 1) / 400, (y - 1) % 400);
    if r == 399 {
      Div400(y, q + 1, 0);
      Div100(y, 4 * (q + 1), 0);
    } else {
      Div400(y, q, r + 1);
    }
  }

  lemma DaysBeforeYearStep(y: int)
    requires y >= 1
    ensures DaysBeforeYear(y + 1) == DaysBeforeYear(y) + DaysInYear(y)
  {
    NextQuotient4(y);
    NextQuotient100(y);
    NextQuotient400(y);
    var (a, b) := (DaysBeforeYear(y + 1), DaysBeforeYear(y));
    assert a == y * 365 + y / 4 - y / 100 + y / 400;
    assert b == (y - 1) * 365 + (y - 1) / 4 - (y - 1) / 100 + (y - 1) / 400;
  }

  lemma {:induction false} DaysBeforeYearGrows(a: int, b: int)
    requires 1 <= a < b
    ensures DaysBeforeYear(a) + DaysInYear(a) <= DaysBeforeYear(b)
    decreases b - a
  {
    DaysBeforeYearStep(a);
    if a + 1 < b {
      DaysBeforeYearGrows(a + 1, b);
    }
  }

  /** A date's day number lies inside its own year's range of numbers. */
  lemma DayNumberInYear(d: CalendarDate)
    ensures DaysBeforeYear(d.year) < DayNumber(d) <= DaysBeforeYear(d.year) + DaysInYear(d.year)
  {
  }

  /** Python's date order is the order of the day numbers. */
  lemma DayNumberOrder(a: CalendarDate, b: CalendarDate)
    ensures Before(a, b) <==> DayNumber(a) < DayNumber(b)
    ensures a == b <==> DayNumber(a) == DayNumber(b)
  {
    if a.year < b.year {
      DayNumberInYear(a);
      DayNumberInYear(b);
      DaysBeforeYearGrows(a.year, b.year);
    } else if b.year < a.year {
      DayNumberInYear(a);
      DayNumberInYear(b);
      DaysBeforeYearGrows(b.year, a.year);
    }
  }

  // ---------------------------------------------------------------------
  // `date + timedelta(days = n)`
  // ---------------------------------------------------------------------

  /** The following day, or None past `LastDate` (Python's OverflowError). */
  function NextDay(d: CalendarDate): Option<CalendarDate> {
    if d.day < DaysInMonth(d.year, d.month) then Some(Date(d.year, d.month, d.day + 1))
    else if d.month < 12 then Some(Date(d.year, d.month + 1, 1))
    else if d.year < MaxYear then Some(Date(d.year + 1, 1, 1))
    else None
  }

  lemma NextDayNumber(d: CalendarDate)
    ensures NextDay(d).None? <==> d == LastDate
    ensures NextDay(d).Some? ==> DayNumber(NextDay(d).value) == DayNumber(d) + 1
  {
    if d.day == DaysInMonth(d.year, d.month) && d.month == 12 && d.year < MaxYear {
      DaysBeforeYearStep(d.year);
    }
  }

  /** `d + timedelta(days = n)`, None when the result is past `LastDate`. */
  function AddDays(d: CalendarDate, n: nat): Option<CalendarDate>
    decreases n
  {
    if n == 0 then Some(d)
    else match NextDay(d)
      case None => None
      case Some(e) => AddDays(e, n - 1)
  }

  /** Adding n days adds n to the day number, and fails exactly past the last date. */
  lemma {:induction false} AddDaysNumber(d: CalendarDate, n: nat)
    ensures AddDays(d, n).Some? <==> DayNumber(d) + n <= DayNumber(LastDate)
    ensures AddDays(d, n).Some? ==> DayNumber(AddDays(d, n).value) == DayNumber(d) + n
    decreases n
  {
    DayNumberOrder(d, LastDate);
    if n > 0 {
      NextDayNumber(d);
      if NextDay(d).Some? {
        AddDaysNumber(NextDay(d).value, n - 1);
      }
    }
  }

  // ---------------------------------------------------------------------
  // ISO-8601 text: `isoformat` and `fromisoformat`
  // ---------------------------------------------------------------------

  predicate IsDigit(c: char) {
    '0' <= c <= '9'
  }

  function Digit(n: int): (c: char)
    requires 0 <= n <= 9
    ensures IsDigit(c)
  {
    ('0' as int + n) as char
  }

  function DigitValue(c: char): (n: int)
    requires IsDigit(c)
    ensures 0 <= n <= 9
  {
    c as int - '0' as int
  }

  /** Zero-padded two-digit decimal, as `%02d` writes it. */
  function Pad2(n: int): string
    requires 0 <= n <= 99
  {
    [Digit(n / 10), Digit(n % 10)]
  }

  /** Zero-padded four-digit decimal, as `%04d` writes it. */
  function Pad4(n: int): string
    requires 0 <= n <= 9999
  {
    [Digit(n / 1000), Digit(n / 100 % 10), Digit(n / 10 % 10), Digit(n % 10)]
  }

  /** `date.isoformat()`: `YYYY-MM-DD`. */
  function Format(d: CalendarDate): string {
    Pad4(d.year) + "-" + Pad2(d.month) + "-" + Pad2(d.day)
  }

  /** The text shape `fromisoformat` accepts: ten characters, `-` at 4 and 7, ASCII digits elsewhere. */
  predicate IsoShaped(s: string) {
    |s| == 10 && s[4] == '-' && s[7] == '-' &&
    IsDigit(s[0]) && IsDigit(s[1]) && IsDigit(s[2]) && IsDigit(s[3]) &&
    IsDigit(s[5]) && IsDigit(s[6]) && IsDigit(s[8]) && IsDigit(s[9])
  }

  /** `date.fromisoformat(s)`: None where Python raises ValueError. */
  function Parse(s: string): Option<CalendarDate> {
    if !IsoShaped(s) then None
    else
      var d := Date(
        1000 * DigitValue(s[0]) + 100 * DigitValue(s[1]) + 10 * DigitValue(s[2]) + DigitValue(s[3]),
        10 * DigitValue(s[5]) + DigitValue(s[6]),
        10 * DigitValue(s[8]) + DigitValue(s[9]));
      if IsValid(d) then Some(d) else None
  }

  lemma Pad2Digits(n: int)
    requires 0 <= n <= 99
    ensures var s := Pad2(n); 10 * DigitValue(s[0]) + DigitValue(s[1]) == n
  {
  }

  /** `%04d` of a number given by its four decimal digits. */
  lemma Pad4Split(a: int, b: int, c: int, e: int)
    requires 0 <= a <= 9 && 0 <= b <= 9 && 0 <= c <= 9 && 0 <= e <= 9
    ensures Pad4(1000 * a + 100 * b + 10 * c + e) == [Digit(a), Digit(b), Digit(c), Digit(e)]
  {
    var n := 1000 * a + 100 * b + 10 * c + e;
    Div1000(n, a, 100 * b + 10 * c + e);
    Div100(n, 10 * a + b, 10 * c + e);
    Div10(10 * a + b, a, b);
    Div10(n, 100 * a + 10 * b + c, e);
    Div10(100 * a + 10 * b + c, 10 * a + b, c);
  }

  lemma Pad4Digits(n: int)
    requires 0 <= n <= 9999
    ensures var s := Pad4(n);
      1000 * DigitValue(s[0]) + 100 * DigitValue(s[1]) + 10 * DigitValue(s[2]) + DigitValue(s[3]) == n
  {
    var (a, r) := (n / 1000, n % 1000);
    var (b, r2) := (r / 100, r % 100);
    var (c, e) := (r2 / 10, r2 % 10);
    Pad4Split(a, b, c, e);
  }

  /** Reading back what `isoformat` wrote gives the same date. */
  lemma ParseFormat(d: CalendarDate)
    ensures Parse(Format(d)) == Some(d)
  {
    var s := Format(d);
    assert s[0..4] == Pad4(d.year) && s[5..7] == Pad2(d.month) && s[8..10] == Pad2(d.day);
    Pad4Digits(d.year);
    Pad2Digits(d.month);
    Pad2Digits(d.day);
  }

  lemma Pad2Of(c0: char, c1: char)
    requires IsDigit(c0) && IsDigit(c1)
    ensures Pad2(10 * DigitValue(c0) + DigitValue(c1)) == [c0, c1]
  {
  }

  lemma Pad4Of(c0: char, c1: char, c2: char, c3: char)
    requires IsDigit(c0) && IsDigit(c1) && IsDigit(c2) && IsDigit(c3)
    ensures Pad4(1000 * DigitValue(c0) + 100 * DigitValue(c1) + 10 * DigitValue(c2) + DigitValue(c3)) == [c0, c1, c2, c3]
  {
    Pad4Split(DigitValue(c0), DigitValue(c1), DigitValue(c2), DigitValue(c3));
  }

  /** Every text `fromisoformat` accepts is the `isoformat` text of its date. */
  lemma FormatParse(s: string)
    requires Parse(s).Some?
    ensures Format(Parse(s).value) == s
  {
    Pad4Of(s[0], s[1], s[2], s[3]);
    Pad2Of(s[5], s[6]);
    Pad2Of(s[8], s[9]);
    assert s == [s[0], s[1], s[2], s[3]] + "-" + [s[5], s[6]] + "-" + [s[8], s[9]];
  }

  /** `fromisoformat(s)` yields `d` exactly when `s` is `d.isoformat()`. */
  lemma ParseIsInverse(s: string, d: CalendarDate)
    ensures Parse(s) == Some(d) <==> s == Format(d)
  {
    ParseFormat(d);
    if Parse(s) == Some(d) {
      FormatParse(s);
    }
  }
}
