/** Calendar utilities: local calendar dates, the canonical YYYY-MM-DD date
    key, the Monday-based week and the six-week month grid.

    A date is a day ordinal in the proleptic Gregorian calendar, with day 0
    being 0001-01-01 (a Monday). The civil (year, month, day) view of an
    ordinal is computed explicitly so that the month-based helpers and the
    date key can be stated and proved. */
module Calendar {
  import opened Wrappers

  /** A calendar day: the number of days since 0001-01-01. */
  type Day = nat

  /** Year, month (1..12) and day of month, as getFullYear, getMonth() + 1 and getDate report them. */
  datatype CivilDate = CivilDate(year: int, month: int, day: int)

  predicate IsLeap(y: int)
  {
    y % 4 == 0 && (y % 100 != 0 || y % 400 == 0)
  }

  function DaysInYear(y: int): int
  {
    if IsLeap(y) then 366 else 365
  }

  function DaysInMonth(y: int, m: int): (n: int)
    requires 1 <= m <= 12
    ensures 28 <= n <= 31
  {
    if m == 2 then (if IsLeap(y) then 29 else 28)
    else if m == 4 || m == 6 || m == 9 || m == 11 then 30
    else 31
  }

  predicate ValidCivil(c: CivilDate)
  {
    c.year >= 1 && 1 <= c.month <= 12 && 1 <= c.day <= DaysInMonth(c.year, c.month)
  }

  /** Days of year y that lie before the first of month m; m == 13 stands for the end of the year. */
  function DaysBeforeMonth(y: int, m: int): int
    requires 1 <= m <= 13
  {
    var common :=
      if m == 1 then 0 else if m == 2 then 31 else if m == 3 then 59
      else if m == 4 then 90 else if m == 5 then 120 else if m == 6 then 151
      else if m == 7 then 181 else if m == 8 then 212 else if m == 9 then 243
      else if m == 10 then 273 else if m == 11 then 304 else if m == 12 then 334
      else 365;
    if m >= 3 && IsLeap(y) then common + 1 else common
  }

  lemma DaysBeforeMonthStep(y: int, m: int)
    requires 1 <= m <= 12
    ensures DaysBeforeMonth(y, m + 1) == DaysBeforeMonth(y, m) + DaysInMonth(y, m)
    ensures DaysBeforeMonth(y, 13) == DaysInYear(y)
  {
  }

  lemma DaysBeforeMonthMono(y: int, a: int, b: int)
    requires 1 <= a < b <= 13
    ensures DaysBeforeMonth(y, a) + DaysInMonth(y, a) <= DaysBeforeMonth(y, b)
  {
  }

  /** Days from 0001-01-01 up to the first of January of year y. */
  function DaysBeforeYear(y: int): int
    requires y >= 1
  {
    var p := y - 1;
    365 * p + p / 4 - p / 100 + p / 400
  }

  lemma DaysBeforeYearStep(y: int)
    requires y >= 1
    ensures DaysBeforeYear(y + 1) == DaysBeforeYear(y) + DaysInYear(y)
  {
    var p := y - 1;
    assert y / 4 == p / 4 + (if y % 4 == 0 then 1 else 0);
    assert y / 100 == p / 100 + (if y % 100 == 0 then 1 else 0);
    assert y / 400 == p / 400 + (if y % 400 == 0 then 1 else 0);
  }

  lemma {:induction false} DaysBeforeYearMono(a: int, b: int)
    requires 1 <= a < b
    ensures DaysBeforeYear(a) + DaysInYear(a) <= DaysBeforeYear(b)
    decreases b - a
  {
    DaysBeforeYearStep(a);
    if a + 1 < b {
      DaysBeforeYearMono(a + 1, b);
    }
  }

  lemma DaysBeforeYearNonNegative(y: int)
    requires y >= 1
    ensures DaysBeforeYear(y) >= 0
  {
    var p := y - 1;
    assert 100 * (p / 100) <= p;
    assert p / 100 <= p / 4;
  }

  /** The ordinal of a valid civil date (what the Date constructor computes from year, month, day). */
  function ToDay(c: CivilDate): Day
    requires ValidCivil(c)
  {
    DaysBeforeYearNonNegative(c.year);
    DaysBeforeYear(c.year) + DaysBeforeMonth(c.year, c.month) + c.day - 1
  }

  /** Finds the month of year y that holds its day number rem (0-based), starting the search at month m. */
  function MonthFrom(rem: nat, y: int, m: int): CivilDate
    requires 1 <= m <= 12
    decreases 12 - m
  {
    if m == 12 || rem < DaysInMonth(y, m) then CivilDate(y, m, rem + 1)
    else MonthFrom(rem - DaysInMonth(y, m), y, m + 1)
  }

  /** Finds the civil date lying rem days after the first of January of year y. */
  function CivilFrom(rem: nat, y: int): CivilDate
    requires y >= 1
    decreases rem
  {
    if rem < DaysInYear(y) then MonthFrom(rem, y, 1)
    else CivilFrom(rem - DaysInYear(y), y + 1)
  }

  lemma {:induction false} MonthFromCorrect(rem: nat, y: int, m: int)
    requires y >= 1 && 1 <= m <= 12
    requires DaysBeforeMonth(y, m) + rem < DaysInYear(y)
    ensures ValidCivil(MonthFrom(rem, y, m))
    ensures MonthFrom(rem, y, m).year == y && MonthFrom(rem, y, m).month >= m
    ensures DaysBeforeMonth(y, MonthFrom(rem, y, m).month) + MonthFrom(rem, y, m).day - 1
            == DaysBeforeMonth(y, m) + rem
    decreases 12 - m
  {
    DaysBeforeMonthStep(y, m);
    if !(m == 12 || rem < DaysInMonth(y, m)) {
      MonthFromCorrect(rem - DaysInMonth(y, m), y, m + 1);
    }
  }

  lemma {:induction false} CivilFromCorrect(rem: nat, y: int)
    requires y >= 1
    ensures ValidCivil(CivilFrom(rem, y))
    ensures CivilFrom(rem, y).year >= y
    ensures ToDay(CivilFrom(rem, y)) == DaysBeforeYear(y) + rem
    decreases rem
  {
    if rem < DaysInYear(y) {
      MonthFromCorrect(rem, y, 1);
      var c := MonthFrom(rem, y, 1);
      assert CivilFrom(rem, y) == c;
      ToDayIs(c, DaysBeforeYear(y) + rem);
    } else {
      var rest := rem - DaysInYear(y);
      DaysBeforeYearStep(y);
      CivilFromCorrect(rest, y + 1);
      SameDate(CivilFrom(rem, y), CivilFrom(rest, y + 1), DaysBeforeYear(y) + rem);
    }
  }

  lemma Chain(a: CivilDate, b: CivilDate, c: CivilDate)
    requires a == b && b == c
    ensures a == c
  {
  }

  lemma SameDate(c: CivilDate, d: CivilDate, n: int)
    requires c == d && ValidCivil(d) && ToDay(d) == n
    ensures ValidCivil(c) && ToDay(c) == n
  {
  }

  /** The ordinal of a date found within its own year. */
  lemma ToDayIs(c: CivilDate, n: int)
    requires ValidCivil(c) && n == DaysBeforeYear(c.year) + DaysBeforeMonth(c.year, c.month) + c.day - 1
    ensures ToDay(c) == n
  {
  }

  /** The civil date of a day ordinal; its ordinal is the day itself. */
  function FromDay(n: Day): (c: CivilDate)
    ensures ValidCivil(c) && ToDay(c) == n
  {
    CivilFromCorrect(n, 1);
    CivilFrom(n, 1)
  }

  /** The day number of c counted from the first of month m of its year. */
  function DaysSinceMonth(c: CivilDate, m: int): int
    requires ValidCivil(c) && 1 <= m <= 12
  {
    DaysBeforeMonth(c.year, c.month) - DaysBeforeMonth(c.year, m) + c.day - 1
  }

  lemma {:induction false} MonthFromAt(c: CivilDate, m: int)
    requires ValidCivil(c) && 1 <= m <= c.month
    ensures DaysSinceMonth(c, m) >= 0 && MonthFrom(DaysSinceMonth(c, m), c.year, m) == c
    decreases c.month - m
  {
    if m < c.month {
      MonthFromAt(c, m + 1);
      MonthFromAtStep(c, m);
    } else {
      assert DaysSinceMonth(c, m) == c.day - 1;
    }
  }

  /** From an earlier month, the search skips month m and continues from month m + 1. */
  lemma MonthFromAtStep(c: CivilDate, m: int)
    requires ValidCivil(c) && 1 <= m < c.month
    requires DaysSinceMonth(c, m + 1) >= 0 && MonthFrom(DaysSinceMonth(c, m + 1), c.year, m + 1) == c
    ensures DaysSinceMonth(c, m) >= 0 && MonthFrom(DaysSinceMonth(c, m), c.year, m) == c
  {
    var rem, rest := DaysSinceMonth(c, m), DaysSinceMonth(c, m + 1);
    DaysBeforeMonthStep(c.year, m);
    assert rest == rem - DaysInMonth(c.year, m);
    Chain(MonthFrom(rem, c.year, m), MonthFrom(rest, c.year, m + 1), c);
  }

  /** The day number of c counted from the first of January of year y. */
  function DaysSinceYear(c: CivilDate, y: int): int
    requires ValidCivil(c) && 1 <= y
  {
    DaysBeforeYear(c.year) - DaysBeforeYear(y) + DaysBeforeMonth(c.year, c.month) + c.day - 1
  }

  lemma {:induction false} CivilFromAt(c: CivilDate, y: int)
    requires ValidCivil(c) && 1 <= y <= c.year
    ensures DaysSinceYear(c, y) >= 0 && CivilFrom(DaysSinceYear(c, y), y) == c
    decreases c.year - y
  {
    if y < c.year {
      CivilFromAt(c, y + 1);
      CivilFromAtStep(c, y);
    } else {
      CivilFromAtYear(c);
    }
  }

  /** Within its own year, a date is found by the month search. */
  lemma CivilFromAtYear(c: CivilDate)
    requires ValidCivil(c)
    ensures DaysSinceYear(c, c.year) >= 0 && CivilFrom(DaysSinceYear(c, c.year), c.year) == c
  {
    var inYear := DaysBeforeMonth(c.year, c.month) + c.day - 1;
    DaysBeforeMonthStep(c.year, c.month);
    DaysBeforeMonthMono(c.year, c.month, 13);
    assert DaysSinceYear(c, c.year) == inYear < DaysInYear(c.year);
    MonthFromAt(c, 1);
    assert DaysSinceMonth(c, 1) == inYear;
    Chain(CivilFrom(inYear, c.year), MonthFrom(inYear, c.year, 1), c);
  }

  /** From an earlier year, the search skips year y and continues from year y + 1. */
  lemma CivilFromAtStep(c: CivilDate, y: int)
    requires ValidCivil(c) && 1 <= y < c.year
    requires DaysSinceYear(c, y + 1) >= 0 && CivilFrom(DaysSinceYear(c, y + 1), y + 1) == c
    ensures DaysSinceYear(c, y) >= 0 && CivilFrom(DaysSinceYear(c, y), y) == c
  {
    var rem, rest := DaysSinceYear(c, y), DaysSinceYear(c, y + 1);
    DaysBeforeYearStep(y);
    assert rest == rem - DaysInYear(y);
    assert rem >= DaysInYear(y);
    Chain(CivilFrom(rem, y), CivilFrom(rest, y + 1), c);
  }

  /** Converting a valid civil date to its ordinal and back gives the same date. */
  lemma CivilRoundTrip(c: CivilDate)
    requires ValidCivil(c)
    ensures FromDay(ToDay(c)) == c
  {
    CivilFromAt(c, 1);
    assert DaysSinceYear(c, 1) == ToDay(c);
  }

  // ---------------------------------------------------------------------
  // Weekdays and weeks

  /** Date.getDay: 0 for Sunday, 1 for Monday, ..., 6 for Saturday. */
  function JsWeekday(d: Day): int
  {
    (d + 1) % 7
  }

  /** The ordinals agree with the JavaScript calendar: 1970-01-01, the epoch, was a Thursday,
      and 2026-01-26 a Monday. */
  lemma KnownWeekdays()
    ensures ToDay(CivilDate(1970, 1, 1)) == 719162 && JsWeekday(719162) == 4
    ensures JsWeekday(ToDay(CivilDate(2026, 1, 26))) == 1
  {
  }

  /** getWeekStart: the Monday on or before d (a Sunday goes back six days). */
  function WeekStart(d: Day): (r: Day)
    ensures r <= d && d - r <= 6 && JsWeekday(r) == 1
    ensures d - r == if JsWeekday(d) == 0 then 6 else JsWeekday(d) - 1
  {
    var day := JsWeekday(d);
    assert d + 1 == 7 * ((d + 1) / 7) + day;
    d - day + (if day == 0 then -6 else 1)
  }

  /** WeekStart is the only Monday in the seven days ending at d. */
  lemma WeekStartUnique(d: Day, mon: Day)
    requires mon <= d && d - mon <= 6 && JsWeekday(mon) == 1
    ensures mon == WeekStart(d)
  {
    var w := WeekStart(d);
    assert mon + 1 == 7 * ((mon + 1) / 7) + 1;
    assert w + 1 == 7 * ((w + 1) / 7) + 1;
  }

  /** getWeekDates: the seven consecutive days starting at weekStart. */
  method WeekDates(weekStart: Day) returns (dates: seq<Day>)
    ensures |dates| == 7
    ensures forall i :: 0 <= i < 7 ==> dates[i] == weekStart + i
  {
    dates := [];
    for i := 0 to 7
      invariant |dates| == i
      invariant forall j :: 0 <= j < i ==> dates[j] == weekStart + j
    {
      dates := dates + [weekStart + i];
    }
  }

  // ---------------------------------------------------------------------
  // Months and the month grid

  /** getMonthStart: the first day of d's month. */
  function MonthStart(d: Day): (r: Day)
    ensures FromDay(r) == CivilDate(FromDay(d).year, FromDay(d).month, 1)
    ensures r <= d && d - r == FromDay(d).day - 1
  {
    var c := FromDay(d);
    var first := CivilDate(c.year, c.month, 1);
    CivilRoundTrip(first);
    ToDay(first)
  }

  /** Steps back from the first of a month to the Monday on or before it, as getMonthDates does. */
  function BackToMonday(first: Day): (r: Day)
    ensures r <= first <= r + 6 && JsWeekday(r) == 1
  {
    var dayOfWeek := JsWeekday(first);
    var back := if dayOfWeek == 0 then 6 else dayOfWeek - 1;
    var monday := WeekStart(first);
    assert first - monday == back;
    first - back
  }

  /** The first cell of getMonthDates: the Monday on or before the first of monthStart's month. */
  function GridStart(monthStart: Day): (r: Day)
    ensures r <= MonthStart(monthStart) <= r + 6 && JsWeekday(r) == 1
  {
    BackToMonday(MonthStart(monthStart))
  }

  /** getMonthDates: 42 consecutive days (six Monday-based weeks) from GridStart. */
  method MonthDates(monthStart: Day) returns (dates: seq<Day>)
    ensures |dates| == 42
    ensures forall i :: 0 <= i < 42 ==> dates[i] == GridStart(monthStart) + i
  {
    var start := GridStart(monthStart);
    dates := [];
    for i := 0 to 42
      invariant |dates| == i
      invariant forall j :: 0 <= j < i ==> dates[j] == start + j
    {
      dates := dates + [start + i];
    }
  }

  /** The grid starts on the Monday on or before the first of the month. */
  lemma GridStartIsWeekStart(monthStart: Day)
    ensures GridStart(monthStart) == WeekStart(MonthStart(monthStart))
    ensures JsWeekday(GridStart(monthStart)) == 1
    ensures GridStart(monthStart) <= MonthStart(monthStart) <= GridStart(monthStart) + 6
  {
    WeekStartUnique(MonthStart(monthStart), GridStart(monthStart));
  }

  /** The "current month" flag of a grid cell: same month number as monthStart (the year is not compared). */
  predicate InMonth(d: Day, monthStart: Day)
  {
    FromDay(d).month == FromDay(monthStart).month
  }

  /** A day lies in month m of year y exactly when it falls in that month's ordinal range. */
  lemma MonthRange(n: Day, y: int, m: int)
    requires y >= 1 && 1 <= m <= 12
    ensures var first := ToDay(CivilDate(y, m, 1));
            (FromDay(n).year == y && FromDay(n).month == m) <==> first <= n < first + DaysInMonth(y, m)
  {
    var first := ToDay(CivilDate(y, m, 1));
    if first <= n < first + DaysInMonth(y, m) {
      var c := CivilDate(y, m, n - first + 1);
      CivilRoundTrip(c);
    }
  }

  /** A day in month m of a year other than y lies at least 300 days from the first of month m of year y. */
  lemma OtherYearFar(n: Day, y: int, m: int)
    requires y >= 1 && 1 <= m <= 12
    requires FromDay(n).month == m && FromDay(n).year != y
    ensures var first := ToDay(CivilDate(y, m, 1));
            n + 300 <= first || first + 300 <= n
  {
    var c := FromDay(n);
    if c.year > y {
      DaysBeforeYearMono(y, c.year);
    } else {
      DaysBeforeYearMono(c.year, y);
    }
  }

  /** Every cell of the grid carries the "current month" flag exactly when it is one of the
      days of monthStart's month; so the grid holds all of that month and nothing of the same
      month in another year. */
  lemma GridMonthFlags(monthStart: Day, i: int)
    requires 0 <= i < 42
    ensures var first := MonthStart(monthStart);
            var c := FromDay(monthStart);
            InMonth(GridStart(monthStart) + i, monthStart) <==> first <= GridStart(monthStart) + i < first + DaysInMonth(c.year, c.month)
  {
    var c := FromDay(monthStart);
    var n := GridStart(monthStart) + i;
    GridStartIsWeekStart(monthStart);
    MonthRange(n, c.year, c.month);
    if FromDay(n).month == c.month && FromDay(n).year != c.year {
      OtherYearFar(n, c.year, c.month);
    }
  }

  /** Every day of monthStart's month has a cell in the grid, and the month has at least 28 days. */
  lemma GridCoversMonth(monthStart: Day)
    ensures var first := MonthStart(monthStart);
            var c := FromDay(monthStart);
            28 <= DaysInMonth(c.year, c.month) &&
            GridStart(monthStart) <= first &&
            first + DaysInMonth(c.year, c.month) <= GridStart(monthStart) + 42
  {
    GridStartIsWeekStart(monthStart);
  }

  // ---------------------------------------------------------------------
  // Date keys

  predicate IsDigit(ch: char)
  {
    '0' <= ch <= '9'
  }

  function DigitChar(d: int): (ch: char)
    requires 0 <= d <= 9
    ensures IsDigit(ch)
  {
    ('0' as int + d) as char
  }

  function DigitValue(ch: char): int
  {
    ch as int - '0' as int
  }

  /** The decimal digits of n, as String(n) writes them. */
  function Decimal(n: nat): (s: string)
    ensures |s| >= 1 && forall i :: 0 <= i < |s| ==> IsDigit(s[i])
    ensures n < 10 <==> |s| == 1
    ensures 10 <= n < 100 <==> |s| == 2
    ensures 1000 <= n < 10000 ==> |s| == 4
    decreases n
  {
    if n < 10 then [DigitChar(n)] else Decimal(n / 10) + [DigitChar(n % 10)]
  }

  /** String.prototype.padStart(2, '0'). */
  function PadStart2(s: string): string
  {
    if |s| == 0 then "00" else if |s| == 1 then "0" + s else s
  }

  /** formatDate: year, zero-padded month and zero-padded day, separated by '-'. */
  function FormatDate(c: CivilDate): (key: string)
    requires ValidCivil(c)
    ensures 1000 <= c.year < 10000 ==> |key| == 10 && key[4] == '-' && key[7] == '-'
  {
    Decimal(c.year) + "-" + PadStart2(Decimal(c.month)) + "-" + PadStart2(Decimal(c.day))
  }

  /** The date key of a day. */
  function DateKey(d: Day): string
  {
    FormatDate(FromDay(d))
  }

  /** The value of a string of decimal digits. */
  function DecimalValue(s: string): nat
    decreases |s|
  {
    if s == [] then 0 else DecimalValue(s[..|s| - 1]) * 10 + (if IsDigit(s[|s| - 1]) then DigitValue(s[|s| - 1]) else 0)
  }

  /** A non-empty run of digits read as a number; anything else is not a number. */
  function ParseNat(s: string): Option<nat>
  {
    if |s| > 0 && forall i :: 0 <= i < |s| ==> IsDigit(s[i]) then Some(DecimalValue(s)) else None
  }

  function FirstIndex(s: string, ch: char): (i: nat)
    requires ch in s
    ensures i < |s| && s[i] == ch && ch !in s[..i]
  {
    if s[0] == ch then 0 else 1 + FirstIndex(s[1..], ch)
  }

  /** String.prototype.split with a one-character separator. */
  function Split(s: string, sep: char): (parts: seq<string>)
    ensures |parts| >= 1
    decreases |s|
  {
    if sep !in s then [s]
    else
      var i := FirstIndex(s, sep);
      [s[..i]] + Split(s[i + 1..], sep)
  }

  /** parseDate's reading of a key: the three '-'-separated fields as numbers. */
  function ParseKey(key: string): Option<CivilDate>
  {
    var parts := Split(key, '-');
    if |parts| < 3 then None
    else
      match (ParseNat(parts[0]), ParseNat(parts[1]), ParseNat(parts[2]))
      case (Some(y), Some(m), Some(d)) => Some(CivilDate(y, m, d))
      case _ => None
  }

  lemma {:induction false} DecimalRoundTrip(n: nat)
    ensures DecimalValue(Decimal(n)) == n
    decreases n
  {
    if n >= 10 {
      var s := Decimal(n);
      assert s[..|s| - 1] == Decimal(n / 10);
      DecimalRoundTrip(n / 10);
    }
  }

  lemma PaddedRoundTrip(n: nat)
    requires n < 100
    ensures |PadStart2(Decimal(n))| == 2
    ensures forall i :: 0 <= i < 2 ==> IsDigit(PadStart2(Decimal(n))[i])
    ensures DecimalValue(PadStart2(Decimal(n))) == n
  {
    var s := PadStart2(Decimal(n));
    DecimalRoundTrip(n);
    if n < 10 {
      assert s[..1] == "0";
      assert DecimalValue("0") == 0 by { assert "0"[..0] == []; }
    } else {
      assert s == Decimal(n);
    }
  }

  lemma SplitAfter(a: string, b: string, sep: char)
    requires sep !in a
    ensures Split(a + [sep] + b, sep) == [a] + Split(b, sep)
  {
    var s := a + [sep] + b;
    assert s[|a|] == sep;
    var i := FirstIndex(s, sep);
    assert forall j :: 0 <= j < i ==> s[..i][j] == s[j] && s[j] != sep;
    assert forall j :: 0 <= j < |a| ==> s[j] == a[j] && a[j] != sep;
    assert i == |a|;
    assert s[..i] == a;
    assert s[i + 1..] == b;
  }

  lemma NoSepInDigits(s: string, sep: char)
    requires forall i :: 0 <= i < |s| ==> IsDigit(s[i])
    requires !IsDigit(sep)
    ensures sep !in s
  {
  }

  /** Splitting three '-'-free fields joined by '-' gives the fields back. */
  lemma SplitThree(y: string, m: string, d: string)
    requires '-' !in y && '-' !in m && '-' !in d
    ensures Split(y + "-" + m + "-" + d, '-') == [y, m, d]
  {
    var md := m + "-" + d;
    Assoc(y + "-" + m, "-", d);
    Assoc(y + "-", m, "-" + d);
    Assoc(m, "-", d);
    SplitAfter(y, md, '-');
    SplitAfter(m, d, '-');
  }

  lemma Assoc(a: string, b: string, c: string)
    ensures a + b + c == a + (b + c)
  {
  }

  /** parseDate undoes formatDate: the key of a valid date reads back as that date. */
  lemma KeyRoundTrip(c: CivilDate)
    requires ValidCivil(c)
    ensures ParseKey(FormatDate(c)) == Some(c)
  {
    var y, m, d := Decimal(c.year), PadStart2(Decimal(c.month)), PadStart2(Decimal(c.day));
    PaddedRoundTrip(c.month);
    PaddedRoundTrip(c.day);
    DecimalRoundTrip(c.year);
    NoSepInDigits(y, '-');
    NoSepInDigits(m, '-');
    NoSepInDigits(d, '-');
    SplitThree(y, m, d);
    assert ParseNat(y) == Some(c.year) && ParseNat(m) == Some(c.month) && ParseNat(d) == Some(c.day);
  }

  /** Distinct days have distinct keys. */
  lemma DateKeyInjective(a: Day, b: Day)
    requires DateKey(a) == DateKey(b)
    ensures a == b
  {
    KeyRoundTrip(FromDay(a));
    KeyRoundTrip(FromDay(b));
  }

  // ---------------------------------------------------------------------
  // Key order

  /** The `<` comparison of JavaScript strings: the first differing character decides, and a
      proper prefix comes first. */
  predicate LexLess(s: string, t: string)
    decreases |s|
  {
    if s == [] then t != []
    else t != [] && (s[0] < t[0] || (s[0] == t[0] && LexLess(s[1..], t[1..])))
  }

  /** Comparing two strings whose first parts have equal length compares the first parts, and
      the rest only on a tie. */
  lemma {:induction false} LexAppend(a: string, b: string, c: string, d: string)
    requires |a| == |b|
    ensures LexLess(a + c, b + d) <==> LexLess(a, b) || (a == b && LexLess(c, d))
    decreases |a|
  {
    if a == [] {
      assert a + c == c && b + d == d;
    } else {
      assert (a + c)[0] == a[0] && (b + d)[0] == b[0];
      assert (a + c)[1..] == a[1..] + c && (b + d)[1..] == b[1..] + d;
      LexAppend(a[1..], b[1..], c, d);
      assert a == b <==> a[0] == b[0] && a[1..] == b[1..];
    }
  }

  /** Two different strings of equal length are ordered one way or the other. */
  lemma {:induction false} LexTotal(x: string, y: string)
    requires |x| == |y|
    ensures x == y || LexLess(x, y) || LexLess(y, x)
    decreases |x|
  {
    if x != [] {
      LexTotal(x[1..], y[1..]);
      assert x[0] == y[0] && x[1..] == y[1..] ==> x == y;
    }
  }

  /** Equal-length runs of digits compare as strings exactly as their values compare. */
  lemma {:induction false} DigitsLex(x: string, y: string)
    requires |x| == |y|
    requires forall i :: 0 <= i < |x| ==> IsDigit(x[i])
    requires forall i :: 0 <= i < |y| ==> IsDigit(y[i])
    ensures LexLess(x, y) <==> DecimalValue(x) < DecimalValue(y)
    decreases |x|
  {
    if x != [] {
      var n := |x| - 1;
      var x', y' := x[..n], y[..n];
      assert x == x' + [x[n]] && y == y' + [y[n]];
      LexAppend(x', y', [x[n]], [y[n]]);
      assert LexLess([x[n]], [y[n]]) <==> x[n] < y[n] by {
        assert [x[n]][1..] == [] && [y[n]][1..] == [];
      }
      DigitsLex(x', y');
      DigitsLex(y', x');
      LexTotal(x', y');
      assert DecimalValue(x) == DecimalValue(x') * 10 + DigitValue(x[n]);
      assert DecimalValue(y) == DecimalValue(y') * 10 + DigitValue(y[n]);
    }
  }

  /** Splitting concatenations whose first parts have equal length. */
  lemma AppendEq(a: string, b: string, c: string, d: string)
    requires |a| == |b|
    ensures a + c == b + d <==> a == b && c == d
  {
    if a + c == b + d {
      assert a == (a + c)[..|a|] && b == (b + d)[..|b|];
      assert c == (a + c)[|a|..] && d == (b + d)[|b|..];
    }
  }

  /** Civil dates in calendar order: by year, then month, then day. */
  predicate CivilLess(c: CivilDate, d: CivilDate)
  {
    c.year < d.year || (c.year == d.year && (c.month < d.month || (c.month == d.month && c.day < d.day)))
  }

  /** A field written by formatDate reads back as its value, so equal fields mean equal values
      and the string order of fields is their numeric order. */
  lemma FieldsCompare(f: string, g: string, m: nat, n: nat)
    requires |f| == |g| && DecimalValue(f) == m && DecimalValue(g) == n
    requires forall i :: 0 <= i < |f| ==> IsDigit(f[i])
    requires forall i :: 0 <= i < |g| ==> IsDigit(g[i])
    ensures f == g ==> m == n
    ensures LexLess(f, g) <==> m < n
  {
    DigitsLex(f, g);
  }

  /** For four-digit years, keys compare as strings exactly as the dates compare in calendar order. */
  lemma KeyOrder(c: CivilDate, d: CivilDate)
    requires ValidCivil(c) && ValidCivil(d)
    requires 1000 <= c.year < 10000 && 1000 <= d.year < 10000
    ensures LexLess(FormatDate(c), FormatDate(d)) <==> CivilLess(c, d)
  {
    var y1, m1, d1 := Decimal(c.year), PadStart2(Decimal(c.month)), PadStart2(Decimal(c.day));
    var y2, m2, d2 := Decimal(d.year), PadStart2(Decimal(d.month)), PadStart2(Decimal(d.day));
    DecimalRoundTrip(c.year);
    DecimalRoundTrip(d.year);
    PaddedRoundTrip(c.month);
    PaddedRoundTrip(d.month);
    PaddedRoundTrip(c.day);
    PaddedRoundTrip(d.day);
    FieldsCompare(y1, y2, c.year, d.year);
    FieldsCompare(m1, m2, c.month, d.month);
    FieldsCompare(d1, d2, c.day, d.day);
    // The keys are ((((year + "-") + month) + "-") + day), with fields of equal widths.
    LexAppend(y1 + "-" + m1 + "-", y2 + "-" + m2 + "-", d1, d2);
    LexAppend(y1 + "-" + m1, y2 + "-" + m2, "-", "-");
    LexAppend(y1 + "-", y2 + "-", m1, m2);
    LexAppend(y1, y2, "-", "-");
    assert !LexLess("-", "-");
    AppendEq(y1 + "-" + m1, y2 + "-" + m2, "-", "-");
    AppendEq(y1 + "-", y2 + "-", m1, m2);
    AppendEq(y1, y2, "-", "-");
  }

  /** A date earlier in calendar order has a smaller ordinal. */
  lemma CivilLessDay(c: CivilDate, d: CivilDate)
    requires ValidCivil(c) && ValidCivil(d) && CivilLess(c, d)
    ensures ToDay(c) < ToDay(d)
  {
    if c.year < d.year {
      DaysBeforeMonthStep(c.year, 12);
      if c.month < 12 {
        DaysBeforeMonthMono(c.year, c.month, 13);
      }
      DaysBeforeYearMono(c.year, d.year);
    } else if c.month < d.month {
      DaysBeforeMonthMono(c.year, c.month, d.month);
    }
  }

  /** The days from the first of January of year lo up to, not including, that of year hi are
      exactly the days of the years lo..hi-1. */
  lemma YearOfDay(n: Day, lo: int, hi: int)
    requires 1 <= lo < hi && DaysBeforeYear(lo) <= n < DaysBeforeYear(hi)
    ensures lo <= FromDay(n).year < hi
  {
    var c := FromDay(n);
    if c.year < lo {
      DaysBeforeMonthStep(c.year, 12);
      if c.month < 12 {
        DaysBeforeMonthMono(c.year, c.month, 13);
      }
      DaysBeforeYearMono(c.year, lo);
    } else if c.year > hi {
      DaysBeforeYearMono(hi, c.year);
    }
  }

  /** Keys of dates with four-digit years sort as the dates do: for days from 1000-01-01 to
      9999-12-31, a comes before b exactly when a's key is less than b's as a string. */
  lemma KeysSortable(a: Day, b: Day)
    requires DaysBeforeYear(1000) <= a < DaysBeforeYear(10000)
    requires DaysBeforeYear(1000) <= b < DaysBeforeYear(10000)
    ensures a < b <==> LexLess(DateKey(a), DateKey(b))
  {
    YearOfDay(a, 1000, 10000);
    YearOfDay(b, 1000, 10000);
    var c, d := FromDay(a), FromDay(b);
    KeyOrder(c, d);
    if CivilLess(c, d) {
      CivilLessDay(c, d);
    } else if CivilLess(d, c) {
      CivilLessDay(d, c);
    } else {
      assert c == d;
    }
  }
}
