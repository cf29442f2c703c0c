// The Gregorian calendar by day numbers: day 0 is Monday, 1 January of year 1.
module Calendar {
  import opened Bytes

  datatype Date = Date(year: int, month: int, day: int)

  predicate IsLeap(y: int) {
    y % 4 == 0 && (y % 100 != 0 || y % 400 == 0)
  }

  function MonthDays(y: int, m: int): int {
    if m == 2 then if IsLeap(y) then 29 else 28
    else if m == 4 || m == 6 || m == 9 || m == 11 then 30
    else 31
  }

  predicate ValidDate(d: Date) {
    1 <= d.year && 1 <= d.month <= 12 && 1 <= d.day <= MonthDays(d.year, d.month)
  }

  function DaysBeforeYear(y: int): int {
    365 * (y - 1) + (y - 1) / 4 - (y - 1) / 100 + (y - 1) / 400
  }

  function DaysBeforeMonth(y: int, m: int): int
    requires 1 <= m <= 13
    decreases m
  {
    if m == 1 then 0 else DaysBeforeMonth(y, m - 1) + MonthDays(y, m - 1)
  }

  // A day beyond the end of its month counts on into the next, as time.Date has it.
  function DayNumber(d: Date): int
    requires 1 <= d.month <= 12
  {
    DaysBeforeYear(d.year) + DaysBeforeMonth(d.year, d.month) + d.day - 1
  }

  function NextDay(d: Date): Date {
    if d.day < MonthDays(d.year, d.month) then d.(day := d.day + 1)
    else if d.month < 12 then Date(d.year, d.month + 1, 1)
    else Date(d.year + 1, 1, 1)
  }

  // The date of a day, counted from the first.
  function DateOf(n: nat): Date {
    if n == 0 then Date(1, 1, 1) else NextDay(DateOf(n - 1))
  }

  // Sunday is 0.
  function Weekday(n: int): int {
    (n + 1) % 7
  }

  function YearDays(y: int): int {
    if IsLeap(y) then 366 else 365
  }

  lemma FloorStep(y: int, k: int)
    requires k > 0
    ensures y / k == (y - 1) / k + if y % k == 0 then 1 else 0
  {
    var q, r := y / k, y % k;
    assert y == k * q + r;
    if r == 0 {
      assert y - 1 == k * (q - 1) + (k - 1) by {
        assert k * (q - 1) == k * q - k;
      }
      DivModUnique(y - 1, k, q - 1, k - 1);
    } else {
      assert y - 1 == k * q + (r - 1);
      DivModUnique(y - 1, k, q, r - 1);
    }
  }

  lemma YearLength(y: int)
    ensures DaysBeforeYear(y + 1) == DaysBeforeYear(y) + YearDays(y)
  {
    FloorStep(y, 4);
    FloorStep(y, 100);
    FloorStep(y, 400);
  }

  lemma MonthsFill(y: int)
    ensures DaysBeforeMonth(y, 13) == YearDays(y)
    ensures DaysBeforeMonth(y, 1) == 0 && DaysBeforeMonth(y, 2) == 31 && DaysBeforeMonth(y, 3) == 31 + MonthDays(y, 2)
  {
    assert DaysBeforeMonth(y, 4) == DaysBeforeMonth(y, 3) + 31;
    assert DaysBeforeMonth(y, 5) == DaysBeforeMonth(y, 4) + 30;
    assert DaysBeforeMonth(y, 6) == DaysBeforeMonth(y, 5) + 31;
    assert DaysBeforeMonth(y, 7) == DaysBeforeMonth(y, 6) + 30;
    assert DaysBeforeMonth(y, 8) == DaysBeforeMonth(y, 7) + 31;
    assert DaysBeforeMonth(y, 9) == DaysBeforeMonth(y, 8) + 31;
    assert DaysBeforeMonth(y, 10) == DaysBeforeMonth(y, 9) + 30;
    assert DaysBeforeMonth(y, 11) == DaysBeforeMonth(y, 10) + 31;
    assert DaysBeforeMonth(y, 12) == DaysBeforeMonth(y, 11) + 30;
  }

  lemma NextDayFollows(d: Date)
    requires ValidDate(d)
    ensures ValidDate(NextDay(d)) && DayNumber(NextDay(d)) == DayNumber(d) + 1
  {
    hide DaysBeforeYear;
    YearLength(d.year);
    MonthsFill(d.year);
    MonthsFill(d.year + 1);
  }

  // Counting days and the closed form agree.
  lemma {:induction false} DateOfNumber(n: nat)
    ensures ValidDate(DateOf(n)) && DayNumber(DateOf(n)) == n
  {
    hide DaysBeforeYear, DaysBeforeMonth, MonthDays;
    if n == 0 {
      FirstDay();
    } else {
      DateOfNumber(n - 1);
      NextDayFollows(DateOf(n - 1));
    }
  }

  lemma FirstDay()
    ensures DayNumber(Date(1, 1, 1)) == 0 && ValidDate(Date(1, 1, 1))
  {
  }

  /**** The order of dates ****/

  lemma {:induction false} YearsInOrder(a: int, b: int)
    requires a <= b
    ensures DaysBeforeYear(a) + 365 * (b - a) <= DaysBeforeYear(b)
    decreases b - a
  {
    hide DaysBeforeYear;
    if a < b {
      YearsInOrder(a, b - 1);
      YearLength(b - 1);
    }
  }

  lemma {:induction false} MonthsInOrder(y: int, m: int, m': int)
    requires 1 <= m <= m' <= 13
    ensures DaysBeforeMonth(y, m) + (if m < m' then MonthDays(y, m) else 0) <= DaysBeforeMonth(y, m')
    decreases m' - m
  {
    if m < m' {
      MonthsInOrder(y, m, m' - 1);
    }
  }

  lemma WithinYear(d: Date)
    requires ValidDate(d)
    ensures DaysBeforeYear(d.year) <= DayNumber(d) < DaysBeforeYear(d.year + 1)
  {
    hide DaysBeforeYear, DaysBeforeMonth;
    MonthsInOrder(d.year, 1, d.month);
    MonthsInOrder(d.year, d.month, 13);
    MonthsFill(d.year);
    YearLength(d.year);
  }

  lemma EarlierYear(a: Date, b: Date)
    requires ValidDate(a) && ValidDate(b) && a.year < b.year
    ensures DayNumber(a) < DayNumber(b)
  {
    hide DaysBeforeYear, DaysBeforeMonth;
    WithinYear(a);
    WithinYear(b);
    YearsInOrder(a.year + 1, b.year);
  }

  lemma EarlierMonth(a: Date, b: Date)
    requires ValidDate(a) && ValidDate(b) && a.year == b.year && a.month < b.month
    ensures DayNumber(a) < DayNumber(b)
  {
    hide DaysBeforeYear;
    MonthsInOrder(a.year, a.month, b.month);
  }

  lemma SameNumberSameDate(a: Date, b: Date)
    requires ValidDate(a) && ValidDate(b) && DayNumber(a) == DayNumber(b)
    ensures a == b
  {
    hide DaysBeforeYear;
    if a.year < b.year {
      EarlierYear(a, b);
    } else if b.year < a.year {
      EarlierYear(b, a);
    } else if a.month < b.month {
      EarlierMonth(a, b);
    } else if b.month < a.month {
      EarlierMonth(b, a);
    }
  }

  lemma NumberIsNatural(d: Date)
    requires ValidDate(d)
    ensures DayNumber(d) >= 0
  {
    hide DaysBeforeYear, DaysBeforeMonth;
    WithinYear(d);
    YearsInOrder(1, d.year);
    assert DaysBeforeYear(1) == 0 by { FirstYear(); }
  }

  lemma FirstYear()
    ensures DaysBeforeYear(1) == 0
  {
  }

  lemma NumberOfDate(d: Date)
    requires ValidDate(d)
    ensures DayNumber(d) >= 0 && DateOf(DayNumber(d)) == d
  {
    hide DaysBeforeYear, DaysBeforeMonth, DateOf;
    NumberIsNatural(d);
    DateOfNumber(DayNumber(d));
    SameNumberSameDate(DateOf(DayNumber(d)), d);
  }

  // The first seven days of a month are seven different weekdays.
  lemma WeekdayInMonth(y: int, m: int, w: int) returns (d: Date)
    requires 1 <= y && 1 <= m <= 12 && 0 <= w < 7
    ensures ValidDate(d) && d.year == y && d.month == m && d.day <= 7 && Weekday(DayNumber(d)) == w
  {
    hide DaysBeforeYear, DaysBeforeMonth;
    var first := Date(y, m, 1);
    var shift := (w - Weekday(DayNumber(first))) % 7;
    d := Date(y, m, 1 + shift);
    assert DayNumber(d) == DayNumber(first) + shift;
    AddWeekday(DayNumber(first), w);
  }

  lemma AddWeekday(n: int, w: int)
    requires 0 <= w < 7
    ensures Weekday(n + (w - Weekday(n)) % 7) == w
  {
  }
}
