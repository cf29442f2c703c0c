// Whether a schedule ever fires, and when the four years NextRun searches are enough to find out.
module NextRunTheorems {
  import opened Wrappers
  import opened Numbers
  import opened CronFields
  import opened CronSchedule
  import opened Calendar
  import opened NextRuns
  import Parts

  /**** The days a schedule can fire on ****/

  // The days every February, April and so on has.
  function CommonDays(m: int): int {
    if m == 2 then 28 else MonthDays(1, m)
  }

  // Some month, day and weekday of any year satisfy the schedule's day rules.
  ghost predicate CommonDay(fields: seq<string>)
    requires |fields| == 5
  {
    exists m, d, w :: 1 <= m <= 12 && 1 <= d <= CommonDays(m) && 0 <= w < 7
                      && FieldMatches(fields[3], m, MONTH) && DayRule(fields, d, w)
  }

  // 29 February satisfies them.
  ghost predicate LeapDay(fields: seq<string>)
    requires |fields| == 5
  {
    FieldMatches(fields[3], 2, MONTH) && exists w :: 0 <= w < 7 && DayRule(fields, 29, w)
  }

  // The search from `candidate` has a 29 February before it on which a matching time is left.
  ghost predicate LeapDayAhead(fields: seq<string>, candidate: nat)
    requires |fields| == 5
  {
    var d := DateOf(candidate / MINUTES);
    if d.month == 2 && d.day == 29 then
      IsLeap(d.year + 4) || exists t: nat :: candidate % MINUTES <= t < MINUTES && TimeMatches(fields, t)
    else if d.month <= 2 then IsLeap(d.year) || IsLeap(d.year + 1) || IsLeap(d.year + 2) || IsLeap(d.year + 3)
    else IsLeap(d.year + 1) || IsLeap(d.year + 2) || IsLeap(d.year + 3) || IsLeap(d.year + 4)
  }

  ghost predicate FiresIn(fields: seq<string>, from: nat, until: int)
    requires |fields| == 5
  {
    exists t: nat :: from <= t < until && Matches(t, fields)
  }

  lemma EveryTime(fields: seq<string>) returns (t: nat)
    requires |fields| == 5 && FieldsAccepted(fields)
    ensures t < MINUTES && TimeMatches(fields, t)
  {
    hide CheckField, FieldMatches, Sensible;
    FieldsAreSensible();
    assert CheckField(fields[0], FIELDS[0]) && CheckField(fields[1], FIELDS[1]);
    EveryFieldMatches(fields[0], MINUTE);
    EveryFieldMatches(fields[1], HOUR);
    var m :| MINUTE.min <= m <= MINUTE.max && FieldMatches(fields[0], m, MINUTE);
    var h :| HOUR.min <= h <= HOUR.max && FieldMatches(fields[1], h, HOUR);
    t := h * 60 + m;
    assert t % 60 == m && t / 60 == h;
  }

  // A date and a time of day put together.
  lemma AtDate(fields: seq<string>, d: Date, t: nat) returns (at: nat)
    requires |fields| == 5 && ValidDate(d) && t < MINUTES && TimeMatches(fields, t)
    requires FieldMatches(fields[3], d.month, MONTH) && DayRule(fields, d.day, Weekday(DayNumber(d)))
    ensures at == DayNumber(d) * MINUTES + t && Matches(at, fields)
  {
    hide FieldMatches, DayRule, DayNumber;
    NumberOfDate(d);
    at := DayNumber(d) * MINUTES + t;
    assert at / MINUTES == DayNumber(d) && at % MINUTES == t;
  }

  /**** The window ****/

  // The day the search stops on.
  function LastDay(d: Date): int
    requires ValidDate(d)
  {
    DayNumber(Date(d.year + 4, d.month, d.day))
  }

  lemma LimitIs(candidate: nat)
    ensures ValidDate(DateOf(candidate / MINUTES)) && DayNumber(DateOf(candidate / MINUTES)) == candidate / MINUTES
    ensures Limit(candidate) == LastDay(DateOf(candidate / MINUTES)) * MINUTES + candidate % MINUTES
  {
    hide DayNumber, DateOf, ValidDate;
    DateOfNumber(candidate / MINUTES);
    LimitIsLast(candidate);
  }

  lemma LimitIsLast(candidate: nat)
    requires ValidDate(DateOf(candidate / MINUTES))
    ensures Limit(candidate) == LastDay(DateOf(candidate / MINUTES)) * MINUTES + candidate % MINUTES
  {
    hide DayNumber, DateOf;
  }

  // Any date of the three years after the first day lies in the window.
  lemma MiddleYears(d: Date, e: Date)
    requires ValidDate(d) && ValidDate(e) && d.year < e.year < d.year + 4
    ensures DayNumber(d) < DayNumber(e) < LastDay(d)
  {
    hide DaysBeforeYear, DaysBeforeMonth;
    EarlierYear(d, e);
    WithinYear(e);
    YearsInOrder(e.year + 1, d.year + 4);
    MonthsFill(d.year + 4);
    MonthsInOrder(d.year + 4, 1, d.month);
  }

  lemma InWindow(candidate: nat, day: int, t: nat)
    requires t < MINUTES && candidate / MINUTES < day < LastDayOf(candidate)
    ensures candidate <= day * MINUTES + t < Limit(candidate)
  {
    hide DayNumber, DateOf;
    LimitIs(candidate);
    Between(candidate, day, t, LastDayOf(candidate));
  }

  function LastDayOf(candidate: nat): int {
    LimitIs(candidate);
    LastDay(DateOf(candidate / MINUTES))
  }

  lemma Between(candidate: nat, day: int, t: nat, last: int)
    requires t < MINUTES && candidate / MINUTES < day < last
    ensures candidate <= day * MINUTES + t < last * MINUTES + candidate % MINUTES
  {
    assert candidate < (candidate / MINUTES + 1) * MINUTES;
  }

  /**** A common day is always found ****/

  // Whatever the rule, a year has a date for it.
  lemma CommonDayInYear(fields: seq<string>, y: int) returns (d: Date)
    requires |fields| == 5 && CommonDay(fields) && 1 <= y
    ensures ValidDate(d) && d.year == y && FieldMatches(fields[3], d.month, MONTH) && DayRule(fields, d.day, Weekday(DayNumber(d)))
  {
    hide FieldMatches, DayNumber, IsUnrestricted, WeekdayMatches;
    var m, day, w :| 1 <= m <= 12 && 1 <= day <= CommonDays(m) && 0 <= w < 7
                     && FieldMatches(fields[3], m, MONTH) && DayRule(fields, day, w);
    d := Date(y, m, day);
    if !DayRule(fields, day, Weekday(DayNumber(d))) {
      d := WeekdayInMonth(y, m, w);
    }
  }

  lemma CommonDayIsFound(fields: seq<string>, candidate: nat)
    requires |fields| == 5 && FieldsAccepted(fields) && CommonDay(fields)
    ensures FiresIn(fields, candidate, Limit(candidate))
  {
    hide CommonDay, FieldMatches, DayRule, DayNumber, DateOf, TimeMatches, Matches, CheckField, Limit;
    LimitIs(candidate);
    var first := DateOf(candidate / MINUTES);
    var d := CommonDayInYear(fields, first.year + 1);
    var t := EveryTime(fields);
    var at := AtDate(fields, d, t);
    MiddleYears(first, d);
    NumberOfDate(d);
    InWindow(candidate, DayNumber(d), t);
  }

  /**** 29 February ****/

  lemma LeapRule(fields: seq<string>, n: int)
    requires |fields| == 5 && LeapDay(fields) && !CommonDay(fields)
    ensures DayRule(fields, 29, Weekday(n))
  {
    hide FieldMatches, IsUnrestricted;
    var w :| 0 <= w < 7 && DayRule(fields, 29, w);
    assert !DayRule(fields, 1, w) by {
      assert CommonDays(2) == 28;
    }
  }

  // A 29 February in the window, with a time of day at which it lies in it.
  lemma LeapDayFound(fields: seq<string>, candidate: nat, y: int, t: nat)
    requires |fields| == 5 && LeapDay(fields) && !CommonDay(fields) && y >= 1 && IsLeap(y) && t < MINUTES && TimeMatches(fields, t)
    requires var day := DayNumber(Date(y, 2, 29)); candidate <= day * MINUTES + t < Limit(candidate)
    ensures FiresIn(fields, candidate, Limit(candidate))
  {
    hide CommonDay, FieldMatches, DayRule, DayNumber, DateOf, TimeMatches, Matches, Limit;
    var d := Date(y, 2, 29);
    NumberOfDate(d);
    LeapRule(fields, DayNumber(d));
    var at := AtDate(fields, d, t);
  }

  lemma FourYearsOn(d: Date)
    requires ValidDate(d)
    ensures d.month == 2 && d.day == 29 && IsLeap(d.year + 4) ==> DayNumber(Date(d.year + 4, 2, 29)) == LastDay(d)
    ensures d.month > 2 && IsLeap(d.year + 4) ==> DayNumber(d) < DayNumber(Date(d.year + 4, 2, 29)) < LastDay(d)
    ensures (d.month < 2 || (d.month == 2 && d.day < 29)) && IsLeap(d.year) ==>
              DayNumber(d) < DayNumber(Date(d.year, 2, 29)) < LastDay(d)
  {
    hide DaysBeforeYear, DaysBeforeMonth;
    var last := Date(d.year + 4, 2, 29);
    MonthsFill(d.year);
    MonthsFill(d.year + 4);
    if d.month > 2 && IsLeap(d.year + 4) {
      EarlierYear(d, last);
      MonthsInOrder(d.year + 4, 3, d.month);
    }
    if (d.month < 2 || d.day < 29) && d.month <= 2 && IsLeap(d.year) {
      var leap := Date(d.year, 2, 29);
      WithinYear(leap);
      YearsInOrder(d.year + 1, d.year + 4);
      MonthsInOrder(d.year + 4, 1, d.month);
    }
  }

  lemma LeapDayIsFound(fields: seq<string>, candidate: nat)
    requires |fields| == 5 && FieldsAccepted(fields) && LeapDay(fields) && !CommonDay(fields) && LeapDayAhead(fields, candidate)
    ensures FiresIn(fields, candidate, Limit(candidate))
  {
    hide CommonDay, FieldMatches, DayRule, DayNumber, DateOf, TimeMatches, Matches, LeapDay, FiresIn, CheckField, Limit, IsLeap;
    LimitIs(candidate);
    var d := DateOf(candidate / MINUTES);
    var t := EveryTime(fields);
    FourYearsOn(d);
    if d.month == 2 && d.day == 29 {
      LeapDayOnLeapDay(fields, candidate, t);
    } else if IsLeap(d.year + 1) {
      LeapDayBetween(fields, candidate, d.year + 1, t);
    } else if IsLeap(d.year + 2) {
      LeapDayBetween(fields, candidate, d.year + 2, t);
    } else if IsLeap(d.year + 3) {
      LeapDayBetween(fields, candidate, d.year + 3, t);
    } else if d.month <= 2 {
      InWindow(candidate, DayNumber(Date(d.year, 2, 29)), t);
      LeapDayFound(fields, candidate, d.year, t);
    } else {
      InWindow(candidate, DayNumber(Date(d.year + 4, 2, 29)), t);
      LeapDayFound(fields, candidate, d.year + 4, t);
    }
  }

  lemma LeapDayBetween(fields: seq<string>, candidate: nat, y: int, t: nat)
    requires |fields| == 5 && LeapDay(fields) && !CommonDay(fields) && IsLeap(y) && t < MINUTES && TimeMatches(fields, t)
    requires DateOf(candidate / MINUTES).year < y < DateOf(candidate / MINUTES).year + 4
    ensures FiresIn(fields, candidate, Limit(candidate))
  {
    hide CommonDay, FieldMatches, DayRule, DayNumber, DateOf, TimeMatches, Matches, LeapDay, FiresIn, Limit;
    LimitIs(candidate);
    MiddleYears(DateOf(candidate / MINUTES), Date(y, 2, 29));
    InWindow(candidate, DayNumber(Date(y, 2, 29)), t);
    LeapDayFound(fields, candidate, y, t);
  }

  lemma LeapDayOnLeapDay(fields: seq<string>, candidate: nat, t: nat)
    requires |fields| == 5 && LeapDay(fields) && !CommonDay(fields) && LeapDayAhead(fields, candidate)
    requires DateOf(candidate / MINUTES).month == 2 && DateOf(candidate / MINUTES).day == 29
    requires t < MINUTES && TimeMatches(fields, t)
    ensures FiresIn(fields, candidate, Limit(candidate))
  {
    hide CommonDay, FieldMatches, DayRule, DayNumber, DateOf, TimeMatches, Matches, LeapDay, FiresIn, Limit;
    LimitIs(candidate);
    var d := DateOf(candidate / MINUTES);
    FourYearsOn(d);
    FarAway(d);
    var today := DayNumber(d);
    assert candidate == today * MINUTES + candidate % MINUTES && d == Date(d.year, 2, 29);
    if IsLeap(d.year + 4) && t < candidate % MINUTES {
      LeapDayFound(fields, candidate, d.year + 4, t);
    } else if IsLeap(d.year + 4) {
      LeapDayFound(fields, candidate, d.year, t);
    } else {
      var first: nat :| candidate % MINUTES <= first < MINUTES && TimeMatches(fields, first);
      LeapDayFound(fields, candidate, d.year, first);
    }
  }

  lemma FarAway(d: Date)
    requires ValidDate(d)
    ensures DayNumber(d) + 1000 <= LastDay(d)
  {
    hide DaysBeforeYear, DaysBeforeMonth;
    WithinYear(d);
    YearsInOrder(d.year + 1, d.year + 4);
    MonthsFill(d.year + 4);
    MonthsInOrder(d.year + 4, 1, d.month);
  }

  /**** What a firing shows ****/

  // A matching minute is on a common day, or on 29 February.
  lemma FiringIsOnADay(fields: seq<string>, n: nat)
    requires |fields| == 5 && FieldsAccepted(fields) && DateMatches(fields, n)
    ensures CommonDay(fields) || (LeapDay(fields) && DateOf(n).month == 2 && DateOf(n).day == 29)
    ensures ValidDate(DateOf(n)) && DayNumber(DateOf(n)) == n
  {
    hide FieldMatches, DayNumber, DateOf, DayRule, CheckField;
    DateOfNumber(n);
    var d := DateOf(n);
    assert 0 <= Weekday(n) < 7;
    if !(d.month == 2 && d.day == 29) {
      assert d.day <= CommonDays(d.month);
    }
  }

  // The year of a 29 February inside the window.
  lemma LeapDayInWindow(d: Date, e: Date)
    requires ValidDate(d) && ValidDate(e) && e.month == 2 && e.day == 29 && DayNumber(d) <= DayNumber(e) <= LastDay(d)
    ensures d.month == 2 && d.day == 29 ==> e == d || IsLeap(d.year + 4)
    ensures (d.month < 2 || (d.month == 2 && d.day < 29)) ==>
              IsLeap(d.year) || IsLeap(d.year + 1) || IsLeap(d.year + 2) || IsLeap(d.year + 3)
    ensures d.month > 2 ==> IsLeap(d.year + 1) || IsLeap(d.year + 2) || IsLeap(d.year + 3) || IsLeap(d.year + 4)
  {
    hide DaysBeforeYear, DaysBeforeMonth;
    YearsApart(d, e);
    MonthsFill(d.year + 4);
    MonthsFill(d.year);
    if e.year == d.year + 4 && d.month <= 2 && !(d.month == 2 && d.day == 29) {
      MonthsInOrder(d.year + 4, d.month, 2);
    }
    if e.year == d.year && d.month > 2 {
      EarlierMonth(e, d);
    }
  }

  lemma YearsApart(d: Date, e: Date)
    requires ValidDate(d) && ValidDate(e) && DayNumber(d) <= DayNumber(e) <= LastDay(d)
    ensures d.year <= e.year <= d.year + 4
  {
    hide DaysBeforeYear, DaysBeforeMonth;
    if e.year < d.year {
      EarlierYear(e, d);
    }
    if e.year > d.year + 4 {
      WithinYear(e);
      YearsInOrder(d.year + 5, e.year);
      YearLength(d.year + 4);
      LastDayInYear(d);
    }
  }

  lemma LastDayInYear(d: Date)
    requires ValidDate(d)
    ensures LastDay(d) < DaysBeforeYear(d.year + 5)
  {
    hide DaysBeforeYear, DaysBeforeMonth;
    YearLength(d.year + 4);
    MonthsFill(d.year + 4);
    MonthsInOrder(d.year + 4, d.month, 13);
    if d.month == 2 {
      MonthsInOrder(d.year + 4, 3, 13);
    }
  }

  /**** The four years ****/

  lemma FiringInWindow(fields: seq<string>, candidate: nat, t: nat)
    requires |fields| == 5 && FieldsAccepted(fields) && candidate <= t < Limit(candidate) && Matches(t, fields) && !CommonDay(fields)
    ensures LeapDay(fields) && LeapDayAhead(fields, candidate)
  {
    hide CommonDay, FieldMatches, DayRule, DayNumber, DateOf, TimeMatches, LeapDay, CheckField, Limit, DateMatches, IsLeap;
    LimitIs(candidate);
    var d, e := DateOf(candidate / MINUTES), DateOf(t / MINUTES);
    FiringIsOnADay(fields, t / MINUTES);
    DaysBetween(candidate, t, LastDay(d));
    LeapDayInWindow(d, e);
    if d.month == 2 && d.day == 29 && e == d {
      assert t / MINUTES == candidate / MINUTES;
      assert candidate % MINUTES <= t % MINUTES < MINUTES && TimeMatches(fields, t % MINUTES);
    }
  }

  lemma DaysBetween(candidate: nat, t: nat, last: int)
    requires candidate <= t < last * MINUTES + candidate % MINUTES
    ensures candidate / MINUTES <= t / MINUTES <= last
  {
    assert t < (last + 1) * MINUTES;
  }

  // What the search finds, exactly: a schedule with a day that every year has is always found; one that
  // fires on 29 February alone is found when one with a matching time is still ahead in the four years.
  lemma FiresExactly(fields: seq<string>, candidate: nat)
    requires |fields| == 5 && FieldsAccepted(fields)
    ensures FiresIn(fields, candidate, Limit(candidate)) <==>
              CommonDay(fields) || (LeapDay(fields) && LeapDayAhead(fields, candidate))
  {
    hide CommonDay, LeapDay, LeapDayAhead, CheckField, Limit, Matches;
    if CommonDay(fields) {
      CommonDayIsFound(fields, candidate);
    } else {
      if LeapDay(fields) && LeapDayAhead(fields, candidate) {
        LeapDayIsFound(fields, candidate);
      }
      forall t: nat | candidate <= t < Limit(candidate) && Matches(t, fields)
        ensures LeapDay(fields) && LeapDayAhead(fields, candidate)
      {
        FiringInWindow(fields, candidate, t);
      }
    }
  }

  // Some date of the calendar satisfies the schedule's month and day rules.
  ghost predicate HasDate(fields: seq<string>)
    requires |fields| == 5
  {
    exists n: nat :: DateMatches(fields, n)
  }

  lemma DatesExactly(fields: seq<string>)
    requires |fields| == 5 && FieldsAccepted(fields)
    ensures HasDate(fields) <==> CommonDay(fields) || LeapDay(fields)
  {
    hide CommonDay, LeapDay, FieldMatches, DayRule, DayNumber, DateOf, CheckField;
    forall n: nat | DateMatches(fields, n) ensures CommonDay(fields) || LeapDay(fields) {
      FiringIsOnADay(fields, n);
    }
    if CommonDay(fields) {
      var d := CommonDayInYear(fields, 1);
      NumberOfDate(d);
      assert DateMatches(fields, DayNumber(d));
    } else if LeapDay(fields) {
      var d := Date(4, 2, 29);
      NumberOfDate(d);
      LeapRule(fields, DayNumber(d));
      assert LeapDay(fields) ==> FieldMatches(fields[3], 2, MONTH) by { LeapMonth(fields); }
      assert DateMatches(fields, DayNumber(d));
    }
  }

  lemma LeapMonth(fields: seq<string>)
    requires |fields| == 5 && LeapDay(fields)
    ensures FieldMatches(fields[3], 2, MONTH)
  {
  }

  // A year divisible by four that is no leap year.
  predicate Skipped(y: int) {
    y % 100 == 0 && y % 400 != 0
  }

  lemma LeapUnlessSkipped(y: int)
    ensures !Skipped(y) && y % 4 == 0 ==> IsLeap(y)
    ensures IsLeap(y) ==> y % 4 == 0
  {
  }

  lemma FourthYears(y: int)
    ensures (y + 1) % 4 == 0 || (y + 2) % 4 == 0 || (y + 3) % 4 == 0 || (y + 4) % 4 == 0
    ensures (y + 4) % 4 == y % 4
  {
  }

  lemma LeapDayWithoutSkip(fields: seq<string>, candidate: nat)
    requires |fields| == 5 && FieldsAccepted(fields)
    requires var y := DateOf(candidate / MINUTES).year; forall k :: y <= k <= y + 4 ==> !Skipped(k)
    ensures LeapDayAhead(fields, candidate)
  {
    hide FieldMatches, DateOf, CheckField, Skipped, IsLeap, TimeMatches, FieldsAccepted;
    DateOfNumber(candidate / MINUTES);
    var d := DateOf(candidate / MINUTES);
    LeapDayIsLeap(d);
    FourthYears(d.year);
    LeapUnlessSkipped(d.year);
    LeapUnlessSkipped(d.year + 1);
    LeapUnlessSkipped(d.year + 2);
    LeapUnlessSkipped(d.year + 3);
    LeapUnlessSkipped(d.year + 4);
  }

  lemma LeapDayIsLeap(d: Date)
    requires ValidDate(d)
    ensures d.month == 2 && d.day == 29 ==> IsLeap(d.year)
  {
  }

  // With no skipped leap year from the year of the first candidate to four years on, the search comes
  // back empty exactly when the schedule can never fire.
  lemma SearchIsComplete(schedule: string, seconds: nat)
    requires Schedule(schedule).Some?
    requires var y := DateOf(FirstCandidate(seconds) / MINUTES).year; forall k :: y <= k <= y + 4 ==> !Skipped(k)
    ensures var fields, first := FieldsOf(schedule), FirstCandidate(seconds);
            (forall t: nat :: first <= t < Limit(first) ==> !Matches(t, fields)) <==> !HasDate(fields)
  {
    hide Matches, Limit, HasDate, LeapDayAhead, CommonDay, LeapDay, Skipped, FieldsOf, FieldsAccepted, Schedule;
    var fields, first := FieldsOf(schedule), FirstCandidate(seconds);
    FiresExactly(fields, first);
    DatesExactly(fields);
    LeapDayWithoutSkip(fields, first);
  }

  /**** Where it is not ****/

  // A field that is one number.
  lemma OneNumber(value: string, actual: int, f: Field)
    requires (forall name :: name in f.names ==> |name| == 3) && |value| < 3 && Digits(value)
    requires Atoi(value).Some? && f.min <= Atoi(value).value <= f.max
    ensures CheckField(value, f) && (FieldMatches(value, actual, f) <==> actual == Atoi(value).value)
  {
    hide Parts.Find, Atoi, Parts.Split, Parts.Cut;
    SplitOfNumber(value);
    FindNoneOf(value, "/");
    FindNoneOf(value, "-");
    assert |Lower(value)| < 3;
    assert value[0] != '*' && Parts.Split(value, ',')[0] == value;
  }

  lemma NumbersRead()
    ensures Atoi("0") == Some(0) && Atoi("2") == Some(2) && Atoi("29") == Some(29)
  {
    hide Atoi;
    AtoiDigit("0");
    AtoiDigit("2");
    assert Atoi("29") == Some(29) by { TwentyNine(); }
  }

  lemma TwentyNine()
    ensures Atoi("29") == Some(29)
  {
    assert "29"[..1] == "2" && "2"[..0] == "";
    assert Value("") == 0;
    assert Value("2") == 2;
    assert Value("29") == 29;
  }

  const LEAP_DAY: seq<string> := ["0", "0", "29", "2", "*"]

  lemma DayTwentyNine(d: int)
    ensures CheckField("29", DAY_OF_MONTH) && (FieldMatches("29", d, DAY_OF_MONTH) <==> d == 29)
  {
    hide Atoi, CheckField, FieldMatches;
    NumbersRead();
    OneNumber("29", d, DAY_OF_MONTH);
  }

  lemma MonthTwo(m: int)
    ensures CheckField("2", MONTH) && (FieldMatches("2", m, MONTH) <==> m == 2)
  {
    hide Atoi, CheckField, FieldMatches;
    NumbersRead();
    OneNumber("2", m, MONTH);
  }

  lemma LeapDayFields()
    ensures FieldsAccepted(LEAP_DAY) && Words(LEAP_DAY)
    ensures forall d :: FieldMatches(LEAP_DAY[2], d, DAY_OF_MONTH) <==> d == 29
    ensures forall m :: FieldMatches(LEAP_DAY[3], m, MONTH) <==> m == 2
  {
    hide CheckField, FieldMatches, Word, Atoi, MINUTE, HOUR, DAY_OF_MONTH, MONTH, DAY_OF_WEEK;
    FieldBounds();
    SimpleField("0", MINUTE);
    SimpleField("0", HOUR);
    SimpleField("*", DAY_OF_WEEK);
    NumberWords();
    forall d ensures CheckField("29", DAY_OF_MONTH) && (FieldMatches("29", d, DAY_OF_MONTH) <==> d == 29) {
      DayTwentyNine(d);
    }
    forall m ensures CheckField("2", MONTH) && (FieldMatches("2", m, MONTH) <==> m == 2) {
      MonthTwo(m);
    }
    assert FieldMatches("29", 29, DAY_OF_MONTH) && FieldMatches("2", 2, MONTH);
  }

  lemma NumberWords()
    ensures Word("29") && Word("2")
  {
  }

  // It does name a date.
  lemma LeapDayHasDate()
    ensures HasDate(LEAP_DAY)
  {
    hide FieldMatches, CheckField, DayNumber, DateOf;
    LeapDayFields();
    var d := Date(4, 2, 29);
    NumberOfDate(d);
    assert DateMatches(LEAP_DAY, DayNumber(d));
  }

  // From 1 March 2096 midnight the four years hold no 29 February, 2100 being skipped: the search
  // comes back empty for a schedule that fires in 2104.
  lemma LeapDayIsMissed(seconds: nat)
    requires seconds == DayNumber(Date(2096, 3, 1)) * 86400
    ensures FieldsAccepted(LEAP_DAY) && HasDate(LEAP_DAY)
    ensures var first := FirstCandidate(seconds); !FiresIn(LEAP_DAY, first, Limit(first))
  {
    hide FieldMatches, CheckField, DayNumber, DateOf, Limit, FiresIn, HasDate, Matches, FieldsAccepted;
    LeapDayHasDate();
    LeapDayFields();
    var d := Date(2096, 3, 1);
    NumberOfDate(d);
    var first := FirstCandidate(seconds);
    assert first == DayNumber(d) * MINUTES + 1;
    assert first / MINUTES == DayNumber(d);
    NoCommonDay();
    FiresExactly(LEAP_DAY, first);
  }

  lemma NoCommonDay()
    ensures !CommonDay(LEAP_DAY)
  {
    hide FieldMatches, CheckField;
    LeapDayFields();
  }

  lemma SplitOfNumber(value: string)
    requires Digits(value)
    ensures Parts.Split(value, ',') == [value]
  {
    Parts.SplitOfFree(value, ',');
  }

  lemma FindNoneOf(value: string, sub: string)
    requires Digits(value) && sub in {"/", "-"}
    ensures CutAt(value, sub) == (value, None)
  {
    hide Parts.Find;
    forall i | 0 <= i <= |value| ensures !(sub <= value[i..]) {
      if i < |value| {
        assert value[i..][0] == value[i];
      }
    }
    Parts.FindNone(value, sub);
  }

  // A stepped star whose step only starts with a 1 leaves every day open once the weekday is open too,
  // though the field itself matches every day only when the step is 1.
  lemma SteppedDays(fields: seq<string>, step: string)
    requires |fields| == 5 && FieldsAccepted(fields) && IsUnrestricted(fields[4])
    requires fields[2] == "*/" + step && '/' !in step && ',' !in step && step != "" && step[0] == '1'
    ensures forall d, w :: DayRule(fields, d, w)
    ensures (forall d :: 1 <= d <= 31 ==> FieldMatches(fields[2], d, DAY_OF_MONTH)) <==> Atoi(step) == Some(1)
  {
    hide FieldMatches, CheckField, Atoi, MONTH, DAY_OF_WEEK;
    FieldsAreSensible();
    assert CheckField(fields[2], FIELDS[2]);
    UnrestrictedSteps(step, DAY_OF_MONTH);
  }
}
