// What a schedule's day fields mean together, and what the shorthands stand for
// (shared/validate/cron.go).
module CronDays {
  import opened Wrappers
  import opened Bytes
  import opened Numbers
  import opened Text
  import opened CronFields
  import opened CronSchedule
  import opened Calendar
  import opened NextRuns
  import opened NextRunTheorems
  import Parts

  // How a schedule is read, and whether it fires at a minute.
  ghost predicate Stands(name: string, fields: seq<string>) {
    Schedule(name).Some? && FieldsOf(name) == fields
  }

  predicate Fires(schedule: string, at: nat) {
    Schedule(schedule).Some? && Matches(at, FieldsOf(schedule))
  }

  /**** The two day fields ****/

  lemma StarIsOpen(actual: int, f: Field)
    ensures IsUnrestricted("*") && (FieldMatches("*", actual, f) <==> f.min <= actual <= f.max)
  {
    hide Parts.Find, Parts.Split;
    Parts.SplitOfFree("*", ',');
    NotCut("*", "/");
    assert Parts.Split("*", ',') == ["*"];
    assert actual % 1 == 0 && (actual - f.min) % 1 == 0;
    assert RangeMatches(["*"][0], actual, f) <==> f.min <= actual <= f.max;
  }

  // With both days restricted a schedule fires when it would with either of them alone: the 13th or any
  // Friday, not Friday the 13th.
  lemma EitherDay(at: nat, fields: seq<string>)
    requires |fields| == 5 && !IsUnrestricted(fields[2]) && !IsUnrestricted(fields[4])
    ensures Matches(at, fields) <==> Matches(at, fields[2 := "*"]) || Matches(at, fields[4 := "*"])
  {
    hide FieldMatches, DateOf;
    assert IsUnrestricted("*") by { StarIsOpen(0, DAY_OF_MONTH); }
  }

  // With one of them open the other decides, and with both open every day will do.
  lemma OneDay(at: nat, fields: seq<string>)
    requires |fields| == 5 && (IsUnrestricted(fields[2]) || IsUnrestricted(fields[4]))
    ensures var d := DateOf(at / MINUTES);
            Matches(at, fields) <==>
              && FieldMatches(fields[0], at % 60, MINUTE) && FieldMatches(fields[1], at / 60 % 24, HOUR)
              && FieldMatches(fields[3], d.month, MONTH)
              && (IsUnrestricted(fields[2]) || FieldMatches(fields[2], d.day, DAY_OF_MONTH))
              && (IsUnrestricted(fields[4]) || WeekdayMatches(fields[4], Weekday(at / MINUTES)))
  {
    hide FieldMatches, DateOf, IsUnrestricted, WeekdayMatches;
    TimeOfDay(at);
  }

  lemma TimeOfDay(at: nat)
    ensures at % MINUTES % 60 == at % 60 && at % MINUTES / 60 == at / 60 % 24
  {
    var day, rest := at / MINUTES, at % MINUTES;
    var hour, minute := rest / 60, rest % 60;
    assert at == 60 * (24 * day + hour) + minute;
    DivModUnique(at, 60, 24 * day + hour, minute);
    DivModUnique(24 * day + hour, 24, day, hour);
  }

  /**** Fields of one digit ****/

  lemma Bounds()
    ensures MINUTE.min == 0 && MINUTE.max == 59 && MINUTE.names == map[] && HOUR.min == 0 && HOUR.max == 23 && HOUR.names == map[]
    ensures DAY_OF_MONTH.min == 1 && DAY_OF_MONTH.max == 31 && DAY_OF_MONTH.names == map[]
    ensures MONTH.min == 1 && MONTH.max == 12 && DAY_OF_WEEK.min == 0 && DAY_OF_WEEK.max == 7
    ensures forall name :: name in MONTH.names || name in DAY_OF_WEEK.names ==> |name| == 3
  {
  }

  lemma DigitField(value: string, actual: int, f: Field)
    requires |value| == 1 && '0' <= value[0] <= '9' && f.min <= DigitValue(value[0]) <= f.max
    requires forall name :: name in f.names ==> |name| == 3
    ensures CheckField(value, f) && (FieldMatches(value, actual, f) <==> actual == DigitValue(value[0]))
    ensures !IsUnrestricted(value)
  {
    hide Atoi, CheckField, FieldMatches;
    AtoiDigit(value);
    OneNumber(value, actual, f);
  }

  // Sunday may be written 0 or 7.
  lemma SundayTwice(weekday: int)
    requires 0 <= weekday < 7
    ensures WeekdayMatches("0", weekday) <==> weekday == 0
    ensures WeekdayMatches("7", weekday) <==> weekday == 0
  {
    hide FieldMatches, CheckField, DAY_OF_WEEK;
    Bounds();
    DigitField("0", weekday, DAY_OF_WEEK);
    DigitField("0", 7, DAY_OF_WEEK);
    DigitField("7", weekday, DAY_OF_WEEK);
    DigitField("7", 7, DAY_OF_WEEK);
  }

  /**** The 13th or any Friday ****/

  const THIRTEENTH_OR_FRIDAY: seq<string> := ["0", "0", "13", "*", "5"]

  lemma Thirteen()
    ensures Atoi("13") == Some(13)
  {
    assert "13"[..1] == "1" && "1"[..0] == "";
    assert Value("") == 0;
    assert Value("1") == 1;
    assert Value("13") == 13;
  }

  lemma WeekdayInBounds(n: int)
    ensures 0 <= Weekday(n) < 7
  {
  }

  lemma ThirteenthMatches(at: nat)
    ensures Matches(at, THIRTEENTH_OR_FRIDAY) <==>
              at % MINUTES == 0 && (DateOf(at / MINUTES).day == 13 || Weekday(at / MINUTES) == 5)
    ensures FieldsAccepted(THIRTEENTH_OR_FRIDAY)
  {
    hide FieldMatches, CheckField, DateOf, MINUTE, HOUR, DAY_OF_MONTH, MONTH, DAY_OF_WEEK, Atoi, Weekday;
    var fields, n := THIRTEENTH_OR_FRIDAY, at / MINUTES;
    Bounds();
    DateOfNumber(n);
    WeekdayInBounds(n);
    DigitField("0", at % MINUTES % 60, MINUTE);
    DigitField("0", at % MINUTES / 60, HOUR);
    StarIsOpen(DateOf(n).month, MONTH);
    Thirteen();
    assert Digits("13") && |"13"| == 2;
    OneNumber("13", DateOf(n).day, DAY_OF_MONTH);
    DigitField("5", Weekday(n), DAY_OF_WEEK);
    DigitField("5", 7, DAY_OF_WEEK);
    SimpleField("*", MONTH);
  }

  lemma ThirteenthSchedule()
    ensures Stands("0 0 13 * 5", THIRTEENTH_OR_FRIDAY)
  {
    hide FieldsAccepted, Fields, Utf8Length, Schedule, Parts.Join, Matches;
    ThirteenthMatches(0);
    FiveWords("0", "0", "13", "*", "5");
    var text := "0 0 13 * 5";
    assert text == "0" + " " + "0" + " " + "13" + " " + "*" + " " + "5";
    ThirteenthWords();
    ShortLength(text);
    NormalIsKept(THIRTEENTH_OR_FRIDAY);
  }

  lemma ThirteenthWords()
    ensures Words(THIRTEENTH_OR_FRIDAY) && Short("0 0 13 * 5")
  {
  }

  // From Thursday, 9 January 2025, that is Friday the 10th and not Monday the 13th.
  lemma FridayComesFirst(seconds: nat)
    requires seconds == DayNumber(Date(2025, 1, 9)) * 86400
    ensures var friday := DayNumber(Date(2025, 1, 10)) * MINUTES;
            && seconds < 60 * friday && Fires("0 0 13 * 5", friday)
            && forall t: nat :: seconds < 60 * t && t < friday ==> !Fires("0 0 13 * 5", t)
  {
    hide Matches, DateOf, Schedule, FieldsOf;
    var d, e := Date(2025, 1, 9), Date(2025, 1, 10);
    ThirteenthSchedule();
    NumberOfDate(d);
    NumberOfDate(e);
    ThirteenthMatches(DayNumber(e) * MINUTES);
    forall t: nat | seconds < 60 * t && t < DayNumber(e) * MINUTES ensures !Fires("0 0 13 * 5", t) {
      ThirteenthMatches(t);
    }
  }

  /**** The shorthands ****/

  // A field that is a star or one digit, and what it asks of a value within the bounds.
  predicate Simple(value: string, f: Field) {
    value == "*" || (|value| == 1 && '0' <= value[0] <= '9' && f.min <= DigitValue(value[0]) <= f.max)
  }

  predicate Asks(value: string, actual: int)
    requires value != ""
  {
    value == "*" || ('0' <= value[0] <= '9' && actual == DigitValue(value[0]))
  }

  lemma SimpleAsks(value: string, actual: int, f: Field)
    requires Simple(value, f) && f.min <= actual <= f.max && forall name :: name in f.names ==> |name| == 3
    ensures FieldMatches(value, actual, f) <==> Asks(value, actual)
    ensures IsUnrestricted(value) <==> value == "*"
  {
    hide FieldMatches, CheckField, DigitValue;
    if value == "*" {
      StarIsOpen(actual, f);
    } else {
      DigitField(value, actual, f);
    }
  }

  lemma SimpleFires(at: nat, fields: seq<string>)
    requires |fields| == 5 && (fields[2] == "*" || fields[4] == "*") && fields[4] != "7"
    requires Simple(fields[0], MINUTE) && Simple(fields[1], HOUR) && Simple(fields[2], DAY_OF_MONTH)
    requires Simple(fields[3], MONTH) && Simple(fields[4], DAY_OF_WEEK)
    ensures var d := DateOf(at / MINUTES);
            Matches(at, fields) <==>
              && Asks(fields[0], at % 60) && Asks(fields[1], at / 60 % 24) && Asks(fields[2], d.day) && Asks(fields[3], d.month)
              && Asks(fields[4], Weekday(at / MINUTES))
  {
    hide FieldMatches, DateOf, Matches, Weekday, MINUTE, HOUR, DAY_OF_MONTH, MONTH, DAY_OF_WEEK, IsUnrestricted, DigitValue;
    var n := at / MINUTES;
    Bounds();
    DateOfNumber(n);
    WeekdayInBounds(n);
    SimpleAsks(fields[0], at % 60, MINUTE);
    SimpleAsks(fields[1], at / 60 % 24, HOUR);
    SimpleAsks(fields[2], DateOf(n).day, DAY_OF_MONTH);
    SimpleAsks(fields[3], DateOf(n).month, MONTH);
    SimpleAsks(fields[4], Weekday(n), DAY_OF_WEEK);
    SimpleAsks(fields[4], 7, DAY_OF_WEEK);
    NotSeven(fields[4]);
    OneDay(at, fields);
  }

  lemma NotSeven(value: string)
    requires Simple(value, DAY_OF_WEEK) && value != "7"
    ensures value != "*" ==> !Asks(value, 7)
  {
    assert value != "*" ==> value == [value[0]];
  }

  ghost predicate SmallLetters(name: string) {
    name != "" && name[0] == '@' && (forall i :: 1 <= i < |name| ==> 'a' <= name[i] <= 'z') && 2 <= |name| <= MAX_SCHEDULE
  }

  lemma {:induction false} LettersLength(s: string)
    requires forall i :: 0 <= i < |s| ==> s[i] < '\U{80}'
    ensures Utf8Length(s) == |s|
  {
    if s != "" {
      LettersLength(s[1..]);
    }
  }

  // A shorthand is read as the fields it expands to.
  lemma ShorthandFields(name: string, fields: seq<string>)
    requires SmallLetters(name) && name in SHORTHANDS && SHORTHANDS[name] == Parts.Join(fields, ' ') && Normal(fields)
    ensures Schedule(name).Some? && FieldsOf(name) == fields
  {
    hide SHORTHANDS, Fields, Normal, IsSpace, TrimSpace, Utf8Length, Parts.Join;
    assert !IsSpace('@') && !IsSpace(name[|name| - 1]) by { LettersAreNoSpace(); }
    TrimmedAlready(name);
    LettersLength(name);
    assert Lower(name) == name;
    NormalIsKept(fields);
  }

  lemma LettersAreNoSpace()
    ensures !IsSpace('@') && forall c: char :: 'a' <= c <= 'z' ==> !IsSpace(c)
  {
  }

  lemma ShorthandNames()
    ensures SmallLetters("@yearly") && SmallLetters("@annually") && SmallLetters("@monthly") && SmallLetters("@weekly")
    ensures SmallLetters("@daily") && SmallLetters("@midnight") && SmallLetters("@hourly")
  {
  }

  lemma ShorthandTable()
    ensures "@yearly" in SHORTHANDS && SHORTHANDS["@yearly"] == "0 0 1 1 *"
    ensures "@annually" in SHORTHANDS && SHORTHANDS["@annually"] == "0 0 1 1 *"
    ensures "@monthly" in SHORTHANDS && SHORTHANDS["@monthly"] == "0 0 1 * *"
    ensures "@weekly" in SHORTHANDS && SHORTHANDS["@weekly"] == "0 0 * * 0"
    ensures "@daily" in SHORTHANDS && SHORTHANDS["@daily"] == "0 0 * * *"
    ensures "@midnight" in SHORTHANDS && SHORTHANDS["@midnight"] == "0 0 * * *"
    ensures "@hourly" in SHORTHANDS && SHORTHANDS["@hourly"] == "0 * * * *"
  {
    assert "@yearly"[1] == 'y' && "@annually"[1] == 'a' && "@monthly"[2] == 'o' && "@weekly"[1] == 'w';
    assert "@daily"[1] == 'd' && "@midnight"[2] == 'i' && "@hourly"[1] == 'h' && "@monthly"[1] == 'm' && "@midnight"[1] == 'm';
  }

  lemma ShorthandsStand()
    ensures Stands("@yearly", ["0", "0", "1", "1", "*"]) && Stands("@annually", ["0", "0", "1", "1", "*"])
    ensures Stands("@monthly", ["0", "0", "1", "*", "*"]) && Stands("@weekly", ["0", "0", "*", "*", "0"])
    ensures Stands("@daily", ["0", "0", "*", "*", "*"]) && Stands("@midnight", ["0", "0", "*", "*", "*"])
    ensures Stands("@hourly", ["0", "*", "*", "*", "*"])
  {
    hide *;
    ShorthandNames();
    ShorthandTable();
    ExpansionsJoined();
    ShorthandStands("@yearly", "0", "0", "1", "1", "*");
    ShorthandStands("@annually", "0", "0", "1", "1", "*");
    ShorthandStands("@monthly", "0", "0", "1", "*", "*");
    ShorthandStands("@weekly", "0", "0", "*", "*", "0");
    ShorthandStands("@daily", "0", "0", "*", "*", "*");
    ShorthandStands("@midnight", "0", "0", "*", "*", "*");
    ShorthandStands("@hourly", "0", "*", "*", "*", "*");
  }

  lemma ShorthandStands(name: string, a: string, b: string, c: string, d: string, e: string)
    requires SmallLetters(name) && a == "0" && b in {"0", "*"} && c in {"1", "*"} && d in {"1", "*"} && e in {"0", "*"}
    requires name in SHORTHANDS && SHORTHANDS[name] == a + " " + b + " " + c + " " + d + " " + e
    ensures Stands(name, [a, b, c, d, e])
  {
    hide Normal, Parts.Join, SHORTHANDS, Schedule;
    var fields := NormalFive(a, b, c, d, e);
    SimpleSchedule(a, b, c, d, e);
    FiveWords(a, b, c, d, e);
    ShorthandFields(name, [a, b, c, d, e]);
  }

  lemma FiveShapes(at: nat)
    ensures var d, midnight := DateOf(at / MINUTES), at % MINUTES == 0;
            && (Matches(at, ["0", "0", "1", "1", "*"]) <==> midnight && d.day == 1 && d.month == 1)
            && (Matches(at, ["0", "0", "1", "*", "*"]) <==> midnight && d.day == 1)
            && (Matches(at, ["0", "0", "*", "*", "0"]) <==> midnight && Weekday(at / MINUTES) == 0)
            && (Matches(at, ["0", "0", "*", "*", "*"]) <==> midnight)
            && (Matches(at, ["0", "*", "*", "*", "*"]) <==> at % 60 == 0)
  {
    hide Matches, DateOf, Weekday, MINUTE, HOUR, DAY_OF_MONTH, MONTH, DAY_OF_WEEK;
    Bounds();
    TimeOfDay(at);
    SimpleFires(at, ["0", "0", "1", "1", "*"]);
    SimpleFires(at, ["0", "0", "1", "*", "*"]);
    SimpleFires(at, ["0", "0", "*", "*", "0"]);
    SimpleFires(at, ["0", "0", "*", "*", "*"]);
    SimpleFires(at, ["0", "*", "*", "*", "*"]);
  }

  // What each shorthand stands for: the first minute of the year, the month, the week, the day, the hour.
  lemma ShorthandsMean(at: nat)
    ensures var d, midnight := DateOf(at / MINUTES), at % MINUTES == 0;
            && (Fires("@yearly", at) <==> midnight && d.day == 1 && d.month == 1)
            && (Fires("@annually", at) <==> midnight && d.day == 1 && d.month == 1)
            && (Fires("@monthly", at) <==> midnight && d.day == 1)
            && (Fires("@weekly", at) <==> midnight && Weekday(at / MINUTES) == 0)
            && (Fires("@daily", at) <==> midnight)
            && (Fires("@midnight", at) <==> midnight)
            && (Fires("@hourly", at) <==> at % 60 == 0)
  {
    hide Matches, DateOf, Weekday, FieldsOf, Schedule;
    ShorthandsStand();
    FiveShapes(at);
  }
}
