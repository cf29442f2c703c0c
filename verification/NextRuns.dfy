// When a schedule next fires: the minute-by-minute search of NextRun in shared/validate/cron.go, in
// whole minutes since the start of year 1, UTC.
module NextRuns {
  import opened Wrappers
  import opened CronFields
  import opened CronSchedule
  import opened Calendar

  const MINUTES: nat := 1440

  // The switch of `matches` on a day of the month and a weekday.
  predicate DayRule(fields: seq<string>, day: int, weekday: int)
    requires |fields| == 5
  {
    var dom := FieldMatches(fields[2], day, DAY_OF_MONTH);
    var dow := WeekdayMatches(fields[4], weekday);
    match (!IsUnrestricted(fields[2]), !IsUnrestricted(fields[4]))
    case (true, true) => dom || dow
    case (true, false) => dom
    case (false, true) => dow
    case (false, false) => true
  }

  predicate WeekdayMatches(value: string, weekday: int) {
    FieldMatches(value, weekday, DAY_OF_WEEK) || (weekday == 0 && FieldMatches(value, 7, DAY_OF_WEEK))
  }

  predicate TimeMatches(fields: seq<string>, minute: nat)
    requires |fields| == 5
  {
    FieldMatches(fields[0], minute % 60, MINUTE) && FieldMatches(fields[1], minute / 60, HOUR)
  }

  predicate DateMatches(fields: seq<string>, n: nat)
    requires |fields| == 5
  {
    FieldMatches(fields[3], DateOf(n).month, MONTH) && DayRule(fields, DateOf(n).day, Weekday(n))
  }

  predicate Matches(at: nat, fields: seq<string>)
    requires |fields| == 5
  {
    TimeMatches(fields, at % MINUTES) && DateMatches(fields, at / MINUTES)
  }

  // AddDate(4, 0, 0): the same time four years on, 29 February becoming 1 March where there is none.
  function Limit(candidate: nat): int {
    var d := DateOf(candidate / MINUTES);
    DateOfNumber(candidate / MINUTES);
    DayNumber(Date(d.year + 4, d.month, d.day)) * MINUTES + candidate % MINUTES
  }

  function FirstCandidate(seconds: nat): (first: nat)
    ensures forall t: nat :: first <= t <==> seconds < 60 * t
  {
    seconds / 60 + 1
  }

  // The five fields a schedule is read as.
  function FieldsOf(schedule: string): (fields: seq<string>)
    requires Schedule(schedule).Some?
    ensures |fields| == 5 && FieldsAccepted(fields)
  {
    hide Schedule, Fields, CheckField;
    ScheduleIsIdempotent(schedule);
    Fields(Schedule(schedule).value)
  }

  // The least whole minute strictly after the given second that matches, within four years; None when
  // the schedule is refused or none matches.
  method NextRun(schedule: string, seconds: nat) returns (next: Option<nat>)
    ensures next.Some? ==>
              && Schedule(schedule).Some? && seconds < 60 * next.value && next.value < Limit(FirstCandidate(seconds))
              && Matches(next.value, FieldsOf(schedule))
              && forall t: nat :: seconds < 60 * t && t < next.value ==> !Matches(t, FieldsOf(schedule))
    ensures next.None? <==>
              Schedule(schedule).None? ||
              forall t: nat :: FirstCandidate(seconds) <= t < Limit(FirstCandidate(seconds)) ==> !Matches(t, FieldsOf(schedule))
  {
    hide *;
    var normalised := Schedule(schedule);
    if normalised.None? {
      return None;
    }
    var fields := FieldsOf(schedule);
    var candidate := FirstCandidate(seconds);
    var limit := Limit(candidate);
    while candidate < limit
      invariant FirstCandidate(seconds) <= candidate
      invariant forall t :: FirstCandidate(seconds) <= t < candidate ==> !Matches(t, fields)
    {
      if Matches(candidate, fields) {
        return Some(candidate);
      }
      candidate := candidate + 1;
    }
    return None;
  }
}
