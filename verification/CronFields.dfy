// One field of a cron schedule: what is accepted and what it matches (shared/validate/cron.go).
module CronFields {
  import opened Wrappers
  import opened Numbers
  import opened Parts

  // A position in a schedule; `names` are its aliases in lower case.
  datatype Field = Field(min: nat, max: nat, names: map<string, nat>)

  const MINUTE: Field := Field(0, 59, map[])
  const HOUR: Field := Field(0, 23, map[])
  const DAY_OF_MONTH: Field := Field(1, 31, map[])
  const MONTH: Field := Field(1, 12, map["jan" := 1, "feb" := 2, "mar" := 3, "apr" := 4, "may" := 5, "jun" := 6,
                                         "jul" := 7, "aug" := 8, "sep" := 9, "oct" := 10, "nov" := 11, "dec" := 12])
  const DAY_OF_WEEK: Field := Field(0, 7, map["sun" := 0, "mon" := 1, "tue" := 2, "wed" := 3, "thu" := 4, "fri" := 5, "sat" := 6])

  // Names stand for values of their field.
  ghost predicate Sensible(f: Field) {
    f.min <= f.max && forall name :: name in f.names ==> f.min <= f.names[name] <= f.max
  }

  // unicode.ToLower where it gives an ASCII letter; other characters stay as they are.
  function LowerOf(c: char): char {
    if 'A' <= c <= 'Z' then (c as int + 32) as char
    else if c == '\U{130}' then 'i'
    else if c == '\U{212a}' then 'k'
    else c
  }

  function Lower(s: string): string {
    seq(|s|, i requires 0 <= i < |s| => LowerOf(s[i]))
  }

  const MAX_INT64: int := 0x7FFF_FFFF_FFFF_FFFF

  // strconv.Atoi.
  function Atoi(s: string): Option<int> {
    var negative := s != "" && s[0] == '-';
    var digits := if negative || (s != "" && s[0] == '+') then s[1..] else s;
    if !Digits(digits) then None
    else
      var n := if negative then -Value(digits) else Value(digits);
      if -MAX_INT64 - 1 <= n <= MAX_INT64 then Some(n) else None
  }

  /**** Accepting ****/

  // resolve: a name, or a number within the field's bounds.
  function Resolve(value: string, f: Field): Option<int> {
    if Lower(value) in f.names then Some(f.names[Lower(value)])
    else
      var n := Atoi(value);
      if n.None? || n.value < f.min || n.value > f.max then None else n
  }

  predicate FieldValue(value: string, f: Field) {
    value != "" && (Lower(value) in f.names || (Atoi(value).Some? && f.min <= Atoi(value).value <= f.max))
  }

  // What stands before and after the first `sub`, the second None without one.
  function CutAt(s: string, sub: string): (string, Option<string>) {
    var cut := Cut(s, sub);
    if cut.None? then (s, None) else (cut.value.0, Some(cut.value.1))
  }

  predicate CheckStep(step: Option<string>, f: Field) {
    step.Some? ==> Atoi(step.value).Some? && 1 <= Atoi(step.value).value <= f.max
  }

  predicate CheckRange(part: string, f: Field) {
    var (body, step) := CutAt(part, "/");
    var (from, to) := CutAt(body, "-");
    && CheckStep(step, f)
    && (body == "*" ||
        (FieldValue(from, f) &&
         (to.Some? ==>
            && FieldValue(to.value, f)
            && (Resolve(from, f).Some? && Resolve(to.value, f).Some? ==> Resolve(from, f).value <= Resolve(to.value, f).value))))
  }

  predicate CheckField(value: string, f: Field) {
    value != "" && forall i :: 0 <= i < |Split(value, ',')| ==> CheckRange(Split(value, ',')[i], f)
  }

  /**** Matching ****/

  predicate RangeMatches(part: string, actual: int, f: Field) {
    var (body, stepText) := CutAt(part, "/");
    var step := if stepText.None? then Some(1) else Atoi(stepText.value);
    if step.None? || step.value < 1 then false
    else if body == "*" then f.min <= actual <= f.max && (actual - f.min) % step.value == 0
    else
      var (from, to) := CutAt(body, "-");
      var start := Resolve(from, f);
      var end := if to.Some? then Resolve(to.value, f) else start;
      start.Some? && end.Some? && start.value <= actual <= end.value && (actual - start.value) % step.value == 0
  }

  predicate FieldMatches(value: string, actual: int, f: Field) {
    exists i :: 0 <= i < |Split(value, ',')| && RangeMatches(Split(value, ',')[i], actual, f)
  }

  method FieldMatchesOne(value: string, actual: int, f: Field) returns (found: bool)
    ensures found <==> FieldMatches(value, actual, f)
  {
    hide RangeMatches, Split;
    var parts := Split(value, ',');
    for k := 0 to |parts|
      invariant forall i :: 0 <= i < k ==> !RangeMatches(parts[i], actual, f)
    {
      if RangeMatches(parts[k], actual, f) {
        return true;
      }
    }
    return false;
  }

  predicate IsUnrestricted(value: string) {
    value == "*" || "*/1" <= value
  }

  /**** Every accepted field matches something ****/

  lemma ResolvedInRange(value: string, f: Field)
    requires Sensible(f) && FieldValue(value, f)
    ensures Resolve(value, f).Some? && f.min <= Resolve(value, f).value <= f.max
  {
    hide Lower, Atoi;
  }

  // The value an accepted range starts at.
  lemma RangeStarts(part: string, f: Field) returns (actual: int)
    requires Sensible(f) && CheckRange(part, f)
    ensures f.min <= actual <= f.max && RangeMatches(part, actual, f)
  {
    hide Atoi, Lower, Cut, FieldValue;
    var (body, step) := CutAt(part, "/");
    var (from, to) := CutAt(body, "-");
    if body == "*" {
      actual := f.min;
    } else {
      ResolvedInRange(from, f);
      if to.Some? {
        ResolvedInRange(to.value, f);
      }
      actual := Resolve(from, f).value;
    }
  }

  lemma EveryFieldMatches(value: string, f: Field)
    requires Sensible(f) && CheckField(value, f)
    ensures exists actual :: f.min <= actual <= f.max && FieldMatches(value, actual, f)
  {
    hide Split, CheckRange, RangeMatches;
    var actual := RangeStarts(Split(value, ',')[0], f);
    assert FieldMatches(value, actual, f);
  }

  // A value a field matches lies within the field's bounds.
  lemma MatchedInRange(value: string, actual: int, f: Field)
    requires Sensible(f) && CheckField(value, f) && FieldMatches(value, actual, f)
    ensures f.min <= actual <= f.max
  {
    hide Split, Atoi, Lower, Cut;
    var i :| 0 <= i < |Split(value, ',')| && RangeMatches(Split(value, ',')[i], actual, f);
    assert CheckRange(Split(value, ',')[i], f);
    RangeWithin(Split(value, ',')[i], actual, f);
  }

  lemma RangeWithin(part: string, actual: int, f: Field)
    requires Sensible(f) && CheckRange(part, f) && RangeMatches(part, actual, f)
    ensures f.min <= actual <= f.max
  {
    hide Atoi, Lower, Cut, FieldValue;
    var (body, step) := CutAt(part, "/");
    if body != "*" {
      var (from, to) := CutAt(body, "-");
      ResolvedInRange(from, f);
      if to.Some? {
        ResolvedInRange(to.value, f);
      }
    }
  }

  lemma FieldsAreSensible()
    ensures Sensible(MINUTE) && Sensible(HOUR) && Sensible(DAY_OF_MONTH) && Sensible(MONTH) && Sensible(DAY_OF_WEEK)
  {
  }

  /**** What "unrestricted" takes in ****/

  ghost predicate MatchesEverything(value: string, f: Field) {
    forall actual :: f.min <= actual <= f.max ==> FieldMatches(value, actual, f)
  }

  lemma StepOf(step: string)
    requires '/' !in step
    ensures CutAt("*/" + step, "/") == ("*", Some(step))
  {
    hide Find;
    var part := "*/" + step;
    assert part[0] == '*' && part[1] == '/';
    assert part[1..][0] == '/' && part[0..][0] == '*';
    FindAt(part, "/", 1);
    assert part[..1] == "*" && part[2..] == step;
  }

  // Every value, one at a time: a star, or a range from the first value to the last.
  predicate Everything(part: string, f: Field) {
    var (body, stepText) := CutAt(part, "/");
    var (from, to) := CutAt(body, "-");
    && (stepText.None? || Atoi(stepText.value) == Some(1))
    && (body == "*" || (to.Some? && Resolve(from, f) == Some(f.min) && Resolve(to.value, f) == Some(f.max)))
  }

  // What a field of one part has to be to match everything, whatever it counts as.
  lemma OnePartMatchesEverything(part: string, f: Field)
    requires Sensible(f) && f.min < f.max && ',' !in part && CheckField(part, f)
    ensures MatchesEverything(part, f) <==> Everything(part, f)
  {
    hide Atoi, Cut, Lower, Resolve, FieldValue;
    SplitOfFree(part, ',');
    assert Split(part, ',') == [part] && CheckRange([part][0], f);
    forall actual ensures FieldMatches(part, actual, f) <==> RangeMatches(part, actual, f) {
      assert RangeMatches([part][0], actual, f) <==> RangeMatches(part, actual, f);
    }
    var (body, stepText) := CutAt(part, "/");
    var (from, to) := CutAt(body, "-");
    if body != "*" {
      ResolvedInRange(from, f);
      if to.Some? {
        ResolvedInRange(to.value, f);
      }
    }
    if stepText.Some? && Atoi(stepText.value) != Some(1) {
      var n := Atoi(stepText.value).value;
      assert (f.min + 1 - f.min) % n == 1;
      assert !(RangeMatches(part, f.min, f) && RangeMatches(part, f.min + 1, f));
      assert !(FieldMatches(part, f.min, f) && FieldMatches(part, f.min + 1, f));
    } else if !Everything(part, f) {
      assert !(RangeMatches(part, f.min, f) && RangeMatches(part, f.max, f));
      assert !(FieldMatches(part, f.min, f) && FieldMatches(part, f.max, f));
    }
  }

  // A list matches what one of its parts does, and counts as unrestricted by its first part alone.
  lemma UnrestrictedLists(part: string, rest: string, f: Field)
    requires ',' !in part
    ensures IsUnrestricted(part + "," + rest) <==> "*/1" <= part
    ensures forall actual :: FieldMatches(part + "," + rest, actual, f)
                        <==> RangeMatches(part, actual, f) || FieldMatches(rest, actual, f)
    ensures Everything(part, f) ==> MatchesEverything(part + "," + rest, f)
  {
    hide RangeMatches, Split, Everything;
    var value := part + "," + rest;
    SplitAtSeparator(part, rest, ',');
    FirstPartPrefix(part, rest);
    var parts := Split(rest, ',');
    assert Split(value, ',') == [part] + parts;
    forall actual ensures FieldMatches(value, actual, f) <==> RangeMatches(part, actual, f) || FieldMatches(rest, actual, f) {
      EitherOf(part, parts, actual, f);
    }
    if Everything(part, f) {
      forall actual | f.min <= actual <= f.max ensures FieldMatches(value, actual, f) {
        EverythingMatches(part, actual, f);
      }
    }
  }

  // The step of an accepted part, and the last value of its range.
  function StepOfPart(part: string): int {
    var step := CutAt(part, "/").1;
    if step.None? then 1 else if Atoi(step.value).Some? then Atoi(step.value).value else 0
  }

  function LastOfPart(part: string, f: Field): int {
    var body := CutAt(part, "/").0;
    var (from, to) := CutAt(body, "-");
    var end := Resolve(if to.Some? then to.value else from, f);
    if body == "*" || end.None? then f.max else end.value
  }

  // Where a list could go on from one of its parts: at the end of a range without a step, and at every
  // value of a stepped one.
  predicate Leaves(part: string, v: int, f: Field) {
    RangeMatches(part, v, f) && v < f.max && (StepOfPart(part) != 1 || v == LastOfPart(part, f))
  }

  ghost predicate NoGap(value: string, f: Field) {
    var parts := Split(value, ',');
    forall i, v :: 0 <= i < |parts| && Leaves(parts[i], v, f) ==> FieldMatches(value, v + 1, f)
  }

  // A list matches everything exactly when it matches the first value and, wherever one of its parts
  // leaves off, the next.
  lemma ListMatchesEverything(value: string, f: Field)
    requires Sensible(f) && CheckField(value, f)
    ensures MatchesEverything(value, f) <==> FieldMatches(value, f.min, f) && NoGap(value, f)
  {
    hide Split, CheckRange, RangeMatches, StepOfPart, LastOfPart;
    var parts := Split(value, ',');
    if MatchesEverything(value, f) {
      forall i, v | 0 <= i < |parts| && Leaves(parts[i], v, f) ensures FieldMatches(value, v + 1, f) {
        assert CheckRange(parts[i], f);
        RangeWithin(parts[i], v, f);
      }
    }
    if FieldMatches(value, f.min, f) && NoGap(value, f) {
      forall actual | f.min <= actual <= f.max ensures FieldMatches(value, actual, f) {
        MatchesUpTo(value, actual, f);
      }
    }
  }

  lemma {:induction false} MatchesUpTo(value: string, actual: int, f: Field)
    requires Sensible(f) && CheckField(value, f) && f.min <= actual <= f.max && FieldMatches(value, f.min, f)
    requires NoGap(value, f)
    ensures FieldMatches(value, actual, f)
    decreases actual - f.min
  {
    hide Split, CheckRange, RangeMatches, StepOfPart, LastOfPart;
    if f.min < actual {
      MatchesUpTo(value, actual - 1, f);
      var parts := Split(value, ',');
      var i :| 0 <= i < |parts| && RangeMatches(parts[i], actual - 1, f);
      assert CheckRange(parts[i], f);
      if !Leaves(parts[i], actual - 1, f) {
        GoesOn(parts[i], actual - 1, f);
      }
    }
  }

  lemma GoesOn(part: string, v: int, f: Field)
    requires CheckRange(part, f) && RangeMatches(part, v, f) && v < f.max && !Leaves(part, v, f)
    ensures RangeMatches(part, v + 1, f)
  {
    hide Atoi, Cut, Resolve;
  }

  lemma FirstPartPrefix(part: string, rest: string)
    requires ',' !in part
    ensures IsUnrestricted(part + "," + rest) <==> "*/1" <= part
  {
    var value := part + "," + rest;
    assert value[|part|] == ',';
    assert "*/1" <= part ==> "*/1" <= value;
    if "*/1" <= value {
      assert value[0] == '*' && value[1] == '/' && value[2] == '1';
      assert |part| >= 3 && part == value[..|part|];
    }
  }

  lemma EitherOf(part: string, parts: seq<string>, actual: int, f: Field)
    ensures (exists i :: 0 <= i < |[part] + parts| && RangeMatches(([part] + parts)[i], actual, f))
       <==> RangeMatches(part, actual, f) || exists i :: 0 <= i < |parts| && RangeMatches(parts[i], actual, f)
  {
    hide RangeMatches;
    var all := [part] + parts;
    assert all[0] == part;
    if i :| 0 <= i < |parts| && RangeMatches(parts[i], actual, f) {
      assert all[i + 1] == parts[i];
    }
  }

  lemma EverythingMatches(part: string, actual: int, f: Field)
    requires Everything(part, f) && f.min <= actual <= f.max
    ensures RangeMatches(part, actual, f)
  {
    hide Atoi, Cut, Resolve;
  }

  // A field that is one stepped star counts as unrestricted when the step starts with a 1, and matches
  // everything when the step is 1: so exactly the steps from 10 to 19 and the like are taken for what
  // they are not.
  lemma UnrestrictedSteps(step: string, f: Field)
    requires Sensible(f) && f.min < f.max && '/' !in step && ',' !in step && CheckField("*/" + step, f)
    ensures IsUnrestricted("*/" + step) <==> step != "" && step[0] == '1'
    ensures MatchesEverything("*/" + step, f) <==> Atoi(step) == Some(1)
  {
    hide Atoi, Cut, Lower, Resolve, CheckField, MatchesEverything;
    StepOf(step);
    var value := "*/" + step;
    assert value[0] == '*' && value[1] == '/' && (step != "" ==> value[2] == step[0]);
    assert "*/1" <= value ==> value[2] == '1';
    OnePartMatchesEverything(value, f);
  }
}
