// A whole cron schedule: checked, and brought to the one form the rest of the panel reads
// (shared/validate/cron.go).
module CronSchedule {
  import opened Wrappers
  import opened Numbers
  import opened Text
  import opened Parts
  import opened CronFields

  const MAX_SCHEDULE: nat := 100

  const FIELDS: seq<Field> := [MINUTE, HOUR, DAY_OF_MONTH, MONTH, DAY_OF_WEEK]

  const SHORTHANDS: map<string, string> := map[
    "@yearly" := "0 0 1 1 *",
    "@annually" := "0 0 1 1 *",
    "@monthly" := "0 0 1 * *",
    "@weekly" := "0 0 * * 0",
    "@daily" := "0 0 * * *",
    "@midnight" := "0 0 * * *",
    "@hourly" := "0 * * * *"]

  // strings.Fields.
  function Fields(s: string): seq<string>
    decreases |s|
  {
    var t := TrimLeft(s);
    if t == "" then [] else [WordFront(t)] + Fields(t[|WordFront(t)|..])
  }

  predicate Refused(c: char) {
    c == '\n' || c == '\r' || c == '\0' || c == '%'
  }

  predicate Plain(s: string) {
    forall i :: 0 <= i < |s| ==> !Refused(s[i])
  }

  predicate FieldsAccepted(fields: seq<string>) {
    |fields| == 5 && forall i :: 0 <= i < 5 ==> CheckField(fields[i], FIELDS[i])
  }

  // The normalised schedule; None when it is refused.
  function Schedule(expression: string): Option<string> {
    var trimmed := TrimSpace(expression);
    if trimmed == "" || Utf8Length(trimmed) > MAX_SCHEDULE || !Plain(trimmed) then None
    else if trimmed[0] == '@' then
      if Lower(trimmed) in SHORTHANDS then Some(SHORTHANDS[Lower(trimmed)]) else None
    else
      var fields := Fields(trimmed);
      if FieldsAccepted(fields) then Some(Join(fields, ' ')) else None
  }

  /**** Fields and Join ****/

  ghost predicate Word(s: string) {
    s != "" && forall i :: 0 <= i < |s| ==> !IsSpace(s[i])
  }

  ghost predicate Words(fields: seq<string>) {
    forall i :: 0 <= i < |fields| ==> Word(fields[i])
  }

  lemma WordFrontOf(w: string, rest: string)
    requires Word(w) && (rest == "" || IsSpace(rest[0]))
    ensures WordFront(w + rest) == w
    decreases |w|
  {
    hide IsSpace;
    if |w| > 1 {
      assert (w + rest)[1..] == w[1..] + rest;
      WordFrontOf(w[1..], rest);
    } else {
      assert (w + rest)[1..] == rest;
    }
  }

  lemma SpaceIsBlank()
    ensures IsSpace(' ') && Blank(" ") && Blank("")
  {
  }

  lemma TrimLeftWord(s: string)
    requires s != "" && !IsSpace(s[0])
    ensures TrimLeft(s) == s && TrimLeft(" " + s) == s
  {
    hide IsSpace, Blank;
    SpaceIsBlank();
    TrimLeftOf("", s);
    TrimLeftOf(" ", s);
    assert "" + s == s;
  }

  // The first word is the first field, with or without a space before it.
  lemma FieldsStep(w: string, rest: string)
    requires Word(w) && (rest == "" || IsSpace(rest[0]))
    ensures Fields(w + rest) == [w] + Fields(rest) && Fields(" " + (w + rest)) == [w] + Fields(rest)
  {
    hide IsSpace, TrimLeft, WordFront, Blank;
    var s := w + rest;
    assert s[0] == w[0];
    TrimLeftWord(s);
    WordFrontOf(w, rest);
    assert s[|w|..] == rest;
  }

  lemma {:induction false} FieldsOfJoin(fields: seq<string>)
    requires Words(fields) && fields != []
    ensures Fields(Join(fields, ' ')) == fields && Fields(" " + Join(fields, ' ')) == fields
    ensures Join(fields, ' ') != "" && Join(fields, ' ')[0] == fields[0][0]
  {
    hide IsSpace, Fields, Blank;
    var w := fields[0];
    assert Word(w);
    SpaceIsBlank();
    if |fields| == 1 {
      FieldsStep(w, "");
      assert w + "" == w;
      NoFields();
    } else {
      FieldsOfJoin(fields[1..]);
      var rest := " " + Join(fields[1..], ' ');
      assert Join(fields, ' ') == w + rest;
      FieldsStep(w, rest);
    }
  }

  lemma NoFields()
    ensures Fields("") == []
  {
  }

  lemma WordFrontIsWord(t: string)
    requires t != "" && !IsSpace(t[0])
    ensures Word(WordFront(t))
  {
  }

  lemma {:induction false} FieldsAreWords(s: string)
    ensures Words(Fields(s))
    decreases |s|
  {
    hide IsSpace, TrimLeft, WordFront, Word;
    var t := TrimLeft(s);
    if t != "" {
      WordFrontIsWord(t);
      FieldsAreWords(t[|WordFront(t)|..]);
    }
  }

  /**** Joining does not lengthen ****/

  lemma {:induction false} LengthOfConcat(a: string, b: string)
    ensures Utf8Length(a + b) == Utf8Length(a) + Utf8Length(b)
  {
    if a == "" {
      assert a + b == b;
    } else {
      assert (a + b)[1..] == a[1..] + b;
      LengthOfConcat(a[1..], b);
    }
  }

  lemma TrimLeftShorter(s: string)
    ensures Utf8Length(TrimLeft(s)) <= Utf8Length(s)
    ensures s != "" && IsSpace(s[0]) ==> Utf8Length(TrimLeft(s)) < Utf8Length(s)
  {
    hide IsSpace, TrimLeft, Utf8Length;
    var t := TrimLeft(s);
    TrimLeftDropsBlanks(s);
    var cut := s[..|s| - |t|];
    assert s == cut + t;
    LengthOfConcat(cut, t);
    if s != "" && IsSpace(s[0]) {
      BlankOrShorter(s);
      NotEmpty(cut);
    }
  }

  lemma NotEmpty(s: string)
    ensures s != "" ==> Utf8Length(s) >= 1
  {
  }

  lemma BlankOrShorter(s: string)
    requires s != "" && IsSpace(s[0])
    ensures |TrimLeft(s)| < |s|
  {
    hide IsSpace;
  }

  lemma JoinWord(w: string, tail: seq<string>)
    ensures Utf8Length(Join([w] + tail, ' ')) == Utf8Length(w) + if tail == [] then 0 else 1 + Utf8Length(Join(tail, ' '))
    ensures Plain(w) && Plain(Join(tail, ' ')) ==> Plain(Join([w] + tail, ' '))
  {
    hide Utf8Length, Refused;
    assert ([w] + tail)[1..] == tail;
    if tail != [] {
      LengthOfConcat(w, " " + Join(tail, ' '));
      LengthOfConcat(" ", Join(tail, ' '));
      OneSpace();
      assert Join([w] + tail, ' ') == w + (" " + Join(tail, ' '));
      PlainTogether(" ", Join(tail, ' '));
      PlainTogether(w, " " + Join(tail, ' '));
    }
  }

  lemma PlainTogether(a: string, b: string)
    ensures Plain(a) && Plain(b) ==> Plain(a + b)
  {
    hide Refused;
  }

  // What Fields keeps is no longer than what it was given, and has none of the characters refused.
  lemma {:induction false} FieldsShorten(s: string)
    ensures Utf8Length(Join(Fields(s), ' ')) <= Utf8Length(TrimLeft(s))
    ensures Plain(s) ==> Plain(Join(Fields(s), ' '))
    decreases |s|
  {
    hide IsSpace, TrimLeft, WordFront, Utf8Length, Plain, Join, Blank;
    var t := TrimLeft(s);
    if t == "" {
      NoLength();
    } else {
      var w := WordFront(t);
      var rest := t[|w|..];
      WordFrontIsWord(t);
      FieldsShorten(rest);
      assert t == w + rest;
      LengthOfConcat(w, rest);
      TrimLeftShorter(rest);
      TrimLeftDropsBlanks(s);
      PlainParts(s, t, w, rest);
      JoinWord(w, Fields(rest));
      NoFieldsLeft(rest);
    }
  }

  lemma NoLength()
    ensures Join([], ' ') == "" && Utf8Length("") == 0 && Plain("")
  {
  }

  lemma OneSpace()
    ensures Utf8Length(" ") == 1 && Plain(" ")
  {
    assert " "[1..] == "";
  }

  lemma NoFieldsLeft(rest: string)
    ensures Fields(rest) != [] ==> rest != ""
  {
    hide IsSpace, TrimLeft, WordFront;
    if rest == "" {
      NoFields();
    }
  }

  lemma PlainParts(s: string, t: string, w: string, rest: string)
    requires |t| <= |s| && t == s[|s| - |t|..] && t == w + rest
    ensures Plain(s) ==> Plain(w) && Plain(rest)
  {
    hide Refused;
    assert forall i :: 0 <= i < |t| ==> t[i] == s[|s| - |t| + i];
    assert forall i :: 0 <= i < |w| ==> w[i] == t[i];
    assert forall i :: 0 <= i < |rest| ==> rest[i] == t[|w| + i];
  }

  /**** Normalising ****/

  // A schedule already in its normal form.
  ghost predicate Normal(fields: seq<string>) {
    && Words(fields) && FieldsAccepted(fields) && fields[0][0] != '@'
    && Utf8Length(Join(fields, ' ')) <= MAX_SCHEDULE && Plain(Join(fields, ' '))
  }

  lemma JoinIsTrimmed(fields: seq<string>)
    requires Words(fields) && fields != []
    ensures TrimSpace(Join(fields, ' ')) == Join(fields, ' ')
  {
    hide IsSpace, TrimSpace, TrimLeft, TrimRight, Blank;
    var s := Join(fields, ' ');
    FieldsOfJoin(fields);
    LastOfWords(fields);
    assert Word(fields[0]);
    TrimmedAlready(s);
  }

  lemma {:induction false} LastOfWords(fields: seq<string>)
    requires Words(fields) && fields != []
    ensures var s := Join(fields, ' '); s != "" && !IsSpace(s[|s| - 1])
  {
    hide IsSpace;
    assert Word(fields[0]);
    if |fields| > 1 {
      LastOfWords(fields[1..]);
    }
  }

  lemma NormalIsKept(fields: seq<string>)
    requires Normal(fields)
    ensures Schedule(Join(fields, ' ')) == Some(Join(fields, ' '))
    ensures Fields(Join(fields, ' ')) == fields
  {
    hide IsSpace, TrimSpace, Fields, CheckField, Plain, SHORTHANDS, FIELDS, Lower, Utf8Length;
    JoinIsTrimmed(fields);
    FieldsOfJoin(fields);
  }

  lemma FiveWords(a: string, b: string, c: string, d: string, e: string)
    ensures Join([a, b, c, d, e], ' ') == a + " " + b + " " + c + " " + d + " " + e
  {
    var all := [a, b, c, d, e];
    assert all[1..] == [b, c, d, e];
    assert all[1..][1..] == [c, d, e];
    assert all[1..][1..][1..] == [d, e];
    assert all[1..][1..][1..][1..] == [e];
    assert Join([e], ' ') == e;
    assert Join([d, e], ' ') == d + " " + e;
    assert Join([c, d, e], ' ') == c + " " + d + " " + e;
    assert Join([b, c, d, e], ' ') == b + " " + c + " " + d + " " + e;
  }

  lemma NotCut(value: string, sub: string)
    requires |value| == 1 && |sub| == 1 && value != sub
    ensures CutAt(value, sub) == (value, None)
  {
    hide Find;
    FindNone(value, sub);
  }

  lemma AtoiDigit(value: string)
    requires |value| == 1 && '0' <= value[0] <= '9'
    ensures Atoi(value) == Some(DigitValue(value[0]))
  {
    assert value[..|value| - 1] == "";
    assert Value(value) == 10 * Value("") + DigitValue(value[0]);
    assert Value("") == 0;
    assert value[0] != '-' && value[0] != '+';
  }

  // "0", "1" and "*" are accepted where the shorthands use them.
  lemma SimpleField(value: string, f: Field)
    requires value == "*" || (value == "0" && f.min == 0) || (value == "1" && f.min <= 1 <= f.max)
    ensures CheckField(value, f) && Word(value)
  {
    hide Cut, Atoi, Split, Lower;
    SplitOfFree(value, ',');
    NotCut(value, "/");
    NotCut(value, "-");
    if value != "*" {
      AtoiDigit(value);
    }
    assert Split(value, ',') == [value];
  }

  lemma SimpleSchedule(a: string, b: string, c: string, d: string, e: string)
    requires a == "0" && b in {"0", "*"} && c in {"1", "*"} && d in {"1", "*"} && e in {"0", "*"}
    ensures Normal([a, b, c, d, e])
  {
    hide CheckField, Word, Utf8Length, Plain, Join, MINUTE, HOUR, DAY_OF_MONTH, MONTH, DAY_OF_WEEK;
    FieldBounds();
    SimpleField(a, MINUTE);
    SimpleField(b, HOUR);
    SimpleField(c, DAY_OF_MONTH);
    SimpleField(d, MONTH);
    SimpleField(e, DAY_OF_WEEK);
    FiveWords(a, b, c, d, e);
    NineCharacters(a, b, c, d, e);
  }

  lemma FieldBounds()
    ensures MINUTE.min == 0 && HOUR.min == 0 && DAY_OF_MONTH.min == 1 && MONTH.min == 1 && DAY_OF_WEEK.min == 0
    ensures DAY_OF_MONTH.max >= 1 && MONTH.max >= 1
  {
  }

  ghost predicate Short(s: string) {
    forall i :: 0 <= i < |s| ==> '0' <= s[i] <= '9' || s[i] == '*' || s[i] == ' '
  }

  lemma ShortPair(a: string, b: string)
    requires Short(a) && Short(b) && |b| == 1
    ensures Short(a + " " + b) && |a + " " + b| == |a| + 2
  {
  }

  lemma OneShort(a: string)
    requires a in {"0", "1", "*"}
    ensures Short(a) && |a| == 1
  {
  }

  lemma NineCharacters(a: string, b: string, c: string, d: string, e: string)
    requires a in {"0", "1", "*"} && b in {"0", "1", "*"} && c in {"0", "1", "*"} && d in {"0", "1", "*"} && e in {"0", "1", "*"}
    ensures var s := a + " " + b + " " + c + " " + d + " " + e; Utf8Length(s) == 9 && Plain(s)
  {
    hide Utf8Length, Plain, Short;
    OneShort(a);
    OneShort(b);
    OneShort(c);
    OneShort(d);
    OneShort(e);
    ShortPair(a, b);
    ShortPair(a + " " + b, c);
    ShortPair(a + " " + b + " " + c, d);
    ShortPair(a + " " + b + " " + c + " " + d, e);
    ShortLength(a + " " + b + " " + c + " " + d + " " + e);
  }

  lemma {:induction false} ShortLength(s: string)
    requires Short(s)
    ensures Utf8Length(s) == |s| && Plain(s)
  {
    if s != "" {
      ShortLength(s[1..]);
      assert s == [s[0]] + s[1..];
    }
  }

  lemma Expansions(name: string)
    requires name in SHORTHANDS
    ensures SHORTHANDS[name] in {"0 0 1 1 *", "0 0 1 * *", "0 0 * * 0", "0 0 * * *", "0 * * * *"}
  {
  }

  lemma ExpansionsJoined()
    ensures "0 0 1 1 *" == "0" + " " + "0" + " " + "1" + " " + "1" + " " + "*"
    ensures "0 0 1 * *" == "0" + " " + "0" + " " + "1" + " " + "*" + " " + "*"
    ensures "0 0 * * 0" == "0" + " " + "0" + " " + "*" + " " + "*" + " " + "0"
    ensures "0 0 * * *" == "0" + " " + "0" + " " + "*" + " " + "*" + " " + "*"
    ensures "0 * * * *" == "0" + " " + "*" + " " + "*" + " " + "*" + " " + "*"
  {
  }

  lemma NormalFive(a: string, b: string, c: string, d: string, e: string) returns (fields: seq<string>)
    requires a == "0" && b in {"0", "*"} && c in {"1", "*"} && d in {"1", "*"} && e in {"0", "*"}
    ensures Normal(fields) && Join(fields, ' ') == a + " " + b + " " + c + " " + d + " " + e
  {
    hide Normal, Join;
    fields := [a, b, c, d, e];
    SimpleSchedule(a, b, c, d, e);
    FiveWords(a, b, c, d, e);
  }

  // The expansion of a shorthand is in normal form.
  lemma ShorthandsAreNormal(name: string) returns (fields: seq<string>)
    requires name in SHORTHANDS
    ensures Normal(fields) && SHORTHANDS[name] == Join(fields, ' ')
  {
    hide *;
    Expansions(name);
    ExpansionsJoined();
    var expanded := SHORTHANDS[name];
    if expanded == "0 0 1 1 *" {
      fields := NormalFive("0", "0", "1", "1", "*");
    } else if expanded == "0 0 1 * *" {
      fields := NormalFive("0", "0", "1", "*", "*");
    } else if expanded == "0 0 * * 0" {
      fields := NormalFive("0", "0", "*", "*", "0");
    } else if expanded == "0 0 * * *" {
      fields := NormalFive("0", "0", "*", "*", "*");
    } else {
      fields := NormalFive("0", "*", "*", "*", "*");
    }
  }

  lemma AcceptedIsNormal(expression: string) returns (fields: seq<string>)
    requires Schedule(expression).Some?
    ensures Normal(fields) && Schedule(expression) == Some(Join(fields, ' '))
  {
    hide IsSpace, TrimSpace, TrimLeft, WordFront, CheckField, Utf8Length, SHORTHANDS, FIELDS, Plain, Lower;
    var trimmed := TrimSpace(expression);
    if trimmed[0] == '@' {
      fields := ShorthandsAreNormal(Lower(trimmed));
    } else {
      fields := Fields(trimmed);
      FieldsAreWords(trimmed);
      FieldsShorten(trimmed);
      StartsWithFirst(trimmed);
    }
  }

  lemma StartsWithFirst(trimmed: string)
    requires trimmed != "" && !IsSpace(trimmed[0])
    ensures TrimLeft(trimmed) == trimmed && Fields(trimmed) != [] && Fields(trimmed)[0] != "" && Fields(trimmed)[0][0] == trimmed[0]
  {
    hide IsSpace, Blank;
    TrimLeftWord(trimmed);
    WordFrontIsWord(trimmed);
  }

  // Normalising is done once: what it returned is accepted and returned unchanged, and is five
  // accepted fields with single spaces between.
  lemma ScheduleIsIdempotent(expression: string)
    requires Schedule(expression).Some?
    ensures Schedule(Schedule(expression).value) == Schedule(expression)
    ensures var fields := Fields(Schedule(expression).value);
            |fields| == 5 && FieldsAccepted(fields) && Schedule(expression).value == Join(fields, ' ')
  {
    hide Schedule, Fields, CheckField, Utf8Length, Plain;
    var fields := AcceptedIsNormal(expression);
    NormalIsKept(fields);
  }
}
