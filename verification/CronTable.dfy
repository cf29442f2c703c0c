// What cron itself reads from the account's crontab: the lines agent/internal/cron/render.go writes, read
// as fields between blanks and a command after them.
module CronTable {
  import opened Wrappers
  import opened Bytes
  import opened Text
  import opened Parts
  import opened Numbers
  import opened Crontab
  import opened CronFields
  import opened CronSchedule
  import opened CrontabJobs
  import opened AcceptedJobs

  /**** cron's reading of a line ****/

  // The only blanks cron knows.
  predicate CronBlank(c: char) {
    c == ' ' || c == '\t'
  }

  function SkipBlanks(s: string): string {
    if s != "" && CronBlank(s[0]) then SkipBlanks(s[1..]) else s
  }

  function CronWord(s: string): (w: string)
    ensures w <= s
  {
    if s == "" || CronBlank(s[0]) then "" else [s[0]] + CronWord(s[1..])
  }

  // So many words, and what follows them.
  function Take(s: string, n: nat): (seq<string>, string)
    decreases n
  {
    var t := SkipBlanks(s);
    if n == 0 then ([], t)
    else
      var w := CronWord(t);
      var (words, rest) := Take(t[|w|..], n - 1);
      ([w] + words, rest)
  }

  datatype CronEntry = CronEntry(fields: seq<string>, command: string)

  // No entry for a blank line or a comment, and one field where a name stands for all five.
  function ReadLine(line: string): seq<CronEntry> {
    var t := SkipBlanks(line);
    if t == "" || t[0] == '#' then []
    else var (fields, command) := Take(t, if t[0] == '@' then 1 else 5); [CronEntry(fields, command)]
  }

  function Table(lines: seq<string>): seq<CronEntry> {
    if lines == [] then [] else ReadLine(lines[0]) + Table(lines[1..])
  }

  lemma {:induction false} TableAppend(a: seq<string>, b: seq<string>)
    ensures Table(a + b) == Table(a) + Table(b)
  {
    hide ReadLine;
    if a == [] {
      assert a + b == b;
    } else {
      TableAppend(a[1..], b);
      assert (a + b)[0] == a[0] && (a + b)[1..] == a[1..] + b;
      Assoc(ReadLine(a[0]), Table(a[1..]), Table(b));
    }
  }

  /**** Blanks that are blanks to both ****/

  // Every blank of the text is one that cron knows.
  ghost predicate PlainBlanks(s: string) {
    forall i :: 0 <= i < |s| && IsSpace(s[i]) ==> CronBlank(s[i])
  }

  lemma CronBlankIsSpace(c: char)
    ensures CronBlank(c) ==> IsSpace(c)
  {
  }

  lemma {:induction false} SkipIsTrim(s: string, t: string)
    requires PlainBlanks(s)
    ensures SkipBlanks(s + " " + t) == if TrimLeft(s) == "" then SkipBlanks(t) else TrimLeft(s) + " " + t
  {
    hide IsSpace, Blank;
    var line := s + " " + t;
    if s == "" {
      assert line == " " + t && line[1..] == t;
    } else {
      CronBlankIsSpace(s[0]);
      SkipIsTrim(s[1..], t);
      assert line[0] == s[0] && line[1..] == s[1..] + " " + t;
    }
  }

  lemma {:induction false} WordIsFront(s: string, t: string)
    requires PlainBlanks(s)
    ensures CronWord(s + " " + t) == WordFront(s)
  {
    hide IsSpace;
    var line := s + " " + t;
    if s == "" {
      assert line[0] == ' ';
    } else {
      CronBlankIsSpace(s[0]);
      WordIsFront(s[1..], t);
      assert line[0] == s[0] && line[1..] == s[1..] + " " + t;
    }
  }

  lemma PlainEnd(s: string, k: nat)
    requires k <= |s| && PlainBlanks(s)
    ensures PlainBlanks(s[k..])
  {
    hide IsSpace, CronBlank;
    assert forall i :: 0 <= i < |s[k..]| ==> s[k..][i] == s[k + i];
  }

  lemma {:induction false} FieldsAreTaken(s: string, t: string)
    requires PlainBlanks(s)
    ensures Take(s + " " + t, |Fields(s)|) == (Fields(s), SkipBlanks(t))
    decreases |s|
  {
    hide IsSpace, TrimLeft, WordFront, SkipBlanks, CronWord, PlainBlanks, Blank;
    var trimmed := TrimLeft(s);
    SkipIsTrim(s, t);
    if trimmed != "" {
      TrimLeftDropsBlanks(s);
      PlainEnd(s, |s| - |trimmed|);
      var w := WordFront(trimmed);
      WordIsFront(trimmed, t);
      PlainEnd(trimmed, |w|);
      FieldsAreTaken(trimmed[|w|..], t);
      assert (trimmed + " " + t)[|w|..] == trimmed[|w|..] + " " + t;
    }
  }

  /**** Words with no blank leave only plain blanks between them ****/

  lemma {:induction false} SkippedArePlain(s: string)
    ensures |SkipBlanks(s)| <= |s| && SkipBlanks(s) == s[|s| - |SkipBlanks(s)|..]
    ensures forall i :: 0 <= i < |s| - |SkipBlanks(s)| ==> CronBlank(s[i])
  {
    hide CronBlank;
    if s != "" && CronBlank(s[0]) {
      SkippedArePlain(s[1..]);
      assert forall i :: 1 <= i < |s| ==> s[i] == s[1..][i - 1];
    }
  }

  ghost predicate PlainUpTo(s: string, n: int) {
    forall i :: 0 <= i < n && i < |s| && IsSpace(s[i]) ==> CronBlank(s[i])
  }

  lemma {:induction false} TakenArePlain(s: string, n: nat)
    requires Words(Take(s, n).0)
    ensures |Take(s, n).1| <= |s| && Take(s, n).1 == s[|s| - |Take(s, n).1|..]
    ensures PlainUpTo(s, |s| - |Take(s, n).1|)
    decreases n
  {
    hide IsSpace, CronBlank, SkipBlanks, CronWord;
    var t := SkipBlanks(s);
    SkippedArePlain(s);
    if n > 0 {
      var w := CronWord(t);
      var (words, rest) := Take(t[|w|..], n - 1);
      var all := [w] + words;
      assert Word(all[0]);
      assert Words(words) by {
        forall i | 0 <= i < |words| ensures Word(words[i]) {
          assert all[i + 1] == words[i];
        }
      }
      TakenArePlain(t[|w|..], n - 1);
      PlainAcross(s, t, w, rest);
    }
  }

  lemma PlainAcross(s: string, t: string, w: string, rest: string)
    requires |t| <= |s| && t == s[|s| - |t|..] && |w| <= |t| && w == t[..|w|] && Word(w)
    requires |rest| <= |t| - |w| && rest == t[|w|..][|t| - |w| - |rest|..]
    requires forall i :: 0 <= i < |s| - |t| ==> CronBlank(s[i])
    requires PlainUpTo(t[|w|..], |t| - |w| - |rest|)
    ensures rest == s[|s| - |rest|..] && PlainUpTo(s, |s| - |rest|)
  {
    hide IsSpace, CronBlank;
    var a := |s| - |t|;
    forall i | a <= i < a + |w| ensures !IsSpace(s[i]) {
      assert w[i - a] == s[i];
    }
    forall i | 0 <= i < |s| - |rest| && IsSpace(s[i]) ensures CronBlank(s[i]) {
      if i >= a + |w| {
        assert t[|w|..][i - a - |w|] == s[i];
      }
    }
  }

  /**** The entry of an accepted job ****/

  // The entry that is meant for a job.
  function Meant(job: Job, logDir: string): CronEntry {
    CronEntry(Fields(job.schedule), "( " + job.command + " ) >> " + logDir + "/" + job.id + ".log 2>&1")
  }

  // An accepted schedule is one name or five fields, and no comment.
  lemma FieldsOfAccepted(schedule: string)
    requires Schedule(schedule).Some?
    ensures TrimLeft(schedule) != "" && TrimLeft(schedule)[0] != '#'
    ensures |Fields(schedule)| == if TrimLeft(schedule)[0] == '@' then 1 else 5
    ensures Words(Fields(schedule))
    ensures Schedule(Join(Fields(schedule), ' ')) == Schedule(schedule)
  {
    hide IsSpace, TrimLeft, TrimRight, WordFront, CheckField, Utf8Length, SHORTHANDS, FIELDS, Plain, Lower, Fields, Blank, Join;
    var left, right := TrimSpaceDropsBlanks(schedule);
    var trimmed := TrimSpace(schedule);
    FieldsOfTrimmed(left, trimmed, right);
    FieldsAreWords(schedule);
    TrimLeftDropsBlanks(schedule);
    TrimLeftOf(left, trimmed + right);
    assert left + (trimmed + right) == schedule;
    assert TrimLeft(schedule)[0] == trimmed[0];
    if trimmed[0] == '@' {
      ShorthandIsWord(trimmed);
      OneField(trimmed);
      TrimmedAlready(trimmed);
    } else {
      NotComment(trimmed);
      var fields := AcceptedIsNormal(schedule);
      NormalIsKept(Fields(trimmed)) by {
        FieldsAreWords(trimmed);
        FieldsShorten(trimmed);
        StartsWithFirst(trimmed);
      }
    }
  }

  lemma OneField(word: string)
    requires Word(word)
    ensures Fields(word) == [word] && Join([word], ' ') == word
  {
    hide IsSpace, Fields;
    FieldsStep(word, "");
    NoFields();
    assert word + "" == word;
  }

  // Blanks at the ends make no fields.
  lemma {:induction false} FieldsOfTrimmed(left: string, trimmed: string, right: string)
    requires Blank(left) && Blank(right) && trimmed != "" && !IsSpace(trimmed[0])
    ensures Fields(left + trimmed + right) == Fields(trimmed)
    decreases |trimmed|
  {
    hide IsSpace, TrimLeft, WordFront, Blank;
    assert left + trimmed + right == left + (trimmed + right);
    NothingIsBlank();
    TrimLeftOf(left, trimmed + right);
    TrimLeftOf("", trimmed);
    assert "" + trimmed == trimmed;
    FrontBefore(trimmed, right);
    var w := WordFront(trimmed);
    var rest := trimmed[|w|..];
    DropFront(trimmed, right, |w|);
    FirstIsNotEmpty(trimmed);
    RestOfTrimmed(rest, right);
    var inner := TrimLeft(rest);
    if inner != "" {
      TrimLeftDropsBlanks(rest);
      var gap := rest[..|rest| - |inner|];
      FieldsOfTrimmed(gap, inner, right);
      FieldsOfTrimmed(gap, inner, "");
      CutInTwo(rest, |rest| - |inner|);
      NothingAdded(gap + inner);
      assert gap + inner + right == rest + right;
    } else {
      BlankHasNoFields(rest);
      BlankHasNoFields(rest + right);
    }
  }

  lemma DropFront(a: string, b: string, n: nat)
    requires n <= |a|
    ensures (a + b)[n..] == a[n..] + b
  {
  }

  lemma NothingAdded(s: string)
    ensures s + "" == s
  {
  }

  lemma NothingIsBlank()
    ensures Blank("")
  {
  }

  lemma FirstIsNotEmpty(s: string)
    requires s != "" && !IsSpace(s[0])
    ensures WordFront(s) != ""
  {
    hide IsSpace;
  }

  lemma BlankHasNoFields(s: string)
    requires Blank(s)
    ensures Fields(s) == []
  {
    hide IsSpace, Blank;
  }

  lemma RestOfTrimmed(rest: string, right: string)
    requires Blank(right)
    ensures Blank(rest) ==> Blank(rest + right)
    ensures Blank(rest) <==> TrimLeft(rest) == ""
  {
    hide IsSpace;
  }

  lemma {:induction false} FrontBefore(s: string, right: string)
    requires Blank(right)
    ensures WordFront(s + right) == WordFront(s)
  {
    hide IsSpace;
    if s == "" {
      assert s + right == right;
      if right != "" {
        assert IsSpace(right[0]);
      }
    } else {
      assert (s + right)[1..] == s[1..] + right;
      FrontBefore(s[1..], right);
    }
  }

  lemma ShorthandIsWord(name: string)
    requires Lower(name) in SHORTHANDS
    ensures Word(name)
  {
    hide IsSpace, SHORTHANDS;
    NamesHaveNoBlank(Lower(name));
    forall i | 0 <= i < |name| ensures !IsSpace(name[i]) {
      LowerKeepsBlank(name[i]);
      assert Lower(name)[i] == LowerOf(name[i]);
    }
  }

  lemma NamesHaveNoBlank(name: string)
    requires name in SHORTHANDS
    ensures name != "" && forall i :: 0 <= i < |name| ==> !IsSpace(name[i])
  {
  }

  lemma LowerKeepsBlank(c: char)
    ensures IsSpace(c) ==> IsSpace(LowerOf(c))
  {
  }

  // A first field that is accepted starts with a digit, a sign or a star.
  lemma NotComment(trimmed: string)
    requires FieldsAccepted(Fields(trimmed)) && trimmed != "" && !IsSpace(trimmed[0])
    ensures trimmed[0] != '#'
  {
    hide IsSpace, Fields, CheckField;
    StartsWithFirst(trimmed);
    MinuteIsFirst();
    MinuteStart(Fields(trimmed)[0]);
  }

  lemma MinuteIsFirst()
    ensures FIELDS[0] == MINUTE && MINUTE.names == map[]
  {
  }

  lemma MinuteStart(value: string)
    requires CheckField(value, MINUTE)
    ensures value[0] != '#'
  {
    hide Atoi, Lower, Find, Split;
    if value[0] == '#' {
      var part := Split(value, ',')[0];
      SplitStarts(value, ',');
      assert CheckRange(part, MINUTE);
      CutStarts(part, "/");
      var body := CutAt(part, "/").0;
      CutStarts(body, "-");
      NoNumber(CutAt(body, "-").0);
      MinuteIsFirst();
      assert false;
    }
  }

  lemma SplitStarts(s: string, sep: char)
    requires s != "" && s[0] != sep
    ensures Split(s, sep)[0] != "" && Split(s, sep)[0][0] == s[0]
  {
  }

  lemma CutStarts(s: string, sub: string)
    requires s != "" && |sub| == 1 && s[0] != sub[0]
    ensures CutAt(s, sub).0 != "" && CutAt(s, sub).0[0] == s[0]
  {
    hide Find;
    var at := Find(s, sub);
    if at.Some? {
      assert s[at.value..at.value + 1][0] == s[at.value];
    }
  }

  lemma NoNumber(s: string)
    requires s != "" && s[0] == '#'
    ensures Atoi(s).None?
  {
  }

  // cron reads the entry of an accepted job as the fields that were accepted and the command between the
  // parentheses exactly when the schedule's blanks are spaces and tabs. The other blanks that were taken
  // for separators when the schedule was checked are none to cron.
  lemma EntryIsRead(job: Job, logDir: string)
    requires Schedule(job.schedule).Some?
    ensures ReadLine(EntryLine(job, logDir)) == [Meant(job, logDir)] <==> PlainBlanks(job.schedule)
  {
    hide IsSpace, TrimLeft, Schedule, Fields, PlainBlanks, Words, ReadLine, EntryLine;
    var s, line := job.schedule, EntryLine(job, logDir);
    var tail := Meant(job, logDir).command;
    assert line == s + " " + tail by {
      LineParts(job, logDir);
    }
    FieldsOfAccepted(s);
    if PlainBlanks(s) {
      PlainIsRead(s, tail);
    }
    if ReadLine(line) == [Meant(job, logDir)] {
      ReadIsPlain(s, tail);
    }
  }

  lemma PlainIsRead(s: string, tail: string)
    requires PlainBlanks(s) && TrimLeft(s) != "" && TrimLeft(s)[0] != '#' && tail != "" && tail[0] == '('
    requires |Fields(s)| == if TrimLeft(s)[0] == '@' then 1 else 5
    ensures ReadLine(s + " " + tail) == [CronEntry(Fields(s), tail)]
  {
    hide IsSpace, TrimLeft, Fields, Take, SkipBlanks, PlainBlanks;
    var line := s + " " + tail;
    SkipIsTrim(s, tail);
    FieldsAreTaken(s, tail);
    SkipOnce(line, |Fields(s)|);
    ParenthesisStays(tail);
    assert SkipBlanks(line)[0] == TrimLeft(s)[0];
  }

  lemma ReadIsPlain(s: string, tail: string)
    requires Words(Fields(s)) && ReadLine(s + " " + tail) == [CronEntry(Fields(s), tail)]
    ensures PlainBlanks(s)
  {
    hide IsSpace, Fields, Take, SkipBlanks, PlainBlanks, Words;
    var line := s + " " + tail;
    var t := SkipBlanks(line);
    var n := if t[0] == '@' then 1 else 5;
    SkipOnce(line, n);
    assert [CronEntry(Take(t, n).0, Take(t, n).1)][0] == [CronEntry(Fields(s), tail)][0];
    TakenArePlain(line, n);
    PlainFront(s, " " + tail, line);
  }

  lemma LineParts(job: Job, logDir: string)
    ensures EntryLine(job, logDir) == job.schedule + " " + Meant(job, logDir).command
  {
    hide Fields;
    assert " ( " == " " + "( " && ".log 2>&1" == ".log" + " 2>&1";
  }

  lemma ParenthesisStays(tail: string)
    requires tail != "" && tail[0] == '('
    ensures SkipBlanks(tail) == tail
  {
  }

  lemma SkipOnce(line: string, n: nat)
    ensures Take(SkipBlanks(line), n) == Take(line, n)
  {
    hide CronBlank, CronWord;
    SkipTwice(line);
  }

  lemma {:induction false} SkipTwice(s: string)
    ensures SkipBlanks(SkipBlanks(s)) == SkipBlanks(s)
  {
    if s != "" && CronBlank(s[0]) {
      SkipTwice(s[1..]);
    }
  }

  lemma PlainFront(s: string, rest: string, line: string)
    requires line == s + rest && |rest| >= 1 && PlainUpTo(line, |line| - (|rest| - 1))
    ensures PlainBlanks(s)
  {
    hide IsSpace, CronBlank;
    forall i | 0 <= i < |s| && IsSpace(s[i]) ensures CronBlank(s[i]) {
      assert line[i] == s[i];
    }
  }

  // A schedule that passes although cron reads its line otherwise: its fields are kept apart by U+00A0.
  lemma AcceptedScheduleIsMisread(id: string, name: string, command: string, logDir: string)
    requires IsUuid(id) && JobName(name) && Command(command)
    ensures var job := Job(id, name, "0 0 * *\U{a0}*", command);
            Validated(job) && ReadLine(EntryLine(job, logDir)) != [Meant(job, logDir)]
  {
    hide IsUuid, JobName, Command, Meant, ReadLine, EntryLine, Schedule;
    var schedule := "0 0 * *\U{a0}*";
    var job := Job(id, name, schedule, command);
    UnusualBlank(schedule);
    EntryIsRead(job, logDir);
    assert IsSpace(schedule[7]) && !CronBlank(schedule[7]);
  }

  lemma UnusualBlank(schedule: string)
    requires schedule == "0 0 * *\U{a0}*"
    ensures Schedule(schedule).Some?
  {
    hide IsSpace, TrimSpace, Fields, CheckField, Utf8Length, SHORTHANDS, Lower, Blank;
    assert !IsSpace('0') && !IsSpace('*') && IsSpace(' ') && IsSpace('\U{a0}') by {
      Characters();
    }
    TrimmedAlready(schedule);
    assert Utf8Length(schedule) == 10 by {
      TenBytes();
    }
    assert schedule == "0" + (" " + ("0" + (" " + ("*" + (" " + ("*" + ("\U{a0}" + "*")))))));
    FieldsOfStars();
    FieldBounds();
    SimpleField("0", MINUTE);
    SimpleField("0", HOUR);
    SimpleField("*", DAY_OF_MONTH);
    SimpleField("*", MONTH);
    SimpleField("*", DAY_OF_WEEK);
  }

  lemma Characters()
    ensures !IsSpace('0') && !IsSpace('*') && IsSpace(' ') && IsSpace('\U{a0}')
  {
  }

  lemma TenBytes()
    ensures Utf8Length("0 0 * *\U{a0}*") == 10
  {
    hide Utf8Length;
    LengthOfConcat("0 0 * *", "\U{a0}*");
    ShortLength("0 0 * *");
    TwoBytes();
    assert "0 0 * *" + "\U{a0}*" == "0 0 * *\U{a0}*";
  }

  lemma TwoBytes()
    ensures Utf8Length("\U{a0}*") == 3
  {
    assert "\U{a0}*"[1..] == "*" && "*"[1..] == "";
  }

  lemma FieldsOfStars()
    ensures Fields("0 0 * *\U{a0}*") == ["0", "0", "*", "*", "*"]
  {
    hide IsSpace, Fields, Blank;
    Characters();
    assert Word("0") && Word("*");
    NoFields();
    FieldsStep("*", "");
    assert "*" + "" == "*";
    AfterBlank("\U{a0}", "*");
    FieldsStep("*", "\U{a0}" + "*");
    FieldsStep("*", " " + ("*" + ("\U{a0}" + "*")));
    FieldsStep("0", " " + ("*" + (" " + ("*" + ("\U{a0}" + "*")))));
    FieldsStep("0", " " + ("0" + (" " + ("*" + (" " + ("*" + ("\U{a0}" + "*")))))));
    assert "0 0 * *\U{a0}*" == "0" + (" " + ("0" + (" " + ("*" + (" " + ("*" + ("\U{a0}" + "*")))))));
  }

  lemma AfterBlank(blank: string, word: string)
    requires |blank| == 1 && IsSpace(blank[0]) && Word(word)
    ensures Fields(blank + word) == Fields(word)
  {
    hide IsSpace, Fields, Blank, TrimLeft, WordFront;
    assert Blank(blank) by {
      OneBlank(blank);
    }
    NothingIsBlank();
    FieldsOfTrimmed(blank, word, "");
    assert blank + word + "" == blank + word;
  }

  lemma OneBlank(blank: string)
    requires |blank| == 1 && IsSpace(blank[0])
    ensures Blank(blank)
  {
    hide IsSpace;
  }

  /**** The whole crontab ****/

  function Meanings(jobs: seq<Job>, logDir: string): seq<CronEntry> {
    if jobs == [] then [] else [Meant(jobs[0], logDir)] + Meanings(jobs[1..], logDir)
  }

  // A job whose lines are read as they are meant.
  ghost predicate Readable(job: Job) {
    Validated(job) && !BreaksInside(job) && PlainBlanks(job.schedule)
  }

  lemma CommentIsNoEntry(line: string)
    requires line != "" && line[0] == '#'
    ensures ReadLine(line) == []
  {
  }

  lemma {:induction false} JobLinesAreRead(jobs: seq<Job>, logDir: string)
    requires forall i :: 0 <= i < |jobs| ==> Readable(jobs[i])
    ensures Table(JobLines(jobs, logDir)) == Meanings(jobs, logDir)
  {
    hide Validated, BreaksInside, PlainBlanks, CommentLine, EntryLine, Meant, ReadLine;
    if jobs != [] {
      var job, rest := jobs[0], JobLines(jobs[1..], logDir);
      assert Validated(job) && PlainBlanks(job.schedule);
      ScheduleOfValidated(job);
      EntryIsRead(job, logDir);
      NameIsComment(job);
      JobLinesAreRead(jobs[1..], logDir);
      TwoLines(CommentLine(job.name, job.id), EntryLine(job, logDir), rest);
    }
  }

  lemma ScheduleOfValidated(job: Job)
    requires Validated(job)
    ensures Schedule(job.schedule).Some?
  {
    hide Schedule, IsUuid, JobName, Command;
  }

  lemma NameIsComment(job: Job)
    ensures ReadLine(CommentLine(job.name, job.id)) == []
  {
    CommentIsNoEntry(CommentLine(job.name, job.id));
  }

  lemma TwoLines(a: string, b: string, rest: seq<string>)
    ensures Table([a, b] + rest) == ReadLine(a) + ReadLine(b) + Table(rest)
  {
    hide ReadLine;
    var all := [a, b] + rest;
    assert all[1..] == [b] + rest && all[1..][1..] == rest;
    assert Table(all[1..]) == ReadLine(b) + Table(rest);
  }

  lemma NotesAreNoEntries(written: string)
    ensures Table([BEGIN]) == [] && Table([END]) == [] && Table(NoteLines(written)) == []
  {
    hide ReadLine, BEGIN, END, WRITTEN, OVERWRITTEN, LEFT_ALONE;
    Hashes();
    OneLine(BEGIN);
    OneLine(END);
    var notes := NoteLines(written);
    CommentIsNoEntry(notes[0]);
    CommentIsNoEntry(notes[1]);
    TwoLines(notes[0], notes[1], []);
    assert notes == [notes[0], notes[1]] + [];
    assert Table([]) == [];
  }

  lemma Hashes()
    ensures BEGIN != "" && BEGIN[0] == '#' && END != "" && END[0] == '#'
    ensures WRITTEN != "" && WRITTEN[0] == '#' && LEFT_ALONE != "" && LEFT_ALONE[0] == '#'
  {
  }

  lemma OneLine(line: string)
    requires line != "" && line[0] == '#'
    ensures Table([line]) == []
  {
    hide ReadLine;
    CommentIsNoEntry(line);
    assert [line][1..] == [];
  }

  // After a merge cron runs what the account's own lines outside the block said before, in their order,
  // and between them the jobs: each one's accepted fields and its command, in order, and nothing else.
  lemma CronRunsTheJobs(existing: string, written: string, jobs: seq<Job>, logDir: string)
    requires forall i :: 0 <= i < |jobs| ==> Readable(jobs[i])
    requires '\n' !in logDir && '\n' !in written
    ensures Table(Split(Merged(existing, Unlines(BlockLines(written, jobs, logDir))), '\n'))
         == Table(KeptBefore(existing)) + Meanings(jobs, logDir) + Table(KeptAfter(existing))
  {
    hide Readable, ReadLine, KeptBefore, KeptAfter, Merged, Unlines, Split, BlockLines, NoteLines, JobLines, Meanings, BEGIN, END;
    var block := BlockLines(written, jobs, logDir);
    BlockIsFree(written, jobs, logDir);
    MergedIsUnlines(existing, block);
    SplitOfUnlines(MergedLines(existing, block));
    var before, after := KeptBefore(existing), KeptAfter(existing);
    TableAppend(MergedLines(existing, block), [""]);
    TableAppend(before + block, after);
    TableAppend(before, block);
    EmptyLine();
    BlockIsRead(written, jobs, logDir);
  }

  lemma EmptyLine()
    ensures Table([""]) == []
  {
    assert [""][1..] == [];
  }

  lemma BlockIsRead(written: string, jobs: seq<Job>, logDir: string)
    requires forall i :: 0 <= i < |jobs| ==> Readable(jobs[i])
    ensures Table(BlockLines(written, jobs, logDir)) == Meanings(jobs, logDir)
  {
    hide Readable, ReadLine, NoteLines, JobLines, Meanings, BEGIN, END, Table;
    NotesAreNoEntries(written);
    JobLinesAreRead(jobs, logDir);
    TableAppend([BEGIN] + (NoteLines(written) + JobLines(jobs, logDir)), [END]);
    TableAppend([BEGIN], NoteLines(written) + JobLines(jobs, logDir));
    TableAppend(NoteLines(written), JobLines(jobs, logDir));
  }

  lemma BlockIsFree(written: string, jobs: seq<Job>, logDir: string)
    requires forall i :: 0 <= i < |jobs| ==> Readable(jobs[i])
    requires '\n' !in logDir && '\n' !in written
    ensures Free(BlockLines(written, jobs, logDir), '\n')
  {
    hide Validated, BreaksInside, PlainBlanks, NoteLines, JobLines, BEGIN, END;
    assert AllValidated(jobs) by {
      assert forall i :: 0 <= i < |jobs| ==> Readable(jobs[i]) ==> Validated(jobs[i]);
    }
    JobLinesFree(jobs, logDir);
    NotesFree(written);
    MarkersFree();
    FourFree(NoteLines(written), JobLines(jobs, logDir));
  }
}
