// The jobs that Job.Validate of agent/internal/cron/cron.go lets through, and the lines they become.
module AcceptedJobs {
  import opened Wrappers
  import opened Bytes
  import opened Text
  import opened Parts
  import opened Crontab
  import opened CronFields
  import opened CronSchedule
  import opened CrontabJobs

  const MAX_COMMAND_LENGTH: nat := 500

  // validate.Command looks at the trimmed command.
  predicate Command(command: string) {
    var trimmed := TrimSpace(command);
    && trimmed != "" && Utf8Length(trimmed) <= MAX_COMMAND_LENGTH
    && '\n' !in trimmed && '\r' !in trimmed && '\0' !in trimmed && '%' !in trimmed
  }

  // Job.Validate; what Schedule normalises is not kept.
  predicate Validated(job: Job) {
    IsUuid(job.id) && JobName(job.name) && Schedule(job.schedule).Some? && Command(job.command)
  }

  /**** What trimming takes away ****/

  // The blanks at both ends of a text.
  function Margins(s: string): string {
    var rest := TrimLeft(s);
    s[..|s| - |rest|] + rest[|TrimRight(rest)|..]
  }

  lemma MarginsOf(s: string)
    ensures Blank(Margins(s))
    ensures '\n' !in TrimSpace(s) ==> ('\n' in s <==> '\n' in Margins(s))
  {
    hide IsSpace, TrimLeft, TrimRight, Blank;
    var rest := TrimLeft(s);
    var left, right := s[..|s| - |rest|], rest[|TrimRight(rest)|..];
    TrimLeftDropsBlanks(s);
    TrimRightDropsBlanks(rest);
    BlankTogether(left, right);
    InParts(left, TrimSpace(s), right, '\n');
    assert s == left + TrimSpace(s) + right;
  }

  lemma BlankTogether(a: string, b: string)
    requires Blank(a) && Blank(b)
    ensures Blank(a + b)
  {
  }

  lemma InParts(a: string, b: string, c: string, x: char)
    ensures x in a + b + c <==> x in a || x in b || x in c
    ensures x in a + c <==> x in a || x in c
  {
  }

  // Where an accepted job can hold a line break: in the blanks of its name, its schedule and its command.
  ghost predicate BreaksInside(job: Job) {
    '\n' in Margins(job.name) || '\n' in Margins(job.schedule) || '\n' in Margins(job.command)
  }

  lemma BreaksOfValidated(job: Job)
    requires Validated(job)
    ensures '\n' in job.name <==> '\n' in Margins(job.name)
    ensures '\n' in job.schedule <==> '\n' in Margins(job.schedule)
    ensures '\n' in job.command <==> '\n' in Margins(job.command)
  {
    hide IsUuid, TrimSpace, Utf8Length, Lower, Fields, FieldsAccepted, Margins;
    MarginsOf(job.name);
    MarginsOf(job.schedule);
    MarginsOf(job.command);
  }

  /**** The entry ****/

  // The part of an entry that is the agent's own.
  function EntryEnd(logDir: string, id: string): string {
    " ) >> " + LogPath(logDir, id) + " 2>&1"
  }

  lemma EntryInParts(job: Job, logDir: string)
    ensures EntryLine(job, logDir) == job.schedule + " ( " + job.command + EntryEnd(logDir, job.id)
  {
    hide LogPath;
  }

  lemma EndHasNoBreak(logDir: string, id: string)
    requires '\n' !in logDir && '\n' !in id
    ensures '\n' !in EntryEnd(logDir, id)
  {
    InParts(logDir, "/", id, '\n');
    InParts(logDir + "/" + id, "", ".log", '\n');
    InParts(" ) >> ", LogPath(logDir, id), " 2>&1", '\n');
  }

  // An entry is one line exactly when schedule and command hold no line break.
  lemma EntryKeepsItsLine(job: Job, logDir: string)
    requires IsUuid(job.id) && '\n' !in logDir
    ensures '\n' in EntryLine(job, logDir) <==> '\n' in job.schedule || '\n' in job.command
    ensures Split(EntryLine(job, logDir), '\n') == [EntryLine(job, logDir)]
       <==> '\n' !in job.schedule && '\n' !in job.command
  {
    hide IsUuid, Split, EntryLine, EntryEnd;
    UuidHasNoNewline(job.id);
    EndHasNoBreak(logDir, job.id);
    var line := EntryLine(job, logDir);
    EntryInParts(job, logDir);
    InParts(job.schedule, " ( ", job.command, '\n');
    InParts(job.schedule + " ( " + job.command, "", EntryEnd(logDir, job.id), '\n');
    SplitIsFree(line, '\n');
    assert [line][0] == line;
    if '\n' !in line {
      SplitOfFree(line, '\n');
    }
  }

  // An accepted job is one entry exactly when the blanks around its schedule and its command, which are
  // written although they were not looked at, hold no line break.
  lemma AcceptedEntryKeepsItsLine(job: Job, logDir: string)
    requires Validated(job) && '\n' !in logDir
    ensures Split(EntryLine(job, logDir), '\n') == [EntryLine(job, logDir)]
       <==> '\n' !in Margins(job.schedule) && '\n' !in Margins(job.command)
  {
    hide IsUuid, JobName, Schedule, Command, EntryLine, Split, Margins;
    BreaksOfValidated(job);
    EntryKeepsItsLine(job, logDir);
  }

  // A command that passes and starts with a line break makes two lines, and the second begins with five
  // accepted fields of its own.
  lemma AcceptedCommandIsTwoEntries(id: string, name: string, schedule: string, logDir: string)
    requires IsUuid(id) && JobName(name) && Schedule(schedule).Some? && '\n' !in schedule && '\n' !in logDir
    ensures var job := Job(id, name, schedule, "\n" + "* * * * * ( date");
            var second := "* * * * * ( date" + EntryEnd(logDir, id);
            && Validated(job) && Split(EntryLine(job, logDir), '\n') == [schedule + " ( ", second]
            && |Fields(second)| >= 5 && FieldsAccepted(Fields(second)[..5])
  {
    hide IsUuid, JobName, Schedule, Split, Command, Fields, FieldsAccepted, EntryEnd;
    var word := "* * * * * ( date";
    var job := Job(id, name, schedule, "\n" + word);
    var first, second := schedule + " ( ", word + EntryEnd(logDir, id);
    UuidHasNoNewline(id);
    EndHasNoBreak(logDir, id);
    DateIsCommand(word);
    EntryInParts(job, logDir);
    assert EntryLine(job, logDir) == first + "\n" + second;
    InParts(word, "", EntryEnd(logDir, id), '\n');
    InParts(schedule, "", " ( ", '\n');
    SplitAtSeparator(first, second, '\n');
    SplitOfFree(second, '\n');
    FiveStars(" ( date" + EntryEnd(logDir, id));
    assert second == "*" + (" *" + (" *" + (" *" + (" *" + (" ( date" + EntryEnd(logDir, id))))));
  }

  lemma DateIsCommand(word: string)
    requires word == "* * * * * ( date"
    ensures Command("\n" + word) && '\n' !in word
  {
    hide IsSpace, TrimSpace, Utf8Length;
    TrimmedAfterBreak(word);
    ShortWord(word);
  }

  lemma TrimmedAfterBreak(word: string)
    requires word == "* * * * * ( date"
    ensures TrimSpace("\n" + word) == word
  {
    hide IsSpace, Blank;
    assert Blank("\n") && !IsSpace('*') && !IsSpace('e') by { TwoLetters(); }
    TrimLeftOf("\n", word);
  }

  lemma TwoLetters()
    ensures Blank("\n") && !IsSpace('*') && !IsSpace('e') && IsSpace(' ')
  {
  }

  lemma StarStep(rest: string)
    requires rest != "" && rest[0] == ' '
    ensures Fields("*" + rest) == ["*"] + Fields(rest) && Fields(" *" + rest) == ["*"] + Fields(rest)
  {
    hide IsSpace, Fields;
    assert IsSpace(' ') && Word("*") by { TwoLetters(); }
    FieldsStep("*", rest);
    assert " " + ("*" + rest) == " *" + rest;
  }

  lemma FiveStars(rest: string)
    requires rest != "" && rest[0] == ' '
    ensures var fields := Fields("*" + (" *" + (" *" + (" *" + (" *" + rest)))));
            |fields| >= 5 && FieldsAccepted(fields[..5])
  {
    hide Fields, CheckField, FIELDS;
    var r1 := " *" + rest;
    var r2 := " *" + r1;
    var r3 := " *" + r2;
    StarStep(rest);
    StarStep(r1);
    StarStep(r2);
    StarStep(r3);
    StarStep(" *" + r3);
    var fields := Fields("*" + (" *" + r3));
    assert fields == ["*", "*", "*", "*", "*"] + Fields(rest);
    assert fields[..5] == ["*", "*", "*", "*", "*"];
    StarsAreAccepted();
  }

  lemma StarsAreAccepted()
    ensures FieldsAccepted(["*", "*", "*", "*", "*"])
  {
    hide CheckField;
    forall i | 0 <= i < 5 ensures CheckField("*", FIELDS[i]) {
      SimpleField("*", FIELDS[i]);
    }
  }

  /**** The block ****/

  ghost predicate AllValidated(jobs: seq<Job>) {
    forall i :: 0 <= i < |jobs| ==> Validated(jobs[i])
  }

  lemma {:induction false} JobLinesFree(jobs: seq<Job>, logDir: string)
    requires AllValidated(jobs) && '\n' !in logDir
    ensures Free(JobLines(jobs, logDir), '\n') <==> forall i :: 0 <= i < |jobs| ==> !BreaksInside(jobs[i])
    ensures |JobLines(jobs, logDir)| == 2 * |jobs|
  {
    hide Validated, BreaksInside, CommentLine, EntryLine;
    if jobs != [] {
      var job, rest := jobs[0], JobLines(jobs[1..], logDir);
      JobLinesFree(jobs[1..], logDir);
      JobIsFree(job, logDir);
      FreeTwo(CommentLine(job.name, job.id), EntryLine(job, logDir), rest);
      assert forall i :: 0 <= i < |jobs[1..]| ==> jobs[1..][i] == jobs[i + 1];
      assert jobs == [job] + jobs[1..];
    }
  }

  lemma JobIsFree(job: Job, logDir: string)
    requires Validated(job) && '\n' !in logDir
    ensures '\n' !in CommentLine(job.name, job.id) && '\n' !in EntryLine(job, logDir) <==> !BreaksInside(job)
  {
    hide IsUuid, JobName, Schedule, Command, EntryLine, Margins;
    UuidHasNoNewline(job.id);
    BreaksOfValidated(job);
    EntryKeepsItsLine(job, logDir);
    BetweenEnds("# ", job.name, " (job " + job.id + ")", '\n');
    assert CommentLine(job.name, job.id) == "# " + job.name + (" (job " + job.id + ")");
  }

  lemma FreeTwo(a: string, b: string, rest: seq<string>)
    ensures Free([a, b] + rest, '\n') <==> '\n' !in a && '\n' !in b && Free(rest, '\n')
  {
    var all := [a, b] + rest;
    assert all[0] == a && all[1] == b;
    assert forall i :: 0 <= i < |rest| ==> all[i + 2] == rest[i];
  }

  // Of accepted jobs the block has the lines meant, three at the top, two a job and one at the end,
  // exactly when no job holds a line break in the blanks at an end of its name, schedule or command.
  // Otherwise it has more.
  lemma BlockHasItsLines(written: string, jobs: seq<Job>, logDir: string)
    requires AllValidated(jobs) && '\n' !in logDir && '\n' !in written
    ensures var lines, read := BlockLines(written, jobs, logDir), Split(Unlines(BlockLines(written, jobs, logDir)), '\n');
            && |lines| == 2 * |jobs| + 4
            && (read == lines + [""] <==> forall i :: 0 <= i < |jobs| ==> !BreaksInside(jobs[i]))
            && (|read| == 2 * |jobs| + 5 <==> forall i :: 0 <= i < |jobs| ==> !BreaksInside(jobs[i]))
            && |read| >= 2 * |jobs| + 5
  {
    hide Validated, BreaksInside, NoteLines, JobLines, Unlines, Split, BEGIN, END;
    var lines := BlockLines(written, jobs, logDir);
    JobLinesFree(jobs, logDir);
    NotesFree(written);
    MarkersFree();
    FourFree(NoteLines(written), JobLines(jobs, logDir));
    SplitLengths(lines);
    if Free(lines, '\n') {
      SplitOfUnlines(lines);
    }
  }

  lemma NotesFree(written: string)
    requires '\n' !in written
    ensures |NoteLines(written)| == 2 && Free(NoteLines(written), '\n')
  {
    hide WRITTEN, OVERWRITTEN, LEFT_ALONE;
    NoteShapes();
    InParts(WRITTEN, written, OVERWRITTEN, '\n');
  }

  lemma FourFree(notes: seq<string>, entries: seq<string>)
    requires Free(notes, '\n') && '\n' !in BEGIN && '\n' !in END
    ensures Free([BEGIN] + (notes + entries) + [END], '\n') <==> Free(entries, '\n')
  {
    hide BEGIN, END;
    var all := [BEGIN] + (notes + entries) + [END];
    assert forall i :: 0 <= i < |entries| ==> all[1 + |notes| + i] == entries[i];
  }

  lemma {:induction false} SplitLengths(lines: seq<string>)
    ensures |Split(Unlines(lines), '\n')| >= |lines| + 1
    ensures |Split(Unlines(lines), '\n')| == |lines| + 1 <==> Free(lines, '\n')
  {
    if lines != [] {
      hide Split;
      SplitLengths(lines[1..]);
      SplitAcross(lines[0], Unlines(lines[1..]));
      OnePiece(lines[0]);
      assert forall i :: 0 <= i < |lines[1..]| ==> lines[1..][i] == lines[i + 1];
      assert lines == [lines[0]] + lines[1..];
    }
  }

  lemma OnePiece(line: string)
    ensures |Split(line, '\n')| == 1 <==> '\n' !in line
  {
    hide Split;
    SplitIsFree(line, '\n');
    JoinOfSplit(line, '\n');
    if '\n' !in line {
      SplitOfFree(line, '\n');
    }
  }

  lemma {:induction false} SplitAcross(a: string, b: string)
    ensures |Split(a + "\n" + b, '\n')| == |Split(a, '\n')| + |Split(b, '\n')|
  {
    var s := a + "\n" + b;
    if a == "" {
      assert s == "\n" + b && s[1..] == b;
    } else {
      SplitAcross(a[1..], b);
      assert s[1..] == a[1..] + "\n" + b;
    }
  }
}
