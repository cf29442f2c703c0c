// The lines of the managed block, and the job identifiers read back from them:
// agent/internal/cron/crontab.go.
module CrontabJobs {
  import opened Wrappers
  import opened Bytes
  import opened Text
  import opened Parts
  import opened Crontab

  datatype Job = Job(id: string, name: string, schedule: string, command: string)

  /**** render ****/

  function CommentLine(name: string, id: string): string {
    "# " + name + " (job " + id + ")"
  }

  function LogPath(logDir: string, id: string): string {
    logDir + "/" + id + ".log"
  }

  function EntryLine(job: Job, logDir: string): string {
    job.schedule + " ( " + job.command + " ) >> " + LogPath(logDir, job.id) + " 2>&1"
  }

  function JobLines(jobs: seq<Job>, logDir: string): seq<string> {
    if jobs == [] then []
    else [CommentLine(jobs[0].name, jobs[0].id), EntryLine(jobs[0], logDir)] + JobLines(jobs[1..], logDir)
  }

  const WRITTEN: string := "# Written "
  const OVERWRITTEN: string := ". Changes inside this block" + " are overwritten by the panel;"
  const LEFT_ALONE: string := "# anything outside it is left alone."

  // The two comment lines at the top; `written` is the time as RFC 3339 has it.
  function NoteLines(written: string): seq<string> {
    [WRITTEN + written + OVERWRITTEN, LEFT_ALONE]
  }

  function BlockLines(written: string, jobs: seq<Job>, logDir: string): seq<string> {
    [BEGIN] + (NoteLines(written) + JobLines(jobs, logDir)) + [END]
  }

  method Render(written: string, jobs: seq<Job>, logDir: string) returns (block: string)
    ensures block == Unlines(BlockLines(written, jobs, logDir))
  {
    hide Unlines, CommentLine, EntryLine, JobLines, BEGIN, END, WRITTEN, OVERWRITTEN, LEFT_ALONE;
    UnlinesOne(BEGIN);
    block := BEGIN + "\n";
    ghost var lines := [BEGIN];
    UnlinesPlus(lines, WRITTEN + written + OVERWRITTEN);
    block := block + (WRITTEN + written + OVERWRITTEN + "\n");
    lines := lines + [WRITTEN + written + OVERWRITTEN];
    UnlinesPlus(lines, LEFT_ALONE);
    block := block + (LEFT_ALONE + "\n");
    lines := lines + [LEFT_ALONE];
    NoJobLines(jobs, logDir);
    assert lines == [BEGIN] + NoteLines(written) + JobLines(jobs[..0], logDir);
    for k := 0 to |jobs|
      invariant block == Unlines(lines) && lines == [BEGIN] + NoteLines(written) + JobLines(jobs[..k], logDir)
    {
      hide NoteLines;
      var job := jobs[k];
      var comment, entry := CommentLine(job.name, job.id), EntryLine(job, logDir);
      UnlinesPlus(lines, comment);
      block := block + (comment + "\n");
      UnlinesPlus(lines + [comment], entry);
      block := block + (entry + "\n");
      JobLinesStep(jobs, logDir, k);
      lines := lines + [comment] + [entry];
    }
    assert jobs[..|jobs|] == jobs;
    UnlinesPlus(lines, END);
    block := block + (END + "\n");
    assert BlockLines(written, jobs, logDir) == lines + [END];
  }

  lemma UnlinesOne(line: string)
    ensures Unlines([line]) == line + "\n"
  {
    assert [line][1..] == [];
  }

  lemma UnlinesPlus(lines: seq<string>, line: string)
    ensures Unlines(lines + [line]) == Unlines(lines) + (line + "\n")
  {
    UnlinesAppend(lines, [line]);
    UnlinesOne(line);
  }

  lemma NoJobLines(jobs: seq<Job>, logDir: string)
    ensures JobLines(jobs[..0], logDir) == []
  {
  }

  lemma {:induction false} JobLinesStep(jobs: seq<Job>, logDir: string, k: nat)
    requires k < |jobs|
    ensures JobLines(jobs[..k + 1], logDir)
         == JobLines(jobs[..k], logDir) + [CommentLine(jobs[k].name, jobs[k].id)] + [EntryLine(jobs[k], logDir)]
    decreases k
  {
    hide CommentLine, EntryLine;
    if k == 0 {
      assert jobs[..1] == [jobs[0]] && jobs[..1][1..] == [];
    } else {
      JobLinesStep(jobs[1..], logDir, k - 1);
      assert jobs[..k + 1][1..] == jobs[1..][..k] && jobs[..k][1..] == jobs[1..][..k - 1];
    }
  }

  /**** managedJobIDs ****/

  predicate IsHex(c: char) {
    '0' <= c <= '9' || 'a' <= c <= 'f' || 'A' <= c <= 'F'
  }

  // validate.UUID.
  predicate IsUuid(value: string) {
    |value| == 36 &&
    forall i :: 0 <= i < 36 ==> if i == 8 || i == 13 || i == 18 || i == 23 then value[i] == '-' else IsHex(value[i])
  }

  // The identifier a line of the block gives, if any.
  function LineId(line: string): seq<string> {
    var opening := Cut(line, "(job ");
    if opening.None? then []
    else
      var closing := Cut(opening.value.1, ")");
      if closing.None? || !IsUuid(closing.value.0) then [] else [closing.value.0]
  }

  function Ids(lines: seq<string>, inside: bool): seq<string> {
    if lines == [] then []
    else if IsBegin(lines[0]) then Ids(lines[1..], true)
    else if IsEnd(lines[0]) then Ids(lines[1..], false)
    else (if inside then LineId(TrimTail(lines[0])) else []) + Ids(lines[1..], inside)
  }

  lemma LineIdUnfolds(line: string)
    ensures var opening := Cut(line, "(job ");
            && (opening.None? ==> LineId(line) == [])
            && (opening.Some? ==>
                  var closing := Cut(opening.value.1, ")");
                  LineId(line) == if closing.Some? && IsUuid(closing.value.0) then [closing.value.0] else [])
  {
  }

  method ManagedJobIds(existing: string) returns (ids: seq<string>)
    ensures ids == Ids(Split(existing, '\n'), false)
  {
    hide IsBegin, IsEnd, IsUuid, Split, Find, LineId, TrimTail, Cut;
    var lines := Split(existing, '\n');
    var inside := false;
    ids := [];
    for k := 0 to |lines|
      invariant ids + Ids(lines[k..], inside) == Ids(lines, false)
    {
      var line := lines[k];
      var trimmed := TrimTail(line);
      assert lines[k..][0] == line && lines[k..][1..] == lines[k + 1..];
      if IsBegin(line) {
        inside := true;
      } else if IsEnd(line) {
        inside := false;
      } else if inside {
        Assoc(ids, LineId(trimmed), Ids(lines[k + 1..], true));
        LineIdUnfolds(trimmed);
        ghost var before := ids;
        var opening := Cut(trimmed, "(job ");
        if opening.Some? {
          var closing := Cut(opening.value.1, ")");
          if closing.Some? && IsUuid(closing.value.0) {
            ids := ids + [closing.value.0];
          }
        }
        assert ids == before + LineId(trimmed);
      }
    }
    assert lines[|lines|..] == [];
  }

  /**** A comment line gives back its identifier ****/

  const OPENING: string := "(job "

  // Nothing in a text reads as the opening of an identifier once a space follows it.
  ghost predicate Quiet(text: string) {
    forall i :: 0 <= i <= |text| + 1 ==> !(OPENING <= (text + " ")[i..])
  }

  lemma QuietIsNotContaining(text: string)
    ensures Quiet(text) <==> !Contains(text + " ", OPENING)
  {
    var s := text + " ";
    if Quiet(text) {
      FindNone(s, OPENING);
    }
    if Find(s, OPENING).None? {
      assert Quiet(text);
    }
  }

  lemma OpeningAt(s: string, i: nat)
    requires i <= |s|
    ensures OPENING <= s[i..] <==>
            i + 5 <= |s| && s[i] == '(' && s[i + 1] == 'j' && s[i + 2] == 'o' && s[i + 3] == 'b' && s[i + 4] == ' '
  {
    if i + 5 <= |s| {
      assert s[i..][..5] == s[i..i + 5];
    }
  }

  // In a comment line, what is found first is the opening in the name, or else the line's own.
  lemma OpeningInComment(name: string, id: string, i: nat)
    requires i < |name| + 3
    ensures var line := CommentLine(name, id);
            OPENING <= line[i..] <==> i >= 2 && OPENING <= (name + " ")[i - 2..]
  {
    var line, s := CommentLine(name, id), name + " ";
    OpeningAt(line, i);
    assert |line| == |name| + |id| + 9;
    assert line[|name| + 2] == ' ' && line[|name| + 3] == '(';
    if i >= 2 {
      OpeningAt(s, i - 2);
      assert forall k :: 2 <= k < |name| + 3 ==> line[k] == s[k - 2];
    }
  }

  lemma UuidShape(id: string)
    requires IsUuid(id)
    ensures |id| == 36 && forall i :: 0 <= i < 36 ==> id[i] != ' ' && id[i] != ')' && id[i] != '('
  {
  }

  lemma IdBeforeParenthesis(id: string, rest: string)
    requires IsUuid(id) && (id + ")") <= rest
    ensures Cut(rest, ")") == Some((id, rest[37..]))
  {
    hide IsUuid, Find;
    UuidShape(id);
    assert rest[36] == (id + ")")[36] == ')';
    assert rest[36..][..1] == ")";
    forall i | 0 <= i < 36 ensures !(")" <= rest[i..]) {
      assert rest[i..][0] == rest[i] == (id + ")")[i];
    }
    FindAt(rest, ")", 36);
    assert rest[..36] == id by {
      assert rest[..37] == id + ")";
    }
  }

  lemma CommentReadsBack(name: string, id: string)
    requires IsUuid(id) && Quiet(name)
    ensures LineId(CommentLine(name, id)) == [id]
  {
    hide IsUuid, Find;
    UuidShape(id);
    var line := CommentLine(name, id);
    var at := |name| + 3;
    forall i | 0 <= i < at ensures !(OPENING <= line[i..]) {
      OpeningInComment(name, id, i);
    }
    assert line[at..] == OPENING + id + ")";
    FindAt(line, OPENING, at);
    var rest := line[at + 5..];
    assert rest == id + ")";
    IdBeforeParenthesis(id, rest);
  }

  // The exact condition: no opening in the name followed by a space, or the first one there is
  // already followed by this job's own identifier.
  ghost predicate NameIsSafe(name: string, id: string) {
    match Find(name + " ", OPENING)
    case None => true
    case Some(p) => p + 5 <= |name| && id + ")" <= name[p + 5..]
  }

  lemma FirstOpening(name: string, id: string, p: nat)
    requires Find(name + " ", OPENING) == Some(p)
    ensures p + 4 <= |name| && Find(CommentLine(name, id), OPENING) == Some(p + 2)
  {
    hide CommentLine, Find;
    var line, s := CommentLine(name, id), name + " ";
    CommentIs(name, id);
    PrefixOfSlice(s, p, OPENING);
    forall i | 0 <= i < p + 2 ensures !(OPENING <= line[i..]) {
      OpeningInComment(name, id, i);
    }
    OpeningInComment(name, id, p + 2);
    FindAt(line, OPENING, p + 2);
  }

  lemma RestOfComment(name: string, id: string, from: nat)
    requires from <= |name| + 1
    ensures CommentLine(name, id)[from + 2..] == (name + " (job " + id + ")")[from..]
  {
    CommentIs(name, id);
  }

  lemma PrefixOfSlice(s: string, p: nat, sub: string)
    requires p + |sub| <= |s| && s[p..p + |sub|] == sub
    ensures sub <= s[p..]
  {
    assert s[p..][..|sub|] == s[p..p + |sub|];
  }

  lemma CommentIs(name: string, id: string)
    ensures CommentLine(name, id) == "# " + (name + " (job " + id + ")")
  {
  }

  // An identifier and its parenthesis cannot straddle the end of the name.
  lemma IdInsideName(name: string, id: string, from: nat)
    requires IsUuid(id) && from <= |name| + 1 && id + ")" <= (name + " (job " + id + ")")[from..]
    ensures from <= |name| && id + ")" <= name[from..]
  {
    hide IsUuid;
    UuidShape(id);
    var all, word := name + " (job " + id + ")", id + ")";
    var rest := all[from..];
    assert forall k :: 0 <= k < 37 ==> rest[k] == word[k] && word[k] != ' ';
    assert forall j :: from <= j < from + 37 ==> all[j] == rest[j - from];
    assert all[|name|] == ' ' && all[|name| + 1] == '(' && all[from] == id[0];
    assert from + 37 <= |name|;
    assert name[from..][..37] == rest[..37] == word;
  }

  lemma CommentReadsBackExactly(name: string, id: string)
    requires IsUuid(id)
    ensures LineId(CommentLine(name, id)) == [id] <==> NameIsSafe(name, id)
  {
    hide IsUuid, CommentLine, Find;
    UuidShape(id);
    var found := Find(name + " ", OPENING);
    if found.None? {
      QuietIsNotContaining(name);
      CommentReadsBack(name, id);
    } else {
      var p := found.value;
      FirstOpening(name, id, p);
      RestOfComment(name, id, p + 5);
      var line := CommentLine(name, id);
      var rest := line[p + 7..];
      assert Cut(line, OPENING).value.1 == rest;
      if NameIsSafe(name, id) {
        assert rest[..37] == name[p + 5..][..37];
        IdBeforeParenthesis(id, rest);
      } else if LineId(line) == [id] {
        ReadIdFollows(rest, id);
        IdInsideName(name, id, p + 5);
      }
    }
  }

  lemma ReadIdFollows(rest: string, id: string)
    requires Cut(rest, ")").Some? && Cut(rest, ")").value.0 == id
    ensures id + ")" <= rest
  {
    var p := Find(rest, ")").value;
    assert rest[..p + 1] == rest[..p] + rest[p..p + 1];
  }

  // The condition is needed: a name may end in "(job" without holding the whole opening, and then
  // the space that follows it completes one.
  lemma NameEndingInOpening(id: string)
    requires IsUuid(id)
    ensures !Contains("nightly(job", OPENING) && LineId(CommentLine("nightly(job", id)) != [id]
  {
    hide IsUuid, CommentLine, Find;
    var name := "nightly(job";
    assert !Contains(name, OPENING) by {
      forall i | 0 <= i <= |name| ensures !(OPENING <= name[i..]) {
        OpeningAt(name, i);
      }
      FindNone(name, OPENING);
    }
    var s := name + " ";
    forall i | 0 <= i < 7 ensures !(OPENING <= s[i..]) {
      OpeningAt(s, i);
    }
    OpeningAt(s, 7);
    FindAt(s, OPENING, 7);
    CommentReadsBackExactly(name, id);
  }

  /**** Lines that give no identifier ****/

  lemma SilentLine(line: string)
    requires forall i :: 0 <= i <= |line| ==> !(OPENING <= line[i..])
    ensures LineId(line) == []
  {
    FindNone(line, OPENING);
  }

  lemma NoParenthesisIsSilent(line: string)
    requires '(' !in line
    ensures LineId(line) == []
  {
    forall i | 0 <= i <= |line| ensures !(OPENING <= line[i..]) {
      OpeningAt(line, i);
    }
    SilentLine(line);
  }

  // Words joined by spaces hold no opening when none of them does.
  lemma {:induction false} QuietWords(a: string, b: string)
    requires Quiet(a) && Quiet(b)
    ensures Quiet(a + " " + b)
  {
    var all := a + " " + b;
    var s := all + " ";
    forall i | 0 <= i <= |s| ensures !(OPENING <= s[i..]) {
      OpeningAt(s, i);
      assert s[|a|] == ' ';
      if i <= |a| {
        OpeningAt(a + " ", i);
        assert forall k :: 0 <= k <= |a| ==> s[k] == (a + " ")[k];
      } else {
        OpeningAt(b + " ", i - |a| - 1);
        assert forall k :: |a| < k < |s| ==> s[k] == (b + " ")[k - |a| - 1];
      }
    }
  }

  lemma QuietWord(word: string)
    requires forall i :: 0 <= i < |word| ==> word[i] != 'j'
    ensures Quiet(word)
  {
    forall i | 0 <= i <= |word| + 1 ensures !(OPENING <= (word + " ")[i..]) {
      OpeningAt(word + " ", i);
    }
  }

  lemma EntryLineIsSilent(job: Job, logDir: string)
    requires Quiet(job.schedule) && Quiet(job.command) && Quiet(LogPath(logDir, job.id))
    ensures LineId(EntryLine(job, logDir)) == []
  {
    hide Quiet, LogPath;
    var path := LogPath(logDir, job.id);
    QuietWord("(");
    QuietWord(")");
    QuietWord(">>");
    QuietWord("2>&1");
    QuietWords(job.schedule, "(");
    var l1 := job.schedule + " " + "(";
    QuietWords(l1, job.command);
    var l2 := l1 + " " + job.command;
    QuietWords(l2, ")");
    var l3 := l2 + " " + ")";
    QuietWords(l3, ">>");
    var l4 := l3 + " " + ">>";
    QuietWords(l4, path);
    var l5 := l4 + " " + path;
    QuietWords(l5, "2>&1");
    assert EntryLine(job, logDir) == l5 + " " + "2>&1";
    QuietLineIsSilent(EntryLine(job, logDir));
  }

  lemma QuietLineIsSilent(line: string)
    requires Quiet(line)
    ensures LineId(line) == []
  {
    forall i | 0 <= i <= |line| ensures !(OPENING <= line[i..]) {
      OpeningAt(line, i);
      OpeningAt(line + " ", i);
    }
    SilentLine(line);
  }

  /**** The identifiers of a merged crontab ****/

  // What the written job must be, as opposed to what Validate checks of its trimmed fields.
  ghost predicate Writable(job: Job, logDir: string) {
    && IsUuid(job.id)
    && '\n' !in job.name && '\n' !in job.schedule && '\n' !in job.command && '\n' !in logDir
    && NameIsSafe(job.name, job.id)
    && Quiet(job.schedule) && Quiet(job.command) && Quiet(LogPath(logDir, job.id))
  }

  ghost predicate AllWritable(jobs: seq<Job>, logDir: string) {
    forall i :: 0 <= i < |jobs| ==> Writable(jobs[i], logDir)
  }

  function JobIds(jobs: seq<Job>): seq<string> {
    if jobs == [] then [] else [jobs[0].id] + JobIds(jobs[1..])
  }

  lemma {:induction false} IdsOutside(lines: seq<string>, rest: seq<string>, inside: bool)
    requires NoBegin(lines) && !inside
    ensures Ids(lines + rest, inside) == Ids(rest, false)
  {
    hide IsBegin, IsEnd, LineId, TrimTail;
    if lines == [] {
      assert lines + rest == rest;
    } else {
      assert (lines + rest)[0] == lines[0] && (lines + rest)[1..] == lines[1..] + rest;
      IdsOutside(lines[1..], rest, false);
    }
  }

  lemma MarkerEnds()
    ensures |BEGIN| > 0 && BEGIN[|BEGIN| - 1] == 't'
    ensures |END| > 0 && END[|END| - 1] == 's'
  {
  }

  // A line that ends as neither marker does is left as it is, and is neither.
  lemma OrdinaryLine(line: string)
    requires line != "" && line[|line| - 1] !in " \tts"
    ensures TrimTail(line) == line && !IsBegin(line) && !IsEnd(line)
  {
    hide BEGIN, END;
    MarkerEnds();
  }

  lemma MarkersAreMarkers()
    ensures IsBegin(BEGIN) && IsEnd(END) && !IsEnd(BEGIN) && !IsBegin(END)
  {
    MarkerEnds();
    MarkersDiffer();
    hide BEGIN, END;
  }

  lemma JobLineShapes(job: Job, logDir: string)
    requires Writable(job, logDir)
    ensures var c, e := CommentLine(job.name, job.id), EntryLine(job, logDir);
            && TrimTail(c) == c && !IsBegin(c) && !IsEnd(c) && '\n' !in c
            && TrimTail(e) == e && !IsBegin(e) && !IsEnd(e) && '\n' !in e
  {
    hide NameIsSafe, Quiet, TrimTail, IsBegin, IsEnd;
    var c, e := CommentLine(job.name, job.id), EntryLine(job, logDir);
    UuidHasNoNewline(job.id);
    assert c[|c| - 1] == ')';
    assert e[|e| - 1] == '1';
    OrdinaryLine(c);
    OrdinaryLine(e);
  }

  lemma UuidHasNoNewline(id: string)
    requires IsUuid(id)
    ensures '\n' !in id
  {
  }

  lemma IdsOfTwo(c: string, e: string, rest: seq<string>)
    requires TrimTail(c) == c && !IsBegin(c) && !IsEnd(c) && TrimTail(e) == e && !IsBegin(e) && !IsEnd(e)
    ensures Ids([c, e] + rest, true) == LineId(c) + (LineId(e) + Ids(rest, true))
  {
    hide IsBegin, IsEnd, TrimTail, LineId;
    assert ([c, e] + rest)[1..] == [e] + rest && ([e] + rest)[1..] == rest;
  }

  lemma {:induction false} IdsOfJobLines(jobs: seq<Job>, logDir: string, rest: seq<string>)
    requires AllWritable(jobs, logDir)
    ensures Ids(JobLines(jobs, logDir) + rest, true) == JobIds(jobs) + Ids(rest, true)
    ensures Free(JobLines(jobs, logDir), '\n') && NoEnd(JobLines(jobs, logDir))
  {
    hide Writable, IsBegin, IsEnd, TrimTail, LineId, CommentLine, EntryLine, Ids;
    if jobs == [] {
      assert JobLines(jobs, logDir) + rest == rest;
    } else {
      var c, e := CommentLine(jobs[0].name, jobs[0].id), EntryLine(jobs[0], logDir);
      var more := JobLines(jobs[1..], logDir);
      IdsOfJobLines(jobs[1..], logDir, rest);
      JobLineShapes(jobs[0], logDir);
      JobLinesRead(jobs[0], logDir);
      Assoc([c, e], more, rest);
      IdsOfTwo(c, e, more + rest);
      assert [] + Ids(more + rest, true) == Ids(more + rest, true);
      Assoc([jobs[0].id], JobIds(jobs[1..]), Ids(rest, true));
    }
  }

  lemma JobLinesRead(job: Job, logDir: string)
    requires Writable(job, logDir)
    ensures LineId(CommentLine(job.name, job.id)) == [job.id] && LineId(EntryLine(job, logDir)) == []
  {
    hide IsUuid, CommentLine, EntryLine, LineId, Quiet, NameIsSafe;
    CommentReadsBackExactly(job.name, job.id);
    EntryLineIsSilent(job, logDir);
  }

  predicate Ordinary(s: string) {
    '(' !in s && '\n' !in s
  }

  lemma NoteShapes()
    ensures Ordinary(WRITTEN) && Ordinary(OVERWRITTEN) && Ordinary(LEFT_ALONE)
    ensures |OVERWRITTEN| > 0 && OVERWRITTEN[|OVERWRITTEN| - 1] == ';'
    ensures |LEFT_ALONE| > 0 && LEFT_ALONE[|LEFT_ALONE| - 1] == '.'
  {
    hide OVERWRITTEN;
    assert Ordinary(WRITTEN);
    assert Ordinary(LEFT_ALONE);
    OverwrittenShape();
  }

  lemma OverwrittenShape()
    ensures Ordinary(OVERWRITTEN) && |OVERWRITTEN| > 0 && OVERWRITTEN[|OVERWRITTEN| - 1] == ';'
  {
    var front, back := ". Changes inside this block", " are overwritten by the panel;";
    assert Ordinary(front);
    assert Ordinary(back);
    assert OVERWRITTEN == front + back;
  }

  lemma NotesAreOrdinary(written: string)
    requires '(' !in written && '\n' !in written
    ensures forall i :: 0 <= i < 2 ==>
              var l := NoteLines(written)[i];
              LineId(l) == [] && TrimTail(l) == l && !IsBegin(l) && !IsEnd(l) && '\n' !in l
  {
    hide TrimTail, IsBegin, IsEnd, LineId, WRITTEN, OVERWRITTEN, LEFT_ALONE;
    NoteShapes();
    var a, b := WRITTEN + written + OVERWRITTEN, LEFT_ALONE;
    assert a[|a| - 1] == OVERWRITTEN[|OVERWRITTEN| - 1];
    OrdinaryLine(a);
    OrdinaryLine(b);
    NoParenthesisIsSilent(a);
    NoParenthesisIsSilent(b);
  }

  // The block render writes is well-formed, so the laws of merge hold of it.
  lemma RenderedIsBlock(written: string, jobs: seq<Job>, logDir: string)
    requires '(' !in written && '\n' !in written && AllWritable(jobs, logDir)
    ensures IsBlock(Unlines(BlockLines(written, jobs, logDir)), BEGIN, NoteLines(written) + JobLines(jobs, logDir), END)
    ensures WellFormed(Unlines(BlockLines(written, jobs, logDir)))
  {
    hide IsBegin, IsEnd, TrimTail, LineId, JobLines, Writable, Unlines, NoteLines;
    MarkersAreMarkers();
    NotesAreOrdinary(written);
    NotesTwo(written);
    IdsOfJobLines(jobs, logDir, []);
    MarkersFree();
    var body := NoteLines(written) + JobLines(jobs, logDir);
    assert Free([BEGIN] + body + [END], '\n');
    assert NoEnd(body);
  }

  lemma NotesTwo(written: string)
    ensures |NoteLines(written)| == 2
  {
  }

  lemma MarkersFree()
    ensures '\n' !in BEGIN && '\n' !in END
  {
  }

  // The identifiers read back from a merged crontab are those of the jobs rendered into it, in
  // order, when the account's own lines hold no further begin marker.
  lemma MergedIdsReadBack(existing: string, written: string, jobs: seq<Job>, logDir: string)
    requires '(' !in written && '\n' !in written && AllWritable(jobs, logDir)
    requires NoBegin(KeptAfter(existing))
    ensures Ids(Split(Merged(existing, Unlines(BlockLines(written, jobs, logDir))), '\n'), false) == JobIds(jobs)
  {
    hide IsBegin, IsEnd, TrimTail, LineId, JobLines, Writable, Unlines, Split, Merged, JobIds, BEGIN, END, NoteLines,
      KeptBefore, KeptAfter;
    RenderedIsBlock(written, jobs, logDir);
    var block := BlockLines(written, jobs, logDir);
    MergedIsUnlines(existing, block);
    SplitOfUnlines(MergedLines(existing, block));
    KeptIsFree(existing);
    var before, after := KeptBefore(existing), KeptAfter(existing);
    var lines := MergedLines(existing, block) + [""];
    assert lines == before + (block + (after + [""]));
    IdsOutside(before, block + (after + [""]), false);
    IdsOfBlock(written, jobs, logDir, after + [""]);
    IdsOutside(after, [""], false);
    LastLineIsOutside();
  }

  lemma LastLineIsOutside()
    ensures Ids([""], false) == []
  {
    assert [""][1..] == [];
  }

  lemma IdsOfBlock(written: string, jobs: seq<Job>, logDir: string, rest: seq<string>)
    requires '(' !in written && '\n' !in written && AllWritable(jobs, logDir)
    ensures Ids(BlockLines(written, jobs, logDir) + rest, false) == JobIds(jobs) + Ids(rest, false)
  {
    hide IsBegin, IsEnd, TrimTail, LineId, JobLines, Writable, BEGIN, END, JobIds;
    MarkersAreMarkers();
    NotesAreOrdinary(written);
    var notes, entries := NoteLines(written), JobLines(jobs, logDir);
    var tail := [END] + rest;
    IdsOfJobLines(jobs, logDir, tail);
    assert tail[1..] == rest;
    assert Ids(tail, true) == Ids(rest, false);
    var n1 := [notes[1]] + (entries + tail);
    var n0 := [notes[0]] + n1;
    var all := [BEGIN] + n0;
    assert n1[1..] == entries + tail && n0[1..] == n1 && all[1..] == n0;
    assert Ids(n1, true) == [] + Ids(entries + tail, true);
    assert Ids(n0, true) == [] + Ids(n1, true);
    assert Ids(all, false) == Ids(n0, true);
    assert BlockLines(written, jobs, logDir) + rest == all;
  }

  /**** What Validate lets through ****/

  const MAX_JOB_NAME_LENGTH: nat := 60

  // validate.JobName looks at the trimmed name.
  predicate JobName(name: string) {
    var trimmed := TrimSpace(name);
    && trimmed != "" && Utf8Length(trimmed) <= MAX_JOB_NAME_LENGTH
    && '\n' !in trimmed && '\r' !in trimmed && '\0' !in trimmed
  }

  // A comment stays one line exactly when the name holds no line break.
  lemma NameKeepsItsLine(name: string, id: string)
    requires IsUuid(id)
    ensures Split(CommentLine(name, id), '\n') == [CommentLine(name, id)] <==> '\n' !in name
  {
    hide IsUuid, Split;
    UuidHasNoNewline(id);
    var line, end := CommentLine(name, id), " (job " + id + ")";
    BetweenEnds("# ", name, end, '\n');
    assert line == "# " + name + end && [line][0] == line;
    SplitIsFree(line, '\n');
    if '\n' !in name {
      SplitOfFree(line, '\n');
    }
  }

  lemma BetweenEnds(a: string, b: string, c: string, sep: char)
    requires sep !in a && sep !in c
    ensures sep in a + b + c <==> sep in b
  {
    if sep in b {
      var i :| 0 <= i < |b| && b[i] == sep;
      assert (a + b + c)[|a| + i] == sep;
    }
  }

  // The names let through are those whose trimmed text has no line break, so any break stands in the
  // blanks at either end, and the comment stays one line exactly when there is none there.
  lemma AcceptedNameKeepsItsLine(name: string, id: string) returns (left: string, right: string)
    requires JobName(name) && IsUuid(id)
    ensures name == left + TrimSpace(name) + right && Blank(left) && Blank(right)
    ensures Split(CommentLine(name, id), '\n') == [CommentLine(name, id)] <==> '\n' !in left && '\n' !in right
  {
    hide IsUuid, Split, TrimSpace, Utf8Length, Blank, CommentLine;
    left, right := TrimSpaceDropsBlanks(name);
    NameKeepsItsLine(name, id);
    assert name == left + TrimSpace(name) + right;
  }

  lemma TrimmedWord(word: string)
    requires word != "" && !IsSpace(word[0]) && !IsSpace(word[|word| - 1])
    ensures TrimSpace(word + "\n") == word
  {
    hide IsSpace;
    NewlineIsSpace();
    var name := word + "\n";
    TrimLeftOf("", name);
    assert "" + name == name;
    assert name[..|word|] == word;
    assert TrimRight(name) == TrimRight(word) == word;
  }

  lemma NewlineIsSpace()
    ensures IsSpace('\n')
  {
  }

  // A name that passes can still end in a line break, and its comment is then two lines.
  lemma AcceptedNameBreaksItsLine(id: string)
    requires IsUuid(id)
    ensures JobName("nightly\n")
    ensures Split(CommentLine("nightly\n", id), '\n') == ["# nightly", " (job " + id + ")"]
  {
    hide IsUuid, TrimSpace, Utf8Length, Split;
    UuidHasNoNewline(id);
    var word := "nightly";
    TrimmedWord(word);
    assert word + "\n" == "nightly\n";
    ShortWord(word);
    var second := " (job " + id + ")";
    assert CommentLine("nightly\n", id) == "# nightly" + "\n" + second;
    SplitAtSeparator("# nightly", second, '\n');
    SplitOfFree(second, '\n');
  }

  lemma {:induction false} ShortWord(word: string)
    ensures Utf8Length(word) <= 4 * |word|
  {
    if word != "" {
      ShortWord(word[1..]);
    }
  }
}
