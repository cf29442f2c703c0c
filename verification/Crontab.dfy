// The panel's block inside a crontab it shares with the account's own entries:
// agent/internal/cron/crontab.go.
module Crontab {
  import opened Wrappers
  import opened Bytes
  import opened Text
  import opened Parts

  const EM_DASH: char := '\U{2014}'
  const BEGIN: string := "# BEGIN JotHost scheduled jobs " + [EM_DASH] + " managed by the panel, do not edit"
  const END: string := "# END JotHost scheduled jobs"

  // strings.TrimRight(line, " \t").
  function TrimTail(line: string): string {
    if line != "" && (line[|line| - 1] == ' ' || line[|line| - 1] == '\t') then TrimTail(line[..|line| - 1]) else line
  }

  predicate IsBegin(line: string) { TrimTail(line) == BEGIN }
  predicate IsEnd(line: string) { TrimTail(line) == END }

  lemma MarkersDiffer()
    ensures BEGIN != END
    ensures forall line :: !(IsBegin(line) && IsEnd(line))
  {
    assert BEGIN[2] == 'B' && END[2] == 'E';
  }

  /**** Finding the block ****/

  ghost predicate NoBegin(lines: seq<string>) {
    forall i :: 0 <= i < |lines| ==> !IsBegin(lines[i])
  }

  ghost predicate NoEnd(lines: seq<string>) {
    forall i :: 0 <= i < |lines| ==> !IsEnd(lines[i])
  }

  // The lines before the first begin marker, and those after the first end marker that follows it:
  // nothing when the block is not terminated.
  function Before(lines: seq<string>): (r: seq<string>)
    ensures r <= lines && NoBegin(r)
    ensures |r| < |lines| ==> IsBegin(lines[|r|])
  {
    if lines == [] || IsBegin(lines[0]) then []
    else
      var r := Before(lines[1..]);
      assert forall i :: 1 <= i < |lines| ==> lines[i] == lines[1..][i - 1];
      [lines[0]] + r
  }

  function AfterEnd(lines: seq<string>): seq<string> {
    if lines == [] then [] else if IsEnd(lines[0]) then lines[1..] else AfterEnd(lines[1..])
  }

  function After(lines: seq<string>): seq<string> {
    AfterEnd(lines[|Before(lines)|..])
  }

  lemma {:induction false} BeforeOf(front: seq<string>, rest: seq<string>)
    requires NoBegin(front) && (rest != [] ==> IsBegin(rest[0]))
    ensures Before(front + rest) == front
  {
    hide IsBegin;
    if front == [] {
      assert front + rest == rest;
    } else {
      assert (front + rest)[0] == front[0] && (front + rest)[1..] == front[1..] + rest;
      BeforeOf(front[1..], rest);
    }
  }

  lemma {:induction false} AfterEndOf(front: seq<string>, end: string, rest: seq<string>)
    requires NoEnd(front) && IsEnd(end)
    ensures AfterEnd(front + [end] + rest) == rest
  {
    hide IsEnd;
    var lines := front + [end] + rest;
    if front == [] {
      assert lines[0] == end && lines[1..] == rest;
    } else {
      assert lines[0] == front[0] && lines[1..] == front[1..] + [end] + rest;
      AfterEndOf(front[1..], end, rest);
    }
  }

  /**** merge ****/

  function DropTrailing(lines: seq<string>): seq<string> {
    if lines != [] && TrimSpace(lines[|lines| - 1]) == "" then DropTrailing(lines[..|lines| - 1]) else lines
  }

  function DropLeading(lines: seq<string>): seq<string> {
    if lines != [] && TrimSpace(lines[0]) == "" then DropLeading(lines[1..]) else lines
  }

  lemma {:induction false} DropTrailingIsStart(lines: seq<string>)
    ensures DropTrailing(lines) <= lines
    ensures DropTrailing(lines) != [] ==> !Blank(DropTrailing(lines)[|DropTrailing(lines)| - 1])
    decreases |lines|
  {
    hide IsSpace;
    if lines != [] && TrimSpace(lines[|lines| - 1]) == "" {
      DropTrailingIsStart(lines[..|lines| - 1]);
    }
  }

  lemma {:induction false} DropLeadingIsEnd(lines: seq<string>)
    ensures |DropLeading(lines)| <= |lines| && DropLeading(lines) == lines[|lines| - |DropLeading(lines)|..]
    ensures DropLeading(lines) != [] ==> !Blank(DropLeading(lines)[0])
  {
    hide IsSpace;
    if lines != [] && TrimSpace(lines[0]) == "" {
      DropLeadingIsEnd(lines[1..]);
    }
  }

  // What merge keeps of a crontab: the lines outside the block, without the blank ones at its edges.
  function KeptBefore(existing: string): seq<string> {
    DropTrailing(Before(Split(existing, '\n')))
  }

  function KeptAfter(existing: string): seq<string> {
    DropTrailing(DropLeading(After(Split(existing, '\n'))))
  }

  function EndLine(text: string): (r: string)
    ensures r != "" ==> r[|r| - 1] == '\n'
  {
    if text != "" && text[|text| - 1] != '\n' then text + "\n" else text
  }

  // The file merge writes: empty, or ending in a newline.
  function Merged(existing: string, block: string): (r: string)
    ensures r != "" ==> r[|r| - 1] == '\n'
  {
    hide *;
    var text := Unlines(KeptBefore(existing)) + block + Unlines(KeptAfter(existing));
    EndLine(text)
  }

  method TrimTrailingBlanks(lines: seq<string>) returns (joined: string)
    ensures joined == Join(DropTrailing(lines), '\n')
  {
    var rest := lines;
    while |rest| > 0 && TrimSpace(rest[|rest| - 1]) == ""
      invariant DropTrailing(rest) == DropTrailing(lines)
    {
      rest := rest[..|rest| - 1];
    }
    return Join(rest, '\n');
  }

  method TrimLeadingBlanks(lines: seq<string>) returns (joined: string)
    ensures joined == Join(DropTrailing(DropLeading(lines)), '\n')
  {
    var rest := lines;
    while |rest| > 0 && TrimSpace(rest[0]) == ""
      invariant DropLeading(rest) == DropLeading(lines)
    {
      rest := rest[1..];
    }
    while |rest| > 0 && TrimSpace(rest[|rest| - 1]) == ""
      invariant DropTrailing(rest) == DropTrailing(DropLeading(lines))
    {
      rest := rest[..|rest| - 1];
    }
    return Join(rest, '\n');
  }

  // Joined lines are written with a newline after them unless there is nothing to write.
  lemma JoinedOrNothing(lines: seq<string>)
    requires lines != [] ==> !Blank(lines[|lines| - 1])
    ensures Unlines(lines) == if Join(lines, '\n') != "" then Join(lines, '\n') + "\n" else ""
  {
    hide IsSpace, Unlines;
    if lines == [] {
      NoUnlines();
    } else {
      UnlinesIsJoin(lines);
      JoinNotEmpty(lines);
    }
  }

  lemma NoUnlines()
    ensures Unlines([]) == ""
  {
  }

  lemma {:induction false} JoinNotEmpty(lines: seq<string>)
    requires lines != [] && !Blank(lines[|lines| - 1])
    ensures Join(lines, '\n') != ""
  {
    hide IsSpace;
    if |lines| > 1 {
      JoinNotEmpty(lines[1..]);
    }
  }

  // The part of merge that finds the block.
  method FindBlock(lines: seq<string>) returns (before: seq<string>, after: seq<string>)
    ensures before == Before(lines) && after == After(lines)
  {
    hide IsSpace, IsBegin, IsEnd, Before, After, AfterEnd;
    var start: int, end: int := -1, -1;
    MarkersDiffer();
    for i := 0 to |lines|
      invariant start < 0 ==> end < 0 && NoBegin(lines[..i])
      invariant start >= 0 ==> start < i && IsBegin(lines[start]) && NoBegin(lines[..start])
      invariant start >= 0 && end < 0 ==> forall k :: start < k < i ==> !IsEnd(lines[k])
      invariant end >= 0 ==> start < end < i && IsEnd(lines[end]) && forall k :: start < k < end ==> !IsEnd(lines[k])
    {
      if IsBegin(lines[i]) && start < 0 {
        start := i;
      } else if IsEnd(lines[i]) && start >= 0 && end < 0 {
        end := i;
      }
    }
    assert lines[..|lines|] == lines;
    if start < 0 {
      before, after := lines, [];
    } else if end < 0 {
      before, after := lines[..start], [];
    } else {
      before, after := lines[..start], lines[end + 1..];
    }
    Located(lines, start, end, before, after);
  }

  method Merge(existing: string, block: string) returns (rendered: string)
    ensures rendered == Merged(existing, block)
  {
    hide IsSpace, Blank, Before, After, DropTrailing, DropLeading, Join, Unlines, Split, EndLine;
    var before, after := FindBlock(Split(existing, '\n'));
    rendered := "";
    var joined := TrimTrailingBlanks(before);
    DropTrailingIsStart(before);
    JoinedOrNothing(DropTrailing(before));
    if joined != "" {
      rendered := joined + "\n";
    }
    rendered := rendered + block;
    joined := TrimLeadingBlanks(after);
    DropTrailingIsStart(DropLeading(after));
    JoinedOrNothing(DropTrailing(DropLeading(after)));
    if joined != "" {
      rendered := rendered + (joined + "\n");
    }
    assert rendered == Unlines(KeptBefore(existing)) + block + Unlines(KeptAfter(existing));
    rendered := EndLine(rendered);
  }

  // The two indexes the loop finds are where the block is.
  lemma Located(lines: seq<string>, start: int, end: int, before: seq<string>, after: seq<string>)
    requires start < 0 ==> NoBegin(lines) && before == lines && after == []
    requires start >= 0 ==> start < |lines| && IsBegin(lines[start]) && before == lines[..start] && NoBegin(before)
    requires start >= 0 && end < 0 ==> NoEnd(lines[start + 1..]) && after == []
    requires start >= 0 && end >= 0 ==>
               start < end < |lines| && IsEnd(lines[end]) && NoEnd(lines[start + 1..end]) && after == lines[end + 1..]
    ensures before == Before(lines) && after == After(lines)
  {
    hide IsBegin, IsEnd, Before, AfterEnd, NoBegin;
    if start < 0 {
      BeforeOf(lines, []);
      assert lines + [] == lines && lines[|lines|..] == [];
      NothingAfterNothing();
    } else {
      LocatedBegin(lines, start, if end < 0 then -1 else end, after);
    }
  }

  lemma LocatedBegin(lines: seq<string>, start: nat, end: int, after: seq<string>)
    requires start < |lines| && IsBegin(lines[start]) && NoBegin(lines[..start])
    requires end < 0 ==> NoEnd(lines[start + 1..]) && after == []
    requires end >= 0 ==>
               start < end < |lines| && IsEnd(lines[end]) && NoEnd(lines[start + 1..end]) && after == lines[end + 1..]
    ensures Before(lines) == lines[..start] && After(lines) == after
  {
    hide IsBegin, IsEnd, Before, AfterEnd, NoBegin, NoEnd;
    var rest := lines[start..];
    BeforeOf(lines[..start], rest);
    assert lines[..start] + rest == lines;
    if end < 0 {
      assert rest[1..] == lines[start + 1..];
      AfterBegin(rest, -1, after);
    } else {
      assert rest[1..end - start] == lines[start + 1..end];
      assert rest[end - start + 1..] == lines[end + 1..];
      AfterBegin(rest, end - start, after);
    }
  }

  lemma NothingAfterNothing()
    ensures AfterEnd([]) == []
  {
  }

  lemma AfterBegin(rest: seq<string>, end: int, after: seq<string>)
    requires rest != [] && IsBegin(rest[0])
    requires end < 0 ==> NoEnd(rest[1..]) && after == []
    requires end >= 0 ==> 0 < end < |rest| && IsEnd(rest[end]) && NoEnd(rest[1..end]) && after == rest[end + 1..]
    ensures AfterEnd(rest) == after
  {
    hide IsBegin, IsEnd, AfterEnd;
    MarkersDiffer();
    assert !IsEnd(rest[0]);
    if end < 0 {
      forall i | 0 <= i < |rest| ensures !IsEnd(rest[i]) {
        assert i > 0 ==> rest[i] == rest[1..][i - 1];
      }
      NoEndAtAll(rest);
    } else {
      forall i | 0 <= i < end ensures !IsEnd(rest[..end][i]) {
        assert i > 0 ==> rest[i] == rest[1..end][i - 1];
      }
      SplitAround(rest, end);
      AfterEndOf(rest[..end], rest[end], after);
    }
  }

  lemma {:induction false} NoEndAtAll(lines: seq<string>)
    requires NoEnd(lines)
    ensures AfterEnd(lines) == []
  {
    if lines != [] {
      NoEndAtAll(lines[1..]);
    }
  }

  /**** The laws of merge ****/

  // A block as render writes one: a begin line, lines that are not the end marker, and the end line.
  ghost predicate IsBlock(block: string, begin: string, body: seq<string>, end: string) {
    && block == Unlines([begin] + body + [end])
    && Free([begin] + body + [end], '\n')
    && IsBegin(begin) && IsEnd(end) && NoEnd(body)
  }

  ghost predicate WellFormed(block: string) {
    exists begin, body, end :: IsBlock(block, begin, body, end)
  }

  lemma {:induction false} AfterEndIsSuffix(lines: seq<string>) returns (at: nat)
    ensures at <= |lines| && AfterEnd(lines) == lines[at..]
  {
    if lines == [] {
      at := 0;
    } else if IsEnd(lines[0]) {
      at := 1;
    } else {
      var k := AfterEndIsSuffix(lines[1..]);
      at := k + 1;
    }
  }

  lemma KeptIsFree(existing: string)
    ensures Free(KeptBefore(existing), '\n') && Free(KeptAfter(existing), '\n')
    ensures NoBegin(KeptBefore(existing))
  {
    hide IsSpace, IsBegin, IsEnd, Split, Before, AfterEnd, DropTrailing, DropLeading;
    var lines := Split(existing, '\n');
    SplitIsFree(existing, '\n');
    AfterIsFree(lines, '\n');
    DropTrailingIsStart(Before(lines));
    DroppedIsFree(After(lines), '\n');
  }

  lemma AfterIsFree(lines: seq<string>, sep: char)
    requires Free(lines, sep)
    ensures Free(After(lines), sep)
  {
    hide IsBegin, IsEnd, Before, AfterEnd;
    var n := |Before(lines)|;
    var at := AfterEndIsSuffix(lines[n..]);
    assert After(lines) == lines[n + at..];
  }

  lemma DroppedIsFree(lines: seq<string>, sep: char)
    requires Free(lines, sep)
    ensures Free(DropTrailing(DropLeading(lines)), sep)
  {
    hide IsSpace, DropTrailing, DropLeading;
    var leading := DropLeading(lines);
    DropLeadingIsEnd(lines);
    DropTrailingIsStart(leading);
    assert Free(leading, sep) by {
      assert leading == lines[|lines| - |leading|..];
    }
  }

  lemma {:induction false} DropTrailingKeeps(lines: seq<string>, blank: string)
    requires lines != [] ==> !Blank(lines[|lines| - 1])
    requires Blank(blank)
    ensures DropTrailing(lines) == lines && DropTrailing(lines + [blank]) == lines
  {
    assert (lines + [blank])[..|lines|] == lines;
  }

  // The lines of a merged file: what was kept before, the block's, what was kept after.
  function MergedLines(existing: string, block: seq<string>): seq<string> {
    KeptBefore(existing) + block + KeptAfter(existing)
  }

  lemma MergedIsUnlines(existing: string, block: seq<string>)
    requires Free(block, '\n')
    ensures Merged(existing, Unlines(block)) == Unlines(MergedLines(existing, block))
    ensures Free(MergedLines(existing, block), '\n')
  {
    hide KeptBefore, KeptAfter, Unlines, Join, Free;
    KeptIsFree(existing);
    var before, after := KeptBefore(existing), KeptAfter(existing);
    UnlinesAppend(before, block);
    UnlinesAppend(before + block, after);
    var lines := before + block + after;
    FreeAppend(before, block, after, '\n');
    UnlinesEndsLine(lines);
  }

  lemma FreeAppend(a: seq<string>, b: seq<string>, c: seq<string>, sep: char)
    requires Free(a, sep) && Free(b, sep) && Free(c, sep)
    ensures Free(a + b + c, sep)
  {
  }

  lemma UnlinesEndsLine(lines: seq<string>)
    ensures EndLine(Unlines(lines)) == Unlines(lines)
  {
    if lines != [] {
      UnlinesIsJoin(lines);
    }
  }

  // Merging a well-formed block keeps exactly the same text of the account's own as before.
  lemma MergeKeepsOutside(existing: string, block: string)
    requires WellFormed(block)
    ensures KeptBefore(Merged(existing, block)) == KeptBefore(existing)
    ensures KeptAfter(Merged(existing, block)) == KeptAfter(existing)
  {
    hide IsSpace, IsBegin, IsEnd, Split, Unlines, Join, Before, AfterEnd, DropTrailing, DropLeading;
    var begin, body, end :| IsBlock(block, begin, body, end);
    var before, after := KeptBefore(existing), KeptAfter(existing);
    var middle := [begin] + body + [end];
    MergedIsUnlines(existing, middle);
    KeptIsFree(existing);
    SplitOfUnlines(MergedLines(existing, middle));
    var lines := Split(Merged(existing, block), '\n');
    var rest := middle + after + [""];
    assert lines == before + rest;
    BeforeOf(before, rest);
    assert rest == ([begin] + body) + [end] + (after + [""]);
    MarkersDiffer();
    AfterEndOf([begin] + body, end, after + [""]);
    assert lines[|before|..] == rest;
    DropTrailingIsStart(Before(Split(existing, '\n')));
    DropTrailingKeeps(before, "");
    KeptEdges(existing);
    EdgesUntouched(after);
  }

  lemma KeptEdges(existing: string)
    ensures var after := KeptAfter(existing);
            after != [] ==> !Blank(after[0]) && !Blank(after[|after| - 1])
  {
    hide IsSpace, Blank, After, Split, DropTrailing, DropLeading;
    var leading := DropLeading(After(Split(existing, '\n')));
    DropLeadingIsEnd(After(Split(existing, '\n')));
    DropTrailingIsStart(leading);
    assert KeptAfter(existing) <= leading;
  }

  lemma EdgesUntouched(after: seq<string>)
    requires after != [] ==> !Blank(after[0]) && !Blank(after[|after| - 1])
    ensures DropTrailing(DropLeading(after + [""])) == after
  {
    if after == [] {
      assert DropLeading([""]) == DropLeading([""][1..]) == [];
      assert after + [""] == [""];
    } else {
      assert TrimSpace((after + [""])[0]) != "";
      DropTrailingKeeps(after, "");
    }
  }

  // A second block replaces the first: the result does not remember it.
  lemma SecondBlockReplacesFirst(existing: string, first: string, second: string)
    requires WellFormed(first)
    ensures Merged(Merged(existing, first), second) == Merged(existing, second)
  {
    MergeKeepsOutside(existing, first);
  }

  // Taking the block out again leaves what merging nothing would have.
  lemma RemovingUndoesAdding(existing: string, block: string)
    requires WellFormed(block)
    ensures Merged(Merged(existing, block), "") == Merged(existing, "")
  {
    MergeKeepsOutside(existing, block);
  }

  function NonBlank(lines: seq<string>): seq<string> {
    if lines == [] then []
    else (if TrimSpace(lines[0]) == "" then [] else [lines[0]]) + NonBlank(lines[1..])
  }

  lemma {:induction false} NonBlankAppend(a: seq<string>, b: seq<string>)
    ensures NonBlank(a + b) == NonBlank(a) + NonBlank(b)
  {
    hide TrimSpace;
    if a == [] {
      assert a + b == b;
    } else {
      NonBlankAppend(a[1..], b);
      assert (a + b)[0] == a[0] && (a + b)[1..] == a[1..] + b;
      Assoc(if TrimSpace(a[0]) == "" then [] else [a[0]], NonBlank(a[1..]), NonBlank(b));
    }
  }

  lemma {:induction false} DropLeadingKeepsNonBlank(lines: seq<string>)
    ensures NonBlank(DropLeading(lines)) == NonBlank(lines)
  {
    hide IsSpace, TrimSpace;
    if lines != [] {
      DropLeadingKeepsNonBlank(lines[1..]);
    }
  }

  lemma {:induction false} DropTrailingKeepsNonBlank(lines: seq<string>)
    ensures NonBlank(DropTrailing(lines)) == NonBlank(lines)
    decreases |lines|
  {
    hide IsSpace, TrimSpace;
    if lines != [] && TrimSpace(lines[|lines| - 1]) == "" {
      var n := |lines| - 1;
      DropTrailingKeepsNonBlank(lines[..n]);
      NonBlankAppend(lines[..n], [lines[n]]);
      assert lines == lines[..n] + [lines[n]];
      assert NonBlank([lines[n]]) == [] + NonBlank([lines[n]][1..]) == [];
    }
  }

  // Every non-blank line outside the block keeps its text and its place, around the block's lines.
  lemma MergeKeepsNonBlankLines(existing: string, block: seq<string>)
    requires Free(block, '\n')
    ensures NonBlank(Split(Merged(existing, Unlines(block)), '\n'))
         == NonBlank(Before(Split(existing, '\n'))) + NonBlank(block) + NonBlank(After(Split(existing, '\n')))
  {
    hide TrimSpace, Before, After;
    var lines := Split(existing, '\n');
    var before, after := KeptBefore(existing), KeptAfter(existing);
    MergedIsUnlines(existing, block);
    SplitOfUnlines(MergedLines(existing, block));
    NonBlankAppend(before + block + after, [""]);
    NonBlankAppend(before + block, after);
    NonBlankAppend(before, block);
    DropTrailingKeepsNonBlank(Before(lines));
    DropLeadingKeepsNonBlank(After(lines));
    DropTrailingKeepsNonBlank(DropLeading(After(lines)));
    assert NonBlank([""]) == [] by { BlankIsDropped(); }
  }

  lemma BlankIsDropped()
    ensures NonBlank([""]) == []
  {
    assert TrimSpace("") == "";
    assert NonBlank([""]) == NonBlank([""][1..]) == [];
  }
}
