// The two scanners of shared/validate/nginx.go, both held against one lexer: a quote or a comment
// is syntax only at the start of a token.
module Nginx {
  import opened Wrappers
  import opened Bytes
  import opened Text

  /**** The lexer, one character at a time ****/

  // Where the next character falls. The escape modes are inside a quote, after a backslash.
  datatype Mode = Plain(boundary: bool) | Comment | Single | Double | SingleEscape | DoubleEscape {
    predicate InQuote() { Single? || Double? || SingleEscape? || DoubleEscape? }
  }

  function Next(m: Mode, c: char): Mode {
    match m
    case Comment => if c == '\n' then Plain(true) else Comment
    case Single => if c == '\\' then SingleEscape else if c == '\'' then Plain(false) else Single
    case Double => if c == '\\' then DoubleEscape else if c == '"' then Plain(false) else Double
    case SingleEscape => Single
    case DoubleEscape => Double
    case Plain(boundary) =>
      if c == '#' && boundary then Comment
      else if c == '\'' && boundary then Single
      else if c == '"' && boundary then Double
      else Plain(c in "{};\n \t\r")
  }

  function LexFrom(m: Mode, text: string): Mode {
    if text == "" then m else Next(LexFrom(m, text[..|text| - 1]), text[|text| - 1])
  }

  // The mode after a text that starts at a token boundary.
  function Lex(text: string): Mode {
    LexFrom(Plain(true), text)
  }

  function BraceIn(m: Mode, c: char): int {
    if m.Plain? && c == '{' then 1 else if m.Plain? && c == '}' then -1 else 0
  }

  // Opening braces less closing ones, outside strings and comments.
  function DepthFrom(m: Mode, text: string): int {
    if text == "" then 0
    else
      var front := text[..|text| - 1];
      DepthFrom(m, front) + BraceIn(LexFrom(m, front), text[|text| - 1])
  }

  function Depth(text: string): int {
    DepthFrom(Plain(true), text)
  }

  lemma {:induction false} LexAppend(m: Mode, a: string, b: string)
    ensures LexFrom(m, a + b) == LexFrom(LexFrom(m, a), b)
    ensures DepthFrom(m, a + b) == DepthFrom(m, a) + DepthFrom(LexFrom(m, a), b)
    decreases |b|
  {
    if b == "" {
      assert a + b == a;
    } else {
      var front := b[..|b| - 1];
      LexAppend(m, a, front);
      assert (a + b)[..|a + b| - 1] == a + front;
    }
  }

  lemma Empty()
    ensures Lex("") == Plain(true) && Depth("") == 0
  {
  }

  lemma StepAt(text: string, i: nat)
    requires i < |text|
    ensures Lex(text[..i + 1]) == Next(Lex(text[..i]), text[i])
    ensures Depth(text[..i + 1]) == Depth(text[..i]) + BraceIn(Lex(text[..i]), text[i])
  {
    assert text[..i + 1][..i] == text[..i];
  }

  /**** checkBalance ****/

  datatype Balance = Balanced | ClosesServer(offset: nat) | Unterminated | LeftOpen(depth: int)

  ghost predicate NeverBelow(m: Mode, text: string, floor: int) {
    forall i :: 0 <= i <= |text| ==> DepthFrom(m, text[..i]) >= floor
  }

  // A text whose braces close where they opened.
  ghost predicate Accepted(text: string) {
    NeverBelow(Plain(true), text, 0) && !Lex(text).InQuote() && Depth(text) == 0
  }

  method CheckBalance(directives: string) returns (r: Balance)
    ensures r.Balanced? <==> Accepted(directives)
    ensures r.ClosesServer? <==> !NeverBelow(Plain(true), directives, 0)
    ensures r.ClosesServer? ==>
              && r.offset < |directives| && directives[r.offset] == '}' && Lex(directives[..r.offset]).Plain?
              && Depth(directives[..r.offset + 1]) < 0
              && (forall i :: 0 <= i <= r.offset ==> Depth(directives[..i]) >= 0)
    ensures r.Unterminated? <==> NeverBelow(Plain(true), directives, 0) && Lex(directives).InQuote()
    ensures r.LeftOpen? ==> r.depth == Depth(directives) > 0
  {
    hide DepthFrom, LexFrom;
    Empty();
    assert directives[..0] == "";
    var depth := 0;
    var inSingle, inDouble, inComment := false, false, false;
    var boundary := true;
    var i := 0;
    while i < |directives|
      invariant 0 <= i <= |directives| + 1
      invariant i <= |directives| ==>
                  Flags(Lex(directives[..i]), inSingle, inDouble, inComment, boundary) && depth == Depth(directives[..i])
      invariant i > |directives| ==>
                  (inSingle || inDouble) && Lex(directives).InQuote() && depth == Depth(directives)
      invariant forall j :: 0 <= j <= Min(i, |directives|) ==> Depth(directives[..j]) >= 0
      decreases |directives| - i
    {
      var c := directives[i];
      ghost var start := i;
      StepAt(directives, i);
      if inComment {
        if c == '\n' {
          inComment := false;
          boundary := true;
        }
      } else if inSingle {
        if c == '\\' {
          i := i + 1;
        } else if c == '\'' {
          inSingle := false;
          boundary := false;
        }
      } else if inDouble {
        if c == '\\' {
          i := i + 1;
        } else if c == '"' {
          inDouble := false;
          boundary := false;
        }
      } else if c == '#' {
        if boundary {
          inComment := true;
        }
        boundary := false;
      } else if c == '\'' {
        if boundary {
          inSingle := true;
        }
        boundary := false;
      } else if c == '"' {
        if boundary {
          inDouble := true;
        }
        boundary := false;
      } else if c == '{' {
        depth := depth + 1;
        boundary := true;
      } else if c == '}' {
        depth := depth - 1;
        boundary := true;
        if depth < 0 {
          return ClosesServer(i);
        }
      } else {
        boundary := c in " \t\n\r;";
      }
      i := i + 1;
      if start + 1 < |directives| {
        StepAt(directives, start + 1);
      }
      assert directives[..|directives|] == directives;
    }
    assert directives[..|directives|] == directives;
    if inSingle || inDouble {
      return Unterminated;
    }
    if depth != 0 {
      return LeftOpen(depth);
    }
    return Balanced;
  }

  // The flags both scanners keep, for a mode they can be in between two visited indexes.
  ghost predicate Flags(m: Mode, inSingle: bool, inDouble: bool, inComment: bool, boundary: bool) {
    match m
    case Plain(b) => !inSingle && !inDouble && !inComment && boundary == b
    case Comment => inComment && !inSingle && !inDouble
    case Single => inSingle && !inDouble && !inComment
    case Double => inDouble && !inSingle && !inComment
    case SingleEscape => false
    case DoubleEscape => false
  }

  /**** Accepted blocks stay inside the server they are written into ****/

  lemma {:induction false} NeverBelowFrom(m: Mode, a: string, b: string, floor: int)
    requires NeverBelow(m, a, floor)
    requires NeverBelow(LexFrom(m, a), b, floor - DepthFrom(m, a))
    ensures NeverBelow(m, a + b, floor)
  {
    var text := a + b;
    forall i | 0 <= i <= |text| ensures DepthFrom(m, text[..i]) >= floor {
      if i <= |a| {
        assert text[..i] == a[..i];
      } else {
        assert text[..i] == a + b[..i - |a|];
        LexAppend(m, a, b[..i - |a|]);
      }
    }
  }

  lemma AcceptedThenNewline(block: string)
    requires Accepted(block)
    ensures Lex(block + "\n") == Plain(true) && Depth(block + "\n") == 0
    ensures NeverBelow(Plain(true), block + "\n", 0)
  {
    LexAppend(Plain(true), block, "\n");
    var m := Lex(block);
    assert "\n"[..0] == "" && LexFrom(m, "\n") == Next(m, '\n');
    assert DepthFrom(m, "\n") == DepthFrom(m, "") + BraceIn(LexFrom(m, ""), '\n');
    forall i | 0 <= i <= |"\n"| ensures DepthFrom(m, "\n"[..i]) >= 0 {
      assert "\n"[..1] == "\n";
    }
    NeverBelowFrom(Plain(true), block, "\n", 0);
  }

  // A block the scanner accepts, written with a newline after it where a token may start and `depth`
  // braces are open, never closes one of them and leaves the lexer where it found it.
  lemma BlockStaysInside(before: string, block: string)
    requires Accepted(block) && Lex(before) == Plain(true)
    ensures Lex(before + block + "\n") == Plain(true)
    ensures Depth(before + block + "\n") == Depth(before)
    ensures forall i :: |before| <= i <= |before + block + "\n"| ==>
              Depth((before + block + "\n")[..i]) >= Depth(before)
  {
    AcceptedThenNewline(block);
    var written := block + "\n";
    assert before + block + "\n" == before + written;
    LexAppend(Plain(true), before, written);
    forall i | |before| <= i <= |before + written| ensures Depth((before + written)[..i]) >= Depth(before) {
      assert (before + written)[..i] == before + written[..i - |before|];
      LexAppend(Plain(true), before, written[..i - |before|]);
    }
  }

  // The blocks, each followed by a newline.
  function Joined(blocks: seq<string>): string {
    if blocks == [] then "" else blocks[0] + "\n" + Joined(blocks[1..])
  }

  lemma {:induction false} JoinedBlocksAccepted(blocks: seq<string>)
    requires forall i :: 0 <= i < |blocks| ==> Accepted(blocks[i])
    ensures Accepted(Joined(blocks)) && Lex(Joined(blocks)) == Plain(true)
  {
    if blocks != [] {
      JoinedBlocksAccepted(blocks[1..]);
      AcceptedThenNewline(blocks[0]);
      var first, rest := blocks[0] + "\n", Joined(blocks[1..]);
      LexAppend(Plain(true), first, rest);
      NeverBelowFrom(Plain(true), first, rest, 0);
    }
  }

  /**** splitStatements ****/

  // Whether a character met in this mode ends a statement.
  predicate Breaks(m: Mode, c: char) {
    m.Plain? && (c in ";{}\n" || (c == '#' && m.boundary))
  }

  // Whether a character met in this mode is text of a statement: neither comment nor delimiter.
  predicate Kept(m: Mode, c: char) {
    !m.Comment? && !Breaks(m, c)
  }

  // The untrimmed pieces of a text, the last one still open.
  function Pieces(text: string): (p: seq<string>)
    ensures |p| >= 1
  {
    if text == "" then [""]
    else
      var front, c := text[..|text| - 1], text[|text| - 1];
      var p, m := Pieces(front), Lex(front);
      if Breaks(m, c) then p + [""]
      else if Kept(m, c) then p[..|p| - 1] + [p[|p| - 1] + [c]]
      else p
  }

  // The pieces with blanks trimmed, and blank ones dropped.
  function Statements(pieces: seq<string>): seq<string> {
    if pieces == [] then []
    else
      var text := TrimSpace(pieces[|pieces| - 1]);
      Statements(pieces[..|pieces| - 1]) + if text != "" then [text] else []
  }

  lemma PieceAt(text: string, i: nat)
    requires i < |text|
    ensures var p, m, c := Pieces(text[..i]), Lex(text[..i]), text[i];
            var n := |p| - 1;
            && (Breaks(m, c) ==> Pieces(text[..i + 1]) == p + [""])
            && (Kept(m, c) ==> Pieces(text[..i + 1]) == p[..n] + [p[n] + [c]])
            && (!Breaks(m, c) && !Kept(m, c) ==> Pieces(text[..i + 1]) == p)
  {
    assert text[..i + 1][..i] == text[..i];
  }

  // What flush makes of the statements found and the text collected.
  function Flushed(statements: seq<string>, current: string): seq<string> {
    var text := TrimSpace(current);
    if text != "" then statements + [text] else statements
  }

  ghost predicate Collected(text: string, statements: seq<string>, current: string) {
    var p := Pieces(text);
    current == p[|p| - 1] && statements == Statements(p[..|p| - 1])
  }

  lemma CollectedStep(text: string, i: nat, statements: seq<string>, current: string)
    requires i < |text| && Collected(text[..i], statements, current)
    ensures var m, c := Lex(text[..i]), text[i];
            && (Breaks(m, c) ==> Collected(text[..i + 1], Flushed(statements, current), ""))
            && (Kept(m, c) ==> Collected(text[..i + 1], statements, current + [c]))
            && (!Breaks(m, c) && !Kept(m, c) ==> Collected(text[..i + 1], statements, current))
  {
    hide Lex;
    PieceAt(text, i);
    var p, q := Pieces(text[..i]), Pieces(text[..i + 1]);
    var m, c := Lex(text[..i]), text[i];
    if Breaks(m, c) {
      assert q[..|q| - 1] == p;
    } else if Kept(m, c) {
      assert q[..|q| - 1] == p[..|p| - 1];
    }
  }

  method SplitStatements(directives: string) returns (statements: seq<string>)
    ensures statements == Statements(Pieces(directives))
  {
    hide Pieces, Statements, Collected, Flushed, LexFrom;
    statements := [];
    var current := "";
    var inSingle, inDouble, inComment := false, false, false;
    var boundary := true;
    var i := 0;
    assert directives[..0] == "";
    StartCollected();
    while i < |directives|
      invariant 0 <= i <= |directives|
      invariant i < |directives| ==> Flags(Lex(directives[..i]), inSingle, inDouble, inComment, boundary)
      invariant Collected(directives[..i], statements, current)
    {
      var c := directives[i];
      StepAt(directives, i);
      CollectedStep(directives, i, statements, current);
      if inComment {
        if c == '\n' {
          inComment := false;
          boundary := true;
        }
      } else if inSingle {
        current := current + [c];
        if c == '\\' && i + 1 < |directives| {
          i := i + 1;
          StepAt(directives, i);
          CollectedStep(directives, i, statements, current);
          current := current + [directives[i]];
        } else if c == '\'' {
          inSingle := false;
          boundary := false;
        }
      } else if inDouble {
        current := current + [c];
        if c == '\\' && i + 1 < |directives| {
          i := i + 1;
          StepAt(directives, i);
          CollectedStep(directives, i, statements, current);
          current := current + [directives[i]];
        } else if c == '"' {
          inDouble := false;
          boundary := false;
        }
      } else if c == '#' {
        if boundary {
          inComment := true;
          statements := Flushed(statements, current);
          current := "";
        } else {
          current := current + [c];
        }
        boundary := false;
      } else if c == '\'' {
        if boundary {
          inSingle := true;
        }
        current := current + [c];
        boundary := false;
      } else if c == '"' {
        if boundary {
          inDouble := true;
        }
        current := current + [c];
        boundary := false;
      } else if c in ";{}\n" {
        statements := Flushed(statements, current);
        current := "";
        boundary := true;
      } else if c in " \t\r" {
        current := current + [c];
        boundary := true;
      } else {
        current := current + [c];
        boundary := false;
      }
      i := i + 1;
    }
    assert directives[..|directives|] == directives;
    LastFlush(directives, statements, current);
    statements := Flushed(statements, current);
  }

  lemma StartCollected()
    ensures Collected("", [], "") && Lex("") == Plain(true)
  {
    assert Pieces("")[..0] == [];
  }

  lemma LastFlush(text: string, statements: seq<string>, current: string)
    requires Collected(text, statements, current)
    ensures Flushed(statements, current) == Statements(Pieces(text))
  {
  }
}
