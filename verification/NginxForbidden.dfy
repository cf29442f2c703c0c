// What checkForbidden of shared/validate/nginx.go tests: the first word of every statement, which
// is every word that stands where a directive's name can stand.
module NginxForbidden {
  import opened Wrappers
  import opened Bytes
  import opened Text
  import opened Nginx

  /**** Nothing is lost ****/

  // A text without its comments and without the delimiters outside quotes.
  function KeptText(text: string): string {
    if text == "" then ""
    else
      var front, c := text[..|text| - 1], text[|text| - 1];
      KeptText(front) + if Kept(Lex(front), c) then [c] else ""
  }

  // How many delimiters and comment starts a text has outside quotes and comments.
  function BreakCount(text: string): nat {
    if text == "" then 0
    else
      var front, c := text[..|text| - 1], text[|text| - 1];
      BreakCount(front) + if Breaks(Lex(front), c) then 1 else 0
  }

  lemma {:induction false} ConcatOneMore(p: seq<string>, last: string)
    ensures Concat(p + [last]) == Concat(p) + last
  {
    ConcatAppend(p, [last]);
    assert Concat([last]) == last + Concat([last][1..]) == last;
  }

  lemma {:induction false} SplittingLosesNothing(text: string)
    ensures Concat(Pieces(text)) == KeptText(text)
    ensures |Pieces(text)| == 1 + BreakCount(text)
    decreases |text|
  {
    hide Lex;
    if text == "" {
      assert Concat([""]) == "" + Concat([""][1..]) == "";
    } else {
      var front, c := text[..|text| - 1], text[|text| - 1];
      SplittingLosesNothing(front);
      var p := Pieces(front);
      var n := |p| - 1;
      assert p == p[..n] + [p[n]];
      ConcatOneMore(p, "");
      ConcatOneMore(p[..n], p[n]);
      ConcatOneMore(p[..n], p[n] + [c]);
    }
  }

  /**** Where a directive's name can stand ****/

  // A position where the block starts, or just after a delimiter or a line break.
  predicate AfterBreak(text: string, j: nat)
    requires j <= |text|
  {
    j == 0 ||
    var m := Lex(text[..j - 1]);
    (m.Plain? && text[j - 1] in ";{}\n") || (m.Comment? && text[j - 1] == '\n')
  }

  predicate BlankOrComment(text: string, k: nat)
    requires k < |text|
  {
    var m := Lex(text[..k]);
    m.Comment? || (m.Plain? && (IsSpace(text[k]) || (text[k] == '#' && m.boundary)))
  }

  // A word begins at i, with only blanks and comments since a break.
  ghost predicate DirectiveStart(text: string, i: nat) {
    && i < |text| && Lex(text[..i]).Plain? && Kept(Lex(text[..i]), text[i]) && !IsSpace(text[i])
    && exists j: nat :: StartsAfter(text, i, j)
  }

  ghost predicate StartsAfter(text: string, i: nat, j: nat)
    requires i < |text|
  {
    j <= i && AfterBreak(text, j) && forall k :: j <= k < i ==> BlankOrComment(text, k)
  }

  // Where the statement a position belongs to ends.
  function PieceEnd(text: string, i: nat): (e: nat)
    requires i <= |text|
    ensures i <= e <= |text|
    ensures e < |text| ==> Breaks(Lex(text[..e]), text[e])
    ensures forall k :: i <= k < e ==> !Breaks(Lex(text[..k]), text[k])
    decreases |text| - i
  {
    if i == |text| || Breaks(Lex(text[..i]), text[i]) then i else PieceEnd(text, i + 1)
  }

  // The word at i: up to a blank or the statement's end.
  function WordAt(text: string, i: nat): string
    requires i <= |text|
  {
    WordFront(text[i..PieceEnd(text, i)])
  }

  /**** The open piece at each position ****/

  function OpenPiece(text: string, n: nat): string
    requires n <= |text|
  {
    var p := Pieces(text[..n]); p[|p| - 1]
  }

  lemma OpenPieceStep(text: string, n: nat)
    requires n < |text|
    ensures var m, c := Lex(text[..n]), text[n];
            && (Breaks(m, c) ==> OpenPiece(text, n + 1) == "")
            && (Kept(m, c) ==> OpenPiece(text, n + 1) == OpenPiece(text, n) + [c])
            && (!Breaks(m, c) && !Kept(m, c) ==> OpenPiece(text, n + 1) == OpenPiece(text, n))
  {
    hide Lex, Pieces;
    PieceAt(text, n);
  }

  lemma OpenPieceStart(text: string)
    ensures OpenPiece(text, 0) == ""
  {
  }

  // Inside a quote the open piece holds the quote; inside a comment it is empty.
  lemma {:induction false} OpenPieceByMode(text: string, n: nat)
    requires n <= |text|
    ensures Lex(text[..n]).InQuote() ==> !Blank(OpenPiece(text, n))
    ensures Lex(text[..n]).Comment? ==> OpenPiece(text, n) == ""
    decreases n
  {
    hide LexFrom, OpenPiece;
    Empty();
    if n > 0 {
      OpenPieceByMode(text, n - 1);
      OpenPieceStep(text, n - 1);
      StepAt(text, n - 1);
      BlankLast(OpenPiece(text, n - 1) + [text[n - 1]]);
      assert (OpenPiece(text, n - 1) + [text[n - 1]])[..|OpenPiece(text, n - 1)|] == OpenPiece(text, n - 1);
    } else {
      assert text[..0] == "";
    }
  }

  lemma BlankMore(s: string, c: char)
    ensures Blank(s + [c]) <==> Blank(s) && IsSpace(c)
  {
    BlankLast(s + [c]);
    assert (s + [c])[..|s|] == s;
  }

  // A blank open piece in plain text: only blanks and comments since some break.
  lemma {:induction false} BlankPieceAfterBreak(text: string, n: nat) returns (j: nat)
    requires n <= |text| && Lex(text[..n]).Plain? && Blank(OpenPiece(text, n))
    ensures j <= n && AfterBreak(text, j) && forall k :: j <= k < n ==> BlankOrComment(text, k)
    decreases n
  {
    hide LexFrom, OpenPiece, Pieces;
    if n == 0 || AfterBreak(text, n) {
      j := n;
    } else {
      var m, c := Lex(text[..n - 1]), text[n - 1];
      StepAt(text, n - 1);
      OpenPieceStep(text, n - 1);
      OpenPieceByMode(text, n - 1);
      BlankMore(OpenPiece(text, n - 1), c);
      j := BlankPieceAfterBreak(text, n - 1);
    }
  }

  lemma {:induction false} BlankSinceBreak(text: string, j: nat, n: nat)
    requires j <= n <= |text| && AfterBreak(text, j) && forall k :: j <= k < n ==> BlankOrComment(text, k)
    ensures Blank(OpenPiece(text, n))
    decreases n
  {
    hide LexFrom, OpenPiece, Pieces;
    OpenPieceStart(text);
    if n > 0 {
      OpenPieceStep(text, n - 1);
      OpenPieceByMode(text, n - 1);
      BlankMore(OpenPiece(text, n - 1), text[n - 1]);
      if j < n {
        BlankSinceBreak(text, j, n - 1);
        assert BlankOrComment(text, n - 1);
      }
    }
  }

  // The text between a directive's start and its statement's end goes into one piece.
  lemma {:induction false} PieceFrom(text: string, i: nat, n: nat)
    requires i <= n <= |text| && Lex(text[..i]).Plain?
    requires forall k :: i <= k < n ==> !Breaks(Lex(text[..k]), text[k])
    ensures OpenPiece(text, n) == OpenPiece(text, i) + text[i..n]
    ensures !Lex(text[..n]).Comment?
    decreases n
  {
    hide LexFrom, OpenPiece, Pieces;
    if i < n {
      PieceFrom(text, i, n - 1);
      StepAt(text, n - 1);
      OpenPieceStep(text, n - 1);
      assert OpenPiece(text, i) + text[i..n] == OpenPiece(text, i) + text[i..n - 1] + [text[n - 1]];
    }
  }

  // A piece once ended stays among the pieces.
  lemma {:induction false} EndedPieceStays(text: string, e: nat, n: nat)
    requires e < n <= |text| && Breaks(Lex(text[..e]), text[e])
    ensures exists q :: 0 <= q < |Pieces(text[..n])| - 1 && Pieces(text[..n])[q] == OpenPiece(text, e)
    decreases n
  {
    hide Lex;
    PieceAt(text, n - 1);
    var before, after := Pieces(text[..n - 1]), Pieces(text[..n]);
    if e == n - 1 {
      assert after[|after| - 2] == OpenPiece(text, e);
    } else {
      EndedPieceStays(text, e, n - 1);
      var q :| 0 <= q < |before| - 1 && before[q] == OpenPiece(text, e);
      assert after[q] == OpenPiece(text, e);
    }
  }

  lemma {:induction false} EveryPieceEnded(text: string, n: nat, q: nat) returns (e: nat)
    requires n <= |text| && q < |Pieces(text[..n])| - 1
    ensures e < n && Breaks(Lex(text[..e]), text[e]) && OpenPiece(text, e) == Pieces(text[..n])[q]
    decreases n
  {
    hide Lex;
    PieceAt(text, n - 1);
    var before, after := Pieces(text[..n - 1]), Pieces(text[..n]);
    if Breaks(Lex(text[..n - 1]), text[n - 1]) && q == |after| - 2 {
      e := n - 1;
    } else {
      e := EveryPieceEnded(text, n - 1, q);
    }
  }

  // A piece that is not blank has a directive's start in it.
  lemma {:induction false} PieceStart(text: string, n: nat) returns (i: nat)
    requires n <= |text| && !Blank(OpenPiece(text, n))
    ensures i < n && DirectiveStart(text, i) && Blank(OpenPiece(text, i))
    ensures forall k :: i <= k < n ==> !Breaks(Lex(text[..k]), text[k])
    decreases n
  {
    hide LexFrom, OpenPiece, Pieces;
    OpenPieceStart(text);
    var m, c := Lex(text[..n - 1]), text[n - 1];
    OpenPieceStep(text, n - 1);
    BlankMore(OpenPiece(text, n - 1), c);
    if Blank(OpenPiece(text, n - 1)) {
      i := n - 1;
      OpenPieceByMode(text, i);
      var j := BlankPieceAfterBreak(text, i);
      assert StartsAfter(text, i, j);
    } else {
      i := PieceStart(text, n - 1);
    }
  }

  /**** The words tested ****/

  lemma {:induction false} InStatements(pieces: seq<string>, q: nat)
    requires q < |pieces| && TrimSpace(pieces[q]) != ""
    ensures TrimSpace(pieces[q]) in Statements(pieces)
    decreases |pieces|
  {
    hide TrimSpace;
    if q < |pieces| - 1 {
      InStatements(pieces[..|pieces| - 1], q);
    }
  }

  lemma {:induction false} FromPieces(pieces: seq<string>, statement: string) returns (q: nat)
    requires statement in Statements(pieces)
    ensures q < |pieces| && statement == TrimSpace(pieces[q]) && statement != ""
    decreases |pieces|
  {
    hide TrimSpace;
    var front := pieces[..|pieces| - 1];
    if statement in Statements(front) {
      q := FromPieces(front, statement);
    } else {
      q := |pieces| - 1;
    }
  }

  lemma PieceWord(text: string, i: nat)
    requires DirectiveStart(text, i)
    ensures var piece := OpenPiece(text, PieceEnd(text, i));
            TrimSpace(piece) != "" && FirstWord(TrimSpace(piece)) == WordAt(text, i)
  {
    hide Pieces, LexFrom;
    var j: nat :| StartsAfter(text, i, j);
    BlankSinceBreak(text, j, i);
    PieceFrom(text, i, PieceEnd(text, i));
    FirstWordOfTrimmed(OpenPiece(text, i), text[i..PieceEnd(text, i)]);
  }

  lemma PieceIsAmong(text: string, e: nat) returns (q: nat)
    requires e <= |text| && (e < |text| ==> Breaks(Lex(text[..e]), text[e]))
    ensures q < |Pieces(text)| && Pieces(text)[q] == OpenPiece(text, e)
  {
    hide LexFrom;
    assert text[..|text|] == text;
    if e < |text| {
      EndedPieceStays(text, e, |text|);
      q :| 0 <= q < |Pieces(text)| - 1 && Pieces(text)[q] == OpenPiece(text, e);
    } else {
      q := |Pieces(text)| - 1;
    }
  }

  lemma StartIsTested(text: string, i: nat) returns (st: string)
    requires i < |text| && DirectiveStart(text, i)
    ensures st in Statements(Pieces(text)) && FirstWord(st) == WordAt(text, i)
  {
    hide Pieces, Statements, FirstWord, DirectiveStart, WordAt, OpenPiece, LexFrom;
    PieceWord(text, i);
    var q := PieceIsAmong(text, PieceEnd(text, i));
    st := TrimSpace(OpenPiece(text, PieceEnd(text, i)));
    InStatements(Pieces(text), q);
  }

  lemma TestedIsStart(text: string, st: string) returns (i: nat)
    requires st in Statements(Pieces(text))
    ensures DirectiveStart(text, i) && FirstWord(st) == WordAt(text, i)
  {
    hide Statements, LexFrom;
    var p := Pieces(text);
    assert text[..|text|] == text;
    var q := FromPieces(p, st);
    var e := |text|;
    if q < |p| - 1 {
      e := EveryPieceEnded(text, |text|, q);
    }
    assert OpenPiece(text, e) == p[q];
    i := PieceStart(text, e);
    EndIsHere(text, i, e);
    PieceWord(text, i);
  }

  lemma {:induction false} EndIsHere(text: string, i: nat, e: nat)
    requires i <= e <= |text| && (e < |text| ==> Breaks(Lex(text[..e]), text[e]))
    requires forall k :: i <= k < e ==> !Breaks(Lex(text[..k]), text[k])
    ensures PieceEnd(text, i) == e
    decreases e - i
  {
    if i < e {
      EndIsHere(text, i + 1, e);
    }
  }

  /**** The words in order ****/

  // The words standing where a directive's name can stand, among the first n characters, in their order.
  ghost function StartWords(text: string, n: nat): seq<string>
    requires n <= |text|
  {
    if n == 0 then []
    else StartWords(text, n - 1) + if DirectiveStart(text, n - 1) then [WordAt(text, n - 1)] else []
  }

  function FirstWords(statements: seq<string>): seq<string> {
    if statements == [] then [] else FirstWords(statements[..|statements| - 1]) + [FirstWord(statements[|statements| - 1])]
  }

  // The first words of the statements ended among the first n characters.
  function EndedWords(text: string, n: nat): seq<string>
    requires n <= |text|
  {
    var p := Pieces(text[..n]); FirstWords(Statements(p[..|p| - 1]))
  }

  lemma EndedStep(text: string, n: nat)
    requires n < |text|
    ensures var piece := TrimSpace(OpenPiece(text, n));
            EndedWords(text, n + 1) == EndedWords(text, n)
              + if Breaks(Lex(text[..n]), text[n]) && piece != "" then [FirstWord(piece)] else []
  {
    hide Lex, TrimSpace, FirstWord;
    PieceAt(text, n);
    var before, after := Pieces(text[..n]), Pieces(text[..n + 1]);
    if Breaks(Lex(text[..n]), text[n]) {
      assert after[..|after| - 1] == before;
      StatementsPush(before);
    } else {
      assert after[..|after| - 1] == before[..|before| - 1];
      assert EndedWords(text, n) + [] == EndedWords(text, n);
    }
  }

  lemma StatementsPush(pieces: seq<string>)
    requires pieces != []
    ensures var piece := TrimSpace(pieces[|pieces| - 1]);
            FirstWords(Statements(pieces))
              == FirstWords(Statements(pieces[..|pieces| - 1])) + if piece != "" then [FirstWord(piece)] else []
  {
    hide TrimSpace, FirstWord;
    var front, piece := Statements(pieces[..|pieces| - 1]), TrimSpace(pieces[|pieces| - 1]);
    if piece == "" {
      assert front + [] == front && FirstWords(front) + [] == FirstWords(front);
    } else {
      assert (front + [piece])[..|front|] == front;
    }
  }

  // Where nothing but blanks has been collected every start met belongs to a statement that has ended; else
  // one more start is open.
  lemma {:induction false} StartsSoFar(text: string, n: nat) returns (i: nat)
    requires n <= |text|
    ensures Blank(OpenPiece(text, n)) ==> StartWords(text, n) == EndedWords(text, n)
    ensures !Blank(OpenPiece(text, n)) ==>
              && i < n && DirectiveStart(text, i) && StartWords(text, n) == EndedWords(text, n) + [WordAt(text, i)]
              && forall k :: i <= k < n ==> !Breaks(Lex(text[..k]), text[k])
    decreases n
  {
    hide LexFrom, OpenPiece, Pieces, EndedWords, WordAt, DirectiveStart, FirstWord, TrimSpace;
    i := 0;
    if n == 0 {
      NothingEnded(text);
    } else {
      var m, c := Lex(text[..n - 1]), text[n - 1];
      i := StartsSoFar(text, n - 1);
      OpenPieceStep(text, n - 1);
      EndedStep(text, n - 1);
      BlankMore(OpenPiece(text, n - 1), c);
      StartIsFirst(text, n - 1);
      if Breaks(m, c) {
        Empty();
        if !Blank(OpenPiece(text, n - 1)) {
          EndIsHere(text, i, n - 1);
          PieceWord(text, i);
        }
      } else if Blank(OpenPiece(text, n - 1)) && !Blank(OpenPiece(text, n)) {
        i := n - 1;
      }
    }
  }

  lemma NothingEnded(text: string)
    ensures EndedWords(text, 0) == [] && Blank(OpenPiece(text, 0))
  {
    hide FirstWord;
    OpenPieceStart(text);
    assert text[..0] == "";
  }

  // A directive starts at the first character of a piece that is no blank, and nowhere else.
  lemma StartIsFirst(text: string, n: nat)
    requires n < |text|
    ensures DirectiveStart(text, n) <==>
              Blank(OpenPiece(text, n)) && Kept(Lex(text[..n]), text[n]) && !IsSpace(text[n])
  {
    hide LexFrom, OpenPiece, Pieces;
    OpenPieceByMode(text, n);
    if DirectiveStart(text, n) {
      var j: nat :| StartsAfter(text, n, j);
      BlankSinceBreak(text, j, n);
    }
    if Blank(OpenPiece(text, n)) && Kept(Lex(text[..n]), text[n]) && !IsSpace(text[n]) {
      var j := BlankPieceAfterBreak(text, n);
      assert StartsAfter(text, n, j);
    }
  }

  // The first words of the statements are the words at directives' places, each once and in the text's order.
  lemma StatementsInOrder(text: string)
    ensures FirstWords(Statements(Pieces(text))) == StartWords(text, |text|)
  {
    hide LexFrom, Pieces, WordAt, DirectiveStart, FirstWord, TrimSpace, Statements;
    var i := StartsSoFar(text, |text|);
    assert text[..|text|] == text;
    var p := Pieces(text);
    StatementsPush(p);
    if !Blank(OpenPiece(text, |text|)) {
      EndIsHere(text, i, |text|);
      PieceWord(text, i);
    }
  }

  lemma {:induction false} FirstWordsAt(statements: seq<string>, k: nat)
    requires k < |statements|
    ensures |FirstWords(statements)| == |statements| && FirstWords(statements)[k] == FirstWord(statements[k])
    decreases |statements|
  {
    hide FirstWord;
    var n := |statements| - 1;
    if k < n {
      FirstWordsAt(statements[..n], k);
    } else if n > 0 {
      FirstWordsAt(statements[..n], 0);
    }
  }

  // The place of one of these words; the words at earlier places are those before it.
  lemma {:induction false} PlaceOfWord(text: string, n: nat, k: nat) returns (i: nat)
    requires n <= |text| && k < |StartWords(text, n)|
    ensures i < n && DirectiveStart(text, i) && WordAt(text, i) == StartWords(text, n)[k]
    ensures StartWords(text, i) == StartWords(text, n)[..k]
    decreases n
  {
    hide DirectiveStart, WordAt;
    var before := StartWords(text, n - 1);
    if k < |before| {
      i := PlaceOfWord(text, n - 1, k);
    } else {
      i := n - 1;
    }
  }

  lemma {:induction false} WordIsAmong(text: string, n: nat, i: nat)
    requires i < n <= |text| && DirectiveStart(text, i)
    ensures WordAt(text, i) in StartWords(text, n)
    decreases n
  {
    hide DirectiveStart, WordAt;
    if i < n - 1 {
      WordIsAmong(text, n - 1, i);
    }
  }

  /**** checkForbidden ****/

  const FORBIDDEN: seq<string> := [
    "include", "load_module", "http", "events", "stream", "mail", "user", "pid", "worker_processes",
    "worker_connections", "daemon", "master_process", "lua_package_path", "lua_shared_dict"
  ]

  predicate Forbidden(name: string) {
    exists f :: f in FORBIDDEN && EqualFold(name, f)
  }

  // No word standing where a directive's name can stand is forbidden: exactly that is checked.
  method CheckForbidden(directives: string) returns (r: Option<string>)
    ensures r.None? <==> forall i: nat :: DirectiveStart(directives, i) ==> !Forbidden(WordAt(directives, i))
    ensures r.Some? ==> exists i: nat :: FirstForbidden(directives, i) && WordAt(directives, i) == r.value
  {
    hide LexFrom, Pieces, Statements, PieceEnd, FirstWord;
    var statements := SplitStatements(directives);
    for k := 0 to |statements|
      invariant forall j :: 0 <= j < k ==> !Forbidden(FirstWord(statements[j]))
    {
      var name := FirstWord(statements[k]);
      if name != "" {
        for f := 0 to |FORBIDDEN|
          invariant forall j :: 0 <= j < f ==> !EqualFold(name, FORBIDDEN[j])
        {
          if EqualFold(name, FORBIDDEN[f]) {
            var i := FoundIsFirst(directives, k);
            return Some(name);
          }
        }
      }
    }
    forall i: nat | DirectiveStart(directives, i) ensures !Forbidden(WordAt(directives, i)) {
      var st := StartIsTested(directives, i);
    }
    return None;
  }

  // A place where a forbidden name stands, with none before it.
  ghost predicate FirstForbidden(text: string, i: nat) {
    && DirectiveStart(text, i) && Forbidden(WordAt(text, i))
    && forall j: nat :: j < i && DirectiveStart(text, j) ==> !Forbidden(WordAt(text, j))
  }

  lemma FoundIsFirst(text: string, k: nat) returns (i: nat)
    requires k < |Statements(Pieces(text))| && Forbidden(FirstWord(Statements(Pieces(text))[k]))
    requires forall j :: 0 <= j < k ==> !Forbidden(FirstWord(Statements(Pieces(text))[j]))
    ensures FirstForbidden(text, i) && WordAt(text, i) == FirstWord(Statements(Pieces(text))[k])
  {
    hide Pieces, Statements, FirstWord, DirectiveStart, WordAt, StartWords, Forbidden;
    var statements := Statements(Pieces(text));
    StatementsInOrder(text);
    FirstWordsAt(statements, k);
    i := PlaceOfWord(text, |text|, k);
    forall j: nat | j < i && DirectiveStart(text, j) ensures !Forbidden(WordAt(text, j)) {
      WordIsAmong(text, i, j);
      var q :| 0 <= q < |StartWords(text, i)| && StartWords(text, i)[q] == WordAt(text, j);
      FirstWordsAt(statements, q);
    }
  }

  /**** Quoted names ****/

  predicate IsQuote(c: char) {
    c == '"' || c == '\''
  }

  // What nginx reads a word as: the quotes around it are not part of it.
  function NameOf(word: string): string {
    if |word| >= 2 && IsQuote(word[0]) && word[|word| - 1] == word[0] then word[1..|word| - 1] else word
  }

  // The words tested still have their quotes, so a forbidden name is found exactly when it is not quoted.
  lemma FoundUnlessQuoted(word: string)
    ensures Forbidden(word) <==> Forbidden(NameOf(word)) && !IsQuote(word[0])
  {
    if Forbidden(word) {
      ForbiddenStart(word);
    }
    if Forbidden(NameOf(word)) {
      ForbiddenStart(NameOf(word));
    }
  }

  lemma ForbiddenStart(name: string)
    requires Forbidden(name)
    ensures name != "" && !IsQuote(name[0])
  {
    hide FORBIDDEN;
    var f :| f in FORBIDDEN && EqualFold(name, f);
    ListedStart(f);
    assert Fold(name[0]) == Fold(f[0]);
  }

  lemma ListedStart(f: string)
    requires f in FORBIDDEN
    ensures f != "" && 'a' <= f[0] <= 'z'
  {
  }

  // Such a word: the block is balanced and nothing in it is found, and nginx reads its name as one on the list.
  lemma QuotedNameIsNotFound()
    ensures var text := "\"include\" x;";
            && Accepted(text) && DirectiveStart(text, 0) && NameOf(WordAt(text, 0)) == "include" && Forbidden("include")
            && forall i: nat :: DirectiveStart(text, i) ==> !Forbidden(WordAt(text, i))
  {
    hide DepthFrom, LexFrom, Forbidden, NameOf, WordAt, StartsAfter, BraceIn;
    var text := "\"include\" x;";
    QuotedBlockModes(text);
    QuotedWord(text);
    NoBracesNoDepth(text);
    IncludeIsForbidden();
    forall i: nat | DirectiveStart(text, i) ensures !Forbidden(WordAt(text, i)) {
      OnlyStart(text, i);
      FoundUnlessQuoted(WordAt(text, i));
    }
  }

  lemma IncludeIsForbidden()
    ensures Forbidden("include")
  {
    assert FORBIDDEN[0] == "include";
    assert EqualFold("include", "include");
  }

  lemma QuotedBlockModes(text: string)
    requires text == "\"include\" x;"
    ensures DirectiveStart(text, 0) && !Lex(text).InQuote()
  {
    hide LexFrom;
    Empty();
    assert text[..0] == "" && text[..|text|] == text;
    for i := 0 to 8
      invariant Lex(text[..i]) == if i == 0 then Plain(true) else Double
    {
      StepAt(text, i);
    }
    StepAt(text, 8);
    StepAt(text, 9);
    StepAt(text, 10);
    StepAt(text, 11);
    assert AfterBreak(text, 0);
    assert StartsAfter(text, 0, 0);
  }

  lemma QuotedWord(text: string)
    requires text == "\"include\" x;"
    ensures WordAt(text, 0) == "\"include\"" && NameOf("\"include\"") == "include"
  {
    hide PieceEnd, WordFront, IsSpace, NameOf, IsQuote;
    var word, e := "\"" + "include" + "\"", PieceEnd(text, 0);
    PieceGoesOn(text, e);
    TakeBeyond(word, " x;", text, e);
    NoBlankInside(word);
    WordThen(word, text[9..e]);
    Unquoted("include");
  }

  lemma PieceGoesOn(text: string, e: nat)
    requires text == "\"include\" x;" && e <= |text| && (e < |text| ==> Breaks(Lex(text[..e]), text[e]))
    ensures e >= 9 && (e > 9 ==> IsSpace(text[9..e][0]))
  {
    hide Lex;
    assert text[9] == ' ';
  }

  lemma TakeBeyond(a: string, b: string, text: string, e: nat)
    requires text == a + b && |a| <= e <= |text|
    ensures text[0..e] == a + text[|a|..e]
  {
  }

  lemma NoBlankInside(word: string)
    requires word == "\"" + "include" + "\""
    ensures forall i :: 0 <= i < |word| ==> !IsSpace(word[i])
  {
  }

  lemma Unquoted(name: string)
    ensures NameOf("\"" + name + "\"") == name
  {
  }

  lemma {:induction false} WordThen(word: string, rest: string)
    requires forall i :: 0 <= i < |word| ==> !IsSpace(word[i])
    requires rest != "" ==> IsSpace(rest[0])
    ensures WordFront(word + rest) == word
  {
    if word != "" {
      assert (word + rest)[1..] == word[1..] + rest;
      WordThen(word[1..], rest);
    }
  }

  lemma OnlyStart(text: string, i: nat)
    requires text == "\"include\" x;" && DirectiveStart(text, i)
    ensures i == 0
  {
    hide LexFrom;
    Empty();
    assert text[..0] == "";
    assert !BlankOrComment(text, 0);
    var j: nat :| StartsAfter(text, i, j);
    assert j == 0;
  }

  lemma {:induction false} NoBracesNoDepth(text: string)
    requires '{' !in text && '}' !in text
    ensures NeverBelow(Plain(true), text, 0) && Depth(text) == 0
    decreases |text|
  {
    hide LexFrom;
    if text != "" {
      var front := text[..|text| - 1];
      NoBracesNoDepth(front);
      assert text[|text| - 1] in text;
      assert forall i :: 0 <= i < |text| ==> text[..i] == front[..i];
      assert text[..|text|] == text;
    }
  }

  /**** NginxDirectives ****/

  const MAX_DIRECTIVES_LENGTH: nat := 0x4000

  predicate InvalidCharacter(c: char) {
    c !in "\n\r\t" && (c < ' ' || c == '\U{7f}')
  }

  datatype DirectivesError = TooLong | BadCharacter(at: nat) | Unbalanced(balance: Balance) | ForbiddenName(name: string)

  // The loop over the characters.
  method FirstInvalid(directives: string) returns (at: Option<nat>)
    ensures at.None? ==> forall i :: 0 <= i < |directives| ==> !InvalidCharacter(directives[i])
    ensures at.Some? ==> at.value < |directives| && InvalidCharacter(directives[at.value])
                         && forall j :: 0 <= j < at.value ==> !InvalidCharacter(directives[j])
  {
    hide *;
    for i := 0 to |directives|
      invariant forall j :: 0 <= j < i ==> !InvalidCharacter(directives[j])
    {
      if InvalidCharacter(directives[i]) {
        return Some(i);
      }
    }
    return None;
  }

  // The whole check. An accepted block that is not blank has balanced braces wherever it is put, and
  // no forbidden directive name.
  // What is told of a text that is not balanced: the brace that closes what it did not open, that a quote is
  // not closed, or how many braces are left open.
  ghost predicate FaultTold(text: string, fault: Balance) {
    match fault
    case Balanced => false
    case ClosesServer(at) =>
      && at < |text| && text[at] == '}' && Depth(text[..at + 1]) < 0
      && forall i :: 0 <= i <= at ==> Depth(text[..i]) >= 0
    case Unterminated => NeverBelow(Plain(true), text, 0) && Lex(text).InQuote()
    case LeftOpen(depth) => NeverBelow(Plain(true), text, 0) && !Lex(text).InQuote() && depth == Depth(text) > 0
  }

  lemma FaultIsTold(text: string, fault: Balance)
    requires !fault.Balanced? && (fault.ClosesServer? <==> !NeverBelow(Plain(true), text, 0))
    requires fault.ClosesServer? ==>
               && fault.offset < |text| && text[fault.offset] == '}' && Depth(text[..fault.offset + 1]) < 0
               && forall i :: 0 <= i <= fault.offset ==> Depth(text[..i]) >= 0
    requires fault.Unterminated? <==> NeverBelow(Plain(true), text, 0) && Lex(text).InQuote()
    requires fault.LeftOpen? ==> fault.depth == Depth(text) > 0
    ensures FaultTold(text, fault)
  {
    hide NeverBelow, Lex, Depth;
  }

  method NginxDirectives(directives: string) returns (r: Option<DirectivesError>)
    ensures Blank(directives) ==> r.None?
    ensures r.None? && !Blank(directives) ==>
              && Utf8Length(directives) <= MAX_DIRECTIVES_LENGTH
              && (forall i :: 0 <= i < |directives| ==> !InvalidCharacter(directives[i]))
              && Accepted(directives)
              && forall i: nat :: DirectiveStart(directives, i) ==> !Forbidden(WordAt(directives, i))
    ensures r.Some? ==>
              && (r.value.TooLong? <==> Utf8Length(directives) > MAX_DIRECTIVES_LENGTH)
              && (r.value.BadCharacter? <==>
                    && Utf8Length(directives) <= MAX_DIRECTIVES_LENGTH
                    && exists i :: 0 <= i < |directives| && InvalidCharacter(directives[i]))
              && (r.value.ForbiddenName? ==> Accepted(directives))
    ensures r.Some? && r.value.BadCharacter? ==>
              && r.value.at < |directives| && InvalidCharacter(directives[r.value.at])
              && forall j :: 0 <= j < r.value.at ==> !InvalidCharacter(directives[j])
    ensures r.Some? && r.value.Unbalanced? ==> !Accepted(directives) && FaultTold(directives, r.value.balance)
    ensures r.Some? && r.value.ForbiddenName? ==>
              exists i: nat :: FirstForbidden(directives, i) && WordAt(directives, i) == r.value.name
  {
    hide *;
    if TrimSpace(directives) == "" {
      return None;
    }
    if Utf8Length(directives) > MAX_DIRECTIVES_LENGTH {
      return Some(TooLong);
    }
    var invalid := FirstInvalid(directives);
    if invalid.Some? {
      return Some(BadCharacter(invalid.value));
    }
    var balance := CheckBalance(directives);
    if !balance.Balanced? {
      FaultIsTold(directives, balance);
      return Some(Unbalanced(balance));
    }
    var name := CheckForbidden(directives);
    if name.Some? {
      return Some(ForbiddenName(name.value));
    }
    return None;
  }
}
