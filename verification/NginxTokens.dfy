// nginx's own reading of a block, character by character as ngx_conf_read_token has it, beside the
// lexer of checkBalance (shared/validate/nginx.go). Nginx is not part of the repository.
module NginxTokens {
  import opened Wrappers
  import opened Nginx

  // Between words, in one (`dollar` just after a dollar sign), just after a quoted one, in a comment or
  // a quote, after a backslash, or given up.
  datatype Token =
    | Between | Word(dollar: bool) | Escape | AfterQuote | Remark
    | InSingle | InDouble | InSingleEscape | InDoubleEscape | GivenUp

  predicate Space(c: char) {
    c == ' ' || c == '\t' || c == '\r' || c == '\n'
  }

  function Read(t: Token, c: char): Token {
    match t
    case Between =>
      if Space(c) || c == ';' || c == '{' || c == '}' then Between
      else if c == '#' then Remark
      else if c == '\\' then Escape
      else if c == '"' then InDouble
      else if c == '\'' then InSingle
      else Word(c == '$')
    case Word(dollar) =>
      if c == '{' && dollar then t
      else if c == '\\' then Escape
      else if Space(c) || c == ';' || c == '{' then Between
      else Word(c == '$')
    case Escape => Word(false)
    case AfterQuote => if Space(c) || c == ';' || c == '{' then Between else if c == ')' then Word(false) else GivenUp
    case Remark => if c == '\n' then Between else Remark
    case InSingle => if c == '\\' then InSingleEscape else if c == '\'' then AfterQuote else InSingle
    case InDouble => if c == '\\' then InDoubleEscape else if c == '"' then AfterQuote else InDouble
    case InSingleEscape => InSingle
    case InDoubleEscape => InDouble
    case GivenUp => GivenUp
  }

  // A brace that opens or closes a block.
  function BlockBrace(t: Token, c: char): int {
    if c == '{' && (t == Between || t == Word(false) || t == AfterQuote) then 1
    else if c == '}' && t == Between then -1
    else 0
  }

  function Tokens(text: string): Token {
    if text == "" then Between else Read(Tokens(text[..|text| - 1]), text[|text| - 1])
  }

  function Blocks(text: string): int {
    if text == "" then 0
    else
      var front, c := text[..|text| - 1], text[|text| - 1];
      Blocks(front) + BlockBrace(Tokens(front), c)
  }

  /**** Where the two readings agree ****/

  // Outside quotes and comments there is no backslash, no dollar sign before a brace and no closing brace
  // that ends a word.
  ghost predicate Clear(text: string) {
    forall i :: 0 <= i < |text| && Lex(text[..i]).Plain? ==>
      && text[i] != '\\'
      && (text[i] == '{' && i > 0 ==> text[i - 1] != '$')
      && (text[i] == '}' ==> Lex(text[..i]).boundary)
  }

  predicate Related(m: Mode, t: Token, dollar: bool) {
    match m
    case Plain(boundary) => if boundary then t == Between else t == Word(dollar) || t == AfterQuote
    case Comment => t == Remark
    case Single => t == InSingle
    case Double => t == InDouble
    case SingleEscape => t == InSingleEscape
    case DoubleEscape => t == InDoubleEscape
  }

  lemma StepsAlike(m: Mode, t: Token, dollar: bool, c: char)
    requires Related(m, t, dollar)
    requires m.Plain? ==> c != '\\' && (c == '{' ==> !dollar) && (c == '}' ==> m.boundary)
    ensures Read(t, c).GivenUp? || Related(Next(m, c), Read(t, c), c == '$')
    ensures BlockBrace(t, c) == BraceIn(m, c)
  {
  }

  // Of such a text nginx counts the same depth, unless it has given the text up.
  lemma {:induction false} ReadAlike(text: string)
    requires Clear(text)
    ensures Tokens(text).GivenUp? ||
              (Related(Lex(text), Tokens(text), text != "" && text[|text| - 1] == '$') && Blocks(text) == Depth(text))
    decreases |text|
  {
    hide Related, Next, Read, BraceIn, BlockBrace;
    if text == "" {
      assert Related(Plain(true), Between, false) by { StartsAlike(); }
    } else {
      var front, c := text[..|text| - 1], text[|text| - 1];
      assert Clear(front) by {
        assert forall i :: 0 <= i < |front| ==> front[..i] == text[..i];
      }
      ReadAlike(front);
      if !Tokens(front).GivenUp? {
        StepsAlike(Lex(front), Tokens(front), front != "" && front[|front| - 1] == '$', c);
      } else {
        GivenUpStays(c);
      }
    }
  }

  lemma StartsAlike()
    ensures Related(Plain(true), Between, false)
  {
  }

  lemma GivenUpStays(c: char)
    ensures Read(GivenUp, c) == GivenUp
  {
  }

  // So an accepted block of this kind stays inside for nginx too: at no point has it closed more than it
  // opened, and at the end nothing is open, unless nginx has refused the text before.
  lemma AcceptedStaysInside(text: string)
    requires Accepted(text) && Clear(text)
    ensures forall i :: 0 <= i <= |text| ==> Tokens(text[..i]).GivenUp? || Blocks(text[..i]) >= 0
    ensures Tokens(text).GivenUp? || Blocks(text) == 0
  {
    hide Lex, Tokens, Blocks, DepthFrom;
    forall i | 0 <= i <= |text| ensures Tokens(text[..i]).GivenUp? || Blocks(text[..i]) >= 0 {
      assert Clear(text[..i]) by {
        assert forall k :: 0 <= k < i ==> text[..i][..k] == text[..k];
      }
      ReadAlike(text[..i]);
      assert Depth(text[..i]) >= 0;
    }
    ReadAlike(text);
  }

  // Without that it may not: an escaped brace is a brace to the check and none to nginx.
  lemma EscapedBraceIsCounted()
    ensures Accepted("x \\{; }") && !Tokens("x \\{; }").GivenUp? && Blocks("x \\{; }") == -1
  {
    hide Next, Read, BraceIn, BlockBrace;
    var text := "x \\{; }";
    EscapedSteps();
    Empty();
    assert text[..0] == "" && text[..7] == text;
    for i := 0 to 7
      invariant Lex(text[..i]) == Plain(i == 0 || i == 2 || i >= 4)
      invariant Depth(text[..i]) == if 4 <= i < 7 then 1 else 0
      invariant forall k :: 0 <= k <= i ==> Depth(text[..k]) >= 0
      invariant Tokens(text[..i]) == if i == 1 || i == 4 then Word(false) else if i == 3 then Escape else Between
      invariant Blocks(text[..i]) == if i == 7 then -1 else 0
    {
      StepAt(text, i);
      assert text[..i + 1][..i] == text[..i];
    }
  }

  lemma EscapedSteps()
    ensures Next(Plain(true), 'x') == Plain(false) && Next(Plain(false), ' ') == Plain(true)
    ensures Next(Plain(true), '\\') == Plain(false) && Next(Plain(false), '{') == Plain(true)
    ensures Next(Plain(true), ';') == Plain(true) && Next(Plain(true), ' ') == Plain(true) && Next(Plain(true), '}') == Plain(true)
    ensures BraceIn(Plain(false), '{') == 1 && BraceIn(Plain(true), '}') == -1
    ensures forall m: Mode, c :: c != '{' && c != '}' ==> BraceIn(m, c) == 0
    ensures Read(Between, 'x') == Word(false) && Read(Word(false), ' ') == Between && Read(Between, '\\') == Escape
    ensures Read(Escape, '{') == Word(false) && Read(Word(false), ';') == Between
    ensures Read(Between, ' ') == Between && Read(Between, '}') == Between
    ensures BlockBrace(Escape, '{') == 0 && BlockBrace(Between, '}') == -1
    ensures forall t, c :: c != '{' && c != '}' ==> BlockBrace(t, c) == 0
  {
  }
}
