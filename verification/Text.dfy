// Go's string helpers over sequences of Unicode code points.
module Text {
  import opened Wrappers

  // unicode.IsSpace.
  predicate IsSpace(c: char) {
    || c == '\t' || c == '\n' || c == '\r' || c == ' '
    || c == '\U{b}' || c == '\U{c}' || c == '\U{85}' || c == '\U{a0}' || c == '\U{1680}'
    || '\U{2000}' <= c <= '\U{200a}'
    || c == '\U{2028}' || c == '\U{2029}' || c == '\U{202f}' || c == '\U{205f}' || c == '\U{3000}'
  }

  ghost predicate Blank(s: string) {
    forall i :: 0 <= i < |s| ==> IsSpace(s[i])
  }

  lemma BlankFirst(s: string)
    requires s != ""
    ensures Blank(s) <==> IsSpace(s[0]) && Blank(s[1..])
  {
    hide IsSpace;
    if IsSpace(s[0]) && Blank(s[1..]) {
      forall i | 0 <= i < |s| ensures IsSpace(s[i]) {
        if i > 0 {
          assert s[i] == s[1..][i - 1];
        }
      }
    }
  }

  lemma BlankLast(s: string)
    requires s != ""
    ensures Blank(s) <==> IsSpace(s[|s| - 1]) && Blank(s[..|s| - 1])
  {
    hide IsSpace;
    if IsSpace(s[|s| - 1]) && Blank(s[..|s| - 1]) {
      forall i | 0 <= i < |s| ensures IsSpace(s[i]) {
        if i < |s| - 1 {
          assert s[i] == s[..|s| - 1][i];
        }
      }
    }
  }

  function TrimLeft(s: string): (r: string)
    ensures |r| <= |s|
    ensures r == "" <==> Blank(s)
    ensures r != "" ==> !IsSpace(r[0])
  {
    if s == "" then ""
    else
      BlankFirst(s);
      if IsSpace(s[0]) then TrimLeft(s[1..]) else s
  }

  function TrimRight(s: string): (r: string)
    ensures |r| <= |s|
    ensures r == "" <==> Blank(s)
    ensures r != "" ==> r[0] == s[0] && !IsSpace(r[|r| - 1])
  {
    if s == "" then ""
    else
      BlankLast(s);
      if IsSpace(s[|s| - 1]) then TrimRight(s[..|s| - 1]) else s
  }

  // strings.TrimSpace.
  function TrimSpace(s: string): (r: string)
    ensures r == "" <==> Blank(s)
    ensures r != "" ==> !IsSpace(r[0]) && !IsSpace(r[|r| - 1])
  {
    var left := TrimLeft(s);
    if left == "" then "" else BlankFirst(left); TrimRight(left)
  }

  lemma TrimmedAlready(s: string)
    requires s != "" && !IsSpace(s[0]) && !IsSpace(s[|s| - 1])
    ensures TrimSpace(s) == s
  {
    hide IsSpace;
  }

  lemma {:induction false} TrimLeftDropsBlanks(s: string)
    ensures TrimLeft(s) == s[|s| - |TrimLeft(s)|..] && Blank(s[..|s| - |TrimLeft(s)|])
    decreases |s|
  {
    hide IsSpace;
    if s != "" && IsSpace(s[0]) {
      TrimLeftDropsBlanks(s[1..]);
      var dropped := s[..|s| - |TrimLeft(s)|];
      assert dropped[1..] == s[1..][..|dropped| - 1];
      BlankFirst(dropped);
    }
  }

  lemma {:induction false} TrimRightDropsBlanks(s: string)
    ensures TrimRight(s) <= s && Blank(s[|TrimRight(s)|..])
    decreases |s|
  {
    hide IsSpace;
    if s != "" && IsSpace(s[|s| - 1]) {
      TrimRightDropsBlanks(s[..|s| - 1]);
      var dropped := s[|TrimRight(s)|..];
      assert dropped[..|dropped| - 1] == s[..|s| - 1][|TrimRight(s)|..];
      BlankLast(dropped);
    }
  }

  // Only blanks are taken away, at either end.
  lemma TrimSpaceDropsBlanks(s: string) returns (left: string, right: string)
    ensures s == left + TrimSpace(s) + right && Blank(left) && Blank(right)
  {
    hide IsSpace, Blank, TrimLeft, TrimRight;
    var rest := TrimLeft(s);
    TrimLeftDropsBlanks(s);
    TrimRightDropsBlanks(rest);
    left, right := s[..|s| - |rest|], rest[|TrimRight(rest)|..];
  }

  // The first of strings.Fields, or "" when there is none.
  function FirstWord(s: string): string {
    var t := TrimLeft(s);
    WordFront(t)
  }

  // The characters before the first space.
  function WordFront(s: string): (r: string)
    ensures r <= s && (forall i :: 0 <= i < |r| ==> !IsSpace(r[i]))
    ensures |r| < |s| ==> IsSpace(s[|r|])
  {
    if s == "" || IsSpace(s[0]) then "" else [s[0]] + WordFront(s[1..])
  }

  lemma {:induction false} TrimLeftOf(blanks: string, s: string)
    requires Blank(blanks) && s != "" && !IsSpace(s[0])
    ensures TrimLeft(blanks + s) == s
  {
    hide IsSpace;
    if blanks == "" {
      assert blanks + s == s;
    } else {
      assert (blanks + s)[1..] == blanks[1..] + s;
      TrimLeftOf(blanks[1..], s);
    }
  }

  // Trailing blanks do not change the first word.
  lemma {:induction false} WordFrontOfTrimmed(s: string)
    requires s != "" && !IsSpace(s[0])
    ensures TrimRight(s) != "" && WordFront(TrimRight(s)) == WordFront(s)
    decreases |s|
  {
    hide IsSpace;
    BlankFirst(s);
    if IsSpace(s[|s| - 1]) {
      var shorter := s[..|s| - 1];
      WordFrontOfTrimmed(shorter);
      WordFrontAddBlank(shorter, s[|s| - 1]);
      assert s == shorter + [s[|s| - 1]];
    }
  }

  lemma {:induction false} WordFrontAddBlank(s: string, c: char)
    requires IsSpace(c)
    ensures WordFront(s + [c]) == WordFront(s)
    decreases |s|
  {
    hide IsSpace;
    if s != "" {
      assert (s + [c])[1..] == s[1..] + [c];
      WordFrontAddBlank(s[1..], c);
    }
  }

  lemma FirstWordOfTrimmed(blanks: string, s: string)
    requires Blank(blanks) && s != "" && !IsSpace(s[0])
    ensures TrimSpace(blanks + s) != "" && FirstWord(TrimSpace(blanks + s)) == WordFront(s)
  {
    hide IsSpace, WordFront;
    TrimLeftOf(blanks, s);
    WordFrontOfTrimmed(s);
    var t := TrimRight(s);
    TrimLeftOf("", t);
    assert "" + t == t;
  }

  // A letter as strings.EqualFold compares it: U+212A folds with k and U+017F with s. Other letters
  // beyond ASCII stay as they are.
  function Fold(c: char): char {
    if 'A' <= c <= 'Z' then (c as int + 32) as char
    else if c == '\U{212a}' then 'k'
    else if c == '\U{17f}' then 's'
    else c
  }

  // strings.EqualFold.
  predicate EqualFold(a: string, b: string) {
    |a| == |b| && forall i :: 0 <= i < |a| ==> Fold(a[i]) == Fold(b[i])
  }

  // len of a Go string: its UTF-8 bytes.
  function Utf8Length(s: string): nat {
    if s == "" then 0
    else
      var c := s[0] as int;
      (if c < 0x80 then 1 else if c < 0x800 then 2 else if c < 0x1_0000 then 3 else 4) + Utf8Length(s[1..])
  }
}
