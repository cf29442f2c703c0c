// strings.Split and strings.Join on a one-character separator, and searching for a substring.
module Parts {
  import opened Wrappers
  import opened Bytes

  function Split(s: string, sep: char): (r: seq<string>)
    ensures |r| >= 1
  {
    if s == "" then [""]
    else
      var r := Split(s[1..], sep);
      if s[0] == sep then [""] + r else [[s[0]] + r[0]] + r[1..]
  }

  function Join(parts: seq<string>, sep: char): string {
    if parts == [] then ""
    else if |parts| == 1 then parts[0]
    else parts[0] + [sep] + Join(parts[1..], sep)
  }

  ghost predicate Free(parts: seq<string>, sep: char) {
    forall i :: 0 <= i < |parts| ==> sep !in parts[i]
  }

  lemma {:induction false} SplitIsFree(s: string, sep: char)
    ensures Free(Split(s, sep), sep)
  {
    if s != "" {
      SplitIsFree(s[1..], sep);
      var r := Split(s[1..], sep);
      assert sep !in r[0];
      assert forall i :: 0 <= i < |r[1..]| ==> r[1..][i] == r[i + 1];
    }
  }

  lemma JoinHeadGrows(c: char, head: string, rest: seq<string>, sep: char)
    ensures Join([[c] + head] + rest, sep) == [c] + Join([head] + rest, sep)
  {
    assert ([[c] + head] + rest)[1..] == rest && ([head] + rest)[1..] == rest;
  }

  lemma JoinEmptyHead(rest: seq<string>, sep: char)
    requires rest != []
    ensures Join([""] + rest, sep) == [sep] + Join(rest, sep)
  {
    assert ([""] + rest)[1..] == rest;
  }

  lemma {:induction false} JoinOfSplit(s: string, sep: char)
    ensures Join(Split(s, sep), sep) == s
  {
    hide Join;
    if s == "" {
      JoinOfOne("", sep);
    } else {
      JoinOfSplit(s[1..], sep);
      var r := Split(s[1..], sep);
      if s[0] == sep {
        JoinEmptyHead(r, sep);
      } else {
        JoinHeadGrows(s[0], r[0], r[1..], sep);
        assert [r[0]] + r[1..] == r;
      }
      assert s == [s[0]] + s[1..];
    }
  }

  lemma JoinOfOne(part: string, sep: char)
    ensures Join([part], sep) == part
  {
  }

  lemma {:induction false} SplitAtSeparator(a: string, b: string, sep: char)
    requires sep !in a
    ensures Split(a + [sep] + b, sep) == [a] + Split(b, sep)
  {
    var s := a + [sep] + b;
    if a == "" {
      assert s[1..] == b;
    } else {
      SplitAtSeparator(a[1..], b, sep);
      assert s[1..] == a[1..] + [sep] + b;
      assert a == [a[0]] + a[1..];
    }
  }

  lemma {:induction false} SplitOfFree(a: string, sep: char)
    requires sep !in a
    ensures Split(a, sep) == [a]
  {
    if a != "" {
      SplitOfFree(a[1..], sep);
      assert a == [a[0]] + a[1..];
    }
  }

  lemma {:induction false} SplitOfJoin(parts: seq<string>, sep: char)
    requires parts != [] && Free(parts, sep)
    ensures Split(Join(parts, sep), sep) == parts
  {
    if |parts| == 1 {
      SplitOfFree(parts[0], sep);
    } else {
      assert Free(parts[1..], sep) by {
        assert forall i :: 0 <= i < |parts[1..]| ==> parts[1..][i] == parts[i + 1];
      }
      SplitOfJoin(parts[1..], sep);
      SplitAtSeparator(parts[0], Join(parts[1..], sep), sep);
    }
  }

  lemma {:induction false} JoinAppend(a: seq<string>, b: seq<string>, sep: char)
    requires a != [] && b != []
    ensures Join(a + b, sep) == Join(a, sep) + [sep] + Join(b, sep)
  {
    if |a| == 1 {
      assert (a + b)[1..] == b;
    } else {
      JoinAppend(a[1..], b, sep);
      assert (a + b)[1..] == a[1..] + b;
    }
  }

  predicate HasSuffix(s: string, t: string) {
    |t| <= |s| && s[|s| - |t|..] == t
  }

  lemma EndIsSuffix(front: string, t: string)
    ensures HasSuffix(front + t, t)
  {
    assert (front + t)[|front|..] == t;
  }

  lemma CutInTwo<T>(s: seq<T>, k: nat)
    requires k <= |s|
    ensures s == s[..k] + s[k..]
  {
  }

  lemma EndJoins(a: seq<string>, b: seq<string>, sep: char)
    requires b != [] && |b| < |a| && a[|a| - |b|..] == b
    ensures HasSuffix(Join(a, sep), [sep] + Join(b, sep))
  {
    hide Join, HasSuffix;
    var front := a[..|a| - |b|];
    CutInTwo(a, |a| - |b|);
    JoinAppend(front, b, sep);
    EndIsSuffix(Join(front, sep), [sep] + Join(b, sep));
    Assoc(Join(front, sep), [sep], Join(b, sep));
  }

  lemma JoinIsInjective(a: seq<string>, b: seq<string>, sep: char)
    requires a != [] && b != [] && Free(a, sep) && Free(b, sep) && Join(a, sep) == Join(b, sep)
    ensures a == b
  {
    hide Join, Split, Free;
    SplitOfJoin(a, sep);
    SplitOfJoin(b, sep);
  }

  lemma FreeTogether(a: seq<string>, b: seq<string>, sep: char)
    requires Free(a, sep) && Free(b, sep)
    ensures Free(a + b, sep)
  {
  }

  lemma SuffixIsEnd(a: seq<string>, b: seq<string>, sep: char)
    requires a != [] && b != [] && Free(a, sep) && Free(b, sep) && HasSuffix(Join(a, sep), [sep] + Join(b, sep))
    ensures |b| < |a| && a[|a| - |b|..] == b
  {
    hide Join, Split, Free;
    var s, t := Join(a, sep), [sep] + Join(b, sep);
    var rest := s[..|s| - |t|];
    var front := Split(rest, sep);
    SplitIsFree(rest, sep);
    JoinOfSplit(rest, sep);
    JoinAppend(front, b, sep);
    FreeTogether(front, b, sep);
    CutInTwo(s, |s| - |t|);
    Assoc(rest, [sep], Join(b, sep));
    JoinIsInjective(a, front + b, sep);
  }

  // A joined list ends in a separator and another one exactly when the other is its proper end.
  lemma JoinSuffix(a: seq<string>, b: seq<string>, sep: char)
    requires a != [] && b != [] && Free(a, sep) && Free(b, sep)
    ensures HasSuffix(Join(a, sep), [sep] + Join(b, sep)) <==> |b| < |a| && a[|a| - |b|..] == b
  {
    hide Join, HasSuffix, Free;
    if |b| < |a| && a[|a| - |b|..] == b {
      EndJoins(a, b, sep);
    }
    if HasSuffix(Join(a, sep), [sep] + Join(b, sep)) {
      SuffixIsEnd(a, b, sep);
    }
  }

  /**** Lines ****/

  // Every line with a newline after it.
  function Unlines(lines: seq<string>): string {
    if lines == [] then "" else lines[0] + "\n" + Unlines(lines[1..])
  }

  lemma {:induction false} SplitOfUnlines(lines: seq<string>)
    requires Free(lines, '\n')
    ensures Split(Unlines(lines), '\n') == lines + [""]
  {
    if lines != [] {
      assert Free(lines[1..], '\n') by {
        assert forall i :: 0 <= i < |lines[1..]| ==> lines[1..][i] == lines[i + 1];
      }
      SplitOfUnlines(lines[1..]);
      SplitAtSeparator(lines[0], Unlines(lines[1..]), '\n');
    }
  }

  lemma {:induction false} UnlinesAppend(a: seq<string>, b: seq<string>)
    ensures Unlines(a + b) == Unlines(a) + Unlines(b)
  {
    if a == [] {
      assert a + b == b;
    } else {
      UnlinesAppend(a[1..], b);
      assert (a + b)[0] == a[0] && (a + b)[1..] == a[1..] + b;
    }
  }

  lemma {:induction false} UnlinesIsJoin(lines: seq<string>)
    requires lines != []
    ensures Unlines(lines) == Join(lines, '\n') + "\n"
  {
    if |lines| == 1 {
      assert Unlines(lines) == lines[0] + "\n" + Unlines(lines[1..]);
    } else {
      UnlinesIsJoin(lines[1..]);
    }
  }

  /**** Searching ****/

  // strings.Index: where `sub` first occurs.
  function Find(s: string, sub: string): (r: Option<nat>)
    ensures r.Some? ==> r.value + |sub| <= |s| && s[r.value..r.value + |sub|] == sub
    ensures r.Some? ==> forall i :: 0 <= i < r.value ==> !(sub <= s[i..])
    ensures r.None? ==> forall i :: 0 <= i <= |s| ==> !(sub <= s[i..])
  {
    if sub <= s then Some(0)
    else if s == "" then None
    else
      var r := Find(s[1..], sub);
      assert forall i :: 1 <= i <= |s| ==> s[i..] == s[1..][i - 1..];
      if r.Some? then Some(r.value + 1) else None
  }

  predicate Contains(s: string, sub: string) {
    Find(s, sub).Some?
  }

  // strings.Cut: what precedes and follows the first occurrence.
  function Cut(s: string, sub: string): Option<(string, string)> {
    var r := Find(s, sub);
    if r.Some? then Some((s[..r.value], s[r.value + |sub|..])) else None
  }

  lemma {:induction false} FindAt(s: string, sub: string, at: nat)
    requires at <= |s| && sub <= s[at..] && forall i :: 0 <= i < at ==> !(sub <= s[i..])
    ensures Find(s, sub) == Some(at)
    decreases at
  {
    assert s[0..] == s;
    if at > 0 {
      assert forall i :: 1 <= i <= |s| ==> s[i..] == s[1..][i - 1..];
      FindAt(s[1..], sub, at - 1);
    }
  }

  lemma {:induction false} FindNone(s: string, sub: string)
    requires forall i :: 0 <= i <= |s| ==> !(sub <= s[i..])
    ensures Find(s, sub).None?
    decreases |s|
  {
    assert s[0..] == s;
    if s != "" {
      assert forall i :: 1 <= i <= |s| ==> s[i..] == s[1..][i - 1..];
      FindNone(s[1..], sub);
    }
  }
}
