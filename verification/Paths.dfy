// Slash-separated paths: path.Clean on segment lists, and the checks that keep archive members and
// link targets under a root (agent/internal/backup/archive.go and verify.go).
module Paths {
  import opened Wrappers
  import opened Parts

  // A cleaned absolute path, as its segments; [] is "/".
  type Path = seq<string>

  /**** path.Clean ****/

  // One segment onto the part already cleaned.
  function Push(stack: seq<string>, segment: string, rooted: bool): seq<string> {
    if segment == "" || segment == "." then stack
    else if segment == ".." then
      if stack != [] && stack[|stack| - 1] != ".." then stack[..|stack| - 1]
      else if rooted then stack
      else stack + [".."]
    else stack + [segment]
  }

  function CleanOnto(stack: seq<string>, segments: seq<string>, rooted: bool): seq<string>
    decreases |segments|
  {
    if segments == [] then stack else CleanOnto(Push(stack, segments[0], rooted), segments[1..], rooted)
  }

  // path.IsAbs.
  predicate IsAbs(name: string) {
    name != "" && name[0] == '/'
  }

  function CleanSegments(name: string): seq<string> {
    CleanOnto([], Split(name, '/'), IsAbs(name))
  }

  // path.Clean.
  function Clean(name: string): string {
    var segments := CleanSegments(name);
    if IsAbs(name) then "/" + Join(segments, '/')
    else if segments == [] then "." else Join(segments, '/')
  }

  // A segment Clean leaves alone.
  predicate ProperSegment(segment: string) {
    segment != "" && segment != "." && segment != ".." && '/' !in segment
  }

  ghost predicate Proper(segments: seq<string>) {
    forall i :: 0 <= i < |segments| ==> ProperSegment(segments[i])
  }

  lemma {:induction false} CleanOntoProper(stack: seq<string>, segments: seq<string>, rooted: bool)
    requires Proper(segments)
    ensures CleanOnto(stack, segments, rooted) == stack + segments
    decreases |segments|
  {
    if segments == [] {
      assert stack + segments == stack;
    } else {
      assert Push(stack, segments[0], rooted) == stack + [segments[0]];
      CleanOntoProper(stack + [segments[0]], segments[1..], rooted);
      assert stack + [segments[0]] + segments[1..] == stack + segments;
    }
  }

  lemma ProperIsFree(segments: seq<string>)
    requires Proper(segments)
    ensures Free(segments, '/')
  {
  }

  // Cleaning a path that is already clean changes nothing.
  lemma CleanOfProper(segments: seq<string>)
    requires Proper(segments) && segments != []
    ensures !IsAbs(Join(segments, '/')) && CleanSegments(Join(segments, '/')) == segments
    ensures Clean(Join(segments, '/')) == Join(segments, '/')
  {
    hide Split;
    ProperIsFree(segments);
    SplitOfJoin(segments, '/');
    JoinStartsWithFirst(segments);
    CleanOntoProper([], segments, false);
    assert [] + segments == segments;
  }

  lemma JoinStartsWithFirst(segments: seq<string>)
    requires segments != [] && segments[0] != ""
    ensures Join(segments, '/') != "" && Join(segments, '/')[0] == segments[0][0]
  {
  }

  /**** Names without ".." ****/

  ghost predicate NoDotDot(segments: seq<string>) {
    forall i :: 0 <= i < |segments| ==> segments[i] != ".."
  }

  // What cleaning leaves of segments that never step up.
  function Named(segments: seq<string>): seq<string> {
    if segments == [] then []
    else (if segments[0] == "" || segments[0] == "." then [] else [segments[0]]) + Named(segments[1..])
  }

  lemma {:induction false} CleanWithoutDotDot(stack: seq<string>, segments: seq<string>, rooted: bool)
    requires NoDotDot(segments)
    ensures CleanOnto(stack, segments, rooted) == stack + Named(segments)
    decreases |segments|
  {
    if segments == [] {
      assert stack + [] == stack;
    } else {
      CleanWithoutDotDot(Push(stack, segments[0], rooted), segments[1..], rooted);
      if segments[0] == "" || segments[0] == "." {
        assert Named(segments) == Named(segments[1..]);
      } else {
        assert stack + [segments[0]] + Named(segments[1..]) == stack + ([segments[0]] + Named(segments[1..]));
      }
    }
  }

  lemma {:induction false} NamedIsProper(segments: seq<string>)
    requires NoDotDot(segments) && Free(segments, '/')
    ensures Proper(Named(segments))
  {
    if segments != [] {
      NamedIsProper(segments[1..]);
    }
  }

  /**** checkMemberName ****/

  // strings.Trim(name, "/").
  function TrimSlashes(name: string): string {
    if name != "" && name[0] == '/' then TrimSlashes(name[1..])
    else if name != "" && name[|name| - 1] == '/' then TrimSlashes(name[..|name| - 1])
    else name
  }

  predicate HasDotDot(name: string) {
    ".." in Split(TrimSlashes(name), '/')
  }

  lemma {:induction false} SplitAppendSlash(s: string)
    ensures Split(s + "/", '/') == Split(s, '/') + [""]
  {
    if s == "" {
      assert s + "/" == "/" && "/"[1..] == "";
    } else {
      assert (s + "/")[0] == s[0] && (s + "/")[1..] == s[1..] + "/";
      SplitAppendSlash(s[1..]);
    }
  }

  // Slashes at the ends add only empty segments.
  lemma {:induction false} TrimmingKeepsDotDot(name: string)
    ensures HasDotDot(name) <==> ".." in Split(name, '/')
    ensures HasDotDot(name) <==> !NoDotDot(Split(name, '/'))
    decreases |name|
  {
    if name != "" && name[0] == '/' {
      TrimmingKeepsDotDot(name[1..]);
      assert Split(name, '/') == [""] + Split(name[1..], '/');
      assert forall i :: 0 <= i < |Split(name[1..], '/')| ==> Split(name, '/')[i + 1] == Split(name[1..], '/')[i];
    } else if name != "" && name[|name| - 1] == '/' {
      var front := name[..|name| - 1];
      TrimmingKeepsDotDot(front);
      assert name == front + "/";
      SplitAppendSlash(front);
    }
  }

  datatype MemberError = NoName | BadCharacter | Absolute | Escapes

  // checkMemberName of verify.go.
  function CheckMemberName(name: string): Option<MemberError> {
    if name == "" then Some(NoName)
    else if '\\' in name || '\0' in name then Some(BadCharacter)
    else if IsAbs(name) then Some(Absolute)
    else if HasDotDot(name) then Some(Escapes)
    else None
  }

  /**** safeMemberPath ****/

  // The string a path stands for.
  function PathString(p: Path): string {
    "/" + Join(p, '/')
  }

  // target == root || strings.HasPrefix(target, root + "/").
  predicate AtOrUnder(root: Path, target: Path) {
    target == root || PathString(root) + "/" <= PathString(target)
  }

  lemma JoinPrefix(a: seq<string>, b: seq<string>)
    requires a != [] && b != [] && Free(a, '/') && Free(b, '/') && Join(a, '/') + "/" <= Join(b, '/')
    ensures a < b
  {
    var s := Join(b, '/');
    var rest := s[|Join(a, '/')| + 1..];
    assert s == Join(a, '/') + "/" + rest;
    SplitIsFree(rest, '/');
    JoinOfSplit(rest, '/');
    JoinAppend(a, Split(rest, '/'), '/');
    SplitOfJoin(b, '/');
    SplitOfJoin(a + Split(rest, '/'), '/');
    assert b == a + Split(rest, '/');
  }

  // The comparison of strings is one of segments, except that nothing is strictly under "/".
  lemma AtOrUnderIsPrefix(root: Path, target: Path)
    requires Proper(root) && Proper(target)
    ensures AtOrUnder(root, target) <==> target == root || (root != [] && root < target)
  {
    ProperIsFree(root);
    ProperIsFree(target);
    var r, t := PathString(root) + "/", PathString(target);
    if root == [] {
      assert r == "//";
      if target != [] {
        JoinStartsWithFirst(target);
        assert t[1] == target[0][0] != '/';
      }
    } else {
      if root < target {
        var rest := target[|root|..];
        assert target == root + rest;
        JoinAppend(root, rest, '/');
        assert t == r + Join(rest, '/');
      }
      if r <= t && target != root {
        assert Join(root, '/') + "/" <= Join(target, '/') by {
          assert r[1..] == Join(root, '/') + "/" && t[1..] == Join(target, '/');
        }
        if target == [] {
          JoinStartsWithFirst(root);
        } else {
          JoinPrefix(root, target);
        }
      }
    }
  }

  // safeMemberPath of archive.go, for a cleaned absolute root.
  function SafeMemberPath(root: Path, name: string): Result<Path, MemberError> {
    if name == "" then Failure(NoName)
    else if '\\' in name || '\0' in name then Failure(BadCharacter)
    else if IsAbs(name) then Failure(Absolute)
    else if HasDotDot(name) then Failure(Escapes)
    else
      var target := CleanOnto(root, Split(Clean(name), '/'), true);
      if AtOrUnder(root, target) then Success(target) else Failure(Escapes)
  }

  lemma MemberTarget(root: Path, name: string)
    requires CheckMemberName(name).None?
    ensures Proper(CleanSegments(name))
    ensures CleanOnto(root, Split(Clean(name), '/'), true) == root + CleanSegments(name)
  {
    hide Split;
    var segments := Split(name, '/');
    TrimmingKeepsDotDot(name);
    SplitIsFree(name, '/');
    CleanWithoutDotDot([], segments, false);
    assert [] + Named(segments) == Named(segments);
    NamedIsProper(segments);
    var named := Named(segments);
    if named == [] {
      DotIsNothing(root);
    } else {
      ProperIsFree(named);
      SplitOfJoin(named, '/');
      CleanOntoProper(root, named, true);
    }
  }

  lemma DotIsNothing(root: Path)
    ensures CleanOnto(root, Split(".", '/'), true) == root + []
  {
    SplitOfFree(".", '/');
    assert ["."][1..] == [];
    assert root + [] == root;
  }

  // The two checks accept the same names under any root but "/", and what is accepted lands under
  // the root, at the name's own segments.
  lemma MemberChecksAgree(root: Path, name: string)
    requires Proper(root)
    ensures root != [] ==>
              (SafeMemberPath(root, name).Success? <==> CheckMemberName(name).None?)
    ensures root == [] ==>
              (SafeMemberPath(root, name).Success? <==> CheckMemberName(name).None? && CleanSegments(name) == [])
    ensures SafeMemberPath(root, name).Success? ==>
              && SafeMemberPath(root, name).value == root + CleanSegments(name)
              && Proper(CleanSegments(name))
  {
    hide Split, Clean, CleanSegments, HasDotDot, CleanOnto, AtOrUnder;
    if CheckMemberName(name).None? {
      MemberTarget(root, name);
      var target := root + CleanSegments(name);
      AtOrUnderIsPrefix(root, target);
      assert target == root <==> CleanSegments(name) == [];
    }
  }

  /**** safeLinkTarget ****/

  datatype LinkError = NoTarget | Outside | BadMember(member: MemberError)

  // path.Dir of a path that is not "/".
  function Dir(p: Path): Path {
    if p == [] then [] else p[..|p| - 1]
  }

  // Where a link at `link` pointing at `target` lexically leads.
  function Resolve(link: Path, target: string): Path {
    CleanOnto(Dir(link), Split(target, '/'), true)
  }

  function SafeLinkTarget(root: Path, name: string, target: string): Option<LinkError> {
    if target == "" then Some(NoTarget)
    else if IsAbs(target) then Some(Outside)
    else
      var link := SafeMemberPath(root, name);
      if link.Failure? then Some(BadMember(link.error))
      else if AtOrUnder(root, Resolve(link.value, target)) then None
      else Some(Outside)
  }

  lemma {:induction false} CleanOntoStaysProper(stack: seq<string>, segments: seq<string>)
    requires Proper(stack) && Free(segments, '/')
    ensures Proper(CleanOnto(stack, segments, true))
    decreases |segments|
  {
    if segments != [] {
      CleanOntoStaysProper(Push(stack, segments[0], true), segments[1..]);
    }
  }

  // A link is accepted exactly when its member is, its target is relative and not empty, and the
  // place it leads to is the root or under it.
  lemma AcceptedLinkStaysInside(root: Path, name: string, target: string)
    requires Proper(root) && root != []
    ensures SafeLinkTarget(root, name, target).None? <==>
              && target != "" && !IsAbs(target) && CheckMemberName(name).None?
              && root <= Resolve(root + CleanSegments(name), target)
  {
    hide Split, CleanSegments, HasDotDot, CleanOnto, AtOrUnder;
    MemberChecksAgree(root, name);
    if SafeMemberPath(root, name).Success? {
      var link := root + CleanSegments(name);
      SplitIsFree(target, '/');
      CleanOntoStaysProper(Dir(link), Split(target, '/'));
      AtOrUnderIsPrefix(root, Resolve(link, target));
    }
  }

  /**** Why a name or a link is refused ****/

  // A name that is refused is told the reason: each is true of it.
  lemma MemberRefusalIsTrue(name: string)
    requires CheckMemberName(name).Some?
    ensures var e := CheckMemberName(name).value;
            && (e.NoName? <==> name == "") && (e.Absolute? ==> name[0] == '/')
            && (e.BadCharacter? <==> '\\' in name || '\0' in name) && (e.Escapes? ==> ".." in Split(name, '/'))
  {
    hide Split;
    TrimmingKeepsDotDot(name);
  }

  // The same of a link: that its target is missing or leads out, or what is wrong with its own name.
  lemma LinkRefusalIsTrue(root: Path, name: string, target: string)
    requires Proper(root) && root != [] && SafeLinkTarget(root, name, target).Some?
    ensures var e := SafeLinkTarget(root, name, target).value;
            && (e.NoTarget? <==> target == "")
            && (e.BadMember? <==> target != "" && !IsAbs(target) && CheckMemberName(name).Some?)
            && (e.BadMember? ==> CheckMemberName(name) == Some(e.member))
            && (e.Outside? ==> IsAbs(target) || !(root <= Resolve(root + CleanSegments(name), target)))
  {
    hide Split, CleanSegments, HasDotDot, CleanOnto, AtOrUnder;
    MemberChecksAgree(root, name);
    AcceptedLinkStaysInside(root, name, target);
  }
}
