// shared/validate/documentroot.go: the directory of a site that is served, given relative to the site.
module DocumentRoots {
  import opened Wrappers
  import opened Text
  import opened Parts
  import opened Paths
  import opened Keys

  datatype RootError =
    Rooted | TooLong | Backslash | NullByte | TooDeep | EmptyName | DotName | LeadingDash | BadName | NotPlain | Reserved

  const MAX_ROOT: nat := 200
  const MAX_DEPTH: nat := 6
  const MAX_NAME: nat := 64

  // strings.TrimRight(s, "/").
  function TrimRightSlashes(s: string): (r: string)
    ensures r <= s && (r != "" ==> r[|r| - 1] != '/')
  {
    if s != "" && s[|s| - 1] == '/' then TrimRightSlashes(s[..|s| - 1]) else s
  }

  predicate PlainName(name: string) {
    Utf8Length(name) <= MAX_NAME && forall i :: 0 <= i < |name| ==> KeyCharacter(name[i])
  }

  function NamesError(segments: seq<string>): Option<RootError> {
    if segments == [] then None
    else if segments[0] == "" then Some(EmptyName)
    else if segments[0] == "." || segments[0] == ".." then Some(DotName)
    else if segments[0][0] == '-' then Some(RootError.LeadingDash)
    else if !PlainName(segments[0]) then Some(BadName)
    else NamesError(segments[1..])
  }

  function DocumentRoot(relative: string): Result<string, RootError> {
    var spaced := TrimSpace(relative);
    if spaced != "" && spaced[0] == '/' then Failure(RootError.Rooted)
    else
      var trimmed := TrimRightSlashes(spaced);
      if trimmed == "" then Success("")
      else if Utf8Length(trimmed) > MAX_ROOT then Failure(RootError.TooLong)
      else if '\\' in trimmed then Failure(Backslash)
      else if '\0' in trimmed then Failure(NullByte)
      else
        var segments := Split(trimmed, '/');
        if |segments| > MAX_DEPTH then Failure(TooDeep)
        else if NamesError(segments).Some? then Failure(NamesError(segments).value)
        else if Clean(trimmed) != trimmed then Failure(NotPlain)
        else if segments[0] == "logs" then Failure(Reserved)
        else Success(Clean(trimmed))
  }

  // DocumentRootPath, for the site's own cleaned directory.
  function DocumentRootPath(site: Path, relative: string): Path {
    if relative == "" then site else CleanOnto(site, Split(relative, '/'), true)
  }

  ghost predicate RootName(s: string) {
    KeySegment(s) && s[0] != '-' && |s| <= MAX_NAME
  }

  ghost predicate RootNames(segments: seq<string>) {
    forall i :: 0 <= i < |segments| ==> RootName(segments[i])
  }

  lemma KeyCharactersAreAscii(s: string)
    requires forall i :: 0 <= i < |s| ==> KeyCharacter(s[i])
    ensures Utf8Length(s) == |s|
  {
    hide Utf8Length;
    AsciiLength(s);
  }

  lemma {:induction false} NamesErrorNone(segments: seq<string>)
    ensures NamesError(segments).None? <==> RootNames(segments)
    ensures NamesError(segments) != Some(NotPlain)
  {
    hide Utf8Length;
    if segments != [] {
      NamesErrorNone(segments[1..]);
      if forall i :: 0 <= i < |segments[0]| ==> KeyCharacter(segments[0][i]) {
        KeyCharactersAreAscii(segments[0]);
      }
      assert RootNames(segments) <==> RootName(segments[0]) && RootNames(segments[1..]) by {
        assert segments == [segments[0]] + segments[1..];
      }
    }
  }

  lemma RootNamesAreKey(segments: seq<string>)
    requires RootNames(segments)
    ensures KeySegments(segments)
  {
    hide KeySegment;
    forall i | 0 <= i < |segments| ensures KeySegment(segments[i]) {
      assert RootName(segments[i]);
    }
  }

  // What the whole of a stored document root looks like.
  ghost predicate StoredRoot(r: string) {
    r != "" ==>
      var segments := Split(r, '/');
      |r| <= MAX_ROOT && |segments| <= MAX_DEPTH && RootNames(segments) && segments[0] != "logs"
  }

  // The text that is checked, once blanks around it and slashes after it are gone.
  function Offered(relative: string): string {
    TrimRightSlashes(TrimSpace(relative))
  }

  // What is accepted, exactly, and what is stored for it. Cleaning the path changes nothing, so the
  // comparison with path.Clean never refuses one.
  lemma DocumentRootAccepts(relative: string)
    ensures DocumentRoot(relative) != Failure(NotPlain)
    ensures DocumentRoot(relative).Success? <==>
              StoredRoot(Offered(relative)) && !(TrimSpace(relative) != "" && TrimSpace(relative)[0] == '/')
    ensures DocumentRoot(relative).Success? ==> DocumentRoot(relative).value == Offered(relative)
  {
    hide Split, Utf8Length, TrimSpace, TrimRightSlashes, CleanSegments, NamesError, RootNames, KeySegments;
    var trimmed := Offered(relative);
    if trimmed != "" {
      var segments := Split(trimmed, '/');
      NamesErrorNone(segments);
      if RootNames(segments) {
        RootNamesAreKey(segments);
        KeySegmentsAreProper(segments);
        JoinOfSplit(trimmed, '/');
        CleanOfProper(segments);
        PlainCharacters(trimmed);
        AsciiLength(trimmed);
      }
    }
  }

  lemma LastIsPlain(r: string)
    requires r != "" && KeySegments(Split(r, '/'))
    ensures r[|r| - 1] != '/' && !IsSpace(r[0]) && !IsSpace(r[|r| - 1])
  {
    hide Split, Join, KeySegment, IsSpace;
    PlainCharacters(r);
    JoinOfSplit(r, '/');
    LastOfKey(Split(r, '/'));
    NotSpace(r[0]);
    NotSpace(r[|r| - 1]);
  }

  lemma NotSpace(c: char)
    requires KeyCharacter(c)
    ensures !IsSpace(c) && c != '/'
  {
  }

  lemma {:induction false} LastOfKey(segments: seq<string>)
    requires segments != [] && KeySegments(segments)
    ensures var s := Join(segments, '/'); s != "" && KeyCharacter(s[|s| - 1])
  {
    hide KeyCharacter;
    assert KeySegment(segments[|segments| - 1]);
    if |segments| > 1 {
      LastOfKey(segments[1..]);
    }
  }

  // Storing what was stored changes nothing.
  lemma StoredRootIsStable(relative: string)
    requires DocumentRoot(relative).Success?
    ensures DocumentRoot(DocumentRoot(relative).value) == DocumentRoot(relative)
  {
    hide Split, IsSpace, TrimSpace, DocumentRoot, TrimRightSlashes, RootNames, KeySegments;
    DocumentRootAccepts(relative);
    var r := DocumentRoot(relative).value;
    DocumentRootAccepts(r);
    if r == "" {
      NothingTrimmed();
    } else {
      RootNamesAreKey(Split(r, '/'));
      PlainCharacters(r);
      LastIsPlain(r);
      TrimmedAlready(r);
      assert TrimRightSlashes(r) == r by { NoSlashToTrim(r); }
    }
  }

  lemma NothingTrimmed()
    ensures TrimSpace("") == "" && TrimRightSlashes("") == ""
  {
    hide IsSpace;
  }

  lemma NoSlashToTrim(r: string)
    requires r != "" && r[|r| - 1] != '/'
    ensures TrimRightSlashes(r) == r
  {
  }

  // The served directory is the site's own or one strictly below it, at the stored path's segments,
  // and never its log directory or anything in it.
  lemma ServedDirectoryIsInsideSite(site: Path, relative: string)
    requires Proper(site) && DocumentRoot(relative).Success?
    ensures var served := DocumentRootPath(site, DocumentRoot(relative).value);
            && site <= served && Proper(served) && !(site + ["logs"] <= served)
            && (DocumentRoot(relative).value != "" ==> served == site + Split(DocumentRoot(relative).value, '/'))
  {
    hide Split, TrimSpace, DocumentRoot, TrimRightSlashes, RootNames, KeySegments, CleanOnto;
    DocumentRootAccepts(relative);
    var r := DocumentRoot(relative).value;
    if r != "" {
      var segments := Split(r, '/');
      RootNamesAreKey(segments);
      KeySegmentsAreProper(segments);
      CleanOntoProper(site, segments, true);
      assert (site + segments)[|site|] == segments[0] && (site + ["logs"])[|site|] == "logs";
    }
  }

  // A document root that is refused is told the reason: each is true of what was offered.
  lemma RefusalIsTrue(relative: string)
    requires DocumentRoot(relative).Failure?
    ensures var e, offered := DocumentRoot(relative).error, Offered(relative);
            && (e.Rooted? <==> TrimSpace(relative) != "" && TrimSpace(relative)[0] == '/')
            && (!e.Rooted? ==>
                  && offered != "" && (e.TooLong? <==> Utf8Length(offered) > MAX_ROOT)
                  && (e.Backslash? ==> '\\' in offered) && (e.NullByte? ==> '\0' in offered)
                  && var segments := Split(offered, '/');
                     && (e.TooDeep? ==> |segments| > MAX_DEPTH) && (e.Reserved? ==> segments[0] == "logs")
                     && (e.EmptyName? ==> "" in segments) && (e.DotName? ==> "." in segments || ".." in segments)
                     && (e.LeadingDash? ==> exists k :: 0 <= k < |segments| && segments[k] != "" && segments[k][0] == '-')
                     && (e.BadName? ==> exists k :: 0 <= k < |segments| && !PlainName(segments[k]))
                     && !e.NotPlain?)
  {
    hide Split, Utf8Length, TrimSpace, TrimRightSlashes, Clean, PlainName;
    DocumentRootAccepts(relative);
    NamesRefusal(Split(Offered(relative), '/'));
  }

  lemma {:induction false} NamesRefusal(segments: seq<string>)
    ensures var e := NamesError(segments);
            && (e == Some(EmptyName) ==> "" in segments) && (e == Some(DotName) ==> "." in segments || ".." in segments)
            && (e == Some(RootError.LeadingDash) ==> exists k :: 0 <= k < |segments| && segments[k] != "" && segments[k][0] == '-')
            && (e == Some(BadName) ==> exists k :: 0 <= k < |segments| && !PlainName(segments[k]))
            && (e.Some? ==> e.value in {EmptyName, DotName, RootError.LeadingDash, BadName})
  {
    hide PlainName;
    if segments != [] {
      NamesRefusal(segments[1..]);
      assert forall k :: 0 <= k < |segments[1..]| ==> segments[1..][k] == segments[k + 1];
    }
  }
}
