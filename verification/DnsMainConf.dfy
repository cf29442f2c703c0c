// named.conf as the panel touches it: its own, or somebody else's with one line added
// (agent/internal/dns/config.go).
module DnsMainConf {
  import opened Wrappers
  import opened Parts
  import opened DnsConfig

  const ADDED: string := "// Added by JotHost Panel: the zones it " + "serves are defined in this file."
  const ADDED2: string := "// Removing this line stops the panel's " + "zones being served; it does not"
  const ADDED3: string := "// delete them."

  // RenderMainConf: the marker, then what depends on the settings.
  function RenderMainConf(body: Settings -> string, s: Settings): string {
    CONF_MARKER + ".\n" + body(s)
  }

  function IncludeLine(path: string): string {
    "include " + Quoted(path) + ";"
  }

  predicate HasMarker(content: string) {
    Contains(content, CONF_MARKER)
  }

  predicate HasInclude(content: string, path: string) {
    Contains(content, path)
  }

  // strings.TrimRight(content, "\n").
  function TrimBreaks(content: string): string {
    if content != "" && content[|content| - 1] == '\n' then TrimBreaks(content[..|content| - 1]) else content
  }

  function AddInclude(content: string, path: string): string {
    TrimBreaks(content) + "\n\n" + ADDED + "\n" + ADDED2 + "\n" + ADDED3 + "\n" + IncludeLine(path) + "\n"
  }

  /**** Searching across line breaks ****/

  ghost predicate OccursAt(s: string, sub: string, at: nat) {
    at + |sub| <= |s| && forall i :: 0 <= i < |sub| ==> sub[i] == s[at + i]
  }

  lemma Occurs(s: string, sub: string)
    ensures Contains(s, sub) <==> exists at: nat :: OccursAt(s, sub, at)
  {
    hide Find;
    var found := Find(s, sub);
    forall at: nat ensures OccursAt(s, sub, at) ==> at <= |s| && sub <= s[at..] {
    }
    if found.Some? {
      var at := found.value;
      assert s[at..at + |sub|] == sub;
      assert OccursAt(s, sub, at);
    }
  }

  lemma CharacterAt(s: string, sub: string, at: nat, i: int)
    ensures OccursAt(s, sub, at) && 0 <= i < |sub| ==> sub[i] == s[at + i]
  {
  }

  // A text without a line break is found on one side of it.
  lemma OccursOnOneSide(a: string, b: string, sub: string, at: nat)
    requires Whole(sub) && b != "" && b[0] == '\n' && OccursAt(a + b, sub, at)
    ensures at + |sub| <= |a| || at >= |a|
    ensures at + |sub| <= |a| ==> OccursAt(a, sub, at)
    ensures at >= |a| ==> OccursAt(b, sub, at - |a|)
  {
    CharacterAt(a + b, sub, at, |a| - at);
    assert (a + b)[|a|] == '\n';
  }

  lemma ContainsAcross(a: string, b: string, sub: string)
    requires Whole(sub) && sub != "" && b != "" && b[0] == '\n'
    ensures Contains(a + b, sub) <==> Contains(a, sub) || Contains(b, sub)
  {
    hide Contains, Whole;
    Occurs(a, sub);
    Occurs(b, sub);
    Occurs(a + b, sub);
    forall at: nat | OccursAt(a + b, sub, at) ensures Contains(a, sub) || Contains(b, sub) {
      OccursOnOneSide(a, b, sub, at);
    }
    forall at: nat | OccursAt(a, sub, at) ensures Contains(a + b, sub) {
      assert OccursAt(a + b, sub, at);
    }
    forall at: nat | OccursAt(b, sub, at) ensures Contains(a + b, sub) {
      assert OccursAt(a + b, sub, |a| + at);
    }
  }

  lemma LacksCharacter(s: string, sub: string, k: nat)
    requires k < |sub| && sub[k] !in s
    ensures !Contains(s, sub)
  {
    hide Contains;
    Occurs(s, sub);
    forall at: nat ensures !OccursAt(s, sub, at) {
      CharacterAt(s, sub, at, k);
    }
  }

  lemma MarkerShape()
    ensures Whole(CONF_MARKER) && |CONF_MARKER| > 3 && CONF_MARKER[0] == '/' && CONF_MARKER[1] == '/' && CONF_MARKER[3] == 'M'
  {
  }

  /**** What the added line brings ****/

  lemma AddedHasNoM()
    ensures 'M' !in "// Added by JotHost Panel: the zones it " && 'M' !in "serves are defined in this file."
  {
  }

  lemma Added2HasNoM()
    ensures 'M' !in "// Removing this line stops the panel's " && 'M' !in "zones being served; it does not"
  {
  }

  lemma LinesHaveNoMarker()
    ensures !HasMarker("\n" + ADDED) && !HasMarker("\n" + ADDED2) && !HasMarker("\n" + ADDED3) && !HasMarker("\n")
  {
    hide Contains, CONF_MARKER;
    MarkerShape();
    AddedHasNoM();
    Added2HasNoM();
    assert 'M' !in "\n" + ADDED && 'M' !in "\n" + ADDED2 && 'M' !in "\n" + ADDED3 && 'M' !in "\n";
    LacksCharacter("\n" + ADDED, CONF_MARKER, 3);
    LacksCharacter("\n" + ADDED2, CONF_MARKER, 3);
    LacksCharacter("\n" + ADDED3, CONF_MARKER, 3);
    LacksCharacter("\n", CONF_MARKER, 3);
  }

  // A cleaned path holds no two slashes in a row, so naming it is not mentioning the marker.
  lemma IncludeLineHasNoMarker(path: string)
    requires !Contains(path, "//")
    ensures !HasMarker("\n" + IncludeLine(path))
  {
    hide Contains, CONF_MARKER;
    var line := "\n" + IncludeLine(path);
    Occurs(line, CONF_MARKER);
    Occurs(path, "//");
    forall at: nat ensures OccursAt(line, CONF_MARKER, at) ==> exists k: nat :: OccursAt(path, "//", k) {
      if OccursAt(line, CONF_MARKER, at) {
        var k := SlashesInPath(path, at);
      }
    }
  }

  lemma SlashesInPath(path: string, at: nat) returns (k: nat)
    requires OccursAt("\n" + IncludeLine(path), CONF_MARKER, at)
    ensures OccursAt(path, "//", k)
  {
    hide CONF_MARKER;
    MarkerShape();
    var front := "\ninclude \"";
    var line := "\n" + IncludeLine(path);
    assert line == front + path + "\";";
    assert line[at] == '/' && line[at + 1] == '/';
    assert forall i :: 0 <= i < |front| ==> line[i] == front[i];
    assert '/' !in front;
    k := at - |front|;
    assert line[|front| + |path|] == '"' && line[|front| + |path| + 1] == ';';
    assert path[k] == line[at] && path[k + 1] == line[at + 1];
  }

  lemma {:induction false} TrimmingKeepsMarker(content: string)
    ensures HasMarker(TrimBreaks(content)) <==> HasMarker(content)
    decreases |content|
  {
    hide Contains, CONF_MARKER;
    if content != "" && content[|content| - 1] == '\n' {
      var front := content[..|content| - 1];
      TrimmingKeepsMarker(front);
      MarkerShape();
      LinesHaveNoMarker();
      ContainsAcross(front, "\n", CONF_MARKER);
      assert content == front + "\n";
    }
  }

  // Adding the line makes named.conf include the panel's zones and does not make it the panel's own.
  lemma AddIncludeIsSeen(content: string, path: string)
    requires !Contains(path, "//")
    ensures HasInclude(AddInclude(content, path), path)
    ensures HasMarker(AddInclude(content, path)) <==> HasMarker(content)
  {
    hide Contains, CONF_MARKER, ADDED, ADDED2, ADDED3, TrimBreaks;
    MarkerShape();
    LinesHaveNoMarker();
    IncludeLineHasNoMarker(path);
    TrimmingKeepsMarker(content);
    var t := TrimBreaks(content);
    ContainsAcross(t, "\n", CONF_MARKER);
    ContainsAcross(t + "\n", "\n" + ADDED, CONF_MARKER);
    var t1 := t + "\n" + ("\n" + ADDED);
    ContainsAcross(t1, "\n" + ADDED2, CONF_MARKER);
    ContainsAcross(t1 + ("\n" + ADDED2), "\n" + ADDED3, CONF_MARKER);
    var t2 := t1 + ("\n" + ADDED2) + ("\n" + ADDED3);
    ContainsAcross(t2, "\n" + IncludeLine(path), CONF_MARKER);
    var t3 := t2 + ("\n" + IncludeLine(path));
    ContainsAcross(t3, "\n", CONF_MARKER);
    Regroup(t, path);
    IncludeIsThere(t2, path);
  }

  lemma Regroup(t: string, path: string)
    ensures t + "\n\n" + ADDED + "\n" + ADDED2 + "\n" + ADDED3 + "\n" + IncludeLine(path) + "\n"
         == t + "\n" + ("\n" + ADDED) + ("\n" + ADDED2) + ("\n" + ADDED3) + ("\n" + IncludeLine(path)) + "\n"
  {
    hide ADDED, ADDED2, ADDED3, IncludeLine;
    assert "\n\n" == "\n" + "\n";
  }

  lemma IncludeIsThere(front: string, path: string)
    ensures HasInclude(front + ("\n" + IncludeLine(path)) + "\n", path)
  {
    var s := front + ("\n" + IncludeLine(path)) + "\n";
    var at := |front| + |"\ninclude \""|;
    assert s == (front + "\ninclude \"") + path + "\";\n";
    Occurs(s, path);
    assert OccursAt(s, path, at);
  }

  lemma RenderedHasMarker(body: Settings -> string, s: Settings)
    ensures HasMarker(RenderMainConf(body, s))
  {
    hide CONF_MARKER;
    var text := RenderMainConf(body, s);
    Occurs(text, CONF_MARKER);
    assert OccursAt(text, CONF_MARKER, 0);
  }
}
