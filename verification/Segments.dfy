// safeSegment of agent/internal/backup/store.go: any text reduced to one path segment.
module Segments {
  import opened Wrappers
  import opened Bytes
  import opened Parts
  import opened Paths

  predicate Allowed(c: char) {
    'a' <= c <= 'z' || 'A' <= c <= 'Z' || '0' <= c <= '9' || c == '-' || c == '_'
  }

  // What one more character adds to the builder.
  function Add(built: string, c: char): string {
    if Allowed(c) then built + [c]
    else if c == '.' then if built != "" && built[|built| - 1] != '.' then built + "." else built
    else built + "-"
  }

  function Mapped(value: string): string {
    if value == "" then "" else Add(Mapped(value[..|value| - 1]), value[|value| - 1])
  }

  predicate Edge(c: char) {
    c == '.' || c == '-'
  }

  function TrimFront(s: string): string {
    if s != "" && Edge(s[0]) then TrimFront(s[1..]) else s
  }

  function TrimBack(s: string): string {
    if s != "" && Edge(s[|s| - 1]) then TrimBack(s[..|s| - 1]) else s
  }

  // strings.Trim(s, ".-").
  function TrimEdges(s: string): string {
    TrimBack(TrimFront(s))
  }

  const MAX_SEGMENT: nat := 100

  function Segment(value: string): string {
    var trimmed := TrimEdges(Mapped(value));
    if trimmed == "" then "unnamed"
    else if |trimmed| > MAX_SEGMENT then TrimEdges(trimmed[..MAX_SEGMENT])
    else trimmed
  }

  method SafeSegment(value: string) returns (r: string)
    ensures r == Segment(value)
  {
    var built := "";
    for k := 0 to |value|
      invariant built == Mapped(value[..k])
    {
      var c := value[k];
      assert value[..k + 1][..k] == value[..k];
      if Allowed(c) {
        built := built + [c];
      } else if c == '.' {
        if |built| > 0 && built[|built| - 1] != '.' {
          built := built + ".";
        }
      } else {
        built := built + "-";
      }
    }
    assert value[..|value|] == value;
    var trimmed := TrimEdges(built);
    if trimmed == "" {
      return "unnamed";
    }
    if |trimmed| > MAX_SEGMENT {
      trimmed := TrimEdges(trimmed[..MAX_SEGMENT]);
    }
    return trimmed;
  }

  /**** Its fixed points ****/

  lemma {:induction false} TrimFrontIsEnd(s: string)
    ensures var r := TrimFront(s); |r| <= |s| && r == s[|s| - |r|..] && (r != "" ==> !Edge(r[0]))
  {
    hide Edge;
    if s != "" && Edge(s[0]) {
      TrimFrontIsEnd(s[1..]);
    }
  }

  lemma {:induction false} TrimBackIsStart(s: string)
    ensures var r := TrimBack(s); r <= s && (r != "" ==> !Edge(r[|r| - 1])) && (s != "" && !Edge(s[0]) ==> r != "")
    decreases |s|
  {
    hide Edge;
    if s != "" && Edge(s[|s| - 1]) {
      TrimBackIsStart(s[..|s| - 1]);
    }
  }

  ghost predicate Shaped(s: string) {
    && (forall i :: 0 <= i < |s| ==> Allowed(s[i]) || s[i] == '.')
    && (forall i :: 0 <= i < |s| - 1 ==> !(s[i] == '.' && s[i + 1] == '.'))
  }

  // A segment that needs no reducing.
  ghost predicate Stable(s: string) {
    s != "" && |s| <= MAX_SEGMENT && Shaped(s) && !Edge(s[0]) && !Edge(s[|s| - 1])
  }

  lemma {:induction false} MappedIsShaped(value: string)
    ensures Shaped(Mapped(value))
    decreases |value|
  {
    if value != "" {
      MappedIsShaped(value[..|value| - 1]);
    }
  }

  lemma {:induction false} MappedOfShaped(s: string)
    requires Shaped(s) && (s != "" ==> s[0] != '.')
    ensures Mapped(s) == s
    decreases |s|
  {
    if s != "" {
      var front := s[..|s| - 1];
      MappedOfShaped(front);
      assert s == front + [s[|s| - 1]];
    }
  }

  lemma SliceIsShaped(s: string, a: nat, b: nat)
    requires a <= b <= |s| && Shaped(s)
    ensures Shaped(s[a..b])
  {
    var t := s[a..b];
    forall i | 0 <= i < |t| - 1 ensures !(t[i] == '.' && t[i + 1] == '.') {
      assert t[i] == s[a + i] && t[i + 1] == s[a + i + 1];
    }
  }

  lemma TrimmedIsShaped(s: string)
    requires Shaped(s)
    ensures Shaped(TrimEdges(s)) && |TrimEdges(s)| <= |s|
    ensures TrimEdges(s) != "" ==> !Edge(TrimEdges(s)[0]) && !Edge(TrimEdges(s)[|TrimEdges(s)| - 1])
  {
    hide TrimFront, TrimBack, Allowed, Edge;
    var front := TrimFront(s);
    TrimFrontIsEnd(s);
    TrimBackIsStart(front);
    SliceIsShaped(s, |s| - |front|, |s|);
    assert front == s[|s| - |front|..|s|];
    var back := TrimBack(front);
    assert back == front[0..|back|];
    SliceIsShaped(front, 0, |back|);
  }

  // Whatever the text, the segment made of it is one that needs no more reducing.
  lemma SegmentIsStable(value: string)
    ensures Stable(Segment(value))
  {
    hide TrimEdges, Mapped, Shaped, Edge, Allowed;
    MappedIsShaped(value);
    var mapped := Mapped(value);
    TrimmedIsShaped(mapped);
    var trimmed := TrimEdges(mapped);
    if trimmed == "" {
      UnnamedIsStable();
    } else if |trimmed| > MAX_SEGMENT {
      var cut := trimmed[..MAX_SEGMENT];
      assert cut == trimmed[0..MAX_SEGMENT];
      SliceIsShaped(trimmed, 0, MAX_SEGMENT);
      TrimmedIsShaped(cut);
      NotAllTrimmed(cut);
    }
  }

  lemma UnnamedIsStable()
    ensures Stable("unnamed")
  {
  }

  lemma NotAllTrimmed(s: string)
    requires s != "" && !Edge(s[0])
    ensures TrimEdges(s) != ""
  {
    TrimBackIsStart(s);
  }

  lemma StableIsFixed(s: string)
    requires Stable(s)
    ensures Segment(s) == s
  {
    hide Mapped, Shaped, Allowed;
    MappedOfShaped(s);
    assert TrimFront(s) == s && TrimBack(s) == s;
  }

  // Reducing twice is reducing once.
  lemma SegmentIdempotent(value: string)
    ensures Segment(Segment(value)) == Segment(value)
  {
    SegmentIsStable(value);
    StableIsFixed(Segment(value));
  }

  lemma StableIsGoodName(s: string)
    requires Stable(s)
    ensures ProperSegment(s) && '\\' !in s && '\0' !in s
  {
  }

  /**** Domains ****/

  const MAX_DOMAIN: nat := 253
  const MAX_LABEL: nat := 63

  predicate LabelCharacter(c: char) {
    'a' <= c <= 'z' || '0' <= c <= '9' || c == '-'
  }

  // [a-z0-9]([a-z0-9-]*[a-z0-9])?
  predicate ValidLabel(word: string) {
    && 0 < |word| <= MAX_LABEL
    && (forall i :: 0 <= i < |word| ==> LabelCharacter(word[i]))
    && word[0] != '-' && word[|word| - 1] != '-'
  }

  predicate IsNumeric(value: string) {
    value != "" && forall i :: 0 <= i < |value| ==> '0' <= value[i] <= '9'
  }

  // validate.Domain of shared/validate/validate.go.
  predicate ValidDomain(domain: string) {
    var words := Split(domain, '.');
    && |domain| <= MAX_DOMAIN && |words| >= 2
    && (forall i :: 0 <= i < |words| ==> ValidLabel(words[i]))
    && !IsNumeric(words[|words| - 1])
  }

  lemma {:induction false} JoinedLabels(words: seq<string>)
    requires words != [] && forall i :: 0 <= i < |words| ==> ValidLabel(words[i])
    ensures var s := Join(words, '.'); s != "" && Shaped(s) && !Edge(s[0]) && !Edge(s[|s| - 1])
  {
    if |words| == 1 {
      LabelIsShaped(words[0]);
    } else {
      JoinedLabels(words[1..]);
      LabelIsShaped(words[0]);
      DottedIsShaped(words[0], Join(words[1..], '.'));
    }
  }

  lemma LabelIsShaped(word: string)
    requires ValidLabel(word)
    ensures Shaped(word) && !Edge(word[0]) && !Edge(word[|word| - 1])
  {
  }

  lemma DottedIsShaped(a: string, b: string)
    requires a != "" && b != "" && Shaped(a) && Shaped(b) && !Edge(a[|a| - 1]) && !Edge(b[0])
    ensures Shaped(a + "." + b)
  {
    var s := a + "." + b;
    forall i | 0 <= i < |s| - 1 ensures !(s[i] == '.' && s[i + 1] == '.') {
      if i < |a| - 1 {
        assert s[i] == a[i] && s[i + 1] == a[i + 1];
      } else if i == |a| - 1 {
        assert s[i] == a[i];
      } else if i == |a| {
        assert s[i + 1] == b[0];
      } else {
        assert s[i] == b[i - |a| - 1] && s[i + 1] == b[i - |a|];
      }
    }
  }

  // What is left of a domain: all of it, or its first characters without the dots and dashes they end in.
  function Short(domain: string): string {
    if |domain| <= MAX_SEGMENT then domain else TrimBack(domain[..MAX_SEGMENT])
  }

  lemma DomainIsShaped(domain: string)
    requires ValidDomain(domain)
    ensures domain != "" && Shaped(domain) && !Edge(domain[0]) && !Edge(domain[|domain| - 1])
  {
    hide Split, ValidLabel, Shaped, Edge;
    JoinedLabels(Split(domain, '.'));
    JoinOfSplit(domain, '.');
  }

  lemma NothingToTrim(s: string)
    requires s != "" && !Edge(s[0])
    ensures s[0] != '.' && TrimFront(s) == s
    ensures !Edge(s[|s| - 1]) ==> TrimBack(s) == s
  {
  }

  lemma SegmentOfDomain(domain: string)
    requires ValidDomain(domain)
    ensures Segment(domain) == Short(domain)
  {
    hide ValidDomain, Mapped, Shaped, Edge, TrimFront, TrimBack;
    DomainIsShaped(domain);
    NothingToTrim(domain);
    MappedOfShaped(domain);
    if |domain| > MAX_SEGMENT {
      NothingToTrim(domain[..MAX_SEGMENT]);
    }
  }

  // Two valid domains share a prefix exactly when the part that is left of them is the same text.
  lemma DomainsShareExactly(a: string, b: string)
    requires ValidDomain(a) && ValidDomain(b)
    ensures Segment(a) == Segment(b) <==> Short(a) == Short(b)
    ensures a != b && Segment(a) == Segment(b) ==> |a| > MAX_SEGMENT || |b| > MAX_SEGMENT
  {
    hide ValidDomain, Segment;
    SegmentOfDomain(a);
    SegmentOfDomain(b);
  }

  // A valid domain that fits is left alone.
  lemma DomainIsKept(domain: string)
    requires ValidDomain(domain)
    ensures Segment(domain) == domain <==> |domain| <= MAX_SEGMENT
  {
    hide ValidDomain, Segment, TrimBack;
    SegmentOfDomain(domain);
    if |domain| > MAX_SEGMENT {
      TrimBackIsStart(domain[..MAX_SEGMENT]);
    }
  }

  // So different domains that fit stay different.
  lemma DomainsStayApart(a: string, b: string)
    requires ValidDomain(a) && ValidDomain(b) && a != b && |a| <= MAX_SEGMENT && |b| <= MAX_SEGMENT
    ensures Segment(a) != Segment(b)
  {
    hide ValidDomain, Segment;
    DomainsShareExactly(a, b);
  }

  // Longer ones may not. Any valid label of 49 characters gives two valid, different domains that share
  // one archive prefix.
  lemma LongDomainsCollide(word: string)
    requires ValidLabel(word) && |word| == 49
    ensures var a, b := word + "." + word + "." + "com", word + "." + word + "." + "org";
            ValidDomain(a) && ValidDomain(b) && a != b && Segment(a) == Segment(b)
  {
    hide Split, ValidDomain, Segment, ValidLabel;
    var front := word + "." + word;
    var a, b := front + "." + "com", front + "." + "org";
    assert ValidLabel("com") && ValidLabel("org") by { ShortLabels(); }
    LongDomain(word, "com");
    LongDomain(word, "org");
    assert a[102] == 'm' && b[102] == 'g';
    assert a[..MAX_SEGMENT] == front + "." == b[..MAX_SEGMENT];
    DomainsShareExactly(a, b);
  }

  lemma ShortLabels()
    ensures ValidLabel("com") && ValidLabel("org")
  {
  }

  lemma LongDomain(word: string, last: string)
    requires ValidLabel(word) && |word| == 49 && ValidLabel(last) && |last| == 3 && 'a' <= last[0] <= 'z'
    ensures ValidDomain(word + "." + word + "." + last)
  {
    hide Split;
    var d := word + "." + word + "." + last;
    assert d == word + "." + (word + "." + last);
    SplitAtSeparator(word, word + "." + last, '.');
    SplitAtSeparator(word, last, '.');
    SplitOfFree(last, '.');
    var words := [word] + ([word] + [last]);
    assert Split(d, '.') == words;
    assert words[2] == last && last[0] == words[2][0];
  }

  /**** What a text is reduced to ****/

  // Every character that is not allowed becomes a dash.
  function Dashed(s: string): string {
    seq(|s|, i requires 0 <= i < |s| => if Allowed(s[i]) then s[i] else '-')
  }

  // What stands between dots, without what is empty.
  function DashedParts(parts: seq<string>): seq<string> {
    if parts == [] then []
    else
      var last := parts[|parts| - 1];
      DashedParts(parts[..|parts| - 1]) + (if last == "" then [] else [Dashed(last)])
  }

  // The same with single dots between.
  function Reduced(value: string): string {
    Join(DashedParts(Split(value, '.')), '.')
  }

  lemma {:induction false} SplitPush(s: string, c: char, sep: char)
    ensures Split(s + [c], sep) == WithLast(Split(s, sep), c, sep)
  {
    hide Split;
    if s == "" {
      assert s + [c] == [c];
      SplitOfOne(c, sep);
    } else {
      SplitPush(s[1..], c, sep);
      assert (s + [c])[1..] == s[1..] + [c] && (s + [c])[0] == s[0];
      SplitStep(s, sep);
      SplitStep(s + [c], sep);
      PushedAfter(Split(s[1..], sep), s[0], c, sep);
    }
  }

  lemma SplitStep(s: string, sep: char)
    requires s != ""
    ensures Split(s, sep) == WithFirst(Split(s[1..], sep), s[0], sep)
  {
  }

  function WithFirst(rest: seq<string>, first: char, sep: char): seq<string>
    requires rest != []
  {
    if first == sep then [""] + rest else [[first] + rest[0]] + rest[1..]
  }

  function WithLast(parts: seq<string>, last: char, sep: char): seq<string>
    requires parts != []
  {
    if last == sep then parts + [""] else parts[..|parts| - 1] + [parts[|parts| - 1] + [last]]
  }

  lemma PushedAfter(rest: seq<string>, first: char, c: char, sep: char)
    requires rest != []
    ensures WithFirst(WithLast(rest, c, sep), first, sep) == WithLast(WithFirst(rest, first, sep), c, sep)
  {
    LastGrows(rest, first, c);
    if c == sep {
      assert (rest + [""])[0] == rest[0] && (rest + [""])[1..] == rest[1..] + [""];
    }
  }

  lemma SplitOfOne(c: char, sep: char)
    ensures Split("", sep) == [""] && Split([c], sep) == WithLast([""], c, sep)
  {
    assert [c][1..] == "";
    assert [c] + "" == "" + [c];
  }

  lemma LastGrows(rest: seq<string>, first: char, c: char)
    requires rest != []
    ensures var n, whole := |rest| - 1, [[first] + rest[0]] + rest[1..];
            var grown := rest[..n] + [rest[n] + [c]];
            && [[first] + grown[0]] + grown[1..] == whole[..n] + [whole[n] + [c]]
            && [""] + grown == ([""] + rest)[..n + 1] + [([""] + rest)[n + 1] + [c]]
  {
    var n, whole := |rest| - 1, [[first] + rest[0]] + rest[1..];
    var grown := rest[..n] + [rest[n] + [c]];
    if n == 0 {
      assert grown[0] == rest[0] + [c] && [first] + (rest[0] + [c]) == [first] + rest[0] + [c];
    } else {
      assert grown[0] == rest[0] && grown[1..] == rest[1..][..n - 1] + [rest[n] + [c]];
      assert whole[..n] == [[first] + rest[0]] + rest[1..][..n - 1];
    }
  }

  lemma JoinPush(parts: seq<string>, last: string, c: char)
    ensures Join(parts + [last + [c]], '.') == Join(parts + [last], '.') + [c]
    ensures parts != [] ==> Join(parts + [last], '.') == Join(parts, '.') + "." + last
    ensures Join([] + [last], '.') == last
  {
    if parts == [] {
      assert parts + [last] == [last] && parts + [last + [c]] == [last + [c]];
    } else {
      JoinAppend(parts, [last], '.');
      JoinAppend(parts, [last + [c]], '.');
    }
  }

  lemma DashedPush(s: string, c: char)
    ensures Dashed(s + [c]) == Dashed(s) + [if Allowed(c) then c else '-'] && Dashed("") == ""
  {
    hide Allowed;
  }

  // How the mapped text stands after some characters: what is reduced, and a dot when one has just come.
  ghost predicate StandsReduced(value: string) {
    var parts, reduced := Split(value, '.'), Reduced(value);
    && Mapped(value) == reduced + (if reduced != "" && parts[|parts| - 1] == "" then "." else "")
    && (reduced == "" <==> DashedParts(parts) == [])
    && (reduced != "" ==> reduced[|reduced| - 1] != '.')
  }

  lemma {:induction false} MappedSoFar(value: string)
    ensures StandsReduced(value)
    decreases |value|
  {
    hide StandsReduced, Mapped, Reduced, Split;
    if value == "" {
      NothingMapped();
    } else {
      var front, c := value[..|value| - 1], value[|value| - 1];
      assert value == front + [c];
      MappedSoFar(front);
      if c == '.' {
        DotMapped(front);
      } else {
        CharacterMapped(front, c);
      }
    }
  }

  lemma NothingMapped()
    ensures StandsReduced("")
  {
    assert Split("", '.') == [""];
    assert [""][..0] == [];
    assert DashedParts([""]) == DashedParts([]) + [] == [];
    NothingJoined();
  }

  lemma MappedPush(front: string, c: char)
    ensures Mapped(front + [c]) == Add(Mapped(front), c)
  {
    hide Allowed;
    assert (front + [c])[..|front|] == front;
  }

  lemma DotMapped(front: string)
    requires StandsReduced(front)
    ensures StandsReduced(front + ['.'])
  {
    hide Allowed, Join, Dashed, Split, Mapped;
    DotIsNotAllowed();
    MappedPush(front, '.');
    SplitPush(front, '.', '.');
    var parts := Split(front, '.');
    assert (parts + [""])[..|parts|] == parts && (parts + [""])[|parts|] == "";
    assert DashedParts(parts + [""]) == DashedParts(parts) + [] == DashedParts(parts);
    var reduced := Reduced(front);
    assert Reduced(front + ['.']) == reduced;
    assert reduced + "" == reduced;
    assert reduced != "" ==> (reduced + ".")[|reduced|] == '.';
  }

  lemma CharacterMapped(front: string, c: char)
    requires StandsReduced(front) && c != '.'
    ensures StandsReduced(front + [c])
  {
    hide Join, Dashed, Split, Mapped, Reduced, DashedParts;
    MappedPush(front, c);
    SplitPush(front, c, '.');
    var parts := Split(front, '.');
    var n, d := |parts| - 1, if Allowed(c) then c else '-';
    DotIsNotAllowed();
    ReducedGrows(front, c);
    ReducedNow(front);
    var before := DashedParts(parts[..n]);
    if parts[n] == "" {
      LastEmpty(before, d);
    } else {
      assert Reduced(front) + "" == Reduced(front);
    }
  }

  // What is reduced so far, by whether the last stretch is empty.
  lemma ReducedNow(front: string)
    ensures var parts := Split(front, '.');
            var before, last := DashedParts(parts[..|parts| - 1]), parts[|parts| - 1];
            && Reduced(front) == (if last == "" then Join(before, '.') else Join(before + [Dashed(last)], '.'))
            && DashedParts(parts) == (if last == "" then before else before + [Dashed(last)])
            && (last == "" ==> Dashed(last) == "")
            && (before == [] ==> Join(before, '.') == "")
  {
    hide Join, Dashed, Split;
    var parts := Split(front, '.');
    DashedLength(parts[|parts| - 1]);
    NothingJoined();
    assert DashedParts(parts[..|parts| - 1]) + [] == DashedParts(parts[..|parts| - 1]);
  }

  lemma ReducedGrows(front: string, c: char)
    requires c != '.'
    ensures var parts := Split(front, '.');
            var before, last, d := DashedParts(parts[..|parts| - 1]), parts[|parts| - 1], if Allowed(c) then c else '-';
            && Reduced(front + [c]) == Join(before + [Dashed(last)], '.') + [d]
            && DashedParts(Split(front + [c], '.')) != []
  {
    hide Allowed, Join, Dashed, Split;
    SplitPush(front, c, '.');
    var parts := Split(front, '.');
    var n, d := |parts| - 1, if Allowed(c) then c else '-';
    var before, more := DashedParts(parts[..n]), parts[..n] + [parts[n] + [c]];
    assert more[..n] == parts[..n] && more[n] == parts[n] + [c];
    DashedPush(parts[n], c);
    assert DashedParts(more) == before + [Dashed(parts[n]) + [d]];
    JoinPush(before, Dashed(parts[n]), d);
  }

  lemma LastEmpty(before: seq<string>, d: char)
    ensures Join(before + [""], '.') + [d] == (if before == [] then "" else Join(before, '.') + ".") + [d]
  {
    hide Join;
    JoinPush(before, "", d);
    assert before == [] ==> before + [""] == [] + [""];
  }

  lemma DashedLength(s: string)
    ensures |Dashed(s)| == |s|
  {
  }

  lemma NothingJoined()
    ensures Join([], '.') == ""
  {
  }

  lemma DotIsNotAllowed()
    ensures !Allowed('.')
  {
  }

  lemma TrimmedOfDot(s: string)
    requires s != ""
    ensures TrimEdges(s + ".") == TrimEdges(s)
  {
    hide TrimBack;
    FrontOfDot(s);
    assert (TrimFront(s) + ".")[..|TrimFront(s)|] == TrimFront(s);
    BackOfDot(TrimFront(s));
    BackOfNothing();
  }

  lemma BackOfDot(s: string)
    ensures TrimBack(s + ".") == TrimBack(s)
  {
    assert (s + ".")[..|s|] == s;
  }

  lemma BackOfNothing()
    ensures TrimBack("") == ""
  {
  }

  lemma {:induction false} FrontOfDot(s: string)
    ensures TrimFront(s + ".") == if TrimFront(s) == "" then "" else TrimFront(s) + "."
  {
    if s == "" {
      assert s + "." == "." && "."[1..] == "";
    } else {
      assert (s + ".")[1..] == s[1..] + ".";
      FrontOfDot(s[1..]);
    }
  }

  // Any text is reduced to the stretches between its dots, those that are not empty, in their order and with one
  // dot between, every character that is not allowed made a dash; dots and dashes are taken off the ends, and
  // off the end of the first hundred characters again when there are more; and nothing left is "unnamed".
  lemma SegmentOfText(value: string)
    ensures var trimmed := TrimEdges(Reduced(value));
            Segment(value) == if trimmed == "" then "unnamed"
                              else if |trimmed| > 100 then TrimBack(trimmed[..100])
                              else trimmed
  {
    hide Mapped, Reduced, Split, TrimBack, TrimFront, Edge;
    MappedSoFar(value);
    assert Reduced(value) + "" == Reduced(value);
    if Reduced(value) != "" {
      TrimmedOfDot(Reduced(value));
    }
    var trimmed := TrimEdges(Reduced(value));
    if |trimmed| > 100 {
      FrontIsPlain(Reduced(value));
    }
  }

  // What has been trimmed has no edge to take off its front.
  lemma FrontIsPlain(s: string)
    requires |TrimEdges(s)| > 100
    ensures TrimFront(TrimEdges(s)[..100]) == TrimEdges(s)[..100]
  {
    hide Edge;
    TrimFrontIsEnd(s);
    TrimBackIsStart(TrimFront(s));
    var t := TrimEdges(s)[..100];
    assert t[0] == TrimFront(s)[0];
  }

  // A name that ends in a number, such as an IPv4 address, is no domain.
  lemma NumbersAreNoDomain(front: string, last: string)
    requires IsNumeric(last)
    ensures !ValidDomain(front + "." + last)
  {
    hide Split, Join, ValidLabel;
    var words := Split(front, '.');
    SplitIsFree(front, '.');
    JoinOfSplit(front, '.');
    JoinAppend(words, [last], '.');
    JoinOfOne(last, '.');
    SplitOfJoin(words + [last], '.');
    assert front + ['.'] + last == front + "." + last;
  }
}
