// The files of zone statements the panel writes for BIND, and what it reads back out of them:
// agent/internal/dns/config.go and provider.go.
module DnsConfig {
  import opened Wrappers
  import opened Text
  import opened Parts

  const CONF_MARKER: string := "// Managed by JotHost Panel"
  const ZONE_SUFFIX: string := ".zone"

  // A zone; `contents` is whatever only the zone's own file depends on.
  datatype Zone = Zone(name: string, secondary: bool, dnssec: bool, masters: seq<string>,
                       allowTransfer: seq<string>, alsoNotify: seq<string>, contents: string)

  datatype Settings = Settings(listenOn: seq<string>, allowTransfer: seq<string>, policy: string)

  datatype Dirs = Dirs(list: string, state: string, keys: string)

  /**** The order of zones ****/

  // s < t on strings.
  predicate Before(s: string, t: string) {
    t != "" && (s == "" || s[0] < t[0] || (s[0] == t[0] && Before(s[1..], t[1..])))
  }

  // One zone after those that do not follow it: stable, since equal names keep their order.
  function Insert(zones: seq<Zone>, z: Zone): seq<Zone> {
    if zones == [] || !Before(z.name, zones[|zones| - 1].name) then zones + [z]
    else Insert(zones[..|zones| - 1], z) + [zones[|zones| - 1]]
  }

  // sort.SliceStable by name.
  function Sorted(zones: seq<Zone>): seq<Zone> {
    if zones == [] then [] else Insert(Sorted(zones[..|zones| - 1]), zones[|zones| - 1])
  }

  lemma {:induction false} InsertKeeps(zones: seq<Zone>, z: Zone)
    ensures multiset(Insert(zones, z)) == multiset(zones) + multiset{z}
    decreases |zones|
  {
    if zones != [] {
      var n := |zones| - 1;
      assert zones == zones[..n] + [zones[n]];
      InsertKeeps(zones[..n], z);
    }
  }

  // Sorting loses and adds no zone.
  lemma {:induction false} SortedKeeps(zones: seq<Zone>)
    ensures multiset(Sorted(zones)) == multiset(zones)
    decreases |zones|
  {
    if zones != [] {
      var n := |zones| - 1;
      SortedKeeps(zones[..n]);
      InsertKeeps(Sorted(zones[..n]), zones[n]);
      assert zones == zones[..n] + [zones[n]];
    }
  }

  lemma {:induction false} BeforeOneWay(s: string, t: string)
    ensures !(Before(s, t) && Before(t, s))
    decreases |s|
  {
    if s != "" && t != "" {
      BeforeOneWay(s[1..], t[1..]);
    }
  }

  lemma {:induction false} NotBeforeOnward(s: string, t: string, u: string)
    requires !Before(t, s) && !Before(u, t)
    ensures !Before(u, s)
    decreases |s|
  {
    if s != "" && t != "" && u != "" && s[0] == t[0] == u[0] {
      NotBeforeOnward(s[1..], t[1..], u[1..]);
    }
  }

  // No zone comes after one whose name its own is before.
  ghost predicate InOrder(zones: seq<Zone>) {
    forall i, j :: 0 <= i < j < |zones| ==> !Before(zones[j].name, zones[i].name)
  }

  lemma {:induction false} InsertInOrder(zones: seq<Zone>, z: Zone)
    requires InOrder(zones)
    ensures InOrder(Insert(zones, z))
    decreases |zones|
  {
    hide Before;
    if zones != [] {
      var n := |zones| - 1;
      var front, last := zones[..n], zones[n];
      if Before(z.name, last.name) {
        InsertInOrder(front, z);
        InsertKeeps(front, z);
        BeforeOneWay(z.name, last.name);
        var placed := Insert(front, z);
        forall i | 0 <= i < |placed| ensures !Before(last.name, placed[i].name) {
          assert placed[i] in multiset(placed);
          assert placed[i] in front || placed[i] == z;
        }
      } else {
        forall i | 0 <= i < n ensures !Before(z.name, zones[i].name) {
          NotBeforeOnward(zones[i].name, last.name, z.name);
        }
      }
    }
  }

  lemma {:induction false} SortedInOrder(zones: seq<Zone>)
    ensures InOrder(Sorted(zones))
    decreases |zones|
  {
    hide Insert, InOrder;
    if zones == [] {
      assert InOrder([]) by { NoneInOrder(); }
    } else {
      SortedInOrder(zones[..|zones| - 1]);
      InsertInOrder(Sorted(zones[..|zones| - 1]), zones[|zones| - 1]);
    }
  }

  lemma NoneInOrder()
    ensures InOrder([])
  {
  }

  // The zones of one name, in the order they stand in.
  function OfName(zones: seq<Zone>, name: string): seq<Zone> {
    if zones == [] then []
    else OfName(zones[..|zones| - 1], name) + if zones[|zones| - 1].name == name then [zones[|zones| - 1]] else []
  }

  lemma OfNamePush(zones: seq<Zone>, z: Zone, name: string)
    ensures OfName(zones + [z], name) == OfName(zones, name) + if z.name == name then [z] else []
  {
    assert (zones + [z])[..|zones|] == zones;
  }

  lemma {:induction false} InsertIsStable(zones: seq<Zone>, z: Zone, name: string)
    ensures OfName(Insert(zones, z), name) == OfName(zones, name) + if z.name == name then [z] else []
    decreases |zones|
  {
    hide Before, OfName;
    OfNamePush(zones, z, name);
    if zones != [] && Before(z.name, zones[|zones| - 1].name) {
      var front, last := zones[..|zones| - 1], zones[|zones| - 1];
      InsertIsStable(front, z, name);
      BeforeOneWay(z.name, z.name);
      OfNamePush(front, last, name);
      OfNamePush(Insert(front, z), last, name);
      assert zones == front + [last];
    }
  }

  lemma {:induction false} SortedIsStable(zones: seq<Zone>, name: string)
    ensures OfName(Sorted(zones), name) == OfName(zones, name)
    decreases |zones|
  {
    hide Insert;
    if zones != [] {
      SortedIsStable(zones[..|zones| - 1], name);
      InsertIsStable(Sorted(zones[..|zones| - 1]), zones[|zones| - 1], name);
    }
  }

  // What sort.SliceStable promises: the zones by name, and those of one name as they stood.
  lemma SortedByName(zones: seq<Zone>)
    ensures InOrder(Sorted(zones)) && multiset(Sorted(zones)) == multiset(zones)
    ensures forall name :: OfName(Sorted(zones), name) == OfName(zones, name)
  {
    hide *;
    SortedInOrder(zones);
    SortedKeeps(zones);
    forall name ensures OfName(Sorted(zones), name) == OfName(zones, name) {
      SortedIsStable(zones, name);
    }
  }

  /**** RenderInclude ****/

  function Trimmed(addresses: seq<string>): seq<string> {
    if addresses == [] then []
    else
      var t := TrimSpace(addresses[0]);
      (if t == "" then [] else [t + ";"]) + Trimmed(addresses[1..])
  }

  function AddressList(addresses: seq<string>): string {
    var parts := Trimmed(addresses);
    if parts == [] then "none;" else Join(parts, ' ')
  }

  function Quoted(s: string): string {
    "\"" + s + "\""
  }

  function ZonePath(d: Dirs, name: string): string {
    d.state + "/" + name + ZONE_SUFFIX
  }

  const NOTICE: string := ". Do not edit: it is rewritten " + "whenever a zone changes."
  const NOTICE2: string := "// Every zone the panel serves is here. " + "A zone removed from the panel is"
  const NOTICE3: string := "// removed from this file, which is " + "what makes a delete take effect."
  const HEADER: seq<string> := [CONF_MARKER + NOTICE, "//", NOTICE2, NOTICE3, ""]

  function FirstOf(a: seq<string>, b: seq<string>): seq<string> {
    if a == [] then b else a
  }

  // The lines of one zone statement, between the one that opens it and the one that closes it.
  function Directives(d: Dirs, s: Settings, z: Zone): seq<string> {
    var transfer := FirstOf(z.allowTransfer, s.allowTransfer);
    (if z.secondary then
       ["\ttype slave;", "\tfile " + Quoted(ZonePath(d, z.name)) + ";", "\tprimaries { " + AddressList(z.masters) + " };"]
     else ["\ttype master;", "\tfile " + Quoted(ZonePath(d, z.name)) + ";"])
    + ["\tallow-transfer { " + (if transfer == [] then "none;" else AddressList(transfer)) + " };"]
    + (if z.alsoNotify == [] then [] else ["\talso-notify { " + AddressList(z.alsoNotify) + " };"])
    + (if z.dnssec && !z.secondary then
         ["\tdnssec-policy " + Quoted(if s.policy == "" then "default" else s.policy) + ";", "\tinline-signing yes;",
          "\tkey-directory " + Quoted(d.keys) + ";"]
       else [])
  }

  function ZoneLine(name: string): string {
    "zone " + Quoted(name) + " IN {"
  }

  function ZoneBlock(d: Dirs, s: Settings, z: Zone): seq<string> {
    [ZoneLine(z.name)] + Directives(d, s, z) + ["};", ""]
  }

  function Blocks(d: Dirs, s: Settings, zones: seq<Zone>): seq<string> {
    if zones == [] then [] else ZoneBlock(d, s, zones[0]) + Blocks(d, s, zones[1..])
  }

  predicate HasMasters(zones: seq<Zone>) {
    forall i :: 0 <= i < |zones| && zones[i].secondary ==> zones[i].masters != []
  }

  // None when a secondary zone names no primary.
  function RenderInclude(d: Dirs, s: Settings, zones: seq<Zone>): Option<string> {
    if HasMasters(zones) then Some(Unlines(HEADER + Blocks(d, s, Sorted(zones)))) else None
  }

  /**** ServedZones ****/

  const ZONE_OPENING: string := "zone \""

  // The zone a line of the include opens.
  function LineZone(line: string): Option<string> {
    var trimmed := TrimSpace(line);
    if !(ZONE_OPENING <= trimmed) then None
    else
      var cut := Cut(trimmed[|ZONE_OPENING|..], "\"");
      if cut.None? || cut.value.0 == "" then None else Some(cut.value.0)
  }

  function ZonesOfLines(lines: seq<string>): seq<string> {
    if lines == [] then []
    else
      var z := LineZone(lines[|lines| - 1]);
      ZonesOfLines(lines[..|lines| - 1]) + (if z.Some? then [z.value] else [])
  }

  function ServedZones(text: string): seq<string> {
    ZonesOfLines(Split(text, '\n'))
  }

  method ReadServedZones(text: string) returns (zones: seq<string>)
    ensures zones == ServedZones(text)
  {
    hide TrimSpace, Split, Cut, Find, TrimLeft, TrimRight, IsSpace, Blank, ZONE_OPENING;
    zones := [];
    var lines := Split(text, '\n');
    for k := 0 to |lines|
      invariant zones == ZonesOfLines(lines[..k])
    {
      assert lines[..k + 1][..k] == lines[..k];
      var trimmed := TrimSpace(lines[k]);
      if !(ZONE_OPENING <= trimmed) {
        continue;
      }
      var cut := Cut(trimmed[|ZONE_OPENING|..], "\"");
      if cut.Some? && cut.value.0 != "" {
        zones := zones + [cut.value.0];
      }
    }
    assert lines[..|lines|] == lines;
  }

  /**** The include reads back as its zones ****/

  predicate Whole(s: string) {
    '\n' !in s
  }

  ghost predicate AllWhole(texts: seq<string>) {
    forall i :: 0 <= i < |texts| ==> Whole(texts[i])
  }

  // A name that %q writes as it is, as every domain name is.
  predicate PlainZoneName(name: string) {
    name != "" && '"' !in name && '\\' !in name && forall i :: 0 <= i < |name| ==> ' ' <= name[i] <= '~'
  }

  ghost predicate PlainZone(z: Zone) {
    PlainZoneName(z.name) && AllWhole(z.masters) && AllWhole(z.allowTransfer) && AllWhole(z.alsoNotify)
  }

  ghost predicate PlainRequest(d: Dirs, s: Settings, zones: seq<Zone>) {
    && Whole(d.state) && Whole(d.keys) && Whole(d.list) && Whole(s.policy) && AllWhole(s.allowTransfer)
    && forall i :: 0 <= i < |zones| ==> PlainZone(zones[i])
  }

  function Names(zones: seq<Zone>): seq<string> {
    if zones == [] then [] else [zones[0].name] + Names(zones[1..])
  }

  // A line that opens no zone: empty, or starting with something else after one tab at most.
  ghost predicate Other(line: string) {
    || line == ""
    || (!IsSpace(line[0]) && line[0] != 'z')
    || (line[0] == '\t' && |line| > 1 && !IsSpace(line[1]) && line[1] != 'z')
  }

  lemma StartsAfter(blanks: string, s: string)
    requires Blank(blanks) && s != "" && !IsSpace(s[0])
    ensures TrimSpace(blanks + s) == TrimRight(s) && TrimRight(s) != "" && TrimRight(s)[0] == s[0]
  {
    hide IsSpace;
    TrimLeftOf(blanks, s);
    WordFrontOfTrimmed(s);
  }

  lemma TabIsBlank()
    ensures Blank("\t") && Blank("")
  {
  }

  lemma OtherOpensNothing(line: string)
    requires Other(line)
    ensures LineZone(line).None?
  {
    hide IsSpace, TrimRight, Cut, TrimLeft, Blank;
    TabIsBlank();
    if line == "" {
      assert TrimSpace("") == "" by { EmptyTrims(); }
    } else if !IsSpace(line[0]) {
      StartsAfter("", line);
      assert "" + line == line;
    } else {
      StartsAfter("\t", line[1..]);
      assert line == "\t" + line[1..];
    }
  }

  lemma EmptyTrims()
    ensures TrimSpace("") == ""
  {
  }

  lemma ZoneLineOpens(name: string)
    requires PlainZoneName(name)
    ensures LineZone(ZoneLine(name)) == Some(name)
  {
    hide IsSpace, TrimLeft, TrimRight, Find, Blank;
    var line := ZoneLine(name);
    var rest := name + "\" IN {";
    assert line == ZONE_OPENING + rest;
    LineTrims(line);
    assert line[|ZONE_OPENING|..] == rest;
    forall i | 0 <= i < |name| ensures !("\"" <= rest[i..]) {
      assert rest[i] == name[i];
    }
    assert "\"" <= rest[|name|..];
    FindAt(rest, "\"", |name|);
    assert rest[..|name|] == name;
  }

  lemma LineTrims(line: string)
    requires line != "" && line[0] == 'z' && line[|line| - 1] == '{'
    ensures TrimSpace(line) == line
  {
    hide TrimSpace, TrimLeft, TrimRight, Blank;
    TrimmedAlready(line);
  }

  lemma {:induction false} ZonesAppend(a: seq<string>, b: seq<string>)
    ensures ZonesOfLines(a + b) == ZonesOfLines(a) + ZonesOfLines(b)
    decreases |b|
  {
    hide LineZone;
    if b == [] {
      assert a + b == a;
    } else {
      var n := |b| - 1;
      ZonesAppend(a, b[..n]);
      assert (a + b)[..|a + b| - 1] == a + b[..n];
    }
  }

  lemma {:induction false} OthersOpenNothing(lines: seq<string>)
    requires forall i :: 0 <= i < |lines| ==> Other(lines[i])
    ensures ZonesOfLines(lines) == []
    decreases |lines|
  {
    hide LineZone, Other;
    if lines != [] {
      OthersOpenNothing(lines[..|lines| - 1]);
      OtherOpensNothing(lines[|lines| - 1]);
    }
  }

  lemma HeaderIsOther()
    ensures forall i :: 0 <= i < |HEADER| ==> Other(HEADER[i]) && Whole(HEADER[i])
  {
    hide Other, Whole, CONF_MARKER, NOTICE, NOTICE2, NOTICE3;
    HeaderText();
    SlashIsOther(CONF_MARKER + NOTICE);
    SlashIsOther("//");
    SlashIsOther(NOTICE2);
    SlashIsOther(NOTICE3);
    WholeTogether(CONF_MARKER, NOTICE);
    ClosingIsOther();
    assert Whole("//") && Whole("") by { ShortWhole(); }
  }

  lemma HeaderText()
    ensures |CONF_MARKER| > 0 && CONF_MARKER[0] == '/' && NOTICE2 != "" && NOTICE2[0] == '/' && NOTICE3 != "" && NOTICE3[0] == '/'
    ensures Whole(CONF_MARKER) && Whole(NOTICE) && Whole(NOTICE2) && Whole(NOTICE3)
  {
    hide Whole;
    MarkerText();
    WholeTogether(". Do not edit: it is rewritten ", "whenever a zone changes.");
    WholeTogether("// Every zone the panel serves is here. ", "A zone removed from the panel is");
    WholeTogether("// removed from this file, which is ", "what makes a delete take effect.");
    NoticeText();
    Notice2Text();
    Notice3Text();
  }

  lemma MarkerText()
    ensures Whole(CONF_MARKER)
  {
  }

  lemma NoticeText()
    ensures Whole(". Do not edit: it is rewritten ") && Whole("whenever a zone changes.")
  {
  }

  lemma Notice2Text()
    ensures Whole("// Every zone the panel serves is here. ") && Whole("A zone removed from the panel is")
  {
  }

  lemma Notice3Text()
    ensures Whole("// removed from this file, which is ") && Whole("what makes a delete take effect.")
  {
  }

  lemma ShortWhole()
    ensures Whole("//") && Whole("")
  {
  }

  lemma SlashIsOther(line: string)
    requires line != "" && line[0] == '/'
    ensures Other(line)
  {
  }

  lemma WholeTogether(a: string, b: string)
    ensures Whole(a + b) <==> Whole(a) && Whole(b)
  {
  }

  lemma DirectivesAreOther(d: Dirs, s: Settings, z: Zone)
    ensures forall i :: 0 <= i < |Directives(d, s, z)| ==> Other(Directives(d, s, z)[i])
  {
    hide AddressList, ZonePath, Quoted;
  }

  lemma BlockOpens(d: Dirs, s: Settings, z: Zone)
    requires PlainZone(z)
    ensures ZonesOfLines(ZoneBlock(d, s, z)) == [z.name]
  {
    hide LineZone, Directives, ZoneLine, Other, PlainZoneName, AllWhole;
    DirectivesAreOther(d, s, z);
    var tail := Directives(d, s, z) + ["};", ""];
    assert Other("};") && Other("") by { ClosingIsOther(); }
    OthersOpenNothing(tail);
    ZoneLineOpens(z.name);
    OneLine(ZoneLine(z.name));
    ZonesAppend([ZoneLine(z.name)], tail);
    assert ZoneBlock(d, s, z) == [ZoneLine(z.name)] + tail;
  }

  lemma ClosingIsOther()
    ensures Other("};") && Other("")
  {
  }

  lemma OneLine(line: string)
    ensures ZonesOfLines([line]) == if LineZone(line).Some? then [LineZone(line).value] else []
  {
    hide LineZone;
    assert [line][..0] == [];
  }

  lemma {:induction false} BlocksOpen(d: Dirs, s: Settings, zones: seq<Zone>)
    requires forall i :: 0 <= i < |zones| ==> PlainZone(zones[i])
    ensures ZonesOfLines(Blocks(d, s, zones)) == Names(zones)
  {
    hide ZoneBlock, PlainZone;
    if zones != [] {
      BlockOpens(d, s, zones[0]);
      BlocksOpen(d, s, zones[1..]);
      ZonesAppend(ZoneBlock(d, s, zones[0]), Blocks(d, s, zones[1..]));
    }
  }

  /**** Every line of it is one line ****/

  lemma {:induction false} JoinWhole(parts: seq<string>)
    requires AllWhole(parts)
    ensures Whole(Join(parts, ' '))
  {
    if |parts| > 1 {
      JoinWhole(parts[1..]);
    }
  }

  lemma TrimWhole(s: string)
    requires Whole(s)
    ensures Whole(TrimSpace(s))
  {
    hide TrimLeft, TrimRight, Blank, IsSpace;
    var left := TrimLeft(s);
    TrimLeftDropsBlanks(s);
    assert s == s[..|s| - |left|] + left;
    var right := TrimRight(left);
    TrimRightDropsBlanks(left);
    assert left == right + left[|right|..];
  }

  lemma {:induction false} AddressesWhole(addresses: seq<string>)
    requires AllWhole(addresses)
    ensures AllWhole(Trimmed(addresses)) && Whole(AddressList(addresses))
  {
    hide TrimSpace;
    if addresses != [] {
      AddressesWhole(addresses[1..]);
      TrimWhole(addresses[0]);
    }
    JoinWhole(Trimmed(addresses));
  }

  // A directive's argument between the text before and after it.
  lemma WholeAround(before: string, argument: string, after: string)
    requires Whole(before) && Whole(argument) && Whole(after)
    ensures Whole(before + argument + after)
  {
  }

  lemma FixedTexts()
    ensures Whole("\ttype slave;") && Whole("\ttype master;") && Whole("\tinline-signing yes;")
    ensures Whole(" };") && Whole(";") && Whole("none;") && Whole("default")
  {
  }

  lemma FixedNames()
    ensures Whole("\tfile ") && Whole("\tprimaries { ") && Whole("\tallow-transfer { ") && Whole("\talso-notify { ")
    ensures Whole("\tdnssec-policy ") && Whole("\tkey-directory ")
  {
  }

  lemma QuotedWhole(s: string)
    requires Whole(s)
    ensures Whole(Quoted(s))
  {
  }

  lemma DirectivesAreWhole(d: Dirs, s: Settings, z: Zone)
    requires PlainZone(z) && Whole(d.state) && Whole(d.keys) && Whole(s.policy) && AllWhole(s.allowTransfer)
    ensures Free(Directives(d, s, z), '\n')
  {
    hide AddressList, AllWhole, Whole, Quoted, ZonePath, FirstOf, PlainZone;
    FixedTexts();
    FixedNames();
    ZonePathWhole(d, z);
    QuotedWhole(ZonePath(d, z.name));
    QuotedWhole(if s.policy == "" then "default" else s.policy);
    QuotedWhole(d.keys);
    AddressArgumentsWhole(s, z);
    var transfer := FirstOf(z.allowTransfer, s.allowTransfer);
    WholeAround("\tfile ", Quoted(ZonePath(d, z.name)), ";");
    WholeAround("\tprimaries { ", AddressList(z.masters), " };");
    WholeAround("\tallow-transfer { ", if transfer == [] then "none;" else AddressList(transfer), " };");
    WholeAround("\talso-notify { ", AddressList(z.alsoNotify), " };");
    WholeAround("\tdnssec-policy ", Quoted(if s.policy == "" then "default" else s.policy), ";");
    WholeAround("\tkey-directory ", Quoted(d.keys), ";");
    WholeIsFree(Directives(d, s, z));
  }

  lemma WholeIsFree(lines: seq<string>)
    requires forall i :: 0 <= i < |lines| ==> Whole(lines[i])
    ensures Free(lines, '\n')
  {
  }

  lemma ZonePathWhole(d: Dirs, z: Zone)
    requires PlainZone(z) && Whole(d.state)
    ensures Whole(ZonePath(d, z.name))
  {
    hide AllWhole;
    assert Whole(ZONE_SUFFIX);
  }

  lemma AddressArgumentsWhole(s: Settings, z: Zone)
    requires PlainZone(z) && AllWhole(s.allowTransfer)
    ensures Whole(AddressList(z.masters)) && Whole(AddressList(FirstOf(z.allowTransfer, s.allowTransfer)))
    ensures Whole(AddressList(z.alsoNotify))
  {
    hide AddressList, AllWhole;
    AddressesWhole(z.masters);
    AddressesWhole(FirstOf(z.allowTransfer, s.allowTransfer));
    AddressesWhole(z.alsoNotify);
  }

  lemma BlockIsWhole(d: Dirs, s: Settings, z: Zone)
    requires PlainZone(z) && Whole(d.state) && Whole(d.keys) && Whole(s.policy) && AllWhole(s.allowTransfer)
    ensures Free(ZoneBlock(d, s, z), '\n')
  {
    hide Directives, AllWhole;
    DirectivesAreWhole(d, s, z);
  }

  lemma {:induction false} BlocksAreWhole(d: Dirs, s: Settings, zones: seq<Zone>)
    requires PlainRequest(d, s, zones)
    ensures Free(Blocks(d, s, zones), '\n')
  {
    hide ZoneBlock, PlainZone, AllWhole;
    if zones != [] {
      BlockIsWhole(d, s, zones[0]);
      BlocksAreWhole(d, s, zones[1..]);
    }
  }

  lemma FromSorted(zones: seq<Zone>)
    ensures forall z :: z in Sorted(zones) <==> z in zones
  {
    hide Sorted;
    SortedKeeps(zones);
    forall z ensures z in Sorted(zones) <==> z in zones {
      assert z in Sorted(zones) <==> z in multiset(Sorted(zones));
      assert z in zones <==> z in multiset(zones);
    }
  }

  // The include names exactly the zones it was made of, in the order of their names.
  lemma IncludeReadsBack(d: Dirs, s: Settings, zones: seq<Zone>)
    requires PlainRequest(d, s, zones) && HasMasters(zones)
    ensures RenderInclude(d, s, zones).Some?
    ensures ServedZones(RenderInclude(d, s, zones).value) == Names(Sorted(zones))
  {
    hide Sorted, Split, Unlines, Blocks, PlainZone, ZonesOfLines, HEADER, AllWhole, Other;
    var ordered := Sorted(zones);
    FromSorted(zones);
    forall i | 0 <= i < |ordered| ensures PlainZone(ordered[i]) {
      assert ordered[i] in zones;
    }
    assert PlainRequest(d, s, ordered);
    HeaderIsOther();
    OthersOpenNothing(HEADER);
    BlocksOpen(d, s, ordered);
    BlocksAreWhole(d, s, ordered);
    var lines := HEADER + Blocks(d, s, ordered);
    ZonesAppend(HEADER, Blocks(d, s, ordered));
    assert Free(lines, '\n');
    SplitOfUnlines(lines);
    ClosingIsOther();
    OthersOpenNothing([""]);
    ZonesAppend(lines, [""]);
  }

  lemma {:induction false} NamesIn(zones: seq<Zone>, name: string)
    ensures name in Names(zones) <==> exists i :: 0 <= i < |zones| && zones[i].name == name
  {
    if zones != [] {
      NamesIn(zones[1..], name);
      assert zones == [zones[0]] + zones[1..];
    }
  }

  // So a zone is served exactly when it was asked for.
  lemma ServedIsDesired(d: Dirs, s: Settings, zones: seq<Zone>, name: string)
    requires PlainRequest(d, s, zones) && HasMasters(zones)
    ensures name in ServedZones(RenderInclude(d, s, zones).value) <==> exists i :: 0 <= i < |zones| && zones[i].name == name
  {
    hide Sorted, ServedZones, RenderInclude, PlainRequest;
    IncludeReadsBack(d, s, zones);
    var ordered := Sorted(zones);
    NamesIn(ordered, name);
    FromSorted(zones);
    if i :| 0 <= i < |zones| && zones[i].name == name {
      assert zones[i] in ordered;
    }
    if i :| 0 <= i < |ordered| && ordered[i].name == name {
      assert ordered[i] in zones;
    }
  }
}
