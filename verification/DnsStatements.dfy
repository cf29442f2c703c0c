// What the list of zones tells the name server of each zone, read back line by line
// (agent/internal/dns/config.go).
module DnsStatements {
  import opened Wrappers
  import opened Bytes
  import opened Text
  import opened Parts
  import opened DnsConfig

  /**** Reading ****/

  // A statement of the list: its zone, and the options in it.
  datatype Setting = Setting(key: string, value: string)
  datatype Stanza = Stanza(zone: string, settings: seq<Setting>)

  // A line inside a statement: a tab, a keyword, a space, the rest and a semicolon.
  function ReadSetting(line: string): seq<Setting> {
    if line == "" || line[0] != '\t' || line[|line| - 1] != ';' then []
    else
      var cut := Cut(line[1..|line| - 1], " ");
      if cut.None? then [] else [Setting(cut.value.0, cut.value.1)]
  }

  function Extend(stanzas: seq<Stanza>, settings: seq<Setting>): seq<Stanza> {
    if stanzas == [] || settings == [] then stanzas
    else
      var n := |stanzas| - 1;
      stanzas[n := stanzas[n].(settings := stanzas[n].settings + settings)]
  }

  function Stanzas(lines: seq<string>): seq<Stanza> {
    if lines == [] then []
    else
      var line, before := lines[|lines| - 1], Stanzas(lines[..|lines| - 1]);
      var zone := LineZone(line);
      if zone.Some? then before + [Stanza(zone.value, [])] else Extend(before, ReadSetting(line))
  }

  function Lookup(settings: seq<Setting>, key: string): Option<string> {
    if settings == [] then None
    else if settings[0].key == key then Some(settings[0].value)
    else Lookup(settings[1..], key)
  }

  // The elements of an address match list between braces.
  function Elements(value: string): seq<string> {
    if |value| < 4 then [] else WithoutLast(Split(value[2..|value| - 2], ' '))
  }

  // Each without its semicolon.
  function WithoutLast(parts: seq<string>): seq<string> {
    if parts == [] then []
    else [if parts[0] == "" then "" else parts[0][..|parts[0]| - 1]] + WithoutLast(parts[1..])
  }

  /**** What a zone asks for ****/

  // The addresses that are not blank, without the blanks around them; "none" when there is none.
  function Cleaned(addresses: seq<string>): seq<string> {
    if addresses == [] then []
    else (if TrimSpace(addresses[0]) == "" then [] else [TrimSpace(addresses[0])]) + Cleaned(addresses[1..])
  }

  function OrNone(addresses: seq<string>): seq<string> {
    if Cleaned(addresses) == [] then ["none"] else Cleaned(addresses)
  }

  ghost predicate OneWords(addresses: seq<string>) {
    forall i :: 0 <= i < |addresses| ==> ' ' !in TrimSpace(addresses[i])
  }

  ghost predicate WordRequest(s: Settings, zones: seq<Zone>) {
    OneWords(s.allowTransfer) && forall i :: 0 <= i < |zones| ==> WordZone(zones[i])
  }

  ghost predicate WordZone(z: Zone) {
    OneWords(z.masters) && OneWords(z.allowTransfer) && OneWords(z.alsoNotify)
  }

  // The statement serves the zone as it was asked for.
  ghost predicate Serves(d: Dirs, s: Settings, z: Zone, st: Stanza) {
    var signed := z.dnssec && !z.secondary;
    var primaries, notify := Lookup(st.settings, "primaries"), Lookup(st.settings, "also-notify");
    var transfer := Lookup(st.settings, "allow-transfer");
    && st.zone == z.name
    && Lookup(st.settings, "type") == Some(if z.secondary then "slave" else "master")
    && Lookup(st.settings, "file") == Some("\"" + d.state + "/" + z.name + ".zone" + "\"")
    && (primaries.Some? <==> z.secondary) && (z.secondary ==> Elements(primaries.value) == OrNone(z.masters))
    && transfer.Some? && Elements(transfer.value) == OrNone(if z.allowTransfer != [] then z.allowTransfer else s.allowTransfer)
    && (notify.Some? <==> z.alsoNotify != []) && (notify.Some? ==> Elements(notify.value) == OrNone(z.alsoNotify))
    && Lookup(st.settings, "dnssec-policy")
       == (if signed then Some("\"" + (if s.policy == "" then "default" else s.policy) + "\"") else None)
    && Lookup(st.settings, "inline-signing") == (if signed then Some("yes") else None)
    && Lookup(st.settings, "key-directory") == (if signed then Some("\"" + d.keys + "\"") else None)
  }

  /**** Lines read back ****/

  function Line(key: string, value: string): string {
    "\t" + key + " " + value + ";"
  }

  lemma LineReads(key: string, value: string)
    requires ' ' !in key
    ensures ReadSetting(Line(key, value)) == [Setting(key, value)]
  {
    hide Find;
    var line := Line(key, value);
    var inner := key + " " + value;
    assert line[1..|line| - 1] == inner;
    forall i | 0 <= i < |key| ensures !(" " <= inner[i..]) {
      assert inner[i] == key[i] && inner[i..][0] == inner[i];
    }
    assert " " <= inner[|key|..] by { assert inner[|key|..][0] == ' '; }
    FindAt(inner, " ", |key|);
    assert inner[..|key|] == key && inner[|key| + 1..] == value;
  }

  lemma StanzasPush(lines: seq<string>, line: string)
    ensures Stanzas(lines + [line]) ==
              if LineZone(line).Some? then Stanzas(lines) + [Stanza(LineZone(line).value, [])]
              else Extend(Stanzas(lines), ReadSetting(line))
  {
    hide LineZone, ReadSetting, Extend;
    assert (lines + [line])[..|lines|] == lines;
  }

  // All the settings of some lines.
  function SettingsOf(lines: seq<string>): seq<Setting> {
    if lines == [] then [] else SettingsOf(lines[..|lines| - 1]) + ReadSetting(lines[|lines| - 1])
  }

  lemma {:induction false} OthersExtend(before: seq<string>, lines: seq<string>)
    requires Stanzas(before) != [] && forall i :: 0 <= i < |lines| ==> Other(lines[i])
    ensures Stanzas(before + lines) == Extend(Stanzas(before), SettingsOf(lines))
    decreases |lines|
  {
    hide Other, LineZone, ReadSetting;
    if lines == [] {
      assert before + lines == before;
    } else {
      var n := |lines| - 1;
      OthersExtend(before, lines[..n]);
      OtherOpensNothing(lines[n]);
      StanzasPush(before + lines[..n], lines[n]);
      assert before + lines == before + lines[..n] + [lines[n]];
      ExtendTwice(Stanzas(before), SettingsOf(lines[..n]), ReadSetting(lines[n]));
    }
  }

  lemma ExtendTwice(stanzas: seq<Stanza>, a: seq<Setting>, b: seq<Setting>)
    ensures Extend(Extend(stanzas, a), b) == Extend(stanzas, a + b)
  {
    if a == [] {
      assert [] + b == b;
    } else if b == [] {
      assert a + [] == a;
    } else if stanzas != [] {
      var n := |stanzas| - 1;
      var last := stanzas[n];
      Assoc(last.settings, a, b);
      assert stanzas[n := last.(settings := last.settings + a)][n := last.(settings := last.settings + (a + b))]
          == stanzas[n := last.(settings := last.settings + (a + b))];
    }
  }

  lemma {:induction false} SettingsOfTogether(a: seq<string>, b: seq<string>)
    ensures SettingsOf(a + b) == SettingsOf(a) + SettingsOf(b)
    decreases |b|
  {
    hide ReadSetting;
    if b == [] {
      assert a + b == a && SettingsOf(a) + [] == SettingsOf(a);
    } else {
      var n := |b| - 1;
      SettingsOfTogether(a, b[..n]);
      assert (a + b)[..|a + b| - 1] == a + b[..n];
      Assoc(SettingsOf(a), SettingsOf(b[..n]), ReadSetting(b[n]));
    }
  }

  /**** The settings of a zone ****/

  function Braces(list: string): string {
    "{ " + list + " }"
  }

  lemma BraceLine(before: string, key: string, a: string)
    requires before == "\t" + key + " " + "{ "
    ensures before + a + " };" == Line(key, Braces(a))
  {
    assert " };" == " }" + ";";
    assert before + a + " };" == "\t" + key + " " + ("{ " + a + " }") + ";";
  }

  lemma FixedLines()
    ensures "\ttype slave;" == Line("type", "slave") && "\ttype master;" == Line("type", "master")
    ensures "\tinline-signing yes;" == Line("inline-signing", "yes")
    ensures "\tfile " == "\t" + "file" + " " && "\tdnssec-policy " == "\t" + "dnssec-policy" + " "
    ensures "\tkey-directory " == "\t" + "key-directory" + " "
    ensures "\tprimaries { " == "\t" + "primaries" + " " + "{ " && "\tallow-transfer { " == "\t" + "allow-transfer" + " " + "{ "
    ensures "\talso-notify { " == "\t" + "also-notify" + " " + "{ "
  {
    hide Line;
    WholeLines();
  }

  lemma WholeLines()
    ensures "\ttype slave;" == Line("type", "slave") && "\ttype master;" == Line("type", "master")
    ensures "\tinline-signing yes;" == Line("inline-signing", "yes")
  {
  }

  // The settings in the order they are written.
  function Kind(d: Dirs, z: Zone): seq<Setting> {
    [Setting("type", if z.secondary then "slave" else "master"), Setting("file", Quoted(ZonePath(d, z.name)))]
    + if z.secondary then [Setting("primaries", Braces(AddressList(z.masters)))] else []
  }

  function Peers(s: DnsConfig.Settings, z: Zone): seq<Setting> {
    [Setting("allow-transfer", Braces(AddressList(FirstOf(z.allowTransfer, s.allowTransfer))))]
    + if z.alsoNotify == [] then [] else [Setting("also-notify", Braces(AddressList(z.alsoNotify)))]
  }

  function Signing(d: Dirs, s: DnsConfig.Settings, z: Zone): seq<Setting> {
    if z.dnssec && !z.secondary then
      [Setting("dnssec-policy", Quoted(if s.policy == "" then "default" else s.policy)), Setting("inline-signing", "yes"),
       Setting("key-directory", Quoted(d.keys))]
    else []
  }

  function LinesOf(settings: seq<Setting>): (lines: seq<string>)
    ensures |lines| == |settings|
  {
    seq(|settings|, i requires 0 <= i < |settings| => Line(settings[i].key, settings[i].value))
  }

  lemma DirectiveLines(d: Dirs, s: DnsConfig.Settings, z: Zone)
    ensures Directives(d, s, z) == LinesOf(Kind(d, z)) + LinesOf(Peers(s, z)) + LinesOf(Signing(d, s, z))
  {
    hide Line, AddressList, ZonePath, Quoted, Braces;
    FixedLines();
    FixedValues(d, s, z);
    var transfer := FirstOf(z.allowTransfer, s.allowTransfer);
    NoneOf(transfer);
    BraceLine("\tprimaries { ", "primaries", AddressList(z.masters));
    BraceLine("\tallow-transfer { ", "allow-transfer", AddressList(transfer));
    BraceLine("\talso-notify { ", "also-notify", AddressList(z.alsoNotify));
    var kind, peers, signing := LinesOf(Kind(d, z)), LinesOf(Peers(s, z)), LinesOf(Signing(d, s, z));
    assert kind == if z.secondary then ["\ttype slave;", "\tfile " + Quoted(ZonePath(d, z.name)) + ";",
                                        "\tprimaries { " + AddressList(z.masters) + " };"]
                   else ["\ttype master;", "\tfile " + Quoted(ZonePath(d, z.name)) + ";"];
    assert peers == ["\tallow-transfer { " + AddressList(transfer) + " };"]
                    + if z.alsoNotify == [] then [] else ["\talso-notify { " + AddressList(z.alsoNotify) + " };"];
  }

  lemma NoneOf(addresses: seq<string>)
    ensures addresses == [] ==> AddressList(addresses) == "none;"
  {
  }

  lemma FixedValues(d: Dirs, s: DnsConfig.Settings, z: Zone)
    ensures "\t" + "file" + " " + Quoted(ZonePath(d, z.name)) + ";" == Line("file", Quoted(ZonePath(d, z.name)))
    ensures var policy := Quoted(if s.policy == "" then "default" else s.policy);
            "\t" + "dnssec-policy" + " " + policy + ";" == Line("dnssec-policy", policy)
    ensures "\t" + "key-directory" + " " + Quoted(d.keys) + ";" == Line("key-directory", Quoted(d.keys))
  {
    hide Quoted, ZonePath;
  }

  ghost predicate SpaceFree(settings: seq<Setting>) {
    forall i :: 0 <= i < |settings| ==> ' ' !in settings[i].key
  }

  lemma {:induction false} LinesRead(settings: seq<Setting>)
    requires SpaceFree(settings)
    ensures SettingsOf(LinesOf(settings)) == settings
    decreases |settings|
  {
    hide Line, ReadSetting;
    if settings != [] {
      var n := |settings| - 1;
      LinesRead(settings[..n]);
      LineReads(settings[n].key, settings[n].value);
      assert LinesOf(settings)[..n] == LinesOf(settings[..n]);
    }
  }

  lemma KeysAreWords(d: Dirs, s: DnsConfig.Settings, z: Zone)
    ensures SpaceFree(Kind(d, z)) && SpaceFree(Peers(s, z)) && SpaceFree(Signing(d, s, z))
  {
    hide AddressList, ZonePath, Quoted, Braces;
    assert ' ' !in "type" && ' ' !in "file" && ' ' !in "primaries" && ' ' !in "allow-transfer" && ' ' !in "also-notify";
    assert ' ' !in "dnssec-policy" && ' ' !in "inline-signing" && ' ' !in "key-directory";
  }

  function All(d: Dirs, s: DnsConfig.Settings, z: Zone): seq<Setting> {
    Kind(d, z) + Peers(s, z) + Signing(d, s, z)
  }

  lemma DirectivesRead(d: Dirs, s: DnsConfig.Settings, z: Zone)
    ensures SettingsOf(Directives(d, s, z)) == All(d, s, z)
  {
    hide Kind, Peers, Signing, Directives, LinesOf, SettingsOf, SpaceFree;
    DirectiveLines(d, s, z);
    KeysAreWords(d, s, z);
    LinesRead(Kind(d, z));
    LinesRead(Peers(s, z));
    LinesRead(Signing(d, s, z));
    SettingsOfTogether(LinesOf(Kind(d, z)), LinesOf(Peers(s, z)));
    SettingsOfTogether(LinesOf(Kind(d, z)) + LinesOf(Peers(s, z)), LinesOf(Signing(d, s, z)));
  }

  lemma {:induction false} LookupTogether(a: seq<Setting>, b: seq<Setting>, key: string)
    ensures Lookup(a + b, key) == if Lookup(a, key).Some? then Lookup(a, key) else Lookup(b, key)
  {
    if a == [] {
      assert a + b == b;
    } else {
      assert (a + b)[0] == a[0] && (a + b)[1..] == a[1..] + b;
      LookupTogether(a[1..], b, key);
    }
  }

  lemma LookupAll(d: Dirs, s: DnsConfig.Settings, z: Zone, key: string)
    ensures Lookup(All(d, s, z), key) ==
              if Lookup(Kind(d, z), key).Some? then Lookup(Kind(d, z), key)
              else if Lookup(Peers(s, z), key).Some? then Lookup(Peers(s, z), key)
              else Lookup(Signing(d, s, z), key)
  {
    hide Kind, Peers, Signing, Lookup;
    LookupTogether(Kind(d, z), Peers(s, z), key);
    LookupTogether(Kind(d, z) + Peers(s, z), Signing(d, s, z), key);
  }

  lemma LookupThree(a: Setting, b: Setting, c: Setting, key: string)
    ensures Lookup([a], key) == if a.key == key then Some(a.value) else None
    ensures Lookup([a, b], key) == if a.key == key then Some(a.value) else if b.key == key then Some(b.value) else None
    ensures Lookup([a, b, c], key) ==
              if a.key == key then Some(a.value) else if b.key == key then Some(b.value) else if c.key == key then Some(c.value) else None
    ensures Lookup([], key) == None
  {
    assert [a, b, c][1..] == [b, c] && [b, c][1..] == [c] && [a, b][1..] == [b];
    assert Lookup([c], key) == if c.key == key then Some(c.value) else None;
    assert Lookup([b, c], key) == if b.key == key then Some(b.value) else if c.key == key then Some(c.value) else None;
  }

  // What each part says of a keyword.
  lemma KindSays(d: Dirs, z: Zone, key: string)
    ensures Lookup(Kind(d, z), key) ==
              if key == "type" then Some(if z.secondary then "slave" else "master")
              else if key == "file" then Some(Quoted(ZonePath(d, z.name)))
              else if key == "primaries" && z.secondary then Some(Braces(AddressList(z.masters)))
              else None
  {
    hide Lookup, AddressList, ZonePath, Quoted, Braces;
    var kind := Kind(d, z);
    if z.secondary {
      LookupThree(kind[0], kind[1], kind[2], key);
      assert kind == [kind[0], kind[1], kind[2]];
    } else {
      LookupThree(kind[0], kind[1], kind[1], key);
      assert kind == [kind[0], kind[1]];
    }
  }

  lemma PeersSay(s: DnsConfig.Settings, z: Zone, key: string)
    ensures Lookup(Peers(s, z), key) ==
              if key == "allow-transfer" then Some(Braces(AddressList(FirstOf(z.allowTransfer, s.allowTransfer))))
              else if key == "also-notify" && z.alsoNotify != [] then Some(Braces(AddressList(z.alsoNotify)))
              else None
  {
    hide Lookup, AddressList, Braces;
    var peers := Peers(s, z);
    if z.alsoNotify == [] {
      LookupThree(peers[0], peers[0], peers[0], key);
      assert peers == [peers[0]];
    } else {
      LookupThree(peers[0], peers[1], peers[1], key);
      assert peers == [peers[0], peers[1]];
    }
  }

  lemma SigningSays(d: Dirs, s: DnsConfig.Settings, z: Zone, key: string)
    ensures Lookup(Signing(d, s, z), key) ==
              if !z.dnssec || z.secondary then None
              else if key == "dnssec-policy" then Some(Quoted(if s.policy == "" then "default" else s.policy))
              else if key == "inline-signing" then Some("yes")
              else if key == "key-directory" then Some(Quoted(d.keys))
              else None
  {
    hide Lookup, Quoted;
    var signing := Signing(d, s, z);
    if z.dnssec && !z.secondary {
      LookupThree(signing[0], signing[1], signing[2], key);
    } else {
      LookupThree(Setting("", ""), Setting("", ""), Setting("", ""), key);
    }
  }

  /**** Address lists read back ****/

  lemma {:induction false} CleanedWords(addresses: seq<string>)
    requires OneWords(addresses)
    ensures |Trimmed(addresses)| == |Cleaned(addresses)|
    ensures forall i :: 0 <= i < |Cleaned(addresses)| ==>
              Trimmed(addresses)[i] == Cleaned(addresses)[i] + ";" && ' ' !in Cleaned(addresses)[i]
  {
    hide TrimSpace;
    if addresses != [] {
      CleanedWords(addresses[1..]);
    }
  }

  lemma {:induction false} LastsDropped(parts: seq<string>, words: seq<string>)
    requires |parts| == |words| && forall i :: 0 <= i < |words| ==> parts[i] == words[i] + ";"
    ensures WithoutLast(parts) == words
  {
    if parts != [] {
      LastsDropped(parts[1..], words[1..]);
      assert parts[0][..|parts[0]| - 1] == words[0];
      assert words == [words[0]] + words[1..];
    }
  }

  lemma ListReads(addresses: seq<string>)
    requires OneWords(addresses)
    ensures Elements(Braces(AddressList(addresses))) == OrNone(addresses)
  {
    hide Split, Join, Trimmed, Cleaned, WithoutLast, TrimSpace;
    CleanedWords(addresses);
    var parts, words := Trimmed(addresses), OrNone(addresses);
    if parts == [] {
      parts := ["none;"];
      assert "none;" == "none" + ";" && ' ' !in "none;";
      assert Join(parts, ' ') == "none;" by { JoinOfOne("none;", ' '); }
    }
    assert AddressList(addresses) == Join(parts, ' ');
    forall i | 0 <= i < |parts| ensures ' ' !in parts[i] {
      assert parts[i] == words[i] + ";";
    }
    SplitOfJoin(parts, ' ');
    LastsDropped(parts, words);
    var value := Braces(AddressList(addresses));
    assert value[2..|value| - 2] == AddressList(addresses);
  }

  /**** The whole list ****/

  lemma KeysDiffer()
    ensures "type" != "file" && "allow-transfer" != "inline-signing" && "dnssec-policy" != "key-directory"
  {
    assert "type"[0] != "file"[0] && "allow-transfer"[0] != "inline-signing"[0] && "dnssec-policy"[0] != "key-directory"[0];
  }

  lemma AllSay(d: Dirs, s: DnsConfig.Settings, z: Zone, key: string)
    ensures Lookup(All(d, s, z), key) ==
              if key == "type" then Some(if z.secondary then "slave" else "master")
              else if key == "file" then Some(Quoted(ZonePath(d, z.name)))
              else if key == "primaries" && z.secondary then Some(Braces(AddressList(z.masters)))
              else if key == "allow-transfer" then Some(Braces(AddressList(FirstOf(z.allowTransfer, s.allowTransfer))))
              else if key == "also-notify" && z.alsoNotify != [] then Some(Braces(AddressList(z.alsoNotify)))
              else if !z.dnssec || z.secondary then None
              else if key == "dnssec-policy" then Some(Quoted(if s.policy == "" then "default" else s.policy))
              else if key == "inline-signing" then Some("yes")
              else if key == "key-directory" then Some(Quoted(d.keys))
              else None
  {
    hide Lookup, All, Kind, Peers, Signing, AddressList, Braces, Quoted, ZonePath;
    LookupAll(d, s, z, key);
    KindSays(d, z, key);
    PeersSay(s, z, key);
    SigningSays(d, s, z, key);
  }

  lemma SettingsServe(d: Dirs, s: DnsConfig.Settings, z: Zone)
    requires WordZone(z) && OneWords(s.allowTransfer)
    ensures Serves(d, s, z, Stanza(z.name, All(d, s, z)))
  {
    hide Lookup, All, AddressList, Braces, Elements, OrNone, OneWords;
    KeysDiffer();
    AllSay(d, s, z, "type");
    AllSay(d, s, z, "file");
    AllSay(d, s, z, "primaries");
    AllSay(d, s, z, "allow-transfer");
    AllSay(d, s, z, "also-notify");
    AllSay(d, s, z, "dnssec-policy");
    AllSay(d, s, z, "inline-signing");
    AllSay(d, s, z, "key-directory");
    ListReads(z.masters);
    ListReads(FirstOf(z.allowTransfer, s.allowTransfer));
    ListReads(z.alsoNotify);
    FileText(d, z.name);
  }

  lemma FileText(d: Dirs, name: string)
    ensures Quoted(ZonePath(d, name)) == "\"" + d.state + "/" + name + ".zone" + "\""
  {
  }

  // The statement of one zone is read as one stanza.
  lemma BlockReads(before: seq<string>, d: Dirs, s: DnsConfig.Settings, z: Zone)
    requires PlainZone(z)
    ensures Stanzas(before + ZoneBlock(d, s, z)) == Stanzas(before) + [Stanza(z.name, All(d, s, z))]
  {
    hide LineZone, Directives, ZoneLine, Other, PlainZoneName, AllWhole, All, Stanzas, Extend, SettingsOf;
    var start := before + [ZoneLine(z.name)];
    ZoneLineOpens(z.name);
    StanzasPush(before, ZoneLine(z.name));
    DirectivesAreOther(d, s, z);
    var tail := Directives(d, s, z) + ["};", ""];
    assert Other("};") && Other("") by { ClosingIsOther(); }
    OthersExtend(start, tail);
    SettingsOfTogether(Directives(d, s, z), ["};", ""]);
    DirectivesRead(d, s, z);
    ClosingSaysNothing();
    assert All(d, s, z) + [] == All(d, s, z);
    assert before + ZoneBlock(d, s, z) == start + tail;
    ExtendLast(Stanzas(before), z.name, All(d, s, z));
  }

  lemma ClosingSaysNothing()
    ensures SettingsOf(["};", ""]) == []
  {
    assert ["};", ""][..1] == ["};"] && ["};"][..0] == [];
    assert SettingsOf(["};"]) == [];
  }

  lemma ExtendLast(stanzas: seq<Stanza>, name: string, settings: seq<Setting>)
    ensures Extend(stanzas + [Stanza(name, [])], settings) == stanzas + [Stanza(name, settings)]
  {
    assert [] + settings == settings;
  }

  lemma {:induction false} BlocksRead(before: seq<string>, d: Dirs, s: DnsConfig.Settings, zones: seq<Zone>)
    requires forall i :: 0 <= i < |zones| ==> PlainZone(zones[i])
    ensures Stanzas(before + Blocks(d, s, zones)) ==
              Stanzas(before) + seq(|zones|, i requires 0 <= i < |zones| => Stanza(zones[i].name, All(d, s, zones[i])))
    decreases |zones|
  {
    hide ZoneBlock, PlainZone, All, Stanzas;
    var read := seq(|zones|, i requires 0 <= i < |zones| => Stanza(zones[i].name, All(d, s, zones[i])));
    if zones == [] {
      assert before + [] == before && Stanzas(before) + read == Stanzas(before);
    } else {
      var more := seq(|zones| - 1, i requires 0 <= i < |zones| - 1 => Stanza(zones[1..][i].name, All(d, s, zones[1..][i])));
      BlockReads(before, d, s, zones[0]);
      BlocksRead(before + ZoneBlock(d, s, zones[0]), d, s, zones[1..]);
      Assoc(before, ZoneBlock(d, s, zones[0]), Blocks(d, s, zones[1..]));
      assert read == [Stanza(zones[0].name, All(d, s, zones[0]))] + more;
      Assoc(Stanzas(before), [Stanza(zones[0].name, All(d, s, zones[0]))], more);
    }
  }

  lemma {:induction false} NothingYetRead(lines: seq<string>)
    requires forall i :: 0 <= i < |lines| ==> Other(lines[i])
    ensures Stanzas(lines) == []
    decreases |lines|
  {
    hide Other, LineZone, ReadSetting;
    if lines != [] {
      NothingYetRead(lines[..|lines| - 1]);
      OtherOpensNothing(lines[|lines| - 1]);
    }
  }

  // The list of zones, read back, has one statement for each zone asked for, in the order of their names,
  // and each serves its zone as it was asked for: as a secondary of exactly its masters or as a primary,
  // with its transfers, its notifications and its signing.
  lemma ListServesAsAsked(d: Dirs, s: DnsConfig.Settings, zones: seq<Zone>)
    requires PlainRequest(d, s, zones) && HasMasters(zones) && WordRequest(s, zones)
    ensures RenderInclude(d, s, zones).Some?
    ensures var stanzas := Stanzas(Split(RenderInclude(d, s, zones).value, '\n'));
            && |stanzas| == |zones| && |Sorted(zones)| == |zones|
            && forall i :: 0 <= i < |zones| ==> Serves(d, s, Sorted(zones)[i], stanzas[i])
  {
    hide Sorted, Split, Unlines, Blocks, PlainZone, HEADER, AllWhole, Other, Serves, All, Stanzas, WordZone, OneWords;
    var ordered := Sorted(zones);
    FromSorted(zones);
    SortedKeeps(zones);
    assert |ordered| == |multiset(ordered)| && |zones| == |multiset(zones)|;
    forall i | 0 <= i < |ordered| ensures PlainZone(ordered[i]) && WordZone(ordered[i]) {
      assert ordered[i] in zones;
    }
    HeaderIsOther();
    NothingYetRead(HEADER);
    BlocksRead(HEADER, d, s, ordered);
    assert PlainRequest(d, s, ordered);
    BlocksAreWhole(d, s, ordered);
    var lines := HEADER + Blocks(d, s, ordered);
    assert Free(lines, '\n');
    SplitOfUnlines(lines);
    StanzasPush(lines, "");
    ClosingIsOther();
    OtherOpensNothing("");
    NothingToRead(Stanzas(lines));
    forall i | 0 <= i < |ordered| ensures Serves(d, s, ordered[i], Stanza(ordered[i].name, All(d, s, ordered[i]))) {
      SettingsServe(d, s, ordered[i]);
    }
  }

  lemma NothingToRead(stanzas: seq<Stanza>)
    ensures Extend(stanzas, ReadSetting("")) == stanzas
  {
  }
}
