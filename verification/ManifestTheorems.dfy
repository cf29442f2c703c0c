// What a manifest says of an archive: under the prefix recorded for a site lie exactly the site's
// entries, and under the path recorded for a dump the dump (agent/internal/backup/create.go).
module ManifestTheorems {
  import opened Wrappers
  import opened Bytes
  import opened Text
  import opened Parts
  import opened Paths
  import opened Segments
  import opened Archive
  import opened Restore
  import opened RestoreTheorems
  import opened Verify
  import opened RestoreRun
  import opened Create
  import opened CreateTheorems

  /**** Being below a prefix ****/

  // An acceptable name lies below a prefix exactly when its place does.
  lemma RelativeByPlace(name: string, place: Path)
    requires CheckMemberName(name).None? && Proper(place) && place != [] && CleanSegments(name) != []
    ensures Relative(name, Join(place, '/')).Some? <==> place < CleanSegments(name)
  {
    hide Split, Join, CleanSegments, HasDotDot;
    var segments := CleanSegments(name);
    MemberTarget([], name);
    CleanOfProper(segments);
    assert Relative(name, Join(place, '/')) == Relative(Join(segments, '/'), Join(place, '/'));
    if place < segments {
      var rest := segments[|place|..];
      assert segments == place + rest;
      JoinAppend(place, rest, '/');
      JoinStartsWithFirst(rest);
    } else if place != segments {
      OtherNameIgnored(place, segments);
    }
  }

  // All entries are acceptable and lie strictly below `base`.
  ghost predicate AllBelow(entries: seq<Entry>, base: Path) {
    forall i :: 0 <= i < |entries| ==> CheckMemberName(entries[i].name).None? && base < CleanSegments(entries[i].name)
  }

  lemma SiteBelow(site: SiteInput)
    requires site.children.Some? ==> OrderlyAll(site.children.value)
    ensures AllBelow(SiteBody(site), SitePlace(site))
  {
    hide SitePlace, CheckMemberName, CleanSegments, EntriesOfAll, SitePrefix, Join, OrderlyAll, GoodNames, ApartPlaces;
    if site.children.Some? {
      GoodPlaces(site, DatabaseInput("", "", NoDumper));
      SiteNotRoot(site);
      TreesPlaces(SitePlace(site), [], site.children.value);
      assert SitePlace(site) + [] == SitePlace(site);
    }
  }

  lemma SitePrefixProper(site: SiteInput)
    ensures Proper(SitePlace(site)) && |SitePlace(site)| == 2 && SitePlace(site)[0] == SITES
    ensures SitePrefix(site.domain) == Join(SitePlace(site), '/')
  {
    hide Segment, SitePrefix, Join, GoodName;
    GoodPlaces(site, DatabaseInput("", "", NoDumper));
    GoodIsProper(SitePlace(site));
  }

  // Entries at places that do not start with a site's are passed over for it.
  lemma OthersIgnored(entries: seq<Entry>, site: SiteInput)
    requires forall i :: 0 <= i < |entries| ==>
               CheckMemberName(entries[i].name).None? && CleanSegments(entries[i].name) != []
               && !(SitePlace(site) <= CleanSegments(entries[i].name))
    ensures Ignored(entries, SitePrefix(site.domain))
  {
    hide SitePlace, CheckMemberName, CleanSegments, Relative, Join, SitePrefix;
    SitePrefixProper(site);
    forall i | 0 <= i < |entries| ensures Relative(entries[i].name, SitePrefix(site.domain)).None? {
      RelativeByPlace(entries[i].name, SitePlace(site));
    }
  }

  lemma OtherPlace(a: Path, b: Path, place: Path)
    requires |a| == |b| && a != b && a < place
    ensures !(b <= place) && place != []
  {
  }

  lemma {:induction false} OtherSitesAreIgnored(others: seq<SiteInput>, site: SiteInput)
    requires OrderlySites(others) && forall j :: 0 <= j < |others| ==> SitePlace(others[j]) != SitePlace(site)
    ensures Ignored(SitesBody(others), SitePrefix(site.domain))
    decreases |others|
  {
    hide SitePlace, SiteBody, CheckMemberName, CleanSegments, Relative, OrderlyAll, SitePrefix;
    if others != [] {
      var n := |others| - 1;
      OtherSitesAreIgnored(others[..n], site);
      SiteBelow(others[n]);
      SitePrefixProper(others[n]);
      SitePrefixProper(site);
      var body := SiteBody(others[n]);
      forall i | 0 <= i < |body|
        ensures CheckMemberName(body[i].name).None? && CleanSegments(body[i].name) != []
                && !(SitePlace(site) <= CleanSegments(body[i].name))
      {
        OtherPlace(SitePlace(others[n]), SitePlace(site), CleanSegments(body[i].name));
      }
      OthersIgnored(body, site);
      IgnoredTogether(SitesBody(others[..n]), body, SitePrefix(site.domain));
    }
  }

  lemma IgnoredTogether(a: seq<Entry>, b: seq<Entry>, prefix: string)
    requires Ignored(a, prefix) && Ignored(b, prefix)
    ensures Ignored(a + b, prefix)
  {
    hide Relative;
  }

  lemma {:induction false} DumpsAreIgnored(databases: seq<DatabaseInput>, site: SiteInput)
    ensures Ignored(DumpsBody(databases), SitePrefix(site.domain))
    decreases |databases|
  {
    hide SitePlace, DumpPath, CheckMemberName, CleanSegments, Relative, SitePrefix, DumpPlace;
    if databases != [] {
      var n := |databases| - 1;
      DumpsAreIgnored(databases[..n], site);
      DumpName(databases[n]);
      DumpIsElsewhere(databases[n], site);
      OthersIgnored(DumpBody(databases[n]), site);
      IgnoredTogether(DumpsBody(databases[..n]), DumpBody(databases[n]), SitePrefix(site.domain));
    }
  }

  lemma DumpIsElsewhere(d: DatabaseInput, site: SiteInput)
    ensures !(SitePlace(site) <= DumpPlace(d)) && DumpPlace(d) != []
  {
    hide Segment;
    assert SITES[0] != DATABASES[0];
    assert SitePlace(site)[0] == SITES && DumpPlace(d)[0] == DATABASES;
  }

  lemma ManifestIsIgnored(c: Codec, m: Manifest, site: SiteInput)
    ensures Ignored([ManifestEntry(c, m)], SitePrefix(site.domain))
  {
    hide SitePlace, CheckMemberName, CleanSegments, Relative, SitePrefix;
    ManifestPlace();
    SitePrefixProper(site);
    OthersIgnored([ManifestEntry(c, m)], site);
  }

  /**** An archive around one site ****/

  lemma {:induction false} SitesTogether(a: seq<SiteInput>, b: seq<SiteInput>)
    ensures SitesBody(a + b) == SitesBody(a) + SitesBody(b)
    decreases |b|
  {
    hide SiteBody;
    if b == [] {
      assert a + b == a && SitesBody(a) + [] == SitesBody(a);
    } else {
      var n := |b| - 1;
      SitesTogether(a, b[..n]);
      assert (a + b)[..|a + b| - 1] == a + b[..n];
      Assoc(SitesBody(a), SitesBody(b[..n]), SiteBody(b[n]));
    }
  }

  lemma OneSite(site: SiteInput)
    ensures SitesBody([site]) == SiteBody(site)
  {
    hide SiteBody;
    assert [site][..0] == [];
    assert [] + SiteBody(site) == SiteBody(site);
  }

  lemma SiteAmong(sites: seq<SiteInput>, k: nat)
    requires k < |sites|
    ensures SitesBody(sites) == SitesBody(sites[..k]) + SiteBody(sites[k]) + SitesBody(sites[k + 1..])
  {
    hide SitesBody, SiteBody;
    assert sites == sites[..k] + ([sites[k]] + sites[k + 1..]);
    SitesTogether(sites[..k], [sites[k]] + sites[k + 1..]);
    SitesTogether([sites[k]], sites[k + 1..]);
    OneSite(sites[k]);
    Assoc(SitesBody(sites[..k]), SiteBody(sites[k]), SitesBody(sites[k + 1..]));
  }

  // What stands before and after one site's entries in the archive is passed over for it.
  lemma ArchiveAround(c: Codec, sites: seq<SiteInput>, databases: seq<DatabaseInput>, k: nat)
    returns (before: seq<Entry>, after: seq<Entry>)
    requires OrderlySites(sites) && DistinctInputs(sites, databases) && k < |sites|
    ensures Body(sites, databases) + [ManifestEntry(c, ManifestOf(c.hash, sites, databases))] == before + SiteBody(sites[k]) + after
    ensures Ignored(before, SitePrefix(sites[k].domain)) && Ignored(after, SitePrefix(sites[k].domain))
  {
    hide SitesBody, SiteBody, DumpsBody, ManifestOf, Ignored, SitePlace, OrderlyAll, SitePrefix, ManifestEntry, DumpPlace;
    var m := ManifestOf(c.hash, sites, databases);
    before := SitesBody(sites[..k]);
    var back := SitesBody(sites[k + 1..]);
    after := back + (DumpsBody(databases) + [ManifestEntry(c, m)]);
    SiteAmong(sites, k);
    OtherSitesAreIgnored(sites[..k], sites[k]);
    OtherSitesAreIgnored(sites[k + 1..], sites[k]);
    DumpsAreIgnored(databases, sites[k]);
    ManifestIsIgnored(c, m, sites[k]);
    IgnoredTogether(DumpsBody(databases), [ManifestEntry(c, m)], SitePrefix(sites[k].domain));
    IgnoredTogether(back, DumpsBody(databases) + [ManifestEntry(c, m)], SitePrefix(sites[k].domain));
    FiveParts(before, SiteBody(sites[k]), back, DumpsBody(databases), [ManifestEntry(c, m)]);
  }

  lemma FiveParts<T>(a: seq<T>, b: seq<T>, c: seq<T>, d: seq<T>, e: seq<T>)
    ensures a + b + c + d + e == a + b + (c + (d + e))
  {
  }

  /**** What is recorded ****/

  lemma {:induction false} RecordAt(hash: bytes -> string, sites: seq<SiteInput>, k: nat)
    requires k < |sites|
    ensures |SiteRecords(hash, sites)| == |sites| && SiteRecords(hash, sites)[k] == SiteRecord(hash, sites[k])
    decreases |sites|
  {
    hide SiteRecord;
    var n := |sites| - 1;
    if n > 0 {
      RecordAt(hash, sites[..n], if k < n then k else 0);
    }
  }

  // Valid domains are written in small letters, so two that agree with one name under folding are one.
  lemma {:induction false} SmallLetters(words: seq<string>)
    requires forall i :: 0 <= i < |words| ==> ValidLabel(words[i])
    ensures forall c :: c in Join(words, '.') ==> LabelCharacter(c) || c == '.'
  {
    if |words| > 1 {
      SmallLetters(words[1..]);
    }
  }

  lemma SmallIsFolded(domain: string)
    requires ValidDomain(domain)
    ensures forall i :: 0 <= i < |domain| ==> Fold(domain[i]) == domain[i]
  {
    hide Split, ValidLabel;
    SmallLetters(Split(domain, '.'));
    JoinOfSplit(domain, '.');
    assert forall i :: 0 <= i < |domain| ==> domain[i] in domain;
  }

  lemma OneDomain(a: string, b: string, name: string)
    requires ValidDomain(a) && ValidDomain(b) && EqualFold(a, name) && EqualFold(b, name)
    ensures a == b
  {
    hide ValidDomain, Fold;
    SmallIsFolded(a);
    SmallIsFolded(b);
  }

  ghost predicate ValidDomains(sites: seq<SiteInput>) {
    forall i :: 0 <= i < |sites| ==> ValidDomain(sites[i].domain)
  }

  // Asked for by its domain in any case, a site of the backup is found, under its own record.
  lemma SiteIsFound(hash: bytes -> string, sites: seq<SiteInput>, databases: seq<DatabaseInput>, k: nat, name: string)
    requires ValidDomains(sites) && DistinctInputs(sites, databases) && k < |sites| && EqualFold(sites[k].domain, name)
    ensures FindSite(ManifestOf(hash, sites, databases).sites, name) == Some(SiteRecord(hash, sites[k]))
  {
    hide SiteRecords, ValidDomain, EqualFold, FindSite, MembersOf, SitesBody, SiteBody, DumpRecords, Skipped, SitePrefix;
    var records := SiteRecords(hash, sites);
    forall i | 0 <= i < |sites| ensures |records| == |sites| && records[i].domain == sites[i].domain {
      RecordAt(hash, sites, i);
    }
    RecordAt(hash, sites, k);
    var found := FindSite(records, name);
    assert EqualFold(records[k].domain, name);
    var i :| 0 <= i < |records| && records[i] == found.value && forall j :: 0 <= j < i ==> !EqualFold(records[j].domain, name);
    OneDomain(sites[i].domain, sites[k].domain, name);
    SamePlace(sites[i], sites[k]);
    RecordAt(hash, sites, i);
  }

  lemma SamePlace(a: SiteInput, b: SiteInput)
    requires a.domain == b.domain
    ensures SitePlace(a) == SitePlace(b)
  {
  }

  // Below the prefix a manifest records for a site lie exactly the site's own entries, and the record
  // counts its files and their bytes.
  lemma RecordedPrefix(c: Codec, sites: seq<SiteInput>, databases: seq<DatabaseInput>, k: nat, name: string)
    requires ValidDomains(sites) && OrderlySites(sites) && DistinctInputs(sites, databases)
    requires k < |sites| && EqualFold(sites[k].domain, name)
    ensures var m := ManifestOf(c.hash, sites, databases);
            var found := FindSite(m.sites, name);
            && found.Some? && found.value.domain == sites[k].domain
            && found.value.bytes == ContentBytes(SiteBody(sites[k]))
            && ((forall b :: c.hash(b) != "") ==> found.value.fileCount == FileCount(SiteBody(sites[k])))
            && forall e :: e in Body(sites, databases) + [ManifestEntry(c, m)] ==>
                 (Relative(e.name, found.value.prefix).Some? <==> e in SiteBody(sites[k]))
  {
    hide Relative, FindSite, ValidDomain, EqualFold, Body, ManifestOf, SiteBody, MembersOf, OrderlyAll, SitePlace, SitePrefix,
      ManifestEntry, Checksummed, FileCount, ContentBytes;
    SiteIsFound(c.hash, sites, databases, k, name);
    if forall b :: c.hash(b) != "" {
      ManifestCountsFiles(c.hash, SiteBody(sites[k]));
    }
    var before, after := ArchiveAround(c, sites, databases, k);
    var body, prefix := SiteBody(sites[k]), SitePrefix(sites[k].domain);
    OwnAreBelow(sites[k]);
    forall e: Entry | e in before + body + after ensures Relative(e.name, prefix).Some? <==> e in body {
      if e !in body {
        assert e in before || e in after;
      }
    }
  }

  lemma OwnAreBelow(site: SiteInput)
    requires site.children.Some? ==> OrderlyAll(site.children.value)
    ensures forall e :: e in SiteBody(site) ==> Relative(e.name, SitePrefix(site.domain)).Some?
  {
    hide SiteBody, SitePlace, CheckMemberName, CleanSegments, Relative, OrderlyAll, SitePrefix, Join;
    SiteBelow(site);
    SitePrefixProper(site);
    var body := SiteBody(site);
    forall e | e in body ensures Relative(e.name, SitePrefix(site.domain)).Some? {
      var i :| 0 <= i < |body| && body[i] == e;
      RelativeByPlace(body[i].name, SitePlace(site));
    }
  }

  /**** Dumps ****/

  // findDatabase.
  function FindDatabase(members: seq<DatabaseMember>, engine: string, name: string): Option<DatabaseMember> {
    if members == [] then None
    else if members[0].engine == engine && members[0].name == name then Some(members[0])
    else FindDatabase(members[1..], engine, name)
  }

  lemma {:induction false} FindDatabaseTogether(a: seq<DatabaseMember>, b: seq<DatabaseMember>, engine: string, name: string)
    ensures FindDatabase(a + b, engine, name)
         == if FindDatabase(a, engine, name).Some? then FindDatabase(a, engine, name) else FindDatabase(b, engine, name)
  {
    if a == [] {
      assert a + b == b;
    } else {
      assert (a + b)[0] == a[0] && (a + b)[1..] == a[1..] + b;
      FindDatabaseTogether(a[1..], b, engine, name);
    }
  }

  lemma DumpRecordFound(hash: bytes -> string, d: DatabaseInput, engine: string, name: string)
    ensures FindDatabase(DumpRecord(hash, d), engine, name) ==
              if d.dump.Dumped? && d.engine == engine && d.name == name then
                Some(DatabaseMember(engine, name, DumpPath(d), |d.dump.content|, hash(d.dump.content)))
              else None
  {
    hide DumpPath;
    assert FindDatabase(DumpRecord(hash, d)[..0], engine, name) == None;
  }

  // The record found for an engine and a name is that of the first dump of them.
  lemma {:induction false} DumpIsFound(hash: bytes -> string, databases: seq<DatabaseInput>, k: nat)
    requires DistinctInputs([], databases) && k < |databases| && databases[k].dump.Dumped?
    ensures var d := databases[k];
            FindDatabase(DumpRecords(hash, databases), d.engine, d.name)
            == Some(DatabaseMember(d.engine, d.name, DumpPath(d), |d.dump.content|, hash(d.dump.content)))
    decreases |databases|
  {
    hide DumpPath, DumpRecord, DumpPlace, FindDatabase;
    var n, d := |databases| - 1, databases[k];
    FindDatabaseTogether(DumpRecords(hash, databases[..n]), DumpRecord(hash, databases[n]), d.engine, d.name);
    DumpRecordFound(hash, databases[n], d.engine, d.name);
    if k < n {
      DumpIsFound(hash, databases[..n], k);
    } else {
      forall j | 0 <= j < n && databases[j].dump.Dumped? ensures !(databases[j].engine == d.engine && databases[j].name == d.name) {
        if databases[j].engine == d.engine && databases[j].name == d.name {
          SameDumpPlace(databases[j], d);
        }
      }
      NoSuchDump(hash, databases[..n], d.engine, d.name);
    }
  }

  lemma SameDumpPlace(a: DatabaseInput, b: DatabaseInput)
    requires a.engine == b.engine && a.name == b.name
    ensures DumpPlace(a) == DumpPlace(b)
  {
  }

  lemma {:induction false} NoSuchDump(hash: bytes -> string, databases: seq<DatabaseInput>, engine: string, name: string)
    requires forall j :: 0 <= j < |databases| && databases[j].dump.Dumped? ==>
               !(databases[j].engine == engine && databases[j].name == name)
    ensures FindDatabase(DumpRecords(hash, databases), engine, name) == None
    decreases |databases|
  {
    hide DumpRecord, FindDatabase;
    if databases == [] {
      assert FindDatabase([], engine, name) == None by { NoneToFind(engine, name); }
    } else {
      var n := |databases| - 1;
      NoSuchDump(hash, databases[..n], engine, name);
      FindDatabaseTogether(DumpRecords(hash, databases[..n]), DumpRecord(hash, databases[n]), engine, name);
      DumpRecordFound(hash, databases[n], engine, name);
    }
  }

  lemma NoneToFind(engine: string, name: string)
    ensures FindDatabase([], engine, name) == None
  {
  }

  // Under the path a manifest records for an engine and a name, an archive holds the dump taken of that
  // database: the first entry of the path, which is the one taken out, and the last, which was verified.
  lemma RecordedDump(c: Codec, sites: seq<SiteInput>, databases: seq<DatabaseInput>, k: nat)
    requires OrderlySites(sites) && DistinctInputs(sites, databases) && k < |databases| && databases[k].dump.Dumped?
    ensures var m := ManifestOf(c.hash, sites, databases);
            var entries := Body(sites, databases) + [ManifestEntry(c, m)];
            var found, d := FindDatabase(m.databases, databases[k].engine, databases[k].name), databases[k];
            && found.Some? && found.value.size == |d.dump.content| && found.value.checksum == c.hash(d.dump.content)
            && FirstNamed(entries, found.value.path).Some? && FirstNamed(entries, found.value.path).value.content == d.dump.content
            && LastNamed(entries, found.value.path) == FirstNamed(entries, found.value.path)
  {
    hide DumpPath, SitesBody, SiteRecords, DumpRecords, MembersOf, FirstNamed, LastNamed, DistinctEntries, FindDatabase, SitePlace,
      DumpPlace, OrderlyAll, ContentBytes, Checksummed, Skipped, CheckMemberName;
    DumpIsFound(c.hash, databases, k);
    BodyPlaces(sites, databases);
    var m := ManifestOf(c.hash, sites, databases);
    var body := Body(sites, databases);
    var entries := body + [ManifestEntry(c, m)];
    var e := DumpBody(databases[k])[0];
    DumpIsAmong(databases, k);
    assert e in body;
    StaysDistinct(body, ManifestEntry(c, m));
    var i :| 0 <= i < |body| && body[i] == e;
    assert entries[i] == e;
    LastOfDistinct(entries, i);
  }

  lemma {:induction false} DumpIsAmong(databases: seq<DatabaseInput>, k: nat)
    requires k < |databases| && databases[k].dump.Dumped?
    ensures DumpBody(databases[k])[0] in DumpsBody(databases)
    decreases |databases|
  {
    hide DumpPath;
    var n := |databases| - 1;
    if k < n {
      DumpIsAmong(databases[..n], k);
    } else {
      assert DumpBody(databases[n])[0] in DumpBody(databases[n]);
    }
  }

  lemma StaysDistinct(body: seq<Entry>, last: Entry)
    requires DistinctEntries(body) && last.name == MANIFEST_NAME && forall i :: 0 <= i < |body| ==> body[i].name != MANIFEST_NAME
    ensures DistinctEntries(body + [last])
  {
  }

  /**** The lists and the totals ****/

  function SumOfFiles(records: seq<SiteEntry>): nat {
    if records == [] then 0 else records[0].fileCount + SumOfFiles(records[1..])
  }

  function SumOfBytes(records: seq<SiteEntry>): nat {
    if records == [] then 0 else records[0].bytes + SumOfBytes(records[1..])
  }

  // The names there was no dumper for.
  function WithoutDumper(databases: seq<DatabaseInput>): seq<string> {
    if databases == [] then []
    else (if databases[0].dump.NoDumper? then [databases[0].name] else []) + WithoutDumper(databases[1..])
  }

  lemma {:induction false} SumsPush(records: seq<SiteEntry>, last: SiteEntry)
    ensures SumOfFiles(records + [last]) == SumOfFiles(records) + last.fileCount
    ensures SumOfBytes(records + [last]) == SumOfBytes(records) + last.bytes
  {
    var all := records + [last];
    if records == [] {
      assert all[0] == last && all[1..] == [];
    } else {
      assert all[0] == records[0] && all[1..] == records[1..] + [last];
      SumsPush(records[1..], last);
    }
  }

  lemma {:induction false} WithoutDumperPush(databases: seq<DatabaseInput>, last: DatabaseInput)
    ensures WithoutDumper(databases + [last]) == WithoutDumper(databases) + if last.dump.NoDumper? then [last.name] else []
  {
    var all := databases + [last];
    if databases == [] {
      assert all[0] == last && all[1..] == [];
    } else {
      assert all[0] == databases[0] && all[1..] == databases[1..] + [last];
      WithoutDumperPush(databases[1..], last);
    }
  }

  lemma {:induction false} TotalsOfSites(hash: bytes -> string, sites: seq<SiteInput>)
    ensures var records := SiteRecords(hash, sites);
            && Checksummed(MembersOf(hash, SitesBody(sites))) == SumOfFiles(records)
            && ContentBytes(SitesBody(sites)) == SumOfBytes(records)
    decreases |sites|
  {
    hide SiteBody, SitePrefix, MembersOf, ContentBytes, Checksummed;
    if sites == [] {
      NoTotals(hash);
    } else {
      var n := |sites| - 1;
      TotalsOfSites(hash, sites[..n]);
      TotalsAppend(hash, SitesBody(sites[..n]), SiteBody(sites[n]));
      SumsPush(SiteRecords(hash, sites[..n]), SiteRecord(hash, sites[n]));
    }
  }

  lemma NoTotals(hash: bytes -> string)
    ensures Checksummed(MembersOf(hash, [])) == 0 && ContentBytes([]) == 0
  {
  }

  lemma {:induction false} SkippedAre(databases: seq<DatabaseInput>)
    ensures Skipped(databases) == WithoutDumper(databases)
    decreases |databases|
  {
    if databases != [] {
      var n := |databases| - 1;
      SkippedAre(databases[..n]);
      WithoutDumperPush(databases[..n], databases[n]);
      assert databases == databases[..n] + [databases[n]];
    }
  }

  lemma {:induction false} MemberAt(hash: bytes -> string, entries: seq<Entry>, i: nat)
    requires i < |entries|
    ensures |MembersOf(hash, entries)| == |entries| && MembersOf(hash, entries)[i] == MemberOf(hash, entries[i])
  {
    MembersAppend(hash, entries, []);
    if i > 0 {
      MemberAt(hash, entries[1..], i - 1);
    }
  }

  // A manifest lists every entry of the sites, in the archive's order, with its name, its permissions, where a
  // link leads, and the size and checksum of a file; its totals are those of its sites, and it names the
  // databases there was no dumper for.
  lemma RecordedLists(hash: bytes -> string, sites: seq<SiteInput>, databases: seq<DatabaseInput>)
    ensures var m, body := ManifestOf(hash, sites, databases), SitesBody(sites);
            && m.version == MANIFEST_VERSION && |m.files| == |body|
            && (forall i :: 0 <= i < |body| ==>
                  && m.files[i].path == body[i].name && m.files[i].mode == body[i].mode
                  && (body[i].kind.Regular? ==>
                        m.files[i].size == |body[i].content| && m.files[i].checksum == hash(body[i].content))
                  && (!body[i].kind.Regular? ==>
                        m.files[i].size == 0 && m.files[i].checksum == "" && m.files[i].link == body[i].link))
            && m.fileCount == SumOfFiles(m.sites) && m.fileBytes == SumOfBytes(m.sites)
            && m.skipped == WithoutDumper(databases)
  {
    hide SitesBody, SiteRecords, DumpRecords, MembersOf, ContentBytes, Checksummed, SumOfFiles, SumOfBytes, WithoutDumper, Skipped;
    TotalsOfSites(hash, sites);
    SkippedAre(databases);
    var body := SitesBody(sites);
    MembersAppend(hash, body, []);
    forall i | 0 <= i < |body| ensures MembersOf(hash, body)[i] == MemberOf(hash, body[i]) {
      MemberAt(hash, body, i);
    }
  }
}
