// An archive that was written verifies, and exactly when.
module CreateTheorems {
  import opened Wrappers
  import opened Bytes
  import opened Parts
  import opened Paths
  import opened Segments
  import opened Keys
  import opened Archive
  import opened RestoreTheorems
  import opened Verify
  import opened Create

  /**** Every member has a place of its own ****/

  // Names all accepted, and cleaned to places at or under `base`.
  ghost predicate PlacedUnder(entries: seq<Entry>, base: Path) {
    forall i :: 0 <= i < |entries| ==>
      CheckMemberName(entries[i].name).None? && base <= CleanSegments(entries[i].name)
  }

  ghost predicate ApartPlaces(entries: seq<Entry>) {
    forall i, j :: 0 <= i < j < |entries| ==> CleanSegments(entries[i].name) != CleanSegments(entries[j].name)
  }

  // What a directory on disk is: names of children differ, and none holds a backslash or a NUL.
  ghost predicate Orderly(node: Tree)
    decreases node
  {
    node.Folder? ==> OrderlyAll(node.children)
  }

  ghost predicate OrderlyAll(children: seq<Child>)
    decreases children
  {
    DistinctNames(children) &&
    (children != [] ==> GoodName(children[0].name) && Orderly(children[0].node) && OrderlyAll(children[1..]))
  }

  lemma SlashedName(segments: seq<string>)
    requires GoodNames(segments) && segments != []
    ensures var name := Join(segments, '/');
            && CheckMemberName(name).None? && CleanSegments(name) == segments
            && CheckMemberName(name + "/").None? && CleanSegments(name + "/") == segments
            && name != "" && name[|name| - 1] != '/'
  {
    hide Split, Join, TrimSlashes;
    var name := Join(segments, '/');
    GoodIsProper(segments);
    LastOfJoin(segments);
    PlaceOf(["x"], segments);
    SplitOfJoin(segments, '/');
    SplitAppendSlash(name);
    CleanOntoSlashed(segments);
    CleanOfProper(segments);
    TrimmingKeepsDotDot(name + "/");
    JoinLacks(segments, '\\');
    JoinLacks(segments, '\0');
    assert NoDotDot(segments + [""]);
  }

  lemma GoodAppend(a: seq<string>, b: seq<string>)
    requires GoodNames(a) && GoodNames(b)
    ensures GoodNames(a + b)
  {
  }

  // The entry of one node stands at the node's place.
  lemma OwnPlace(prefix: seq<string>, relative: seq<string>, node: Tree)
    requires GoodNames(prefix) && prefix != [] && GoodNames(relative) && relative != [] && !node.Special?
    ensures var e := EntriesOf(Join(prefix, '/'), relative, node)[0];
            CheckMemberName(e.name).None? && CleanSegments(e.name) == prefix + relative
  {
    hide Join, MemberName, CheckMemberName, CleanSegments, GoodNames, EntriesOfAll;
    GoodIsProper(prefix);
    NameReadsBack(prefix, relative);
    GoodAppend(prefix, relative);
    SlashedName(prefix + relative);
  }

  lemma {:induction false} TreePlaces(prefix: seq<string>, relative: seq<string>, node: Tree)
    requires GoodNames(prefix) && prefix != [] && GoodNames(relative) && relative != [] && Orderly(node)
    ensures var entries := EntriesOf(Join(prefix, '/'), relative, node);
            PlacedUnder(entries, prefix + relative) && ApartPlaces(entries)
    decreases node
  {
    hide Join, MemberName, CheckMemberName, CleanSegments, GoodNames, PlacedUnder, ApartPlaces, EntriesOfAll, PlacedAmong;
    if node.Special? {
      NoPlaces(prefix + relative);
    } else {
      OwnPlace(prefix, relative, node);
      var entries := EntriesOf(Join(prefix, '/'), relative, node);
      if node.Folder? {
        TreesPlaces(prefix, relative, node.children);
        FolderPlaces(entries[0], EntriesOfAll(Join(prefix, '/'), relative, node.children), prefix + relative, node.children);
        assert entries == [entries[0]] + EntriesOfAll(Join(prefix, '/'), relative, node.children);
      } else {
        OnlyPlace(entries[0], prefix + relative);
        assert entries == [entries[0]];
      }
    }
  }

  lemma NoPlaces(base: Path)
    ensures PlacedUnder([], base) && ApartPlaces([])
  {
  }

  lemma OnlyPlace(e: Entry, base: Path)
    requires CheckMemberName(e.name).None? && CleanSegments(e.name) == base
    ensures PlacedUnder([e], base) && ApartPlaces([e])
  {
    hide CheckMemberName, CleanSegments;
  }

  // Each name is accepted and its place is at or under one of the children's.
  ghost predicate PlacedAmong(entries: seq<Entry>, base: Path, children: seq<Child>) {
    forall i :: 0 <= i < |entries| ==>
      && CheckMemberName(entries[i].name).None?
      && var place := CleanSegments(entries[i].name);
         |base| < |place| && base <= place && exists k :: 0 <= k < |children| && children[k].name == place[|base|]
  }

  lemma FolderPlaces(e: Entry, below: seq<Entry>, base: Path, children: seq<Child>)
    requires CheckMemberName(e.name).None? && CleanSegments(e.name) == base
    requires PlacedAmong(below, base, children) && ApartPlaces(below)
    ensures PlacedUnder([e] + below, base) && ApartPlaces([e] + below)
  {
    hide CheckMemberName, CleanSegments;
    var all := [e] + below;
    forall i | 0 <= i < |all|
      ensures CheckMemberName(all[i].name).None? && base <= CleanSegments(all[i].name)
      ensures i > 0 ==> |base| < |CleanSegments(all[i].name)|
    {
      assert i > 0 ==> all[i] == below[i - 1];
    }
    forall i, j | 0 <= i < j < |all| ensures CleanSegments(all[i].name) != CleanSegments(all[j].name) {
      assert all[j] == below[j - 1];
      assert i > 0 ==> all[i] == below[i - 1];
    }
  }

  lemma {:induction false} TreesPlaces(prefix: seq<string>, relative: seq<string>, children: seq<Child>)
    requires GoodNames(prefix) && prefix != [] && GoodNames(relative) && OrderlyAll(children)
    ensures var entries := EntriesOfAll(Join(prefix, '/'), relative, children);
            PlacedAmong(entries, prefix + relative, children) && ApartPlaces(entries)
    decreases children
  {
    hide Join, MemberName, CheckMemberName, CleanSegments, PlacedUnder, ApartPlaces, EntriesOf, PlacedAmong, GoodName, Orderly;
    if children == [] {
      NothingAmong(prefix + relative, children);
    } else {
      var child := children[0];
      TreePlaces(prefix, relative + [child.name], child.node);
      TreesPlaces(prefix, relative, children[1..]);
      assert prefix + (relative + [child.name]) == prefix + relative + [child.name];
      ChildPlaces(EntriesOf(Join(prefix, '/'), relative + [child.name], child.node),
                  EntriesOfAll(Join(prefix, '/'), relative, children[1..]), prefix + relative, children);
    }
  }

  lemma NothingAmong(base: Path, children: seq<Child>)
    ensures PlacedAmong([], base, children) && ApartPlaces([])
  {
  }

  lemma ChildPlaces(first: seq<Entry>, rest: seq<Entry>, base: Path, children: seq<Child>)
    requires children != [] && DistinctNames(children)
    requires PlacedUnder(first, base + [children[0].name]) && ApartPlaces(first)
    requires PlacedAmong(rest, base, children[1..]) && ApartPlaces(rest)
    ensures PlacedAmong(first + rest, base, children) && ApartPlaces(first + rest)
  {
    hide CheckMemberName, CleanSegments;
    var n := |base|;
    forall i | 0 <= i < |first|
      ensures var place := CleanSegments(first[i].name);
              |base| < |place| && base <= place && children[0].name == place[n] && CheckMemberName(first[i].name).None?
    {
      var place := CleanSegments(first[i].name);
      assert base + [children[0].name] <= place;
      assert (base + [children[0].name])[n] == place[n];
      assert (base + [children[0].name])[..n] == base == place[..n];
    }
    forall i | 0 <= i < |rest|
      ensures var place := CleanSegments(rest[i].name);
              && |base| < |place| && base <= place && CheckMemberName(rest[i].name).None?
              && children[0].name != place[n] && exists k :: 0 <= k < |children| && children[k].name == place[n]
    {
      var place := CleanSegments(rest[i].name);
      var k :| 0 <= k < |children[1..]| && children[1..][k].name == place[n];
      assert children[k + 1].name == place[n];
    }
    var all := first + rest;
    forall i | 0 <= i < |all|
      ensures CheckMemberName(all[i].name).None?
      ensures var place := CleanSegments(all[i].name);
              |base| < |place| && base <= place && exists k :: 0 <= k < |children| && children[k].name == place[n]
    {
      if i < |first| {
        assert all[i] == first[i];
      } else {
        assert all[i] == rest[i - |first|];
      }
    }
    ApartTogether(first, rest, n);
  }

  // Two lists of members whose places differ at one position.
  lemma ApartTogether(a: seq<Entry>, b: seq<Entry>, n: nat)
    requires ApartPlaces(a) && ApartPlaces(b)
    requires forall i, j :: 0 <= i < |a| && 0 <= j < |b| ==>
               var p, q := CleanSegments(a[i].name), CleanSegments(b[j].name); n < |p| && n < |q| && p[n] != q[n]
    ensures ApartPlaces(a + b)
  {
    hide CleanSegments;
    var all := a + b;
    forall i, j | 0 <= i < j < |all| ensures CleanSegments(all[i].name) != CleanSegments(all[j].name) {
      if j < |a| {
        assert all[i] == a[i] && all[j] == a[j];
      } else if i < |a| {
        assert all[i] == a[i] && all[j] == b[j - |a|];
      } else {
        assert all[i] == b[i - |a|] && all[j] == b[j - |a|];
      }
    }
  }

  /**** All the sites and dumps together ****/

  function SitePlace(site: SiteInput): Path {
    [SITES, Segment(site.domain)]
  }

  function DumpPlace(d: DatabaseInput): Path {
    [DATABASES, Segment(d.engine), Segment(d.name) + ".sql"]
  }

  // What a request must be for its members to have names of their own: no two sites and no two
  // dumps are reduced to the same segments.
  ghost predicate DistinctInputs(sites: seq<SiteInput>, databases: seq<DatabaseInput>) {
    && (forall i, j :: 0 <= i < j < |sites| ==> SitePlace(sites[i]) != SitePlace(sites[j]))
    && (forall i, j :: 0 <= i < j < |databases| && databases[i].dump.Dumped? && databases[j].dump.Dumped? ==>
          DumpPlace(databases[i]) != DumpPlace(databases[j]))
  }

  ghost predicate OrderlySites(sites: seq<SiteInput>) {
    forall i :: 0 <= i < |sites| && sites[i].children.Some? ==> OrderlyAll(sites[i].children.value)
  }

  lemma SegmentIsGoodName(value: string)
    ensures GoodName(Segment(value))
  {
    hide Segment, Shaped;
    SegmentIsStable(value);
    StableIsGoodName(Segment(value));
  }

  lemma WithSuffix(s: string)
    requires GoodName(s)
    ensures GoodName(s + ".sql")
  {
    var t := ".sql";
    assert forall i :: 0 <= i < |s| ==> (s + t)[i] == s[i];
    assert '/' !in t && '\\' !in t && '\0' !in t;
  }

  lemma JoinPathOfGood(segments: seq<string>)
    requires GoodNames(segments) && segments != []
    ensures JoinPath(segments) == Join(segments, '/')
  {
    hide Clean, Join;
    GoodIsProper(segments);
    CleanOfProper(segments);
    assert GoodName(segments[0]);
  }

  lemma GoodPlaces(site: SiteInput, d: DatabaseInput)
    ensures GoodNames(SitePlace(site)) && SitePrefix(site.domain) == Join(SitePlace(site), '/')
    ensures GoodNames(DumpPlace(d)) && DumpPath(d) == Join(DumpPlace(d), '/')
  {
    hide Segment, JoinPath, GoodName;
    SegmentIsGoodName(site.domain);
    SegmentIsGoodName(d.engine);
    SegmentIsGoodName(d.name);
    WithSuffix(Segment(d.name));
    assert GoodName(SITES) && GoodName(DATABASES) by { PlainPrefixes(); }
    JoinPathOfGood(SitePlace(site));
    JoinPathOfGood(DumpPlace(d));
  }

  lemma PlainPrefixes()
    ensures GoodName(SITES) && GoodName(DATABASES)
  {
  }

  lemma SitePlaces(site: SiteInput)
    requires site.children.Some? ==> OrderlyAll(site.children.value)
    ensures PlacedUnder(SiteBody(site), SitePlace(site)) && ApartPlaces(SiteBody(site))
  {
    hide SitePlace, CheckMemberName, CleanSegments, EntriesOfAll, SitePrefix, Join, ApartPlaces, OrderlyAll, PlacedUnder, PlacedAmong,
         GoodNames;
    GoodPlaces(site, DatabaseInput("", "", NoDumper));
    NoPlaces(SitePlace(site));
    if site.children.Some? {
      SiteNotRoot(site);
      TreesPlaces(SitePlace(site), [], site.children.value);
      assert SitePlace(site) + [] == SitePlace(site);
      AmongIsUnder(SiteBody(site), SitePlace(site), site.children.value);
    }
  }

  lemma AmongIsUnder(entries: seq<Entry>, base: Path, children: seq<Child>)
    requires PlacedAmong(entries, base, children)
    ensures PlacedUnder(entries, base)
  {
    hide CheckMemberName, CleanSegments;
  }

  lemma SiteNotRoot(site: SiteInput)
    ensures SitePlace(site) != [] && GoodNames([])
  {
    hide Segment;
  }

  // Every site's members, each at a place that starts with one of the sites'.
  ghost predicate PlacedInSites(entries: seq<Entry>, sites: seq<SiteInput>) {
    forall i :: 0 <= i < |entries| ==>
      && CheckMemberName(entries[i].name).None?
      && exists k :: 0 <= k < |sites| && SitePlace(sites[k]) <= CleanSegments(entries[i].name)
  }

  lemma {:induction false} SitesPlaces(sites: seq<SiteInput>)
    requires OrderlySites(sites)
    requires forall i, j :: 0 <= i < j < |sites| ==> SitePlace(sites[i]) != SitePlace(sites[j])
    ensures PlacedInSites(SitesBody(sites), sites) && ApartPlaces(SitesBody(sites))
    decreases |sites|
  {
    hide SitePlace, CheckMemberName, CleanSegments, SiteBody, OrderlyAll, ApartPlaces, PlacedInSites, PlacedUnder;
    if sites == [] {
      NoSites();
    } else {
      var n := |sites| - 1;
      SitesPlaces(sites[..n]);
      SitePlaces(sites[n]);
      MoreSites(SitesBody(sites[..n]), SiteBody(sites[n]), sites);
    }
  }

  lemma NoSites()
    ensures PlacedInSites([], []) && ApartPlaces([])
  {
  }

  lemma MoreSites(a: seq<Entry>, b: seq<Entry>, sites: seq<SiteInput>)
    requires sites != [] && PlacedInSites(a, sites[..|sites| - 1]) && ApartPlaces(a)
    requires PlacedUnder(b, SitePlace(sites[|sites| - 1])) && ApartPlaces(b)
    requires forall i, j :: 0 <= i < j < |sites| ==> SitePlace(sites[i]) != SitePlace(sites[j])
    ensures PlacedInSites(a + b, sites) && ApartPlaces(a + b)
  {
    hide CheckMemberName, CleanSegments, Segment, ApartPlaces;
    var n := |sites| - 1;
    forall i, j | 0 <= i < |a| && 0 <= j < |b|
      ensures var p, q := CleanSegments(a[i].name), CleanSegments(b[j].name); 1 < |p| && 1 < |q| && p[1] != q[1]
    {
      var p, q := CleanSegments(a[i].name), CleanSegments(b[j].name);
      var k :| 0 <= k < |sites[..n]| && SitePlace(sites[..n][k]) <= p;
      assert SitePlace(sites[k]) != SitePlace(sites[n]);
      assert p[1] == SitePlace(sites[k])[1] && q[1] == SitePlace(sites[n])[1];
    }
    ApartTogether(a, b, 1);
    forall i | 0 <= i < |a + b|
      ensures CheckMemberName((a + b)[i].name).None?
      ensures exists k :: 0 <= k < |sites| && SitePlace(sites[k]) <= CleanSegments((a + b)[i].name)
    {
      if i < |a| {
        var k :| 0 <= k < |sites[..n]| && SitePlace(sites[..n][k]) <= CleanSegments(a[i].name);
        assert SitePlace(sites[k]) <= CleanSegments((a + b)[i].name);
      } else {
        assert (a + b)[i] == b[i - |a|];
      }
    }
  }

  // Every dump's member, at its own place.
  ghost predicate PlacedAsDumps(entries: seq<Entry>, databases: seq<DatabaseInput>) {
    forall i :: 0 <= i < |entries| ==> PlacedAsOne(entries[i], databases)
  }

  ghost predicate PlacedAsOne(e: Entry, databases: seq<DatabaseInput>) {
    && CheckMemberName(e.name).None?
    && exists k :: 0 <= k < |databases| && databases[k].dump.Dumped? && CleanSegments(e.name) == DumpPlace(databases[k])
  }

  lemma {:induction false} DumpsPlaces(databases: seq<DatabaseInput>)
    requires forall i, j :: 0 <= i < j < |databases| && databases[i].dump.Dumped? && databases[j].dump.Dumped? ==>
               DumpPlace(databases[i]) != DumpPlace(databases[j])
    ensures PlacedAsDumps(DumpsBody(databases), databases) && ApartPlaces(DumpsBody(databases))
    decreases |databases|
  {
    hide DumpPlace, CheckMemberName, CleanSegments, DumpBody, ApartPlaces, PlacedAsDumps, PlacedAs;
    if databases == [] {
      NoDumps();
    } else {
      var n := |databases| - 1;
      DumpsPlaces(databases[..n]);
      DumpBodyPlace(databases[n]);
      MoreDumps(DumpsBody(databases[..n]), DumpBody(databases[n]), databases);
    }
  }

  // One dump's members: none, or the one at its place.
  ghost predicate PlacedAs(b: seq<Entry>, d: DatabaseInput) {
    && |b| <= 1 && (b != [] ==> d.dump.Dumped?)
    && forall i :: 0 <= i < |b| ==> CheckMemberName(b[i].name).None? && CleanSegments(b[i].name) == DumpPlace(d)
  }

  lemma DumpBodyPlace(d: DatabaseInput)
    ensures PlacedAs(DumpBody(d), d)
  {
    hide DumpPlace, CheckMemberName, CleanSegments, DumpPath, GoodNames;
    DumpName(d);
  }

  lemma DumpName(d: DatabaseInput)
    ensures CheckMemberName(DumpPath(d)).None? && CleanSegments(DumpPath(d)) == DumpPlace(d)
  {
    hide *;
    GoodPlaces(SiteInput("", None), d);
    DumpNotRoot(d);
    SlashedName(DumpPlace(d));
  }

  lemma NoDumps()
    ensures PlacedAsDumps([], []) && ApartPlaces([])
  {
  }

  lemma DumpNotRoot(d: DatabaseInput)
    ensures DumpPlace(d) != []
  {
    hide Segment;
  }

  lemma MoreDumps(a: seq<Entry>, b: seq<Entry>, databases: seq<DatabaseInput>)
    requires databases != [] && PlacedAsDumps(a, databases[..|databases| - 1]) && ApartPlaces(a)
    requires PlacedAs(b, databases[|databases| - 1])
    requires forall i, j :: 0 <= i < j < |databases| && databases[i].dump.Dumped? && databases[j].dump.Dumped? ==>
               DumpPlace(databases[i]) != DumpPlace(databases[j])
    ensures PlacedAsDumps(a + b, databases) && ApartPlaces(a + b)
  {
    hide CheckMemberName, CleanSegments, DumpPlace, ApartPlaces;
    var n := |databases| - 1;
    forall i | 0 <= i < |a|
      ensures PlacedAsOne(a[i], databases) && (b != [] ==> CleanSegments(a[i].name) != CleanSegments(b[0].name))
    {
      assert PlacedAsOne(a[i], databases[..n]);
      var k :| 0 <= k < |databases[..n]| && databases[..n][k].dump.Dumped? && CleanSegments(a[i].name) == DumpPlace(databases[..n][k]);
      assert databases[k].dump.Dumped? && CleanSegments(a[i].name) == DumpPlace(databases[k]);
    }
    forall i | 0 <= i < |a + b| ensures PlacedAsOne((a + b)[i], databases) {
      if i < |a| {
        assert PlacedAsOne(a[i], databases) && (a + b)[i] == a[i];
      } else {
        assert (a + b)[i] == b[0] && CleanSegments(b[0].name) == DumpPlace(databases[n]);
      }
    }
    if b == [] {
      assert a + b == a;
    } else {
      LastAdded(a, b[0]);
      assert b == [b[0]];
    }
  }

  lemma LastAdded(a: seq<Entry>, e: Entry)
    requires ApartPlaces(a) && forall i :: 0 <= i < |a| ==> CleanSegments(a[i].name) != CleanSegments(e.name)
    ensures ApartPlaces(a + [e])
  {
    hide CleanSegments;
    var all := a + [e];
    assert forall i :: 0 <= i < |a| ==> all[i] == a[i];
  }

  // All members together, the manifest's name apart.
  lemma BodyPlaces(sites: seq<SiteInput>, databases: seq<DatabaseInput>)
    requires OrderlySites(sites) && DistinctInputs(sites, databases)
    ensures var body := Body(sites, databases);
            && DistinctEntries(body)
            && forall i :: 0 <= i < |body| ==> CheckMemberName(body[i].name).None? && body[i].name != MANIFEST_NAME
  {
    hide CheckMemberName, CleanSegments, OrderlyAll, SitesBody, DumpsBody, SitePlace, DumpPlace, ApartPlaces, PlacedInSites, PlacedAsDumps;
    SitesPlaces(sites);
    DumpsPlaces(databases);
    TwoKinds(SitesBody(sites), DumpsBody(databases), sites, databases);
    ManifestPlace();
    LongPlaces(Body(sites, databases));
  }

  // Members of sites and of dumps never share a place, and none has a place of one segment.
  lemma TwoKinds(a: seq<Entry>, b: seq<Entry>, sites: seq<SiteInput>, databases: seq<DatabaseInput>)
    requires PlacedInSites(a, sites) && ApartPlaces(a) && PlacedAsDumps(b, databases) && ApartPlaces(b)
    ensures ApartPlaces(a + b)
    ensures forall i :: 0 <= i < |a + b| ==> CheckMemberName((a + b)[i].name).None? && |CleanSegments((a + b)[i].name)| >= 2
  {
    hide CheckMemberName, CleanSegments, Segment, ApartPlaces;
    forall i | 0 <= i < |a| ensures |CleanSegments(a[i].name)| >= 2 && CleanSegments(a[i].name)[0] == SITES {
      var k :| 0 <= k < |sites| && SitePlace(sites[k]) <= CleanSegments(a[i].name);
      assert SitePlace(sites[k])[0] == SITES;
    }
    forall i | 0 <= i < |b| ensures |CleanSegments(b[i].name)| >= 2 && CleanSegments(b[i].name)[0] == DATABASES {
      var k :| 0 <= k < |databases| && databases[k].dump.Dumped? && CleanSegments(b[i].name) == DumpPlace(databases[k]);
      assert DumpPlace(databases[k])[0] == DATABASES;
    }
    assert SITES[0] != DATABASES[0];
    ApartTogether(a, b, 0);
  }

  lemma ManifestPlace()
    ensures CleanSegments(MANIFEST_NAME) == [MANIFEST_NAME] && CheckMemberName(MANIFEST_NAME).None?
  {
    hide Split, Clean, CleanSegments, CheckMemberName;
    assert GoodName(MANIFEST_NAME);
    assert Join([MANIFEST_NAME], '/') == MANIFEST_NAME;
    SlashedName([MANIFEST_NAME]);
  }

  lemma LongPlaces(body: seq<Entry>)
    requires ApartPlaces(body) && CleanSegments(MANIFEST_NAME) == [MANIFEST_NAME]
    requires forall i :: 0 <= i < |body| ==> |CleanSegments(body[i].name)| >= 2
    ensures DistinctEntries(body) && forall i :: 0 <= i < |body| ==> body[i].name != MANIFEST_NAME
  {
    hide CleanSegments;
    forall i, j | 0 <= i < j < |body| ensures body[i].name != body[j].name {
      assert CleanSegments(body[i].name) != CleanSegments(body[j].name);
    }
  }

  /**** Verifying what was written ****/

  // Members the pass takes, before the manifest.
  ghost predicate Taken(entries: seq<Entry>) {
    forall i :: 0 <= i < |entries| ==>
      && CheckMemberName(entries[i].name).None?
      && (entries[i].kind.Regular? ==> entries[i].size() <= MAX_MEMBER_BYTES)
  }

  ghost predicate NoManifestAmong(entries: seq<Entry>) {
    forall i :: 0 <= i < |entries| ==> entries[i].name != MANIFEST_NAME
  }

  lemma {:induction false} ScanAccepts(c: Codec, s: Scan, entries: seq<Entry>)
    requires NoManifestAmong(entries) && s.count <= MAX_MEMBERS
    ensures var r := ScanEntries(c, s, entries);
            && (r.Success? <==> Taken(entries) && s.count + |entries| <= MAX_MEMBERS)
            && (r.Success? ==> r.value.manifest == s.manifest && r.value.have == s.have)
    decreases |entries|
  {
    hide CheckMemberName;
    if entries != [] {
      var r := ScanEntry(c, s, entries[0]);
      assert entries == [entries[0]] + entries[1..];
      if r.Success? {
        ScanAccepts(c, r.value, entries[1..]);
        assert Taken(entries) <==> Taken(entries[1..]);
      }
    }
  }

  lemma {:induction false} ScanAppend(c: Codec, s: Scan, a: seq<Entry>, b: seq<Entry>)
    ensures ScanEntries(c, s, a + b)
         == if ScanEntries(c, s, a).Success? then ScanEntries(c, ScanEntries(c, s, a).value, b) else ScanEntries(c, s, a)
    decreases |a|
  {
    hide ScanEntry;
    if a == [] {
      assert a + b == b;
    } else {
      assert (a + b)[0] == a[0] && (a + b)[1..] == a[1..] + b;
      if ScanEntry(c, s, a[0]).Success? {
        ScanAppend(c, ScanEntry(c, s, a[0]).value, a[1..], b);
      }
    }
  }

  // Body and manifest are read in full exactly within the limits.
  lemma WrittenIsRead(c: Codec, body: seq<Entry>, m: Manifest)
    requires NoManifestAmong(body) && c.decode(c.encode(m), NO_MANIFEST) == Some(m) && m.version == MANIFEST_VERSION
    ensures var r := ScanEntries(c, FRESH, body + [ManifestEntry(c, m)]);
            && (r.Success? <==> Taken(body) && |body| < MAX_MEMBERS && |c.encode(m)| <= MAX_MANIFEST_BYTES)
            && (r.Success? ==> r.value.manifest == m && r.value.have)
  {
    hide CheckMemberName, ScanEntries, CleanSegments;
    ScanAppend(c, FRESH, body, [ManifestEntry(c, m)]);
    ScanAccepts(c, FRESH, body);
    ManifestPlace();
    var r := ScanEntries(c, FRESH, body);
    if r.Success? {
      ScanSeesLast(c, FRESH, body);
      ScanOne(c, r.value, ManifestEntry(c, m));
    }
  }

  lemma ScanOne(c: Codec, s: Scan, e: Entry)
    ensures ScanEntries(c, s, [e]) == ScanEntry(c, s, e)
  {
    hide ScanEntry;
    assert [e][1..] == [];
  }

  lemma {:induction false} MembersAt(hash: bytes -> string, entries: seq<Entry>, i: nat)
    requires i < |entries|
    ensures |MembersOf(hash, entries)| == |entries| && MembersOf(hash, entries)[i] == MemberOf(hash, entries[i])
  {
    MembersAppend(hash, entries, []);
    if i > 0 {
      MembersAt(hash, entries[1..], i - 1);
    }
  }

  lemma {:induction false} DumpsDeclared(hash: bytes -> string, databases: seq<DatabaseInput>, i: nat)
    requires i < |DumpRecords(hash, databases)|
    ensures exists e :: e in DumpsBody(databases) && e.kind.Regular? && e.name == DumpRecords(hash, databases)[i].path
                        && hash(e.content) == DumpRecords(hash, databases)[i].checksum
    decreases |databases|
  {
    hide DumpPath;
    var n := |databases| - 1;
    var before := DumpRecords(hash, databases[..n]);
    if i < |before| {
      DumpsDeclared(hash, databases[..n], i);
      var e :| e in DumpsBody(databases[..n]) && e.kind.Regular? && e.name == before[i].path && hash(e.content) == before[i].checksum;
      assert e in DumpsBody(databases);
    } else {
      var e := DumpBody(databases[n])[0];
      assert e in DumpBody(databases[n]);
      assert e in DumpsBody(databases);
    }
  }

  lemma LastOfBody(body: seq<Entry>, last: Entry, e: Entry)
    requires DistinctEntries(body) && NoManifestAmong(body) && last.name == MANIFEST_NAME && e in body
    ensures LastNamed(body + [last], e.name) == Some(e) && e.name != MANIFEST_NAME
  {
    hide LastNamed;
    var all := body + [last];
    assert DistinctEntries(all);
    var i :| 0 <= i < |body| && body[i] == e;
    assert all[i] == e;
    LastOfDistinct(all, i);
  }

  lemma WrittenHolds(c: Codec, sites: seq<SiteInput>, databases: seq<DatabaseInput>)
    requires DistinctEntries(Body(sites, databases)) && NoManifestAmong(Body(sites, databases))
    ensures var m := ManifestOf(c.hash, sites, databases);
            ManifestHolds(c.hash, Body(sites, databases) + [ManifestEntry(c, m)], m)
  {
    hide LastNamed, SitesBody, DumpsBody, MembersOf, DumpRecords, DistinctEntries, NoManifestAmong, SiteRecords;
    var m := ManifestOf(c.hash, sites, databases);
    var body := Body(sites, databases);
    var front := SitesBody(sites);
    forall i | 0 <= i < |m.files| && m.files[i].checksum != "" ensures FileHolds(c.hash, body + [ManifestEntry(c, m)], m.files[i]) {
      MembersAppend(c.hash, front, []);
      MembersAt(c.hash, front, i);
      assert front[i] in body;
      LastOfBody(body, ManifestEntry(c, m), front[i]);
    }
    forall i | 0 <= i < |m.databases| ensures DatabaseHolds(c.hash, body + [ManifestEntry(c, m)], m.databases[i]) {
      DumpsDeclared(c.hash, databases, i);
      var e :| e in DumpsBody(databases) && e.kind.Regular? && e.name == m.databases[i].path && c.hash(e.content) == m.databases[i].checksum;
      assert e in body;
      LastOfBody(body, ManifestEntry(c, m), e);
    }
  }

  // An archive that writeArchive finished, of trees as a disk holds them but for backslashes and NULs
  // and with names that stay apart, is read back with no problem exactly when its members leave room
  // for the manifest, no dump is too large for one member, and the manifest is not too large.
  lemma WrittenArchiveVerifies(c: Codec, sites: seq<SiteInput>, databases: seq<DatabaseInput>)
    requires Writable(sites, databases) && OrderlySites(sites) && DistinctInputs(sites, databases)
    requires var m := ManifestOf(c.hash, sites, databases); c.decode(c.encode(m), NO_MANIFEST) == Some(m)
    ensures var m := ManifestOf(c.hash, sites, databases);
            var body := Body(sites, databases);
            Verified(c, Some(Source(body + [ManifestEntry(c, m)], true))) == Success(Report(m, |body| + 1, Fine))
            <==> |body| < MAX_MEMBERS && |c.encode(m)| <= MAX_MANIFEST_BYTES && SmallDumps(databases)
  {
    hide ScanEntries, CheckMemberName, OrderlySites, DistinctInputs, Body, ManifestOf, ManifestHolds, Writable, Taken;
    var m := ManifestOf(c.hash, sites, databases);
    var body := Body(sites, databases);
    var archive := Source(body + [ManifestEntry(c, m)], true);
    BodyPlaces(sites, databases);
    VersionOf(c.hash, sites, databases);
    WrittenIsRead(c, body, m);
    WrittenHolds(c, sites, databases);
    BodySizes(sites, databases);
    if Verified(c, Some(archive)).Success? {
      FineMeansManifestHolds(c, archive);
      ScanSeesLast(c, FRESH, archive.entries);
    }
  }

  // Such an archive exists: one dump too large for a member is written without a word, and the reading
  // refuses the archive.
  lemma LargeDumpIsWrittenAndRefused(c: Codec, d: DatabaseInput)
    requires d.dump.Dumped? && |d.dump.content| > MAX_MEMBER_BYTES
    ensures Writable([], [d]) && OrderlySites([]) && DistinctInputs([], [d]) && !SmallDumps([d])
    ensures var m := ManifestOf(c.hash, [], [d]);
            Verified(c, Some(Source(Body([], [d]) + [ManifestEntry(c, m)], true))) == Failure(Oversized)
  {
    hide CheckMemberName, DumpPath, ManifestOf, SitePlace, DumpPlace;
    BodyPlaces([], [d]);
    var m := ManifestOf(c.hash, [], [d]);
    assert [d][..0] == [] && [d][0] == d;
    var body := Body([], [d]);
    assert DumpsBody([]) == [] && DumpsBody([d]) == DumpsBody([d][..0]) + DumpBody(d);
    assert body == DumpBody(d);
    var all := body + [ManifestEntry(c, m)];
    assert all[0] == body[0];
    assert ScanEntry(c, FRESH, all[0]) == Failure(Oversized);
  }

  lemma VersionOf(hash: bytes -> string, sites: seq<SiteInput>, databases: seq<DatabaseInput>)
    ensures ManifestOf(hash, sites, databases).version == MANIFEST_VERSION
  {
    hide SitesBody, SiteRecords, DumpRecords, Skipped;
  }

  ghost predicate Small(entries: seq<Entry>) {
    forall i :: 0 <= i < |entries| && entries[i].kind.Regular? ==> entries[i].size() <= MAX_MEMBER_BYTES
  }

  ghost predicate SmallDumps(databases: seq<DatabaseInput>) {
    forall i :: 0 <= i < |databases| && databases[i].dump.Dumped? ==> |databases[i].dump.content| <= MAX_MEMBER_BYTES
  }

  lemma SmallAppend(a: seq<Entry>, b: seq<Entry>)
    ensures Small(a + b) <==> Small(a) && Small(b)
  {
    assert forall i :: 0 <= i < |a| ==> (a + b)[i] == a[i];
    assert forall i :: 0 <= i < |b| ==> (a + b)[|a| + i] == b[i];
  }

  // The walk bounds the size of a site's files; nothing bounds a dump's.
  lemma BodySizes(sites: seq<SiteInput>, databases: seq<DatabaseInput>)
    requires Writable(sites, databases)
    requires forall i :: 0 <= i < |Body(sites, databases)| ==> CheckMemberName(Body(sites, databases)[i].name).None?
    ensures Taken(Body(sites, databases)) <==> SmallDumps(databases)
  {
    hide CheckMemberName, SitesBody, DumpsBody, SiteFits, DumpFits, ValidDomain, SmallDumps;
    SiteSizes(sites);
    DumpSizes(databases);
    SmallAppend(SitesBody(sites), DumpsBody(databases));
    assert Taken(Body(sites, databases)) <==> Small(Body(sites, databases));
  }

  lemma {:induction false} SiteSizes(sites: seq<SiteInput>)
    requires forall k :: 0 <= k < |sites| ==> SiteFits(sites, k)
    ensures Small(SitesBody(sites))
    decreases |sites|
  {
    hide SiteBody, ValidDomain, Small;
    if sites == [] {
      assert Small([]) by { NoneSmall(); }
    } else {
      var n := |sites| - 1;
      forall k | 0 <= k < n ensures SiteFits(sites[..n], k) {
        assert SiteFits(sites, k) && sites[..n][..k] == sites[..k];
      }
      SiteSizes(sites[..n]);
      assert SiteFits(sites, n);
      SmallAppend(SitesBody(sites[..n]), SiteBody(sites[n]));
      WithinIsSmall(SiteBody(sites[n]), |SitesBody(sites[..n])|);
    }
  }

  lemma NoneSmall()
    ensures Small([])
  {
  }

  lemma WithinIsSmall(entries: seq<Entry>, members: nat)
    requires WithinLimits(entries, members)
    ensures Small(entries)
  {
  }

  lemma {:induction false} DumpSizes(databases: seq<DatabaseInput>)
    ensures Small(DumpsBody(databases)) <==> SmallDumps(databases)
    decreases |databases|
  {
    hide DumpPath, Small;
    if databases == [] {
      NoneSmall();
    } else {
      var n := |databases| - 1;
      DumpSizes(databases[..n]);
      SmallAppend(DumpsBody(databases[..n]), DumpBody(databases[n]));
      OneSmall(databases[n]);
      assert databases == databases[..n] + [databases[n]];
    }
  }

  lemma OneSmall(d: DatabaseInput)
    ensures Small(DumpBody(d)) <==> (d.dump.Dumped? ==> |d.dump.content| <= MAX_MEMBER_BYTES)
  {
    hide DumpPath;
    if d.dump.Dumped? {
      assert DumpBody(d)[0].size() == |d.dump.content|;
    }
  }
}
