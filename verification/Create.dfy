// Writing an archive, its manifest last: writeArchive of agent/internal/backup/create.go. What it
// wrote verifies.
module Create {
  import opened Wrappers
  import opened Bytes
  import opened Parts
  import opened Paths
  import opened Segments
  import opened Keys
  import opened Archive
  import opened RestoreTheorems
  import opened Verify

  // A website: the tree at its document root, or None when that root was refused.
  datatype SiteInput = SiteInput(domain: string, children: Option<seq<Child>>)

  // What came of dumping a database: refused or failed, no tool for its engine, or a file.
  datatype Dump = DumpRefused | NoDumper | DumpFailed | Dumped(mode: nat, content: bytes)

  datatype DatabaseInput = DatabaseInput(engine: string, name: string, dump: Dump)

  datatype CreateError = NothingToBackUp | CannotRead | TooMuch

  const SITES: string := "sites"
  const DATABASES: string := "databases"

  function SitePrefix(domain: string): string {
    JoinPath([SITES, Segment(domain)])
  }

  function DumpPath(d: DatabaseInput): string {
    JoinPath([DATABASES, Segment(d.engine), Segment(d.name) + ".sql"])
  }

  /**** What the archive is to hold ****/

  function SiteBody(site: SiteInput): seq<Entry> {
    if site.children.None? then [] else EntriesOfAll(SitePrefix(site.domain), [], site.children.value)
  }

  function DumpBody(d: DatabaseInput): seq<Entry> {
    if d.dump.Dumped? then [Entry(DumpPath(d), Regular, Perm(d.dump.mode), "", d.dump.content)] else []
  }

  function SitesBody(sites: seq<SiteInput>): seq<Entry> {
    if sites == [] then [] else SitesBody(sites[..|sites| - 1]) + SiteBody(sites[|sites| - 1])
  }

  function DumpsBody(databases: seq<DatabaseInput>): seq<Entry> {
    if databases == [] then [] else DumpsBody(databases[..|databases| - 1]) + DumpBody(databases[|databases| - 1])
  }

  function SiteRecord(hash: bytes -> string, site: SiteInput): SiteEntry {
    SiteEntry(site.domain, SitePrefix(site.domain), Checksummed(MembersOf(hash, SiteBody(site))), ContentBytes(SiteBody(site)))
  }

  function DumpRecord(hash: bytes -> string, d: DatabaseInput): seq<DatabaseMember> {
    if d.dump.Dumped? then
      [DatabaseMember(d.engine, d.name, DumpPath(d), |d.dump.content|, hash(d.dump.content))]
    else []
  }

  function SiteRecords(hash: bytes -> string, sites: seq<SiteInput>): seq<SiteEntry> {
    if sites == [] then [] else SiteRecords(hash, sites[..|sites| - 1]) + [SiteRecord(hash, sites[|sites| - 1])]
  }

  function DumpRecords(hash: bytes -> string, databases: seq<DatabaseInput>): seq<DatabaseMember> {
    if databases == [] then []
    else DumpRecords(hash, databases[..|databases| - 1]) + DumpRecord(hash, databases[|databases| - 1])
  }

  function Skipped(databases: seq<DatabaseInput>): seq<string> {
    if databases == [] then []
    else
      var last := databases[|databases| - 1];
      Skipped(databases[..|databases| - 1]) + (if last.dump.NoDumper? then [last.name] else [])
  }

  // The totals are those of all the sites' entries together.
  function ManifestOf(hash: bytes -> string, sites: seq<SiteInput>, databases: seq<DatabaseInput>): Manifest {
    var body := SitesBody(sites);
    Manifest(MANIFEST_VERSION, SiteRecords(hash, sites), DumpRecords(hash, databases), MembersOf(hash, body),
             Checksummed(MembersOf(hash, body)), ContentBytes(body), Skipped(databases))
  }

  function Body(sites: seq<SiteInput>, databases: seq<DatabaseInput>): seq<Entry> {
    SitesBody(sites) + DumpsBody(databases)
  }

  function ManifestEntry(c: Codec, m: Manifest): Entry {
    Entry(MANIFEST_NAME, Regular, MANIFEST_MODE, "", c.encode(m))
  }

  /**** When it can be written ****/

  predicate SiteFits(sites: seq<SiteInput>, k: nat)
    requires k < |sites|
  {
    && ValidDomain(sites[k].domain) && sites[k].children.Some?
    && WithinLimits(SiteBody(sites[k]), |SitesBody(sites[..k])|)
  }

  predicate DumpFits(databases: seq<DatabaseInput>, k: nat, before: nat)
    requires k < |databases|
  {
    match databases[k].dump
    case DumpRefused => false
    case DumpFailed => false
    case NoDumper => true
    case Dumped(_, _) => before + |DumpsBody(databases[..k])| < MAX_MEMBERS
  }

  predicate Writable(sites: seq<SiteInput>, databases: seq<DatabaseInput>) {
    && (forall k :: 0 <= k < |sites| ==> SiteFits(sites, k))
    && (forall k :: 0 <= k < |databases| ==> DumpFits(databases, k, |SitesBody(sites)|))
    && (sites != [] || exists k :: 0 <= k < |databases| && databases[k].dump.Dumped?)
  }

  // Why a site or a dump that does not fit stops the backup.
  function SiteFault(site: SiteInput): CreateError {
    if !ValidDomain(site.domain) then NothingToBackUp else if site.children.None? then CannotRead else TooMuch
  }

  function DumpFault(d: DatabaseInput): CreateError {
    if d.dump.Dumped? then TooMuch else NothingToBackUp
  }

  // The first site that does not fit, or else the first dump, tells the error; when all fit there was
  // nothing to back up.
  ghost predicate StopsWith(sites: seq<SiteInput>, databases: seq<DatabaseInput>, e: CreateError) {
    if exists k :: 0 <= k < |sites| && !SiteFits(sites, k) then SiteStops(sites, e)
    else if exists k :: 0 <= k < |databases| && !DumpFits(databases, k, |SitesBody(sites)|) then
      DumpStops(databases, |SitesBody(sites)|, e)
    else e == NothingToBackUp
  }

  ghost predicate SiteStops(sites: seq<SiteInput>, e: CreateError) {
    exists k :: 0 <= k < |sites| && !SiteFits(sites, k) && e == SiteFault(sites[k]) && forall j :: 0 <= j < k ==> SiteFits(sites, j)
  }

  ghost predicate DumpStops(databases: seq<DatabaseInput>, before: nat, e: CreateError) {
    exists k :: 0 <= k < |databases| && !DumpFits(databases, k, before) && e == DumpFault(databases[k])
                && forall j :: 0 <= j < k ==> DumpFits(databases, j, before)
  }

  /**** The operations ****/

  method AddSite(w: Writer, hash: bytes -> string, site: SiteInput)
    returns (r: Result<(SiteEntry, seq<Member>), CreateError>)
    requires w.Valid()
    modifies w
    ensures w.Valid()
    ensures r.Success? <==>
              ValidDomain(site.domain) && site.children.Some? && WithinLimits(SiteBody(site), |old(w.entries)|)
    ensures r.Success? ==>
              w.entries == old(w.entries) + SiteBody(site)
              && r.value == (SiteRecord(hash, site), MembersOf(hash, SiteBody(site)))
    ensures r.Failure? ==> r.error == SiteFault(site)
  {
    hide ValidDomain, EntriesOfAll, WithinLimits, SitePrefix, Segment;
    if site.domain == "" {
      NoEmptyDomain();
      return Failure(NothingToBackUp);
    }
    if !ValidDomain(site.domain) {
      return Failure(NothingToBackUp);
    }
    if site.children.None? {
      return Failure(CannotRead);
    }
    var prefix := SitePrefix(site.domain);
    var walked := w.WalkAll(hash, prefix, [], site.children.value);
    if walked.Failure? {
      return Failure(TooMuch);
    }
    var members, bytes := walked.value.0, walked.value.1;
    var files := 0;
    for k := 0 to |members|
      invariant files == Checksummed(members) - Checksummed(members[k..])
    {
      assert members[k..][0] == members[k] && members[k..][1..] == members[k + 1..];
      if members[k].checksum != "" {
        files := files + 1;
      }
    }
    assert members[|members|..] == [];
    return Success((SiteEntry(site.domain, prefix, files, bytes), members));
  }

  lemma NoEmptyDomain()
    ensures !ValidDomain("")
  {
  }

  // addDatabase: a record, a reason to skip it, or an error.
  method AddDatabase(w: Writer, hash: bytes -> string, d: DatabaseInput)
    returns (r: Result<seq<DatabaseMember>, CreateError>, skipped: bool)
    requires w.Valid()
    modifies w
    ensures w.Valid()
    ensures r.Success? <==> d.dump.NoDumper? || (d.dump.Dumped? && |old(w.entries)| < MAX_MEMBERS)
    ensures skipped <==> d.dump.NoDumper?
    ensures r.Success? ==> w.entries == old(w.entries) + DumpBody(d) && r.value == DumpRecord(hash, d)
    ensures r.Failure? ==> r.error == DumpFault(d)
  {
    hide DumpPath;
    match d.dump
    case DumpRefused => return Failure(NothingToBackUp), false;
    case NoDumper => return Success([]), true;
    case DumpFailed => return Failure(NothingToBackUp), false;
    case Dumped(mode, content) =>
      var member := w.AddFile(hash, DumpPath(d), mode, content);
      if member.Failure? {
        return Failure(TooMuch), false;
      }
      return Success([DatabaseMember(d.engine, d.name, member.value.path, member.value.size, member.value.checksum)]), false;
  }

  // The archive's entries and manifest.
  method WriteArchive(c: Codec, sites: seq<SiteInput>, databases: seq<DatabaseInput>)
    returns (r: Result<(Manifest, seq<Entry>), CreateError>)
    ensures r.Success? <==> Writable(sites, databases)
    ensures r.Success? ==>
              var m := ManifestOf(c.hash, sites, databases);
              r.value == (m, Body(sites, databases) + [ManifestEntry(c, m)])
    ensures r.Failure? ==> StopsWith(sites, databases, r.error)
  {
    hide ManifestOf, SitesBody, DumpsBody, SiteFits, DumpFits, SiteFault, DumpFault;
    var w := new Writer();
    var m, error := WriteSites(w, c.hash, sites);
    if error.Some? {
      return Failure(error.value);
    }
    m, error := WriteDumps(w, c.hash, sites, databases, m);
    if error.Some? {
      return Failure(error.value);
    }
    RecordsMade(c.hash, sites, databases);
    if m.sites == [] && m.databases == [] {
      return Failure(NothingToBackUp);
    }
    w.AddManifest(c.encode(m));
    return Success((m, w.entries));
  }

  // The loop over the sites.
  method WriteSites(w: Writer, hash: bytes -> string, sites: seq<SiteInput>)
    returns (m: Manifest, error: Option<CreateError>)
    requires w.Valid() && w.entries == []
    modifies w
    ensures w.Valid()
    ensures error.None? <==> forall k :: 0 <= k < |sites| ==> SiteFits(sites, k)
    ensures error.None? ==> w.entries == SitesBody(sites) && m == ManifestOf(hash, sites, [])
    ensures error.Some? ==> SiteStops(sites, error.value)
  {
    hide SiteBody, ValidDomain, WithinLimits, ManifestOf, SiteRecord, SiteFault;
    m := Manifest(MANIFEST_VERSION, [], [], [], 0, 0, []);
    EmptyManifest(hash);
    for k := 0 to |sites|
      invariant w.Valid() && w.entries == SitesBody(sites[..k])
      invariant forall j :: 0 <= j < k ==> SiteFits(sites, j)
      invariant m == ManifestOf(hash, sites[..k], [])
    {
      assert sites[..k + 1][..k] == sites[..k];
      var added := AddSite(w, hash, sites[k]);
      if added.Failure? {
        assert !SiteFits(sites, k);
        return m, Some(added.error);
      }
      SiteAdded(hash, sites, k);
      var (entry, members) := added.value;
      m := m.(sites := m.sites + [entry], files := m.files + members,
              fileCount := m.fileCount + entry.fileCount, fileBytes := m.fileBytes + entry.bytes);
    }
    assert sites[..|sites|] == sites;
    return m, None;
  }

  // The loop over the databases.
  method WriteDumps(w: Writer, hash: bytes -> string, sites: seq<SiteInput>, databases: seq<DatabaseInput>, m0: Manifest)
    returns (m: Manifest, error: Option<CreateError>)
    requires w.Valid() && w.entries == SitesBody(sites) && m0 == ManifestOf(hash, sites, [])
    modifies w
    ensures w.Valid()
    ensures error.None? <==> forall k :: 0 <= k < |databases| ==> DumpFits(databases, k, |SitesBody(sites)|)
    ensures error.None? ==>
              w.entries == SitesBody(sites) + DumpsBody(databases) && m == ManifestOf(hash, sites, databases)
    ensures error.Some? ==> DumpStops(databases, |SitesBody(sites)|, error.value)
  {
    hide DumpBody, SitesBody, DumpRecord, ManifestOf, DumpFault;
    m := m0;
    for k := 0 to |databases|
      invariant w.Valid() && w.entries == SitesBody(sites) + DumpsBody(databases[..k])
      invariant forall j :: 0 <= j < k ==> DumpFits(databases, j, |SitesBody(sites)|)
      invariant m == ManifestOf(hash, sites, databases[..k])
    {
      assert databases[..k + 1][..k] == databases[..k];
      var added, skipped := AddDatabase(w, hash, databases[k]);
      if added.Failure? {
        assert !DumpFits(databases, k, |SitesBody(sites)|);
        return m, Some(added.error);
      }
      DumpAdded(hash, sites, databases, k);
      if skipped {
        m := m.(skipped := m.skipped + [databases[k].name]);
      }
      m := m.(databases := m.databases + added.value);
    }
    assert databases[..|databases|] == databases;
    return m, None;
  }

  lemma EmptyManifest(hash: bytes -> string)
    ensures ManifestOf(hash, [], []) == Manifest(MANIFEST_VERSION, [], [], [], 0, 0, [])
  {
  }

  lemma SiteAdded(hash: bytes -> string, sites: seq<SiteInput>, k: nat)
    requires k < |sites|
    ensures var m, r := ManifestOf(hash, sites[..k], []), SiteRecord(hash, sites[k]);
            ManifestOf(hash, sites[..k + 1], []) == m.(
              sites := m.sites + [r], files := m.files + MembersOf(hash, SiteBody(sites[k])),
              fileCount := m.fileCount + r.fileCount, fileBytes := m.fileBytes + r.bytes)
  {
    hide SiteBody, SitePrefix, MembersOf, ContentBytes, Checksummed;
    assert sites[..k + 1][..k] == sites[..k];
    TotalsAppend(hash, SitesBody(sites[..k]), SiteBody(sites[k]));
  }

  lemma DumpAdded(hash: bytes -> string, sites: seq<SiteInput>, databases: seq<DatabaseInput>, k: nat)
    requires k < |databases|
    ensures var m, d := ManifestOf(hash, sites, databases[..k]), databases[k];
            ManifestOf(hash, sites, databases[..k + 1]) == m.(
              databases := m.databases + DumpRecord(hash, d),
              skipped := m.skipped + if d.dump.NoDumper? then [d.name] else [])
  {
    hide SitesBody, SiteRecords, MembersOf, ContentBytes, Checksummed, DumpRecord;
    assert databases[..k + 1][..k] == databases[..k];
  }

  lemma DumpRecordMade(hash: bytes -> string, d: DatabaseInput)
    ensures DumpRecord(hash, d) != [] <==> d.dump.Dumped?
  {
    hide DumpPath;
  }

  lemma {:induction false} DumpRecordsMade(hash: bytes -> string, databases: seq<DatabaseInput>)
    ensures DumpRecords(hash, databases) != [] <==> exists k :: 0 <= k < |databases| && databases[k].dump.Dumped?
    decreases |databases|
  {
    hide DumpRecord;
    if databases != [] {
      var n := |databases| - 1;
      var front := databases[..n];
      DumpRecordsMade(hash, front);
      DumpRecordMade(hash, databases[n]);
      assert forall k :: 0 <= k < n ==> front[k] == databases[k];
    }
  }

  lemma RecordsMade(hash: bytes -> string, sites: seq<SiteInput>, databases: seq<DatabaseInput>)
    ensures var m := ManifestOf(hash, sites, databases);
            && (m.sites == [] <==> sites == [])
            && (m.databases != [] <==> exists k :: 0 <= k < |databases| && databases[k].dump.Dumped?)
  {
    hide SiteRecord, SitesBody, Skipped, DumpRecords;
    DumpRecordsMade(hash, databases);
  }

  lemma {:induction false} ChecksummedAppend(a: seq<Member>, b: seq<Member>)
    ensures Checksummed(a + b) == Checksummed(a) + Checksummed(b)
  {
    if a == [] {
      assert a + b == b;
    } else {
      ChecksummedAppend(a[1..], b);
      assert (a + b)[0] == a[0] && (a + b)[1..] == a[1..] + b;
    }
  }

  lemma TotalsAppend(hash: bytes -> string, a: seq<Entry>, b: seq<Entry>)
    ensures MembersOf(hash, a + b) == MembersOf(hash, a) + MembersOf(hash, b)
    ensures ContentBytes(a + b) == ContentBytes(a) + ContentBytes(b)
    ensures Checksummed(MembersOf(hash, a + b)) == Checksummed(MembersOf(hash, a)) + Checksummed(MembersOf(hash, b))
  {
    MembersAppend(hash, a, b);
    ChecksummedAppend(MembersOf(hash, a), MembersOf(hash, b));
  }
}
