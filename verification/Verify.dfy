// Checking an archive against its manifest, and taking one member out of it:
// agent/internal/backup/verify.go and restore.go.
module Verify {
  import opened Wrappers
  import opened Bytes
  import opened Paths
  import opened Disk
  import opened Archive
  import opened Restore
  import opened Parts

  const MANIFEST_VERSION: int := 1
  const MAX_MANIFEST_BYTES: nat := 0x400_0000

  datatype DatabaseMember = DatabaseMember(engine: string, name: string, path: string, size: nat, checksum: string)

  datatype SiteEntry = SiteEntry(domain: string, prefix: string, fileCount: nat, bytes: nat)

  // What an archive says it holds.
  datatype Manifest = Manifest(version: int, sites: seq<SiteEntry>, databases: seq<DatabaseMember>,
                               files: seq<Member>, fileCount: nat, fileBytes: nat, skipped: seq<string>)

  const NO_MANIFEST: Manifest := Manifest(0, [], [], [], 0, 0, [])

  // SHA-256 in hexadecimal, and JSON. Decoding writes over a manifest already read; None is unreadable.
  datatype Codec = Codec(hash: bytes -> string, encode: Manifest -> bytes, decode: (bytes, Manifest) -> Option<Manifest>)

  datatype VerifyError = Malformed | Oversized | BadName(error: MemberError)

  /**** One pass over the entries ****/

  datatype Scan = Scan(seen: map<string, Member>, manifest: Manifest, have: bool, count: nat)

  const FRESH: Scan := Scan(map[], NO_MANIFEST, false, 0)

  function SeenAs(hash: bytes -> string, e: Entry): Member {
    if e.kind.Regular? then Member(e.name, e.size(), hash(e.content), 0, "") else Member(e.name, 0, "", 0, e.link)
  }

  function ReadManifest(c: Codec, s: Scan, e: Entry): Result<Scan, VerifyError> {
    if e.size() > MAX_MANIFEST_BYTES then Failure(Oversized)
    else
      var m := c.decode(e.content, s.manifest);
      if m.None? || m.value.version <= 0 then Failure(Malformed)
      else Success(s.(manifest := m.value, have := true))
  }

  function ScanEntry(c: Codec, s: Scan, e: Entry): Result<Scan, VerifyError> {
    var counted := s.(count := s.count + 1);
    if counted.count > MAX_MEMBERS then Failure(Oversized)
    else if CheckMemberName(e.name).Some? then Failure(BadName(CheckMemberName(e.name).value))
    else if e.name == MANIFEST_NAME then ReadManifest(c, counted, e)
    else if e.kind.Regular? && e.size() > MAX_MEMBER_BYTES then Failure(Oversized)
    else Success(counted.(seen := s.seen[e.name := SeenAs(c.hash, e)]))
  }

  function ScanEntries(c: Codec, s: Scan, entries: seq<Entry>): Result<Scan, VerifyError>
    decreases |entries|
  {
    if entries == [] then Success(s)
    else
      var r := ScanEntry(c, s, entries[0]);
      if r.Failure? then r else ScanEntries(c, r.value, entries[1..])
  }

  /**** The comparison with the manifest ****/

  datatype Problem = Missing(path: string) | WrongSize(path: string) | WrongChecksum(path: string)

  function FileProblem(seen: map<string, Member>, declared: Member): seq<Problem> {
    if declared.checksum == "" then []
    else if declared.path !in seen then [Missing(declared.path)]
    else if seen[declared.path].size != declared.size then [WrongSize(declared.path)]
    else if seen[declared.path].checksum != declared.checksum then [WrongChecksum(declared.path)]
    else []
  }

  function DatabaseProblem(seen: map<string, Member>, declared: DatabaseMember): seq<Problem> {
    if declared.path !in seen then [Missing(declared.path)]
    else if seen[declared.path].checksum != declared.checksum then [WrongChecksum(declared.path)]
    else []
  }

  function FileProblems(seen: map<string, Member>, files: seq<Member>): seq<Problem> {
    if files == [] then [] else FileProblems(seen, files[..|files| - 1]) + FileProblem(seen, files[|files| - 1])
  }

  function DatabaseProblems(seen: map<string, Member>, databases: seq<DatabaseMember>): seq<Problem> {
    if databases == [] then []
    else DatabaseProblems(seen, databases[..|databases| - 1]) + DatabaseProblem(seen, databases[|databases| - 1])
  }

  const MAX_PROBLEMS: nat := 10

  datatype Detail = Fine | NewerVersion | Faults(shown: seq<Problem>, more: nat)

  function DetailOf(problems: seq<Problem>): Detail {
    if problems == [] then Fine
    else if |problems| > MAX_PROBLEMS then Faults(problems[..MAX_PROBLEMS], |problems| - MAX_PROBLEMS)
    else Faults(problems, 0)
  }

  datatype Report = Report(manifest: Manifest, members: nat, detail: Detail)

  function Judged(s: Scan): Report {
    if s.manifest.version > MANIFEST_VERSION then Report(s.manifest, s.count, NewerVersion)
    else
      Report(s.manifest, s.count,
             DetailOf(FileProblems(s.seen, s.manifest.files) + DatabaseProblems(s.seen, s.manifest.databases)))
  }

  function Verified(c: Codec, archive: Option<Source>): Result<Report, VerifyError> {
    if archive.None? then Failure(Malformed)
    else
      var r := ScanEntries(c, FRESH, archive.value.entries);
      if r.Failure? then Failure(r.error)
      else if !archive.value.sound || !r.value.have then Failure(Malformed)
      else Success(Judged(r.value))
  }

  method VerifyMembers(c: Codec, archive: Option<Source>) returns (r: Result<Report, VerifyError>)
    ensures r == Verified(c, archive)
  {
    hide CheckMemberName, DetailOf;
    if archive.None? {
      return Failure(Malformed);
    }
    var entries := archive.value.entries;
    var seen: map<string, Member> := map[];
    var manifest, have, count := NO_MANIFEST, false, 0;
    for k := 0 to |entries|
      invariant ScanEntries(c, Scan(seen, manifest, have, count), entries[k..]) == ScanEntries(c, FRESH, entries)
    {
      var e := entries[k];
      assert entries[k..][0] == e && entries[k..][1..] == entries[k + 1..];
      count := count + 1;
      if count > MAX_MEMBERS {
        return Failure(Oversized);
      }
      var wrong := CheckMemberName(e.name);
      if wrong.Some? {
        return Failure(BadName(wrong.value));
      }
      if e.name == MANIFEST_NAME {
        if e.size() > MAX_MANIFEST_BYTES {
          return Failure(Oversized);
        }
        var decoded := c.decode(e.content, manifest);
        if decoded.None? || decoded.value.version <= 0 {
          return Failure(Malformed);
        }
        manifest, have := decoded.value, true;
        continue;
      }
      if e.kind.Regular? {
        if e.size() > MAX_MEMBER_BYTES {
          return Failure(Oversized);
        }
        seen := seen[e.name := Member(e.name, e.size(), c.hash(e.content), 0, "")];
      } else {
        seen := seen[e.name := Member(e.name, 0, "", 0, e.link)];
      }
    }
    assert entries[|entries|..] == [];
    if !archive.value.sound || !have {
      return Failure(Malformed);
    }
    if manifest.version > MANIFEST_VERSION {
      return Success(Report(manifest, count, NewerVersion));
    }
    var files := CompareFiles(seen, manifest.files);
    var databases := CompareDatabases(seen, manifest.databases);
    return Success(Report(manifest, count, DetailOf(files + databases)));
  }

  method CompareFiles(seen: map<string, Member>, files: seq<Member>) returns (problems: seq<Problem>)
    ensures problems == FileProblems(seen, files)
  {
    problems := [];
    for k := 0 to |files|
      invariant problems == FileProblems(seen, files[..k])
    {
      var declared := files[k];
      assert files[..k + 1][..k] == files[..k];
      if declared.checksum == "" {
        continue;
      }
      if declared.path !in seen {
        problems := problems + [Missing(declared.path)];
        continue;
      }
      var actual := seen[declared.path];
      if actual.size != declared.size {
        problems := problems + [WrongSize(declared.path)];
        continue;
      }
      if actual.checksum != declared.checksum {
        problems := problems + [WrongChecksum(declared.path)];
      }
    }
    assert files[..|files|] == files;
  }

  method CompareDatabases(seen: map<string, Member>, databases: seq<DatabaseMember>) returns (problems: seq<Problem>)
    ensures problems == DatabaseProblems(seen, databases)
  {
    problems := [];
    for k := 0 to |databases|
      invariant problems == DatabaseProblems(seen, databases[..k])
    {
      var declared := databases[k];
      assert databases[..k + 1][..k] == databases[..k];
      if declared.path !in seen {
        problems := problems + [Missing(declared.path)];
        continue;
      }
      var actual := seen[declared.path];
      if actual.checksum != declared.checksum {
        problems := problems + [WrongChecksum(declared.path)];
      }
    }
    assert databases[..|databases|] == databases;
  }

  /**** What the pass sees ****/

  // The last and the first entry of a name.
  function LastNamed(entries: seq<Entry>, name: string): (r: Option<Entry>)
    ensures r.Some? ==> r.value in entries && r.value.name == name
    ensures r.None? ==> forall i :: 0 <= i < |entries| ==> entries[i].name != name
  {
    if entries == [] then None
    else if entries[|entries| - 1].name == name then Some(entries[|entries| - 1])
    else LastNamed(entries[..|entries| - 1], name)
  }

  function FirstNamed(entries: seq<Entry>, name: string): (r: Option<Entry>)
    ensures r.Some? ==> r.value in entries && r.value.name == name
    ensures r.None? ==> forall i :: 0 <= i < |entries| ==> entries[i].name != name
  {
    if entries == [] then None
    else if entries[0].name == name then Some(entries[0])
    else FirstNamed(entries[1..], name)
  }

  ghost predicate DistinctEntries(entries: seq<Entry>) {
    forall i, j :: 0 <= i < j < |entries| ==> entries[i].name != entries[j].name
  }

  lemma {:induction false} LastNamedPush(e: Entry, entries: seq<Entry>, name: string)
    ensures LastNamed([e] + entries, name)
         == if LastNamed(entries, name).Some? then LastNamed(entries, name) else if e.name == name then Some(e) else None
    decreases |entries|
  {
    var all := [e] + entries;
    if entries == [] {
      assert all == [e] && all[..0] == [];
    } else {
      assert all[..|all| - 1] == [e] + entries[..|entries| - 1];
      LastNamedPush(e, entries[..|entries| - 1], name);
    }
  }

  // What an accepted pass over `entries` adds to what was seen: the last entry of each name but the
  // manifest's.
  ghost predicate SeenAfter(hash: bytes -> string, before: map<string, Member>, entries: seq<Entry>, after: map<string, Member>) {
    forall name :: if name != MANIFEST_NAME && LastNamed(entries, name).Some?
      then name in after && after[name] == SeenAs(hash, LastNamed(entries, name).value)
      else (name in after <==> name in before) && (name in before ==> after[name] == before[name])
  }

  lemma {:induction false} ScanSeesLast(c: Codec, s: Scan, entries: seq<Entry>)
    requires ScanEntries(c, s, entries).Success?
    ensures var s' := ScanEntries(c, s, entries).value;
            SeenAfter(c.hash, s.seen, entries, s'.seen) && s'.count == s.count + |entries|
    decreases |entries|
  {
    hide CheckMemberName, SeenAfter, LastNamed, SeenAs, ReadManifest;
    if entries == [] {
      NothingSeen(c.hash, s.seen);
    } else {
      var s1 := ScanEntry(c, s, entries[0]).value;
      ScanSeesLast(c, s1, entries[1..]);
      OneSeen(c, s, entries[0], s1.seen);
      SeenTogether(c.hash, s.seen, entries, s1.seen, ScanEntries(c, s, entries).value.seen);
    }
  }

  lemma NothingSeen(hash: bytes -> string, seen: map<string, Member>)
    ensures SeenAfter(hash, seen, [], seen)
  {
  }

  // One entry's effect on what was seen.
  lemma OneSeen(c: Codec, s: Scan, e: Entry, seen: map<string, Member>)
    requires ScanEntry(c, s, e).Success? && seen == ScanEntry(c, s, e).value.seen
    ensures e.name == MANIFEST_NAME ==> seen == s.seen
    ensures e.name != MANIFEST_NAME ==> seen == s.seen[e.name := SeenAs(c.hash, e)]
    ensures ScanEntry(c, s, e).value.count == s.count + 1
  {
    hide CheckMemberName, SeenAs;
  }

  lemma SeenTogether(hash: bytes -> string, before: map<string, Member>, entries: seq<Entry>,
                     middle: map<string, Member>, after: map<string, Member>)
    requires entries != [] && SeenAfter(hash, middle, entries[1..], after)
    requires middle == if entries[0].name == MANIFEST_NAME then before else before[entries[0].name := SeenAs(hash, entries[0])]
    ensures SeenAfter(hash, before, entries, after)
  {
    hide LastNamed, SeenAs;
    assert entries == [entries[0]] + entries[1..];
    forall name
      ensures if name != MANIFEST_NAME && LastNamed(entries, name).Some?
        then name in after && after[name] == SeenAs(hash, LastNamed(entries, name).value)
        else (name in after <==> name in before) && (name in before ==> after[name] == before[name])
    {
      LastNamedPush(entries[0], entries[1..], name);
    }
  }

  // A name met once is both the first and the last of that name.
  lemma {:induction false} LastOfDistinct(entries: seq<Entry>, i: nat)
    requires DistinctEntries(entries) && i < |entries|
    ensures LastNamed(entries, entries[i].name) == Some(entries[i])
    ensures FirstNamed(entries, entries[i].name) == Some(entries[i])
  {
    hide DistinctEntries;
    LastOfDistinctAt(entries, i);
    FirstOfDistinctAt(entries, i);
  }

  lemma {:induction false} LastOfDistinctAt(entries: seq<Entry>, i: nat)
    requires DistinctEntries(entries) && i < |entries|
    ensures LastNamed(entries, entries[i].name) == Some(entries[i])
    decreases |entries|
  {
    var n := |entries| - 1;
    if i < n {
      LastOfDistinctAt(entries[..n], i);
    }
  }

  lemma {:induction false} FirstOfDistinctAt(entries: seq<Entry>, i: nat)
    requires DistinctEntries(entries) && i < |entries|
    ensures FirstNamed(entries, entries[i].name) == Some(entries[i])
    decreases |entries|
  {
    if i > 0 {
      assert DistinctEntries(entries[1..]);
      FirstOfDistinctAt(entries[1..], i - 1);
    }
  }

  /**** What no problem means ****/

  // The last entry of the declared name is a file of the declared size whose content hashes to the
  // declared checksum.
  ghost predicate FileHolds(hash: bytes -> string, entries: seq<Entry>, declared: Member) {
    var last := LastNamed(entries, declared.path);
    && declared.path != MANIFEST_NAME && last.Some? && last.value.kind.Regular?
    && last.value.size() == declared.size && hash(last.value.content) == declared.checksum
  }

  ghost predicate DatabaseHolds(hash: bytes -> string, entries: seq<Entry>, declared: DatabaseMember) {
    var last := LastNamed(entries, declared.path);
    && declared.path != MANIFEST_NAME && last.Some?
    && (if last.value.kind.Regular? then hash(last.value.content) == declared.checksum else declared.checksum == "")
  }

  ghost predicate ManifestHolds(hash: bytes -> string, entries: seq<Entry>, m: Manifest) {
    && (forall i :: 0 <= i < |m.files| && m.files[i].checksum != "" ==> FileHolds(hash, entries, m.files[i]))
    && (forall i :: 0 <= i < |m.databases| ==> DatabaseHolds(hash, entries, m.databases[i]))
  }

  lemma FileProblemNone(hash: bytes -> string, entries: seq<Entry>, seen: map<string, Member>, declared: Member)
    requires SeenAfter(hash, map[], entries, seen)
    ensures FileProblem(seen, declared) == [] <==> (declared.checksum != "" ==> FileHolds(hash, entries, declared))
  {
    hide LastNamed;
  }

  lemma DatabaseProblemNone(hash: bytes -> string, entries: seq<Entry>, seen: map<string, Member>, declared: DatabaseMember)
    requires SeenAfter(hash, map[], entries, seen)
    ensures DatabaseProblem(seen, declared) == [] <==> DatabaseHolds(hash, entries, declared)
  {
    hide LastNamed;
  }

  lemma {:induction false} FileProblemsNone(hash: bytes -> string, entries: seq<Entry>, seen: map<string, Member>, files: seq<Member>)
    requires SeenAfter(hash, map[], entries, seen)
    ensures FileProblems(seen, files) == [] <==>
              forall i :: 0 <= i < |files| && files[i].checksum != "" ==> FileHolds(hash, entries, files[i])
    decreases |files|
  {
    hide SeenAfter, FileHolds, FileProblem;
    if files != [] {
      var n := |files| - 1;
      FileProblemsNone(hash, entries, seen, files[..n]);
      FileProblemNone(hash, entries, seen, files[n]);
    }
  }

  lemma {:induction false} DatabaseProblemsNone(hash: bytes -> string, entries: seq<Entry>, seen: map<string, Member>,
                                                databases: seq<DatabaseMember>)
    requires SeenAfter(hash, map[], entries, seen)
    ensures DatabaseProblems(seen, databases) == [] <==>
              forall i :: 0 <= i < |databases| ==> DatabaseHolds(hash, entries, databases[i])
    decreases |databases|
  {
    hide SeenAfter, DatabaseHolds, DatabaseProblem;
    if databases != [] {
      var n := |databases| - 1;
      DatabaseProblemsNone(hash, entries, seen, databases[..n]);
      DatabaseProblemNone(hash, entries, seen, databases[n]);
    }
  }

  // A report without problems says the same as the manifest holding, in a version this agent reads.
  lemma FineMeansManifestHolds(c: Codec, archive: Source)
    requires Verified(c, Some(archive)).Success?
    ensures var report := Verified(c, Some(archive)).value;
            report.detail.Fine? <==>
              report.manifest.version <= MANIFEST_VERSION && ManifestHolds(c.hash, archive.entries, report.manifest)
  {
    hide ScanEntries, SeenAfter, FileProblems, DatabaseProblems, FileHolds, DatabaseHolds;
    ScanSeesLast(c, FRESH, archive.entries);
    var s := ScanEntries(c, FRESH, archive.entries).value;
    FileProblemsNone(c.hash, archive.entries, s.seen, s.manifest.files);
    DatabaseProblemsNone(c.hash, archive.entries, s.seen, s.manifest.databases);
  }

  /**** extractMember ****/

  const MEMBER_MODE: nat := 384

  function Extracted(s: State, archive: Option<Source>, name: string, destination: Path): (State, bool) {
    if archive.None? then (s, false)
    else
      var found := FirstNamed(archive.value.entries, name);
      if found.None? || found.value.size() > MAX_MEMBER_BYTES then (s, false)
      else WriteMember(s, destination, MEMBER_MODE, found.value.content)
  }

  method ExtractMember(host: Host, archive: Option<Source>, name: string, destination: Path) returns (ok: bool)
    modifies host
    ensures (host.Now(), ok) == Extracted(old(host.Now()), archive, name, destination)
  {
    hide WriteNew;
    if archive.None? {
      return false;
    }
    var entries := archive.value.entries;
    for k := 0 to |entries|
      invariant host.Now() == old(host.Now())
      invariant FirstNamed(entries[k..], name) == FirstNamed(entries, name)
    {
      assert entries[k..][0] == entries[k] && entries[k..][1..] == entries[k + 1..];
      if entries[k].name != name {
        continue;
      }
      if entries[k].size() > MAX_MEMBER_BYTES {
        return false;
      }
      ok := host.WriteNewAt(destination, FileMode(MEMBER_MODE), entries[k].content);
      return;
    }
    return false;
  }

  // A dump taken out of a verified archive is the dump declared exactly when the first and the last entry
  // of its name have contents of one checksum, whatever other names are repeated.
  lemma ExtractedIsDeclared(c: Codec, archive: Source, s: State, declared: DatabaseMember, destination: Path)
    requires Verified(c, Some(archive)).Success? && Verified(c, Some(archive)).value.detail.Fine?
    requires declared in Verified(c, Some(archive)).value.manifest.databases && declared.checksum != ""
    requires Extracted(s, Some(archive), declared.path, destination).1
    ensures var fs := Extracted(s, Some(archive), declared.path, destination).0.fs;
            var first, last := FirstNamed(archive.entries, declared.path), LastNamed(archive.entries, declared.path);
            && first.Some? && last.Some? && destination in fs && fs[destination] == FileNode(MEMBER_MODE, first.value.content)
            && (c.hash(fs[destination].content) == declared.checksum <==> c.hash(first.value.content) == c.hash(last.value.content))
  {
    hide Verified, LastNamed, FirstNamed;
    FineMeansManifestHolds(c, archive);
    var databases := Verified(c, Some(archive)).value.manifest.databases;
    var k :| 0 <= k < |databases| && databases[k] == declared;
    assert DatabaseHolds(c.hash, archive.entries, databases[k]);
  }

  // So in a verified archive whose names are distinct it is always the dump declared.
  lemma ExtractedMemberIsVerified(c: Codec, archive: Source, s: State, declared: DatabaseMember, destination: Path)
    requires Verified(c, Some(archive)).Success? && Verified(c, Some(archive)).value.detail.Fine?
    requires declared in Verified(c, Some(archive)).value.manifest.databases && declared.checksum != ""
    requires DistinctEntries(archive.entries) && Extracted(s, Some(archive), declared.path, destination).1
    ensures var fs := Extracted(s, Some(archive), declared.path, destination).0.fs;
            destination in fs && fs[destination].FileNode? && c.hash(fs[destination].content) == declared.checksum
  {
    hide Verified, Extracted, DistinctEntries, LastNamed, FirstNamed;
    ExtractedIsDeclared(c, archive, s, declared, destination);
    var last := LastNamed(archive.entries, declared.path).value;
    var i :| 0 <= i < |archive.entries| && archive.entries[i] == last;
    LastOfDistinct(archive.entries, i);
  }

  // With a name repeated, the pass sees the last entry and the extraction takes the first: an archive
  // can verify and give back something else than what was declared.
  lemma RepeatedNameEscapesVerification(c: Codec, s: State, destination: Path, good: bytes, other: bytes)
    requires s.faults == [] && CanCreate(s.fs, destination)
    requires c.hash(other) != c.hash(good) && c.hash(good) != "" && |good| <= MAX_MEMBER_BYTES && |other| <= MAX_MEMBER_BYTES
    requires var m := Repeated(c, good);
             |c.encode(m)| <= MAX_MANIFEST_BYTES && c.decode(c.encode(m), NO_MANIFEST) == Some(m)
    ensures var declared := Repeated(c, good).databases[0];
            var archive := Source([Entry("d.sql", Regular, 384, "", other), Entry("d.sql", Regular, 384, "", good),
                                   Entry(MANIFEST_NAME, Regular, 384, "", c.encode(Repeated(c, good)))], true);
            && Verified(c, Some(archive)) == Success(Report(Repeated(c, good), 3, Fine))
            && var (s', ok) := Extracted(s, Some(archive), declared.path, destination);
               ok && destination in s'.fs && s'.fs[destination] == FileNode(384, other)
               && c.hash(other) != declared.checksum
  {
    hide WriteNew, CheckMemberName;
    var m := Repeated(c, good);
    var first, second := Entry("d.sql", Regular, 384, "", other), Entry("d.sql", Regular, 384, "", good);
    var last := Entry(MANIFEST_NAME, Regular, 384, "", c.encode(m));
    var entries := [first, second, last];
    PlainNames();
    var s1 := Scan(map["d.sql" := SeenAs(c.hash, first)], NO_MANIFEST, false, 1);
    var s2 := Scan(map["d.sql" := SeenAs(c.hash, second)], NO_MANIFEST, false, 2);
    var s3 := s2.(manifest := m, have := true, count := 3);
    assert ScanEntry(c, FRESH, first) == Success(s1);
    assert ScanEntry(c, s1, second) == Success(s2) by {
      assert s1.seen["d.sql" := SeenAs(c.hash, second)] == s2.seen;
    }
    assert ScanEntry(c, s2, last) == Success(s3);
    ScanOfThree(c, FRESH, first, second, last);
    assert Judged(s3) == Report(m, 3, Fine) by {
      assert m.databases[..0] == [];
      assert DatabaseProblems(s3.seen, m.databases) == DatabaseProblems(s3.seen, []) + DatabaseProblem(s3.seen, m.databases[0]);
    }
    WrittenWhenNew(s, destination, other);
  }

  function Repeated(c: Codec, good: bytes): Manifest {
    Manifest(1, [], [DatabaseMember("mysql", "d", "d.sql", |good|, c.hash(good))], [], 0, 0, [])
  }

  lemma ScanOfThree(c: Codec, s: Scan, a: Entry, b: Entry, d: Entry)
    requires ScanEntry(c, s, a).Success? && ScanEntry(c, ScanEntry(c, s, a).value, b).Success?
    ensures ScanEntries(c, s, [a, b, d]) == ScanEntry(c, ScanEntry(c, ScanEntry(c, s, a).value, b).value, d)
  {
    hide ScanEntry;
    var s1 := ScanEntry(c, s, a).value;
    var s2 := ScanEntry(c, s1, b).value;
    assert [a, b, d][1..] == [b, d];
    assert [b, d][1..] == [d];
    assert [d][1..] == [];
    assert ScanEntries(c, s2, [d]) == ScanEntry(c, s2, d);
    assert ScanEntries(c, s1, [b, d]) == ScanEntries(c, s2, [d]);
  }

  lemma WrittenWhenNew(s: State, destination: Path, content: bytes)
    requires s.faults == [] && CanCreate(s.fs, destination)
    ensures WriteMember(s, destination, MEMBER_MODE, content) == (State(s.fs[destination := FileNode(384, content)], []), true)
  {
  }

  lemma PlainNames()
    ensures CheckMemberName("d.sql").None? && CheckMemberName(MANIFEST_NAME).None?
  {
    hide Split;
    PlainName("d.sql");
    PlainName(MANIFEST_NAME);
  }

  lemma PlainName(name: string)
    requires ProperSegment(name) && '\\' !in name && '\0' !in name
    ensures CheckMemberName(name).None?
  {
    hide Split;
    TrimmingKeepsDotDot(name);
    SplitOfFree(name, '/');
  }
}
