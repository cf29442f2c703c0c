// What a verification says of an archive, in terms of the archive's entries alone
// (agent/internal/backup/verify.go).
module VerifyReports {
  import opened Wrappers
  import opened Bytes
  import opened Paths
  import opened Archive
  import opened Verify

  /**** Which archives are read to the end ****/

  // The manifest as it stands after these entries, a later one being read over an earlier one.
  function ManifestSoFar(c: Codec, entries: seq<Entry>): Manifest {
    if entries == [] then NO_MANIFEST
    else
      var before, e := ManifestSoFar(c, entries[..|entries| - 1]), entries[|entries| - 1];
      if e.name == MANIFEST_NAME && c.decode(e.content, before).Some? then c.decode(e.content, before).value else before
  }

  ghost predicate HasManifest(entries: seq<Entry>) {
    exists i :: 0 <= i < |entries| && entries[i].name == MANIFEST_NAME
  }

  // Whether the manifest at a place is one that can be read.
  ghost predicate ManifestReads(c: Codec, entries: seq<Entry>, i: nat)
    requires i < |entries|
  {
    var m := c.decode(entries[i].content, ManifestSoFar(c, entries[..i]));
    m.Some? && m.value.version > 0
  }

  function SizeLimit(e: Entry): nat {
    if e.name == MANIFEST_NAME then MAX_MANIFEST_BYTES else MAX_MEMBER_BYTES
  }

  ghost predicate TooBig(entries: seq<Entry>, i: nat)
    requires i < |entries|
  {
    i >= MAX_MEMBERS || ((entries[i].name == MANIFEST_NAME || entries[i].kind.Regular?) && entries[i].size() > SizeLimit(entries[i]))
  }

  // An entry that the pass goes over.
  ghost predicate ReadAt(c: Codec, entries: seq<Entry>, i: nat)
    requires i < |entries|
  {
    && CheckMemberName(entries[i].name).None? && !TooBig(entries, i)
    && (entries[i].name == MANIFEST_NAME ==> ManifestReads(c, entries, i))
  }

  // What an error says of the entry the pass stopped at.
  ghost predicate StoppedAt(c: Codec, entries: seq<Entry>, i: nat, error: VerifyError)
    requires i < |entries|
  {
    match error
    case BadName(e) => CheckMemberName(entries[i].name) == Some(e)
    case Oversized => TooBig(entries, i)
    case Malformed => entries[i].name == MANIFEST_NAME && !ManifestReads(c, entries, i)
  }

  // The scan stands after so many entries.
  ghost predicate StandsAt(c: Codec, s: Scan, entries: seq<Entry>, k: nat)
    requires k <= |entries|
  {
    s.manifest == ManifestSoFar(c, entries[..k]) && s.count == k && (s.have <==> HasManifest(entries[..k]))
  }

  lemma OneRead(c: Codec, s: Scan, entries: seq<Entry>, k: nat)
    requires k < |entries| && StandsAt(c, s, entries, k)
    ensures var r := ScanEntry(c, s, entries[k]);
            && (r.Success? <==> ReadAt(c, entries, k))
            && (r.Success? ==> StandsAt(c, r.value, entries, k + 1))
            && (r.Failure? ==> StoppedAt(c, entries, k, r.error))
  {
    hide CheckMemberName, SeenAs, HasManifest;
    assert entries[..k + 1][..k] == entries[..k];
    ManifestMet(entries, k);
  }

  lemma ManifestMet(entries: seq<Entry>, k: nat)
    requires k < |entries|
    ensures HasManifest(entries[..k + 1]) <==> HasManifest(entries[..k]) || entries[k].name == MANIFEST_NAME
  {
    var all := entries[..k + 1];
    assert all[k] == entries[k];
    assert forall i :: 0 <= i < k ==> all[i] == entries[..k][i];
    if HasManifest(entries[..k]) {
      var i :| 0 <= i < k && entries[..k][i].name == MANIFEST_NAME;
      assert all[i].name == MANIFEST_NAME;
    }
  }

  lemma {:induction false} PassFrom(c: Codec, s: Scan, entries: seq<Entry>, k: nat) returns (at: nat)
    requires k <= |entries| && StandsAt(c, s, entries, k)
    ensures var r := ScanEntries(c, s, entries[k..]);
            && (r.Success? <==> forall i :: k <= i < |entries| ==> ReadAt(c, entries, i))
            && (r.Success? ==> StandsAt(c, r.value, entries, |entries|))
            && (r.Failure? ==> k <= at < |entries| && StoppedAt(c, entries, at, r.error)
                               && forall i :: k <= i < at ==> ReadAt(c, entries, i))
    decreases |entries| - k
  {
    hide ScanEntry, StandsAt, ReadAt, StoppedAt;
    at := k;
    if k < |entries| {
      assert entries[k..][0] == entries[k] && entries[k..][1..] == entries[k + 1..];
      OneRead(c, s, entries, k);
      var r := ScanEntry(c, s, entries[k]);
      if r.Success? {
        at := PassFrom(c, r.value, entries, k + 1);
      }
    }
  }

  lemma StandsFresh(c: Codec, entries: seq<Entry>)
    ensures StandsAt(c, FRESH, entries, 0) && entries[0..] == entries
  {
    assert entries[..0] == [];
  }

  // An archive is judged exactly when its stream is sound, a manifest is among its entries, every entry has an
  // acceptable name and size, there are not too many, and every manifest can be read.
  lemma VerifiedReads(c: Codec, archive: Source)
    ensures Verified(c, Some(archive)).Success? <==>
              && archive.sound && HasManifest(archive.entries)
              && forall i :: 0 <= i < |archive.entries| ==> ReadAt(c, archive.entries, i)
    ensures Verified(c, Some(archive)).Success? ==>
              var report := Verified(c, Some(archive)).value;
              report.manifest == ManifestSoFar(c, archive.entries) && report.members == |archive.entries|
  {
    hide ScanEntries, ReadAt, HasManifest, ManifestSoFar, DetailOf, FileProblems, DatabaseProblems;
    StandsFresh(c, archive.entries);
    var _ := PassFrom(c, FRESH, archive.entries, 0);
    assert archive.entries[..|archive.entries|] == archive.entries;
  }

  // Otherwise the error is that of the first entry that cannot be read, or is about the stream as a whole.
  lemma RefusalTells(c: Codec, archive: Source) returns (at: nat)
    requires Verified(c, Some(archive)).Failure?
    ensures at <= |archive.entries| && forall i :: 0 <= i < at ==> ReadAt(c, archive.entries, i)
    ensures at < |archive.entries| ==> StoppedAt(c, archive.entries, at, Verified(c, Some(archive)).error)
    ensures at == |archive.entries| ==>
              Verified(c, Some(archive)).error == Malformed && (!archive.sound || !HasManifest(archive.entries))
  {
    hide ScanEntries, ReadAt, StoppedAt, HasManifest, ManifestSoFar;
    StandsFresh(c, archive.entries);
    at := PassFrom(c, FRESH, archive.entries, 0);
    assert archive.entries[..|archive.entries|] == archive.entries;
    if ScanEntries(c, FRESH, archive.entries).Success? {
      at := |archive.entries|;
    }
  }

  /**** What the report lists ****/

  // The entry a declaration is compared with: the last of its name, and never the manifest.
  function Compared(entries: seq<Entry>, path: string): Option<Entry> {
    if path == MANIFEST_NAME then None else LastNamed(entries, path)
  }

  // Only a file has content of its own.
  function ContentSize(e: Entry): nat {
    if e.kind.Regular? then |e.content| else 0
  }

  function ContentHash(hash: bytes -> string, e: Entry): string {
    if e.kind.Regular? then hash(e.content) else ""
  }

  // What there is to say of one declaration. The size of a dump is not compared.
  function Complaint(hash: bytes -> string, entries: seq<Entry>, path: string, size: Option<nat>, checksum: string): seq<Problem> {
    match Compared(entries, path)
    case None => [Missing(path)]
    case Some(e) =>
      if size.Some? && ContentSize(e) != size.value then [WrongSize(path)]
      else if ContentHash(hash, e) != checksum then [WrongChecksum(path)]
      else []
  }

  function FileComplaints(hash: bytes -> string, entries: seq<Entry>, files: seq<Member>): seq<Problem> {
    if files == [] then []
    else
      var d := files[0];
      (if d.checksum == "" then [] else Complaint(hash, entries, d.path, Some(d.size), d.checksum))
      + FileComplaints(hash, entries, files[1..])
  }

  function DatabaseComplaints(hash: bytes -> string, entries: seq<Entry>, databases: seq<DatabaseMember>): seq<Problem> {
    if databases == [] then []
    else
      var d := databases[0];
      Complaint(hash, entries, d.path, None, d.checksum) + DatabaseComplaints(hash, entries, databases[1..])
  }

  lemma {:induction false} FileComplaintsPush(hash: bytes -> string, entries: seq<Entry>, files: seq<Member>, d: Member)
    ensures FileComplaints(hash, entries, files + [d])
         == FileComplaints(hash, entries, files)
            + (if d.checksum == "" then [] else Complaint(hash, entries, d.path, Some(d.size), d.checksum))
  {
    hide Complaint;
    var all := files + [d];
    if files == [] {
      assert all[0] == d && all[1..] == [];
    } else {
      assert all[0] == files[0] && all[1..] == files[1..] + [d];
      FileComplaintsPush(hash, entries, files[1..], d);
    }
  }

  lemma {:induction false} DatabaseComplaintsPush(hash: bytes -> string, entries: seq<Entry>, databases: seq<DatabaseMember>, d: DatabaseMember)
    ensures DatabaseComplaints(hash, entries, databases + [d])
         == DatabaseComplaints(hash, entries, databases) + Complaint(hash, entries, d.path, None, d.checksum)
  {
    hide Complaint;
    var all := databases + [d];
    if databases == [] {
      assert all[0] == d && all[1..] == [];
    } else {
      assert all[0] == databases[0] && all[1..] == databases[1..] + [d];
      DatabaseComplaintsPush(hash, entries, databases[1..], d);
    }
  }

  lemma FileProblemTells(hash: bytes -> string, entries: seq<Entry>, seen: map<string, Member>, d: Member)
    requires SeenAfter(hash, map[], entries, seen)
    ensures FileProblem(seen, d) == if d.checksum == "" then [] else Complaint(hash, entries, d.path, Some(d.size), d.checksum)
  {
    hide LastNamed;
  }

  lemma DatabaseProblemTells(hash: bytes -> string, entries: seq<Entry>, seen: map<string, Member>, d: DatabaseMember)
    requires SeenAfter(hash, map[], entries, seen)
    ensures DatabaseProblem(seen, d) == Complaint(hash, entries, d.path, None, d.checksum)
  {
    hide LastNamed;
  }

  lemma {:induction false} FilesTell(hash: bytes -> string, entries: seq<Entry>, seen: map<string, Member>, files: seq<Member>)
    requires SeenAfter(hash, map[], entries, seen)
    ensures FileProblems(seen, files) == FileComplaints(hash, entries, files)
    decreases |files|
  {
    hide SeenAfter, FileProblem, Complaint;
    if files != [] {
      var n := |files| - 1;
      FilesTell(hash, entries, seen, files[..n]);
      FileProblemTells(hash, entries, seen, files[n]);
      FileComplaintsPush(hash, entries, files[..n], files[n]);
      assert files == files[..n] + [files[n]];
    }
  }

  lemma {:induction false} DatabasesTell(hash: bytes -> string, entries: seq<Entry>, seen: map<string, Member>,
                                         databases: seq<DatabaseMember>)
    requires SeenAfter(hash, map[], entries, seen)
    ensures DatabaseProblems(seen, databases) == DatabaseComplaints(hash, entries, databases)
    decreases |databases|
  {
    hide SeenAfter, DatabaseProblem, Complaint;
    if databases != [] {
      var n := |databases| - 1;
      DatabasesTell(hash, entries, seen, databases[..n]);
      DatabaseProblemTells(hash, entries, seen, databases[n]);
      DatabaseComplaintsPush(hash, entries, databases[..n], databases[n]);
      assert databases == databases[..n] + [databases[n]];
    }
  }

  // The report lists what there is to say of the declared files and then of the declared dumps, each in the
  // manifest's order: the first ten, and how many more there are.
  lemma ReportTells(c: Codec, archive: Source)
    requires Verified(c, Some(archive)).Success?
    ensures var report := Verified(c, Some(archive)).value;
            var said := FileComplaints(c.hash, archive.entries, report.manifest.files)
                        + DatabaseComplaints(c.hash, archive.entries, report.manifest.databases);
            if report.manifest.version > 1 then report.detail.NewerVersion?
            else if said == [] then report.detail.Fine?
            else
              && report.detail.Faults? && report.detail.shown <= said
              && |report.detail.shown| == Min(10, |said|) && report.detail.more == |said| - |report.detail.shown|
  {
    hide ScanEntries, SeenAfter, FileProblems, DatabaseProblems, FileComplaints, DatabaseComplaints;
    var s := ScanEntries(c, FRESH, archive.entries).value;
    ScanSeesLast(c, FRESH, archive.entries);
    FilesTell(c.hash, archive.entries, s.seen, s.manifest.files);
    DatabasesTell(c.hash, archive.entries, s.seen, s.manifest.databases);
  }
}
