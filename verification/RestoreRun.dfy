// A whole restore: nothing is changed before the archive is verified, and what is put back is what
// the manifest declared (agent/internal/backup/restore.go).
module RestoreRun {
  import opened Wrappers
  import opened Bytes
  import opened Text
  import opened Paths
  import opened Disk
  import opened Archive
  import opened Restore
  import opened Verify

  /**** Contents survive the rest of an extraction ****/

  // No file lost its content.
  ghost predicate KeptContent(fs: Files, fs': Files) {
    forall k :: k in fs && fs[k].FileNode? ==> k in fs' && fs'[k].FileNode? && fs'[k].content == fs[k].content
  }

  lemma KeptTrans(a: Files, b: Files, c: Files)
    requires KeptContent(a, b) && KeptContent(b, c)
    ensures KeptContent(a, c)
  {
  }

  lemma KeptRefl(fs: Files)
    ensures KeptContent(fs, fs)
  {
  }

  lemma {:induction false} MakeDirsKeeps(fs: Files, p: Path, mode: nat)
    ensures MakeDirs(fs, p, mode).Some? ==> KeptContent(fs, MakeDirs(fs, p, mode).value)
    decreases |p|
  {
    if p !in fs && p != [] {
      MakeDirsKeeps(fs, p[..|p| - 1], mode);
    }
  }

  lemma MkdirKeepsContent(s: State, p: Path)
    ensures KeptContent(s.fs, MkdirAll(s, p, RESTORED_DIR_MODE).0.fs)
  {
    hide MakeDirs;
    MakeDirsKeeps(s.fs, p, RESTORED_DIR_MODE);
    match NextFault(s)
    case Works =>
    case Fails(amount, _) =>
      MakeDirsKeeps(s.fs, p[..Min(amount, |p|)], RESTORED_DIR_MODE);
  }

  lemma EntryKeeps(p: Progress, e: Entry, relative: string, destination: Path, target: Path)
    ensures var (p1, ok) := ExtractTo(p, e, relative, destination, target);
            && KeptContent(p.disk.fs, p1.disk.fs)
            && (ok && e.kind.Regular? ==>
                  destination in p1.disk.fs && p1.disk.fs[destination] == FileNode(FileMode(Perm(e.mode)), e.content))
  {
    hide MkdirAll, SafeLinkTarget, KeptContent;
    KeptRefl(p.disk.fs);
    MkdirKeepsContent(p.disk, destination);
    var d := MkdirAll(p.disk, Dir(destination), RESTORED_DIR_MODE).0;
    MkdirKeepsContent(p.disk, Dir(destination));
    match e.kind
    case Regular =>
      var d' := WriteMember(d, destination, Perm(e.mode), e.content).0;
      CreatedKeeps(d, FileMode(Perm(e.mode)), destination, e.content, e.link);
      KeptTrans(p.disk.fs, d.fs, d'.fs);
    case Symlink =>
      var d' := MakeLink(d, destination, e.link).0;
      CreatedKeeps(d, 0, destination, e.content, e.link);
      KeptTrans(p.disk.fs, d.fs, d'.fs);
    case _ =>
  }

  lemma CreatedKeeps(s: State, mode: nat, p: Path, content: bytes, target: string)
    ensures KeptContent(s.fs, WriteNew(s, p, mode, content).0.fs) && KeptContent(s.fs, MakeLink(s, p, target).0.fs)
  {
  }

  lemma {:induction false} EntriesKeep(p: Progress, entries: seq<Entry>, prefix: string, target: Path)
    ensures KeptContent(p.disk.fs, ExtractEntries(p, entries, prefix, target).0.disk.fs)
    decreases |entries|
  {
    hide ExtractTo, Relative, SafeMemberPath, KeptContent;
    KeptRefl(p.disk.fs);
    if entries != [] {
      var p1 := ExtractEntry(p, entries[0], prefix, target).0;
      var relative := Relative(entries[0].name, prefix);
      if relative.Some? && SafeMemberPath(target, relative.value).Success? {
        EntryKeeps(p, entries[0], relative.value, SafeMemberPath(target, relative.value).value, target);
      }
      EntriesKeep(p1, entries[1..], prefix, target);
      KeptTrans(p.disk.fs, p1.disk.fs, ExtractEntries(p1, entries[1..], prefix, target).0.disk.fs);
    }
  }

  lemma {:induction false} ModesKeep(s: State, dirs: seq<Pending>)
    ensures KeptContent(s.fs, ApplyModes(s, dirs).0.fs)
    decreases |dirs|
  {
    hide KeptContent;
    KeptRefl(s.fs);
    if dirs != [] {
      var last := dirs[|dirs| - 1];
      var s1 := Chmod(s, last.path, last.mode).0;
      ChmodKeeps(s, last);
      ModesKeep(s1, dirs[..|dirs| - 1]);
      KeptTrans(s.fs, s1.fs, ApplyModes(s1, dirs[..|dirs| - 1]).0.fs);
    }
  }

  lemma ChmodKeeps(s: State, last: Pending)
    ensures KeptContent(s.fs, Chmod(s, last.path, last.mode).0.fs)
  {
  }

  // The file an entry becomes below the target.
  ghost predicate Holds(fs: Files, target: Path, relative: string, content: bytes) {
    var place := SafeMemberPath(target, relative);
    place.Success? && place.value in fs && fs[place.value].FileNode? && fs[place.value].content == content
  }

  lemma HoldsOn(fs: Files, fs': Files, target: Path, relative: string, content: bytes)
    requires KeptContent(fs, fs') && Holds(fs, target, relative, content)
    ensures Holds(fs', target, relative, content)
  {
    hide SafeMemberPath;
  }

  // After a successful extraction every file entry below the prefix is at its place, whatever the
  // other entries were.
  lemma {:induction false} EntriesWritten(p: Progress, entries: seq<Entry>, prefix: string, target: Path, i: nat, relative: string)
    requires i < |entries| && entries[i].kind.Regular? && Relative(entries[i].name, prefix) == Some(relative)
    requires ExtractEntries(p, entries, prefix, target).1
    ensures Holds(ExtractEntries(p, entries, prefix, target).0.disk.fs, target, relative, entries[i].content)
    decreases i
  {
    hide ExtractTo, Relative, SafeMemberPath, Holds, KeptContent;
    var p1 := ExtractEntry(p, entries[0], prefix, target).0;
    if i == 0 {
      EntryKeeps(p, entries[0], relative, SafeMemberPath(target, relative).value, target);
      HoldsNow(p1.disk.fs, target, relative, entries[0]);
      EntriesKeep(p1, entries[1..], prefix, target);
      HoldsOn(p1.disk.fs, ExtractEntries(p1, entries[1..], prefix, target).0.disk.fs, target, relative, entries[0].content);
    } else {
      EntriesWritten(p1, entries[1..], prefix, target, i - 1, relative);
    }
  }

  lemma HoldsNow(fs: Files, target: Path, relative: string, e: Entry)
    requires var place := SafeMemberPath(target, relative);
             place.Success? && place.value in fs && fs[place.value] == FileNode(FileMode(Perm(e.mode)), e.content)
    ensures Holds(fs, target, relative, e.content)
  {
    hide SafeMemberPath;
  }

  lemma ExtractWrites(s: State, archive: Source, prefix: string, target: Path, e: Entry, relative: string)
    requires e in archive.entries && e.kind.Regular? && Relative(e.name, prefix) == Some(relative)
    requires Extract(s, Some(archive), prefix, target).1
    ensures Holds(Extract(s, Some(archive), prefix, target).0.disk.fs, target, relative, e.content)
  {
    hide ExtractEntries, ApplyModes, MkdirAll, Holds, KeptContent, Relative;
    var p := Progress(MkdirAll(s, target, RESTORED_DIR_MODE).0, 0, 0, []);
    var p1 := ExtractEntries(p, archive.entries, prefix, target).0;
    var i :| 0 <= i < |archive.entries| && archive.entries[i] == e;
    EntriesWritten(p, archive.entries, prefix, target, i, relative);
    ModesKeep(p1.disk, p1.dirs);
    HoldsOn(p1.disk.fs, ApplyModes(p1.disk, p1.dirs).0.fs, target, relative, e.content);
  }

  /**** One site ****/

  // The declared file is in place, with the declared size and content that hashes to its checksum.
  ghost predicate FileRestored(hash: bytes -> string, fs: Files, target: Path, relative: string, declared: Member) {
    var place := SafeMemberPath(target, relative);
    && place.Success? && place.value in fs && fs[place.value].FileNode?
    && |fs[place.value].content| == declared.size && hash(fs[place.value].content) == declared.checksum
  }

  // Everything the manifest declares with a checksum below the prefix is restored.
  ghost predicate SiteRestored(hash: bytes -> string, fs: Files, target: Path, prefix: string, m: Manifest) {
    forall i, relative :: 0 <= i < |m.files| && m.files[i].checksum != "" && Relative(m.files[i].path, prefix) == Some(relative)
      ==> FileRestored(hash, fs, target, relative, m.files[i])
  }

  ghost predicate IsFine(c: Codec, archive: Source) {
    Verified(c, Some(archive)).Success? && Verified(c, Some(archive)).value.detail.Fine?
  }

  lemma ExtractRestores(c: Codec, archive: Source, s: State, prefix: string, target: Path)
    requires IsFine(c, archive) && Extract(s, Some(archive), prefix, target).1
    ensures SiteRestored(c.hash, Extract(s, Some(archive), prefix, target).0.disk.fs, target, prefix,
                         Verified(c, Some(archive)).value.manifest)
  {
    hide Verified, Extract, Relative, LastNamed, SafeMemberPath;
    var m := Verified(c, Some(archive)).value.manifest;
    FineMeansManifestHolds(c, archive);
    forall i, relative | 0 <= i < |m.files| && m.files[i].checksum != "" && Relative(m.files[i].path, prefix) == Some(relative)
      ensures FileRestored(c.hash, Extract(s, Some(archive), prefix, target).0.disk.fs, target, relative, m.files[i])
    {
      assert FileHolds(c.hash, archive.entries, m.files[i]);
      ExtractWrites(s, archive, prefix, target, LastNamed(archive.entries, m.files[i].path).value, relative);
    }
  }

  ghost predicate Apart(p: Path, q: Path) {
    !Under(p, q) && !Under(q, p)
  }

  // The nodes at and below a place are as they were.
  ghost predicate KeptBelow(fs: Files, fs': Files, p: Path) {
    forall k :: Under(p, k) ==> (k in fs <==> k in fs') && (k in fs ==> fs'[k] == fs[k])
  }

  lemma ApartBelow(p: Path, q: Path, k: Path)
    requires Apart(p, q) && Under(p, k)
    ensures !Under(q, k)
  {
    UnderParts(p, k);
    Incomparable(q, p, k[|p|..]);
  }

  lemma RemovalKeepsApart(s: State, removed: Path, p: Path)
    requires Apart(p, removed)
    ensures KeptBelow(s.fs, RemoveAll(s, removed).0.fs, p)
  {
    hide Under, Apart;
    forall k | Under(p, k) ensures !Under(removed, k) {
      ApartBelow(p, removed, k);
    }
  }

  lemma SiteStays(hash: bytes -> string, fs: Files, fs': Files, target: Path, prefix: string, m: Manifest)
    requires Proper(target) && KeptBelow(fs, fs', target) && SiteRestored(hash, fs, target, prefix, m)
    ensures SiteRestored(hash, fs', target, prefix, m)
  {
    hide Relative, SafeMemberPath, CheckMemberName, CleanSegments;
    forall i, relative | 0 <= i < |m.files| && m.files[i].checksum != "" && Relative(m.files[i].path, prefix) == Some(relative)
      ensures FileRestored(hash, fs', target, relative, m.files[i])
    {
      assert FileRestored(hash, fs, target, relative, m.files[i]);
      MemberChecksAgree(target, relative);
      assert Under(target, SafeMemberPath(target, relative).value);
    }
  }

  // If the archive verified, a site that unpacked without error holds what the manifest declares.
  lemma UnpackRestores(c: Codec, archive: Source, s: State, prefix: string, target: Path, stamp: string, keep: bool)
    requires IsFine(c, archive) && Proper(target) && target != []
    requires Unpack(s, Some(archive), prefix, target, stamp, keep).ok
    ensures SiteRestored(c.hash, Unpack(s, Some(archive), prefix, target, stamp, keep).disk.fs, target, prefix,
                         Verified(c, Some(archive)).value.manifest)
  {
    hide Extract, Rename, RemoveAll, Lstat, SiteRestored, KeptBelow, Under, Verified;
    var aside := Aside(target, stamp);
    AsideIsElsewhere(target, stamp);
    var (s1, stat) := Lstat(s, target);
    var before := if stat.NotExist? then s1 else Rename(s1, target, aside).0;
    ExtractRestores(c, archive, before, prefix, target);
    var p := Extract(before, Some(archive), prefix, target).0;
    RemovalKeepsApart(p.disk, aside, target);
    SiteStays(c.hash, p.disk.fs, RemoveAll(p.disk, aside).0.fs, target, prefix, Verified(c, Some(archive)).value.manifest);
  }

  /**** Every site of a request ****/

  // A site of the request: where it goes, None when that place was refused, and the time in the name
  // its present files would be moved to.
  datatype Wanted = Wanted(domain: string, target: Option<Path>, stamp: string)

  function FindSite(sites: seq<SiteEntry>, domain: string): (r: Option<SiteEntry>)
    ensures r.Some? ==> r.value in sites && EqualFold(r.value.domain, domain)
    ensures r.Some? ==> exists k :: 0 <= k < |sites| && sites[k] == r.value
                                    && forall j :: 0 <= j < k ==> !EqualFold(sites[j].domain, domain)
    ensures r.None? ==> forall i :: 0 <= i < |sites| ==> !EqualFold(sites[i].domain, domain)
  {
    if sites == [] then None
    else if EqualFold(sites[0].domain, domain) then Some(sites[0])
    else FindSite(sites[1..], domain)
  }

  // What restoreSites has done: `ok` is false once a site failed.
  datatype Done = Done(disk: State, restored: seq<string>, skipped: seq<string>, files: nat, bytes: nat, moved: seq<Path>, ok: bool)

  function RestoreSite(d: Done, archive: Source, m: Manifest, w: Wanted, keep: bool): Done {
    match FindSite(m.sites, w.domain)
    case None => d.(skipped := d.skipped + [w.domain])
    case Some(site) =>
      if w.target.None? || w.target.value == [] then d.(ok := false)
      else
        var u := Unpack(d.disk, Some(archive), site.prefix, w.target.value, w.stamp, keep);
        if !u.ok then d.(disk := u.disk, ok := false)
        else Done(u.disk, d.restored + [w.domain], d.skipped, d.files + u.files, d.bytes + u.bytes,
                  d.moved + (if u.moved.Some? then [u.moved.value] else []), true)
  }

  function RestoreSites(d: Done, archive: Source, m: Manifest, wanted: seq<Wanted>, keep: bool): Done
    decreases |wanted|
  {
    if wanted == [] then d
    else
      var d1 := RestoreSite(d, archive, m, wanted[0], keep);
      if !d1.ok then d1 else RestoreSites(d1, archive, m, wanted[1..], keep)
  }

  datatype Refusal = SealedArchive | Corrupt | Unreadable(error: VerifyError) | Newer

  // Restore up to the databases: a refusal, or what was done to the sites.
  datatype Answer = Refused(why: Refusal) | Ran(done: Done)

  method RunRestore(host: Host, c: Codec, archive: Source, isSealed: bool, digest: string, expected: string,
                    wanted: seq<Wanted>, keep: bool)
    returns (answer: Answer)
    modifies host
    ensures answer.Refused? <==>
              isSealed || (expected != "" && digest != expected) || !IsFine(c, archive)
    ensures answer.Refused? ==> host.Now() == old(host.Now())
    ensures answer.Refused? ==>
              && (answer.why.SealedArchive? <==> isSealed)
              && (answer.why.Unreadable? <==>
                    !isSealed && (expected == "" || digest == expected) && Verified(c, Some(archive)).Failure?)
              && (answer.why.Unreadable? ==> Failure(answer.why.error) == Verified(c, Some(archive)))
              && (answer.why.Corrupt? <==>
                    && !isSealed
                    && ((expected != "" && digest != expected)
                        || (Verified(c, Some(archive)).Success? && !Verified(c, Some(archive)).value.detail.Fine?)))
    ensures answer.Ran? ==>
              host.Now() == answer.done.disk
              && answer.done == RestoreSites(Done(old(host.Now()), [], [], 0, 0, [], true), archive,
                                             Verified(c, Some(archive)).value.manifest, wanted, keep)
  {
    hide ScanEntries, Unpack, FileProblems, DatabaseProblems;
    if isSealed {
      return Refused(SealedArchive);
    }
    if expected != "" && digest != expected {
      return Refused(Corrupt);
    }
    var report := VerifyMembers(c, Some(archive));
    if report.Failure? {
      return Refused(Unreadable(report.error));
    }
    if !report.value.detail.Fine? {
      return Refused(Corrupt);
    }
    if report.value.manifest.version > MANIFEST_VERSION {
      assert false;
    }
    var done := SitesOneByOne(host, archive, report.value.manifest, wanted, keep);
    return Ran(done);
  }

  method SitesOneByOne(host: Host, archive: Source, m: Manifest, wanted: seq<Wanted>, keep: bool) returns (done: Done)
    modifies host
    ensures done == RestoreSites(Done(old(host.Now()), [], [], 0, 0, [], true), archive, m, wanted, keep)
    ensures host.Now() == done.disk
  {
    hide Unpack, FindSite;
    var restored: seq<string>, skipped: seq<string>, moved: seq<Path> := [], [], [];
    var files, bytes := 0, 0;
    ghost var goal := RestoreSites(Done(host.Now(), [], [], 0, 0, [], true), archive, m, wanted, keep);
    for k := 0 to |wanted|
      invariant RestoreSites(Done(host.Now(), restored, skipped, files, bytes, moved, true), archive, m, wanted[k..], keep) == goal
    {
      var w := wanted[k];
      assert wanted[k..][0] == w && wanted[k..][1..] == wanted[k + 1..];
      var site := FindSite(m.sites, w.domain);
      if site.None? {
        skipped := skipped + [w.domain];
        continue;
      }
      if w.target.None? || w.target.value == [] {
        return Done(host.Now(), restored, skipped, files, bytes, moved, false);
      }
      var f, b, aside, ok := UnpackSite(host, Some(archive), site.value.prefix, w.target.value, w.stamp, keep);
      if !ok {
        return Done(host.Now(), restored, skipped, files, bytes, moved, false);
      }
      restored, files, bytes := restored + [w.domain], files + f, bytes + b;
      moved := moved + (if aside.Some? then [aside.value] else []);
    }
    assert wanted[|wanted|..] == [];
    return Done(host.Now(), restored, skipped, files, bytes, moved, true);
  }

  /**** A restore that ran puts back what was declared ****/

  // Two sites of a request that cannot disturb each other.
  ghost predicate Independent(a: Wanted, b: Wanted) {
    a.target.Some? && a.target.value != [] && b.target.Some? && b.target.value != [] ==>
      Apart(a.target.value, b.target.value) && Apart(a.target.value, Aside(b.target.value, b.stamp))
  }

  lemma UnpackKeepsApart(s: State, archive: Option<Source>, prefix: string, target: Path, stamp: string, keep: bool, p: Path)
    requires Proper(target) && target != [] && Apart(p, target) && Apart(p, Aside(target, stamp))
    ensures KeptBelow(s.fs, Unpack(s, archive, prefix, target, stamp, keep).disk.fs, p)
  {
    hide Extract, Rename, RemoveAll, KeptBelow, Apart, Aside;
    var aside := Aside(target, stamp);
    var (s1, stat) := Lstat(s, target);
    KeptSame(s.fs, p);
    if stat.NotExist? {
      SwapKeepsApart(s1, None, archive, prefix, target, aside, keep, p);
    } else if stat.Exists? {
      var (s2, renamed) := Rename(s1, target, aside);
      RenameKeepsApart(s1, target, aside, p);
      if renamed {
        SwapKeepsApart(s2, Some(aside), archive, prefix, target, aside, keep, p);
        KeptBelowTrans(s.fs, s2.fs, Swap(s2, Some(aside), archive, prefix, target, keep).disk.fs, p);
      }
    }
  }

  lemma KeptSame(fs: Files, p: Path)
    ensures KeptBelow(fs, fs, p)
  {
  }

  lemma KeptBelowTrans(a: Files, b: Files, c: Files, p: Path)
    requires KeptBelow(a, b, p) && KeptBelow(b, c, p)
    ensures KeptBelow(a, c, p)
  {
  }

  lemma RenameKeepsApart(s: State, source: Path, target: Path, p: Path)
    requires Apart(p, source) && Apart(p, target)
    ensures KeptBelow(s.fs, Rename(s, source, target).0.fs, p)
  {
    hide Renamed, Under, Apart;
    if CanRename(s.fs, source, target) {
      RenameMovesTree(s.fs, source, target);
      forall k | Under(p, k) ensures !Under(source, k) && !Under(target, k) {
        ApartBelow(p, source, k);
        ApartBelow(p, target, k);
      }
    }
  }

  lemma UnderOnward(p: Path, k: Path, target: Path)
    requires Under(p, k) && !Under(p, target)
    ensures !(k < target)
  {
  }

  lemma ExtractKeepsApart(s: State, archive: Option<Source>, prefix: string, target: Path, p: Path)
    requires Proper(target) && Apart(p, target)
    ensures KeptBelow(s.fs, Extract(s, archive, prefix, target).0.disk.fs, p)
  {
    hide Extract, Under;
    ExtractOnlyBelow(s, archive, prefix, target);
    forall k | Under(p, k) ensures !Under(target, k) && !(k < target) {
      ApartBelow(p, target, k);
      UnderOnward(p, k, target);
    }
  }

  lemma SwapKeepsApart(s: State, moved: Option<Path>, archive: Option<Source>, prefix: string, target: Path, aside: Path,
                       keep: bool, p: Path)
    requires Proper(target) && Apart(p, target) && Apart(p, aside) && (moved.Some? ==> moved.value == aside)
    ensures KeptBelow(s.fs, Swap(s, moved, archive, prefix, target, keep).disk.fs, p)
  {
    hide Extract, Rename, RemoveAll, KeptBelow, Apart;
    ExtractKeepsApart(s, archive, prefix, target, p);
    var (q, extracted) := Extract(s, archive, prefix, target);
    if !extracted {
      RemovalKeepsApart(q.disk, target, p);
      var s1 := RemoveAll(q.disk, target).0;
      KeptBelowTrans(s.fs, q.disk.fs, s1.fs, p);
      if moved.Some? {
        RenameKeepsApart(s1, aside, target, p);
        KeptBelowTrans(s.fs, s1.fs, Rename(s1, aside, target).0.fs, p);
      }
    } else if moved.Some? && !keep {
      RemovalKeepsApart(q.disk, aside, p);
      KeptBelowTrans(s.fs, q.disk.fs, RemoveAll(q.disk, aside).0.fs, p);
    }
  }

  ghost predicate ProperTarget(w: Wanted) {
    w.target.Some? ==> Proper(w.target.value)
  }

  // The site is not in the backup, or it is restored.
  ghost predicate Answered(hash: bytes -> string, fs: Files, m: Manifest, w: Wanted) {
    FindSite(m.sites, w.domain).Some? ==>
      && w.target.Some? && w.target.value != []
      && SiteRestored(hash, fs, w.target.value, FindSite(m.sites, w.domain).value.prefix, m)
  }

  lemma StepAnswers(c: Codec, archive: Source, d: Done, w: Wanted, keep: bool)
    requires IsFine(c, archive) && ProperTarget(w)
    requires RestoreSite(d, archive, Verified(c, Some(archive)).value.manifest, w, keep).ok
    ensures var m := Verified(c, Some(archive)).value.manifest;
            Answered(c.hash, RestoreSite(d, archive, m, w, keep).disk.fs, m, w)
  {
    hide Verified, Unpack, SiteRestored, FindSite, Proper;
    var m := Verified(c, Some(archive)).value.manifest;
    match FindSite(m.sites, w.domain)
    case None =>
    case Some(site) =>
      if w.target.Some? && w.target.value != [] && Unpack(d.disk, Some(archive), site.prefix, w.target.value, w.stamp, keep).ok {
        UnpackRestores(c, archive, d.disk, site.prefix, w.target.value, w.stamp, keep);
      }
  }

  lemma StepKeeps(hash: bytes -> string, archive: Source, m: Manifest, d: Done, w: Wanted, other: Wanted, keep: bool)
    requires ProperTarget(w) && ProperTarget(other) && Independent(other, w) && Answered(hash, d.disk.fs, m, other)
    requires d.ok && RestoreSite(d, archive, m, w, keep).ok
    ensures Answered(hash, RestoreSite(d, archive, m, w, keep).disk.fs, m, other)
  {
    hide Unpack, SiteRestored, FindSite, Proper, Apart, Aside, KeptBelow;
    match FindSite(m.sites, w.domain)
    case None =>
    case Some(site) =>
      if FindSite(m.sites, other.domain).Some? {
        UnpackKeepsApart(d.disk, Some(archive), site.prefix, w.target.value, w.stamp, keep, other.target.value);
        SiteStays(hash, d.disk.fs, RestoreSite(d, archive, m, w, keep).disk.fs, other.target.value,
                  FindSite(m.sites, other.domain).value.prefix, m);
      }
  }

  // When every site of a restore went through, and none lies in the way of another, each site the
  // archive holds is at its own place with every declared file, its size and its checksum.
  lemma {:induction false} RestoreAnswersAll(c: Codec, archive: Source, d: Done, wanted: seq<Wanted>, keep: bool, i: nat)
    requires IsFine(c, archive) && d.ok && i < |wanted|
    requires forall j :: 0 <= j < |wanted| ==> ProperTarget(wanted[j])
    requires forall j, k :: 0 <= j < |wanted| && 0 <= k < |wanted| && j != k ==> Independent(wanted[j], wanted[k])
    requires RestoreSites(d, archive, Verified(c, Some(archive)).value.manifest, wanted, keep).ok
    ensures var m := Verified(c, Some(archive)).value.manifest;
            Answered(c.hash, RestoreSites(d, archive, m, wanted, keep).disk.fs, m, wanted[i])
    decreases |wanted|
  {
    hide Verified, RestoreSite, Answered, Independent, ProperTarget;
    var m := Verified(c, Some(archive)).value.manifest;
    var d1 := RestoreSite(d, archive, m, wanted[0], keep);
    if i > 0 {
      assert forall j :: 0 <= j < |wanted[1..]| ==> wanted[1..][j] == wanted[j + 1];
      RestoreAnswersAll(c, archive, d1, wanted[1..], keep, i - 1);
    } else {
      StepAnswers(c, archive, d, wanted[0], keep);
      LaterSitesKeep(c.hash, archive, m, d1, wanted, 1, keep);
    }
  }

  lemma {:induction false} LaterSitesKeep(hash: bytes -> string, archive: Source, m: Manifest, d: Done, wanted: seq<Wanted>, k: nat, keep: bool)
    requires 1 <= k <= |wanted| && d.ok && Answered(hash, d.disk.fs, m, wanted[0])
    requires forall j :: 0 <= j < |wanted| ==> ProperTarget(wanted[j])
    requires forall i, j :: 0 <= i < |wanted| && 0 <= j < |wanted| && i != j ==> Independent(wanted[i], wanted[j])
    requires RestoreSites(d, archive, m, wanted[k..], keep).ok
    ensures Answered(hash, RestoreSites(d, archive, m, wanted[k..], keep).disk.fs, m, wanted[0])
    decreases |wanted| - k
  {
    hide RestoreSite, Answered, Independent, ProperTarget;
    if k < |wanted| {
      assert wanted[k..][0] == wanted[k] && wanted[k..][1..] == wanted[k + 1..];
      StepKeeps(hash, archive, m, d, wanted[k], wanted[0], keep);
      LaterSitesKeep(hash, archive, m, RestoreSite(d, archive, m, wanted[k], keep), wanted, k + 1, keep);
    } else {
      assert wanted[k..] == [];
    }
  }
}
