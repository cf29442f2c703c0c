// What an extraction can leave on the disk, whatever the archive holds
// (agent/internal/backup/restore.go and paths.go).
module SafeExtraction {
  import opened Wrappers
  import opened Bytes
  import opened Paths
  import opened Disk
  import opened Archive
  import opened Restore

  // A link that is relative and leads to the target or below it, and a file no larger than a member may be.
  ghost predicate Harmless(target: Path, place: Path, node: Node) {
    match node
    case DirNode(_) => true
    case FileNode(_, content) => |content| <= MAX_MEMBER_BYTES
    case LinkNode(to) => to != "" && !IsAbs(to) && target <= Resolve(place, to)
  }

  // The same node but for its permissions.
  predicate SameButMode(a: Node, b: Node) {
    match b
    case DirNode(_) => a.DirNode?
    case FileNode(_, content) => a.FileNode? && a.content == content
    case LinkNode(_) => a == b
  }

  ghost predicate OnlyHarmless(fs: Files, fs': Files, target: Path) {
    forall k :: k in fs' ==> (k in fs && SameButMode(fs[k], fs'[k])) || Harmless(target, k, fs'[k])
  }

  lemma HarmlessRefl(fs: Files, target: Path)
    ensures OnlyHarmless(fs, fs, target)
  {
    hide Harmless;
  }

  lemma HarmlessTrans(a: Files, b: Files, c: Files, target: Path)
    requires OnlyHarmless(a, b, target) && OnlyHarmless(b, c, target)
    ensures OnlyHarmless(a, c, target)
  {
    hide Resolve;
  }

  /**** The calls ****/

  lemma {:induction false} MakeDirsHarmless(fs: Files, p: Path, mode: nat, target: Path)
    ensures MakeDirs(fs, p, mode).Some? ==> OnlyHarmless(fs, MakeDirs(fs, p, mode).value, target)
    decreases |p|
  {
    hide Resolve;
    if p !in fs && p != [] {
      MakeDirsHarmless(fs, p[..|p| - 1], mode, target);
    }
  }

  lemma MkdirHarmless(s: State, p: Path, target: Path)
    ensures OnlyHarmless(s.fs, MkdirAll(s, p, RESTORED_DIR_MODE).0.fs, target)
  {
    hide MakeDirs, OnlyHarmless;
    HarmlessRefl(s.fs, target);
    MakeDirsHarmless(s.fs, p, RESTORED_DIR_MODE, target);
    match NextFault(s)
    case Works =>
    case Fails(amount, _) =>
      MakeDirsHarmless(s.fs, p[..Min(amount, |p|)], RESTORED_DIR_MODE, target);
  }

  lemma WriteHarmless(s: State, p: Path, mode: nat, content: bytes, target: Path)
    requires |content| <= MAX_MEMBER_BYTES
    ensures OnlyHarmless(s.fs, WriteNew(s, p, mode, content).0.fs, target)
  {
    hide Resolve;
  }

  lemma LinkHarmless(s: State, p: Path, to: string, target: Path)
    requires to != "" && !IsAbs(to) && target <= Resolve(p, to)
    ensures OnlyHarmless(s.fs, MakeLink(s, p, to).0.fs, target)
  {
    hide Resolve;
  }

  lemma {:induction false} ModesHarmless(s: State, dirs: seq<Pending>, target: Path)
    ensures OnlyHarmless(s.fs, ApplyModes(s, dirs).0.fs, target)
    decreases |dirs|
  {
    hide OnlyHarmless;
    HarmlessRefl(s.fs, target);
    if dirs != [] {
      var last := dirs[|dirs| - 1];
      var s1 := Chmod(s, last.path, last.mode).0;
      ChmodHarmless(s, last, target);
      ModesHarmless(s1, dirs[..|dirs| - 1], target);
      HarmlessTrans(s.fs, s1.fs, ApplyModes(s1, dirs[..|dirs| - 1]).0.fs, target);
    }
  }

  lemma ChmodHarmless(s: State, last: Pending, target: Path)
    ensures OnlyHarmless(s.fs, Chmod(s, last.path, last.mode).0.fs, target)
  {
    hide Resolve;
  }

  /**** One entry ****/

  // What an entry below the prefix must be for its extraction to go on.
  ghost predicate Acceptable(target: Path, relative: string, e: Entry) {
    && CheckMemberName(relative).None?
    && match e.kind
       case Regular => e.size() <= MAX_MEMBER_BYTES
       case Directory => true
       case Symlink => e.link != "" && !IsAbs(e.link) && target <= Resolve(target + CleanSegments(relative), e.link)
       case Other => false
  }

  lemma EntryHarmless(p: Progress, e: Entry, prefix: string, target: Path)
    requires Proper(target) && target != []
    ensures OnlyHarmless(p.disk.fs, ExtractEntry(p, e, prefix, target).0.disk.fs, target)
    ensures ExtractEntry(p, e, prefix, target).1 && Relative(e.name, prefix).Some? ==>
              Acceptable(target, Relative(e.name, prefix).value, e)
  {
    hide ExtractTo, Relative, SafeMemberPath, CheckMemberName, Resolve, OnlyHarmless, CleanSegments;
    HarmlessRefl(p.disk.fs, target);
    var relative := Relative(e.name, prefix);
    if relative.Some? {
      MemberChecksAgree(target, relative.value);
      if SafeMemberPath(target, relative.value).Success? {
        PlacedHarmless(p, e, relative.value, SafeMemberPath(target, relative.value).value, target);
      }
    }
  }

  lemma PlacedHarmless(p: Progress, e: Entry, relative: string, destination: Path, target: Path)
    requires Proper(target) && target != [] && CheckMemberName(relative).None?
    requires destination == target + CleanSegments(relative)
    ensures OnlyHarmless(p.disk.fs, ExtractTo(p, e, relative, destination, target).0.disk.fs, target)
    ensures ExtractTo(p, e, relative, destination, target).1 ==> Acceptable(target, relative, e)
  {
    hide MkdirAll, WriteNew, MakeLink, SafeLinkTarget, CheckMemberName, CleanSegments, Resolve, OnlyHarmless;
    HarmlessRefl(p.disk.fs, target);
    MkdirHarmless(p.disk, destination, target);
    MkdirHarmless(p.disk, Dir(destination), target);
    var d := MkdirAll(p.disk, Dir(destination), RESTORED_DIR_MODE).0;
    match e.kind
    case Regular =>
      if e.size() <= MAX_MEMBER_BYTES {
        WriteHarmless(d, destination, FileMode(Perm(e.mode)), e.content, target);
        HarmlessTrans(p.disk.fs, d.fs, WriteMember(d, destination, Perm(e.mode), e.content).0.fs, target);
      }
    case Symlink =>
      AcceptedLinkStaysInside(target, relative, e.link);
      if SafeLinkTarget(target, relative, e.link).None? {
        LinkHarmless(d, destination, e.link, target);
        HarmlessTrans(p.disk.fs, d.fs, MakeLink(d, destination, e.link).0.fs, target);
      }
    case _ =>
  }

  /**** A whole extraction ****/

  lemma {:induction false} EntriesHarmless(p: Progress, entries: seq<Entry>, prefix: string, target: Path)
    requires Proper(target) && target != []
    ensures OnlyHarmless(p.disk.fs, ExtractEntries(p, entries, prefix, target).0.disk.fs, target)
    ensures ExtractEntries(p, entries, prefix, target).1 ==>
              forall i :: 0 <= i < |entries| && Relative(entries[i].name, prefix).Some? ==>
                            Acceptable(target, Relative(entries[i].name, prefix).value, entries[i])
    decreases |entries|
  {
    hide ExtractEntry, Relative, Acceptable, OnlyHarmless;
    HarmlessRefl(p.disk.fs, target);
    if entries != [] {
      var p1 := ExtractEntry(p, entries[0], prefix, target).0;
      EntryHarmless(p, entries[0], prefix, target);
      EntriesHarmless(p1, entries[1..], prefix, target);
      HarmlessTrans(p.disk.fs, p1.disk.fs, ExtractEntries(p1, entries[1..], prefix, target).0.disk.fs, target);
      assert forall i :: 0 < i < |entries| ==> entries[i] == entries[1..][i - 1];
    }
  }

  // Whatever the archive holds and wherever the disk fails, every link an extraction makes is relative and
  // leads to the target or below it, and no file is larger than a member may be. It succeeds only when
  // every entry below the prefix has an acceptable name and is a directory, such a link or such a file.
  lemma ExtractionIsHarmless(s: State, archive: Source, prefix: string, target: Path)
    requires Proper(target) && target != []
    ensures OnlyHarmless(s.fs, Extract(s, Some(archive), prefix, target).0.disk.fs, target)
    ensures Extract(s, Some(archive), prefix, target).1 ==>
              forall i :: 0 <= i < |archive.entries| && Relative(archive.entries[i].name, prefix).Some? ==>
                            Acceptable(target, Relative(archive.entries[i].name, prefix).value, archive.entries[i])
  {
    hide MkdirAll, ExtractEntries, ApplyModes, OnlyHarmless, Relative, Acceptable;
    HarmlessRefl(s.fs, target);
    MkdirHarmless(s, target, target);
    var d := MkdirAll(s, target, RESTORED_DIR_MODE).0;
    var p := Progress(d, 0, 0, []);
    EntriesHarmless(p, archive.entries, prefix, target);
    var p1 := ExtractEntries(p, archive.entries, prefix, target).0;
    HarmlessTrans(s.fs, d.fs, p1.disk.fs, target);
    ModesHarmless(p1.disk, p1.dirs, target);
    HarmlessTrans(s.fs, p1.disk.fs, ApplyModes(p1.disk, p1.dirs).0.fs, target);
  }

  // After a site has been swapped in, every link in it leads to the site or below it.
  lemma SwappedInIsHarmless(s: State, archive: Source, prefix: string, target: Path, stamp: string, keep: bool)
    requires Proper(target) && target != [] && NoOrphans(s.fs, target)
    requires Unpack(s, Some(archive), prefix, target, stamp, keep).ok
    ensures var fs := Unpack(s, Some(archive), prefix, target, stamp, keep).disk.fs;
            forall k :: k in fs && Under(target, k) ==> Harmless(target, k, fs[k])
  {
    hide Extract, Unpack, Rename, Relative, Acceptable, Harmless, Aside, Lstat;
    UnpackSucceeds(s, Some(archive), prefix, target, stamp, keep);
    var s1 := Lstat(s, target).0;
    var start := if target in s.fs then Rename(s1, target, Aside(target, stamp)).0 else s1;
    ExtractionIsHarmless(start, archive, prefix, target);
    var made, fs := Extract(start, Some(archive), prefix, target).0.disk.fs, Unpack(s, Some(archive), prefix, target, stamp, keep).disk.fs;
    forall k | k in fs && Under(target, k) ensures Harmless(target, k, fs[k]) {
      assert k == target + k[|target|..];
    }
  }
}
