// Unpacking an archive onto the host, and the swap that makes it all or nothing:
// agent/internal/backup/restore.go.
module Restore {
  import opened Wrappers
  import opened Bytes
  import opened Parts
  import opened Paths
  import opened Disk
  import opened Archive

  const RESTORED_DIR_MODE: nat := 0x1E8
  const DEFAULT_FILE_MODE: nat := 0x180

  /**** writeMember ****/

  function FileMode(mode: nat): nat {
    if mode == 0 then DEFAULT_FILE_MODE else mode
  }

  function WriteMember(s: State, destination: Path, mode: nat, content: bytes): (State, bool) {
    WriteNew(s, destination, FileMode(mode), content)
  }

  /**** extractPrefix ****/

  datatype Pending = Pending(path: Path, mode: nat)

  datatype Progress = Progress(disk: State, files: nat, bytes: nat, dirs: seq<Pending>)

  // The part of an entry's name below the prefix; None when it is not below it.
  function Relative(name: string, prefix: string): Option<string> {
    var cleaned := Clean(name);
    if cleaned != prefix && !(prefix + "/" <= cleaned) then None
    else
      var rest := cleaned[|prefix|..];
      var relative := if rest != "" && rest[0] == '/' then rest[1..] else rest;
      if relative == "" then None else Some(relative)
  }

  function ExtractEntry(p: Progress, e: Entry, prefix: string, target: Path): (Progress, bool) {
    match Relative(e.name, prefix)
    case None => (p, true)
    case Some(relative) =>
      var destination := SafeMemberPath(target, relative);
      if destination.Failure? then (p, false) else ExtractTo(p, e, relative, destination.value, target)
  }

  function ExtractTo(p: Progress, e: Entry, relative: string, destination: Path, target: Path): (Progress, bool) {
    match e.kind
    case Directory =>
      var (d, ok) := MkdirAll(p.disk, destination, RESTORED_DIR_MODE);
      if !ok then (p.(disk := d), false)
      else (p.(disk := d, dirs := p.dirs + [Pending(destination, Perm(e.mode))]), true)
    case Symlink =>
      if SafeLinkTarget(target, relative, e.link).Some? then (p, false)
      else
        var (d, ok) := MkdirAll(p.disk, Dir(destination), RESTORED_DIR_MODE);
        if !ok then (p.(disk := d), false)
        else var (d', ok') := MakeLink(d, destination, e.link); (p.(disk := d'), ok')
    case Regular =>
      if e.size() > MAX_MEMBER_BYTES then (p, false)
      else
        var (d, ok) := MkdirAll(p.disk, Dir(destination), RESTORED_DIR_MODE);
        if !ok then (p.(disk := d), false)
        else
          var (d', ok') := WriteMember(d, destination, Perm(e.mode), e.content);
          if !ok' then (p.(disk := d'), false)
          else (p.(disk := d', files := p.files + 1, bytes := p.bytes + e.size()), true)
    case Other => (p, false)
  }

  function ExtractEntries(p: Progress, entries: seq<Entry>, prefix: string, target: Path): (Progress, bool)
    decreases |entries|
  {
    if entries == [] then (p, true)
    else
      var (p1, ok) := ExtractEntry(p, entries[0], prefix, target);
      if !ok then (p1, false) else ExtractEntries(p1, entries[1..], prefix, target)
  }

  // Directory modes, applied from the last directory to the first.
  function ApplyModes(s: State, dirs: seq<Pending>): (State, bool)
    decreases |dirs|
  {
    if dirs == [] then (s, true)
    else
      var last := dirs[|dirs| - 1];
      var (s1, ok) := Chmod(s, last.path, last.mode);
      if !ok then (s1, false) else ApplyModes(s1, dirs[..|dirs| - 1])
  }

  // The disk, files and bytes extractPrefix leaves, and whether it returned without error.
  function Extract(s: State, archive: Option<Source>, prefix: string, target: Path): (Progress, bool) {
    if archive.None? then (Progress(s, 0, 0, []), false)
    else
      var (d, ok) := MkdirAll(s, target, RESTORED_DIR_MODE);
      var p := Progress(d, 0, 0, []);
      if !ok then (p, false)
      else
        var (p1, all) := ExtractEntries(p, archive.value.entries, prefix, target);
        if !all || !archive.value.sound then (p1, false)
        else var (d1, done) := ApplyModes(p1.disk, p1.dirs); (p1.(disk := d1), done)
  }

  method ExtractPrefix(host: Host, archive: Option<Source>, prefix: string, target: Path)
    returns (files: nat, bytes: nat, ok: bool)
    modifies host
    ensures var (p, done) := Extract(old(host.Now()), archive, prefix, target);
            host.Now() == p.disk && files == p.files && bytes == p.bytes && ok == done
  {
    hide ExtractTo, MkdirAll, WriteNew, MakeLink, Chmod, Relative, SafeMemberPath;
    files, bytes, ok := 0, 0, false;
    if archive.None? {
      return;
    }
    var made := host.MkdirAllAt(target, RESTORED_DIR_MODE);
    if !made {
      return;
    }
    var entries := archive.value.entries;
    var dirs: seq<Pending> := [];
    ghost var goal := ExtractEntries(Progress(host.Now(), 0, 0, []), entries, prefix, target);
    for k := 0 to |entries|
      invariant ExtractEntries(Progress(host.Now(), files, bytes, dirs), entries[k..], prefix, target) == goal
    {
      assert entries[k..][0] == entries[k] && entries[k..][1..] == entries[k + 1..];
      var relative := Relative(entries[k].name, prefix);
      if relative.Some? {
        var destination := SafeMemberPath(target, relative.value);
        if destination.Failure? {
          ok := false;
          return;
        }
        files, bytes, dirs, ok := ExtractOne(host, entries[k], relative.value, destination.value, target, files, bytes, dirs);
        if !ok {
          return;
        }
      }
    }
    assert entries[|entries|..] == [];
    ok := false;
    if !archive.value.sound {
      return;
    }
    var i := |dirs|;
    assert dirs[..i] == dirs;
    ghost var modes := ApplyModes(host.Now(), dirs);
    while i > 0
      invariant 0 <= i <= |dirs| && ApplyModes(host.Now(), dirs[..i]) == modes
    {
      i := i - 1;
      assert dirs[..i + 1][..i] == dirs[..i];
      var changed := host.ChmodAt(dirs[i].path, dirs[i].mode);
      if !changed {
        return;
      }
    }
    ok := true;
  }

  // The switch on the entry's type in the loop of extractPrefix.
  method ExtractOne(host: Host, e: Entry, relative: string, destination: Path, target: Path,
                    files0: nat, bytes0: nat, dirs0: seq<Pending>)
    returns (files: nat, bytes: nat, dirs: seq<Pending>, ok: bool)
    modifies host
    ensures (Progress(host.Now(), files, bytes, dirs), ok)
         == ExtractTo(Progress(old(host.Now()), files0, bytes0, dirs0), e, relative, destination, target)
  {
    hide MkdirAll, WriteNew, MakeLink, SafeLinkTarget;
    files, bytes, dirs, ok := files0, bytes0, dirs0, false;
    match e.kind
    case Directory =>
      ok := host.MkdirAllAt(destination, RESTORED_DIR_MODE);
      if ok {
        dirs := dirs + [Pending(destination, Perm(e.mode))];
      }
    case Symlink =>
      if SafeLinkTarget(target, relative, e.link).Some? {
        return;
      }
      ok := host.MkdirAllAt(Dir(destination), RESTORED_DIR_MODE);
      if ok {
        ok := host.MakeLinkAt(destination, e.link);
      }
    case Regular =>
      if e.size() > MAX_MEMBER_BYTES {
        return;
      }
      ok := host.MkdirAllAt(Dir(destination), RESTORED_DIR_MODE);
      if ok {
        ok := host.WriteNewAt(destination, FileMode(Perm(e.mode)), e.content);
        if ok {
          files := files + 1;
          bytes := bytes + e.size();
        }
      }
    case Other =>
  }

  /**** unpackSite ****/

  // What unpackSite returns: whether it failed, and the path of the files moved aside, if reported.
  datatype Outcome = Outcome(disk: State, files: nat, bytes: nat, moved: Option<Path>, ok: bool)

  // The name the existing files are moved to, beside the target.
  function Aside(target: Path, stamp: string): Path
    requires target != []
  {
    target[..|target| - 1] + [target[|target| - 1] + ".before-restore-" + stamp]
  }

  function Unpack(s: State, archive: Option<Source>, prefix: string, target: Path, stamp: string, keepPrevious: bool): Outcome
    requires target != []
  {
    var aside := Aside(target, stamp);
    var (s1, stat) := Lstat(s, target);
    if stat.StatError? then Outcome(s1, 0, 0, None, false)
    else if stat.NotExist? then Swap(s1, None, archive, prefix, target, keepPrevious)
    else
      var (s2, renamed) := Rename(s1, target, aside);
      if !renamed then Outcome(s2, 0, 0, None, false)
      else Swap(s2, Some(aside), archive, prefix, target, keepPrevious)
  }

  // What follows the move: `moved` is where the existing files are.
  function Swap(s: State, moved: Option<Path>, archive: Option<Source>, prefix: string, target: Path, keepPrevious: bool): Outcome {
    var (p, extracted) := Extract(s, archive, prefix, target);
    if !extracted then
      var (s1, _) := RemoveAll(p.disk, target);
      if moved.None? then Outcome(s1, 0, 0, None, false)
      else
        var (s2, back) := Rename(s1, moved.value, target);
        Outcome(s2, 0, 0, if back then None else moved, false)
    else if moved.Some? && !keepPrevious then
      var (s1, removed) := RemoveAll(p.disk, moved.value);
      Outcome(s1, p.files, p.bytes, if removed then None else moved, true)
    else Outcome(p.disk, p.files, p.bytes, moved, true)
  }

  method UnpackSite(host: Host, archive: Option<Source>, prefix: string, target: Path, stamp: string, keepPrevious: bool)
    returns (files: nat, bytes: nat, moved: Option<Path>, ok: bool)
    requires target != []
    modifies host
    ensures Outcome(host.Now(), files, bytes, moved, ok)
         == Unpack(old(host.Now()), archive, prefix, target, stamp, keepPrevious)
  {
    hide Extract, Rename, RemoveAll;
    moved := None;
    var stat := host.LstatAt(target);
    if stat.Exists? {
      var aside := Aside(target, stamp);
      var renamed := host.RenameAt(target, aside);
      if !renamed {
        return 0, 0, None, false;
      }
      moved := Some(aside);
    } else if stat.StatError? {
      return 0, 0, None, false;
    }
    files, bytes, ok := ExtractPrefix(host, archive, prefix, target);
    if !ok {
      var _ := host.RemoveAllAt(target);
      if moved.Some? {
        var back := host.RenameAt(moved.value, target);
        if !back {
          return 0, 0, moved, false;
        }
      }
      return 0, 0, None, false;
    }
    if moved.Some? && !keepPrevious {
      var removed := host.RemoveAllAt(moved.value);
      if !removed {
        return files, bytes, moved, true;
      }
      moved := None;
    }
    return files, bytes, moved, true;
  }

  /**** Extraction stays below its target ****/

  lemma MkdirOnlyBelow(s: State, p: Path, target: Path)
    requires Under(target, p) || Under(p, target)
    ensures OnlyBelow(s.fs, MkdirAll(s, p, RESTORED_DIR_MODE).0.fs, target)
  {
    if NextFault(s).Works? {
      if MakeDirs(s.fs, p, RESTORED_DIR_MODE).Some? {
        MakeDirsOnlyBelow(s.fs, p, RESTORED_DIR_MODE, target);
      }
    } else {
      var part := p[..Min(NextFault(s).amount, |p|)];
      if MakeDirs(s.fs, part, RESTORED_DIR_MODE).Some? {
        PrefixesCompare(target, p, |part|);
        MakeDirsOnlyBelow(s.fs, part, RESTORED_DIR_MODE, target);
      }
    }
  }

  lemma PrefixesCompare(target: Path, p: Path, n: nat)
    requires (Under(target, p) || Under(p, target)) && n <= |p|
    ensures Under(target, p[..n]) || Under(p[..n], target)
  {
  }

  lemma ExtractToOnlyBelow(p: Progress, e: Entry, relative: string, destination: Path, target: Path)
    requires Under(target, destination)
    ensures OnlyBelow(p.disk.fs, ExtractTo(p, e, relative, destination, target).0.disk.fs, target)
  {
    hide MkdirAll, SafeLinkTarget;
    MkdirOnlyBelow(p.disk, destination, target);
    MkdirOnlyBelow(p.disk, Dir(destination), target);
  }

  ghost predicate DirsBelow(dirs: seq<Pending>, target: Path) {
    forall i :: 0 <= i < |dirs| ==> Under(target, dirs[i].path)
  }

  lemma ExtractEntryOnlyBelow(p: Progress, e: Entry, prefix: string, target: Path)
    requires Proper(target) && DirsBelow(p.dirs, target)
    ensures var p1 := ExtractEntry(p, e, prefix, target).0;
            OnlyBelow(p.disk.fs, p1.disk.fs, target) && DirsBelow(p1.dirs, target)
  {
    hide MkdirAll, WriteNew, MakeLink, SafeLinkTarget, SafeMemberPath, Relative;
    match Relative(e.name, prefix)
    case None =>
    case Some(relative) =>
      MemberChecksAgree(target, relative);
      var destination := SafeMemberPath(target, relative);
      if destination.Success? {
        ExtractToOnlyBelow(p, e, relative, destination.value, target);
      }
  }

  lemma {:induction false} ExtractEntriesOnlyBelow(p: Progress, entries: seq<Entry>, prefix: string, target: Path)
    requires Proper(target) && DirsBelow(p.dirs, target)
    ensures var p1 := ExtractEntries(p, entries, prefix, target).0;
            OnlyBelow(p.disk.fs, p1.disk.fs, target) && DirsBelow(p1.dirs, target)
    decreases |entries|
  {
    hide ExtractEntry;
    if entries != [] {
      ExtractEntryOnlyBelow(p, entries[0], prefix, target);
      var (p1, ok) := ExtractEntry(p, entries[0], prefix, target);
      if ok {
        ExtractEntriesOnlyBelow(p1, entries[1..], prefix, target);
        OnlyBelowTrans(p.disk.fs, p1.disk.fs, ExtractEntries(p, entries, prefix, target).0.disk.fs, target);
      }
    }
  }

  lemma {:induction false} ApplyModesOnlyBelow(s: State, dirs: seq<Pending>, target: Path)
    requires DirsBelow(dirs, target)
    ensures OnlyBelow(s.fs, ApplyModes(s, dirs).0.fs, target)
    decreases |dirs|
  {
    if dirs != [] {
      var last := dirs[|dirs| - 1];
      var (s1, ok) := Chmod(s, last.path, last.mode);
      assert OnlyBelow(s.fs, s1.fs, target);
      if ok {
        ApplyModesOnlyBelow(s1, dirs[..|dirs| - 1], target);
        OnlyBelowTrans(s.fs, s1.fs, ApplyModes(s, dirs).0.fs, target);
      }
    }
  }

  // Whatever the archive holds and wherever the disk fails, nothing outside the target changes but
  // for missing parents of it.
  lemma ExtractOnlyBelow(s: State, archive: Option<Source>, prefix: string, target: Path)
    requires Proper(target)
    ensures OnlyBelow(s.fs, Extract(s, archive, prefix, target).0.disk.fs, target)
  {
    hide MkdirAll, ExtractEntries, ApplyModes, OnlyBelow;
    OnlyBelowRefl(s.fs, target);
    if archive.Some? {
      MkdirOnlyBelow(s, target, target);
      var (d, ok) := MkdirAll(s, target, RESTORED_DIR_MODE);
      if ok {
        var p := Progress(d, 0, 0, []);
        ExtractEntriesOnlyBelow(p, archive.value.entries, prefix, target);
        var (p1, all) := ExtractEntries(p, archive.value.entries, prefix, target);
        OnlyBelowTrans(s.fs, d.fs, p1.disk.fs, target);
        if all && archive.value.sound {
          ApplyModesOnlyBelow(p1.disk, p1.dirs, target);
          OnlyBelowTrans(s.fs, p1.disk.fs, ApplyModes(p1.disk, p1.dirs).0.fs, target);
        }
      }
    }
  }

  lemma OnlyBelowRefl(fs: Files, target: Path)
    ensures OnlyBelow(fs, fs, target)
  {
  }

  /**** All or nothing ****/

  lemma AsideIsElsewhere(target: Path, stamp: string)
    requires target != []
    ensures var aside := Aside(target, stamp);
            |aside| == |target| && aside != target && !Under(target, aside) && !Under(aside, target)
  {
    var aside := Aside(target, stamp);
    assert |aside[|target| - 1]| > |target[|target| - 1]|;
  }

  // Files elsewhere are not touched by what happens only below the target.
  lemma ElsewhereUntouched(fs: Files, fs': Files, target: Path, aside: Path)
    requires OnlyBelow(fs, fs', target) && |aside| == |target| && aside != target
    ensures SameBelow(fs, aside, fs', aside)
  {
    forall s: Path ensures (aside + s in fs <==> aside + s in fs') && (aside + s in fs ==> fs[aside + s] == fs'[aside + s]) {
      assert (aside + s)[..|aside|] == aside;
      assert !(aside + s < target);
    }
  }

  lemma SameBelowTrans(a: Files, p: Path, b: Files, q: Path, c: Files, r: Path)
    requires SameBelow(a, p, b, q) && SameBelow(b, q, c, r)
    ensures SameBelow(a, p, c, r)
  {
    forall s: Path ensures (p + s in a <==> r + s in c) && (p + s in a ==> a[p + s] == c[r + s]) {
      assert p + s in a <==> q + s in b;
    }
  }

  lemma RemovalElsewhere(s: State, p: Path, aside: Path)
    requires |aside| == |p| && aside != p
    ensures SameBelow(s.fs, aside, RemoveAll(s, p).0.fs, aside)
    ensures RemoveAll(s, p).1 ==> Vacant(RemoveAll(s, p).0.fs, p)
  {
    forall x: Path ensures !Under(p, aside + x) {
      assert (aside + x)[..|aside|] == aside;
    }
  }

  // A path that does not exist has nothing below it.
  ghost predicate NoOrphans(fs: Files, p: Path) {
    p !in fs ==> Vacant(fs, p)
  }

  lemma BelowInBoth(fs: Files, fs': Files, p: Path, k: Path)
    requires SameBelow(fs, p, fs', p)
    ensures k in fs' && Under(p, k) ==> k in fs
  {
    if Under(p, k) {
      UnderParts(p, k);
    }
  }

  lemma VacantIsAbsent(fs: Files, fs': Files, p: Path)
    requires Vacant(fs, p)
    ensures Vacant(fs', p) <==> SameBelow(fs, p, fs', p)
  {
    if SameBelow(fs, p, fs', p) {
      forall k | k in fs' ensures !Under(p, k) {
        BelowInBoth(fs, fs', p, k);
      }
    }
  }

  lemma SwapWithExisting(s0: State, s: State, archive: Option<Source>, prefix: string, target: Path, aside: Path, keep: bool)
    requires Proper(target) && |aside| == |target| && aside != target
    requires SameBelow(s0.fs, target, s.fs, aside)
    ensures var o := Swap(s, Some(aside), archive, prefix, target, keep);
            && (!o.ok && o.moved.None? ==> SameBelow(s0.fs, target, o.disk.fs, target))
            && (!o.ok && o.moved.Some? ==> o.moved.value == aside && SameBelow(s0.fs, target, o.disk.fs, aside))
            && (o.ok && o.moved.None? ==> !keep && Vacant(o.disk.fs, aside))
            && (o.ok && keep ==> o.moved == Some(aside) && SameBelow(s0.fs, target, o.disk.fs, aside))
            && (o.ok && !keep && o.moved.Some? ==> o.moved.value == aside && PartBelow(s0.fs, target, o.disk.fs, aside))
  {
    hide Extract, SameBelow, Renamed, CanRename, Under, Vacant, PartBelow;
    var (p, extracted) := Extract(s, archive, prefix, target);
    ExtractOnlyBelow(s, archive, prefix, target);
    ElsewhereUntouched(s.fs, p.disk.fs, target, aside);
    SameBelowTrans(s0.fs, target, s.fs, aside, p.disk.fs, aside);
    if !extracted {
      var (s1, _) := RemoveAll(p.disk, target);
      RemovalElsewhere(p.disk, target, aside);
      SameBelowTrans(s0.fs, target, p.disk.fs, aside, s1.fs, aside);
      if CanRename(s1.fs, aside, target) {
        RenameMovesTree(s1.fs, aside, target);
        SameBelowTrans(s0.fs, target, s1.fs, aside, Renamed(s1.fs, aside, target), target);
      }
    } else if !keep {
      RemovalElsewhere(p.disk, aside, target);
      RemovalLeavesPart(s0.fs, target, p.disk, aside);
    }
  }

  // What is below q is part of what was below p.
  ghost predicate PartBelow(before: Files, p: Path, after: Files, q: Path) {
    forall s: Path :: q + s in after ==> p + s in before && before[p + s] == after[q + s]
  }

  lemma RemovalLeavesPart(before: Files, target: Path, s: State, aside: Path)
    requires SameBelow(before, target, s.fs, aside)
    ensures PartBelow(before, target, RemoveAll(s, aside).0.fs, aside)
  {
    forall x: Path | aside + x in RemoveAll(s, aside).0.fs
      ensures target + x in before && before[target + x] == RemoveAll(s, aside).0.fs[aside + x]
    {
      assert aside + x in s.fs;
    }
  }

  // On error with no path reported, a target that existed is exactly what it was. On error with a
  // path, the original is intact there. On success the old files are kept whole at the reported path,
  // or gone, or - when tidying them up failed - part of them is at the reported path.
  lemma UnpackKeepsOriginal(s: State, archive: Option<Source>, prefix: string, target: Path, stamp: string, keep: bool)
    requires Proper(target) && target != [] && target in s.fs
    ensures var o := Unpack(s, archive, prefix, target, stamp, keep);
            var aside := Aside(target, stamp);
            && (!o.ok && o.moved.None? ==> SameBelow(s.fs, target, o.disk.fs, target))
            && (!o.ok && o.moved.Some? ==> o.moved.value == aside && SameBelow(s.fs, target, o.disk.fs, aside))
            && (o.ok && o.moved.None? ==> !keep && Vacant(o.disk.fs, aside))
            && (o.ok && keep ==> o.moved == Some(aside) && SameBelow(s.fs, target, o.disk.fs, aside))
            && (o.ok && !keep && o.moved.Some? ==> o.moved.value == aside && PartBelow(s.fs, target, o.disk.fs, aside))
  {
    hide Swap, SameBelow, Renamed, CanRename, Vacant, PartBelow, Aside;
    var aside := Aside(target, stamp);
    AsideIsElsewhere(target, stamp);
    SameBelowRefl(s.fs, target);
    var (s1, stat) := Lstat(s, target);
    if stat.Exists? {
      var (s2, renamed) := Rename(s1, target, aside);
      if renamed {
        RenameMovesTree(s.fs, target, aside);
        SwapWithExisting(s, s2, archive, prefix, target, aside, keep);
      }
    }
  }

  lemma SameBelowRefl(fs: Files, p: Path)
    ensures SameBelow(fs, p, fs, p)
  {
  }

  // On success the target holds what extraction made there, and the counts are extraction's.
  lemma UnpackSucceeds(s: State, archive: Option<Source>, prefix: string, target: Path, stamp: string, keep: bool)
    requires Proper(target) && target != [] && Unpack(s, archive, prefix, target, stamp, keep).ok
    ensures var o := Unpack(s, archive, prefix, target, stamp, keep);
            var s1 := Lstat(s, target).0;
            var start := if target in s.fs then Rename(s1, target, Aside(target, stamp)).0 else s1;
            var (p, extracted) := Extract(start, archive, prefix, target);
            && extracted && o.files == p.files && o.bytes == p.bytes
            && SameBelow(p.disk.fs, target, o.disk.fs, target)
            && (NoOrphans(s.fs, target) ==> Vacant(start.fs, target))
  {
    hide Extract, SameBelow, Renamed, CanRename, Aside;
    var s1 := Lstat(s, target).0;
    var aside := Aside(target, stamp);
    AsideIsElsewhere(target, stamp);
    var start := if target in s.fs then Rename(s1, target, aside).0 else s1;
    if target in s.fs {
      RenameMovesTree(s.fs, target, aside);
    }
    var p := Extract(start, archive, prefix, target).0;
    SameBelowRefl(p.disk.fs, target);
    RemovalElsewhere(p.disk, aside, target);
  }

  // A target that was absent is absent again after an error whenever the clean-up removal worked. No path
  // is reported either way, so after a removal that failed the caller is not told of what it left, if
  // it left anything.
  lemma UnpackIntoNothing(s: State, archive: Option<Source>, prefix: string, target: Path, stamp: string, keep: bool)
    requires Proper(target) && target != [] && target !in s.fs && NoOrphans(s.fs, target)
    ensures var o := Unpack(s, archive, prefix, target, stamp, keep);
            var (s1, stat) := Lstat(s, target);
            var (p, extracted) := Extract(s1, archive, prefix, target);
            && (!o.ok && (stat.StatError? || NextFault(p.disk).Works?) ==> SameBelow(s.fs, target, o.disk.fs, target))
            && o.moved.None?
            && (!o.ok && !stat.StatError? && NextFault(p.disk).Fails? ==>
                  (SameBelow(s.fs, target, o.disk.fs, target)
                   <==> forall k :: k in p.disk.fs && Under(target, k) ==> k !in NextFault(p.disk).kept))
  {
    hide Extract, SameBelow;
    SameBelowRefl(s.fs, target);
    var o := Unpack(s, archive, prefix, target, stamp, keep);
    VacantIsAbsent(s.fs, o.disk.fs, target);
  }

  // So the promise fails when there was nothing to move aside and the clean-up fails: the half
  // unpacked files stay at the target, and no path is reported.
  lemma LeftoverAfterFailedCleanUp(target: Path, stamp: string)
    requires Proper(target) && target != []
    ensures var fs: Files := map[target[..|target| - 1] := DirNode(RESTORED_DIR_MODE)];
            var archive := Some(Source([], false));
            var s := State(fs, [Works, Works, Fails(0, {target})]);
            var o := Unpack(s, archive, "sites/x", target, stamp, false);
            !o.ok && o.moved.None? && target !in fs && target in o.disk.fs
  {
    var parent := target[..|target| - 1];
    var fs: Files := map[parent := DirNode(RESTORED_DIR_MODE)];
    var archive := Some(Source([], false));
    var s := State(fs, [Works, Works, Fails(0, {target})]);
    var s1 := Lstat(s, target).0;
    assert s1.faults == [Works, Fails(0, {target})];
    assert MakeDirs(fs, target, RESTORED_DIR_MODE) == Some(fs[target := DirNode(RESTORED_DIR_MODE)]);
    var (d, ok) := MkdirAll(s1, target, RESTORED_DIR_MODE);
    assert ok && d.faults == [Fails(0, {target})] && target in d.fs;
    assert Extract(s1, archive, "sites/x", target) == (Progress(d, 0, 0, []), false);
  }
}
