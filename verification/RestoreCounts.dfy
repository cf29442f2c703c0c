// What a restore says it restored: as many files, and as many bytes, as the archive holds below the
// prefixes of the sites it restored (agent/internal/backup/restore.go).
module RestoreCounts {
  import opened Wrappers
  import opened Bytes
  import opened Text
  import opened Paths
  import opened Disk
  import opened Archive
  import opened Restore
  import opened Verify
  import opened RestoreRun

  predicate FileBelow(e: Entry, prefix: string) {
    e.kind.Regular? && Relative(e.name, prefix).Some?
  }

  function FilesBelow(entries: seq<Entry>, prefix: string): nat {
    if entries == [] then 0 else (if FileBelow(entries[0], prefix) then 1 else 0) + FilesBelow(entries[1..], prefix)
  }

  function BytesBelow(entries: seq<Entry>, prefix: string): nat {
    if entries == [] then 0
    else (if FileBelow(entries[0], prefix) then |entries[0].content| else 0) + BytesBelow(entries[1..], prefix)
  }

  lemma OneCounted(p: Progress, e: Entry, prefix: string, target: Path)
    requires ExtractEntry(p, e, prefix, target).1
    ensures var p1 := ExtractEntry(p, e, prefix, target).0;
            && p1.files == p.files + (if FileBelow(e, prefix) then 1 else 0)
            && p1.bytes == p.bytes + (if FileBelow(e, prefix) then |e.content| else 0)
  {
    hide Relative, SafeMemberPath, SafeLinkTarget, MkdirAll, WriteNew, MakeLink;
  }

  lemma {:induction false} EntriesCounted(p: Progress, entries: seq<Entry>, prefix: string, target: Path)
    requires ExtractEntries(p, entries, prefix, target).1
    ensures var p1 := ExtractEntries(p, entries, prefix, target).0;
            p1.files == p.files + FilesBelow(entries, prefix) && p1.bytes == p.bytes + BytesBelow(entries, prefix)
    decreases |entries|
  {
    hide ExtractEntry, FileBelow;
    if entries != [] {
      OneCounted(p, entries[0], prefix, target);
      EntriesCounted(ExtractEntry(p, entries[0], prefix, target).0, entries[1..], prefix, target);
    }
  }

  lemma UnpackCounted(s: State, archive: Source, prefix: string, target: Path, stamp: string, keep: bool)
    requires Proper(target) && target != [] && Unpack(s, Some(archive), prefix, target, stamp, keep).ok
    ensures var u := Unpack(s, Some(archive), prefix, target, stamp, keep);
            u.files == FilesBelow(archive.entries, prefix) && u.bytes == BytesBelow(archive.entries, prefix)
  {
    hide ExtractEntries, ApplyModes, MkdirAll, Unpack, Rename, Aside, Lstat, SameBelow;
    UnpackSucceeds(s, Some(archive), prefix, target, stamp, keep);
    var s1 := Lstat(s, target).0;
    var start := if target in s.fs then Rename(s1, target, Aside(target, stamp)).0 else s1;
    var p := Progress(MkdirAll(start, target, RESTORED_DIR_MODE).0, 0, 0, []);
    assert Extract(start, Some(archive), prefix, target).1;
    EntriesCounted(p, archive.entries, prefix, target);
  }

  // The sums over the requested sites that the manifest has.
  function TotalFiles(archive: Source, m: Manifest, wanted: seq<Wanted>): nat {
    if wanted == [] then 0
    else
      var site := FindSite(m.sites, wanted[0].domain);
      (if site.Some? then FilesBelow(archive.entries, site.value.prefix) else 0) + TotalFiles(archive, m, wanted[1..])
  }

  function TotalBytes(archive: Source, m: Manifest, wanted: seq<Wanted>): nat {
    if wanted == [] then 0
    else
      var site := FindSite(m.sites, wanted[0].domain);
      (if site.Some? then BytesBelow(archive.entries, site.value.prefix) else 0) + TotalBytes(archive, m, wanted[1..])
  }

  // A restore that went through counts exactly the files the archive holds below the prefixes of the
  // requested sites it has, and their bytes.
  lemma {:induction false} RestoreCounted(archive: Source, m: Manifest, d: Done, wanted: seq<Wanted>, keep: bool)
    requires d.ok && RestoreSites(d, archive, m, wanted, keep).ok
    requires forall j :: 0 <= j < |wanted| ==> ProperTarget(wanted[j])
    ensures var done := RestoreSites(d, archive, m, wanted, keep);
            && done.files == d.files + TotalFiles(archive, m, wanted)
            && done.bytes == d.bytes + TotalBytes(archive, m, wanted)
    decreases |wanted|
  {
    hide Unpack, FindSite, Proper, FilesBelow, BytesBelow;
    if wanted != [] {
      var w := wanted[0];
      assert ProperTarget(wanted[0]);
      var site := FindSite(m.sites, w.domain);
      if site.Some? {
        UnpackCounted(d.disk, archive, site.value.prefix, w.target.value, w.stamp, keep);
      }
      assert forall j :: 0 <= j < |wanted[1..]| ==> wanted[1..][j] == wanted[j + 1];
      RestoreCounted(archive, m, RestoreSite(d, archive, m, w, keep), wanted[1..], keep);
    }
  }
}
