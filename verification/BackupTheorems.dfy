// A restore of what a backup wrote gives back each site's tree
// (agent/internal/backup/create.go and restore.go).
module BackupTheorems {
  import opened Wrappers
  import opened Bytes
  import opened Text
  import opened Parts
  import opened Paths
  import opened Segments
  import opened Disk
  import opened Archive
  import opened Restore
  import opened RestoreTheorems
  import opened RestoredModes
  import opened Verify
  import opened RestoreRun
  import opened Create
  import opened CreateTheorems
  import opened ManifestTheorems

  // At and below a place there is exactly this tree, in a directory made for it.
  ghost predicate TreeAt(fs: Files, target: Path, children: seq<Child>) {
    && target in fs && fs[target].DirNode?
    && forall k :: Under(target, k) && k != target ==>
         var tree := PlacedAll(target, children, true); (k in fs <==> k in tree) && (k in fs ==> fs[k] == tree[k])
  }

  // The archive a backup of these inputs writes.
  function Written(c: Codec, sites: seq<SiteInput>, databases: seq<DatabaseInput>): Source {
    Source(Body(sites, databases) + [ManifestEntry(c, ManifestOf(c.hash, sites, databases))], true)
  }

  // The prefix its manifest gives for a domain.
  function PrefixFor(c: Codec, sites: seq<SiteInput>, databases: seq<DatabaseInput>, name: string): string
    requires FindSite(ManifestOf(c.hash, sites, databases).sites, name).Some?
  {
    FindSite(ManifestOf(c.hash, sites, databases).sites, name).value.prefix
  }

  ghost predicate Request(sites: seq<SiteInput>, databases: seq<DatabaseInput>, k: nat, name: string) {
    && ValidDomains(sites) && OrderlySites(sites) && DistinctInputs(sites, databases)
    && k < |sites| && sites[k].children.Some? && EqualFold(sites[k].domain, name)
  }

  // Extraction under the prefix recorded for a site rebuilds the site's tree.
  lemma ExtractThroughManifest(c: Codec, sites: seq<SiteInput>, databases: seq<DatabaseInput>, k: nat, name: string,
                               s: State, target: Path)
    requires Request(sites, databases, k, name)
    requires Proper(target) && target != [] && Vacant(s.fs, target) && RecoverableAll(target, [], sites[k].children.value)
    ensures FindSite(ManifestOf(c.hash, sites, databases).sites, name).Some?
    ensures var (p, ok) := Extract(s, Some(Written(c, sites, databases)), PrefixFor(c, sites, databases, name), target);
            && (s.faults == [] && MakeDirs(s.fs, target, RESTORED_DIR_MODE).Some? ==> ok)
            && (ok ==> TreeAt(p.disk.fs, target, RestoredAll(sites[k].children.value))
                       && p.files == FileCount(SiteBody(sites[k])) && p.bytes == ContentBytes(SiteBody(sites[k])))
  {
    hide Extract, MakeDirs, Vacant, RecoverableAll, FindSite, ValidDomain, EqualFold, ManifestOf, Body, ManifestEntry, PlacedAll,
      RestoredAll, OrderlyAll, SitePlace, Ignored, EntriesOfAll, Join, SitePrefix, FileCount, ContentBytes;
    SiteIsFound(c.hash, sites, databases, k, name);
    var before, after := ArchiveAround(c, sites, databases, k);
    SitePrefixProper(sites[k]);
    RestoreRebuilds(s, SitePlace(sites[k]), sites[k].children.value, before, after, target);
    MadeOnce(s.fs, target);
    var made := MakeDirs(s.fs, target, RESTORED_DIR_MODE);
    var (p, ok) := Extract(s, Some(Written(c, sites, databases)), PrefixFor(c, sites, databases, name), target);
    if ok {
      PlacedBelow(target, RestoredAll(sites[k].children.value));
    }
  }

  lemma {:induction false} MadeOnce(fs: Files, target: Path)
    requires target != []
    ensures MakeDirs(fs, target, RESTORED_DIR_MODE).Some? ==>
              target in MakeDirs(fs, target, RESTORED_DIR_MODE).value && MakeDirs(fs, target, RESTORED_DIR_MODE).value[target].DirNode?
  {
  }

  // No tree placed below a place touches the place itself.
  lemma {:induction false} PlacedBelow(base: Path, children: seq<Child>)
    ensures base !in PlacedAll(base, children, true)
    decreases children
  {
    hide Placed;
    if children != [] {
      PlacedUnder(base + [children[0].name], children[0].node);
      PlacedBelow(base, children[1..]);
    }
  }

  lemma {:induction false} PlacedUnder(base: Path, node: Tree)
    ensures forall k :: k in Placed(base, node, true) ==> Under(base, k)
    decreases node
  {
    hide PlacedAll;
    if node.Folder? {
      PlacedAllUnder(base, node.children);
    }
  }

  lemma {:induction false} PlacedAllUnder(base: Path, children: seq<Child>)
    ensures forall k :: k in PlacedAll(base, children, true) ==> Under(base, k)
    decreases children
  {
    hide Placed;
    if children != [] {
      PlacedUnder(base + [children[0].name], children[0].node);
      PlacedAllUnder(base, children[1..]);
    }
  }

  /**** A site swapped in ****/

  lemma TreeCarried(a: Files, b: Files, target: Path, children: seq<Child>)
    requires SameBelow(a, target, b, target) && TreeAt(a, target, children)
    ensures TreeAt(b, target, children)
  {
    hide PlacedAll;
    assert target + [] == target;
    forall k | Under(target, k) ensures (k in a <==> k in b) && (k in a ==> a[k] == b[k]) {
      UnderParts(target, k);
    }
  }

  lemma TreeStays(a: Files, b: Files, target: Path, children: seq<Child>)
    requires KeptBelow(a, b, target) && TreeAt(a, target, children)
    ensures TreeAt(b, target, children)
  {
    hide PlacedAll;
    assert Under(target, target);
  }

  lemma UnpackThroughManifest(c: Codec, sites: seq<SiteInput>, databases: seq<DatabaseInput>, k: nat, name: string,
                              s: State, target: Path, stamp: string, keep: bool)
    requires Request(sites, databases, k, name)
    requires Proper(target) && target != [] && NoOrphans(s.fs, target) && RecoverableAll(target, [], sites[k].children.value)
    ensures FindSite(ManifestOf(c.hash, sites, databases).sites, name).Some?
    ensures var u := Unpack(s, Some(Written(c, sites, databases)), PrefixFor(c, sites, databases, name), target, stamp, keep);
            u.ok ==> TreeAt(u.disk.fs, target, RestoredAll(sites[k].children.value))
                     && u.files == FileCount(SiteBody(sites[k])) && u.bytes == ContentBytes(SiteBody(sites[k]))
  {
    hide Extract, Unpack, Rename, RecoverableAll, FindSite, ValidDomains, OrderlySites, DistinctInputs, EqualFold, ManifestOf, Written, RestoredAll, PrefixFor, TreeAt, SameBelow,
      Vacant, NoOrphans, Aside, FileCount, ContentBytes, Lstat, Proper, SiteBody;
    SiteFoundInRequest(c.hash, sites, databases, k, name);
    var prefix, archive := PrefixFor(c, sites, databases, name), Some(Written(c, sites, databases));
    var u := Unpack(s, archive, prefix, target, stamp, keep);
    if u.ok {
      UnpackSucceeds(s, archive, prefix, target, stamp, keep);
      var s1 := Lstat(s, target).0;
      var start := if target in s.fs then Rename(s1, target, Aside(target, stamp)).0 else s1;
      ExtractThroughManifest(c, sites, databases, k, name, start, target);
      TreeCarried(Extract(start, archive, prefix, target).0.disk.fs, u.disk.fs, target, RestoredAll(sites[k].children.value));
    }
  }

  lemma SiteFoundInRequest(hash: bytes -> string, sites: seq<SiteInput>, databases: seq<DatabaseInput>, k: nat, name: string)
    requires Request(sites, databases, k, name)
    ensures FindSite(ManifestOf(hash, sites, databases).sites, name).Some?
  {
    hide FindSite, ManifestOf, ValidDomain, EqualFold;
    SiteIsFound(hash, sites, databases, k, name);
  }

  /**** Every site of a request ****/

  ghost predicate Ready(fs: Files, w: Wanted, site: SiteInput) {
    && w.target.Some? && w.target.value != [] && NoOrphans(fs, w.target.value)
    && site.children.Some? && RecoverableAll(w.target.value, [], site.children.value)
  }

  lemma OrphansStay(a: Files, b: Files, p: Path)
    requires KeptBelow(a, b, p) && NoOrphans(a, p)
    ensures NoOrphans(b, p)
  {
    assert Under(p, p);
  }

  lemma OtherStepKeeps(archive: Source, m: Manifest, d: Done, w: Wanted, p: Path, keep: bool)
    requires ProperTarget(w) && d.ok && RestoreSite(d, archive, m, w, keep).ok
    requires w.target.Some? && w.target.value != [] ==> Apart(p, w.target.value) && Apart(p, Aside(w.target.value, w.stamp))
    ensures KeptBelow(d.disk.fs, RestoreSite(d, archive, m, w, keep).disk.fs, p)
  {
    hide Unpack, FindSite, Proper, Apart, Aside, KeptBelow;
    KeptSame(d.disk.fs, p);
    match FindSite(m.sites, w.domain)
    case None =>
    case Some(site) =>
      UnpackKeepsApart(d.disk, Some(archive), site.prefix, w.target.value, w.stamp, keep, p);
  }

  lemma {:induction false} OtherStepsKeep(archive: Source, m: Manifest, d: Done, wanted: seq<Wanted>, p: Path, keep: bool)
    requires d.ok && RestoreSites(d, archive, m, wanted, keep).ok
    requires forall j :: 0 <= j < |wanted| ==> ProperTarget(wanted[j])
    requires forall j :: 0 <= j < |wanted| && wanted[j].target.Some? && wanted[j].target.value != [] ==>
               Apart(p, wanted[j].target.value) && Apart(p, Aside(wanted[j].target.value, wanted[j].stamp))
    ensures KeptBelow(d.disk.fs, RestoreSites(d, archive, m, wanted, keep).disk.fs, p)
    decreases |wanted|
  {
    hide RestoreSite, ProperTarget, Apart, Aside, KeptBelow;
    if wanted == [] {
      KeptSame(d.disk.fs, p);
    } else {
      OtherStepKeeps(archive, m, d, wanted[0], p, keep);
      var d1 := RestoreSite(d, archive, m, wanted[0], keep);
      OtherStepsKeep(archive, m, d1, wanted[1..], p, keep);
      KeptBelowTrans(d.disk.fs, d1.disk.fs, RestoreSites(d1, archive, m, wanted[1..], keep).disk.fs, p);
    }
  }

  // When a restore of what a backup wrote went through, each site asked for that the backup holds has at
  // its place exactly the tree that was backed up, with the modes a restore gives, whatever calls for
  // other sites came before and after.
  lemma {:induction false} RestoreGivesBack(c: Codec, sites: seq<SiteInput>, databases: seq<DatabaseInput>, d: Done, wanted: seq<Wanted>,
                                            keep: bool, i: nat, k: nat)
    requires i < |wanted| && Request(sites, databases, k, wanted[i].domain) && Ready(d.disk.fs, wanted[i], sites[k])
    requires forall j :: 0 <= j < |wanted| ==> ProperTarget(wanted[j])
    requires forall j :: 0 <= j < |wanted| && j != i ==> Independent(wanted[i], wanted[j])
    requires d.ok && RestoreSites(d, Written(c, sites, databases), ManifestOf(c.hash, sites, databases), wanted, keep).ok
    ensures var done := RestoreSites(d, Written(c, sites, databases), ManifestOf(c.hash, sites, databases), wanted, keep);
            TreeAt(done.disk.fs, wanted[i].target.value, RestoredAll(sites[k].children.value))
    decreases |wanted|
  {
    hide ValidDomains, OrderlySites, DistinctInputs, EqualFold, RecoverableAll, ManifestOf, Written, RestoreSite, TreeAt, RestoredAll, Proper, NoOrphans, Apart, Aside, KeptBelow;
    var archive, m := Written(c, sites, databases), ManifestOf(c.hash, sites, databases);
    var d1, p := RestoreSite(d, archive, m, wanted[0], keep), wanted[i].target.value;
    var rest := wanted[1..];
    assert forall j :: 0 <= j < |rest| ==> rest[j] == wanted[j + 1];
    if i > 0 {
      OtherStepKeeps(archive, m, d, wanted[0], p, keep);
      OrphansStay(d.disk.fs, d1.disk.fs, p);
      RestoreGivesBack(c, sites, databases, d1, rest, keep, i - 1, k);
    } else {
      SiteGivenBack(c, sites, databases, d, wanted[0], keep, k);
      OtherStepsKeep(archive, m, d1, rest, p, keep);
      TreeStays(d1.disk.fs, RestoreSites(d1, archive, m, rest, keep).disk.fs, p, RestoredAll(sites[k].children.value));
    }
  }

  lemma SiteGivenBack(c: Codec, sites: seq<SiteInput>, databases: seq<DatabaseInput>, d: Done, w: Wanted, keep: bool, k: nat)
    requires Request(sites, databases, k, w.domain) && Ready(d.disk.fs, w, sites[k]) && ProperTarget(w)
    requires RestoreSite(d, Written(c, sites, databases), ManifestOf(c.hash, sites, databases), w, keep).ok
    ensures var d1 := RestoreSite(d, Written(c, sites, databases), ManifestOf(c.hash, sites, databases), w, keep);
            TreeAt(d1.disk.fs, w.target.value, RestoredAll(sites[k].children.value))
  {
    hide Request, RecoverableAll, ManifestOf, Written, TreeAt, RestoredAll, Proper, NoOrphans, Unpack, FindSite, FileCount, ContentBytes;
    UnpackThroughManifest(c, sites, databases, k, w.domain, d.disk, w.target.value, w.stamp, keep);
  }

  /**** What a restore reports ****/

  // The manifest has a site of this domain, in whatever case.
  ghost predicate Held(m: Manifest, name: string) {
    exists i :: 0 <= i < |m.sites| && EqualFold(m.sites[i].domain, name)
  }

  ghost function Names(m: Manifest, wanted: seq<Wanted>, held: bool): seq<string> {
    if wanted == [] then []
    else (if Held(m, wanted[0].domain) == held then [wanted[0].domain] else []) + Names(m, wanted[1..], held)
  }

  lemma StepTells(archive: Source, m: Manifest, d: Done, w: Wanted, keep: bool)
    requires d.ok
    ensures var d1 := RestoreSite(d, archive, m, w, keep);
            && (!d1.ok ==> Held(m, w.domain) && d1.restored == d.restored && d1.skipped == d.skipped)
            && (d1.ok ==> d1.restored == d.restored + Names(m, [w], true) && d1.skipped == d.skipped + Names(m, [w], false))
  {
    hide Unpack, FindSite, EqualFold;
    assert [w][1..] == [];
    var found := FindSite(m.sites, w.domain);
    if found.Some? {
      var i :| 0 <= i < |m.sites| && m.sites[i] == found.value;
      assert Held(m, w.domain);
    }
  }

  lemma NamesOn(m: Manifest, w: Wanted, rest: seq<Wanted>, held: bool)
    ensures Names(m, [w] + rest, held) == Names(m, [w], held) + Names(m, rest, held)
  {
    hide Held;
    assert [w][1..] == [] && ([w] + rest)[1..] == rest;
  }

  // Of the sites dealt with, those the backup holds are reported as restored and the others as skipped, in
  // the order they were asked for. A restore that stopped did so at a site the backup holds.
  lemma {:induction false} ListsTell(archive: Source, m: Manifest, d: Done, wanted: seq<Wanted>, keep: bool) returns (n: nat)
    requires d.ok
    ensures var r := RestoreSites(d, archive, m, wanted, keep);
            && n <= |wanted| && (r.ok <==> n == |wanted|) && (!r.ok ==> Held(m, wanted[n].domain))
            && r.restored == d.restored + Names(m, wanted[..n], true) && r.skipped == d.skipped + Names(m, wanted[..n], false)
    decreases |wanted|
  {
    hide RestoreSite, Held, Names;
    n := 0;
    NoNames(m);
    if wanted != [] {
      StepTells(archive, m, d, wanted[0], keep);
      var d1 := RestoreSite(d, archive, m, wanted[0], keep);
      if d1.ok {
        var k := ListsTell(archive, m, d1, wanted[1..], keep);
        n := k + 1;
        assert wanted[..n] == [wanted[0]] + wanted[1..][..k];
        NamesOn(m, wanted[0], wanted[1..][..k], true);
        NamesOn(m, wanted[0], wanted[1..][..k], false);
      }
    }
  }

  lemma NoNames(m: Manifest)
    ensures Names(m, [], true) == [] && Names(m, [], false) == []
  {
  }

  // The places the files of the sites restored were moved to, of those that were there.
  ghost function MovedOf(fs: Files, m: Manifest, wanted: seq<Wanted>): seq<Path> {
    if wanted == [] then []
    else
      var w := wanted[0];
      (if Held(m, w.domain) && w.target.Some? && w.target.value != [] && w.target.value in fs then [Aside(w.target.value, w.stamp)] else [])
      + MovedOf(fs, m, wanted[1..])
  }

  lemma {:induction false} SameMoved(a: Files, b: Files, m: Manifest, wanted: seq<Wanted>)
    requires forall j :: 0 <= j < |wanted| && wanted[j].target.Some? && wanted[j].target.value != [] ==>
               (wanted[j].target.value in a <==> wanted[j].target.value in b)
    ensures MovedOf(a, m, wanted) == MovedOf(b, m, wanted)
  {
    hide Held, Aside;
    if wanted != [] {
      assert forall j :: 0 <= j < |wanted[1..]| ==> wanted[1..][j] == wanted[j + 1];
      SameMoved(a, b, m, wanted[1..]);
    }
  }

  lemma StepMoves(archive: Source, m: Manifest, d: Done, w: Wanted)
    requires d.ok && ProperTarget(w) && RestoreSite(d, archive, m, w, true).ok
    ensures RestoreSite(d, archive, m, w, true).moved == d.moved + MovedOf(d.disk.fs, m, [w])
  {
    hide Unpack, FindSite, EqualFold, Aside, SameBelow, PartBelow, Proper;
    assert [w][1..] == [];
    var found := FindSite(m.sites, w.domain);
    if found.Some? {
      var i :| 0 <= i < |m.sites| && m.sites[i] == found.value;
      assert Held(m, w.domain);
      var target := w.target.value;
      if target in d.disk.fs {
        UnpackKeepsOriginal(d.disk, Some(archive), found.value.prefix, target, w.stamp, true);
      } else {
        NothingMoved(d.disk, Some(archive), found.value.prefix, target, w.stamp, true);
      }
    }
  }

  lemma NothingMoved(s: State, archive: Option<Source>, prefix: string, target: Path, stamp: string, keep: bool)
    requires target != [] && target !in s.fs
    ensures Unpack(s, archive, prefix, target, stamp, keep).moved.None?
  {
    hide Extract, RemoveAll, Rename;
  }

  // With the previous files kept, a restore that went through reports for each site it restored over
  // existing files where these are.
  lemma {:induction false} MovedTells(archive: Source, m: Manifest, d: Done, wanted: seq<Wanted>)
    requires d.ok && RestoreSites(d, archive, m, wanted, true).ok
    requires forall j :: 0 <= j < |wanted| ==> ProperTarget(wanted[j])
    requires forall i, j :: 0 <= i < |wanted| && 0 <= j < |wanted| && i != j ==> Independent(wanted[i], wanted[j])
    ensures RestoreSites(d, archive, m, wanted, true).moved == d.moved + MovedOf(d.disk.fs, m, wanted)
    decreases |wanted|
  {
    hide RestoreSite, Held, Aside, ProperTarget, Apart, KeptBelow;
    if wanted != [] {
      var w, rest, d1 := wanted[0], wanted[1..], RestoreSite(d, archive, m, wanted[0], true);
      assert forall j :: 0 <= j < |rest| ==> rest[j] == wanted[j + 1];
      StepMoves(archive, m, d, w);
      forall j | 0 <= j < |rest| && rest[j].target.Some? && rest[j].target.value != []
        ensures rest[j].target.value in d.disk.fs <==> rest[j].target.value in d1.disk.fs
      {
        assert Independent(wanted[j + 1], wanted[0]);
        OtherStepKeeps(archive, m, d, w, rest[j].target.value, true);
        KeptItself(d.disk.fs, d1.disk.fs, rest[j].target.value);
      }
      MovedTells(archive, m, d1, rest);
      SameMoved(d.disk.fs, d1.disk.fs, m, rest);
      MovedOn(d.disk.fs, m, w, rest);
      assert [w] + rest == wanted;
    }
  }

  lemma KeptItself(a: Files, b: Files, p: Path)
    requires KeptBelow(a, b, p)
    ensures p in a <==> p in b
  {
    assert Under(p, p);
  }

  lemma MovedOn(fs: Files, m: Manifest, w: Wanted, rest: seq<Wanted>)
    ensures MovedOf(fs, m, [w] + rest) == MovedOf(fs, m, [w]) + MovedOf(fs, m, rest)
  {
    hide Held, Aside;
    assert [w][1..] == [] && ([w] + rest)[1..] == rest;
  }
}
