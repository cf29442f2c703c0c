// Restoring undoes backing up: extractPrefix of agent/internal/backup/restore.go after walkTree of
// agent/internal/backup/archive.go rebuilds the tree.
module RestoreTheorems {
  import opened Wrappers
  import opened Bytes
  import opened Parts
  import opened Paths
  import opened Disk
  import opened Archive
  import opened Restore

  /**** Trees a backup can bring back ****/

  // A file name free of the characters an archive may not hold.
  predicate GoodName(name: string) {
    ProperSegment(name) && '\\' !in name && '\0' !in name
  }

  ghost predicate GoodNames(names: seq<string>) {
    forall i :: 0 <= i < |names| ==> GoodName(names[i])
  }

  ghost predicate DistinctNames(children: seq<Child>) {
    forall i, j :: 0 <= i < j < |children| ==> children[i].name != children[j].name
  }

  // What a tree must be to come back whole below `root`, where it sits at `relative`: good and
  // distinct names, ordinary permission bits, sizes within the limit, links that stay inside.
  ghost predicate Restorable(root: Path, relative: seq<string>, node: Tree)
    decreases node
  {
    match node
    case Folder(mode, children) => mode < 0x200 && RestorableAll(root, relative, children)
    case File(mode, content) => 0 < mode < 0x200 && |content| <= MAX_MEMBER_BYTES
    case Link(target) => target != "" && !IsAbs(target) && root <= Resolve(root + relative, target)
    case Special => true
  }

  ghost predicate RestorableAll(root: Path, relative: seq<string>, children: seq<Child>)
    decreases children
  {
    DistinctNames(children) &&
    (children != [] ==>
       && GoodName(children[0].name)
       && Restorable(root, relative + [children[0].name], children[0].node)
       && RestorableAll(root, relative, children[1..]))
  }

  /**** The tree as nodes of a disk ****/

  // The nodes of a tree placed at `base`; directories have their own mode once `final`.
  function Placed(base: Path, node: Tree, final: bool): Files
    decreases node
  {
    match node
    case Folder(mode, children) =>
      map[base := DirNode(if final then mode else RESTORED_DIR_MODE)] + PlacedAll(base, children, final)
    case File(mode, content) => map[base := FileNode(mode, content)]
    case Link(target) => map[base := LinkNode(target)]
    case Special => map[]
  }

  function PlacedAll(base: Path, children: seq<Child>, final: bool): Files
    decreases children
  {
    if children == [] then map[]
    else Placed(base + [children[0].name], children[0].node, final) + PlacedAll(base, children[1..], final)
  }

  function DirsOf(base: Path, node: Tree): seq<Pending>
    decreases node
  {
    if node.Folder? then [Pending(base, node.mode)] + DirsOfAll(base, node.children) else []
  }

  function DirsOfAll(base: Path, children: seq<Child>): seq<Pending>
    decreases children
  {
    if children == [] then []
    else DirsOf(base + [children[0].name], children[0].node) + DirsOfAll(base, children[1..])
  }

  function FileCount(entries: seq<Entry>): nat {
    if entries == [] then 0 else (if entries[0].kind.Regular? then 1 else 0) + FileCount(entries[1..])
  }

  lemma {:induction false} FileCountAppend(a: seq<Entry>, b: seq<Entry>)
    ensures FileCount(a + b) == FileCount(a) + FileCount(b)
  {
    if a == [] {
      assert a + b == b;
    } else {
      FileCountAppend(a[1..], b);
      assert (a + b)[0] == a[0] && (a + b)[1..] == a[1..] + b;
    }
  }

  /**** Where the placed nodes are ****/

  lemma {:induction false} PlacedBelow(base: Path, node: Tree, final: bool)
    ensures forall k :: k in Placed(base, node, final) ==> Under(base, k)
    decreases node
  {
    if node.Folder? {
      PlacedAllBelow(base, node.children, final);
    }
  }

  lemma {:induction false} PlacedAllBelow(base: Path, children: seq<Child>, final: bool)
    ensures forall k :: k in PlacedAll(base, children, final) ==> Under(base, k) && |k| > |base|
    ensures forall k :: k in PlacedAll(base, children, final) ==>
              exists i :: 0 <= i < |children| && k[|base|] == children[i].name
    decreases children
  {
    if children != [] {
      var first := base + [children[0].name];
      PlacedBelow(first, children[0].node, final);
      PlacedAllBelow(base, children[1..], final);
      forall k | k in PlacedAll(base, children, final)
        ensures Under(base, k) && |k| > |base| && exists i :: 0 <= i < |children| && k[|base|] == children[i].name
      {
        if k in PlacedAll(base, children[1..], final) {
          var i :| 0 <= i < |children[1..]| && k[|base|] == children[1..][i].name;
          assert children[i + 1].name == k[|base|];
        } else {
          assert Under(first, k);
          assert k[|base|] == first[|base|] == children[0].name;
        }
      }
    }
  }

  // The first child's nodes and the other children's are apart.
  lemma SiblingsApart(base: Path, children: seq<Child>, final: bool, final': bool)
    requires children != [] && DistinctNames(children)
    ensures Placed(base + [children[0].name], children[0].node, final).Keys
         !! PlacedAll(base, children[1..], final').Keys
  {
    var first := base + [children[0].name];
    PlacedBelow(first, children[0].node, final);
    PlacedAllBelow(base, children[1..], final');
    forall k | k in Placed(first, children[0].node, final) ensures k !in PlacedAll(base, children[1..], final') {
      assert k[|base|] == first[|base|] == children[0].name;
      assert forall i :: 0 <= i < |children[1..]| ==> children[1..][i].name != children[0].name;
    }
  }

  /**** One entry ****/

  lemma {:induction false} JoinLacks(names: seq<string>, c: char)
    requires c != '/' && forall i :: 0 <= i < |names| ==> c !in names[i]
    ensures c !in Join(names, '/')
  {
    if |names| > 1 {
      JoinLacks(names[1..], c);
    }
  }

  lemma GoodIsProper(names: seq<string>)
    requires GoodNames(names)
    ensures Proper(names) && Free(names, '/')
  {
  }

  lemma ProperAppend(a: seq<string>, b: seq<string>)
    requires Proper(a) && Proper(b)
    ensures Proper(a + b)
  {
  }

  // The name a walk gives a member, with or without a directory's slash, is read back as its place
  // below the prefix.
  lemma NameReadsBack(prefix: seq<string>, relative: seq<string>)
    requires Proper(prefix) && prefix != [] && GoodNames(relative) && relative != []
    ensures var name := MemberName(Join(prefix, '/'), relative);
            && name == Join(prefix + relative, '/') && name != "" && name[|name| - 1] != '/'
            && Relative(name, Join(prefix, '/')) == Some(Join(relative, '/'))
            && Relative(name + "/", Join(prefix, '/')) == Some(Join(relative, '/'))
  {
    hide Split, CleanSegments, Clean;
    GoodIsProper(relative);
    ProperAppend(prefix, relative);
    var all := prefix + relative;
    JoinAppend(prefix, relative, '/');
    CleanOfProper(all);
    var name := Join(all, '/');
    assert MemberName(Join(prefix, '/'), relative) == name;
    CleanOfSlashed(all);
    LastOfJoin(all);
    RelativeOfClean(name, prefix, relative);
    RelativeOfClean(name + "/", prefix, relative);
  }

  lemma RelativeOfClean(name: string, prefix: seq<string>, relative: seq<string>)
    requires Clean(name) == Join(prefix, '/') + "/" + Join(relative, '/')
    requires relative != [] && Join(relative, '/') != ""
    ensures Relative(name, Join(prefix, '/')) == Some(Join(relative, '/'))
  {
    hide Clean, Join;
    var p := Join(prefix, '/');
    assert Clean(name)[|p|..] == "/" + Join(relative, '/');
  }

  lemma {:induction false} LastOfJoin(segments: seq<string>)
    requires Proper(segments) && segments != []
    ensures Join(segments, '/') != "" && Join(segments, '/')[|Join(segments, '/')| - 1] != '/'
  {
    if |segments| > 1 {
      LastOfJoin(segments[1..]);
    }
  }

  lemma CleanOfSlashed(segments: seq<string>)
    requires Proper(segments) && segments != []
    ensures Clean(Join(segments, '/') + "/") == Join(segments, '/')
  {
    hide Split, Join;
    var name := Join(segments, '/');
    CleanOfProper(segments);
    ProperIsFree(segments);
    SplitOfJoin(segments, '/');
    SplitAppendSlash(name);
    LastOfJoin(segments);
    assert IsAbs(name + "/") == IsAbs(name);
    CleanOntoSlashed(segments);
  }

  lemma CleanOntoSlashed(segments: seq<string>)
    requires Proper(segments)
    ensures CleanOnto([], segments + [""], false) == segments
  {
    assert NoDotDot(segments + [""]);
    CleanWithoutDotDot([], segments + [""], false);
    NamedOfProper(segments);
    assert [] + segments == segments;
  }

  lemma {:induction false} NamedOfProper(segments: seq<string>)
    requires Proper(segments)
    ensures Named(segments + [""]) == segments
  {
    if segments == [] {
      assert [""][1..] == [];
      assert Named([""]) == [] + Named([]);
      assert segments + [""] == [""];
    } else {
      NamedOfProper(segments[1..]);
      assert (segments + [""])[1..] == segments[1..] + [""];
    }
  }

  // Below any root but "/" the name lands at its own place.
  lemma PlaceOf(root: Path, relative: seq<string>)
    requires Proper(root) && root != [] && GoodNames(relative) && relative != []
    ensures SafeMemberPath(root, Join(relative, '/')) == Success(root + relative)
    ensures CheckMemberName(Join(relative, '/')).None? && CleanSegments(Join(relative, '/')) == relative
  {
    hide Split, Join, CleanSegments, TrimSlashes;
    var name := Join(relative, '/');
    GoodIsProper(relative);
    CleanOfProper(relative);
    LastOfJoin(relative);
    JoinLacks(relative, '\\');
    JoinLacks(relative, '\0');
    TrimmingKeepsDotDot(name);
    SplitOfJoin(relative, '/');
    assert NoDotDot(relative);
    MemberChecksAgree(root, name);
  }

  // The state before an entry: its parent is there, and nothing at its own place.
  ghost predicate Ready(fs: Files, place: Path) {
    place != [] && Vacant(fs, place) && place[..|place| - 1] in fs && fs[place[..|place| - 1]].DirNode?
  }

  lemma ReadyCanCreate(fs: Files, place: Path)
    requires Ready(fs, place)
    ensures CanCreate(fs, place)
    ensures MakeDirs(fs, Dir(place), RESTORED_DIR_MODE) == Some(fs)
    ensures MakeDirs(fs, place, RESTORED_DIR_MODE) == Some(fs[place := DirNode(RESTORED_DIR_MODE)])
  {
    assert Under(place, place);
    var parent := place[..|place| - 1];
    assert MakeDirs(fs, parent, RESTORED_DIR_MODE) == Some(fs);
  }

  // The node its own entry makes of a tree.
  function FirstNode(node: Tree): Node
    requires !node.Special?
  {
    match node
    case Folder(_, _) => DirNode(RESTORED_DIR_MODE)
    case File(mode, content) => FileNode(mode, content)
    case Link(to) => LinkNode(to)
  }

  // One entry of a restorable tree puts its one node in place.
  lemma EntryPlaced(p: Progress, e: Entry, relative: seq<string>, node: Tree, target: Path)
    requires Proper(target) && target != [] && GoodNames(relative) && relative != []
    requires Ready(p.disk.fs, target + relative) && Restorable(target, relative, node) && !node.Special?
    requires e.kind == if node.Folder? then Directory else if node.File? then Regular else Symlink
    requires match node
             case Folder(mode, _) => Perm(e.mode) == mode
             case File(mode, content) => Perm(e.mode) == mode && e.content == content
             case Link(to) => e.link == to
             case Special => true
    ensures var place := target + relative;
            var (p1, ok) := ExtractTo(p, e, Join(relative, '/'), place, target);
            && (p.disk.faults == [] ==> ok && p1.disk.faults == [])
            && (ok ==>
                  && p1.disk.fs == p.disk.fs[place := FirstNode(node)]
                  && p1.files == p.files + (if node.File? then 1 else 0)
                  && p1.bytes == p.bytes + (if node.File? then |node.content| else 0)
                  && p1.dirs == p.dirs + (if node.Folder? then [Pending(place, node.mode)] else []))
  {
    hide Join, MakeDirs, SafeMemberPath, Resolve, CanCreate, Perm;
    var place := target + relative;
    ReadyCanCreate(p.disk.fs, place);
    if node.Link? {
      PlaceOf(target, relative);
      AcceptedLinkStaysInside(target, Join(relative, '/'), node.target);
    }
  }

  /**** The entries of a whole tree ****/

  lemma {:induction false} ExtractAppend(p: Progress, a: seq<Entry>, b: seq<Entry>, prefix: string, target: Path)
    ensures var (p1, ok) := ExtractEntries(p, a, prefix, target);
            ExtractEntries(p, a + b, prefix, target) == if ok then ExtractEntries(p1, b, prefix, target) else (p1, false)
    decreases |a|
  {
    hide ExtractEntry;
    if a == [] {
      assert a + b == b;
    } else {
      assert (a + b)[0] == a[0] && (a + b)[1..] == a[1..] + b;
      var (p1, ok) := ExtractEntry(p, a[0], prefix, target);
      if ok {
        ExtractAppend(p1, a[1..], b, prefix, target);
      }
    }
  }

  lemma ExtractSingle(p: Progress, e: Entry, prefix: string, target: Path)
    ensures ExtractEntries(p, [e], prefix, target) == ExtractEntry(p, e, prefix, target)
  {
    assert [e][1..] == [];
  }

  // What extracting the entries of a part of the tree, at `place`, does to the progress made.
  ghost predicate Grown(p: Progress, p1: Progress, nodes: Files, dirs: seq<Pending>, files: nat, bytes: nat) {
    p1.disk.fs == p.disk.fs + nodes && p1.dirs == p.dirs + dirs && p1.files == p.files + files && p1.bytes == p.bytes + bytes
  }

  // Done without error the progress is this; and without faults it is done without error.
  ghost predicate Extracted(p: Progress, entries: seq<Entry>, prefix: string, target: Path, nodes: Files, dirs: seq<Pending>) {
    var (p1, ok) := ExtractEntries(p, entries, prefix, target);
    && (p.disk.faults == [] ==> ok && p1.disk.faults == [])
    && (ok ==> Grown(p, p1, nodes, dirs, FileCount(entries), ContentBytes(entries)))
  }

  lemma ExtractedTwice(p: Progress, a: seq<Entry>, b: seq<Entry>, prefix: string, target: Path,
                       nodes: Files, dirs: seq<Pending>, nodes': Files, dirs': seq<Pending>)
    requires Extracted(p, a, prefix, target, nodes, dirs)
    requires var (p1, ok) := ExtractEntries(p, a, prefix, target); ok ==> Extracted(p1, b, prefix, target, nodes', dirs')
    ensures Extracted(p, a + b, prefix, target, nodes + nodes', dirs + dirs')
  {
    hide ExtractEntries;
    ExtractAppend(p, a, b, prefix, target);
    FileCountAppend(a, b);
    MembersAppend(_ => "", a, b);
    var (p1, ok) := ExtractEntries(p, a, prefix, target);
    if ok {
      Assoc(p.dirs, dirs, dirs');
      assert p.disk.fs + nodes + nodes' == p.disk.fs + (nodes + nodes');
    }
  }

  lemma OneExtracted(p: Progress, e: Entry, prefix: seq<string>, relative: seq<string>, node: Tree, target: Path)
    requires Proper(target) && target != [] && Proper(prefix) && prefix != [] && GoodNames(relative) && relative != []
    requires Ready(p.disk.fs, target + relative) && Restorable(target, relative, node) && !node.Special?
    requires EntriesOf(Join(prefix, '/'), relative, node) != [] && e == EntriesOf(Join(prefix, '/'), relative, node)[0]
    ensures Extracted(p, [e], Join(prefix, '/'), target, map[target + relative := FirstNode(node)],
                      if node.Folder? then [Pending(target + relative, node.mode)] else [])
  {
    hide Join, MemberName, Relative, ExtractTo, Restorable, SafeMemberPath, Proper, GoodNames, Ready, ExtractEntry, ExtractEntries;
    EntryIsOfNode(target, prefix, relative, node);
    PlaceOf(target, relative);
    EntryPlaced(p, e, relative, node, target);
    ExtractSingle(p, e, Join(prefix, '/'), target);
    EntryGoesTo(p, e, Join(prefix, '/'), Join(relative, '/'), target + relative, target);
    OneCount(e);
    GrownByOne(p, ExtractTo(p, e, Join(relative, '/'), target + relative, target).0, target + relative, node);
  }

  lemma OneCount(e: Entry)
    ensures FileCount([e]) == (if e.kind.Regular? then 1 else 0)
    ensures ContentBytes([e]) == (if e.kind.Regular? then |e.content| else 0)
  {
    assert [e][1..] == [];
  }

  lemma GrownByOne(p: Progress, p1: Progress, place: Path, node: Tree)
    requires !node.Special?
    ensures p1.disk.fs == p.disk.fs[place := FirstNode(node)] ==> p1.disk.fs == p.disk.fs + map[place := FirstNode(node)]
  {
  }

  lemma EntryGoesTo(p: Progress, e: Entry, prefix: string, relative: string, place: Path, target: Path)
    requires Relative(e.name, prefix) == Some(relative) && SafeMemberPath(target, relative) == Success(place)
    ensures ExtractEntry(p, e, prefix, target) == ExtractTo(p, e, relative, place, target)
  {
  }

  lemma EntryIsOfNode(target: Path, prefix: seq<string>, relative: seq<string>, node: Tree)
    requires Proper(prefix) && prefix != [] && GoodNames(relative) && relative != []
    requires Restorable(target, relative, node) && !node.Special?
    ensures var e := EntriesOf(Join(prefix, '/'), relative, node)[0];
            && Relative(e.name, Join(prefix, '/')) == Some(Join(relative, '/'))
            && e.kind == (if node.Folder? then Directory else if node.File? then Regular else Symlink)
            && match node
               case Folder(mode, _) => Perm(e.mode) == mode
               case File(mode, content) => Perm(e.mode) == mode && e.content == content
               case Link(to) => e.link == to
               case Special => true
  {
    hide Join, MemberName, Relative;
    NameReadsBack(prefix, relative);
    PermOfModes(target, relative, node);
  }

  // Permission bits survive being archived.
  lemma PermOfModes(root: Path, relative: seq<string>, node: Tree)
    requires Restorable(root, relative, node)
    ensures node.Folder? || node.File? ==> Perm(Perm(node.mode)) == node.mode
  {
  }

  lemma {:induction false} TreeExtracted(p: Progress, prefix: seq<string>, relative: seq<string>, node: Tree, target: Path)
    requires Proper(target) && target != [] && Proper(prefix) && prefix != [] && GoodNames(relative) && relative != []
    requires Ready(p.disk.fs, target + relative) && Restorable(target, relative, node)
    ensures Extracted(p, EntriesOf(Join(prefix, '/'), relative, node), Join(prefix, '/'), target,
                      Placed(target + relative, node, false), DirsOf(target + relative, node))
    decreases node
  {
    hide Join, MemberName, ExtractEntries, Extracted;
    var place, name := target + relative, Join(prefix, '/');
    match node
    case Special =>
      NothingExtracted(p, name, target);
    case Folder(mode, children) =>
      var e := EntriesOf(name, relative, node)[0];
      OneExtracted(p, e, prefix, relative, node, target);
      var (p1, ok) := ExtractEntries(p, [e], name, target);
      if ok {
        FolderMade(p, p1, [e], name, target, place, mode);
        TreesExtracted(p1, prefix, relative, children, target);
      }
      ExtractedTwice(p, [e], EntriesOfAll(name, relative, children), name, target,
                     map[place := DirNode(RESTORED_DIR_MODE)], [Pending(place, mode)],
                     PlacedAll(place, children, false), DirsOfAll(place, children));
    case File(_, _) =>
      OneExtracted(p, EntriesOf(name, relative, node)[0], prefix, relative, node, target);
    case Link(_) =>
      OneExtracted(p, EntriesOf(name, relative, node)[0], prefix, relative, node, target);
  }

  lemma NothingExtracted(p: Progress, prefix: string, target: Path)
    ensures Extracted(p, [], prefix, target, map[], [])
  {
    assert p.disk.fs + map[] == p.disk.fs;
  }

  // A folder's own entry leaves it an empty directory.
  lemma FolderMade(p: Progress, p1: Progress, entries: seq<Entry>, prefix: string, target: Path, place: Path, mode: nat)
    requires Vacant(p.disk.fs, place)
    requires ExtractEntries(p, entries, prefix, target) == (p1, true)
    requires Extracted(p, entries, prefix, target, map[place := DirNode(RESTORED_DIR_MODE)], [Pending(place, mode)])
    ensures OpenAt(p1.disk.fs, place, [])
  {
  }

  // A directory with no node for any of these names in it yet.
  ghost predicate OpenAt(fs: Files, place: Path, taken: seq<string>) {
    && place in fs && fs[place].DirNode?
    && forall k :: k in fs && Under(place, k) && |k| > |place| ==> k[|place|] in taken
  }

  ghost predicate NoneTaken(children: seq<Child>, taken: seq<string>) {
    forall i :: 0 <= i < |children| ==> children[i].name !in taken
  }

  lemma OpenIsReady(fs: Files, place: Path, taken: seq<string>, name: string)
    requires OpenAt(fs, place, taken) && name !in taken
    ensures Ready(fs, place + [name])
  {
    forall k | k in fs ensures !Under(place + [name], k) {
      NameOfBelow(place, name, k);
    }
  }

  lemma NameOfBelow(place: Path, name: string, k: Path)
    ensures Under(place + [name], k) ==> |k| > |place| && Under(place, k) && k[|place|] == name
  {
    if Under(place + [name], k) {
      assert k[|place|] == (place + [name])[|place|];
    }
  }

  lemma StaysOpen(fs: Files, nodes: Files, place: Path, taken: seq<string>, name: string)
    requires OpenAt(fs, place, taken)
    requires forall k :: k in nodes ==> Under(place + [name], k)
    ensures OpenAt(fs + nodes, place, taken + [name])
  {
    forall k | k in nodes ensures k != place && k[|place|] == name {
      assert k[|place|] == (place + [name])[|place|];
    }
  }

  lemma {:induction false} TreesExtracted(p: Progress, prefix: seq<string>, relative: seq<string>, children: seq<Child>, target: Path)
    requires Proper(target) && target != [] && Proper(prefix) && prefix != [] && GoodNames(relative)
    requires OpenAt(p.disk.fs, target + relative, []) && RestorableAll(target, relative, children)
    ensures Extracted(p, EntriesOfAll(Join(prefix, '/'), relative, children), Join(prefix, '/'), target,
                      PlacedAll(target + relative, children, false), DirsOfAll(target + relative, children))
    decreases children, 1
  {
    MoreExtracted(p, prefix, relative, children, [], target);
  }

  lemma {:induction false} MoreExtracted(p: Progress, prefix: seq<string>, relative: seq<string>, children: seq<Child>,
                                         taken: seq<string>, target: Path)
    requires Proper(target) && target != [] && Proper(prefix) && prefix != [] && GoodNames(relative)
    requires OpenAt(p.disk.fs, target + relative, taken) && RestorableAll(target, relative, children)
    requires NoneTaken(children, taken)
    ensures Extracted(p, EntriesOfAll(Join(prefix, '/'), relative, children), Join(prefix, '/'), target,
                      PlacedAll(target + relative, children, false), DirsOfAll(target + relative, children))
    decreases children, 0
  {
    hide Join, ExtractEntries, Extracted, Restorable, Ready, GoodName;
    var place, name := target + relative, Join(prefix, '/');
    if children == [] {
      NothingExtracted(p, name, target);
    } else {
      var child, below := children[0], relative + [children[0].name];
      assert target + below == place + [child.name];
      OpenIsReady(p.disk.fs, place, taken, child.name);
      TreeExtracted(p, prefix, below, child.node, target);
      var first := EntriesOf(name, below, child.node);
      var (p1, ok) := ExtractEntries(p, first, name, target);
      if ok {
        ChildMade(p, p1, first, name, target, place, child, taken);
        assert NoneTaken(children[1..], taken + [child.name]);
        MoreExtracted(p1, prefix, relative, children[1..], taken + [child.name], target);
      }
      ExtractedTwice(p, first, EntriesOfAll(name, relative, children[1..]), name, target,
                     Placed(place + [child.name], child.node, false), DirsOf(place + [child.name], child.node),
                     PlacedAll(place, children[1..], false), DirsOfAll(place, children[1..]));
    }
  }

  lemma ChildMade(p: Progress, p1: Progress, entries: seq<Entry>, prefix: string, target: Path, place: Path, child: Child,
                  taken: seq<string>)
    requires OpenAt(p.disk.fs, place, taken)
    requires ExtractEntries(p, entries, prefix, target) == (p1, true)
    requires Extracted(p, entries, prefix, target, Placed(place + [child.name], child.node, false),
                       DirsOf(place + [child.name], child.node))
    ensures OpenAt(p1.disk.fs, place, taken + [child.name])
  {
    hide Placed, DirsOf, OpenAt;
    PlacedBelow(place + [child.name], child.node, false);
    StaysOpen(p.disk.fs, Placed(place + [child.name], child.node, false), place, taken, child.name);
  }

  /**** Directory modes ****/

  function SetModes(fs: Files, dirs: seq<Pending>): Files
    decreases |dirs|
  {
    if dirs == [] then fs
    else
      var last := dirs[|dirs| - 1];
      SetModes(fs[last.path := DirNode(last.mode)], dirs[..|dirs| - 1])
  }

  ghost predicate AllDirs(fs: Files, dirs: seq<Pending>) {
    forall i :: 0 <= i < |dirs| ==> dirs[i].path in fs && fs[dirs[i].path].DirNode?
  }

  lemma {:induction false} ModesApplied(s: State, dirs: seq<Pending>)
    requires AllDirs(s.fs, dirs)
    ensures var (s1, ok) := ApplyModes(s, dirs);
            (s.faults == [] ==> ok) && (ok ==> s1.fs == SetModes(s.fs, dirs))
    decreases |dirs|
  {
    if dirs != [] {
      var last := dirs[|dirs| - 1];
      var (s1, ok) := Chmod(s, last.path, last.mode);
      if ok {
        assert s1.fs == s.fs[last.path := DirNode(last.mode)];
        ModesApplied(s1, dirs[..|dirs| - 1]);
      }
    }
  }

  lemma {:induction false} SetModesAppend(fs: Files, a: seq<Pending>, b: seq<Pending>)
    ensures SetModes(fs, a + b) == SetModes(SetModes(fs, b), a)
    decreases |b|
  {
    if b == [] {
      assert a + b == a;
    } else {
      var last := b[|b| - 1];
      assert (a + b)[..|a + b| - 1] == a + b[..|b| - 1];
      SetModesAppend(fs[last.path := DirNode(last.mode)], a, b[..|b| - 1]);
    }
  }

  lemma MergeAssoc(a: Files, b: Files, c: Files)
    ensures a + (b + c) == a + b + c
  {
  }

  lemma MergeSwap(a: Files, b: Files, c: Files)
    requires b.Keys !! c.Keys
    ensures a + b + c == a + c + b
  {
  }

  lemma {:induction false} DirsPlaced(base: Path, root: Path, relative: seq<string>, node: Tree)
    requires Restorable(root, relative, node)
    ensures AllDirs(Placed(base, node, false), DirsOf(base, node))
    decreases node
  {
    if node.Folder? {
      DirsPlacedAll(base, root, relative, node.children);
      PlacedAllBelow(base, node.children, false);
    }
  }

  lemma {:induction false} DirsPlacedAll(base: Path, root: Path, relative: seq<string>, children: seq<Child>)
    requires RestorableAll(root, relative, children)
    ensures AllDirs(PlacedAll(base, children, false), DirsOfAll(base, children))
    decreases children
  {
    hide Restorable, Placed, DirsOf, GoodName;
    if children != [] {
      DirsPlaced(base + [children[0].name], root, relative + [children[0].name], children[0].node);
      DirsPlacedAll(base, root, relative, children[1..]);
      SiblingsApart(base, children, false, false);
      AllDirsTogether(Placed(base + [children[0].name], children[0].node, false), PlacedAll(base, children[1..], false),
                      DirsOf(base + [children[0].name], children[0].node), DirsOfAll(base, children[1..]));
    }
  }

  lemma AllDirsTogether(f: Files, r: Files, a: seq<Pending>, b: seq<Pending>)
    requires AllDirs(f, a) && AllDirs(r, b) && f.Keys !! r.Keys
    ensures AllDirs(f + r, a + b)
  {
  }

  // Applying the pending modes of a tree finishes it.
  lemma {:induction false} TreeModes(g: Files, base: Path, root: Path, relative: seq<string>, node: Tree)
    requires Restorable(root, relative, node)
    ensures SetModes(g + Placed(base, node, false), DirsOf(base, node)) == g + Placed(base, node, true)
    decreases node
  {
    hide SetModes, PlacedAll, DirsOfAll, RestorableAll, Resolve;
    if node.Folder? {
      FolderModes(g, base, root, relative, node.mode, node.children);
    } else {
      SetNone(g + Placed(base, node, false));
    }
  }

  lemma {:induction false} FolderModes(g: Files, base: Path, root: Path, relative: seq<string>, mode: nat, children: seq<Child>)
    requires RestorableAll(root, relative, children)
    ensures SetModes(g + (map[base := DirNode(RESTORED_DIR_MODE)] + PlacedAll(base, children, false)),
                     [Pending(base, mode)] + DirsOfAll(base, children))
         == g + (map[base := DirNode(mode)] + PlacedAll(base, children, true))
    decreases children, 1
  {
    hide SetModes, PlacedAll, DirsOfAll, RestorableAll;
    var start := map[base := DirNode(RESTORED_DIR_MODE)];
    var all := g + (start + PlacedAll(base, children, false));
    MergeAssoc(g, start, PlacedAll(base, children, false));
    SetModesAppend(all, [Pending(base, mode)], DirsOfAll(base, children));
    TreesModes(g + start, base, root, relative, children);
    SetOne(g + start + PlacedAll(base, children, true), base, mode);
    PlacedAllBelow(base, children, true);
    OwnModeCommutes(g, base, mode, PlacedAll(base, children, true));
  }

  lemma SetOne(fs: Files, path: Path, mode: nat)
    ensures SetModes(fs, [Pending(path, mode)]) == fs[path := DirNode(mode)]
  {
    assert [Pending(path, mode)][..0] == [];
  }

  lemma SetNone(fs: Files)
    ensures SetModes(fs, []) == fs
  {
  }

  lemma OwnModeCommutes(g: Files, base: Path, mode: nat, below: Files)
    requires base !in below
    ensures (g + map[base := DirNode(RESTORED_DIR_MODE)] + below)[base := DirNode(mode)]
         == g + (map[base := DirNode(mode)] + below)
  {
  }

  lemma {:induction false} TreesModes(g: Files, base: Path, root: Path, relative: seq<string>, children: seq<Child>)
    requires RestorableAll(root, relative, children)
    ensures SetModes(g + PlacedAll(base, children, false), DirsOfAll(base, children)) == g + PlacedAll(base, children, true)
    decreases children, 0
  {
    hide SetModes, Restorable, Placed, DirsOf, GoodName;
    if children == [] {
      SetNone(g + PlacedAll(base, children, false));
    } else {
      var first, node, rest := base + [children[0].name], children[0].node, children[1..];
      SiblingsApart(base, children, false, true);
      SiblingsApart(base, children, true, true);
      var f0, f1 := Placed(first, node, false), Placed(first, node, true);
      var r0, r1 := PlacedAll(base, rest, false), PlacedAll(base, rest, true);
      MergeAssoc(g, f0, r0);
      SetModesAppend(g + f0 + r0, DirsOf(first, node), DirsOfAll(base, rest));
      TreesModes(g + f0, base, root, relative, rest);
      MergeSwap(g, f0, r1);
      TreeModes(g + r1, first, root, relative + [children[0].name], node);
      MergeSwap(g, f1, r1);
      MergeAssoc(g, f1, r1);
    }
  }

  /**** Other members ****/

  ghost predicate Ignored(entries: seq<Entry>, prefix: string) {
    forall i :: 0 <= i < |entries| ==> Relative(entries[i].name, prefix).None?
  }

  lemma {:induction false} IgnoredChangeNothing(p: Progress, entries: seq<Entry>, prefix: string, target: Path)
    requires Ignored(entries, prefix)
    ensures ExtractEntries(p, entries, prefix, target) == (p, true)
    decreases |entries|
  {
    hide Relative;
    if entries != [] {
      IgnoredChangeNothing(p, entries[1..], prefix, target);
    }
  }

  /**** The round trip ****/

  lemma TargetIsOpen(fs: Files, target: Path)
    requires Vacant(fs, target) && target != [] && MakeDirs(fs, target, RESTORED_DIR_MODE).Some?
    ensures OpenAt(MakeDirs(fs, target, RESTORED_DIR_MODE).value, target, [])
  {
    assert Under(target, target);
    var parent := target[..|target| - 1];
    var made := MakeDirs(fs, parent, RESTORED_DIR_MODE).value;
    MakeDirsOnlyBelow(fs, parent, RESTORED_DIR_MODE, parent);
    ShorterMade(fs, parent, RESTORED_DIR_MODE);
  }

  // Making directories adds nothing longer than the path made.
  lemma {:induction false} ShorterMade(fs: Files, p: Path, mode: nat)
    requires MakeDirs(fs, p, mode).Some?
    ensures forall k :: k in MakeDirs(fs, p, mode).value && k !in fs ==> |k| <= |p|
    decreases |p|
  {
    if p !in fs && p != [] {
      ShorterMade(fs, p[..|p| - 1], mode);
    }
  }

  // Extracting what the walk of a tree archived, beside whatever other members, rebuilds the tree
  // below the target: the same paths, contents, link targets and modes and nothing more. The files
  // and bytes counted are the tree's.
  lemma RestoreUndoesBackup(s: State, prefix: seq<string>, children: seq<Child>, before: seq<Entry>, after: seq<Entry>,
                            target: Path)
    requires Proper(prefix) && prefix != [] && Proper(target) && target != [] && Vacant(s.fs, target)
    requires RestorableAll(target, [], children)
    requires Ignored(before, Join(prefix, '/')) && Ignored(after, Join(prefix, '/'))
    ensures var entries := EntriesOfAll(Join(prefix, '/'), [], children);
            var made := MakeDirs(s.fs, target, RESTORED_DIR_MODE);
            var (p, ok) := Extract(s, Some(Source(before + entries + after, true)), Join(prefix, '/'), target);
            && (s.faults == [] && made.Some? ==> ok)
            && (ok ==>
                  && made.Some? && p.disk.fs == made.value + PlacedAll(target, children, true)
                  && (forall k :: Under(target, k) && k != target ==>
                        (k in p.disk.fs <==> k in PlacedAll(target, children, true)))
                  && p.files == FileCount(entries) && p.bytes == ContentBytes(entries))
  {
    hide Join, ExtractEntries, Extracted, ApplyModes, MakeDirs, Vacant, Ignored, SetModes, RestorableAll, Relative;
    var name := Join(prefix, '/');
    var entries := EntriesOfAll(name, [], children);
    var (d, ok) := MkdirAll(s, target, RESTORED_DIR_MODE);
    if ok {
      TargetIsOpen(s.fs, target);
      var p0 := Progress(d, 0, 0, []);
      ExtractAround(p0, before, entries, after, name, target);
      assert target + [] == target;
      assert GoodNames([]);
      TreesExtracted(p0, prefix, [], children, target);
      FinishedTree(p0, entries, name, target, children);
    }
  }

  lemma ExtractAround(p: Progress, before: seq<Entry>, entries: seq<Entry>, after: seq<Entry>, prefix: string, target: Path)
    requires Ignored(before, prefix) && Ignored(after, prefix)
    ensures ExtractEntries(p, before + entries + after, prefix, target) == ExtractEntries(p, entries, prefix, target)
  {
    hide ExtractEntries, Ignored;
    ExtractAppend(p, before + entries, after, prefix, target);
    ExtractAppend(p, before, entries, prefix, target);
    IgnoredChangeNothing(p, before, prefix, target);
    var (p1, ok) := ExtractEntries(p, entries, prefix, target);
    IgnoredChangeNothing(p1, after, prefix, target);
  }

  lemma FinishedTree(p: Progress, entries: seq<Entry>, prefix: string, target: Path, children: seq<Child>)
    requires Extracted(p, entries, prefix, target, PlacedAll(target, children, false), DirsOfAll(target, children))
    requires p.files == 0 && p.bytes == 0 && p.dirs == [] && RestorableAll(target, [], children)
    requires OpenAt(p.disk.fs, target, [])
    ensures var (p1, all) := ExtractEntries(p, entries, prefix, target);
            && (p.disk.faults == [] ==> all)
            && (all ==>
                  var (d, done) := ApplyModes(p1.disk, p1.dirs);
                  && (p.disk.faults == [] ==> done)
                  && (done ==> d.fs == p.disk.fs + PlacedAll(target, children, true))
                  && (forall k :: Under(target, k) && k != target ==>
                        (k in p.disk.fs + PlacedAll(target, children, true) <==> k in PlacedAll(target, children, true)))
                  && p1.files == FileCount(entries) && p1.bytes == ContentBytes(entries))
  {
    hide ExtractEntries, ApplyModes, SetModes, RestorableAll, PlacedAll, DirsOfAll;
    var (p1, all) := ExtractEntries(p, entries, prefix, target);
    if all {
      TreesModes(p.disk.fs, target, target, [], children);
      DirsPlacedAll(target, target, [], children);
      assert [] + DirsOfAll(target, children) == DirsOfAll(target, children);
      assert AllDirs(p1.disk.fs, p1.dirs);
      ModesApplied(p1.disk, p1.dirs);
    }
  }

  // The number of files the manifest gives a site: its members with a checksum.
  function Checksummed(members: seq<Member>): nat {
    if members == [] then 0 else (if members[0].checksum != "" then 1 else 0) + Checksummed(members[1..])
  }

  lemma {:induction false} ManifestCountsFiles(hash: bytes -> string, entries: seq<Entry>)
    requires forall b :: hash(b) != ""
    ensures Checksummed(MembersOf(hash, entries)) == FileCount(entries)
  {
    if entries != [] {
      ManifestCountsFiles(hash, entries[1..]);
      assert MembersOf(hash, entries)[1..] == MembersOf(hash, entries[1..]);
    }
  }

  /**** Other sites' members ****/

  // Names an archive holds for another prefix are not below this one.
  lemma OtherNameIgnored(prefix: seq<string>, all: seq<string>)
    requires Proper(prefix) && prefix != [] && Proper(all) && all != [] && !(prefix <= all)
    ensures Relative(Join(all, '/'), Join(prefix, '/')).None?
    ensures Relative(Join(all, '/') + "/", Join(prefix, '/')).None?
  {
    hide Split, Join, Clean;
    CleanOfProper(all);
    CleanOfSlashed(all);
    ProperIsFree(prefix);
    ProperIsFree(all);
    SplitOfJoin(prefix, '/');
    SplitOfJoin(all, '/');
    if Join(prefix, '/') + "/" <= Join(all, '/') {
      JoinPrefix(prefix, all);
    }
  }

  ghost predicate WellNamed(node: Tree)
    decreases node
  {
    node.Folder? ==> WellNamedAll(node.children)
  }

  ghost predicate WellNamedAll(children: seq<Child>)
    decreases children
  {
    children != [] ==> GoodName(children[0].name) && WellNamed(children[0].node) && WellNamedAll(children[1..])
  }

  lemma {:induction false} OtherSiteIgnored(prefix: seq<string>, other: seq<string>, relative: seq<string>, node: Tree)
    requires Proper(prefix) && prefix != [] && Proper(other) && other != [] && |prefix| == |other| && prefix != other
    requires GoodNames(relative) && relative != [] && WellNamed(node)
    ensures Ignored(EntriesOf(Join(other, '/'), relative, node), Join(prefix, '/'))
    decreases node
  {
    hide Join, MemberName, Relative;
    var all := other + relative;
    GoodIsProper(relative);
    ProperAppend(other, relative);
    NameReadsBack(other, relative);
    NotPrefix(prefix, other, relative);
    OtherNameIgnored(prefix, all);
    if node.Folder? {
      OtherSitesIgnored(prefix, other, relative, node.children);
    }
  }

  lemma NotPrefix(prefix: seq<string>, other: seq<string>, relative: seq<string>)
    requires |prefix| == |other| && prefix != other
    ensures !(prefix <= other + relative)
  {
    assert (other + relative)[..|prefix|] == other;
  }

  // Extracting one site passes over every member of another site.
  lemma {:induction false} OtherSitesIgnored(prefix: seq<string>, other: seq<string>, relative: seq<string>, children: seq<Child>)
    requires Proper(prefix) && prefix != [] && Proper(other) && other != [] && |prefix| == |other| && prefix != other
    requires GoodNames(relative) && WellNamedAll(children)
    ensures Ignored(EntriesOfAll(Join(other, '/'), relative, children), Join(prefix, '/'))
    decreases children
  {
    hide Join, MemberName, Relative, GoodName;
    if children != [] {
      var below := relative + [children[0].name];
      OtherSiteIgnored(prefix, other, below, children[0].node);
      OtherSitesIgnored(prefix, other, relative, children[1..]);
    }
  }
}
