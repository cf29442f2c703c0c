// What extraction makes of the modes a backup recorded: agent/internal/backup/restore.go keeps the
// permission bits, and gives a file recorded without any a mode of its own.
module RestoredModes {
  import opened Wrappers
  import opened Bytes
  import opened Parts
  import opened Paths
  import opened Disk
  import opened Archive
  import opened Restore
  import opened RestoreTheorems

  // The tree as it comes back.
  function Restored(node: Tree): Tree
    decreases node
  {
    match node
    case Folder(mode, children) => Folder(Perm(mode), RestoredAll(children))
    case File(mode, content) => File(FileMode(Perm(mode)), content)
    case Link(target) => node
    case Special => node
  }

  function RestoredAll(children: seq<Child>): (r: seq<Child>)
    ensures |r| == |children| && forall i :: 0 <= i < |r| ==> r[i].name == children[i].name
    decreases children
  {
    if children == [] then []
    else [Child(children[0].name, Restored(children[0].node))] + RestoredAll(children[1..])
  }

  // A mode that comes back: permission bits only, and some for a file.
  ghost predicate Ordinary(node: Tree)
    decreases node
  {
    match node
    case Folder(mode, children) => mode < 0x200 && AllOrdinary(children)
    case File(mode, content) => 0 < mode < 0x200
    case Link(target) => true
    case Special => true
  }

  ghost predicate AllOrdinary(children: seq<Child>)
    decreases children
  {
    children != [] ==> Ordinary(children[0].node) && AllOrdinary(children[1..])
  }

  // A tree comes back with the modes it had exactly when all of them are of that kind.
  lemma {:induction false} ModesComeBack(children: seq<Child>)
    ensures RestoredAll(children) == children <==> AllOrdinary(children)
    decreases children
  {
    if children != [] {
      var first, rest := children[0], children[1..];
      ModeComesBack(first.node);
      ModesComeBack(rest);
      assert children == [first] + rest;
      assert RestoredAll(children)[0] == Child(first.name, Restored(first.node)) && RestoredAll(children)[1..] == RestoredAll(rest);
    }
  }

  lemma {:induction false} ModeComesBack(node: Tree)
    ensures Restored(node) == node <==> Ordinary(node)
    decreases node
  {
    if node.Folder? {
      ModesComeBack(node.children);
    }
  }

  /**** A tree that can be restored, whatever its modes ****/

  ghost predicate Recoverable(root: Path, relative: seq<string>, node: Tree)
    decreases node
  {
    match node
    case Folder(mode, children) => RecoverableAll(root, relative, children)
    case File(mode, content) => |content| <= MAX_MEMBER_BYTES
    case Link(target) => target != "" && !IsAbs(target) && root <= Resolve(root + relative, target)
    case Special => true
  }

  ghost predicate RecoverableAll(root: Path, relative: seq<string>, children: seq<Child>)
    decreases children
  {
    DistinctNames(children) &&
    (children != [] ==>
       && GoodName(children[0].name)
       && Recoverable(root, relative + [children[0].name], children[0].node)
       && RecoverableAll(root, relative, children[1..]))
  }

  lemma {:induction false} RestoredIsRestorable(root: Path, relative: seq<string>, children: seq<Child>)
    requires RecoverableAll(root, relative, children)
    ensures RestorableAll(root, relative, RestoredAll(children))
    decreases children
  {
    hide GoodName, Resolve;
    if children != [] {
      NodeIsRestorable(root, relative + [children[0].name], children[0].node);
      RestoredIsRestorable(root, relative, children[1..]);
      assert RestoredAll(children)[1..] == RestoredAll(children[1..]);
    }
  }

  lemma {:induction false} NodeIsRestorable(root: Path, relative: seq<string>, node: Tree)
    requires Recoverable(root, relative, node)
    ensures Restorable(root, relative, Restored(node))
    decreases node
  {
    hide GoodName, Resolve, RestorableAll, RecoverableAll;
    if node.Folder? {
      RestoredIsRestorable(root, relative, node.children);
    }
  }

  /**** Both trees are extracted alike ****/

  // Two entries that extraction does not tell apart.
  predicate Alike(a: Entry, b: Entry) {
    && a.(mode := 0) == b.(mode := 0)
    && (if a.kind.Regular? then FileMode(Perm(a.mode)) == FileMode(Perm(b.mode)) else Perm(a.mode) == Perm(b.mode))
  }

  ghost predicate AllAlike(a: seq<Entry>, b: seq<Entry>) {
    |a| == |b| && forall i :: 0 <= i < |a| ==> Alike(a[i], b[i])
  }

  lemma AlikeTogether(a: seq<Entry>, b: seq<Entry>, c: seq<Entry>, d: seq<Entry>)
    requires AllAlike(a, b) && AllAlike(c, d)
    ensures AllAlike(a + c, b + d)
  {
    hide Alike;
  }

  lemma {:induction false} TreesAlike(prefix: string, relative: seq<string>, children: seq<Child>)
    ensures AllAlike(EntriesOfAll(prefix, relative, children), EntriesOfAll(prefix, relative, RestoredAll(children)))
    decreases children
  {
    hide Alike, MemberName, EntriesOf, AllAlike;
    if children == [] {
      NoneAlike();
    } else {
      var node, below := children[0].node, relative + [children[0].name];
      TreeAlike(prefix, below, node);
      TreesAlike(prefix, relative, children[1..]);
      assert RestoredAll(children)[1..] == RestoredAll(children[1..]);
      AlikeTogether(EntriesOf(prefix, below, node), EntriesOf(prefix, below, Restored(node)),
                    EntriesOfAll(prefix, relative, children[1..]), EntriesOfAll(prefix, relative, RestoredAll(children[1..])));
    }
  }

  lemma NoneAlike()
    ensures AllAlike([], [])
  {
  }

  lemma {:induction false} TreeAlike(prefix: string, relative: seq<string>, node: Tree)
    ensures AllAlike(EntriesOf(prefix, relative, node), EntriesOf(prefix, relative, Restored(node)))
    decreases node
  {
    hide MemberName;
    if node.Folder? {
      hide EntriesOfAll;
      TreesAlike(prefix, relative, node.children);
      var name := MemberName(prefix, relative);
      var a, b := DirectoryEntry(name, node.mode), DirectoryEntry(name, Perm(node.mode));
      AlikeTogether([a], [b], EntriesOfAll(prefix, relative, node.children), EntriesOfAll(prefix, relative, RestoredAll(node.children)));
    }
  }

  lemma AlikeExtracted(p: Progress, a: Entry, b: Entry, prefix: string, target: Path)
    requires Alike(a, b)
    ensures ExtractEntry(p, a, prefix, target) == ExtractEntry(p, b, prefix, target)
  {
    hide Relative, SafeMemberPath, MkdirAll, SafeLinkTarget, MakeLink, WriteNew, Dir, FileMode, Perm;
  }

  lemma {:induction false} AllAlikeExtracted(p: Progress, a: seq<Entry>, b: seq<Entry>, prefix: string, target: Path)
    requires AllAlike(a, b)
    ensures ExtractEntries(p, a, prefix, target) == ExtractEntries(p, b, prefix, target)
    decreases |a|
  {
    hide ExtractEntry, Alike;
    if a != [] {
      AlikeExtracted(p, a[0], b[0], prefix, target);
      var (p1, ok) := ExtractEntry(p, a[0], prefix, target);
      AllAlikeExtracted(p1, a[1..], b[1..], prefix, target);
    }
  }

  lemma {:induction false} AlikeCounted(a: seq<Entry>, b: seq<Entry>)
    requires AllAlike(a, b)
    ensures FileCount(a) == FileCount(b) && ContentBytes(a) == ContentBytes(b)
    decreases |a|
  {
    hide FileMode, Perm;
    if a != [] {
      AlikeCounted(a[1..], b[1..]);
    }
  }

  // Whatever modes were recorded, extraction after the walk rebuilds the tree with the modes it gives:
  // the permission bits, and for a file without any its own.
  lemma RestoreRebuilds(s: State, prefix: seq<string>, children: seq<Child>, before: seq<Entry>, after: seq<Entry>, target: Path)
    requires Proper(prefix) && prefix != [] && Proper(target) && target != [] && Vacant(s.fs, target)
    requires RecoverableAll(target, [], children)
    requires Ignored(before, Join(prefix, '/')) && Ignored(after, Join(prefix, '/'))
    ensures var entries := EntriesOfAll(Join(prefix, '/'), [], children);
            var made := MakeDirs(s.fs, target, RESTORED_DIR_MODE);
            var (p, ok) := Extract(s, Some(Source(before + entries + after, true)), Join(prefix, '/'), target);
            && (s.faults == [] && made.Some? ==> ok)
            && (ok ==>
                  && made.Some? && p.disk.fs == made.value + PlacedAll(target, RestoredAll(children), true)
                  && (forall k :: Under(target, k) && k != target ==>
                        (k in p.disk.fs <==> k in PlacedAll(target, RestoredAll(children), true)))
                  && p.files == FileCount(entries) && p.bytes == ContentBytes(entries))
  {
    hide Join, ExtractEntries, ApplyModes, MakeDirs, Vacant, Ignored, RestorableAll, RecoverableAll, AllAlike, EntriesOfAll,
      PlacedAll, MkdirAll, RestoredAll;
    var name := Join(prefix, '/');
    var entries, theirs := EntriesOfAll(name, [], children), EntriesOfAll(name, [], RestoredAll(children));
    RestoredIsRestorable(target, [], children);
    RestoreUndoesBackup(s, prefix, RestoredAll(children), before, after, target);
    TreesAlike(name, [], children);
    AlikeCounted(entries, theirs);
    var p0 := Progress(MkdirAll(s, target, RESTORED_DIR_MODE).0, 0, 0, []);
    AllAlikeExtracted(p0, entries, theirs, name, target);
    ExtractAround(p0, before, entries, after, name, target);
    ExtractAround(p0, before, theirs, after, name, target);
  }

  // So a file recorded without permission bits does not come back as it was.
  lemma FileWithoutModeIsGivenOne(s: State, name: string, content: bytes, target: Path)
    requires Proper(target) && target != [] && Vacant(s.fs, target) && s.faults == []
    requires GoodName(name) && |content| <= MAX_MEMBER_BYTES && MakeDirs(s.fs, target, RESTORED_DIR_MODE).Some?
    ensures var entries := EntriesOfAll("site", [], [Child(name, File(0, content))]);
            var (p, ok) := Extract(s, Some(Source(entries, true)), "site", target);
            ok && target + [name] in p.disk.fs && p.disk.fs[target + [name]] == FileNode(DEFAULT_FILE_MODE, content)
  {
    hide Extract, MakeDirs, Vacant, GoodName, EntriesOfAll;
    var children := [Child(name, File(0, content))];
    assert children[1..] == [];
    assert RecoverableAll(target, [], children);
    assert Join(["site"], '/') == "site" && Proper(["site"]);
    assert Ignored([], "site");
    var entries := EntriesOfAll("site", [], children);
    RestoreRebuilds(s, ["site"], children, [], [], target);
    assert [] + entries + [] == entries;
    var back := RestoredAll(children);
    assert back == [Child(name, File(DEFAULT_FILE_MODE, content))] && back[1..] == [];
    assert PlacedAll(target, back, true) == map[target + [name] := FileNode(DEFAULT_FILE_MODE, content)];
  }
}
