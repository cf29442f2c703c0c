// localStore.Put of agent/internal/backup/store.go: an archive reaches its name whole or not at all.
module Store {
  import opened Wrappers
  import opened Bytes
  import opened Parts
  import opened Paths
  import opened Segments
  import opened Disk
  import opened Keys

  datatype PutError = BadKey(error: KeyError) | Failed

  const PRIVATE_FILE: nat := 384
  const PRIVATE_DIR: nat := 448

  // A call that changes no file but may fail, as opening one does.
  function Call(s: State): (State, bool) {
    (After(s, s.fs), NextFault(s).Works?)
  }

  // os.Remove: a file, a link or an empty directory.
  function Removed(s: State, p: Path): State {
    if NextFault(s).Works? && forall k :: k in s.fs && Under(p, k) ==> k == p then After(s, Without(s.fs, p, {}))
    else After(s, s.fs)
  }

  function Copied(s: State, target: Path, content: bytes): (State, bool) {
    var (s1, done) := Call(s);
    if !done then (s1, false) else WriteNew(s1, target, PRIVATE_FILE, content)
  }

  // The neighbouring name an archive is written under first.
  function Staging(target: Path): Path
    requires target != []
  {
    target[..|target| - 1] + [target[|target| - 1] + ".partial"]
  }

  function PutAt(s: State, target: Path, content: bytes): (State, Option<PutError>)
    requires target != []
  {
    var staging := Staging(target);
    var (s1, made) := MkdirAll(s, Dir(target), PRIVATE_DIR);
    if !made then (s1, Some(Failed))
    else
      var (s2, copied) := Copied(s1, staging, content);
      if !copied then (Removed(s2, staging), Some(Failed))
      else
        var (s3, moved) := Rename(s2, staging, target);
        if !moved then (Removed(s3, staging), Some(Failed))
        else
          var (s4, synced) := Call(s3);
          (s4, if synced then None else Some(Failed))
  }

  // What is at one place: nothing, or a node.
  function At(fs: Files, p: Path): Option<Node> {
    if p in fs then Some(fs[p]) else None
  }

  class LocalStore {
    const root: Path
    const host: Host

    constructor (root: Path, host: Host)
      ensures this.root == root && this.host == host
    {
      this.root, this.host := root, host;
    }

    method Remove(p: Path)
      modifies host
      ensures host.Now() == Removed(old(host.Now()), p)
    {
      host.Set(Removed(host.Now(), p));
    }

    method Attempt() returns (ok: bool)
      modifies host
      ensures (host.Now(), ok) == Call(old(host.Now()))
    {
      var (s, done) := Call(host.Now());
      host.Set(s);
      ok := done;
    }

    method CopyFile(target: Path, content: bytes) returns (ok: bool)
      modifies host
      ensures (host.Now(), ok) == Copied(old(host.Now()), target, content)
    {
      ok := Attempt();
      if !ok {
        return;
      }
      ok := host.WriteNewAt(target, PRIVATE_FILE, content);
    }

    method Put(key: string, content: bytes) returns (error: Option<PutError>)
      requires Proper(root)
      modifies host
      ensures ResolveKey(root, key).Failure? ==>
                host.Now() == old(host.Now()) && error == Some(BadKey(ResolveKey(root, key).error))
      ensures ResolveKey(root, key).Success? ==>
                root < ResolveKey(root, key).value
                && (host.Now(), error) == PutAt(old(host.Now()), ResolveKey(root, key).value, content)
    {
      hide ResolveKey, WriteNew, MkdirAll, Removed, Rename, Under;
      var resolved := ResolveKey(root, key);
      if resolved.Failure? {
        return Some(BadKey(resolved.error));
      }
      var target := resolved.value;
      KeyStaysUnderRoot(root, key);
      var ok := host.MkdirAllAt(Dir(target), PRIVATE_DIR);
      if !ok {
        return Some(Failed);
      }
      var staging := Staging(target);
      ok := CopyFile(staging, content);
      if !ok {
        Remove(staging);
        return Some(Failed);
      }
      ok := host.RenameAt(staging, target);
      if !ok {
        Remove(staging);
        return Some(Failed);
      }
      ok := Attempt();
      return if ok then None else Some(Failed);
    }
  }

  /**** What a put leaves, whichever call fails ****/

  // Away from two places nothing changed, but for missing parents of the first.
  ghost predicate KeepsOthers(fs: Files, fs': Files, target: Path, staging: Path) {
    && (forall k :: k in fs && !Under(target, k) && !Under(staging, k) ==> k in fs' && fs'[k] == fs[k])
    && (forall k :: k in fs' && k !in fs && !Under(target, k) && !Under(staging, k) ==> k < target)
  }

  lemma StagingIsBeside(target: Path)
    requires target != []
    ensures var staging := Staging(target);
            && staging != [] && Dir(staging) == Dir(target) && staging != target
            && !Under(staging, target) && !Under(target, staging)
            && !Under(staging, Dir(target)) && !Under(target, Dir(target))
  {
    var n := |target| - 1;
    assert |target[n] + ".partial"| > |target[n]|;
    assert Staging(target)[n] != target[n];
  }

  lemma MkdirKeeps(s: State, target: Path)
    requires target != []
    ensures var s1 := MkdirAll(s, Dir(target), PRIVATE_DIR).0; OnlyBelow(s.fs, s1.fs, target)
  {
    hide MakeDirs, OnlyBelow;
    OnlyBelowSame(s.fs, target);
    var p := Dir(target);
    match NextFault(s)
    case Works =>
      if MakeDirs(s.fs, p, PRIVATE_DIR).Some? {
        MakeDirsOnlyBelow(s.fs, p, PRIVATE_DIR, target);
      }
    case Fails(amount, _) =>
      var q := p[..Min(amount, |p|)];
      if MakeDirs(s.fs, q, PRIVATE_DIR).Some? {
        assert Under(q, target);
        MakeDirsOnlyBelow(s.fs, q, PRIVATE_DIR, target);
      }
  }

  lemma OnlyBelowSame(fs: Files, target: Path)
    ensures OnlyBelow(fs, fs, target)
  {
  }

  lemma MkdirNotAt(s: State, target: Path)
    requires target != []
    ensures var s1 := MkdirAll(s, Dir(target), PRIVATE_DIR).0;
            forall k :: !(k <= Dir(target)) ==> At(s1.fs, k) == At(s.fs, k)
  {
    hide MakeDirs;
    var p := Dir(target);
    MakeDirsNotAt(s.fs, p, PRIVATE_DIR);
    match NextFault(s)
    case Works =>
    case Fails(amount, _) =>
      MakeDirsNotAt(s.fs, p[..Min(amount, |p|)], PRIVATE_DIR);
  }

  lemma {:induction false} MakeDirsNotAt(fs: Files, p: Path, mode: nat)
    ensures MakeDirs(fs, p, mode).Some? ==>
              forall k :: !(k <= p) ==> At(MakeDirs(fs, p, mode).value, k) == At(fs, k)
    decreases |p|
  {
    if p !in fs && p != [] {
      MakeDirsNotAt(fs, p[..|p| - 1], mode);
    }
  }

  // Whatever fails: at the archive's name is what was there before or the whole new archive, success
  // means the new one, and nothing else is touched.
  lemma PutIsAllOrNothing(s: State, target: Path, content: bytes)
    requires target != []
    ensures var (s', error) := PutAt(s, target, content);
            && (At(s'.fs, target) == At(s.fs, target) || At(s'.fs, target) == Some(FileNode(PRIVATE_FILE, content)))
            && (error.None? ==> At(s'.fs, target) == Some(FileNode(PRIVATE_FILE, content)) && Staging(target) !in s'.fs)
            && KeepsOthers(s.fs, s'.fs, target, Staging(target))
  {
    hide MkdirAll, Copied, Rename, Removed, Staging, Under, KeepsOthers;
    var staging := Staging(target);
    StagingIsBeside(target);
    MkdirKeeps(s, target);
    MkdirNotAt(s, target);
    var (s1, made) := MkdirAll(s, Dir(target), PRIVATE_DIR);
    KeepsFromBelow(s.fs, s1.fs, target, staging);
    NotUnderDir(target);
    if made {
      var (s2, copied) := Copied(s1, staging, content);
      CopyKeeps(s1, target, content);
      KeepsTrans(s.fs, s1.fs, s2.fs, target, staging);
      if !copied {
        RemoveKeeps(s2, target);
        KeepsTrans(s.fs, s2.fs, Removed(s2, staging).fs, target, staging);
      } else {
        var (s3, moved) := Rename(s2, staging, target);
        MoveKeeps(s2, target);
        KeepsTrans(s.fs, s2.fs, s3.fs, target, staging);
        if !moved {
          RemoveKeeps(s3, target);
          KeepsTrans(s.fs, s3.fs, Removed(s3, staging).fs, target, staging);
        }
      }
    }
  }

  lemma NotUnderDir(target: Path)
    requires target != []
    ensures !(target <= Dir(target))
  {
  }

  lemma KeepsFromBelow(a: Files, b: Files, target: Path, staging: Path)
    requires OnlyBelow(a, b, target)
    ensures KeepsOthers(a, b, target, staging)
  {
  }

  lemma KeepsTrans(a: Files, b: Files, c: Files, target: Path, staging: Path)
    requires KeepsOthers(a, b, target, staging) && KeepsOthers(b, c, target, staging)
    ensures KeepsOthers(a, c, target, staging)
  {
  }

  lemma CopyKeeps(s: State, target: Path, content: bytes)
    requires target != []
    ensures var (s', ok) := Copied(s, Staging(target), content);
            && KeepsOthers(s.fs, s'.fs, target, Staging(target)) && At(s'.fs, target) == At(s.fs, target)
            && (ok ==> At(s'.fs, Staging(target)) == Some(FileNode(PRIVATE_FILE, content)))
            && (Staging(target) in s.fs ==> !ok)
  {
    hide Staging;
    StagingIsBeside(target);
  }

  lemma RemoveKeeps(s: State, target: Path)
    requires target != []
    ensures var s' := Removed(s, Staging(target));
            KeepsOthers(s.fs, s'.fs, target, Staging(target)) && At(s'.fs, target) == At(s.fs, target)
  {
    hide Staging;
    StagingIsBeside(target);
  }

  lemma MoveKeeps(s: State, target: Path)
    requires target != []
    ensures var staging := Staging(target); var (s', moved) := Rename(s, staging, target);
            && KeepsOthers(s.fs, s'.fs, target, staging)
            && (moved ==> At(s'.fs, target) == At(s.fs, staging) && staging !in s'.fs)
            && (!moved ==> s'.fs == s.fs)
  {
    hide Staging, Renamed;
    var staging := Staging(target);
    if CanRename(s.fs, staging, target) {
      RenameMovesTree(s.fs, staging, target);
      assert staging + [] == staging && target + [] == target;
      assert Under(staging, staging);
    }
  }

  /**** The staging name ****/

  // What the system does with the call that comes after `k` others.
  function FaultAt(s: State, k: nat): Fault {
    if k < |s.faults| then s.faults[k] else Works
  }

  predicate Alone(fs: Files, p: Path) {
    forall k :: k in fs && Under(p, k) ==> k == p
  }

  // The clean-up is the third call when opening the new archive failed, and the fourth otherwise.
  predicate CleanUpFails(s: State, target: Path)
    requires target != []
  {
    FaultAt(s, if FaultAt(s, 1).Fails? then 2 else 3).Fails? || !Alone(s.fs, Staging(target))
  }

  // A staging file that is already there, whoever owns it, makes the put fail and leaves the archive as
  // it was. It is itself removed, unless the directory could not be made or the clean-up does not work.
  lemma StagingTakenIsRemoved(s: State, target: Path, content: bytes)
    requires target != [] && Staging(target) in s.fs
    ensures var (s', error) := PutAt(s, target, content);
            && error == Some(Failed) && At(s'.fs, target) == At(s.fs, target)
            && (Staging(target) in s'.fs <==>
                  NextFault(s).Fails? || MakeDirs(s.fs, Dir(target), PRIVATE_DIR).None? || CleanUpFails(s, target))
            && (Staging(target) in s'.fs ==> s'.fs[Staging(target)] == s.fs[Staging(target)])
  {
    hide MkdirAll, MakeDirs, Removed, WriteNew, Staging, Under, Alone;
    var staging := Staging(target);
    StagingIsBeside(target);
    NotUnderDir(target);
    MkdirNotAt(s, target);
    MkdirMakes(s, Dir(target), PRIVATE_DIR);
    SameBeside(s.fs, MkdirAll(s, Dir(target), PRIVATE_DIR).0.fs, target);
    var (s1, made) := MkdirAll(s, Dir(target), PRIVATE_DIR);
    if made {
      var s2 := Call(s1).0;
      TakenIsKept(s2, staging, PRIVATE_FILE, content);
      var s3 := Copied(s1, staging, content).0;
      assert s3.fs == s1.fs;
      RemoveAlone(s3, staging, target);
    }
  }

  lemma SameBeside(a: Files, b: Files, target: Path)
    requires target != [] && forall k :: !(k <= Dir(target)) ==> At(b, k) == At(a, k)
    ensures At(b, target) == At(a, target) && At(b, Staging(target)) == At(a, Staging(target))
    ensures Alone(b, Staging(target)) <==> Alone(a, Staging(target))
  {
    var staging := Staging(target);
    assert !(target <= Dir(target)) && !(staging <= Dir(target));
    forall k | Under(staging, k) ensures At(b, k) == At(a, k) {
      assert |k| > |Dir(target)|;
    }
  }

  lemma MkdirMakes(s: State, p: Path, mode: nat)
    ensures var (s', made) := MkdirAll(s, p, mode);
            && (made <==> NextFault(s).Works? && MakeDirs(s.fs, p, mode).Some?)
            && s'.faults == After(s, s.fs).faults
  {
    hide MakeDirs;
  }

  lemma TakenIsKept(s: State, p: Path, mode: nat, content: bytes)
    requires p in s.fs
    ensures WriteNew(s, p, mode, content) == (After(s, s.fs), false)
  {
  }

  lemma RemoveAlone(s: State, p: Path, other: Path)
    requires p in s.fs && !Under(p, other)
    ensures var fs := Removed(s, p).fs;
            && (p in fs <==> NextFault(s).Fails? || !Alone(s.fs, p)) && (p in fs ==> fs[p] == s.fs[p])
            && At(fs, other) == At(s.fs, other)
  {
  }

  // Nothing, or a single file or link, which rename replaces by a file.
  predicate Replaceable(fs: Files, target: Path) {
    Vacant(fs, target) || (target in fs && !fs[target].DirNode? && Alone(fs, target))
  }

  // Where nothing stood under the staging name, something is left there exactly when the file was made
  // and then both what came next and the clean-up failed: the write and the fourth call, or the rename
  // and the fifth.
  lemma StagingLeftByFailedCleanUp(s: State, target: Path, content: bytes)
    requires target != [] && Vacant(s.fs, Staging(target))
    ensures Staging(target) in PutAt(s, target, content).0.fs <==>
              && NextFault(s).Works? && MakeDirs(s.fs, Dir(target), PRIVATE_DIR).Some? && FaultAt(s, 1).Works?
              && (if FaultAt(s, 2).Fails? then FaultAt(s, 2).amount > 0 && FaultAt(s, 3).Fails?
                  else (FaultAt(s, 3).Fails? || !Replaceable(s.fs, target)) && FaultAt(s, 4).Fails?)
  {
    hide MkdirAll, MakeDirs, Removed, WriteNew, Rename, Staging, Under, Alone, Vacant, Replaceable;
    var staging := Staging(target);
    MkdirNotAt(s, target);
    MkdirMakes(s, Dir(target), PRIVATE_DIR);
    var (s1, made) := MkdirAll(s, Dir(target), PRIVATE_DIR);
    VacantBeside(s.fs, s1.fs, target);
    if made {
      MadeIsDir(s, Dir(target), PRIVATE_DIR);
      ReplaceableStays(s.fs, s1.fs, target);
      StagingIsBeside(target);
      var s2 := Call(s1).0;
      WriteLeaves(s2, staging, PRIVATE_FILE, content);
      var (s3, copied) := Copied(s1, staging, content);
      if !copied {
        RemoveLeaves(s3, staging);
      } else {
        RenameOfNew(s2, s3, target, content);
        MoveKeeps(s3, target);
        var (s4, moved) := Rename(s3, staging, target);
        if !moved {
          RemoveLeaves(s4, staging);
        }
      }
    }
  }

  lemma MadeIsDir(s: State, p: Path, mode: nat)
    ensures var (s', made) := MkdirAll(s, p, mode); made ==> p in s'.fs && s'.fs[p].DirNode?
  {
  }

  lemma ReplaceableStays(a: Files, b: Files, target: Path)
    requires target != [] && forall k :: !(k <= Dir(target)) ==> At(b, k) == At(a, k)
    ensures Replaceable(b, target) <==> Replaceable(a, target)
  {
    forall k | Under(target, k) ensures At(b, k) == At(a, k) {
      assert |k| > |Dir(target)|;
    }
    assert Under(target, target);
  }

  // A file just written beside the target is renamed onto it exactly when the target can be replaced.
  lemma RenameOfNew(s: State, s': State, target: Path, content: bytes)
    requires target != [] && Vacant(s.fs, Staging(target))
    requires s'.fs == s.fs[Staging(target) := FileNode(PRIVATE_FILE, content)]
    ensures var (s4, moved) := Rename(s', Staging(target), target);
            && (moved <==> Replaceable(s.fs, target) && NextFault(s').Works?)
            && s4.faults == After(s', s'.fs).faults && (!moved ==> s4.fs == s'.fs)
  {
    hide Renamed, Staging;
    StagingIsBeside(target);
  }

  lemma VacantBeside(a: Files, b: Files, target: Path)
    requires target != [] && Vacant(a, Staging(target)) && forall k :: !(k <= Dir(target)) ==> At(b, k) == At(a, k)
    ensures Vacant(b, Staging(target)) && Alone(b, Staging(target)) && Staging(target) !in b
  {
    var staging := Staging(target);
    forall k | Under(staging, k) ensures k !in b {
      assert |k| > |Dir(target)|;
      assert At(b, k) == At(a, k);
    }
    assert Under(staging, staging);
  }

  lemma WriteLeaves(s: State, p: Path, mode: nat, content: bytes)
    requires Vacant(s.fs, p) && p != [] && Dir(p) in s.fs && s.fs[Dir(p)].DirNode?
    ensures var (s', ok) := WriteNew(s, p, mode, content);
            && Alone(s'.fs, p) && s'.faults == After(s, s.fs).faults && (ok <==> NextFault(s).Works?)
            && (ok ==> s'.fs == s.fs[p := FileNode(mode, content)])
            && (!ok ==> (p in s'.fs <==> NextFault(s).amount > 0))
  {
  }

  lemma RemoveLeaves(s: State, p: Path)
    requires Alone(s.fs, p)
    ensures p in Removed(s, p).fs <==> p in s.fs && NextFault(s).Fails?
  {
  }

  // No key that Key makes is the staging name of any archive.
  lemma KeyIsNoStaging(prefix: string, kind: string, subject: string, at: Stamp, id: string, root: Path, other: Path)
    requires FourDigits(at) && other != [] && Proper(root)
    requires var p := TrimSlashes(prefix); p == "" || (BackupKey(p).None? && |p| <= MAX_PREFIX)
    requires ResolveKey(root, Key(prefix, kind, subject, at, id)).Success?
    ensures ResolveKey(root, Key(prefix, kind, subject, at, id)).value != Staging(other)
  {
    hide *;
    KeyIsAccepted(prefix, kind, subject, at, id);
    KeyStaysUnderRoot(root, Key(prefix, kind, subject, at, id));
    LastPart(root, (if TrimSlashes(prefix) == "" then [] else Split(TrimSlashes(prefix), '/')), kind, subject, at, id, other);
  }

  lemma LastPart(root: Path, front: seq<string>, kind: string, subject: string, at: Stamp, id: string, other: Path)
    requires other != []
    ensures root + (front + KeyParts(kind, subject, at, id)) != Staging(other)
  {
    hide Segment, DateText, TimeText;
    var mine, theirs := root + (front + KeyParts(kind, subject, at, id)), Staging(other);
    var a, b := mine[|mine| - 1], theirs[|theirs| - 1];
    assert a == FileName(at, id);
    EndsDiffer(TimeText(at) + "-" + Segment(id), other[|other| - 1]);
  }

  lemma EndsDiffer(a: string, b: string)
    ensures a + ".tar.gz" != b + ".partial"
  {
    var x, y := a + ".tar.gz", b + ".partial";
    assert x[|x| - 1] == 'z' && y[|y| - 1] == 'l';
  }

  // A put over a free staging name answers that it worked exactly when none of its five calls fails, the
  // archive's directory is there or can be made, and what is at the archive's name is nothing or one file.
  lemma PutSucceedsExactly(s: State, target: Path, content: bytes)
    requires target != [] && Vacant(s.fs, Staging(target))
    ensures PutAt(s, target, content).1.None? <==>
              && (forall k :: 0 <= k < 5 ==> FaultAt(s, k).Works?)
              && MakeDirs(s.fs, Dir(target), PRIVATE_DIR).Some? && Replaceable(s.fs, target)
  {
    hide MkdirAll, MakeDirs, Removed, WriteNew, Rename, Staging, Under, Alone, Vacant, Replaceable;
    var staging := Staging(target);
    MkdirNotAt(s, target);
    MkdirMakes(s, Dir(target), PRIVATE_DIR);
    FiveCalls(s);
    var (s1, made) := MkdirAll(s, Dir(target), PRIVATE_DIR);
    VacantBeside(s.fs, s1.fs, target);
    if made {
      MadeIsDir(s, Dir(target), PRIVATE_DIR);
      ReplaceableStays(s.fs, s1.fs, target);
      StagingIsBeside(target);
      var s2 := Call(s1).0;
      WriteLeaves(s2, staging, PRIVATE_FILE, content);
      var (s3, copied) := Copied(s1, staging, content);
      if copied {
        RenameOfNew(s2, s3, target, content);
      }
    }
  }

  lemma FiveCalls(s: State)
    ensures (forall k :: 0 <= k < 5 ==> FaultAt(s, k).Works?) <==>
              && NextFault(s).Works? && FaultAt(s, 1).Works? && FaultAt(s, 2).Works?
              && FaultAt(s, 3).Works? && FaultAt(s, 4).Works?
  {
    assert FaultAt(s, 0) == NextFault(s);
  }
}
