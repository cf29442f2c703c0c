// The host's files as a map from cleaned paths to nodes, and the calls a restore makes on them, any
// of which may fail. Symbolic links are nodes and are never followed.
module Disk {
  import opened Wrappers
  import opened Bytes
  import opened Paths

  datatype Node = DirNode(mode: nat) | FileNode(mode: nat, content: bytes) | LinkNode(target: string)

  type Files = map<Path, Node>

  // What the system does with the next call: serve it, or fail it part of the way. `amount` is how
  // much of a write or of a chain of directories got done, `kept` what a removal left behind.
  datatype Fault = Works | Fails(amount: nat, kept: set<Path>)

  datatype State = State(fs: Files, faults: seq<Fault>)

  function NextFault(s: State): Fault {
    if s.faults == [] then Works else s.faults[0]
  }

  // The state with its files replaced and one fault used up.
  function After(s: State, fs: Files): State {
    State(fs, if s.faults == [] then [] else s.faults[1..])
  }

  /**** The calls ****/

  // fsperm.MkdirAll: the directory and its missing parents, each with exactly this mode.
  function MakeDirs(fs: Files, p: Path, mode: nat): Option<Files>
    decreases |p|
  {
    if p in fs then if fs[p].DirNode? then Some(fs) else None
    else if p == [] then Some(fs[p := DirNode(mode)])
    else
      var parent := MakeDirs(fs, p[..|p| - 1], mode);
      if parent.None? then None else Some(parent.value[p := DirNode(mode)])
  }

  function MkdirAll(s: State, p: Path, mode: nat): (State, bool) {
    match NextFault(s)
    case Works =>
      var made := MakeDirs(s.fs, p, mode);
      if made.Some? then (After(s, made.value), true) else (After(s, s.fs), false)
    case Fails(amount, _) =>
      var made := MakeDirs(s.fs, p[..Min(amount, |p|)], mode);
      (After(s, if made.Some? then made.value else s.fs), false)
  }

  predicate CanCreate(fs: Files, p: Path) {
    p != [] && p !in fs && p[..|p| - 1] in fs && fs[p[..|p| - 1]].DirNode?
  }

  // Create a file that must not exist, give it its mode and write it.
  function WriteNew(s: State, p: Path, mode: nat, content: bytes): (State, bool) {
    if !CanCreate(s.fs, p) then (After(s, s.fs), false)
    else
      match NextFault(s)
      case Works => (After(s, s.fs[p := FileNode(mode, content)]), true)
      case Fails(amount, _) =>
        (After(s, if amount == 0 then s.fs else s.fs[p := FileNode(mode, content[..Min(amount - 1, |content|)])]), false)
  }

  function MakeLink(s: State, p: Path, target: string): (State, bool) {
    if !CanCreate(s.fs, p) || NextFault(s).Fails? then (After(s, s.fs), false)
    else (After(s, s.fs[p := LinkNode(target)]), true)
  }

  function Chmod(s: State, p: Path, mode: nat): (State, bool) {
    if p !in s.fs || s.fs[p].LinkNode? || NextFault(s).Fails? then (After(s, s.fs), false)
    else (After(s, s.fs[p := s.fs[p].(mode := mode)]), true)
  }

  predicate Under(p: Path, k: Path) {
    p <= k
  }

  function Without(fs: Files, p: Path, kept: set<Path>): Files {
    map k | k in fs && (!Under(p, k) || k in kept) :: fs[k]
  }

  function RemoveAll(s: State, p: Path): (State, bool) {
    match NextFault(s)
    case Works => (After(s, Without(s.fs, p, {})), true)
    case Fails(_, kept) => (After(s, Without(s.fs, p, kept)), false)
  }

  predicate Vacant(fs: Files, p: Path) {
    forall k :: k in fs ==> !Under(p, k)
  }

  // Nothing there, or a single node of the same kind that rename replaces.
  predicate CanReplace(fs: Files, source: Path, target: Path) {
    Vacant(fs, target) ||
    (&& source in fs && target in fs && fs[source].DirNode? == fs[target].DirNode?
     && forall k :: k in fs && Under(target, k) ==> k == target)
  }

  predicate CanRename(fs: Files, source: Path, target: Path) {
    && source in fs && !Under(source, target) && !Under(target, source)
    && CanReplace(fs, source, target)
  }

  function Renamed(fs: Files, source: Path, target: Path): Files {
    var stay := set k | k in fs && !Under(source, k) && !Under(target, k);
    var arrive := set k | k in fs && Under(source, k) :: target + k[|source|..];
    map k | k in stay + arrive :: if k in stay then fs[k] else Arrived(fs, source, target, k)
  }

  function Arrived(fs: Files, source: Path, target: Path, k: Path): Node {
    var from := if Under(target, k) then source + k[|target|..] else k;
    if from in fs then fs[from] else DirNode(0)
  }

  function Rename(s: State, source: Path, target: Path): (State, bool) {
    if !CanRename(s.fs, source, target) || NextFault(s).Fails? then (After(s, s.fs), false)
    else (After(s, Renamed(s.fs, source, target)), true)
  }

  datatype Stat = Exists | NotExist | StatError

  function Lstat(s: State, p: Path): (State, Stat) {
    (After(s, s.fs), if NextFault(s).Fails? then StatError else if p in s.fs then Exists else NotExist)
  }

  /**** The disk the source's calls change ****/

  class Host {
    var fs: Files
    var faults: seq<Fault>

    constructor (fs: Files, faults: seq<Fault>)
      ensures Now() == State(fs, faults)
    {
      this.fs, this.faults := fs, faults;
    }

    function Now(): State
      reads this
    {
      State(fs, faults)
    }

    method Set(s: State)
      modifies this
      ensures Now() == s
    {
      fs, faults := s.fs, s.faults;
    }

    method MkdirAllAt(p: Path, mode: nat) returns (ok: bool)
      modifies this
      ensures (Now(), ok) == MkdirAll(old(Now()), p, mode)
    {
      var (s, done) := MkdirAll(Now(), p, mode);
      Set(s);
      ok := done;
    }

    method WriteNewAt(p: Path, mode: nat, content: bytes) returns (ok: bool)
      modifies this
      ensures (Now(), ok) == WriteNew(old(Now()), p, mode, content)
    {
      var (s, done) := WriteNew(Now(), p, mode, content);
      Set(s);
      ok := done;
    }

    method MakeLinkAt(p: Path, target: string) returns (ok: bool)
      modifies this
      ensures (Now(), ok) == MakeLink(old(Now()), p, target)
    {
      var (s, done) := MakeLink(Now(), p, target);
      Set(s);
      ok := done;
    }

    method ChmodAt(p: Path, mode: nat) returns (ok: bool)
      modifies this
      ensures (Now(), ok) == Chmod(old(Now()), p, mode)
    {
      var (s, done) := Chmod(Now(), p, mode);
      Set(s);
      ok := done;
    }

    method RemoveAllAt(p: Path) returns (ok: bool)
      modifies this
      ensures (Now(), ok) == RemoveAll(old(Now()), p)
    {
      var (s, done) := RemoveAll(Now(), p);
      Set(s);
      ok := done;
    }

    method RenameAt(source: Path, target: Path) returns (ok: bool)
      modifies this
      ensures (Now(), ok) == Rename(old(Now()), source, target)
    {
      var (s, done) := Rename(Now(), source, target);
      Set(s);
      ok := done;
    }

    method LstatAt(p: Path) returns (stat: Stat)
      modifies this
      ensures (Now(), stat) == Lstat(old(Now()), p)
    {
      var (s, found) := Lstat(Now(), p);
      Set(s);
      stat := found;
    }
  }

  /**** Comparing trees of files ****/

  // Below p in one disk and below q in another there are the same nodes at the same places.
  ghost predicate SameBelow(fs: Files, p: Path, other: Files, q: Path) {
    forall s: Path ::
      && (p + s in fs <==> q + s in other)
      && (p + s in fs ==> fs[p + s] == other[q + s])
  }

  // Only the place at `target` and below changed, and missing parents of it were made.
  ghost predicate OnlyBelow(fs: Files, fs': Files, target: Path) {
    && (forall k :: k in fs && !Under(target, k) ==> k in fs' && fs'[k] == fs[k])
    && (forall k :: k in fs' && !Under(target, k) && k !in fs ==> k < target)
  }

  lemma OnlyBelowTrans(a: Files, b: Files, c: Files, target: Path)
    requires OnlyBelow(a, b, target) && OnlyBelow(b, c, target)
    ensures OnlyBelow(a, c, target)
  {
  }

  lemma UnderParts(p: Path, k: Path)
    requires Under(p, k)
    ensures k == p + k[|p|..]
  {
  }

  lemma {:induction false} MakeDirsOnlyBelow(fs: Files, p: Path, mode: nat, target: Path)
    requires Under(target, p) || Under(p, target)
    requires MakeDirs(fs, p, mode).Some?
    ensures OnlyBelow(fs, MakeDirs(fs, p, mode).value, target)
    decreases |p|
  {
    if p !in fs && p != [] {
      MakeDirsOnlyBelow(fs, p[..|p| - 1], mode, target);
    }
  }

  // A tree moved by rename is the same tree.
  lemma RenameMovesTree(fs: Files, source: Path, target: Path)
    requires CanRename(fs, source, target)
    ensures var moved := Renamed(fs, source, target);
            && SameBelow(fs, source, moved, target)
            && Vacant(moved, source)
            && (forall k :: !Under(source, k) && !Under(target, k) ==>
                  (k in fs <==> k in moved) && (k in fs ==> fs[k] == moved[k]))
  {
    var moved := Renamed(fs, source, target);
    forall s: Path
      ensures (source + s in fs <==> target + s in moved) && (source + s in fs ==> fs[source + s] == moved[target + s])
    {
      ArrivesAt(fs, source, target, s);
    }
    forall k | k in moved ensures !Under(source, k) {
      if k !in (set j | j in fs && !Under(source, j) && !Under(target, j)) {
        var j :| j in fs && Under(source, j) && k == target + j[|source|..];
        Incomparable(source, target, j[|source|..]);
      }
    }
  }

  lemma Incomparable(p: Path, q: Path, s: Path)
    ensures Under(p, q + s) ==> Under(p, q) || Under(q, p)
  {
    if Under(p, q + s) {
      var k := Min(|p|, |q|);
      assert p[..k] == (q + s)[..k] == q[..k];
      assert |p| <= |q| ==> p[..k] == p;
      assert |q| <= |p| ==> q[..k] == q;
    }
  }

  lemma ArrivesAt(fs: Files, source: Path, target: Path, s: Path)
    requires CanRename(fs, source, target)
    ensures var moved := Renamed(fs, source, target);
            (source + s in fs <==> target + s in moved) && (source + s in fs ==> fs[source + s] == moved[target + s])
  {
    var moved := Renamed(fs, source, target);
    var from, to := source + s, target + s;
    assert Under(source, from) && Under(target, to) && from[|source|..] == s && to[|target|..] == s;
    if from in fs {
      assert to == target + from[|source|..];
    }
    if to in moved {
      var j :| j in fs && Under(source, j) && to == target + j[|source|..];
      assert j[|source|..] == (target + j[|source|..])[|target|..] == s;
      UnderParts(source, j);
    }
  }
}
