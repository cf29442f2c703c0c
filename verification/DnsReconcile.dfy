// Making a host serve exactly the zones the panel wants, and undoing it when a step fails:
// agent/internal/dns/apply.go.
module DnsReconcile {
  import opened Wrappers
  import opened DnsConfig
  import opened DnsMainConf

  // A file by what it is for. `kind` counts the artifacts named keeps beside a zone file.
  datatype File =
    | MainConf
    | ZoneList
    | Backup(of: File, stamp: string)
    | ZoneFile(name: string)
    | Artifact(name: string, kind: nat)
    | Candidate(name: string)
    | OtherFile(path: string)

  type Files = map<File, string>

  // The host's files, and which of the calls to come fail.
  datatype World = World(files: Files, faults: seq<bool>)

  predicate Failing(w: World) {
    w.faults != [] && w.faults[0]
  }

  function After(w: World, files: Files): World {
    World(files, if w.faults == [] then [] else w.faults[1..])
  }

  /**** The calls ****/

  datatype Reading = Absent | Unreadable | Holds(text: string)

  // os.ReadFile.
  function Read(w: World, f: File): (World, Reading) {
    (After(w, w.files), if Failing(w) then Unreadable else if f in w.files then Holds(w.files[f]) else Absent)
  }

  // writeFile: a temporary file renamed into place, so a failure changes nothing.
  function Write(w: World, f: File, text: string): (World, bool) {
    if Failing(w) then (After(w, w.files), false) else (After(w, w.files[f := text]), true)
  }

  // os.Remove, a missing file being no error.
  function Remove(w: World, f: File): (World, bool) {
    if Failing(w) then (After(w, w.files), false) else (After(w, w.files - {f}), true)
  }

  // A call that changes no file's content: chown, or running a command.
  function Attempt(w: World): (World, bool) {
    (After(w, w.files), !Failing(w))
  }

  /**** What the host and the renderers are ****/

  // `render` is RenderZone, None when it refuses; `checks` is named-checkzone and `loads` is
  // named-checkconf over the files it may read; `mainBody` is what RenderMainConf writes after its
  // first line.
  datatype Env = Env(dirs: Dirs, available: bool, signs: bool, render: Zone -> Option<string>,
                     checks: (string, string) -> bool, mainBody: Settings -> string, loads: Files -> bool)

  datatype Desired = Desired(settings: Settings, zones: seq<Zone>)

  predicate Unsignable(zones: seq<Zone>) {
    exists i :: 0 <= i < |zones| && zones[i].dnssec
  }

  predicate HasZone(zones: seq<Zone>, name: string) {
    exists i :: 0 <= i < |zones| && zones[i].name == name
  }

  /**** Its steps ****/

  function CheckCandidate(w: World, env: Env, name: string, content: string): (World, bool) {
    var (w1, wrote) := Write(w, Candidate(name), content);
    if !wrote then (w1, false)
    else
      var (w2, ran) := Attempt(w1);
      var (w3, _) := Remove(w2, Candidate(name));
      (w3, ran && env.checks(name, content))
  }

  // Every primary zone rendered and checked, the last of a name winning; None when one is refused.
  function CheckZones(w: World, env: Env, zones: seq<Zone>, rendered: map<string, string>): (World, Option<map<string, string>>)
    decreases |zones|
  {
    if zones == [] then (w, Some(rendered))
    else if zones[0].secondary then CheckZones(w, env, zones[1..], rendered)
    else
      var content := env.render(zones[0]);
      if content.None? then (w, None)
      else
        var (w1, ok) := CheckCandidate(w, env, zones[0].name, content.value);
        if !ok then (w1, None)
        else CheckZones(w1, env, zones[1..], rendered[zones[0].name := content.value])
  }

  const ARTIFACTS: nat := 4

  function RemoveArtifacts(w: World, name: string, kind: nat): (World, bool)
    requires kind <= ARTIFACTS
    decreases ARTIFACTS - kind
  {
    if kind == ARTIFACTS then (w, true)
    else
      var (w1, ok) := Remove(w, Artifact(name, kind));
      if !ok then (w1, false) else RemoveArtifacts(w1, name, kind + 1)
  }

  function InstallZone(w: World, name: string, content: string): (World, bool) {
    var (w1, cleared) := RemoveArtifacts(w, name, 0);
    if !cleared then (w1, false)
    else
      var (w2, wrote) := Write(w1, ZoneFile(name), content);
      if !wrote then (w2, false) else Attempt(w2)
  }

  // The loop that installs the zones that differ, over the names in the order the map is ranged over.
  function InstallAll(w: World, rendered: map<string, string>, order: seq<string>, written: seq<string>): (World, seq<string>, bool)
    requires forall i :: 0 <= i < |order| ==> order[i] in rendered
    decreases |order|
  {
    if order == [] then (w, written, true)
    else
      var name := order[0];
      var (w1, current) := Read(w, ZoneFile(name));
      if current.Unreadable? then (w1, written, false)
      else if current == Holds(rendered[name]) then InstallAll(w1, rendered, order[1..], written)
      else
        var (w2, ok) := InstallZone(w1, name, rendered[name]);
        if !ok then (w2, written, false) else InstallAll(w2, rendered, order[1..], written + [name])
  }

  function Rollback(w: World, names: seq<string>): World
    decreases |names|
  {
    if names == [] then w else Rollback(Remove(w, ZoneFile(names[0])).0, names[1..])
  }

  // Where the copy went; Some(None) when there was nothing to copy, None on failure.
  function BackUp(w: World, f: File, stamp: string): (World, Option<Option<File>>) {
    var (w1, current) := Read(w, f);
    match current
    case Absent => (w1, Some(None))
    case Unreadable => (w1, None)
    case Holds(text) =>
      var (w2, wrote) := Write(w1, Backup(f, stamp), text);
      (w2, if wrote then Some(Some(Backup(f, stamp))) else None)
  }

  function PutBack(w: World, f: File, backup: Option<File>): World {
    match backup
    case None => Remove(w, f).0
    case Some(b) =>
      var (w1, previous) := Read(w, b);
      if previous.Holds? then Write(w1, f, previous.text).0 else w1
  }

  datatype MainChange = MainChange(backup: Option<File>, created: bool, added: bool)

  const UNTOUCHED: MainChange := MainChange(None, false, false)

  // Back named.conf up and write it anew.
  function Rewrite(w: World, text: string, stamp: string, added: bool): (World, Option<MainChange>) {
    var (w1, backup) := BackUp(w, MainConf, stamp);
    if backup.None? then (w1, None)
    else
      var (w2, wrote) := Write(w1, MainConf, text);
      if !wrote then (w2, None) else (Attempt(w2).0, Some(MainChange(backup.value, false, added)))
  }

  function EnsureMainConf(w: World, env: Env, s: Settings, stamp: string): (World, Option<MainChange>) {
    var (w1, current) := Read(w, MainConf);
    match current
    case Unreadable => (w1, None)
    case Absent =>
      var (w2, wrote) := Write(w1, MainConf, RenderMainConf(env.mainBody, s));
      if !wrote then (w2, None) else (Attempt(w2).0, Some(MainChange(None, true, false)))
    case Holds(text) =>
      if HasMarker(text) then
        if text == RenderMainConf(env.mainBody, s) then (w1, Some(UNTOUCHED))
        else Rewrite(w1, RenderMainConf(env.mainBody, s), stamp, false)
      else if HasInclude(text, env.dirs.list) then (w1, Some(UNTOUCHED))
      else Rewrite(w1, AddInclude(text, env.dirs.list), stamp, true)
  }

  function RemoveZoneFiles(w: World, name: string): (World, bool) {
    var (w1, ok) := Remove(w, ZoneFile(name));
    if !ok then (w1, false) else RemoveArtifacts(w1, name, 0)
  }

  // The files of zones no longer served; the names of those that went.
  function CleanUp(w: World, previous: seq<string>, rendered: map<string, string>, zones: seq<Zone>, removed: seq<string>):
    (World, seq<string>)
    decreases |previous|
  {
    if previous == [] then (w, removed)
    else if previous[0] in rendered || HasZone(zones, previous[0]) then CleanUp(w, previous[1..], rendered, zones, removed)
    else
      var (w1, ok) := RemoveZoneFiles(w, previous[0]);
      CleanUp(w1, previous[1..], rendered, zones, if ok then removed + [previous[0]] else removed)
  }

  /**** Reconcile ****/

  // How far it came before it failed, and with that what has to be undone.
  datatype Stop =
    | Early
    | AtZones(written: seq<string>)
    | AtMain(written: seq<string>, list: Option<File>)
    | Rejected(written: seq<string>, list: Option<File>, main: MainChange)

  datatype Applied = Applied(rendered: map<string, string>, previous: seq<string>, changed: seq<string>, main: MainChange)

  ghost predicate Enumerates(order: seq<string>, zones: seq<Zone>) {
    && (forall i, j :: 0 <= i < j < |order| ==> order[i] != order[j])
    && (forall name :: name in order <==> exists i :: 0 <= i < |zones| && !zones[i].secondary && zones[i].name == name)
  }

  function Rendered(env: Env, zones: seq<Zone>, rendered: map<string, string>): map<string, string>
    decreases |zones|
  {
    if zones == [] then rendered
    else if zones[0].secondary || env.render(zones[0]).None? then Rendered(env, zones[1..], rendered)
    else Rendered(env, zones[1..], rendered[zones[0].name := env.render(zones[0]).value])
  }

  lemma {:induction false} CheckedIsRendered(w: World, env: Env, zones: seq<Zone>, rendered: map<string, string>)
    requires CheckZones(w, env, zones, rendered).1.Some?
    ensures CheckZones(w, env, zones, rendered).1 == Some(Rendered(env, zones, rendered))
    ensures forall name :: name in Rendered(env, zones, rendered) <==>
              name in rendered || exists i :: 0 <= i < |zones| && !zones[i].secondary && zones[i].name == name
    decreases |zones|
  {
    hide CheckCandidate;
    if zones != [] {
      assert zones == [zones[0]] + zones[1..];
      if zones[0].secondary {
        CheckedIsRendered(w, env, zones[1..], rendered);
      } else {
        var content := env.render(zones[0]).value;
        CheckedIsRendered(CheckCandidate(w, env, zones[0].name, content).0, env, zones[1..], rendered[zones[0].name := content]);
      }
    }
  }

  lemma OrderIsRendered(w: World, env: Env, zones: seq<Zone>, order: seq<string>)
    requires Enumerates(order, zones) && CheckZones(w, env, zones, map[]).1.Some?
    ensures var rendered := CheckZones(w, env, zones, map[]).1.value;
            forall i :: 0 <= i < |order| ==> order[i] in rendered
  {
    hide CheckZones, Rendered;
    CheckedIsRendered(w, env, zones, map[]);
    forall i | 0 <= i < |order| ensures order[i] in CheckZones(w, env, zones, map[]).1.value {
      assert order[i] in order;
    }
  }

  function ServedBy(r: Reading): seq<string> {
    if r.Holds? then ServedZones(r.text) else []
  }

  // The steps up to the check of the whole configuration.
  function Forward(w: World, env: Env, d: Desired, order: seq<string>, stamp: string): (World, Result<Applied, Stop>)
    requires Enumerates(order, d.zones)
  {
    if !env.available || (!env.signs && Unsignable(d.zones)) then (w, Failure(Early))
    else
      var (w1, dirs) := Attempt(w);
      if !dirs then (w1, Failure(Early))
      else
        var (w2, rendered) := CheckZones(w1, env, d.zones, map[]);
        if rendered.None? then (w2, Failure(Early))
        else
          OrderIsRendered(w1, env, d.zones, order);
          var (w3, now) := Read(w2, ZoneList);
          var list := RenderInclude(env.dirs, d.settings, d.zones);
          if list.None? then (w3, Failure(Early))
          else
            var (w4, written, installed) := InstallAll(w3, rendered.value, order, []);
            if !installed then (w4, Failure(AtZones(written)))
            else PutList(w4, env, d, rendered.value, ServedBy(now), written, list.value, stamp)
  }

  function PutList(w: World, env: Env, d: Desired, rendered: map<string, string>, previous: seq<string>,
                   written: seq<string>, list: string, stamp: string): (World, Result<Applied, Stop>)
  {
    var (w1, backup) := BackUp(w, ZoneList, stamp);
    if backup.None? then (w1, Failure(AtZones(written)))
    else
      var (w2, wrote) := Write(w1, ZoneList, list);
      if !wrote then (w2, Failure(AtZones(written)))
      else
        var w3 := Attempt(w2).0;
        var (w4, main) := EnsureMainConf(w3, env, d.settings, stamp);
        if main.None? then (w4, Failure(AtMain(written, backup.value)))
        else
          var (w5, ran) := Attempt(w4);
          if !ran || !env.loads(w5.files) then (w5, Failure(Rejected(written, backup.value, main.value)))
          else (w5, Success(Applied(rendered, previous, written, main.value)))
  }

  function Undo(w: World, stop: Stop): World {
    match stop
    case Early => w
    case AtZones(written) => Rollback(w, written)
    case AtMain(written, list) => Rollback(PutBack(w, ZoneList, list), written)
    case Rejected(written, list, main) =>
      var w1 := if main.created then Remove(w, MainConf).0 else PutBack(w, MainConf, main.backup);
      Rollback(PutBack(w1, ZoneList, list), written)
  }

  datatype Outcome = Failed | Done(created: bool, added: bool, changed: seq<string>, removed: seq<string>)

  function Concluded(w: World, r: Result<Applied, Stop>, d: Desired): (World, Outcome) {
    match r
    case Failure(stop) => (Undo(w, stop), Failed)
    case Success(a) =>
      var (w1, removed) := CleanUp(w, a.previous, a.rendered, d.zones, []);
      (w1, Done(a.main.created, a.main.added, a.changed, removed))
  }

  function Reconciled(w: World, env: Env, d: Desired, order: seq<string>, stamp: string): (World, Outcome)
    requires Enumerates(order, d.zones)
  {
    var (w1, r) := Forward(w, env, d, order, stamp);
    Concluded(w1, r, d)
  }

  /**** The provider ****/

  class Provider {
    var files: Files
    var faults: seq<bool>

    constructor (files: Files, faults: seq<bool>)
      ensures Now() == World(files, faults)
    {
      this.files, this.faults := files, faults;
    }

    function Now(): World
      reads this
    {
      World(files, faults)
    }

    method Set(w: World)
      modifies this
      ensures Now() == w
    {
      files, faults := w.files, w.faults;
    }

    method ReadFile(f: File) returns (r: Reading)
      modifies this
      ensures (Now(), r) == Read(old(Now()), f)
    {
      var (w, reading) := Read(Now(), f);
      Set(w);
      r := reading;
    }

    method WriteFile(f: File, text: string) returns (ok: bool)
      modifies this
      ensures (Now(), ok) == Write(old(Now()), f, text)
    {
      var (w, wrote) := Write(Now(), f, text);
      Set(w);
      ok := wrote;
    }

    method RemoveFile(f: File) returns (ok: bool)
      modifies this
      ensures (Now(), ok) == Remove(old(Now()), f)
    {
      var (w, removed) := Remove(Now(), f);
      Set(w);
      ok := removed;
    }

    method Try() returns (ok: bool)
      modifies this
      ensures (Now(), ok) == Attempt(old(Now()))
    {
      var (w, done) := Attempt(Now());
      Set(w);
      ok := done;
    }

    method CheckCandidateZone(env: Env, name: string, content: string) returns (ok: bool)
      modifies this
      ensures (Now(), ok) == CheckCandidate(old(Now()), env, name, content)
    {
      ok := WriteFile(Candidate(name), content);
      if !ok {
        return;
      }
      var ran := Try();
      var _ := RemoveFile(Candidate(name));
      return ran && env.checks(name, content);
    }

    method CheckAll(env: Env, zones: seq<Zone>) returns (rendered: Option<map<string, string>>)
      modifies this
      ensures (Now(), rendered) == CheckZones(old(Now()), env, zones, map[])
    {
      hide CheckCandidate;
      var m: map<string, string> := map[];
      for k := 0 to |zones|
        invariant CheckZones(Now(), env, zones[k..], m) == CheckZones(old(Now()), env, zones, map[])
      {
        var z := zones[k];
        assert zones[k..][0] == z && zones[k..][1..] == zones[k + 1..];
        if z.secondary {
          continue;
        }
        var content := env.render(z);
        if content.None? {
          return None;
        }
        var ok := CheckCandidateZone(env, z.name, content.value);
        if !ok {
          return None;
        }
        m := m[z.name := content.value];
      }
      assert zones[|zones|..] == [];
      return Some(m);
    }

    method RemoveArtifactsOf(name: string) returns (ok: bool)
      modifies this
      ensures (Now(), ok) == RemoveArtifacts(old(Now()), name, 0)
    {
      for kind := 0 to ARTIFACTS
        invariant RemoveArtifacts(Now(), name, kind) == RemoveArtifacts(old(Now()), name, 0)
      {
        ok := RemoveFile(Artifact(name, kind));
        if !ok {
          return;
        }
      }
      return true;
    }

    method Install(name: string, content: string) returns (ok: bool)
      modifies this
      ensures (Now(), ok) == InstallZone(old(Now()), name, content)
    {
      hide RemoveArtifacts;
      ok := RemoveArtifactsOf(name);
      if !ok {
        return;
      }
      ok := WriteFile(ZoneFile(name), content);
      if !ok {
        return;
      }
      ok := Try();
    }

    method InstallChanged(rendered: map<string, string>, order: seq<string>) returns (written: seq<string>, ok: bool)
      requires forall i :: 0 <= i < |order| ==> order[i] in rendered
      modifies this
      ensures (Now(), written, ok) == InstallAll(old(Now()), rendered, order, [])
    {
      hide InstallZone;
      written := [];
      for k := 0 to |order|
        invariant InstallAll(Now(), rendered, order[k..], written) == InstallAll(old(Now()), rendered, order, [])
      {
        var name := order[k];
        assert order[k..][0] == name && order[k..][1..] == order[k + 1..];
        var current := ReadFile(ZoneFile(name));
        if current.Unreadable? {
          return written, false;
        }
        if current == Holds(rendered[name]) {
          continue;
        }
        ok := Install(name, rendered[name]);
        if !ok {
          return;
        }
        written := written + [name];
      }
      assert order[|order|..] == [];
      return written, true;
    }

    method RollbackZones(names: seq<string>)
      modifies this
      ensures Now() == Rollback(old(Now()), names)
    {
      for k := 0 to |names|
        invariant Rollback(Now(), names[k..]) == Rollback(old(Now()), names)
      {
        assert names[k..][0] == names[k] && names[k..][1..] == names[k + 1..];
        var _ := RemoveFile(ZoneFile(names[k]));
      }
      assert names[|names|..] == [];
    }

    method BackupFile(f: File, stamp: string) returns (backup: Option<Option<File>>)
      modifies this
      ensures (Now(), backup) == BackUp(old(Now()), f, stamp)
    {
      var current := ReadFile(f);
      match current
      case Absent => return Some(None);
      case Unreadable => return None;
      case Holds(text) =>
        var ok := WriteFile(Backup(f, stamp), text);
        return if ok then Some(Some(Backup(f, stamp))) else None;
    }

    method RestoreFile(f: File, backup: Option<File>)
      modifies this
      ensures Now() == PutBack(old(Now()), f, backup)
    {
      if backup.None? {
        var _ := RemoveFile(f);
        return;
      }
      var previous := ReadFile(backup.value);
      if previous.Holds? {
        var _ := WriteFile(f, previous.text);
      }
    }

    method RewriteMainConf(text: string, stamp: string, added: bool) returns (change: Option<MainChange>)
      modifies this
      ensures (Now(), change) == Rewrite(old(Now()), text, stamp, added)
    {
      hide BackUp;
      var backup := BackupFile(MainConf, stamp);
      if backup.None? {
        return None;
      }
      var ok := WriteFile(MainConf, text);
      if !ok {
        return None;
      }
      var _ := Try();
      return Some(MainChange(backup.value, false, added));
    }

    method EnsureMain(env: Env, s: Settings, stamp: string) returns (change: Option<MainChange>)
      modifies this
      ensures (Now(), change) == EnsureMainConf(old(Now()), env, s, stamp)
    {
      hide Rewrite, RenderMainConf, AddInclude, HasMarker, HasInclude;
      var current := ReadFile(MainConf);
      if current.Unreadable? {
        return None;
      }
      if current.Absent? {
        var ok := WriteFile(MainConf, RenderMainConf(env.mainBody, s));
        if !ok {
          return None;
        }
        var _ := Try();
        return Some(MainChange(None, true, false));
      }
      if HasMarker(current.text) {
        var rendered := RenderMainConf(env.mainBody, s);
        if current.text == rendered {
          return Some(UNTOUCHED);
        }
        change := RewriteMainConf(rendered, stamp, false);
        return;
      }
      if HasInclude(current.text, env.dirs.list) {
        return Some(UNTOUCHED);
      }
      change := RewriteMainConf(AddInclude(current.text, env.dirs.list), stamp, true);
    }

    method RemoveFilesOf(name: string) returns (ok: bool)
      modifies this
      ensures (Now(), ok) == RemoveZoneFiles(old(Now()), name)
    {
      hide RemoveArtifacts;
      ok := RemoveFile(ZoneFile(name));
      if ok {
        ok := RemoveArtifactsOf(name);
      }
    }

    method RemoveUnserved(previous: seq<string>, rendered: map<string, string>, zones: seq<Zone>) returns (removed: seq<string>)
      modifies this
      ensures (Now(), removed) == CleanUp(old(Now()), previous, rendered, zones, [])
    {
      hide RemoveZoneFiles, HasZone;
      removed := [];
      for k := 0 to |previous|
        invariant CleanUp(Now(), previous[k..], rendered, zones, removed) == CleanUp(old(Now()), previous, rendered, zones, [])
      {
        var name := previous[k];
        assert previous[k..][0] == name && previous[k..][1..] == previous[k + 1..];
        if name in rendered {
          continue;
        }
        if HasZone(zones, name) {
          continue;
        }
        var ok := RemoveFilesOf(name);
        if !ok {
          continue;
        }
        removed := removed + [name];
      }
      assert previous[|previous|..] == [];
    }

    method Reconcile(env: Env, d: Desired, order: seq<string>, stamp: string) returns (outcome: Outcome)
      requires Enumerates(order, d.zones)
      modifies this
      ensures (Now(), outcome) == Reconciled(old(Now()), env, d, order, stamp)
    {
      hide CheckZones, InstallAll, Rollback, PutList, CleanUp, RenderInclude, ServedZones, Enumerates, Unsignable;
      if !env.available {
        return Failed;
      }
      if !env.signs && Unsignable(d.zones) {
        return Failed;
      }
      var ok := Try();
      if !ok {
        return Failed;
      }
      ghost var w1 := Now();
      var rendered := CheckAll(env, d.zones);
      if rendered.None? {
        return Failed;
      }
      OrderIsRendered(w1, env, d.zones, order);
      var now := ReadFile(ZoneList);
      var previous := ServedBy(now);
      var list := RenderInclude(env.dirs, d.settings, d.zones);
      if list.None? {
        return Failed;
      }
      var written, installed := InstallChanged(rendered.value, order);
      if !installed {
        RollbackZones(written);
        return Failed;
      }
      outcome := ReconcileList(env, d, rendered.value, previous, written, list.value, stamp);
    }

    // From the zone list on: every failure undoes what was done before it.
    method ReconcileList(env: Env, d: Desired, rendered: map<string, string>, previous: seq<string>,
                         written: seq<string>, list: string, stamp: string)
      returns (outcome: Outcome)
      modifies this
      ensures var (w1, r) := PutList(old(Now()), env, d, rendered, previous, written, list, stamp);
              (Now(), outcome) == Concluded(w1, r, d)
    {
      hide Rollback, BackUp, PutBack, EnsureMainConf, CleanUp;
      var listBackup := BackupFile(ZoneList, stamp);
      if listBackup.None? {
        RollbackZones(written);
        return Failed;
      }
      var ok := WriteFile(ZoneList, list);
      if !ok {
        RollbackZones(written);
        return Failed;
      }
      var _ := Try();
      var main := EnsureMain(env, d.settings, stamp);
      if main.None? {
        RestoreFile(ZoneList, listBackup.value);
        RollbackZones(written);
        return Failed;
      }
      var ran := Try();
      if !ran || !env.loads(files) {
        if main.value.created {
          var _ := RemoveFile(MainConf);
        } else {
          RestoreFile(MainConf, main.value.backup);
        }
        RestoreFile(ZoneList, listBackup.value);
        RollbackZones(written);
        return Failed;
      }
      var removed := RemoveUnserved(previous, rendered, d.zones);
      return Done(main.value.created, main.value.added, written, removed);
    }
  }
}
