// What a reconcile leaves: after success only what was asked for, and doing it again changes
// nothing; after a failure, exactly what its undoing restores.
module DnsTheorems {
  import opened Wrappers
  import opened Parts
  import opened DnsConfig
  import opened DnsMainConf
  import opened DnsReconcile

  function At(files: Files, f: File): Option<string> {
    if f in files then Some(files[f]) else None
  }

  // No call to come fails.
  ghost predicate Calm(w: World) {
    forall i :: 0 <= i < |w.faults| ==> !w.faults[i]
  }

  /**** What each step touches ****/

  lemma {:induction false} CheckingKeeps(w: World, env: Env, zones: seq<Zone>, rendered: map<string, string>)
    ensures var w' := CheckZones(w, env, zones, rendered).0;
            (forall f: File :: !f.Candidate? ==> At(w'.files, f) == At(w.files, f)) && (Calm(w) ==> Calm(w'))
    decreases |zones|
  {
    hide CheckCandidate;
    if zones != [] {
      if zones[0].secondary {
        CheckingKeeps(w, env, zones[1..], rendered);
      } else if env.render(zones[0]).Some? {
        var content := env.render(zones[0]).value;
        var w1 := CheckCandidate(w, env, zones[0].name, content).0;
        CandidateKeeps(w, env, zones[0].name, content);
        CheckingKeeps(w1, env, zones[1..], rendered[zones[0].name := content]);
      }
    }
  }

  lemma CandidateKeeps(w: World, env: Env, name: string, content: string)
    ensures var w' := CheckCandidate(w, env, name, content).0;
            (forall f: File :: !f.Candidate? ==> At(w'.files, f) == At(w.files, f)) && (Calm(w) ==> Calm(w'))
  {
  }

  lemma {:induction false} ArtifactsKeep(w: World, name: string, kind: nat)
    requires kind <= ARTIFACTS
    ensures var (w', ok) := RemoveArtifacts(w, name, kind);
            && (forall f: File :: !(f.Artifact? && f.name == name) ==> At(w'.files, f) == At(w.files, f))
            && (Calm(w) ==> ok && Calm(w'))
    decreases ARTIFACTS - kind
  {
    if kind < ARTIFACTS {
      var (w1, ok) := Remove(w, Artifact(name, kind));
      ArtifactsKeep(w1, name, kind + 1);
    }
  }

  // The call at which installing a zone stopped.
  datatype Halt = ReadFailed | ArtifactFailed | WriteFailed | ChownFailed

  function InstallHalt(w: World, name: string, content: string): Option<Halt> {
    var (w1, cleared) := RemoveArtifacts(w, name, 0);
    if !cleared then Some(ArtifactFailed)
    else
      var (w2, wrote) := Write(w1, ZoneFile(name), content);
      if !wrote then Some(WriteFailed) else if Failing(w2) then Some(ChownFailed) else None
  }

  // The zone and the call that stopped the loop over the zones, if one did.
  function LoopHalt(w: World, rendered: map<string, string>, order: seq<string>): Option<(string, Halt)>
    requires forall i :: 0 <= i < |order| ==> order[i] in rendered
    decreases |order|
  {
    if order == [] then None
    else
      var name := order[0];
      var (w1, current) := Read(w, ZoneFile(name));
      if current.Unreadable? then Some((name, ReadFailed))
      else if current == Holds(rendered[name]) then LoopHalt(w1, rendered, order[1..])
      else
        var halt := InstallHalt(w1, name, rendered[name]);
        if halt.Some? then Some((name, halt.value))
        else LoopHalt(InstallZone(w1, name, rendered[name]).0, rendered, order[1..])
  }

  // Installing one zone touches its own files, and its zone file is the new one exactly when the rename
  // went through, whether or not the chown after it did.
  lemma InstallKeeps(w: World, name: string, content: string)
    ensures var (w', ok) := InstallZone(w, name, content);
            var halt := InstallHalt(w, name, content);
            && (forall f: File :: !(f.Artifact? && f.name == name) && f != ZoneFile(name) ==> At(w'.files, f) == At(w.files, f))
            && (ok <==> halt.None?) && halt != Some(ReadFailed)
            && At(w'.files, ZoneFile(name)) == (if ok || halt == Some(ChownFailed) then Some(content) else At(w.files, ZoneFile(name)))
            && (Calm(w) ==> ok && Calm(w'))
  {
    hide RemoveArtifacts;
    ArtifactsKeep(w, name, 0);
  }

  ghost predicate Distinct(order: seq<string>) {
    forall i, j :: 0 <= i < j < |order| ==> order[i] != order[j]
  }

  // Everything but the files of zones is as it was.
  ghost predicate OnlyZones(a: Files, b: Files) {
    forall f: File :: !f.ZoneFile? && !f.Artifact? ==> At(b, f) == At(a, f)
  }

  // The zone file of one name after the loop that installs: `added` are the names it counted as written,
  // `halt` where it stopped.
  ghost predicate Installed(a: Files, b: Files, rendered: map<string, string>, order: seq<string>, added: seq<string>,
                            halt: Option<(string, Halt)>, n: string)
  {
    var before, now := At(a, ZoneFile(n)), At(b, ZoneFile(n));
    if n !in order || n !in rendered then now == before && n !in added && (halt.Some? ==> halt.value.0 != n)
    else if before == Some(rendered[n]) then
      now == before && n !in added && (halt.Some? && halt.value.0 == n ==> halt.value.1.ReadFailed?)
    else if n in added then now == Some(rendered[n]) && (halt.Some? ==> halt.value.0 != n)
    else now == (if halt == Some((n, ChownFailed)) then Some(rendered[n]) else before) && halt.Some?
  }

  ghost predicate AllInstalled(a: Files, b: Files, rendered: map<string, string>, order: seq<string>, added: seq<string>,
                               halt: Option<(string, Halt)>)
  {
    && OnlyZones(a, b)
    && (forall n :: Installed(a, b, rendered, order, added, halt, n))
    && (halt.None? ==> forall n :: n in order ==> n in rendered && At(b, ZoneFile(n)) == Some(rendered[n]))
    && (halt.None? ==> forall n, k :: n !in added ==> At(b, Artifact(n, k)) == At(a, Artifact(n, k)))
  }

  lemma {:induction false} InstallAllDoes(w: World, rendered: map<string, string>, order: seq<string>, written: seq<string>)
    returns (added: seq<string>)
    requires (forall i :: 0 <= i < |order| ==> order[i] in rendered) && Distinct(order)
    ensures var (w', written', ok) := InstallAll(w, rendered, order, written);
            var halt := LoopHalt(w, rendered, order);
            && written' == written + added && (ok <==> halt.None?)
            && AllInstalled(w.files, w'.files, rendered, order, added, halt)
            && (Calm(w) ==> ok && Calm(w'))
    decreases |order|
  {
    hide InstallZone, InstallHalt, AllInstalled;
    added := [];
    if order == [] {
      NoneInstalled(w.files, rendered);
      return;
    }
    var name := order[0];
    var (w1, current) := Read(w, ZoneFile(name));
    if current.Unreadable? {
      SameInstalled(w.files, rendered, order);
    } else if current == Holds(rendered[name]) {
      added := InstallAllDoes(w1, rendered, order[1..], written);
      var (w', _, ok) := InstallAll(w1, rendered, order[1..], written);
      KeptThenInstalled(w.files, w'.files, rendered, order, added, LoopHalt(w1, rendered, order[1..]));
    } else {
      var (w2, ok) := InstallZone(w1, name, rendered[name]);
      InstallKeeps(w1, name, rendered[name]);
      if ok {
        var rest := InstallAllDoes(w2, rendered, order[1..], written + [name]);
        added := [name] + rest;
        assert written + [name] + rest == written + added;
        var (w', _, done) := InstallAll(w2, rendered, order[1..], written + [name]);
        OneThenInstalled(w.files, w2.files, w'.files, rendered, order, rest, LoopHalt(w2, rendered, order[1..]));
      } else {
        FailedInstall(w.files, w2.files, rendered, order, InstallHalt(w1, name, rendered[name]).value);
      }
    }
  }

  lemma NoneInstalled(a: Files, rendered: map<string, string>)
    ensures AllInstalled(a, a, rendered, [], [], None)
  {
  }

  lemma SameInstalled(a: Files, rendered: map<string, string>, order: seq<string>)
    requires order != [] && order[0] in rendered
    ensures AllInstalled(a, a, rendered, order, [], Some((order[0], ReadFailed)))
  {
    assert order[0] in order;
  }

  lemma KeptThenInstalled(a: Files, b: Files, rendered: map<string, string>, order: seq<string>, added: seq<string>,
                          halt: Option<(string, Halt)>)
    requires order != [] && Distinct(order) && order[0] in rendered && At(a, ZoneFile(order[0])) == Some(rendered[order[0]])
    requires AllInstalled(a, b, rendered, order[1..], added, halt)
    ensures AllInstalled(a, b, rendered, order, added, halt)
  {
    var name := order[0];
    assert order == [name] + order[1..];
    assert name !in order[1..];
    assert Installed(a, b, rendered, order[1..], added, halt, name);
    forall n ensures Installed(a, b, rendered, order, added, halt, n) {
      assert Installed(a, b, rendered, order[1..], added, halt, n);
    }
  }

  lemma OneThenInstalled(a: Files, m: Files, b: Files, rendered: map<string, string>, order: seq<string>, rest: seq<string>,
                         halt: Option<(string, Halt)>)
    requires order != [] && Distinct(order) && order[0] in rendered
    requires At(a, ZoneFile(order[0])) != Some(rendered[order[0]]) && At(m, ZoneFile(order[0])) == Some(rendered[order[0]])
    requires forall f: File :: !(f.Artifact? && f.name == order[0]) && f != ZoneFile(order[0]) ==> At(m, f) == At(a, f)
    requires AllInstalled(m, b, rendered, order[1..], rest, halt)
    ensures AllInstalled(a, b, rendered, order, [order[0]] + rest, halt)
  {
    var name := order[0];
    assert order == [name] + order[1..];
    assert name !in order[1..];
    assert Installed(m, b, rendered, order[1..], rest, halt, name);
    forall n ensures Installed(a, b, rendered, order, [name] + rest, halt, n) {
      assert Installed(m, b, rendered, order[1..], rest, halt, n);
    }
    forall f: File | !f.ZoneFile? && !f.Artifact? ensures At(b, f) == At(a, f) {
      assert At(m, f) == At(a, f);
    }
  }

  lemma FailedInstall(a: Files, b: Files, rendered: map<string, string>, order: seq<string>, halt: Halt)
    requires order != [] && order[0] in rendered && !halt.ReadFailed? && At(a, ZoneFile(order[0])) != Some(rendered[order[0]])
    requires At(b, ZoneFile(order[0])) == if halt.ChownFailed? then Some(rendered[order[0]]) else At(a, ZoneFile(order[0]))
    requires forall f: File :: !(f.Artifact? && f.name == order[0]) && f != ZoneFile(order[0]) ==> At(b, f) == At(a, f)
    ensures AllInstalled(a, b, rendered, order, [], Some((order[0], halt)))
  {
    assert order[0] in order;
    forall n ensures Installed(a, b, rendered, order, [], Some((order[0], halt)), n) {
    }
  }

  lemma {:induction false} RollbackDoes(w: World, names: seq<string>)
    ensures var w' := Rollback(w, names);
            && (forall f: File :: (f.ZoneFile? ==> f.name !in names) ==> At(w'.files, f) == At(w.files, f))
            && (forall n :: n in names ==> At(w'.files, ZoneFile(n)) == None || At(w'.files, ZoneFile(n)) == At(w.files, ZoneFile(n)))
            && (Calm(w) ==> Calm(w') && forall n :: n in names ==> At(w'.files, ZoneFile(n)) == None)
    decreases |names|
  {
    if names != [] {
      var w1 := Remove(w, ZoneFile(names[0])).0;
      RollbackDoes(w1, names[1..]);
      assert names == [names[0]] + names[1..];
    }
  }

  lemma BackUpDoes(w: World, f: File, stamp: string)
    ensures var (w', backup) := BackUp(w, f, stamp);
            && (forall g: File :: g != Backup(f, stamp) ==> At(w'.files, g) == At(w.files, g))
            && (Calm(w) ==> Calm(w') && backup.Some?)
            && (backup == Some(None) ==> At(w.files, f) == None)
            && (backup.Some? && backup.value.Some? ==>
                  backup.value == Some(Backup(f, stamp)) && At(w.files, f).Some? && At(w'.files, Backup(f, stamp)) == At(w.files, f))
  {
  }

  // In the calm, putting back what a backup holds, or nothing.
  lemma PutBackDoes(w: World, f: File, backup: Option<File>)
    requires Calm(w) && (backup.Some? ==> At(w.files, backup.value).Some?)
    ensures var w' := PutBack(w, f, backup);
            && Calm(w') && (forall g: File :: g != f ==> At(w'.files, g) == At(w.files, g))
            && At(w'.files, f) == if backup.Some? then At(w.files, backup.value) else None
  {
  }

  // What named.conf has to say for ensureMainConf to leave it alone.
  predicate LeftAlone(env: Env, s: Settings, text: string) {
    if HasMarker(text) then text == RenderMainConf(env.mainBody, s) else HasInclude(text, env.dirs.list)
  }

  lemma EnsureDoes(w: World, env: Env, s: Settings, stamp: string)
    ensures var (w', change) := EnsureMainConf(w, env, s, stamp);
            var before := At(w.files, MainConf);
            && (forall f: File :: f != MainConf && f != Backup(MainConf, stamp) ==> At(w'.files, f) == At(w.files, f))
            && (Calm(w) ==> Calm(w') && change.Some?)
            && (change.None? ==> At(w'.files, MainConf) == before)
            && (change.Some? ==>
                  && (change.value == UNTOUCHED <==> before.Some? && LeftAlone(env, s, before.value))
                  && (change.value == UNTOUCHED ==> At(w'.files, MainConf) == before)
                  && (change.value.created <==> before.None?)
                  && (change.value.created ==> !change.value.added)
                  && (change.value != UNTOUCHED && !change.value.created ==>
                        change.value.backup == Some(Backup(MainConf, stamp)) && At(w'.files, Backup(MainConf, stamp)) == before))
  {
    hide RenderMainConf, AddInclude, HasMarker, HasInclude, BackUp;
    BackUpDoes(After(w, w.files), MainConf, stamp);
  }

  // Whatever named.conf was, it is one to leave alone once the panel has seen to it.
  lemma EnsuredIsLeftAlone(w: World, env: Env, s: Settings, stamp: string)
    requires !Contains(env.dirs.list, "//") && EnsureMainConf(w, env, s, stamp).1.Some?
    ensures var now := At(EnsureMainConf(w, env, s, stamp).0.files, MainConf);
            now.Some? && LeftAlone(env, s, now.value)
  {
    hide RenderMainConf, AddInclude, HasMarker, HasInclude, BackUp, Contains;
    BackUpDoes(After(w, w.files), MainConf, stamp);
    RenderedHasMarker(env.mainBody, s);
    var before := At(w.files, MainConf);
    if before.Some? {
      AddIncludeIsSeen(before.value, env.dirs.list);
    }
  }

  lemma WriteDoes(w: World, f: File, text: string)
    ensures var (w', wrote) := Write(w, f, text);
            && (forall g: File :: g != f ==> At(w'.files, g) == At(w.files, g))
            && At(w'.files, f) == (if wrote then Some(text) else At(w.files, f))
  {
  }

  // How the list and named.conf stand once the whole configuration has been checked or given up.
  lemma PutListDoes(w: World, env: Env, d: Desired, rendered: map<string, string>, previous: seq<string>,
                    written: seq<string>, list: string, stamp: string)
    ensures var (w', r) := PutList(w, env, d, rendered, previous, written, list, stamp);
            var conf := At(w.files, MainConf);
            var copy, mainCopy := Backup(ZoneList, stamp), Backup(MainConf, stamp);
            && (forall f: File :: f !in {ZoneList, MainConf, copy, mainCopy} ==> At(w'.files, f) == At(w.files, f))
            && (Calm(w) ==> Calm(w') && (r.Failure? ==> r.error.Rejected? && !env.loads(w'.files)))
            && (r.Success? ==> At(w'.files, ZoneList) == Some(list) && r.value.rendered == rendered && r.value.previous == previous
                               && r.value.changed == written && (r.value.main == UNTOUCHED <==> conf.Some? && LeftAlone(env, d.settings, conf.value))
                               && (r.value.main == UNTOUCHED ==> At(w'.files, MainConf) == conf))
            && (r.Failure? ==> !r.error.Early? && r.error.written == written)
            && (r.Failure? && r.error.AtZones? ==> At(w'.files, ZoneList) == At(w.files, ZoneList) && At(w'.files, MainConf) == conf)
            && (r.Failure? && !r.error.AtZones? ==>
                  if r.error.list.None? then At(w.files, ZoneList) == None
                  else r.error.list == Some(copy) && At(w'.files, copy) == At(w.files, ZoneList) && At(w.files, ZoneList).Some?)
            && (r.Failure? && r.error.AtMain? ==> At(w'.files, MainConf) == conf)
            && (r.Failure? && r.error.Rejected? ==>
                  && (r.error.main == UNTOUCHED <==> conf.Some? && LeftAlone(env, d.settings, conf.value))
                  && (r.error.main.created <==> conf.None?)
                  && (r.error.main != UNTOUCHED && !r.error.main.created ==>
                        r.error.main.backup == Some(mainCopy) && At(w'.files, mainCopy) == conf && conf.Some?))
  {
    hide BackUp, EnsureMainConf, LeftAlone, At;
    var (w1, backup) := BackUp(w, ZoneList, stamp);
    BackUpDoes(w, ZoneList, stamp);
    if backup.Some? {
      var (w2, wrote) := Write(w1, ZoneList, list);
      WriteDoes(w1, ZoneList, list);
      if wrote {
        var w3 := Attempt(w2).0;
        EnsureDoes(w3, env, d.settings, stamp);
        var (w4, main) := EnsureMainConf(w3, env, d.settings, stamp);
      }
    }
  }

  /**** After a failure ****/

  // The zones the host's list names.
  function ServedIn(files: Files): seq<string> {
    if ZoneList in files then ServedZones(files[ZoneList]) else []
  }

  // The world in which the zones are about to be installed.
  function LoopStart(w: World, env: Env, d: Desired): World {
    Read(CheckZones(Attempt(w).0, env, d.zones, map[]).0, ZoneList).0
  }

  lemma ForwardParts(w: World, env: Env, d: Desired, order: seq<string>, stamp: string)
    returns (rendered: map<string, string>, previous: seq<string>, w3: World, w4: World, written: seq<string>, ok: bool)
    requires Enumerates(order, d.zones)
    ensures var (w1, r) := Forward(w, env, d, order, stamp);
            if r == Failure(Early) then (forall f: File :: !f.Candidate? ==> At(w1.files, f) == At(w.files, f))
            else
              && rendered == Rendered(env, d.zones, map[]) && RenderInclude(env.dirs, d.settings, d.zones).Some?
              && (forall f: File :: !f.Candidate? ==> At(w3.files, f) == At(w.files, f))
              && (Calm(w) ==> Calm(w4) && previous == ServedIn(w.files)) && (previous == [] || previous == ServedIn(w.files))
              && (forall n :: n in order <==> n in rendered)
              && (forall i :: 0 <= i < |order| ==> order[i] in rendered) && w3 == LoopStart(w, env, d)
              && (ok <==> LoopHalt(w3, rendered, order).None?)
              && AllInstalled(w3.files, w4.files, rendered, order, written, LoopHalt(w3, rendered, order))
              && (w1, r) == if !ok then (w4, Failure(AtZones(written)))
                            else
                              PutList(w4, env, d, rendered, previous, written, RenderInclude(env.dirs, d.settings, d.zones).value, stamp)
  {
    hide CheckZones, InstallAll, LoopHalt, PutList, RenderInclude, Rendered, AllInstalled, ServedZones, Unsignable, Installed;
    rendered, previous, w3, w4, written, ok := map[], [], w, w, [], false;
    var (w1, dirs) := Attempt(w);
    var (w2, checked) := CheckZones(w1, env, d.zones, map[]);
    CheckingKeeps(w1, env, d.zones, map[]);
    var list := RenderInclude(env.dirs, d.settings, d.zones);
    if !env.available || (!env.signs && Unsignable(d.zones)) || !dirs || checked.None? || list.None? {
      return;
    }
    OrderIsRendered(w1, env, d.zones, order);
    CheckedIsRendered(w1, env, d.zones, map[]);
    rendered, previous := checked.value, ServedBy(Read(w2, ZoneList).1);
    assert At(w2.files, ZoneList) == At(w.files, ZoneList);
    w3 := Read(w2, ZoneList).0;
    written := InstallAllDoes(w3, rendered, order, []);
    var (w', written', done) := InstallAll(w3, rendered, order, []);
    assert [] + written == written;
    w4, ok := w', done;
    PutListDoes(w4, env, d, rendered, previous, written, list.value, stamp);
  }

  // The zone file of one name after the undoing: of the zones that differed from what was wanted, those
  // written are gone, and any other is as before unless its chown stopped the loop.
  ghost predicate ZoneUndone(rendered: map<string, string>, written: seq<string>, halt: Option<(string, Halt)>,
                             before: Option<string>, now: Option<string>, n: string)
  {
    if n !in rendered || before == Some(rendered[n]) then
      now == before && n !in written && (halt.Some? && halt.value.0 == n ==> halt.value.1.ReadFailed?)
    else
      && now == (if n in written then None else if halt == Some((n, ChownFailed)) then Some(rendered[n]) else before)
      && (n in written ==> halt.None? || halt.value.0 != n)
      && (halt.None? ==> n in written)
  }

  ghost predicate ZonesUndone(w: World, w': World, env: Env, d: Desired, order: seq<string>, written: seq<string>) {
    var rendered := Rendered(env, d.zones, map[]);
    && (forall i :: 0 <= i < |order| ==> order[i] in rendered)
    && forall n :: ZoneUndone(rendered, written, LoopHalt(LoopStart(w, env, d), rendered, order),
                              At(w.files, ZoneFile(n)), At(w'.files, ZoneFile(n)), n)
  }

  // When nothing fails any more once a step has, the list of zones is byte for byte what it was;
  // named.conf is too, unless the whole configuration was refused after named.conf needed no change:
  // then it is deleted. Rewritten zone files are deleted and the others are as they were, but for the
  // one zone, if any, whose chown stopped the loop after its rename: that one keeps its new file.
  lemma UndoRestores(w: World, env: Env, d: Desired, order: seq<string>, stamp: string)
    requires Enumerates(order, d.zones) && Forward(w, env, d, order, stamp).1.Failure?
    requires Calm(Forward(w, env, d, order, stamp).0)
    ensures var stop := Forward(w, env, d, order, stamp).1.error;
            var (w', outcome) := Reconciled(w, env, d, order, stamp);
            var conf := At(w.files, MainConf);
            && outcome == Failed
            && At(w'.files, ZoneList) == At(w.files, ZoneList)
            && At(w'.files, MainConf) ==
                 (if stop.Rejected? && conf.Some? && LeftAlone(env, d.settings, conf.value) then None else conf)
            && (stop.Early? ==> forall n :: At(w'.files, ZoneFile(n)) == At(w.files, ZoneFile(n)))
            && (!stop.Early? ==> ZonesUndone(w, w', env, d, order, stop.written))
  {
    hide Forward, Undo, Rendered, AllInstalled, CheckZones, PutList, LeftAlone, RenderInclude, ServedZones, ZoneUndone,
         LoopHalt, LoopStart, Installed;
    var (w1, r) := Forward(w, env, d, order, stamp);
    var rendered, previous, w3, w4, written, ok := ForwardParts(w, env, d, order, stamp);
    if r.error.Early? {
      EarlyUndone(w1);
    } else {
      var halt := LoopHalt(w3, rendered, order);
      if !ok {
        LoopUndone(w1, rendered, w3, order, written, halt);
      } else {
        ListUndone(w4, env, d, rendered, previous, written, RenderInclude(env.dirs, d.settings, d.zones).value, stamp, w3, order);
      }
      CandidateOnly(w, w3, Undo(w1, r.error), rendered, written, halt);
    }
  }

  // A file of a zone that was to change outlives a failed run as the new one exactly when that zone's
  // chown failed after its rename went through.
  lemma NewFileOutlivesFailure(w: World, env: Env, d: Desired, order: seq<string>, stamp: string, n: string)
    requires Enumerates(order, d.zones) && Forward(w, env, d, order, stamp).1.Failure?
    requires Calm(Forward(w, env, d, order, stamp).0) && !Forward(w, env, d, order, stamp).1.error.Early?
    ensures var rendered := Rendered(env, d.zones, map[]);
            var w' := Reconciled(w, env, d, order, stamp).0;
            && (forall i :: 0 <= i < |order| ==> order[i] in rendered)
            && ((n in rendered && At(w.files, ZoneFile(n)) != Some(rendered[n]) && At(w'.files, ZoneFile(n)) == Some(rendered[n]))
                <==> LoopHalt(LoopStart(w, env, d), rendered, order) == Some((n, ChownFailed)))
  {
    hide Forward, Reconciled, Rendered, LoopHalt, LoopStart, LeftAlone, At;
    UndoRestores(w, env, d, order, stamp);
    var rendered := Rendered(env, d.zones, map[]);
    assert ZoneUndone(rendered, Forward(w, env, d, order, stamp).1.error.written, LoopHalt(LoopStart(w, env, d), rendered, order),
                      At(w.files, ZoneFile(n)), At(Reconciled(w, env, d, order, stamp).0.files, ZoneFile(n)), n);
  }

  lemma EarlyUndone(w: World)
    ensures Undo(w, Early) == w
  {
  }

  // The zones of two worlds undone, seen from the world before the candidates were checked.
  lemma CandidateOnly(w: World, w3: World, w': World, rendered: map<string, string>, written: seq<string>, halt: Option<(string, Halt)>)
    requires forall f: File :: !f.Candidate? ==> At(w3.files, f) == At(w.files, f)
    requires forall n :: ZoneUndone(rendered, written, halt, At(w3.files, ZoneFile(n)), At(w'.files, ZoneFile(n)), n)
    ensures forall n :: ZoneUndone(rendered, written, halt, At(w.files, ZoneFile(n)), At(w'.files, ZoneFile(n)), n)
    ensures At(w3.files, ZoneList) == At(w.files, ZoneList) && At(w3.files, MainConf) == At(w.files, MainConf)
  {
    hide ZoneUndone, At;
    forall n ensures ZoneUndone(rendered, written, halt, At(w.files, ZoneFile(n)), At(w'.files, ZoneFile(n)), n) {
      assert At(w3.files, ZoneFile(n)) == At(w.files, ZoneFile(n));
      assert ZoneUndone(rendered, written, halt, At(w3.files, ZoneFile(n)), At(w'.files, ZoneFile(n)), n);
    }
  }

  lemma LoopUndone(w1: World, rendered: map<string, string>, w3: World, order: seq<string>, written: seq<string>,
                   halt: Option<(string, Halt)>)
    requires Calm(w1) && AllInstalled(w3.files, w1.files, rendered, order, written, halt)
    requires forall n :: n in order <==> n in rendered
    ensures var w' := Undo(w1, AtZones(written));
            && At(w'.files, ZoneList) == At(w3.files, ZoneList) && At(w'.files, MainConf) == At(w3.files, MainConf)
            && forall n :: ZoneUndone(rendered, written, halt, At(w3.files, ZoneFile(n)), At(w'.files, ZoneFile(n)), n)
  {
    RollbackDoes(w1, written);
    ZonesAfterRollback(w1, Rollback(w1, written), rendered, w3, order, written, halt);
  }

  // Removing the written zones after the loop that installed them.
  lemma ZonesAfterRollback(a: World, w': World, rendered: map<string, string>, w3: World, order: seq<string>, written: seq<string>,
                           halt: Option<(string, Halt)>)
    requires forall n :: n in order <==> n in rendered
    requires forall n :: Installed(w3.files, a.files, rendered, order, written, halt, n)
    requires forall n :: At(w'.files, ZoneFile(n)) == if n in written then None else At(a.files, ZoneFile(n))
    ensures forall n :: ZoneUndone(rendered, written, halt, At(w3.files, ZoneFile(n)), At(w'.files, ZoneFile(n)), n)
  {
    forall n ensures ZoneUndone(rendered, written, halt, At(w3.files, ZoneFile(n)), At(w'.files, ZoneFile(n)), n) {
      assert Installed(w3.files, a.files, rendered, order, written, halt, n);
      assert n in order <==> n in rendered;
      assert At(w'.files, ZoneFile(n)) == if n in written then None else At(a.files, ZoneFile(n));
    }
  }

  lemma ListUndone(w4: World, env: Env, d: Desired, rendered: map<string, string>, previous: seq<string>, written: seq<string>,
                   list: string, stamp: string, w3: World, order: seq<string>)
    requires forall n :: n in order <==> n in rendered
    requires AllInstalled(w3.files, w4.files, rendered, order, written, None)
    requires var (w1, r) := PutList(w4, env, d, rendered, previous, written, list, stamp); r.Failure? && Calm(w1)
    ensures var (w1, r) := PutList(w4, env, d, rendered, previous, written, list, stamp);
            var w' := Undo(w1, r.error);
            var conf := At(w3.files, MainConf);
            && !r.error.Early? && r.error.written == written
            && At(w'.files, ZoneList) == At(w3.files, ZoneList)
            && At(w'.files, MainConf) ==
                 (if r.error.Rejected? && conf.Some? && LeftAlone(env, d.settings, conf.value) then None else conf)
            && forall n :: ZoneUndone(rendered, written, None, At(w3.files, ZoneFile(n)), At(w'.files, ZoneFile(n)), n)
  {
    hide LeftAlone, PutList, Undo, Rollback;
    var (w1, r) := PutList(w4, env, d, rendered, previous, written, list, stamp);
    PutListDoes(w4, env, d, rendered, previous, written, list, stamp);
    var undone := BeforeRollback(w1, r.error);
    RollbackDoes(undone, written);
    ZonesAfterRollback(w4, Rollback(undone, written), rendered, w3, order, written, None);
  }

  // The world in which the zones are about to be removed.
  lemma BeforeRollback(w: World, stop: Stop) returns (w': World)
    requires Calm(w) && !stop.Early?
    requires stop.AtMain? && stop.list.Some? ==> At(w.files, stop.list.value).Some?
    requires stop.Rejected? ==>
               && (stop.list.Some? ==> stop.list.value != MainConf && At(w.files, stop.list.value).Some?)
               && (!stop.main.created && stop.main.backup.Some? ==> At(w.files, stop.main.backup.value).Some?)
    ensures Undo(w, stop) == Rollback(w', stop.written) && Calm(w')
    ensures forall f: File :: f != MainConf && f != ZoneList ==> At(w'.files, f) == At(w.files, f)
    ensures At(w'.files, ZoneList) ==
              if stop.AtZones? then At(w.files, ZoneList)
              else if stop.list.Some? then At(w.files, stop.list.value) else None
    ensures At(w'.files, MainConf) ==
              if !stop.Rejected? then At(w.files, MainConf)
              else if stop.main.created || stop.main.backup.None? then None else At(w.files, stop.main.backup.value)
  {
    hide PutBack, Rollback;
    match stop
    case AtZones(written) => w' := w;
    case AtMain(written, list) =>
      PutBackDoes(w, ZoneList, list);
      w' := PutBack(w, ZoneList, list);
    case Rejected(written, list, main) =>
      var m := if main.created then Remove(w, MainConf).0 else PutBack(w, MainConf, main.backup);
      if !main.created {
        PutBackDoes(w, MainConf, main.backup);
      }
      PutBackDoes(m, ZoneList, list);
      w' := PutBack(m, ZoneList, list);
  }

  /**** After success ****/

  // A zone that was served and is not wanted any more.
  predicate Gone(previous: seq<string>, rendered: map<string, string>, zones: seq<Zone>, n: string) {
    n in previous && n !in rendered && !HasZone(zones, n)
  }

  lemma RemoveFilesDoes(w: World, name: string)
    ensures var (w', ok) := RemoveZoneFiles(w, name);
            && (forall f: File :: !((f.Artifact? || f.ZoneFile?) && f.name == name) ==> At(w'.files, f) == At(w.files, f))
            && (At(w'.files, ZoneFile(name)) == None || At(w'.files, ZoneFile(name)) == At(w.files, ZoneFile(name)))
            && (Calm(w) ==> Calm(w') && At(w'.files, ZoneFile(name)) == None)
  {
    hide RemoveArtifacts;
    ArtifactsKeep(Remove(w, ZoneFile(name)).0, name, 0);
  }

  lemma {:induction false} CleanUpDoes(w: World, previous: seq<string>, rendered: map<string, string>, zones: seq<Zone>, removed: seq<string>)
    ensures var (w', removed') := CleanUp(w, previous, rendered, zones, removed);
            && (forall f: File :: !((f.Artifact? || f.ZoneFile?) && Gone(previous, rendered, zones, f.name)) ==>
                  At(w'.files, f) == At(w.files, f))
            && (forall n :: Gone(previous, rendered, zones, n) ==>
                  At(w'.files, ZoneFile(n)) == None || At(w'.files, ZoneFile(n)) == At(w.files, ZoneFile(n)))
            && (Calm(w) ==> forall n :: Gone(previous, rendered, zones, n) ==> At(w'.files, ZoneFile(n)) == None)
            && ((forall n :: !Gone(previous, rendered, zones, n)) ==> removed' == removed)
    decreases |previous|
  {
    hide RemoveZoneFiles, HasZone;
    if previous != [] {
      var name := previous[0];
      assert previous == [name] + previous[1..];
      assert forall n :: Gone(previous, rendered, zones, n) <==> Gone([name], rendered, zones, n) || Gone(previous[1..], rendered, zones, n);
      if name in rendered || HasZone(zones, name) {
        assert forall n :: !Gone([name], rendered, zones, n);
        CleanUpDoes(w, previous[1..], rendered, zones, removed);
      } else {
        assert Gone(previous, rendered, zones, name);
        var (w1, ok) := RemoveZoneFiles(w, name);
        RemoveFilesDoes(w, name);
        CleanUpDoes(w1, previous[1..], rendered, zones, if ok then removed + [name] else removed);
      }
    }
  }

  // The zone file of one name after a success.
  ghost predicate ZoneSettled(env: Env, d: Desired, served: seq<string>, before: Option<string>, now: Option<string>, n: string, calm: bool) {
    var rendered := Rendered(env, d.zones, map[]);
    if n in rendered then now == Some(rendered[n])
    else if HasZone(d.zones, n) || n !in served then now == before
    else now == None || (!calm && now == before)
  }

  // After a success the list and every primary zone's file are what was asked for; a secondary's file
  // is untouched; and, if no call failed, the zones no longer asked for have no file left.
  lemma SuccessLeavesDesired(w: World, env: Env, d: Desired, order: seq<string>, stamp: string)
    requires Enumerates(order, d.zones) && Reconciled(w, env, d, order, stamp).1.Done?
    ensures var w' := Reconciled(w, env, d, order, stamp).0;
            && RenderInclude(env.dirs, d.settings, d.zones).Some?
            && At(w'.files, ZoneList) == RenderInclude(env.dirs, d.settings, d.zones)
            && forall n ::
                 ZoneSettled(env, d, ServedIn(w.files), At(w.files, ZoneFile(n)), At(w'.files, ZoneFile(n)), n, Calm(w))
  {
    hide Forward, CleanUp, Rendered, AllInstalled, PutList, RenderInclude, ServedIn, HasZone, LeftAlone, Calm, Gone, Installed;
    var (w1, r) := Forward(w, env, d, order, stamp);
    var rendered, previous, w3, w4, written, ok := ForwardParts(w, env, d, order, stamp);
    PutListDoes(w4, env, d, rendered, previous, written, RenderInclude(env.dirs, d.settings, d.zones).value, stamp);
    CleanUpDoes(w1, previous, rendered, d.zones, []);
    var w' := CleanUp(w1, previous, rendered, d.zones, []).0;
    forall n ensures ZoneSettled(env, d, ServedIn(w.files), At(w.files, ZoneFile(n)), At(w'.files, ZoneFile(n)), n, Calm(w)) {
      OneSettled(w, w1, w', w3, w4, env, d, rendered, previous, order, written, n);
    }
  }

  lemma OneSettled(w: World, w1: World, w': World, w3: World, w4: World, env: Env, d: Desired, rendered: map<string, string>,
                   previous: seq<string>, order: seq<string>, written: seq<string>, n: string)
    requires rendered == Rendered(env, d.zones, map[]) && (n in order <==> n in rendered)
    requires AllInstalled(w3.files, w4.files, rendered, order, written, None)
    requires At(w3.files, ZoneFile(n)) == At(w.files, ZoneFile(n)) && At(w1.files, ZoneFile(n)) == At(w4.files, ZoneFile(n))
    requires Calm(w) ==> Calm(w1) && previous == ServedIn(w.files)
    requires previous == [] || previous == ServedIn(w.files)
    requires !Gone(previous, rendered, d.zones, n) ==> At(w'.files, ZoneFile(n)) == At(w1.files, ZoneFile(n))
    requires Gone(previous, rendered, d.zones, n) ==>
               At(w'.files, ZoneFile(n)) == None || (!Calm(w1) && At(w'.files, ZoneFile(n)) == At(w1.files, ZoneFile(n)))
    ensures ZoneSettled(env, d, ServedIn(w.files), At(w.files, ZoneFile(n)), At(w'.files, ZoneFile(n)), n, Calm(w))
  {
    hide Rendered, ServedIn, HasZone, Calm, At;
    assert Installed(w3.files, w4.files, rendered, order, written, None, n);
  }

  // Every zone file on the host belongs to a zone it serves.
  ghost predicate OnlyServed(files: Files) {
    forall n :: ZoneFile(n) in files ==> n in ServedIn(files)
  }

  lemma RenderedIsDesired(env: Env, d: Desired, order: seq<string>, n: string)
    requires Enumerates(order, d.zones)
    ensures n in order ==> HasZone(d.zones, n)
  {
  }

  // That is kept by every reconcile in which nothing fails, and makes the result a function of what
  // was asked for: two hosts end with the same list and the same files of primary zones.
  lemma SameResultEverywhere(a: World, b: World, env: Env, d: Desired, order: seq<string>, stamp: string, order': seq<string>, stamp': string)
    requires Enumerates(order, d.zones) && Enumerates(order', d.zones) && PlainRequest(env.dirs, d.settings, d.zones)
    requires Calm(a) && Calm(b) && OnlyServed(a.files) && OnlyServed(b.files)
    requires Reconciled(a, env, d, order, stamp).1.Done? && Reconciled(b, env, d, order', stamp').1.Done?
    ensures var a', b' := Reconciled(a, env, d, order, stamp).0, Reconciled(b, env, d, order', stamp').0;
            && At(a'.files, ZoneList) == At(b'.files, ZoneList)
            && OnlyServed(a'.files)
            && forall n :: (n in Rendered(env, d.zones, map[]) || !HasZone(d.zones, n)) ==>
                 At(a'.files, ZoneFile(n)) == At(b'.files, ZoneFile(n))
  {
    hide Reconciled, Rendered, RenderInclude, ServedZones, HasZone, Calm, PlainRequest, Enumerates;
    SuccessLeavesDesired(a, env, d, order, stamp);
    SuccessLeavesDesired(b, env, d, order', stamp');
    var a', b' := Reconciled(a, env, d, order, stamp).0, Reconciled(b, env, d, order', stamp').0;
    forall n | ZoneFile(n) in a'.files ensures n in ServedIn(a'.files) {
      assert ZoneSettled(env, d, ServedIn(a.files), At(a.files, ZoneFile(n)), At(a'.files, ZoneFile(n)), n, Calm(a));
      SettledIsServed(a, env, d, order, stamp, n);
    }
    forall n | n in Rendered(env, d.zones, map[]) || !HasZone(d.zones, n)
      ensures At(a'.files, ZoneFile(n)) == At(b'.files, ZoneFile(n))
    {
      assert ZoneSettled(env, d, ServedIn(a.files), At(a.files, ZoneFile(n)), At(a'.files, ZoneFile(n)), n, Calm(a));
      assert ZoneSettled(env, d, ServedIn(b.files), At(b.files, ZoneFile(n)), At(b'.files, ZoneFile(n)), n, Calm(b));
    }
  }

  lemma SettledIsServed(w: World, env: Env, d: Desired, order: seq<string>, stamp: string, n: string)
    requires Enumerates(order, d.zones) && PlainRequest(env.dirs, d.settings, d.zones)
    requires Calm(w) && OnlyServed(w.files) && Reconciled(w, env, d, order, stamp).1.Done?
    ensures var w' := Reconciled(w, env, d, order, stamp).0; ZoneFile(n) in w'.files ==> n in ServedIn(w'.files)
  {
    hide Reconciled, Rendered, ServedZones, Calm, PlainRequest, Forward;
    SuccessLeavesDesired(w, env, d, order, stamp);
    var w' := Reconciled(w, env, d, order, stamp).0;
    assert ZoneSettled(env, d, ServedIn(w.files), At(w.files, ZoneFile(n)), At(w'.files, ZoneFile(n)), n, Calm(w));
    PrimariesAreDesired(w, env, d, order, stamp, n);
    assert HasMasters(d.zones);
    ServedIsDesired(env.dirs, d.settings, d.zones, n);
  }

  lemma PrimariesAreDesired(w: World, env: Env, d: Desired, order: seq<string>, stamp: string, n: string)
    requires Enumerates(order, d.zones) && Reconciled(w, env, d, order, stamp).1.Done?
    ensures n in Rendered(env, d.zones, map[]) ==> HasZone(d.zones, n)
  {
    hide Forward, CleanUp, Rendered, PutList, RenderInclude, ServedIn, Calm, AllInstalled;
    var rendered, previous, w3, w4, written, ok := ForwardParts(w, env, d, order, stamp);
    RenderedIsDesired(env, d, order, n);
  }

  /**** Doing it again ****/

  // The host already holds what is asked for.
  ghost predicate Settled(files: Files, env: Env, d: Desired, order: seq<string>) {
    && At(files, ZoneList) == RenderInclude(env.dirs, d.settings, d.zones)
    && (forall n :: n in order ==> n in Rendered(env, d.zones, map[]) && At(files, ZoneFile(n)) == Some(Rendered(env, d.zones, map[])[n]))
    && At(files, MainConf).Some? && LeftAlone(env, d.settings, At(files, MainConf).value)
  }

  lemma SuccessSettles(w: World, env: Env, d: Desired, order: seq<string>, stamp: string)
    requires Enumerates(order, d.zones) && Reconciled(w, env, d, order, stamp).1.Done? && !Contains(env.dirs.list, "//")
    ensures Settled(Reconciled(w, env, d, order, stamp).0.files, env, d, order)
  {
    hide Forward, CleanUp, Rendered, AllInstalled, PutList, RenderInclude, ServedIn, HasZone, LeftAlone, Calm, Gone, Installed, Contains,
         Reconciled;
    SuccessLeavesDesired(w, env, d, order, stamp);
    MainSettles(w, env, d, order, stamp);
    var rendered, previous, w3, w4, written, ok := ForwardParts(w, env, d, order, stamp);
    NotEarly(w, env, d, order, stamp);
    forall n | n in order
      ensures n in Rendered(env, d.zones, map[])
      ensures At(Reconciled(w, env, d, order, stamp).0.files, ZoneFile(n)) == Some(Rendered(env, d.zones, map[])[n])
    {
      assert ZoneSettled(env, d, ServedIn(w.files), At(w.files, ZoneFile(n)),
                         At(Reconciled(w, env, d, order, stamp).0.files, ZoneFile(n)), n, Calm(w));
    }
  }

  lemma NotEarly(w: World, env: Env, d: Desired, order: seq<string>, stamp: string)
    requires Enumerates(order, d.zones) && Reconciled(w, env, d, order, stamp).1.Done?
    ensures Forward(w, env, d, order, stamp).1.Success?
  {
    hide Forward, CleanUp, Undo;
  }

  lemma MainSettles(w: World, env: Env, d: Desired, order: seq<string>, stamp: string)
    requires Enumerates(order, d.zones) && Reconciled(w, env, d, order, stamp).1.Done? && !Contains(env.dirs.list, "//")
    ensures var conf := At(Reconciled(w, env, d, order, stamp).0.files, MainConf);
            conf.Some? && LeftAlone(env, d.settings, conf.value)
  {
    hide Forward, CleanUp, Rendered, AllInstalled, PutList, RenderInclude, ServedIn, HasZone, LeftAlone, Calm, Gone, Contains, Undo;
    var rendered, previous, w3, w4, written, ok := ForwardParts(w, env, d, order, stamp);
    var (w1, r) := Forward(w, env, d, order, stamp);
    PutListLeavesMain(w4, env, d, rendered, previous, written, RenderInclude(env.dirs, d.settings, d.zones).value, stamp);
    CleanUpDoes(w1, r.value.previous, r.value.rendered, d.zones, []);
    var w' := CleanUp(w1, r.value.previous, r.value.rendered, d.zones, []).0;
    assert At(w'.files, MainConf) == At(w1.files, MainConf);
  }

  lemma PutListLeavesMain(w: World, env: Env, d: Desired, rendered: map<string, string>, previous: seq<string>,
                          written: seq<string>, list: string, stamp: string)
    requires PutList(w, env, d, rendered, previous, written, list, stamp).1.Success? && !Contains(env.dirs.list, "//")
    ensures var conf := At(PutList(w, env, d, rendered, previous, written, list, stamp).0.files, MainConf);
            conf.Some? && LeftAlone(env, d.settings, conf.value)
  {
    hide BackUp, EnsureMainConf, LeftAlone, Contains;
    var (w1, backup) := BackUp(w, ZoneList, stamp);
    var (w2, wrote) := Write(w1, ZoneList, list);
    EnsuredIsLeftAlone(Attempt(w2).0, env, d.settings, stamp);
  }

  // Asking again for what is there changes no zone, list or named.conf, installs nothing and removes
  // nothing; only a fresh backup of the list appears.
  lemma SettledStays(w: World, env: Env, d: Desired, order: seq<string>, stamp: string)
    requires Enumerates(order, d.zones) && PlainRequest(env.dirs, d.settings, d.zones)
    requires Settled(w.files, env, d, order) && Reconciled(w, env, d, order, stamp).1.Done?
    ensures var (w', outcome) := Reconciled(w, env, d, order, stamp);
            && outcome == Done(false, false, [], [])
            && forall f: File :: !f.Backup? && !f.Candidate? ==> At(w'.files, f) == At(w.files, f)
  {
    hide Forward, CleanUp, Rendered, AllInstalled, PutList, RenderInclude, ServedIn, HasZone, LeftAlone, Calm, Gone, Contains, Undo,
         PlainRequest, Enumerates;
    NotEarly(w, env, d, order, stamp);
    var rendered, previous, w3, w4, written, ok := ForwardParts(w, env, d, order, stamp);
    var list := RenderInclude(env.dirs, d.settings, d.zones).value;
    var (w1, r) := Forward(w, env, d, order, stamp);
    assert At(w3.files, MainConf) == At(w.files, MainConf) && At(w3.files, ZoneList) == At(w.files, ZoneList);
    forall n | n in order ensures At(w3.files, ZoneFile(n)) == Some(rendered[n]) {
      assert At(w3.files, ZoneFile(n)) == At(w.files, ZoneFile(n));
    }
    NothingInstalled(w3.files, w4.files, rendered, order, written);
    PutListDoes(w4, env, d, rendered, previous, written, list, stamp);
    assert At(w4.files, MainConf) == At(w3.files, MainConf) && At(w4.files, ZoneList) == At(w3.files, ZoneList);
    NoneGone(w.files, env, d, previous, rendered);
    CleanUpDoes(w1, previous, rendered, d.zones, []);
    var w' := CleanUp(w1, previous, rendered, d.zones, []).0;
    forall f: File | !f.Backup? && !f.Candidate? ensures At(w'.files, f) == At(w.files, f) {
      assert At(w'.files, f) == At(w1.files, f);
      assert At(w3.files, f) == At(w.files, f);
      assert At(w4.files, f) == At(w3.files, f);
    }
  }

  lemma FirstIsMember(s: seq<string>)
    ensures s == [] || s[0] in s
  {
  }

  lemma NothingInstalled(a: Files, b: Files, rendered: map<string, string>, order: seq<string>, written: seq<string>)
    requires AllInstalled(a, b, rendered, order, written, None)
    requires forall n :: n in order ==> n in rendered && At(a, ZoneFile(n)) == Some(rendered[n])
    ensures written == [] && forall f: File :: At(b, f) == At(a, f)
  {
    forall n ensures n !in written && At(b, ZoneFile(n)) == At(a, ZoneFile(n)) {
      assert Installed(a, b, rendered, order, written, None, n);
    }
    FirstIsMember(written);
    forall f: File ensures At(b, f) == At(a, f) {
      match f
      case ZoneFile(n) => assert At(b, ZoneFile(n)) == At(a, ZoneFile(n));
      case Artifact(n, k) => assert At(b, Artifact(n, k)) == At(a, Artifact(n, k));
      case _ =>
    }
  }

  lemma NoneGone(files: Files, env: Env, d: Desired, previous: seq<string>, rendered: map<string, string>)
    requires PlainRequest(env.dirs, d.settings, d.zones)
    requires RenderInclude(env.dirs, d.settings, d.zones).Some? && At(files, ZoneList) == RenderInclude(env.dirs, d.settings, d.zones)
    requires previous == [] || previous == ServedIn(files)
    ensures forall n :: !Gone(previous, rendered, d.zones, n)
  {
    hide ServedZones, PlainRequest;
    forall n ensures n in previous ==> HasZone(d.zones, n) {
      ServedIsDesired(env.dirs, d.settings, d.zones, n);
    }
  }

  // So a reconcile that went through, done again for the same request, changes nothing, whatever failed
  // or did not fail the first time.
  lemma ReconcileIsIdempotent(w: World, env: Env, d: Desired, order: seq<string>, stamp: string, faults: seq<bool>, stamp': string)
    requires Enumerates(order, d.zones) && PlainRequest(env.dirs, d.settings, d.zones) && !Contains(env.dirs.list, "//")
    requires Reconciled(w, env, d, order, stamp).1.Done?
    requires Reconciled(World(Reconciled(w, env, d, order, stamp).0.files, faults), env, d, order, stamp').1.Done?
    ensures var first := Reconciled(w, env, d, order, stamp).0;
            var (second, outcome) := Reconciled(World(first.files, faults), env, d, order, stamp');
            && outcome == Done(false, false, [], [])
            && forall f: File :: !f.Backup? && !f.Candidate? ==> At(second.files, f) == At(first.files, f)
  {
    hide Reconciled, PlainRequest, Settled, Contains, At, Enumerates;
    SuccessSettles(w, env, d, order, stamp);
    SettledStays(World(Reconciled(w, env, d, order, stamp).0.files, faults), env, d, order, stamp');
  }

  /**** Where the undoing falls short ****/

  // A named.conf that already includes the panel's list is deleted when the configuration is refused.
  lemma RefusalDeletesNamedConf(env: Env, s: Settings, text: string, stamp: string)
    requires env.available && !env.loads(map[MainConf := text, ZoneList := Unlines(HEADER)])
    requires !HasMarker(text) && HasInclude(text, env.dirs.list)
    ensures var w := World(map[MainConf := text], []);
            var (w', outcome) := Reconciled(w, env, Desired(s, []), [], stamp);
            outcome == Failed && MainConf in w.files && MainConf !in w'.files
  {
    hide HasMarker, HasInclude, HEADER, Unlines, LeftAlone;
    var d := Desired(s, []);
    var w := World(map[MainConf := text], []);
    var listed := map[MainConf := text, ZoneList := Unlines(HEADER)];
    assert RenderInclude(env.dirs, s, []) == Some(Unlines(HEADER)) by {
      assert HEADER + [] == HEADER;
    }
    assert w.files[ZoneList := Unlines(HEADER)] == listed;
    assert EnsureMainConf(World(listed, []), env, s, stamp) == (World(listed, []), Some(UNTOUCHED));
    assert Forward(w, env, d, [], stamp) == (World(listed, []), Failure(Rejected([], None, UNTOUCHED)));
    var undone := Undo(World(listed, []), Rejected([], None, UNTOUCHED));
    assert undone.files == map[];
  }

  // A zone file written and then not given to the name server stays behind although the run failed.
  lemma FailedChownLeavesZone(env: Env, s: Settings, z: Zone, content: string, stamp: string)
    requires env.available && (env.signs || !z.dnssec) && !z.secondary
    requires env.render(z) == Some(content) && env.checks(z.name, content)
    ensures Enumerates([z.name], [z])
    ensures var w := World(map[], seq(11, i => false) + [true]);
            var (w', outcome) := Reconciled(w, env, Desired(s, [z]), [z.name], stamp);
            outcome == Failed && w'.files == map[ZoneFile(z.name) := content]
  {
    hide RenderInclude, ServedZones, CheckZones, InstallAll, Enumerates, Rollback;
    var w := World(map[], seq(11, i => false) + [true]);
    OneName(z);
    ElevenThenOne(w.faults);
    var w1 := Attempt(w).0;
    assert w1 == World(map[], w.faults[1..]);
    CheckOne(w1, env, z, content);
    var w2 := World(map[], w1.faults[3..]);
    assert w2.faults == w.faults[4..];
    var w3 := Read(w2, ZoneList).0;
    assert w3 == World(map[], w.faults[5..]);
    ChownFails(w3, z.name, content);
    OnePrimary(env.dirs, s, z);
    NothingRolledBack(World(map[ZoneFile(z.name) := content], []));
    ForwardStops(w, env, s, z, content, stamp);
  }

  // The run of FailedChownLeavesZone up to its failure.
  lemma ForwardStops(w: World, env: Env, s: Settings, z: Zone, content: string, stamp: string)
    requires Enumerates([z.name], [z]) && env.available && (env.signs || !z.dnssec) && !Failing(w)
    requires RenderInclude(env.dirs, s, [z]).Some?
    requires var w1 := Attempt(w).0;
             && CheckZones(w1, env, [z], map[]).1 == Some(map[z.name := content])
             && var w3 := Read(CheckZones(w1, env, [z], map[]).0, ZoneList).0;
                InstallAll(w3, map[z.name := content], [z.name], []) == (World(map[ZoneFile(z.name) := content], []), [], false)
    ensures Forward(w, env, Desired(s, [z]), [z.name], stamp)
         == (World(map[ZoneFile(z.name) := content], []), Failure(AtZones([])))
  {
    hide RenderInclude, ServedZones, CheckZones, InstallAll, Enumerates;
  }

  lemma NothingRolledBack(w: World)
    ensures Undo(w, AtZones([])) == w
  {
  }

  lemma ElevenThenOne(faults: seq<bool>)
    requires faults == seq(11, i => false) + [true]
    ensures |faults| == 12 && !faults[0] && !faults[1] && !faults[2] && !faults[3]
    ensures faults[5..] == [false, false, false, false, false, false, true]
  {
  }

  lemma OneName(z: Zone)
    requires !z.secondary
    ensures Enumerates([z.name], [z])
  {
    assert [z][0].name == z.name;
  }

  lemma OnePrimary(dirs: Dirs, s: Settings, z: Zone)
    requires !z.secondary
    ensures RenderInclude(dirs, s, [z]).Some?
  {
    hide Unlines, Blocks, Sorted, HEADER;
  }

  lemma CheckOne(w: World, env: Env, z: Zone, content: string)
    requires w.files == map[] && |w.faults| > 3 && !w.faults[0] && !w.faults[1] && !w.faults[2]
    requires !z.secondary && env.render(z) == Some(content) && env.checks(z.name, content)
    ensures CheckZones(w, env, [z], map[]) == (World(map[], w.faults[3..]), Some(map[z.name := content]))
  {
    assert [z][1..] == [];
    assert map[Candidate(z.name) := content] - {Candidate(z.name)} == map[];
    assert w.faults[1..][1..][1..] == w.faults[3..];
  }

  lemma ChownFails(w: World, name: string, content: string)
    requires w.files == map[] && w.faults == [false, false, false, false, false, false, true]
    ensures InstallAll(w, map[name := content], [name], []) == (World(map[ZoneFile(name) := content], []), [], false)
  {
    hide RemoveArtifacts;
    var w1 := Read(w, ZoneFile(name)).0;
    assert w1 == World(map[], [false, false, false, false, false, true]);
    NoArtifacts(w1, name);
    WriteThenFail(RemoveArtifacts(w1, name, 0).0, name, content);
  }

  lemma WriteThenFail(w: World, name: string, content: string)
    requires w == World(map[], [false, true])
    ensures var (w', wrote) := Write(w, ZoneFile(name), content);
            wrote && Failing(w') && After(w', w'.files) == World(map[ZoneFile(name) := content], [])
  {
    assert w.faults[1..] == [true] && w.faults[1..][1..] == [];
    assert w.files[ZoneFile(name) := content] == map[ZoneFile(name) := content];
  }

  lemma NoArtifacts(w: World, name: string)
    requires w == World(map[], [false, false, false, false, false, true])
    ensures RemoveArtifacts(w, name, 0) == (World(map[], [false, true]), true)
  {
    var w1 := Remove(w, Artifact(name, 0)).0;
    assert w1 == World(map[], [false, false, false, false, true]);
    var w2 := Remove(w1, Artifact(name, 1)).0;
    assert w2 == World(map[], [false, false, false, true]);
    var w3 := Remove(w2, Artifact(name, 2)).0;
    assert w3 == World(map[], [false, false, true]);
    var w4 := Remove(w3, Artifact(name, 3)).0;
    assert w4 == World(map[], [false, true]);
    assert RemoveArtifacts(w3, name, 3) == (w4, true);
    assert RemoveArtifacts(w2, name, 2) == (w4, true);
    assert RemoveArtifacts(w1, name, 1) == (w4, true);
  }
}
