// When a reconcile goes through, and what it leaves beside the zone files (agent/internal/dns/apply.go and
// agent/internal/dns/provider.go).
module DnsAcceptance {
  import opened Wrappers
  import opened Bytes
  import opened DnsConfig
  import opened DnsMainConf
  import opened DnsReconcile
  import opened DnsTheorems

  /**** Every zone is checked ****/

  // Every primary zone can be rendered, and what is rendered passes the check of one zone.
  ghost predicate AllPass(env: Env, zones: seq<Zone>) {
    forall i :: 0 <= i < |zones| && !zones[i].secondary ==>
      env.render(zones[i]).Some? && env.checks(zones[i].name, env.render(zones[i]).value)
  }

  lemma OneChecked(w: World, env: Env, name: string, content: string)
    ensures var (w', ok) := CheckCandidate(w, env, name, content);
            && (ok ==> env.checks(name, content))
            && (Calm(w) ==> (ok <==> env.checks(name, content)) && At(w'.files, Candidate(name)) == None)
            && (forall f: File :: f != Candidate(name) ==> At(w'.files, f) == At(w.files, f))
            && (Calm(w) ==> Calm(w'))
  {
  }

  lemma PassesOn(env: Env, zones: seq<Zone>)
    requires zones != []
    ensures AllPass(env, zones) <==>
              (zones[0].secondary || (env.render(zones[0]).Some? && env.checks(zones[0].name, env.render(zones[0]).value)))
              && AllPass(env, zones[1..])
  {
    assert forall i :: 1 <= i < |zones| ==> zones[i] == zones[1..][i - 1];
    assert forall i :: 0 <= i < |zones[1..]| ==> zones[1..][i] == zones[i + 1];
  }

  ghost predicate IsPrimary(zones: seq<Zone>, name: string) {
    exists i :: 0 <= i < |zones| && !zones[i].secondary && zones[i].name == name
  }

  lemma PrimaryOn(zones: seq<Zone>, name: string)
    requires zones != []
    ensures IsPrimary(zones, name) <==> (!zones[0].secondary && zones[0].name == name) || IsPrimary(zones[1..], name)
  {
    assert forall i :: 1 <= i < |zones| ==> zones[i] == zones[1..][i - 1];
    assert forall i :: 0 <= i < |zones[1..]| ==> zones[1..][i] == zones[i + 1];
    if IsPrimary(zones[1..], name) {
      var i :| 0 <= i < |zones[1..]| && !zones[1..][i].secondary && zones[1..][i].name == name;
      assert zones[i + 1].name == name;
    }
  }

  // The candidate file of a name is gone or as it was.
  ghost predicate CandidateGone(a: Files, b: Files, name: string) {
    At(b, Candidate(name)) == None || At(b, Candidate(name)) == At(a, Candidate(name))
  }

  lemma {:induction false} CheckedExactly(w: World, env: Env, zones: seq<Zone>, rendered: map<string, string>)
    ensures var (w', checked) := CheckZones(w, env, zones, rendered);
            && (checked.Some? ==> AllPass(env, zones))
            && (Calm(w) ==> Calm(w') && (checked.Some? <==> AllPass(env, zones)))
            && (Calm(w) ==> forall n :: CandidateGone(w.files, w'.files, n))
            && (Calm(w) && checked.Some? ==> forall n :: IsPrimary(zones, n) ==> At(w'.files, Candidate(n)) == None)
    decreases |zones|
  {
    hide CheckCandidate, Calm, At, AllPass, IsPrimary;
    if zones == [] {
      assert AllPass(env, zones) by {
        Nothing(env);
      }
      assert forall n :: !IsPrimary(zones, n) by {
        NoPrimary();
      }
    } else {
      PassesOn(env, zones);
      forall n ensures IsPrimary(zones, n) <==> (!zones[0].secondary && zones[0].name == n) || IsPrimary(zones[1..], n) {
        PrimaryOn(zones, n);
      }
      if zones[0].secondary {
        CheckedExactly(w, env, zones[1..], rendered);
      } else if env.render(zones[0]).Some? {
        var content := env.render(zones[0]).value;
        var (w1, ok) := CheckCandidate(w, env, zones[0].name, content);
        OneChecked(w, env, zones[0].name, content);
        CheckedExactly(w1, env, zones[1..], rendered[zones[0].name := content]);
        if Calm(w) {
          var w' := CheckZones(w1, env, zones[1..], rendered[zones[0].name := content]).0;
          CandidatesThen(w.files, w1.files, w'.files, zones[0].name);
          CandidatesThen(w.files, w1.files, w1.files, zones[0].name);
        }
      }
    }
  }

  lemma CandidatesThen(a: Files, m: Files, b: Files, name: string)
    requires (forall f: File :: f != Candidate(name) ==> At(m, f) == At(a, f)) && At(m, Candidate(name)) == None
    requires b == m || forall n :: CandidateGone(m, b, n)
    ensures (forall n :: CandidateGone(a, b, n)) && At(b, Candidate(name)) == None
  {
    hide At;
    assert b != m ==> CandidateGone(m, b, name);
    forall n ensures CandidateGone(a, b, n) {
      assert b != m ==> CandidateGone(m, b, n);
    }
  }

  lemma Nothing(env: Env)
    ensures AllPass(env, [])
  {
  }

  lemma NoPrimary()
    ensures forall n :: !IsPrimary([], n)
  {
  }

  /**** When a reconcile goes through ****/

  // What must hold of a request before anything is changed.
  ghost predicate Acceptable(env: Env, d: Desired) {
    && env.available
    && (env.signs || forall i :: 0 <= i < |d.zones| ==> !d.zones[i].dnssec)
    && AllPass(env, d.zones)
    && forall i :: 0 <= i < |d.zones| && d.zones[i].secondary ==> d.zones[i].masters != []
  }

  // A reconcile goes through only when named and, where a zone is signed, its tools are there, every primary
  // zone passes its check, every secondary has a master, and the whole configuration loads; and when no call
  // fails, whenever this is so.
  lemma DoneExactly(w: World, env: Env, d: Desired, order: seq<string>, stamp: string)
    requires Enumerates(order, d.zones)
    ensures var went, reached := Reconciled(w, env, d, order, stamp).1.Done?, Forward(w, env, d, order, stamp).0;
            && (went ==> Acceptable(env, d) && env.loads(reached.files))
            && (Calm(w) ==> (went <==> Acceptable(env, d) && env.loads(reached.files)))
  {
    hide CheckZones, InstallAll, PutList, CleanUp, Rendered, AllPass, Calm, LoopHalt, Undo, Blocks, ServedBy;
    var (w1, dirs) := Attempt(w);
    CalmOnce(w);
    var (w2, checked) := CheckZones(w1, env, d.zones, map[]);
    CheckedExactly(w1, env, d.zones, map[]);
    CalmOnce(w2);
    if env.available && (env.signs || !Unsignable(d.zones)) && dirs && checked.Some?
       && RenderInclude(env.dirs, d.settings, d.zones).Some? {
      OrderIsRendered(w1, env, d.zones, order);
      var w3 := Read(w2, ZoneList).0;
      var _ := InstallAllDoes(w3, checked.value, order, []);
      var (w4, written, installed) := InstallAll(w3, checked.value, order, []);
      var list := RenderInclude(env.dirs, d.settings, d.zones).value;
      PutListLoads(w4, env, d, checked.value, ServedBy(Read(w2, ZoneList).1), written, list, stamp);
    }
  }

  lemma CalmOnce(w: World)
    ensures Calm(w) ==> !Failing(w) && Calm(After(w, w.files))
  {
  }

  lemma PutListLoads(w: World, env: Env, d: Desired, rendered: map<string, string>, previous: seq<string>,
                     written: seq<string>, list: string, stamp: string)
    ensures var (w', r) := PutList(w, env, d, rendered, previous, written, list, stamp);
            && (r.Success? ==> env.loads(w'.files))
            && (Calm(w) ==> (r.Success? <==> env.loads(w'.files)))
  {
    hide BackUp, EnsureMainConf, Calm, At, LeftAlone;
    PutListDoes(w, env, d, rendered, previous, written, list, stamp);
  }

  /**** What is left beside the zone files ****/

  // None of the files named keeps beside the zone file of this name.
  ghost predicate Bare(files: Files, name: string) {
    forall k: nat :: k < ARTIFACTS ==> At(files, Artifact(name, k)) == None
  }

  lemma {:induction false} ArtifactsGone(w: World, name: string, kind: nat)
    requires kind <= ARTIFACTS
    ensures var (w', ok) := RemoveArtifacts(w, name, kind);
            && (ok ==> forall k: nat :: kind <= k < ARTIFACTS ==> At(w'.files, Artifact(name, k)) == None)
            && (forall k: nat :: At(w'.files, Artifact(name, k)) == None
                                 || At(w'.files, Artifact(name, k)) == At(w.files, Artifact(name, k)))
    decreases ARTIFACTS - kind
  {
    if kind < ARTIFACTS {
      ArtifactsGone(Remove(w, Artifact(name, kind)).0, name, kind + 1);
    }
  }

  lemma InstalledIsBare(w: World, name: string, content: string)
    ensures InstallZone(w, name, content).1 ==> Bare(InstallZone(w, name, content).0.files, name)
  {
    hide RemoveArtifacts;
    ArtifactsGone(w, name, 0);
  }

  lemma BareOn(a: Files, b: Files, name: string)
    requires Bare(a, name) && forall k :: At(b, Artifact(name, k)) == At(a, Artifact(name, k))
    ensures Bare(b, name)
  {
    hide At;
  }

  ghost predicate AllBare(files: Files, names: seq<string>) {
    forall n :: n in names ==> Bare(files, n)
  }

  lemma BareAfter(w: World, name: string, content: string, written: seq<string>)
    requires AllBare(w.files, written) && name !in written
    ensures var (w', ok) := InstallZone(w, name, content);
            AllBare(w'.files, if ok then written + [name] else written)
  {
    hide InstallZone, Bare, At;
    InstalledIsBare(w, name, content);
    InstallKeeps(w, name, content);
    var w' := InstallZone(w, name, content).0;
    forall n | n in written ensures Bare(w'.files, n) {
      BareOn(w.files, w'.files, n);
    }
  }

  lemma {:induction false} ChangedAreBare(w: World, rendered: map<string, string>, order: seq<string>, written: seq<string>)
    requires (forall i :: 0 <= i < |order| ==> order[i] in rendered) && Distinct(order)
    requires AllBare(w.files, written) && forall n :: n in written ==> n !in order
    ensures AllBare(InstallAll(w, rendered, order, written).0.files, InstallAll(w, rendered, order, written).1)
    decreases |order|
  {
    hide InstallZone, AllBare;
    if order != [] {
      var name := order[0];
      var (w1, current) := Read(w, ZoneFile(name));
      assert forall i :: 1 <= i < |order| ==> order[i] == order[1..][i - 1];
      if current.Unreadable? {
      } else if current == Holds(rendered[name]) {
        ChangedAreBare(w1, rendered, order[1..], written);
      } else {
        BareAfter(w1, name, rendered[name], written);
        var (w2, ok) := InstallZone(w1, name, rendered[name]);
        if ok {
          ChangedAreBare(w2, rendered, order[1..], written + [name]);
        }
      }
    }
  }

  // The zone file of a name and what is beside it.
  ghost predicate NothingOf(files: Files, name: string) {
    At(files, ZoneFile(name)) == None && Bare(files, name)
  }

  lemma RemovedIsGone(w: World, name: string)
    ensures RemoveZoneFiles(w, name).1 ==> NothingOf(RemoveZoneFiles(w, name).0.files, name)
    ensures forall n :: NothingOf(w.files, n) ==> NothingOf(RemoveZoneFiles(w, name).0.files, n)
  {
    hide RemoveArtifacts;
    var w1 := Remove(w, ZoneFile(name)).0;
    ArtifactsGone(w1, name, 0);
    ArtifactsKeep(w1, name, 0);
  }

  ghost predicate AllGone(files: Files, names: seq<string>) {
    forall n :: n in names ==> NothingOf(files, n)
  }

  lemma GoneAfter(w: World, name: string, removed: seq<string>)
    requires AllGone(w.files, removed)
    ensures var (w', ok) := RemoveZoneFiles(w, name); AllGone(w'.files, if ok then removed + [name] else removed)
  {
    hide RemoveZoneFiles, NothingOf;
    RemovedIsGone(w, name);
  }

  lemma {:induction false} RemovedAreGone(w: World, previous: seq<string>, rendered: map<string, string>, zones: seq<Zone>, removed: seq<string>)
    requires AllGone(w.files, removed)
    ensures AllGone(CleanUp(w, previous, rendered, zones, removed).0.files, CleanUp(w, previous, rendered, zones, removed).1)
    decreases |previous|
  {
    hide RemoveZoneFiles, HasZone, AllGone;
    if previous != [] {
      var name := previous[0];
      if name in rendered || HasZone(zones, name) {
        RemovedAreGone(w, previous[1..], rendered, zones, removed);
      } else {
        var (w1, ok) := RemoveZoneFiles(w, name);
        GoneAfter(w, name, removed);
        RemovedAreGone(w1, previous[1..], rendered, zones, if ok then removed + [name] else removed);
      }
    }
  }

  // After a reconcile that went through nothing is left of the files named kept beside a zone that was
  // changed, nothing at all of a zone reported as removed, and, if no call failed, no file that was written
  // to check a zone.
  lemma NothingStale(w: World, env: Env, d: Desired, order: seq<string>, stamp: string)
    requires Enumerates(order, d.zones) && Reconciled(w, env, d, order, stamp).1.Done?
    ensures var (w', done) := Reconciled(w, env, d, order, stamp);
            && (forall n :: n in done.changed ==> Bare(w'.files, n))
            && (forall n :: n in done.removed ==> NothingOf(w'.files, n))
            && (Calm(w) ==> forall n :: IsPrimary(d.zones, n) ==> At(w'.files, Candidate(n)) == None)
  {
    hide CheckZones, InstallAll, PutList, CleanUp, Rendered, Calm, Blocks, Unsignable, HasMasters, Bare, NothingOf, At,
      HasZone, AllPass, IsPrimary, ServedBy, LeftAlone, RenderInclude;
    var w1 := Attempt(w).0;
    var (w2, checked) := CheckZones(w1, env, d.zones, map[]);
    CheckedExactly(w1, env, d.zones, map[]);
    CalmOnce(w);
    OrderIsRendered(w1, env, d.zones, order);
    var w3 := Read(w2, ZoneList).0;
    var rendered, previous := checked.value, ServedBy(Read(w2, ZoneList).1);
    ChangedAreBare(w3, rendered, order, []);
    var added := InstallAllDoes(w3, rendered, order, []);
    assert [] + added == added;
    var (w4, written, _) := InstallAll(w3, rendered, order, []);
    var list := RenderInclude(env.dirs, d.settings, d.zones).value;
    PutListDoes(w4, env, d, rendered, previous, written, list, stamp);
    var w5 := PutList(w4, env, d, rendered, previous, written, list, stamp).0;
    CleanUpDoes(w5, previous, rendered, d.zones, []);
    RemovedAreGone(w5, previous, rendered, d.zones, []);
    var w' := CleanUp(w5, previous, rendered, d.zones, []).0;
    assert OnlyZones(w3.files, w4.files);
    forall n | n in written ensures Bare(w'.files, n) {
      assert n in rendered by {
        assert forall m :: m in written ==> Installed(w3.files, w4.files, rendered, order, written, None, m);
      }
      BareOn(w4.files, w5.files, n);
      BareOn(w5.files, w'.files, n);
    }
  }

  /**** What the zone files hold ****/

  // The last primary zone of its name in a request.
  ghost predicate LastOfName(zones: seq<Zone>, i: nat) {
    && i < |zones| && !zones[i].secondary
    && forall j :: i < j < |zones| && !zones[j].secondary ==> zones[j].name != zones[i].name
  }

  lemma {:induction false} RenderedKeeps(env: Env, zones: seq<Zone>, rendered: map<string, string>, name: string)
    requires !IsPrimary(zones, name) && name in rendered
    ensures name in Rendered(env, zones, rendered) && Rendered(env, zones, rendered)[name] == rendered[name]
  {
    hide IsPrimary;
    if zones != [] {
      PrimaryOn(zones, name);
      var first := zones[0];
      var next := if first.secondary || env.render(first).None? then rendered else rendered[first.name := env.render(first).value];
      RenderedKeeps(env, zones[1..], next, name);
    }
  }

  lemma {:induction false} RenderedAt(env: Env, zones: seq<Zone>, rendered: map<string, string>, i: nat)
    requires LastOfName(zones, i) && env.render(zones[i]).Some?
    ensures var all := Rendered(env, zones, rendered);
            zones[i].name in all && all[zones[i].name] == env.render(zones[i]).value
  {
    var first := zones[0];
    assert forall j :: 0 < j < |zones| ==> zones[j] == zones[1..][j - 1];
    assert forall j :: 0 <= j < |zones[1..]| ==> zones[1..][j] == zones[j + 1];
    var next := if first.secondary || env.render(first).None? then rendered else rendered[first.name := env.render(first).value];
    if i == 0 {
      RenderedKeeps(env, zones[1..], next, first.name);
    } else {
      RenderedAt(env, zones[1..], next, i - 1);
    }
  }

  // After a reconcile that went through, the file of every primary zone holds what that zone renders to; of
  // two of one name, the later.
  lemma ZonesAreAsRendered(w: World, env: Env, d: Desired, order: seq<string>, stamp: string, i: nat)
    requires Enumerates(order, d.zones) && Reconciled(w, env, d, order, stamp).1.Done? && LastOfName(d.zones, i)
    ensures env.render(d.zones[i]).Some?
    ensures At(Reconciled(w, env, d, order, stamp).0.files, ZoneFile(d.zones[i].name)) == env.render(d.zones[i])
  {
    hide Reconciled, Rendered, ServedIn, HasZone, Calm, At;
    DoneExactly(w, env, d, order, stamp);
    assert AllPass(env, d.zones);
    RenderedAt(env, d.zones, map[], i);
    SuccessLeavesDesired(w, env, d, order, stamp);
    var n := d.zones[i].name;
    var w' := Reconciled(w, env, d, order, stamp).0;
    assert ZoneSettled(env, d, ServedIn(w.files), At(w.files, ZoneFile(n)), At(w'.files, ZoneFile(n)), n, Calm(w));
  }
}
