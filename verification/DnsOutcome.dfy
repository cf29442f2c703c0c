// What a reconcile reports, and what it leaves of an operator's named.conf
// (agent/internal/dns/apply.go and config.go).
module DnsOutcome {
  import opened Wrappers
  import opened Bytes
  import opened Parts
  import opened DnsConfig
  import opened DnsMainConf
  import opened DnsReconcile
  import opened DnsTheorems

  /**** named.conf ****/

  // An operator's named.conf: there, not the panel's own, and not including the panel's list yet.
  predicate Foreign(env: Env, conf: Option<string>) {
    conf.Some? && !HasMarker(conf.value) && !HasInclude(conf.value, env.dirs.list)
  }

  lemma EnsureTells(w: World, env: Env, s: Settings, stamp: string)
    ensures var (w', change) := EnsureMainConf(w, env, s, stamp);
            var before := At(w.files, MainConf);
            change.Some? ==>
              && (change.value.created <==> before.None?) && (change.value.added <==> Foreign(env, before))
              && (change.value.added ==> At(w'.files, MainConf) == Some(AddInclude(before.value, env.dirs.list)))
  {
    hide RenderMainConf, AddInclude, HasMarker, HasInclude, BackUp;
    BackUpDoes(After(w, w.files), MainConf, stamp);
  }

  predicate AllBreaks(s: string) {
    forall i :: 0 <= i < |s| ==> s[i] == '\n'
  }

  lemma {:induction false} BreaksTrimmed(content: string)
    ensures TrimBreaks(content) <= content && AllBreaks(content[|TrimBreaks(content)|..])
    decreases |content|
  {
    if content != "" && content[|content| - 1] == '\n' {
      BreaksTrimmed(content[..|content| - 1]);
      var kept := TrimBreaks(content);
      assert content[|kept|..][..|content| - 1 - |kept|] == content[..|content| - 1][|kept|..];
    }
  }

  // A line the panel may add: empty, a comment, or the one that includes its list.
  predicate Added(line: string, path: string) {
    line == "" || "//" <= line || line == IncludeLine(path)
  }

  // The operator's text is kept from its first character to its last that is no line break, and what
  // follows it are blank lines, comments and the line that includes the panel's list.
  lemma AddIncludeKeepsText(content: string, path: string)
    requires '\n' !in path
    ensures var kept, text := TrimBreaks(content), AddInclude(content, path);
            && kept <= content && AllBreaks(content[|kept|..]) && kept <= text
            && var lines := Split(text[|kept|..], '\n');
               && (forall i :: 0 <= i < |lines| ==> Added(lines[i], path))
               && IncludeLine(path) in lines
  {
    hide TrimBreaks, AddInclude, Split, ADDED, ADDED2, ADDED3, IncludeLine;
    BreaksTrimmed(content);
    var tail := ["", "", ADDED, ADDED2, ADDED3, IncludeLine(path)];
    AddedAfter(content, path);
    var text, kept := AddInclude(content, path), TrimBreaks(content);
    assert text == kept + Unlines(tail);
    assert text[|kept|..] == Unlines(tail);
    AddedLines(path);
    SplitOfUnlines(tail);
    assert tail[5] == IncludeLine(path);
    assert (tail + [""])[5] == IncludeLine(path);
  }

  lemma AddedAfter(content: string, path: string)
    ensures AddInclude(content, path) == TrimBreaks(content)
                                         + Unlines(["", "", ADDED, ADDED2, ADDED3, IncludeLine(path)])
  {
    hide TrimBreaks, ADDED, ADDED2, ADDED3, IncludeLine;
    var i := IncludeLine(path);
    assert [i][1..] == [] && [ADDED3, i][1..] == [i] && [ADDED2, ADDED3, i][1..] == [ADDED3, i];
    assert [ADDED, ADDED2, ADDED3, i][1..] == [ADDED2, ADDED3, i];
    assert ["", ADDED, ADDED2, ADDED3, i][1..] == [ADDED, ADDED2, ADDED3, i];
    assert ["", "", ADDED, ADDED2, ADDED3, i][1..] == ["", ADDED, ADDED2, ADDED3, i];
    assert Unlines([i]) == i + "\n";
    assert Unlines([ADDED3, i]) == ADDED3 + "\n" + (i + "\n");
    assert Unlines([ADDED2, ADDED3, i]) == ADDED2 + "\n" + (ADDED3 + "\n" + (i + "\n"));
    assert Unlines([ADDED, ADDED2, ADDED3, i]) == ADDED + "\n" + (ADDED2 + "\n" + (ADDED3 + "\n" + (i + "\n")));
    assert Unlines(["", ADDED, ADDED2, ADDED3, i]) == "\n" + (ADDED + "\n" + (ADDED2 + "\n" + (ADDED3 + "\n" + (i + "\n"))));
    assert Unlines(["", "", ADDED, ADDED2, ADDED3, i])
        == "\n" + ("\n" + (ADDED + "\n" + (ADDED2 + "\n" + (ADDED3 + "\n" + (i + "\n")))));
    assert "\n\n" == "\n" + "\n";
  }

  lemma AddedLines(path: string)
    requires '\n' !in path
    ensures "//" <= ADDED && "//" <= ADDED2 && "//" <= ADDED3
    ensures '\n' !in ADDED && '\n' !in ADDED2 && '\n' !in ADDED3 && '\n' !in IncludeLine(path)
  {
    hide ADDED, ADDED2;
    FirstAdded();
    SecondAdded();
  }

  lemma FirstAdded()
    ensures "//" <= ADDED && '\n' !in ADDED
  {
    FirstHalf();
    assert '\n' !in "serves are defined in this file.";
  }

  lemma FirstHalf()
    ensures '\n' !in "// Added by JotHost Panel: the zones it "
  {
  }

  lemma SecondAdded()
    ensures "//" <= ADDED2 && '\n' !in ADDED2
  {
    SecondHalves();
  }

  lemma SecondHalves()
    ensures '\n' !in "// Removing this line stops the panel's "
    ensures '\n' !in "zones being served; it does not"
  {
  }

  /**** The report ****/

  lemma PutListTells(w: World, env: Env, d: Desired, rendered: map<string, string>, previous: seq<string>,
                     written: seq<string>, list: string, stamp: string)
    ensures var (w', r) := PutList(w, env, d, rendered, previous, written, list, stamp);
            var conf := At(w.files, MainConf);
            r.Success? ==>
              && (r.value.main.created <==> conf.None?) && (r.value.main.added <==> Foreign(env, conf))
              && (r.value.main.added ==> At(w'.files, MainConf) == Some(AddInclude(conf.value, env.dirs.list)))
  {
    hide BackUp, EnsureMainConf, Foreign, At, AddInclude;
    var (w1, backup) := BackUp(w, ZoneList, stamp);
    BackUpDoes(w, ZoneList, stamp);
    if backup.Some? {
      var (w2, wrote) := Write(w1, ZoneList, list);
      WriteDoes(w1, ZoneList, list);
      if wrote {
        var w3 := Attempt(w2).0;
        assert At(w3.files, MainConf) == At(w.files, MainConf);
        EnsureTells(w3, env, d.settings, stamp);
        var (w4, main) := EnsureMainConf(w3, env, d.settings, stamp);
        if main.Some? {
          assert main.value.created <==> At(w.files, MainConf).None?;
        }
      }
    }
  }

  // The zones reported as removed are ones that were served and are not wanted; all of them, if no call fails.
  lemma {:induction false} RemovedTells(w: World, previous: seq<string>, rendered: map<string, string>, zones: seq<Zone>, removed: seq<string>)
    ensures var removed' := CleanUp(w, previous, rendered, zones, removed).1;
            && (forall n :: n in removed' ==> n in removed || Gone(previous, rendered, zones, n))
            && (forall n :: n in removed ==> n in removed')
            && (Calm(w) ==> forall n :: Gone(previous, rendered, zones, n) ==> n in removed')
    decreases |previous|
  {
    hide RemoveZoneFiles, HasZone;
    if previous != [] {
      var name := previous[0];
      assert previous == [name] + previous[1..];
      assert forall n :: Gone(previous, rendered, zones, n) <==> Gone([name], rendered, zones, n) || Gone(previous[1..], rendered, zones, n);
      if name in rendered || HasZone(zones, name) {
        RemovedTells(w, previous[1..], rendered, zones, removed);
      } else {
        var (w1, ok) := RemoveZoneFiles(w, name);
        RemoveFilesDoes(w, name);
        assert forall n :: Gone([name], rendered, zones, n) <==> n == name;
        if Calm(w) {
          CalmRemoves(w, name);
        }
        var more := if ok then removed + [name] else removed;
        RemovedTells(w1, previous[1..], rendered, zones, more);
      }
    }
  }

  lemma CalmRemoves(w: World, name: string)
    requires Calm(w)
    ensures RemoveZoneFiles(w, name).1
  {
    hide RemoveArtifacts;
    ArtifactsKeep(Remove(w, ZoneFile(name)).0, name, 0);
  }

  // A reconcile that went through says so: named.conf created exactly when there was none; the include
  // added exactly when there was one that was not the panel's and did not include the list; as changed
  // exactly the primary zones whose files differed; and as removed only zones that were served and are
  // not wanted, and all of these if no call failed.
  lemma OutcomeTells(w: World, env: Env, d: Desired, order: seq<string>, stamp: string)
    requires Enumerates(order, d.zones) && Reconciled(w, env, d, order, stamp).1.Done?
    ensures var (w', done) := Reconciled(w, env, d, order, stamp);
            var rendered, conf := Rendered(env, d.zones, map[]), At(w.files, MainConf);
            && (done.created <==> conf.None?) && (done.added <==> Foreign(env, conf))
            && (done.added ==> At(w'.files, MainConf) == Some(AddInclude(conf.value, env.dirs.list)))
            && (forall n :: n in done.changed <==> n in rendered && At(w.files, ZoneFile(n)) != Some(rendered[n]))
            && (forall n :: n in done.removed ==> Gone(ServedIn(w.files), rendered, d.zones, n))
            && (Calm(w) ==> forall n :: Gone(ServedIn(w.files), rendered, d.zones, n) ==> n in done.removed)
  {
    hide Forward, CleanUp, Rendered, AllInstalled, PutList, RenderInclude, ServedIn, HasZone, LeftAlone, Calm, Installed, Foreign,
      AddInclude, At, LoopStart, LoopHalt;
    var (w1, r) := Forward(w, env, d, order, stamp);
    var rendered, previous, w3, w4, written, ok := ForwardParts(w, env, d, order, stamp);
    var list := RenderInclude(env.dirs, d.settings, d.zones).value;
    PutListDoes(w4, env, d, rendered, previous, written, list, stamp);
    PutListTells(w4, env, d, rendered, previous, written, list, stamp);
    CleanUpDoes(w1, previous, rendered, d.zones, []);
    RemovedTells(w1, previous, rendered, d.zones, []);
    InstalledKeepsConf(w3.files, w4.files, rendered, order, written);
    forall n ensures n in written <==> n in rendered && At(w.files, ZoneFile(n)) != Some(rendered[n]) {
      ChangedExactly(w3.files, w4.files, rendered, order, written, n);
    }
    Unserved(previous, rendered, d.zones, ServedIn(w.files));
  }

  lemma InstalledKeepsConf(a: Files, b: Files, rendered: map<string, string>, order: seq<string>, written: seq<string>)
    requires AllInstalled(a, b, rendered, order, written, None)
    ensures At(b, MainConf) == At(a, MainConf)
  {
    hide At, Installed;
  }

  lemma ChangedExactly(a: Files, b: Files, rendered: map<string, string>, order: seq<string>, written: seq<string>, n: string)
    requires AllInstalled(a, b, rendered, order, written, None) && (n in order <==> n in rendered)
    ensures n in written <==> n in rendered && At(a, ZoneFile(n)) != Some(rendered[n])
  {
    hide At;
    assert Installed(a, b, rendered, order, written, None, n);
  }

  lemma Unserved(previous: seq<string>, rendered: map<string, string>, zones: seq<Zone>, served: seq<string>)
    requires previous == [] || previous == served
    ensures forall n :: Gone(previous, rendered, zones, n) ==> Gone(served, rendered, zones, n)
  {
    hide HasZone;
  }
}
