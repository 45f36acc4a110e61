/** A restore whose backup checks out runs to its end when nothing fails underneath it. */
module RestoreRuns {
  import opened Filesystem
  import opened Layout
  import opened Copying
  import opened Manifests
  import opened Restores
  import opened RestoreSafety
  import opened RestoreEffect

  /** No listed file is to be a directory of another one. */
  ghost predicate Unclashing(copies: seq<Copy>) {
    forall c, d :: c in copies && d in copies && Target([], c) <= Target([], d) ==> c.path == d.path
  }

  /** No component and no staging directory is a file. */
  ghost predicate NoFileRoots(t: Tree) {
    forall name :: name in COMPONENTS || IsStagingName(name) ==> !IsFile(t, [name])
  }

  /**
   * A data directory a restore may start in: absent, empty of components, or
   * left by an interrupted attempt.
   */
  ghost predicate Startable(t: Tree) {
    && !IsFile(t, []) && !IsDir(t, [RESTORE_MARKER])
    && if [RESTORE_MARKER] in t then NoFileRoots(t) else ComponentsEmpty(t)
  }

  /** The same, with a name for staging that is not taken, or only by a leftover. */
  ghost predicate Ready(t: Tree, staging: string) {
    && WellFormed(t) && Startable(t) && IsStagingName(staging) && ValidName(staging)
    && ([staging] in t ==> [RESTORE_MARKER] in t)
  }

  // ----------------------------------------------------------------- opening

  lemma RemovedOthers(os: System, t: Tree, root: Path, r: Path)
    requires Lawful(os) && WellFormed(t) && !IsFile(t, root) && |root| == 1 && |r| == 1
    ensures IsFile(After(t, RemoveOps(os, t, root)), r) <==> IsFile(t, r)
  {
    RemoveRuns(os, t, root);
    RemoveEffect(os, t, root);
    assert root <= r ==> r == root;
  }

  /** Removing top-level directories goes through exactly when none of them is a file. */
  lemma {:induction false} RemoveAllRuns(os: System, t: Tree, roots: seq<Path>)
    requires Lawful(os) && WellFormed(t) && forall r :: r in roots ==> |r| == 1
    ensures Executes(t, RemoveAllOps(os, t, roots)) <==> forall r :: r in roots ==> !IsFile(t, r)
    ensures Executes(t, RemoveAllOps(os, t, roots)) ==>
              forall r: Path :: |r| == 1 ==> (IsFile(After(t, RemoveAllOps(os, t, roots)), r) <==> IsFile(t, r))
    decreases |roots|
  {
    if roots != [] {
      var first, rest := RemoveOps(os, t, roots[0]), roots[1..];
      var u := After(t, first);
      AfterConcat(t, first, RemoveAllOps(os, u, rest));
      assert roots[0] in roots && forall r :: r in rest ==> r in roots;
      assert forall r :: r in roots ==> r == roots[0] || r in rest;
      if !IsFile(t, roots[0]) {
        RemoveRuns(os, t, roots[0]);
        AfterWellFormed(t, first);
        RemoveAllRuns(os, u, rest);
        forall r: Path | |r| == 1 ensures IsFile(u, r) <==> IsFile(t, r) {
          RemovedOthers(os, t, roots[0], r);
        }
      }
    }
  }

  lemma ComponentRootsAreTheComponents(t: Tree)
    ensures (forall r :: r in COMPONENT_ROOTS ==> !IsFile(t, r)) <==> forall c :: c in COMPONENTS ==> !IsFile(t, [c])
  {
    assert forall c :: c in COMPONENTS ==> [c] in COMPONENT_ROOTS;
    assert forall r :: r in COMPONENT_ROOTS ==> |r| == 1 && r == [r[0]] && r[0] in COMPONENTS;
  }

  lemma StaleRootsAreTheStaging(os: System, t: Tree)
    requires Lawful(os)
    ensures (forall r :: r in StaleRoots(os.names(t, [])) ==> !IsFile(t, r))
            <==> forall name :: IsStagingName(name) ==> !IsFile(t, [name])
  {
    var names := os.names(t, []);
    assert Lists(t, [], names);
    forall name ensures name in names <==> [name] in t {
      assert [] + [name] == [name];
    }
    if forall r :: r in StaleRoots(names) ==> !IsFile(t, r) {
      forall name | IsStagingName(name) ensures !IsFile(t, [name]) {
        assert [name] in t ==> [name] in StaleRoots(names);
      }
    }
    if forall name :: IsStagingName(name) ==> !IsFile(t, [name]) {
      forall r | r in StaleRoots(names) ensures !IsFile(t, r) {
        assert r == [r[0]];
      }
    }
  }

  /** Clearing an interrupted restore away goes through exactly when no root of it is a file. */
  lemma ClearRuns(os: System, t: Tree)
    requires Lawful(os) && WellFormed(t) && [RESTORE_MARKER] in t
    ensures Executes(t, ClearOps(os, t)) <==> NoFileRoots(t)
  {
    var first := RemoveAllOps(os, t, COMPONENT_ROOTS);
    var u := After(t, first);
    var second := RemoveAllOps(os, u, StaleRoots(os.names(u, [])));
    AfterConcat(t, first, second);
    RemoveAllRuns(os, t, COMPONENT_ROOTS);
    ComponentRootsAreTheComponents(t);
    if Executes(t, first) {
      AfterWellFormed(t, first);
      RemoveAllRuns(os, u, StaleRoots(os.names(u, [])));
      StaleRootsAreTheStaging(os, u);
      assert forall name :: IsFile(u, [name]) <==> IsFile(t, [name]);
    }
  }

  lemma MakeRootKeeps(t: Tree)
    ensures var u := Apply(t, MakeDirs([]));
            && ([RESTORE_MARKER] in u <==> [RESTORE_MARKER] in t) && (NoFileRoots(u) <==> NoFileRoots(t))
            && (ComponentsEmpty(u) <==> ComponentsEmpty(t))
  {
    var u := Apply(t, MakeDirs([]));
    assert forall q: Path :: q != [] ==> (q in u <==> q in t) && (q in t ==> u[q] == t[q]);
    forall c | c in COMPONENTS ensures EmptyOrAbsent(u, [c]) <==> EmptyOrAbsent(t, [c]) {
      assert Childless(u, [c]) <==> Childless(t, [c]);
    }
    assert METADATA in COMPONENTS && SYSTEM in COMPONENTS && OBJECTS in COMPONENTS;
  }

  /** Up to the marker, a restore goes through exactly when the directory can be opened. */
  lemma OpeningRuns(os: System, t: Tree)
    requires Lawful(os) && WellFormed(t)
    ensures Executes(t, OpeningOps(os, t)) <==>
            !IsFile(t, []) && if [RESTORE_MARKER] in t then NoFileRoots(t) else ComponentsEmpty(t)
  {
    var u := Apply(t, MakeDirs([]));
    AfterConcat(t, [MakeDirs([])], ClearOps(os, u));
    AfterOne(t, MakeDirs([]));
    MakeRootKeeps(t);
    if !IsFile(t, []) {
      assert Enabled(t, MakeDirs([]));
      ApplyWellFormed(t, MakeDirs([]));
      if [RESTORE_MARKER] in u {
        ClearRuns(os, u);
      }
    }
  }

  lemma Rebased(base: Path, c: Copy, d: Copy)
    ensures Target(base, c) <= Target(base, d) <==> Target([], c) <= Target([], d)
  {
    assert Target(base, c) == base + Target([], c) && Target(base, d) == base + Target([], d);
    var p, q := Target([], c), Target([], d);
    if p <= q {
      assert base + p <= base + q;
    }
    if base + p <= base + q {
      assert forall i :: 0 <= i < |p| ==> p[i] == (base + p)[|base| + i];
    }
  }

  lemma FitsInStaging(t: Tree, staging: string, copies: seq<Copy>)
    requires IsDir(t, []) && IsDir(t, [staging]) && Childless(t, [staging])
    requires (forall c :: c in copies ==> Acceptable(c)) && DistinctPaths(copies) && Unclashing(copies)
    ensures Fits(t, [staging], copies)
  {
    forall c | c in copies ensures Target([staging], c) !in t {
      assert [staging] <= Target([staging], c);
    }
    forall c, q | c in copies && q in t && q <= Target([staging], c) ensures t[q].Dir? {
      assert q == [] || [staging] <= q;
    }
    forall c, d | c in copies && d in copies && Target([staging], c) <= Target([staging], d) ensures c.path == d.path {
      Rebased([staging], c, d);
    }
  }

  lemma StageRuns(env: Env, os: System, t: Tree, source: Tree, m: Manifest, staging: string)
    requires WellFormed(t) && IsDir(t, []) && [staging] !in t && ValidName(staging)
    requires Restorable(env, source, m) && Unclashing(RestoreCopies(env, source, m, m.files))
    ensures Executes(t, StageOps(env, os, source, m, staging))
  {
    var copies := RestoreCopies(env, source, m, m.files);
    var u := Apply(t, MakeDir([staging]));
    assert ValidPath([staging]) && Parent([staging]) == [];
    VacantBelow(t, [staging]);
    assert Childless(u, [staging]);
    FitsInStaging(u, staging, copies);
    CopiesRun(os, u, [staging], copies);
    AfterConcat(t, [MakeDir([staging])], CopyAllOps(os, [staging], copies));
    AfterOne(t, MakeDir([staging]));
  }

  // -------------------------------------------------------------- installing

  ghost predicate InstallReady(t: Tree, staging: string, components: seq<string>) {
    && WellFormed(t) && IsDir(t, [staging]) && ValidName(staging)
    && forall c :: c in components ==> ValidName(c) && c != staging && !IsFile(t, [c]) && !IsFile(t, [staging, c])
  }

  lemma MakeStaged(t: Tree, staging: string, component: string)
    requires InstallReady(t, staging, [component])
    ensures var make := if [staging, component] in t then [] else [MakeDirs([staging, component])];
            && Executes(t, make) && WellFormed(After(t, make))
            && IsDir(After(t, make), [staging, component]) && !IsFile(After(t, make), [component])
            && IsDir(After(t, make), [])
  {
    assert component in [component];
    var a := [staging, component];
    assert [] <= [staging];
    AncestorsAreDirs(t, [], [staging]);
    AfterOne(t, MakeDirs(a));
    forall q | q in t && q <= a ensures t[q].Dir? {
      assert q == [] || q == [staging] || q == a;
    }
    assert ValidPath(a);
    if a !in t {
      ApplyWellFormed(t, MakeDirs(a));
    }
  }

  lemma InstallOneRuns(os: System, t: Tree, staging: string, component: string)
    requires Lawful(os) && InstallReady(t, staging, [component])
    ensures Executes(t, InstallOne(os, t, staging, component))
  {
    var a, b := [staging, component], [component];
    var make := if a in t then [] else [MakeDirs(a)];
    MakeStaged(t, staging, component);
    var t1 := After(t, make);
    RemoveRuns(os, t1, b);
    var clear := RemoveOps(os, t1, b);
    RemoveEffect(os, t1, b);
    var t2 := After(t1, clear);
    assert component in [component];
    assert ValidPath(b) && Parent(b) == [] && !(a <= b) && !(b <= a) && !(b <= []);
    assert Enabled(t2, Rename(a, b));
    AfterConcat(t, make, clear);
    AfterSnoc(t, make + clear, Rename(a, b));
  }

  lemma InstallKeepsReady(os: System, t: Tree, staging: string, components: seq<string>)
    requires Lawful(os) && components != [] && Distinct(components) && InstallReady(t, staging, components)
    requires Executes(t, InstallOne(os, t, staging, components[0]))
    ensures InstallReady(After(t, InstallOne(os, t, staging, components[0])), staging, components[1..])
  {
    var c, u := components[0], After(t, InstallOne(os, t, staging, components[0]));
    assert c in components;
    AfterWellFormed(t, InstallOne(os, t, staging, c));
    StagingStays(os, t, staging, c);
    forall d | d in components[1..]
      ensures ValidName(d) && d != staging && !IsFile(u, [d]) && !IsFile(u, [staging, d])
    {
      assert d in components && d != c;
      OtherStaysUnfiled(os, t, staging, c, d);
    }
  }

  lemma OtherStaysUnfiled(os: System, t: Tree, staging: string, component: string, other: string)
    requires Lawful(os) && WellFormed(t) && staging != component && other != component && other != staging
    requires Executes(t, InstallOne(os, t, staging, component))
    requires !IsFile(t, [other]) && !IsFile(t, [staging, other])
    ensures !IsFile(After(t, InstallOne(os, t, staging, component)), [other])
    ensures !IsFile(After(t, InstallOne(os, t, staging, component)), [staging, other])
  {
    var u := After(t, InstallOne(os, t, staging, component));
    InstallOneKeepsStaged(os, t, staging, component, [other]);
    assert [staging] + [other] == [staging, other];
    assert FileAt(u, [staging, other]).None?;
    InstallOneTouches(os, t, staging, component, other);
    Frame(t, InstallOne(os, t, staging, component), other);
    assert SameAt(t, u, [other]);
  }

  lemma StagingStays(os: System, t: Tree, staging: string, component: string)
    requires Lawful(os) && WellFormed(t) && IsDir(t, [staging]) && staging != component
    requires Executes(t, InstallOne(os, t, staging, component))
    ensures IsDir(After(t, InstallOne(os, t, staging, component)), [staging])
  {
    var a, b := [staging, component], [component];
    var make := if a in t then [] else [MakeDirs(a)];
    var t1 := After(t, make);
    RanInOrder(t, make, RemoveOps(os, t1, b), Rename(a, b));
    AfterOne(t, MakeDirs(a));
    AfterWellFormed(t, make);
    RemoveEffect(os, t1, b);
    RenameEffect(After(t1, RemoveOps(os, t1, b)), a, b, [staging]);
  }

  lemma {:induction false} InstallRuns(os: System, t: Tree, staging: string, components: seq<string>)
    requires Lawful(os) && Distinct(components) && InstallReady(t, staging, components)
    ensures Executes(t, InstallOps(os, t, staging, components))
    ensures WellFormed(After(t, InstallOps(os, t, staging, components)))
    ensures IsDir(After(t, InstallOps(os, t, staging, components)), [staging])
    decreases |components|
  {
    if components != [] {
      var first := InstallOne(os, t, staging, components[0]);
      assert components[0] in components;
      InstallOneRuns(os, t, staging, components[0]);
      InstallKeepsReady(os, t, staging, components);
      InstallRuns(os, After(t, first), staging, components[1..]);
      AfterConcat(t, first, InstallOps(os, After(t, first), staging, components[1..]));
    }
  }

  // --------------------------------------------------------------- the whole

  /** Staged and marked, with only safe paths below the staging directory. */
  lemma StagedIsReady(env: Env, os: System, t: Tree, source: Tree, m: Manifest, staging: string)
    requires Lawful(os) && WellFormed(t) && IsStagingName(staging) && ValidName(staging)
    requires NoComponentFiles(t) && Executes(t, StageOps(env, os, source, m, staging))
    ensures InstallReady(After(t, StageOps(env, os, source, m, staging)), staging, COMPONENTS)
  {
    StagingNamesDiffer();
    ComponentNamesArePlain();
    var u := After(t, StageOps(env, os, source, m, staging));
    AfterWellFormed(t, StageOps(env, os, source, m, staging));
    StagingMade(env, os, t, source, m, staging);
    forall c | c in COMPONENTS ensures ValidName(c) && c != staging && !IsFile(u, [c]) && !IsFile(u, [staging, c]) {
      ComponentIsReady(env, os, t, source, m, staging, c);
    }
  }

  lemma ComponentIsReady(env: Env, os: System, t: Tree, source: Tree, m: Manifest, staging: string, c: string)
    requires WellFormed(t) && c != staging && c in COMPONENTS
    requires NoComponentFiles(t) && Executes(t, StageOps(env, os, source, m, staging))
    ensures var u := After(t, StageOps(env, os, source, m, staging)); !IsFile(u, [c]) && !IsFile(u, [staging, c])
  {
    var u := After(t, StageOps(env, os, source, m, staging));
    StageEffect(env, os, t, source, m, staging, [c]);
    assert [staging] + [c] == [staging, c];
    RestoredInside(env, source, m);
    StageTouches(env, os, source, m, staging, c);
    Frame(t, StageOps(env, os, source, m, staging), c);
    assert SameAt(t, u, [c]);
    assert FileAt(u, [staging, c]).None?;
  }

  lemma StagingMade(env: Env, os: System, t: Tree, source: Tree, m: Manifest, staging: string)
    requires Executes(t, StageOps(env, os, source, m, staging))
    ensures IsDir(After(t, StageOps(env, os, source, m, staging)), [staging])
  {
    var copies := CopyAllOps(os, [staging], RestoreCopies(env, source, m, m.files));
    AfterConcat(t, [MakeDir([staging])], copies);
    AfterOne(t, MakeDir([staging]));
    CopiesKeepDir(os, Apply(t, MakeDir([staging])), [staging], RestoreCopies(env, source, m, m.files));
  }

  lemma {:induction false} CopiesKeepDir(os: System, t: Tree, base: Path, copies: seq<Copy>)
    requires IsDir(t, base) && Executes(t, CopyAllOps(os, base, copies))
    ensures IsDir(After(t, CopyAllOps(os, base, copies)), base)
    decreases |copies|
  {
    if copies != [] {
      var c := copies[0];
      AfterConcat(t, CopyOps(os, base, c), CopyAllOps(os, base, copies[1..]));
      CopyParts(os, t, base, c);
      var to := Target(base, c);
      AfterConcat(t, [MakeDirs(Parent(to))], CopyBody(os, to, c.data.value));
      AfterOne(t, MakeDirs(Parent(to)));
      CopyBodyEffect(os, Apply(t, MakeDirs(Parent(to))), to, c.data.value);
      CopiesKeepDir(os, After(t, CopyOps(os, base, c)), base, copies[1..]);
    }
  }

  lemma MarkedRuns(env: Env, os: System, t: Tree, source: Tree, m: Manifest, staging: string, note: Bytes)
    requires Lawful(os) && WellFormed(t) && IsDir(t, []) && NoComponentFiles(t)
    requires IsStagingName(staging) && ValidName(staging) && [staging] !in t
    requires [RESTORE_MARKER] in t && t[[RESTORE_MARKER]] == File([])
    requires Restorable(env, source, m) && Unclashing(RestoreCopies(env, source, m, m.files))
    ensures Executes(t, MarkedOps(env, os, t, source, m, staging, note))
  {
    NamesDiffer();
    StagingNamesDiffer();
    var mark, stage := Appends(os, [RESTORE_MARKER], note, 0), StageOps(env, os, source, m, staging);
    AppendsComplete(os, t, [RESTORE_MARKER], note, 0);
    var u := After(t, mark);
    AfterWellFormed(t, mark);
    assert NoComponentFiles(u);
    StageRuns(env, os, u, source, m, staging);
    StagedIsReady(env, os, u, source, m, staging);
    AfterConcat(t, mark, stage);
    var v := After(u, stage);
    InstallAndClear(os, t, mark + stage, v, staging);
  }

  lemma InstallAndClear(os: System, t: Tree, stage: seq<Op>, v: Tree, staging: string)
    requires Lawful(os) && Executes(t, stage) && v == After(t, stage) && InstallReady(v, staging, COMPONENTS)
    ensures var install := InstallOps(os, v, staging, COMPONENTS);
            Executes(t, stage + install + RemoveOps(os, After(v, install), [staging]))
  {
    NamesDiffer();
    assert Distinct(COMPONENTS);
    var install := InstallOps(os, v, staging, COMPONENTS);
    InstallRuns(os, v, staging, COMPONENTS);
    RemoveRuns(os, After(v, install), [staging]);
    AfterConcat(t, stage, install);
    AfterConcat(t, stage + install, RemoveOps(os, After(v, install), [staging]));
  }

  /** An opened data directory: nothing left in the components, and the staging name is free. */
  ghost predicate Opened(t: Tree, staging: string) {
    && WellFormed(t) && IsDir(t, []) && NoComponentFiles(t) && !IsDir(t, [RESTORE_MARKER])
    && IsStagingName(staging) && ValidName(staging) && [staging] !in t
  }

  lemma TailRuns(env: Env, os: System, t: Tree, source: Tree, m: Manifest, staging: string, note: Bytes)
    requires Lawful(os) && Opened(t, staging)
    requires Restorable(env, source, m) && Unclashing(RestoreCopies(env, source, m, m.files))
    ensures Executes(t, TailOps(env, os, t, source, m, staging, note))
  {
    RestoreMarkerIsValid();
    NamesDiffer();
    StagingNamesDiffer();
    assert ValidPath([RESTORE_MARKER]) && Parent([RESTORE_MARKER]) == [];
    var u := Apply(t, Truncate([RESTORE_MARKER]));
    ApplyWellFormed(t, Truncate([RESTORE_MARKER]));
    assert NoComponentFiles(u);
    MarkedRuns(env, os, u, source, m, staging, note);
    var marked := MarkedOps(env, os, u, source, m, staging, note);
    MarkedSpares(env, os, u, source, m, staging, note);
    MarkerRemovable(u, marked);
    AfterConcat(t, [Truncate([RESTORE_MARKER])], marked + [Unlink([RESTORE_MARKER])]);
    AfterOne(t, Truncate([RESTORE_MARKER]));
  }

  lemma MarkerRemovable(u: Tree, marked: seq<Op>)
    requires WellFormed(u) && IsFile(u, [RESTORE_MARKER]) && Executes(u, marked) && Spares(marked, RESTORE_MARKER)
    ensures Executes(u, marked + [Unlink([RESTORE_MARKER])])
  {
    SparedStaysFile(u, marked, RESTORE_MARKER);
    AfterWellFormed(u, marked);
    var v := After(u, marked);
    forall q | q in v && [RESTORE_MARKER] <= q ensures q == [RESTORE_MARKER] {
      if q != [RESTORE_MARKER] {
        AncestorsAreDirs(v, [RESTORE_MARKER], q);
      }
    }
    AfterSnoc(u, marked, Unlink([RESTORE_MARKER]));
  }

  lemma {:induction false} SparedStaysFile(t: Tree, ops: seq<Op>, name: string)
    requires Executes(t, ops) && Spares(ops, name) && IsFile(t, [name])
    ensures IsFile(After(t, ops), [name])
    decreases |ops|
  {
    if ops != [] {
      assert ops[0] in ops;
      assert forall op :: op in ops[1..] ==> op in ops;
      if !Touches(ops[0], name) {
        FrameOne(t, ops[0], name);
        assert SameAt(t, Apply(t, ops[0]), [name]);
      }
      SparedStaysFile(Apply(t, ops[0]), ops[1..], name);
    }
  }

  lemma OpeningOpens(os: System, t: Tree, staging: string)
    requires Lawful(os) && Ready(t, staging)
    ensures Executes(t, OpeningOps(os, t)) && Opened(After(t, OpeningOps(os, t)), staging)
  {
    var v := After(t, OpeningOps(os, t));
    OpeningRuns(os, t);
    OpeningEffect(os, t);
    RootIsThere(os, t);
    OpeningKeepsMarker(os, t);
    if [RESTORE_MARKER] in t {
      assert [staging][0] == staging;
    } else {
      OpeningLeavesUntouched(os, t, OpeningOps(os, t));
    }
  }

  lemma RootIsThere(os: System, t: Tree)
    requires Lawful(os) && Executes(t, OpeningOps(os, t))
    ensures IsDir(After(t, OpeningOps(os, t)), [])
  {
    var u := Apply(t, MakeDirs([]));
    AfterConcat(t, [MakeDirs([])], ClearOps(os, u));
    AfterOne(t, MakeDirs([]));
    if [RESTORE_MARKER] in u {
      var first := RemoveAllOps(os, u, COMPONENT_ROOTS);
      var v := After(u, first);
      AfterConcat(u, first, RemoveAllOps(os, v, StaleRoots(os.names(v, []))));
      RemovalsKeepRoot(os, u, COMPONENT_ROOTS);
      RemovalsKeepRoot(os, v, StaleRoots(os.names(v, [])));
    }
  }

  lemma {:induction false} RemovalsKeepRoot(os: System, t: Tree, roots: seq<Path>)
    requires Lawful(os) && Executes(t, RemoveAllOps(os, t, roots)) && IsDir(t, [])
    requires forall r :: r in roots ==> r != []
    ensures IsDir(After(t, RemoveAllOps(os, t, roots)), [])
    decreases |roots|
  {
    if roots != [] {
      var first := RemoveOps(os, t, roots[0]);
      AfterConcat(t, first, RemoveAllOps(os, After(t, first), roots[1..]));
      assert roots[0] in roots && forall r :: r in roots[1..] ==> r in roots;
      if roots[0] in t {
        var order := os.removal(t, roots[0]);
        assert IsRemovalOrder(t, roots[0], order);
        AfterUnlinks(t, order);
      }
      RemovalsKeepRoot(os, After(t, first), roots[1..]);
    }
  }

  lemma OpeningKeepsMarker(os: System, t: Tree)
    requires Lawful(os) && Executes(t, OpeningOps(os, t))
    ensures SameAt(t, After(t, OpeningOps(os, t)), [RESTORE_MARKER])
  {
    NamesDiffer();
    StagingNamesDiffer();
    OpeningTouches(os, t, RESTORE_MARKER);
    Frame(t, OpeningOps(os, t), RESTORE_MARKER);
  }

  /**
   * Into any directory it may start in, a restore of a backup whose entries
   * check out and do not lie below one another runs to its end.
   */
  lemma RestoreGoesThrough(env: Env, os: System, t: Tree, source: Tree, m: Manifest, staging: string, note: Bytes)
    requires Lawful(os) && Ready(t, staging)
    requires Restorable(env, source, m) && Unclashing(RestoreCopies(env, source, m, m.files))
    ensures Executes(t, RestoreScript(env, os, t, source, m, staging, note))
    ensures ComponentFiles(After(t, RestoreScript(env, os, t, source, m, staging, note))) == Restored(env, source, m)
  {
    var v := After(t, OpeningOps(os, t));
    OpeningOpens(os, t, staging);
    TailRuns(env, os, v, source, m, staging, note);
    AfterConcat(t, OpeningOps(os, t), TailOps(env, os, v, source, m, staging, note));
    RestoreCompleted(env, os, t, source, m, staging, note);
  }
}
