/** What a restore that runs to its end leaves in the data directory. */
module RestoreEffect {
  import opened Wrappers
  import opened Text
  import opened Filesystem
  import opened Layout
  import opened Copying
  import opened Manifests
  import opened Restores
  import opened RestoreSafety

  function FileAt(t: Tree, p: Path): Option<Bytes> {
    if IsFile(t, p) then Some(t[p].data) else None
  }

  function Lookup(files: map<Path, Bytes>, p: Path): Option<Bytes> {
    if p in files then Some(files[p]) else None
  }

  // ---------------------------------------------------------------- clearing

  lemma {:induction false} RemoveAllEffect(os: System, t: Tree, roots: seq<Path>)
    requires Lawful(os) && WellFormed(t) && Executes(t, RemoveAllOps(os, t, roots))
    ensures forall root :: root in roots ==> Vacant(After(t, RemoveAllOps(os, t, roots)), root)
    ensures forall q :: q in After(t, RemoveAllOps(os, t, roots)) ==> q in t
    decreases |roots|
  {
    if roots != [] {
      var first := RemoveOps(os, t, roots[0]);
      var u := After(t, first);
      AfterConcat(t, first, RemoveAllOps(os, u, roots[1..]));
      RemoveEffect(os, t, roots[0]);
      AfterWellFormed(t, first);
      RemoveAllEffect(os, u, roots[1..]);
      assert forall root :: root in roots ==> root == roots[0] || root in roots[1..];
    }
  }

  ghost predicate NoComponentFiles(t: Tree) {
    forall q :: q in t && InComponent(q) ==> t[q].Dir?
  }

  ghost predicate NoStaging(t: Tree) {
    forall q: Path :: q in t && q != [] ==> !IsStagingName(q[0])
  }

  lemma TopPresent(t: Tree, q: Path)
    requires WellFormed(t) && q in t && q != []
    ensures [q[0]] in t && [q[0]] <= q
  {
    var top := [q[0]];
    assert top <= q;
    if top != q {
      AncestorsAreDirs(t, top, q);
    }
  }

  lemma EmptyHasNoFiles(t: Tree)
    requires WellFormed(t) && ComponentsEmpty(t)
    ensures NoComponentFiles(t)
  {
    forall q | q in t && InComponent(q) ensures t[q].Dir? {
      TopPresent(t, q);
      assert EmptyOrAbsent(t, [q[0]]);
      assert q == [q[0]];
    }
  }

  lemma ClearedComponents(os: System, t: Tree)
    requires Lawful(os) && WellFormed(t) && Executes(t, RemoveAllOps(os, t, COMPONENT_ROOTS))
    ensures NoComponentFiles(After(t, RemoveAllOps(os, t, COMPONENT_ROOTS)))
  {
    RemoveAllEffect(os, t, COMPONENT_ROOTS);
    assert forall q :: InComponent(q) ==> [q[0]] in COMPONENT_ROOTS && [q[0]] <= q;
  }

  lemma ClearedStaging(os: System, t: Tree)
    requires Lawful(os) && WellFormed(t)
    requires Executes(t, RemoveAllOps(os, t, StaleRoots(os.names(t, []))))
    ensures NoStaging(After(t, RemoveAllOps(os, t, StaleRoots(os.names(t, [])))))
  {
    var roots := StaleRoots(os.names(t, []));
    RemoveAllEffect(os, t, roots);
    var u := After(t, RemoveAllOps(os, t, roots));
    forall q | q in u && q != [] ensures !IsStagingName(q[0]) {
      TopPresent(t, q);
      assert Lists(t, [], os.names(t, []));
      assert [] + [q[0]] == [q[0]];
      assert [q[0]] !in roots;
    }
  }

  lemma ClearEffect(os: System, t: Tree)
    requires Lawful(os) && WellFormed(t) && Executes(t, ClearOps(os, t))
    ensures NoComponentFiles(After(t, ClearOps(os, t)))
    ensures [RESTORE_MARKER] in t ==> NoStaging(After(t, ClearOps(os, t)))
  {
    if [RESTORE_MARKER] in t {
      var first := RemoveAllOps(os, t, COMPONENT_ROOTS);
      var u := After(t, first);
      var second := RemoveAllOps(os, u, StaleRoots(os.names(u, [])));
      AfterConcat(t, first, second);
      AfterWellFormed(t, first);
      ClearedComponents(os, t);
      ClearedStaging(os, u);
      RemovalKeepsKinds(os, u, StaleRoots(os.names(u, [])));
    } else {
      EmptyHasNoFiles(t);
    }
  }

  lemma {:induction false} RemovalKeepsKinds(os: System, t: Tree, roots: seq<Path>)
    requires Lawful(os) && WellFormed(t) && Executes(t, RemoveAllOps(os, t, roots))
    ensures forall q :: q in After(t, RemoveAllOps(os, t, roots)) ==>
              q in t && After(t, RemoveAllOps(os, t, roots))[q] == t[q]
    decreases |roots|
  {
    if roots != [] {
      var first := RemoveOps(os, t, roots[0]);
      var u := After(t, first);
      AfterConcat(t, first, RemoveAllOps(os, u, roots[1..]));
      RemoveEffect(os, t, roots[0]);
      AfterWellFormed(t, first);
      RemovalKeepsKinds(os, u, roots[1..]);
    }
  }

  lemma OpeningEffect(os: System, t: Tree)
    requires Lawful(os) && WellFormed(t) && Executes(t, OpeningOps(os, t))
    ensures WellFormed(After(t, OpeningOps(os, t)))
    ensures NoComponentFiles(After(t, OpeningOps(os, t)))
    ensures [RESTORE_MARKER] in t ==> NoStaging(After(t, OpeningOps(os, t)))
  {
    var u := Apply(t, MakeDirs([]));
    AfterConcat(t, [MakeDirs([])], ClearOps(os, u));
    AfterOne(t, MakeDirs([]));
    ApplyWellFormed(t, MakeDirs([]));
    AfterWellFormed(u, ClearOps(os, u));
    ClearEffect(os, u);
  }

  // ----------------------------------------------------------------- staging

  lemma {:induction false} CopiedRebased(base: Path, copies: seq<Copy>, q: Path)
    ensures Lookup(Copied(base, copies), base + q) == Lookup(Copied([], copies), q)
  {
    if copies != [] {
      CopiedRebased(base, copies[1..], q);
      var c := copies[0];
      assert Target(base, c) == base + Target([], c);
      assert base + q == Target(base, c) <==> q == Target([], c) by {
        assert (base + q)[|base|..] == q;
        assert Target(base, c)[|base|..] == Target([], c);
      }
    }
  }

  /** Filling a fresh staging directory puts exactly the copies there and disturbs no other file. */
  lemma StageEffect(env: Env, os: System, t: Tree, source: Tree, m: Manifest, staging: string, q: Path)
    requires WellFormed(t) && Executes(t, StageOps(env, os, source, m, staging))
    ensures var copies := RestoreCopies(env, source, m, m.files);
            var u := After(t, StageOps(env, os, source, m, staging));
            && (forall c :: c in copies ==> Acceptable(c)) && DistinctPaths(copies)
            && FileAt(u, [staging] + q) == Lookup(Copied([], copies), q)
  {
    var copies := RestoreCopies(env, source, m, m.files);
    var u := Apply(t, MakeDir([staging]));
    AfterConcat(t, [MakeDir([staging])], CopyAllOps(os, [staging], copies));
    AfterOne(t, MakeDir([staging]));
    CopiesEffect(os, u, [staging], copies);
    CopiesDistinct(os, u, [staging], copies);
    CopiedRebased([staging], copies, q);
    VacantBelow(t, [staging]);
    assert [staging] <= [staging] + q;
    assert [staging] + q !in Files(u);
    var v := After(u, CopyAllOps(os, [staging], copies));
    assert FileAt(v, [staging] + q) == Lookup(Files(v), [staging] + q);
  }

  // -------------------------------------------------------------- installing

  lemma FileAtMake(t: Tree, p: Path, q: Path)
    ensures FileAt(Apply(t, MakeDirs(p)), q) == FileAt(t, q)
  {
  }

  lemma FileAtRemove(os: System, t: Tree, root: Path, q: Path)
    requires Lawful(os) && WellFormed(t) && Executes(t, RemoveOps(os, t, root))
    ensures FileAt(After(t, RemoveOps(os, t, root)), q) == if root <= q then None else FileAt(t, q)
  {
    RemoveEffect(os, t, root);
  }

  lemma FileAtRename(t: Tree, a: Path, b: Path, q: Path)
    requires Enabled(t, Rename(a, b))
    ensures FileAt(Apply(t, Rename(a, b)), q) ==
            if b <= q then FileAt(t, a + q[|b|..]) else if a <= q then None else FileAt(t, q)
  {
    RenameEffect(t, a, b, q);
  }

  lemma RanInOrder(t: Tree, first: seq<Op>, second: seq<Op>, last: Op)
    requires Executes(t, first + second + [last])
    ensures Executes(t, first) && Executes(After(t, first), second)
    ensures Enabled(After(After(t, first), second), last)
    ensures After(t, first + second + [last]) == Apply(After(After(t, first), second), last)
  {
    AfterConcat(t, first, second);
    AfterSnoc(t, first + second, last);
  }

  /** Installing one component moves its staged files into place and nothing else. */
  lemma InstallOneEffect(os: System, t: Tree, staging: string, component: string, q: Path)
    requires Lawful(os) && WellFormed(t) && staging != component
    requires Executes(t, InstallOne(os, t, staging, component))
    ensures FileAt(After(t, InstallOne(os, t, staging, component)), q) ==
            if [component] <= q then FileAt(t, [staging] + q)
            else if [staging, component] <= q then None
            else FileAt(t, q)
  {
    var a, b := [staging, component], [component];
    var make := if a in t then [] else [MakeDirs(a)];
    var t1 := After(t, make);
    RanInOrder(t, make, RemoveOps(os, t1, b), Rename(a, b));
    AfterWellFormed(t, make);
    AfterOne(t, MakeDirs(a));
    var t2 := After(t1, RemoveOps(os, t1, b));
    var from := if b <= q then a + q[1..] else q;
    FileAtRename(t2, a, b, q);
    FileAtRemove(os, t1, b, from);
    FileAtMake(t, a, from);
    if b <= q {
      assert from == [staging] + q;
    }
  }

  lemma InstallOneKeepsStaged(os: System, t: Tree, staging: string, component: string, q: Path)
    requires Lawful(os) && WellFormed(t) && staging != component
    requires Executes(t, InstallOne(os, t, staging, component))
    requires q != [] && q[0] != component
    ensures FileAt(After(t, InstallOne(os, t, staging, component)), [staging] + q) == FileAt(t, [staging] + q)
  {
    InstallOneEffect(os, t, staging, component, [staging] + q);
    assert ([staging] + q)[0] == staging && ([staging] + q)[1] == q[0];
  }

  lemma InstallSplit(os: System, t: Tree, staging: string, components: seq<string>)
    requires components != [] && Executes(t, InstallOps(os, t, staging, components))
    ensures var first := InstallOne(os, t, staging, components[0]);
            var second := InstallOps(os, After(t, first), staging, components[1..]);
            && Executes(t, first) && Executes(After(t, first), second)
            && After(t, InstallOps(os, t, staging, components)) == After(After(t, first), second)
  {
    var first := InstallOne(os, t, staging, components[0]);
    AfterConcat(t, first, InstallOps(os, After(t, first), staging, components[1..]));
  }

  lemma InstallKeepsOthers(os: System, t: Tree, staging: string, components: seq<string>, q: Path)
    requires Lawful(os) && Executes(t, InstallOps(os, t, staging, components))
    requires q != [] && q[0] !in components && q[0] != staging
    ensures FileAt(After(t, InstallOps(os, t, staging, components)), q) == FileAt(t, q)
  {
    InstallTouches(os, t, staging, components, q[0]);
    Frame(t, InstallOps(os, t, staging, components), q[0]);
    assert SameAt(t, After(t, InstallOps(os, t, staging, components)), q);
  }

  /** After installing, a component's files are those that were staged for it. */
  lemma {:induction false} InstallEffect(os: System, t: Tree, staging: string, components: seq<string>, q: Path)
    requires Lawful(os) && WellFormed(t) && staging !in components && Distinct(components)
    requires Executes(t, InstallOps(os, t, staging, components))
    requires q != [] && q[0] in components
    ensures FileAt(After(t, InstallOps(os, t, staging, components)), q) == FileAt(t, [staging] + q)
    decreases |components|
  {
    var c, rest := components[0], components[1..];
    InstallSplit(os, t, staging, components);
    var u := After(t, InstallOne(os, t, staging, c));
    if q[0] == c {
      InstallKeepsOthers(os, u, staging, rest, q);
      InstallOneEffect(os, t, staging, c, q);
    } else {
      AfterWellFormed(t, InstallOne(os, t, staging, c));
      InstallEffect(os, u, staging, rest, q);
      InstallOneKeepsStaged(os, t, staging, c, q);
    }
  }

  // --------------------------------------------------------------- the whole

  lemma RanThree(t: Tree, a: seq<Op>, b: seq<Op>, c: seq<Op>)
    requires Executes(t, a + b + c)
    ensures Executes(t, a) && Executes(After(t, a), b) && Executes(After(After(t, a), b), c)
    ensures After(t, a + b + c) == After(After(After(t, a), b), c)
  {
    AfterConcat(t, a + b, c);
    AfterConcat(t, a, b);
  }

  /** The copies a manifest asks for were all acceptable, and no path was listed twice. */
  ghost predicate Restorable(env: Env, source: Tree, m: Manifest) {
    var copies := RestoreCopies(env, source, m, m.files);
    (forall c :: c in copies ==> Acceptable(c)) && DistinctPaths(copies)
  }

  /** The files a manifest describes, with the bytes the backup holds for them. */
  function Restored(env: Env, source: Tree, m: Manifest): map<Path, Bytes> {
    Copied([], RestoreCopies(env, source, m, m.files))
  }

  /** What a restore that ran to its end staged, and onto what. */
  lemma StageRan(env: Env, os: System, v: Tree, source: Tree, m: Manifest, staging: string, note: Bytes)
    requires Executes(v, TailOps(env, os, v, source, m, staging, note))
    ensures Enabled(v, Truncate([RESTORE_MARKER]))
    ensures Executes(v[[RESTORE_MARKER] := File(note)], StageOps(env, os, source, m, staging))
  {
    var create, u := [Truncate([RESTORE_MARKER])], Apply(v, Truncate([RESTORE_MARKER]));
    var marked := MarkedOps(env, os, u, source, m, staging, note);
    AfterConcat(v, create, marked + [Unlink([RESTORE_MARKER])]);
    AfterOne(v, Truncate([RESTORE_MARKER]));
    AfterConcat(u, marked, [Unlink([RESTORE_MARKER])]);
    StageRanMarked(env, os, u, source, m, staging, note);
    assert u[[RESTORE_MARKER] := File(note)] == v[[RESTORE_MARKER] := File(note)];
  }

  lemma StageRanMarked(env: Env, os: System, u: Tree, source: Tree, m: Manifest, staging: string, note: Bytes)
    requires Executes(u, MarkedOps(env, os, u, source, m, staging, note))
    requires [RESTORE_MARKER] in u && u[[RESTORE_MARKER]] == File([])
    ensures Executes(u[[RESTORE_MARKER] := File(note)], StageOps(env, os, source, m, staging))
  {
    var append, stage := Appends(os, [RESTORE_MARKER], note, 0), StageOps(env, os, source, m, staging);
    var v := After(u, append + stage);
    var install := InstallOps(os, v, staging, COMPONENTS);
    RanThree(u, append + stage, install, RemoveOps(os, After(v, install), [staging]));
    AfterConcat(u, append, stage);
    assert note[..0] == [];
    AppendsComplete(os, u, [RESTORE_MARKER], note, 0);
  }

  /** A restore cannot have made a staging directory that was already there. */
  lemma StagingWasFree(env: Env, os: System, v: Tree, source: Tree, m: Manifest, staging: string, note: Bytes)
    requires Executes(v, TailOps(env, os, v, source, m, staging, note)) && IsStagingName(staging)
    ensures [staging] !in v && ValidName(staging)
  {
    StageRan(env, os, v, source, m, staging, note);
    StagingNamesDiffer();
    assert StageOps(env, os, source, m, staging)[0] == MakeDir([staging]);
    assert staging in [staging];
  }

  lemma MarkAndStage(env: Env, os: System, t: Tree, source: Tree, m: Manifest, staging: string, note: Bytes, q: Path)
    requires WellFormed(t) && [RESTORE_MARKER] in t && t[[RESTORE_MARKER]] == File([])
    requires Executes(t, Appends(os, [RESTORE_MARKER], note, 0) + StageOps(env, os, source, m, staging))
    ensures Restorable(env, source, m)
    ensures FileAt(After(t, Appends(os, [RESTORE_MARKER], note, 0) + StageOps(env, os, source, m, staging)),
                   [staging] + q)
            == Lookup(Restored(env, source, m), q)
  {
    var mark, stage := Appends(os, [RESTORE_MARKER], note, 0), StageOps(env, os, source, m, staging);
    AfterConcat(t, mark, stage);
    AfterWellFormed(t, mark);
    StageEffect(env, os, After(t, mark), source, m, staging, q);
  }

  lemma MarkedEffect(env: Env, os: System, t: Tree, source: Tree, m: Manifest, staging: string, note: Bytes, q: Path)
    requires Lawful(os) && WellFormed(t) && [RESTORE_MARKER] in t && t[[RESTORE_MARKER]] == File([])
    requires IsStagingName(staging) && Executes(t, MarkedOps(env, os, t, source, m, staging, note))
    requires InComponent(q)
    ensures Restorable(env, source, m)
    ensures FileAt(After(t, MarkedOps(env, os, t, source, m, staging, note)), q) == Lookup(Restored(env, source, m), q)
    ensures Vacant(After(t, MarkedOps(env, os, t, source, m, staging, note)), [staging])
  {
    var stage := Appends(os, [RESTORE_MARKER], note, 0) + StageOps(env, os, source, m, staging);
    var u := After(t, stage);
    var install := InstallOps(os, u, staging, COMPONENTS);
    RanThree(t, stage, install, RemoveOps(os, After(u, install), [staging]));
    AfterWellFormed(t, stage);
    MarkAndStage(env, os, t, source, m, staging, note, q);
    InstallAndRemove(os, u, staging, q);
  }

  lemma InstallAndRemove(os: System, t: Tree, staging: string, q: Path)
    requires Lawful(os) && WellFormed(t) && IsStagingName(staging) && InComponent(q)
    requires Executes(t, InstallOps(os, t, staging, COMPONENTS))
    requires var v := After(t, InstallOps(os, t, staging, COMPONENTS)); Executes(v, RemoveOps(os, v, [staging]))
    ensures var v := After(t, InstallOps(os, t, staging, COMPONENTS));
            && FileAt(After(v, RemoveOps(os, v, [staging])), q) == FileAt(t, [staging] + q)
            && Vacant(After(v, RemoveOps(os, v, [staging])), [staging])
  {
    NamesDiffer();
    StagingNamesDiffer();
    var install := InstallOps(os, t, staging, COMPONENTS);
    var v := After(t, install);
    AfterWellFormed(t, install);
    InstallEffect(os, t, staging, COMPONENTS, q);
    FileAtRemove(os, v, [staging], q);
    RemoveEffect(os, v, [staging]);
  }

  lemma TailEffect(env: Env, os: System, t: Tree, source: Tree, m: Manifest, staging: string, note: Bytes, q: Path)
    requires Lawful(os) && WellFormed(t) && IsStagingName(staging)
    requires Executes(t, TailOps(env, os, t, source, m, staging, note))
    requires InComponent(q)
    ensures Restorable(env, source, m)
    ensures FileAt(After(t, TailOps(env, os, t, source, m, staging, note)), q) == Lookup(Restored(env, source, m), q)
    ensures Vacant(After(t, TailOps(env, os, t, source, m, staging, note)), [staging])
    ensures [RESTORE_MARKER] !in After(t, TailOps(env, os, t, source, m, staging, note))
  {
    NamesDiffer();
    var u := Apply(t, Truncate([RESTORE_MARKER]));
    var marked := MarkedOps(env, os, u, source, m, staging, note);
    Bracketed(t, marked, RESTORE_MARKER);
    ApplyWellFormed(t, Truncate([RESTORE_MARKER]));
    MarkedEffect(env, os, u, source, m, staging, note, q);
  }

  lemma Bracketed(t: Tree, work: seq<Op>, name: string)
    requires Executes(t, [Truncate([name])] + (work + [Unlink([name])]))
    ensures Enabled(t, Truncate([name])) && Executes(Apply(t, Truncate([name])), work)
    ensures After(t, [Truncate([name])] + (work + [Unlink([name])])) ==
            After(Apply(t, Truncate([name])), work) - {[name]}
  {
    AfterConcat(t, [Truncate([name])], work + [Unlink([name])]);
    AfterOne(t, Truncate([name]));
    AfterSnoc(Apply(t, Truncate([name])), work, Unlink([name]));
  }

  /**
   * A restore that ran to its end, at whatever level it was verified: every
   * listed path was safe, distinct and matched its size and digest; the three
   * components hold exactly those files; the marker and the staging directory
   * are gone.
   */
  lemma RestoreCompleted(env: Env, os: System, t: Tree, source: Tree, m: Manifest, staging: string, note: Bytes)
    requires Lawful(os) && WellFormed(t) && IsStagingName(staging)
    requires Executes(t, RestoreScript(env, os, t, source, m, staging, note))
    ensures var u := After(t, RestoreScript(env, os, t, source, m, staging, note));
            && Restorable(env, source, m)
            && ComponentFiles(u) == Restored(env, source, m)
            && [RESTORE_MARKER] !in u
            && Vacant(u, [staging])
  {
    var opening := OpeningOps(os, t);
    var v := After(t, opening);
    var tail := TailOps(env, os, v, source, m, staging, note);
    AfterConcat(t, opening, tail);
    AfterWellFormed(t, opening);
    var u := After(v, tail);
    TailEffect(env, os, v, source, m, staging, note, [METADATA]);
    forall q | InComponent(q) ensures FileAt(u, q) == Lookup(Restored(env, source, m), q) {
      TailEffect(env, os, v, source, m, staging, note, q);
    }
    RestoredInside(env, source, m);
    SameLookups(u, Restored(env, source, m));
  }

  lemma SameLookups(u: Tree, files: map<Path, Bytes>)
    requires forall q :: q in files ==> InComponent(q)
    requires forall q :: InComponent(q) ==> FileAt(u, q) == Lookup(files, q)
    ensures ComponentFiles(u) == files
  {
    var found := ComponentFiles(u);
    forall q ensures Lookup(found, q) == Lookup(files, q) {
      if InComponent(q) {
        assert FileAt(u, q) == Lookup(files, q);
      }
    }
    forall q | q in found ensures q in files && found[q] == files[q] {
      assert Lookup(found, q) == Lookup(files, q);
    }
    forall q | q in files ensures q in found {
      assert Lookup(found, q) == Lookup(files, q);
    }
  }

  lemma RestoredInside(env: Env, source: Tree, m: Manifest)
    requires Restorable(env, source, m)
    ensures forall q :: q in Restored(env, source, m) ==> InComponent(q) && |q| >= 2 && ValidPath(q) && PlainPath(q)
  {
    var copies := RestoreCopies(env, source, m, m.files);
    forall q | q in Restored(env, source, m) ensures InComponent(q) && |q| >= 2 && ValidPath(q) && PlainPath(q) {
      var i := CopiedOnly([], copies, q);
      assert copies[i] in copies;
      SafePathStaysInside(copies[i].path);
      assert Target([], copies[i]) == Split(copies[i].path, '/');
    }
  }

  lemma EntryRestored(env: Env, source: Tree, m: Manifest, i: nat)
    requires Restorable(env, source, m) && i < |m.files|
    ensures var f, p, files := m.files[i], Split(m.files[i].path, '/'), Restored(env, source, m);
            && p in files && f.path == Join(p, '/')
            && f.size == Size(files[p]) && f.sha256 == env.digest(files[p])
  {
    var copies := RestoreCopies(env, source, m, m.files);
    assert copies[i] in copies;
    CopiedAt([], copies, i);
    JoinOfSplit(m.files[i].path, '/');
    assert Target([], copies[i]) == Split(m.files[i].path, '/');
  }

  lemma EntryIsRestored(env: Env, source: Tree, m: Manifest, f: BackupFile)
    requires Restorable(env, source, m) && f in m.files
    ensures var files, p := Restored(env, source, m), Split(f.path, '/');
            && p in files && (f.path, f.size, f.sha256) == (Join(p, '/'), Size(files[p]), env.digest(files[p]))
  {
    var i :| 0 <= i < |m.files| && m.files[i] == f;
    EntryRestored(env, source, m, i);
  }

  lemma RestoredIsAnEntry(env: Env, source: Tree, m: Manifest, p: Path) returns (f: BackupFile)
    requires Restorable(env, source, m) && p in Restored(env, source, m) && p != []
    ensures var files := Restored(env, source, m);
            f in m.files && (f.path, f.size, f.sha256) == (Join(p, '/'), Size(files[p]), env.digest(files[p]))
  {
    var i := CopiedOnly([], RestoreCopies(env, source, m, m.files), p);
    EntryRestored(env, source, m, i);
    assert p == Split(m.files[i].path, '/');
    f := m.files[i];
  }

  /** In the manifest's own terms: the restored files are its entries, in both directions. */
  lemma RestoredIsTheManifest(env: Env, source: Tree, m: Manifest)
    requires Restorable(env, source, m)
    ensures [] !in Restored(env, source, m)
    ensures InventoryOf(env, Restored(env, source, m)) == EntriesOf(m)
  {
    RestoredInside(env, source, m);
    var files := Restored(env, source, m);
    forall e | e in EntriesOf(m) ensures e in InventoryOf(env, files) {
      var f :| f in m.files && e == (f.path, f.size, f.sha256);
      EntryIsRestored(env, source, m, f);
    }
    forall e | e in InventoryOf(env, files) ensures e in EntriesOf(m) {
      var p :| p in files && e == (Join(p, '/'), Size(files[p]), env.digest(files[p]));
      var f := RestoredIsAnEntry(env, source, m, p);
    }
  }
}
