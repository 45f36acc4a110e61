/** Exactly when a restore runs to its end, and when an interrupted one can be run again. */
module RestoreResumes {
  import opened Sequences
  import opened Filesystem
  import opened Layout
  import opened Copying
  import opened Manifests
  import opened Restores
  import opened RestoreSafety
  import opened RestoreEffect
  import opened RestoreRuns
  import opened RestoreRetries

  // ------------------------------------------------------- exactly when it runs

  lemma StagedFile(env: Env, os: System, v: Tree, source: Tree, m: Manifest, staging: string, c: Copy)
    requires WellFormed(v) && Executes(v, StageOps(env, os, source, m, staging))
    requires c in RestoreCopies(env, source, m, m.files)
    ensures IsFile(After(v, StageOps(env, os, source, m, staging)), [staging] + Target([], c))
  {
    var copies := RestoreCopies(env, source, m, m.files);
    var i := IndexOf(copies, c);
    StageEffect(env, os, v, source, m, staging, Target([], c));
    CopiedHas([], copies, i);
  }

  /** Files that were all staged do not lie below one another. */
  lemma StagedIsUnclashing(env: Env, os: System, v: Tree, source: Tree, m: Manifest, staging: string)
    requires WellFormed(v) && Executes(v, StageOps(env, os, source, m, staging))
    ensures Unclashing(RestoreCopies(env, source, m, m.files))
  {
    var copies, u := RestoreCopies(env, source, m, m.files), After(v, StageOps(env, os, source, m, staging));
    AfterWellFormed(v, StageOps(env, os, source, m, staging));
    forall c, d | c in copies && d in copies && Target([], c) <= Target([], d) ensures c.path == d.path {
      var p, q := [staging] + Target([], c), [staging] + Target([], d);
      StagedFile(env, os, v, source, m, staging, c);
      StagedFile(env, os, v, source, m, staging, d);
      assert p <= q;
      FilesAreLeaves(u, p, q);
      assert Target([], c) == p[1..] && Target([], d) == q[1..];
      TargetInjective([], c, d);
    }
  }

  lemma RanMeansReady(env: Env, os: System, t: Tree, source: Tree, m: Manifest, staging: string, note: Bytes)
    requires Lawful(os) && WellFormed(t) && IsStagingName(staging)
    requires Executes(t, RestoreScript(env, os, t, source, m, staging, note))
    ensures Ready(t, staging)
  {
    var opening := OpeningOps(os, t);
    var v := After(t, opening);
    AfterConcat(t, opening, TailOps(env, os, v, source, m, staging, note));
    OpeningRuns(os, t);
    OpeningKeepsMarker(os, t);
    StageRan(env, os, v, source, m, staging, note);
    StagingWasFree(env, os, v, source, m, staging, note);
    if [RESTORE_MARKER] !in t {
      OpeningLeavesUntouched(os, t, opening);
    }
  }

  /**
   * A restore runs to its end exactly when the data directory is one it may
   * start in, every entry checks out, and no entry lies below another.
   */
  lemma RestoreRunsExactly(env: Env, os: System, t: Tree, source: Tree, m: Manifest, staging: string, note: Bytes)
    requires Lawful(os) && WellFormed(t) && IsStagingName(staging)
    ensures Executes(t, RestoreScript(env, os, t, source, m, staging, note)) <==>
            && Ready(t, staging) && Restorable(env, source, m)
            && Unclashing(RestoreCopies(env, source, m, m.files))
  {
    var script := RestoreScript(env, os, t, source, m, staging, note);
    if Executes(t, script) {
      RanMeansReady(env, os, t, source, m, staging, note);
      RestoreCompleted(env, os, t, source, m, staging, note);
      RanMeansUnclashing(env, os, t, source, m, staging, note);
    }
    if Ready(t, staging) && Restorable(env, source, m) && Unclashing(RestoreCopies(env, source, m, m.files)) {
      RestoreGoesThrough(env, os, t, source, m, staging, note);
    }
  }

  lemma RanMeansUnclashing(env: Env, os: System, t: Tree, source: Tree, m: Manifest, staging: string, note: Bytes)
    requires Lawful(os) && WellFormed(t) && IsStagingName(staging)
    requires Executes(t, RestoreScript(env, os, t, source, m, staging, note))
    ensures Unclashing(RestoreCopies(env, source, m, m.files))
  {
    var opening := OpeningOps(os, t);
    var v := After(t, opening);
    AfterConcat(t, opening, TailOps(env, os, v, source, m, staging, note));
    AfterWellFormed(t, opening);
    StageRan(env, os, v, source, m, staging, note);
    EntryWellFormed(v, [RESTORE_MARKER], File(note));
    StagedIsUnclashing(env, os, v[[RESTORE_MARKER] := File(note)], source, m, staging);
  }

  // ------------------------------------------------------------ run once more

  /** Directories where directories belong, and the marker, if there, a file. */
  ghost predicate Fit(t: Tree) {
    NoFileRoots(t) && !IsDir(t, [RESTORE_MARKER]) && !IsFile(t, [])
  }

  /** An operation that puts nothing of the wrong kind at the top level, if what it moves is a directory. */
  predicate Fitting(op: Op) {
    match op
    case MakeDirs(p) => p == [] || p[0] != RESTORE_MARKER
    case MakeDir(p) => p != [] && p[0] != RESTORE_MARKER
    case CreateNew(p) => |p| >= 3
    case Truncate(p) => p == [RESTORE_MARKER]
    case Rename(a, b) => |a| == 2 && |b| == 1 && b[0] != RESTORE_MARKER
    case _ => true
  }

  lemma FittingKeeps(t: Tree, op: Op)
    requires Fit(t) && Enabled(t, op) && Fitting(op) && (op.Rename? ==> !IsFile(t, op.path))
    ensures Fit(Apply(t, op))
  {
    StagingNamesDiffer();
    NamesDiffer();
    var u := Apply(t, op);
    forall p: Path | |p| <= 1 ensures (IsFile(u, p) ==> IsFile(t, p) || p == [RESTORE_MARKER])
                                      && (IsDir(u, p) ==> IsDir(t, p) || p != [RESTORE_MARKER]) {
      if op.Rename? {
        RenameEffect(t, op.path, op.target, p);
        assert op.target <= p ==> op.path + p[|op.target|..] == op.path;
      }
    }
    forall name | name in COMPONENTS || IsStagingName(name) ensures !IsFile(u, [name]) {
      assert [name] != [RESTORE_MARKER] by {
        assert [name][0] == name && [RESTORE_MARKER][0] == RESTORE_MARKER;
      }
    }
  }

  /** The same, with nothing but directories in the staging directory either. */
  ghost predicate Deep(t: Tree, staging: string) {
    Fit(t) && forall x :: !IsFile(t, [staging, x])
  }

  predicate Deepens(op: Op, staging: string) {
    Fitting(op) && (op.Rename? ==> op.path[0] == staging && op.target[0] != staging)
  }

  lemma DeepensKeeps(t: Tree, op: Op, staging: string)
    requires Deep(t, staging) && Enabled(t, op) && Deepens(op, staging)
    ensures Deep(Apply(t, op), staging)
  {
    if op.Rename? {
      assert op.path == [staging, op.path[1]];
    }
    FittingKeeps(t, op);
    forall x ensures !IsFile(Apply(t, op), [staging, x]) {
      if op.Rename? {
        RenameEffect(t, op.path, op.target, [staging, x]);
      }
    }
  }

  // ------------------------------------------------------- cut off anywhere

  /** Cut off anywhere, these operations leave a deep tree deep. */
  ghost predicate KeepsDeep(ops: seq<Op>, staging: string) {
    forall t: Tree, done: seq<Op> {:trigger After(t, done), Deep(t, staging)} ::
      done <= ops && Executes(t, done) && Deep(t, staging) ==> Deep(After(t, done), staging)
  }

  lemma {:induction false} DoneKeepsDeep(t: Tree, done: seq<Op>, staging: string)
    requires Executes(t, done) && Deep(t, staging) && forall op :: op in done ==> Deepens(op, staging)
    ensures Deep(After(t, done), staging)
    decreases |done|
  {
    if done != [] {
      assert done[0] in done && forall op :: op in done[1..] ==> op in done;
      DeepensKeeps(t, done[0], staging);
      DoneKeepsDeep(Apply(t, done[0]), done[1..], staging);
    }
  }

  lemma AllKeepDeep(ops: seq<Op>, staging: string)
    requires forall op :: op in ops ==> Deepens(op, staging)
    ensures KeepsDeep(ops, staging)
  {
    forall t: Tree, done: seq<Op> | done <= ops && Executes(t, done) && Deep(t, staging)
      ensures Deep(After(t, done), staging)
    {
      assert forall op :: op in done ==> op in ops;
      DoneKeepsDeep(t, done, staging);
    }
  }

  lemma BothKeepDeep(a: seq<Op>, b: seq<Op>, staging: string)
    requires KeepsDeep(a, staging) && KeepsDeep(b, staging)
    ensures KeepsDeep(a + b, staging)
  {
    forall t: Tree, done: seq<Op> | done <= a + b && Executes(t, done) && Deep(t, staging)
      ensures Deep(After(t, done), staging)
    {
      PrefixSplit(done, a, b);
      if !(done <= a) {
        AfterConcat(t, a, done[|a|..]);
        assert Deep(After(t, a), staging);
      }
    }
  }

  lemma StoppedKeepsDeep(ops: seq<Op>, staging: string)
    requires ops != [] && ops[0] == Stop
    ensures KeepsDeep(ops, staging)
  {
    forall t: Tree, done: seq<Op> | done <= ops && Executes(t, done) && Deep(t, staging)
      ensures Deep(After(t, done), staging)
    {
      assert done == [];
    }
  }

  lemma {:induction false} AppendsDeepen(os: System, p: Path, data: Bytes, at: nat, staging: string)
    requires at <= |data|
    ensures forall op :: op in Appends(os, p, data, at) ==> Deepens(op, staging)
    decreases |data| - at
  {
    if at < |data| {
      AppendsDeepen(os, p, data, at + Chunk(os, data, at), staging);
    }
  }

  lemma CopyKeepsDeep(os: System, staging: string, c: Copy)
    requires IsStagingName(staging)
    ensures KeepsDeep(CopyOps(os, [staging], c), staging)
  {
    var ops, to := CopyOps(os, [staging], c), Target([staging], c);
    if SafeRelativePath(c.path) {
      StagingNamesDiffer();
      assert |to| >= 3 && to[0] == staging && Parent(to)[0] == staging;
      if c.data.Some? {
        AppendsDeepen(os, to, c.data.value, 0, staging);
      }
      assert forall op :: op in ops ==> Deepens(op, staging);
      AllKeepDeep(ops, staging);
    } else {
      StoppedKeepsDeep(ops, staging);
    }
  }

  lemma {:induction false} CopiesKeepDeep(os: System, staging: string, copies: seq<Copy>)
    requires IsStagingName(staging)
    ensures KeepsDeep(CopyAllOps(os, [staging], copies), staging)
    decreases |copies|
  {
    if copies == [] {
      AllKeepDeep([], staging);
    } else {
      CopyKeepsDeep(os, staging, copies[0]);
      CopiesKeepDeep(os, staging, copies[1..]);
      BothKeepDeep(CopyOps(os, [staging], copies[0]), CopyAllOps(os, [staging], copies[1..]), staging);
    }
  }

  lemma StageKeepsDeep(env: Env, os: System, source: Tree, m: Manifest, staging: string)
    requires IsStagingName(staging)
    ensures KeepsDeep(StageOps(env, os, source, m, staging), staging)
  {
    StagingNamesDiffer();
    var copies := RestoreCopies(env, source, m, m.files);
    AllKeepDeep([MakeDir([staging])], staging);
    CopiesKeepDeep(os, staging, copies);
    BothKeepDeep([MakeDir([staging])], CopyAllOps(os, [staging], copies), staging);
  }

  lemma RemovalDeepens(os: System, t: Tree, root: Path, staging: string)
    ensures forall op :: op in RemoveOps(os, t, root) ==> Deepens(op, staging)
  {
  }

  lemma InstallOneDeepens(os: System, t: Tree, staging: string, component: string)
    requires IsStagingName(staging) && component in COMPONENTS
    ensures forall op :: op in InstallOne(os, t, staging, component) ==> Deepens(op, staging)
  {
    StagingNamesDiffer();
    NamesDiffer();
    var make := if [staging, component] in t then [] else [MakeDirs([staging, component])];
    RemovalDeepens(os, After(t, make), [component], staging);
  }

  lemma {:induction false} InstallDeepens(os: System, t: Tree, staging: string, components: seq<string>)
    requires IsStagingName(staging) && forall c :: c in components ==> c in COMPONENTS
    ensures forall op :: op in InstallOps(os, t, staging, components) ==> Deepens(op, staging)
    decreases |components|
  {
    if components != [] {
      assert components[0] in components && forall d :: d in components[1..] ==> d in components;
      InstallOneDeepens(os, t, staging, components[0]);
      InstallDeepens(os, After(t, InstallOne(os, t, staging, components[0])), staging, components[1..]);
    }
  }

  /** From the staging directory's creation on. */
  lemma StagedOnKeepsDeep(env: Env, os: System, u: Tree, source: Tree, m: Manifest, staging: string)
    requires IsStagingName(staging)
    ensures var stage := StageOps(env, os, source, m, staging);
            var install := InstallOps(os, u, staging, COMPONENTS);
            KeepsDeep(stage + (install + (RemoveOps(os, After(u, install), [staging]) + [Unlink([RESTORE_MARKER])])),
                      staging)
  {
    var stage, install := StageOps(env, os, source, m, staging), InstallOps(os, u, staging, COMPONENTS);
    var remove := RemoveOps(os, After(u, install), [staging]);
    StageKeepsDeep(env, os, source, m, staging);
    InstallDeepens(os, u, staging, COMPONENTS);
    RemovalDeepens(os, After(u, install), [staging], staging);
    PartsKeepDeep(stage, install, remove, staging);
  }

  lemma PartsKeepDeep(stage: seq<Op>, install: seq<Op>, remove: seq<Op>, staging: string)
    requires KeepsDeep(stage, staging) && IsStagingName(staging)
    requires (forall op :: op in install ==> Deepens(op, staging)) && forall op :: op in remove ==> Deepens(op, staging)
    ensures KeepsDeep(stage + (install + (remove + [Unlink([RESTORE_MARKER])])), staging)
  {
    var rest := install + (remove + [Unlink([RESTORE_MARKER])]);
    assert forall op :: op in rest ==> Deepens(op, staging);
    AllKeepDeep(rest, staging);
    BothKeepDeep(stage, rest, staging);
  }

  // ---------------------------------------------------------------- the whole

  lemma {:induction false} DoneKeepsFit(t: Tree, done: seq<Op>)
    requires Executes(t, done) && Fit(t) && forall op :: op in done ==> Fitting(op) && !op.Rename?
    ensures Fit(After(t, done))
    decreases |done|
  {
    if done != [] {
      assert done[0] in done && forall op :: op in done[1..] ==> op in done;
      FittingKeeps(t, done[0]);
      DoneKeepsFit(Apply(t, done[0]), done[1..]);
    }
  }

  /** Before the staging directory: clearing, and the marker. */
  function EarlyOps(os: System, t: Tree, note: Bytes): seq<Op> {
    OpeningOps(os, t) + ([Truncate([RESTORE_MARKER])] + Appends(os, [RESTORE_MARKER], note, 0))
  }

  predicate Early(op: Op) {
    Fitting(op) && !op.Rename?
  }

  lemma {:induction false} RemovalsAreEarly(os: System, t: Tree, roots: seq<Path>)
    ensures forall op :: op in RemoveAllOps(os, t, roots) ==> Early(op)
    decreases |roots|
  {
    if roots != [] {
      var first := RemoveOps(os, t, roots[0]);
      assert forall op :: op in first ==> Early(op);
      RemovalsAreEarly(os, After(t, first), roots[1..]);
    }
  }

  lemma OpeningIsEarly(os: System, t: Tree)
    ensures forall op :: op in OpeningOps(os, t) ==> Early(op)
  {
    var u := Apply(t, MakeDirs([]));
    if [RESTORE_MARKER] in u {
      var v := After(u, RemoveAllOps(os, u, COMPONENT_ROOTS));
      RemovalsAreEarly(os, u, COMPONENT_ROOTS);
      RemovalsAreEarly(os, v, StaleRoots(os.names(v, [])));
    }
  }

  lemma {:induction false} AppendsAreEarly(os: System, p: Path, data: Bytes, at: nat)
    requires at <= |data|
    ensures forall op :: op in Appends(os, p, data, at) ==> Early(op)
    decreases |data| - at
  {
    if at < |data| {
      AppendsAreEarly(os, p, data, at + Chunk(os, data, at));
    }
  }

  lemma EarlyIsEarly(os: System, t: Tree, note: Bytes)
    ensures forall op :: op in EarlyOps(os, t, note) ==> Early(op)
  {
    OpeningIsEarly(os, t);
    AppendsAreEarly(os, [RESTORE_MARKER], note, 0);
  }

  lemma SplitEarly(env: Env, os: System, t: Tree, source: Tree, m: Manifest, staging: string, note: Bytes)
    returns (late: seq<Op>)
    requires IsStagingName(staging)
    ensures RestoreScript(env, os, t, source, m, staging, note) == EarlyOps(os, t, note) + late
    ensures KeepsDeep(late, staging) && late != [] && late[0] == MakeDir([staging])
  {
    var opening, create := OpeningOps(os, t), [Truncate([RESTORE_MARKER])];
    var v := Apply(After(t, opening), Truncate([RESTORE_MARKER]));
    var append, stage := Appends(os, [RESTORE_MARKER], note, 0), StageOps(env, os, source, m, staging);
    var u := After(v, append + stage);
    var install := InstallOps(os, u, staging, COMPONENTS);
    var remove, unmark := RemoveOps(os, After(u, install), [staging]), [Unlink([RESTORE_MARKER])];
    late := stage + (install + (remove + unmark));
    StagedOnKeepsDeep(env, os, u, source, m, staging);
    SevenParts(opening, create, append, stage, install, remove, unmark);
  }

  lemma SevenParts<T>(o: seq<T>, c: seq<T>, a: seq<T>, s: seq<T>, i: seq<T>, r: seq<T>, u: seq<T>)
    ensures o + (c + (((a + s) + i + r) + u)) == (o + (c + a)) + (s + (i + (r + u)))
  {
    Regroup(a + s + i, r, u);
    Regroup(a + s, i, r + u);
    Regroup(a, s, i + (r + u));
    var late := s + (i + (r + u));
    Regroup(c, a, late);
    Regroup(o, c + a, late);
  }

  /** Cut off anywhere, a restore leaves directories where directories belong. */
  lemma AttemptKeepsFit(env: Env, os: System, t: Tree, source: Tree, m: Manifest, staging: string, note: Bytes,
                        done: seq<Op>)
    requires WellFormed(t) && Fit(t) && IsStagingName(staging)
    requires done <= RestoreScript(env, os, t, source, m, staging, note) && Executes(t, done)
    ensures Fit(After(t, done))
  {
    var early := EarlyOps(os, t, note);
    var late := SplitEarly(env, os, t, source, m, staging, note);
    EarlyIsEarly(os, t, note);
    PrefixSplit(done, early, late);
    if done <= early {
      assert forall op :: op in done ==> op in early;
      DoneKeepsFit(t, done);
    } else {
      AfterConcat(t, early, done[|early|..]);
      DoneKeepsFit(t, early);
      AfterWellFormed(t, early);
      LateKeepsFit(After(t, early), done[|early|..], late, staging);
    }
  }

  lemma LateKeepsFit(t: Tree, done: seq<Op>, late: seq<Op>, staging: string)
    requires WellFormed(t) && Fit(t) && done <= late && Executes(t, done)
    requires KeepsDeep(late, staging) && late != [] && late[0] == MakeDir([staging])
    ensures Fit(After(t, done))
  {
    if done != [] {
      assert done[0] == MakeDir([staging]);
      VacantBelow(t, [staging]);
      forall x ensures !IsFile(t, [staging, x]) {
        assert [staging] <= [staging, x];
      }
      assert Deep(t, staging);
    }
  }

  lemma InterruptedIsStartable(env: Env, os: System, t: Tree, source: Tree, m: Manifest, staging: string, note: Bytes,
                               done: seq<Op>)
    requires Lawful(os) && WellFormed(t) && Startable(t) && NoFileRoots(t) && IsStagingName(staging)
    requires done < RestoreScript(env, os, t, source, m, staging, note) && Executes(t, done)
    ensures Startable(After(t, done)) && NoFileRoots(After(t, done))
  {
    AttemptKeepsFit(env, os, t, source, m, staging, note, done);
    RestoreInterrupted(env, os, t, source, m, staging, note, done);
    MakeRootKeeps(t);
  }

  // ------------------------------------------------------ files in the way stay

  /** A top-level name at which a restore clears a directory away, and only a directory. */
  predicate IsRoot(name: string) {
    name in COMPONENTS || IsStagingName(name)
  }

  lemma FileStays(t: Tree, script: seq<Op>, done: seq<Op>, name: string)
    requires done <= script && NoneTouch(script, name) && Executes(t, done) && IsFile(t, [name])
    ensures IsFile(After(t, done), [name])
  {
    assert forall op :: op in done ==> op in script;
    Frame(t, done, name);
    assert SameAt(t, After(t, done), [name]);
  }

  lemma RefusedAtOnce(t: Tree, script: seq<Op>, done: seq<Op>)
    requires script != [] && !Enabled(t, script[0]) && done <= script && Executes(t, done)
    ensures done == []
  {
  }

  /** Clearing directories away, cut off anywhere, leaves a file where it is. */
  lemma {:induction false} ClearingSparesFiles(os: System, t: Tree, roots: seq<Path>, done: seq<Op>, name: string)
    requires Lawful(os) && (forall r :: r in roots ==> |r| == 1) && IsFile(t, [name])
    requires done <= RemoveAllOps(os, t, roots) && Executes(t, done)
    ensures IsFile(After(t, done), [name])
    decreases |roots|
  {
    if roots != [] {
      var first, rest := RemoveOps(os, t, roots[0]), roots[1..];
      assert roots[0] in roots && forall r :: r in rest ==> r in roots;
      PrefixSplit(done, first, RemoveAllOps(os, After(t, first), rest));
      if roots[0] == [name] {
        RefusedAtOnce(t, RemoveAllOps(os, t, roots), done);
      } else {
        assert roots[0] == [roots[0][0]] && roots[0][0] != name;
        RemoveTouchesOnly(os, t, roots[0], name);
        if done <= first {
          FileStays(t, first, done, name);
        } else {
          AfterConcat(t, first, done[|first|..]);
          FileStays(t, first, first, name);
          ClearingSparesFiles(os, After(t, first), rest, done[|first|..], name);
        }
      }
    }
  }

  lemma TwoClearings(os: System, t: Tree, a: seq<Path>, b: seq<Path>, done: seq<Op>, name: string)
    requires Lawful(os) && (forall r :: r in a ==> |r| == 1) && (forall r :: r in b ==> |r| == 1) && IsFile(t, [name])
    requires done <= RemoveAllOps(os, t, a) + RemoveAllOps(os, After(t, RemoveAllOps(os, t, a)), b) && Executes(t, done)
    ensures IsFile(After(t, done), [name])
  {
    var first := RemoveAllOps(os, t, a);
    PrefixSplit(done, first, RemoveAllOps(os, After(t, first), b));
    if done <= first {
      ClearingSparesFiles(os, t, a, done, name);
    } else {
      AfterConcat(t, first, done[|first|..]);
      ClearingSparesFiles(os, t, a, first, name);
      ClearingSparesFiles(os, After(t, first), b, done[|first|..], name);
    }
  }

  lemma ClearSparesFiles(os: System, t: Tree, done: seq<Op>, name: string)
    requires Lawful(os) && IsFile(t, [name]) && done <= ClearOps(os, t) && Executes(t, done)
    ensures IsFile(After(t, done), [name])
  {
    if [RESTORE_MARKER] in t {
      var u := After(t, RemoveAllOps(os, t, COMPONENT_ROOTS));
      TwoClearings(os, t, COMPONENT_ROOTS, StaleRoots(os.names(u, [])), done, name);
    } else if !ComponentsEmpty(t) {
      RefusedAtOnce(t, ClearOps(os, t), done);
    }
  }

  lemma OpeningSparesFiles(os: System, t: Tree, done: seq<Op>, name: string)
    requires Lawful(os) && IsFile(t, [name]) && done <= OpeningOps(os, t) && Executes(t, done)
    ensures IsFile(After(t, done), [name])
  {
    if done != [] {
      var u := Apply(t, MakeDirs([]));
      assert done[0] == MakeDirs([]) && done[1..] <= ClearOps(os, u) by {
        assert OpeningOps(os, t)[1..] == ClearOps(os, u);
      }
      ClearSparesFiles(os, u, done[1..], name);
    }
  }

  /** Before its staging directory is made, a restore touches nothing but its marker. */
  lemma EarlyTailTouches(os: System, note: Bytes, name: string)
    requires name != RESTORE_MARKER
    ensures NoneTouch([Truncate([RESTORE_MARKER])] + Appends(os, [RESTORE_MARKER], note, 0), name)
  {
    AppendsTouch(os, [RESTORE_MARKER], note, 0, name);
  }

  lemma LateSparesFiles(t: Tree, mark: seq<Op>, late: seq<Op>, done: seq<Op>, staging: string)
    requires NoneTouch(mark, staging) && late != [] && late[0] == MakeDir([staging]) && IsFile(t, [staging])
    requires done <= mark + late && Executes(t, done)
    ensures IsFile(After(t, done), [staging])
  {
    PrefixSplit(done, mark, late);
    if done <= mark {
      FileStays(t, mark, done, staging);
    } else {
      AfterConcat(t, mark, done[|mark|..]);
      FileStays(t, mark, mark, staging);
      RefusedAtOnce(After(t, mark), late, done[|mark|..]);
    }
  }

  /** What follows the opening leaves a file that has the name of a staging directory, its own included. */
  lemma TailSparesFiles(env: Env, os: System, t: Tree, source: Tree, m: Manifest, staging: string, note: Bytes,
                        done: seq<Op>, name: string)
    requires Lawful(os) && IsStagingName(staging) && IsStagingName(name) && IsFile(t, [name])
    requires done <= TailOps(env, os, t, source, m, staging, note) && Executes(t, done)
    ensures IsFile(After(t, done), [name])
  {
    StagingNamesDiffer();
    if name == staging {
      var mark := [Truncate([RESTORE_MARKER])] + Appends(os, [RESTORE_MARKER], note, 0);
      var late := SplitTail(env, os, t, source, m, staging, note);
      EarlyTailTouches(os, note, staging);
      LateSparesFiles(t, mark, late, done, staging);
    } else {
      TailTouches(env, os, t, source, m, staging, note, name);
      FileStays(t, TailOps(env, os, t, source, m, staging, note), done, name);
    }
  }

  lemma SplitTail(env: Env, os: System, t: Tree, source: Tree, m: Manifest, staging: string, note: Bytes)
    returns (late: seq<Op>)
    ensures TailOps(env, os, t, source, m, staging, note) ==
            ([Truncate([RESTORE_MARKER])] + Appends(os, [RESTORE_MARKER], note, 0)) + late
    ensures late != [] && late[0] == MakeDir([staging])
  {
    var create, append := [Truncate([RESTORE_MARKER])], Appends(os, [RESTORE_MARKER], note, 0);
    var stage := StageOps(env, os, source, m, staging);
    var u := After(Apply(t, Truncate([RESTORE_MARKER])), append + stage);
    var install := InstallOps(os, u, staging, COMPONENTS);
    var remove, unmark := RemoveOps(os, After(u, install), [staging]), [Unlink([RESTORE_MARKER])];
    late := stage + (install + (remove + unmark));
    SevenParts([], create, append, stage, install, remove, unmark);
    assert [] + (create + append) == create + append;
    assert forall x: seq<Op> :: [] + x == x;
  }

  /** A file in the way of clearing stays where it is, wherever a restore is cut off. */
  lemma RootFileStays(env: Env, os: System, t: Tree, source: Tree, m: Manifest, staging: string, note: Bytes,
                      done: seq<Op>, name: string)
    requires Lawful(os) && WellFormed(t) && IsStagingName(staging) && IsRoot(name) && IsFile(t, [name])
    requires done <= RestoreScript(env, os, t, source, m, staging, note) && Executes(t, done)
    ensures IsFile(After(t, done), [name])
  {
    var opening := OpeningOps(os, t);
    var v := After(t, opening);
    PrefixSplit(done, opening, TailOps(env, os, v, source, m, staging, note));
    if done <= opening {
      OpeningSparesFiles(os, t, done, name);
    } else {
      AfterConcat(t, opening, done[|opening|..]);
      OpeningRuns(os, t);
      OpeningSparesFiles(os, t, opening, name);
      assert IsStagingName(name);
      TailSparesFiles(env, os, v, source, m, staging, note, done[|opening|..], name);
    }
  }

  // ------------------------------------------------------ exactly when once more

  /**
   * A restore cut off anywhere before its end leaves a directory that a restore
   * may start in, exactly unless it had put its marker down and there is a file
   * with the name of a staging directory, which clearing will not remove.
   */
  lemma InterruptedStartableExactly(env: Env, os: System, t: Tree, source: Tree, m: Manifest, staging: string,
                                    note: Bytes, done: seq<Op>)
    requires Lawful(os) && WellFormed(t) && Startable(t) && IsStagingName(staging)
    requires done < RestoreScript(env, os, t, source, m, staging, note) && Executes(t, done)
    ensures Startable(After(t, done)) <==> NoFileRoots(t) || [RESTORE_MARKER] !in After(t, done)
    ensures NoFileRoots(After(t, done)) <==> NoFileRoots(t)
  {
    if NoFileRoots(t) {
      InterruptedIsStartable(env, os, t, source, m, staging, note, done);
    } else {
      var name :| IsRoot(name) && IsFile(t, [name]);
      RootFileStays(env, os, t, source, m, staging, note, done, name);
      assert !NoFileRoots(After(t, done));
      RestoreInterrupted(env, os, t, source, m, staging, note, done);
      MakeRootKeeps(t);
    }
  }

  ghost predicate LeavesStartable(t: Tree, script: seq<Op>, done: seq<Op>) {
    done < script && Executes(t, done) ==> Startable(After(t, done))
  }

  lemma MarkedEarly(env: Env, os: System, t: Tree, source: Tree, m: Manifest, staging: string, note: Bytes)
    returns (done: seq<Op>)
    requires Lawful(os) && WellFormed(t) && Startable(t)
    ensures done < RestoreScript(env, os, t, source, m, staging, note) && Executes(t, done)
    ensures [RESTORE_MARKER] in After(t, done)
  {
    var opening := OpeningOps(os, t);
    var v := After(t, opening);
    OpeningRuns(os, t);
    OpeningMarks(os, t);
    done := opening + [Truncate([RESTORE_MARKER])];
    AfterSnoc(t, opening, Truncate([RESTORE_MARKER]));
    var tail := TailOps(env, os, v, source, m, staging, note);
    assert tail[0] == Truncate([RESTORE_MARKER]) && |tail| > 1;
    FirstOfTail(opening, tail);
  }

  lemma FirstOfTail<T>(a: seq<T>, b: seq<T>)
    requires |b| > 1
    ensures a + [b[0]] < a + b
  {
  }

  lemma MarkerFits(t: Tree)
    requires IsDir(t, []) && !IsDir(t, [RESTORE_MARKER]) && ValidName(RESTORE_MARKER)
    ensures Enabled(t, Truncate([RESTORE_MARKER]))
  {
    assert Parent([RESTORE_MARKER]) == [];
  }

  /** Opened, the directory takes a marker. */
  lemma OpeningMarks(os: System, t: Tree)
    requires Lawful(os) && WellFormed(t) && Startable(t) && Executes(t, OpeningOps(os, t))
    ensures Enabled(After(t, OpeningOps(os, t)), Truncate([RESTORE_MARKER]))
  {
    RestoreMarkerIsValid();
    OpeningKeepsMarker(os, t);
    RootIsThere(os, t);
    MarkerFits(After(t, OpeningOps(os, t)));
  }

  /** Told beforehand: a restore can be run again wherever it is cut off exactly when no file is in the way. */
  lemma AlwaysRestartsExactly(env: Env, os: System, t: Tree, source: Tree, m: Manifest, staging: string, note: Bytes)
    requires Lawful(os) && WellFormed(t) && Startable(t) && IsStagingName(staging)
    ensures (forall done :: LeavesStartable(t, RestoreScript(env, os, t, source, m, staging, note), done)) <==>
            NoFileRoots(t)
  {
    var script := RestoreScript(env, os, t, source, m, staging, note);
    if NoFileRoots(t) {
      forall done ensures LeavesStartable(t, script, done) {
        if done < script && Executes(t, done) {
          InterruptedStartableExactly(env, os, t, source, m, staging, note, done);
        }
      }
    } else {
      var done := MarkedEarly(env, os, t, source, m, staging, note);
      InterruptedStartableExactly(env, os, t, source, m, staging, note, done);
      assert !LeavesStartable(t, script, done);
    }
  }

  // ------------------------------------------------------------------ retries

  ghost predicate AllInterrupted(env: Env, t: Tree, attempts: seq<Attempt>)
    decreases |attempts|
  {
    attempts == []
    || (&& Possible(env, t, attempts[0]) && attempts[0].cut < |ScriptOf(env, t, attempts[0])|
        && AllInterrupted(env, AfterAttempt(env, t, attempts[0]), attempts[1..]))
  }

  lemma ProperPrefix<T>(s: seq<T>, k: nat)
    requires k < |s|
    ensures s[..k] < s
  {
  }

  /** Marked, with a file in the way: no restore can start. */
  ghost predicate Blocked(t: Tree, name: string) {
    WellFormed(t) && [RESTORE_MARKER] in t && IsRoot(name) && IsFile(t, [name])
  }

  lemma AttemptStaysBlocked(env: Env, t: Tree, a: Attempt, name: string)
    requires Blocked(t, name) && Possible(env, t, a) && a.cut < |ScriptOf(env, t, a)|
    ensures Blocked(AfterAttempt(env, t, a), name)
  {
    var done := ScriptOf(env, t, a)[..a.cut];
    ProperPrefix(ScriptOf(env, t, a), a.cut);
    AfterWellFormed(t, done);
    RootFileStays(env, a.os, t, a.source, a.manifest, a.staging, a.note, done, name);
    MarkerStays(env, a.os, t, a.source, a.manifest, a.staging, a.note, done);
  }

  lemma MarkerStays(env: Env, os: System, t: Tree, source: Tree, m: Manifest, staging: string, note: Bytes,
                    done: seq<Op>)
    requires Lawful(os) && IsStagingName(staging) && [RESTORE_MARKER] in t
    requires done < RestoreScript(env, os, t, source, m, staging, note) && Executes(t, done)
    ensures [RESTORE_MARKER] in After(t, done)
  {
    RestoreInterrupted(env, os, t, source, m, staging, note, done);
  }

  lemma {:induction false} AttemptsStayBlocked(env: Env, t: Tree, attempts: seq<Attempt>, name: string)
    requires Blocked(t, name) && AllInterrupted(env, t, attempts)
    ensures Blocked(AfterAttempts(env, t, attempts), name)
    decreases |attempts|
  {
    if attempts != [] {
      AttemptStaysBlocked(env, t, attempts[0], name);
      AttemptsStayBlocked(env, AfterAttempt(env, t, attempts[0]), attempts[1..], name);
    }
  }

  lemma AttemptExactly(env: Env, t: Tree, a: Attempt)
    requires WellFormed(t) && Startable(t) && Possible(env, t, a) && a.cut < |ScriptOf(env, t, a)|
    ensures var u := AfterAttempt(env, t, a);
            && WellFormed(u) && (Startable(u) <==> NoFileRoots(t) || [RESTORE_MARKER] !in u)
            && (NoFileRoots(u) <==> NoFileRoots(t))
  {
    var done := ScriptOf(env, t, a)[..a.cut];
    ProperPrefix(ScriptOf(env, t, a), a.cut);
    AfterWellFormed(t, done);
    InterruptedStartableExactly(env, a.os, t, a.source, a.manifest, a.staging, a.note, done);
  }

  lemma {:induction false} AttemptsExactly(env: Env, t: Tree, attempts: seq<Attempt>)
    requires WellFormed(t) && Startable(t) && AllInterrupted(env, t, attempts)
    ensures var w := AfterAttempts(env, t, attempts);
            WellFormed(w) && (Startable(w) <==> NoFileRoots(t) || [RESTORE_MARKER] !in w)
    decreases |attempts|
  {
    if attempts != [] {
      var u := AfterAttempt(env, t, attempts[0]);
      AttemptExactly(env, t, attempts[0]);
      if Startable(u) {
        AttemptsExactly(env, u, attempts[1..]);
      } else {
        var name :| IsRoot(name) && IsFile(u, [name]);
        AttemptsStayBlocked(env, u, attempts[1..], name);
      }
    }
  }

  /**
   * However many restores were interrupted, of whichever backups, the next one
   * of a backup that checks out runs to its end, and leaves that backup's files,
   * exactly when none of them got as far as its marker or there was no file with
   * the name of a staging directory.
   */
  lemma RetryGoesThrough(env: Env, t: Tree, attempts: seq<Attempt>, last: Attempt)
    requires WellFormed(t) && Startable(t) && AllInterrupted(env, t, attempts)
    requires Lawful(last.os) && IsStagingName(last.staging) && ValidName(last.staging)
    requires [last.staging] !in AfterAttempts(env, t, attempts)
    requires Restorable(env, last.source, last.manifest)
    requires Unclashing(RestoreCopies(env, last.source, last.manifest, last.manifest.files))
    ensures var w := AfterAttempts(env, t, attempts);
            && (Executes(w, ScriptOf(env, w, last)) <==> NoFileRoots(t) || [RESTORE_MARKER] !in w)
            && (Executes(w, ScriptOf(env, w, last)) ==>
                  ComponentFiles(After(w, ScriptOf(env, w, last))) == Restored(env, last.source, last.manifest))
  {
    var w := AfterAttempts(env, t, attempts);
    AttemptsExactly(env, t, attempts);
    RestoreRunsExactly(env, last.os, w, last.source, last.manifest, last.staging, last.note);
    if Executes(w, ScriptOf(env, w, last)) {
      RestoreCompleted(env, last.os, w, last.source, last.manifest, last.staging, last.note);
    }
  }
}
