/** The restore command, as the program runs it. */
module RestoreCommand {
  import opened Wrappers
  import opened Filesystem
  import opened Layout
  import opened Copying
  import opened Manifests
  import opened Verification
  import opened Backups
  import opened Restores
  import opened RestoreSafety
  import opened RestoreEffect
  import opened RestoreRetries
  import opened Disks

  // ------------------------------------------------------------------ clearing

  /** `directory_has_entries` over the components; `None` when one is not a directory. */
  method AnyPopulated(t: Tree) returns (populated: Option<bool>)
    ensures populated == Some(false) <==> ComponentsEmpty(t)
  {
    for i := 0 to |COMPONENTS|
      invariant forall k :: 0 <= k < i ==> EmptyOrAbsent(t, [COMPONENTS[k]])
    {
      var path := [COMPONENTS[i]];
      if path in t && t[path].File? {
        return None;
      }
      if path in t && !Childless(t, path) {
        return Some(true);
      }
    }
    assert COMPONENTS[0] == METADATA && COMPONENTS[1] == SYSTEM && COMPONENTS[2] == OBJECTS;
    populated := Some(false);
  }

  method Clear(os: System, disk: Disk) returns (failed: Option<Failure>)
    requires disk.Valid()
    modifies disk
    ensures disk.Valid()
    ensures Ran(old(disk.log), disk.log, ClearOps(os, old(disk.tree)), failed.None?)
    ensures failed == Some(DestinationNotEmpty) ==> [RESTORE_MARKER] !in disk.tree && !ComponentsEmpty(disk.tree)
    ensures [RESTORE_MARKER] !in old(disk.tree) ==> disk.log == old(disk.log)
  {
    if [RESTORE_MARKER] !in disk.tree {
      var populated := AnyPopulated(disk.tree);
      return if populated.None? then Some(Io) else if populated.value then Some(DestinationNotEmpty) else None;
    }
    ghost var start, components := disk.log, RemoveAllOps(os, disk.tree, COMPONENT_ROOTS);
    ghost var u := After(disk.tree, components);
    ghost var stale := RemoveAllOps(os, u, StaleRoots(os.names(u, [])));
    var removed := RemoveAll(os, disk, COMPONENT_ROOTS);
    if !removed {
      RanShort(start, disk.log, components, stale);
      return Some(Io);
    }
    ghost var between := disk.log;
    removed := RemoveStaleStaging(os, disk);
    RanThen(start, between, disk.log, components, stale, removed);
    failed := if removed then None else Some(Io);
  }

  /** The data directory exists, and holds nothing a restore would mix with. */
  method Open(os: System, disk: Disk) returns (failed: Option<Failure>)
    requires disk.Valid()
    modifies disk
    ensures disk.Valid()
    ensures Ran(old(disk.log), disk.log, OpeningOps(os, old(disk.tree)), failed.None?)
    ensures failed.None? ==> disk.tree == After(old(disk.tree), OpeningOps(os, old(disk.tree)))
  {
    ghost var start, t := disk.log, disk.tree;
    ghost var make, clear := [MakeDirs([])], ClearOps(os, Apply(disk.tree, MakeDirs([])));
    Where(disk);
    var made := disk.Do(MakeDirs([]));
    if !made {
      RanShort(start, disk.log, make, clear);
      return Some(Io);
    }
    ghost var between := disk.log;
    failed := Clear(os, disk);
    RanThen(start, between, disk.log, make, clear, failed.None?);
    if failed.None? {
      Where(disk);
      AfterConcat(disk.base, start, OpeningOps(os, t));
    }
  }

  // ------------------------------------------------------------------- staging

  lemma StagedCopy(env: Env, source: Tree, m: Manifest, f: BackupFile)
    ensures var p := SourcePath(m, f);
            var read := if IsFile(source, p) then Some(source[p].data) else None;
            Expected(f.path, read, env.digest, Some((f.size, f.sha256))) == RestoreCopy(env, source, m, f)
  {
  }

  method StageFiles(env: Env, os: System, disk: Disk, source: Tree, m: Manifest, staging: string)
    returns (failed: Option<Failure>)
    requires disk.Valid()
    modifies disk
    ensures disk.Valid()
    ensures Ran(old(disk.log), disk.log, CopyAllOps(os, [staging], RestoreCopies(env, source, m, m.files)),
                failed.None?)
  {
    ghost var start, copies := disk.log, RestoreCopies(env, source, m, m.files);
    ghost var ops := CopyAllOps(os, [staging], copies);
    ghost var left := ops;
    var i := 0;
    assert copies[0..] == copies;
    while i < |m.files|
      invariant i <= |m.files| && disk.Valid() && Pending(start, disk.log, ops, left)
      invariant left == CopyAllOps(os, [staging], copies[i..])
    {
      var f := m.files[i];
      var p := SourcePath(m, f);
      var read := if IsFile(source, p) then Some(source[p].data) else None;
      StagedCopy(env, source, m, f);
      ghost var before, first := disk.log, CopyOps(os, [staging], copies[i]);
      assert copies[i..][0] == copies[i] && copies[i..][1..] == copies[i + 1..];
      left := CopyAllOps(os, [staging], copies[i + 1..]);
      var copied := CopyFile(os, env.digest, disk, [staging], f.path, read, Some((f.size, f.sha256)));
      Onward(start, before, disk.log, ops, first, left, copied.Ok?);
      if copied.Err? {
        return Some(copied.error);
      }
      i := i + 1;
    }
    assert copies[|copies|..] == [];
    Finish(start, disk.log, ops);
    failed := None;
  }

  method Stage(env: Env, os: System, disk: Disk, source: Tree, m: Manifest, staging: string)
    returns (failed: Option<Failure>)
    requires disk.Valid()
    modifies disk
    ensures disk.Valid()
    ensures Ran(old(disk.log), disk.log, StageOps(env, os, source, m, staging), failed.None?)
  {
    ghost var start, copies := disk.log, CopyAllOps(os, [staging], RestoreCopies(env, source, m, m.files));
    var made := disk.Do(MakeDir([staging]));
    if !made {
      RanShort(start, disk.log, [MakeDir([staging])], copies);
      return Some(Io);
    }
    ghost var between := disk.log;
    failed := StageFiles(env, os, disk, source, m, staging);
    RanThen(start, between, disk.log, [MakeDir([staging])], copies, failed.None?);
  }

  // ---------------------------------------------------------------- installing

  /** Puts one staged component in place, as an empty directory if nothing was staged for it. */
  method InstallComponent(os: System, disk: Disk, staging: string, component: string) returns (ok: bool)
    requires disk.Valid()
    modifies disk
    ensures disk.Valid()
    ensures Ran(old(disk.log), disk.log, InstallOne(os, old(disk.tree), staging, component), ok)
  {
    ghost var start, t := disk.log, disk.tree;
    ghost var make := if [staging, component] in t then [] else [MakeDirs([staging, component])];
    ghost var remove := RemoveOps(os, After(t, make), [component]);
    ghost var move := [Rename([staging, component], [component])];
    ghost var ops := make + remove + move;
    assert ops == make + (remove + move);
    Begin(start, ops);
    if [staging, component] !in disk.tree {
      ok := disk.Do(MakeDirs([staging, component]));
      Onward(start, start, disk.log, ops, make, remove + move, ok);
      if !ok {
        return;
      }
      AfterOne(t, MakeDirs([staging, component]));
    }
    ghost var before := disk.log;
    ok := RemoveIfPresent(os, disk, [component]);
    Onward(start, before, disk.log, ops, remove, move, ok);
    if !ok {
      return;
    }
    ghost var between := disk.log;
    ok := disk.Do(Rename([staging, component], [component]));
    assert move + [] == move;
    Onward(start, between, disk.log, ops, move, [], ok);
    if ok {
      Finish(start, disk.log, ops);
    }
  }

  method Install(os: System, disk: Disk, staging: string, components: seq<string>) returns (ok: bool)
    requires disk.Valid()
    modifies disk
    ensures disk.Valid()
    ensures Ran(old(disk.log), disk.log, InstallOps(os, old(disk.tree), staging, components), ok)
    ensures ok ==> disk.tree == After(old(disk.tree), InstallOps(os, old(disk.tree), staging, components))
  {
    ghost var start, ops := disk.log, InstallOps(os, disk.tree, staging, components);
    Where(disk);
    var i := 0;
    assert components[0..] == components;
    while i < |components|
      invariant i <= |components| && disk.Valid()
      invariant Pending(start, disk.log, ops, InstallOps(os, disk.tree, staging, components[i..]))
    {
      ghost var before, t, first := disk.log, disk.tree, InstallOne(os, disk.tree, staging, components[i]);
      assert components[i..][0] == components[i] && components[i..][1..] == components[i + 1..];
      ghost var rest := InstallOps(os, After(t, first), staging, components[i + 1..]);
      Where(disk);
      ok := InstallComponent(os, disk, staging, components[i]);
      Onward(start, before, disk.log, ops, first, rest, ok);
      if !ok {
        return;
      }
      Where(disk);
      AfterConcat(disk.base, before, first);
      i := i + 1;
    }
    Finish(start, disk.log, ops);
    Where(disk);
    AfterConcat(disk.base, start, ops);
    ok := true;
  }

  // ------------------------------------------------------------------ the whole

  lemma RegroupFour<T>(a: seq<T>, b: seq<T>, c: seq<T>, d: seq<T>)
    ensures (a + b) + c + d == a + (b + (c + d))
  {
  }

  /** Stage and install; the marker is already there, still empty. */
  method FillAndInstall(env: Env, os: System, disk: Disk, source: Tree, m: Manifest, staging: string, note: Bytes)
    returns (failed: Option<Failure>)
    requires disk.Valid()
    modifies disk
    ensures disk.Valid()
    ensures Ran(old(disk.log), disk.log, MarkedOps(env, os, old(disk.tree), source, m, staging, note), failed.None?)
  {
    ghost var start, t, ops := disk.log, disk.tree, MarkedOps(env, os, disk.tree, source, m, staging, note);
    ghost var append, stage := Appends(os, [RESTORE_MARKER], note, 0), StageOps(env, os, source, m, staging);
    ghost var u := After(t, append + stage);
    ghost var install := InstallOps(os, u, staging, COMPONENTS);
    ghost var remove := RemoveOps(os, After(u, install), [staging]);
    RegroupFour(append, stage, install, remove);
    Begin(start, ops);
    Where(disk);
    var written := WriteAll(os, disk, [RESTORE_MARKER], note);
    Onward(start, start, disk.log, ops, append, stage + (install + remove), written);
    if !written {
      return Some(Io);
    }
    ghost var marked := disk.log;
    failed := Stage(env, os, disk, source, m, staging);
    Onward(start, marked, disk.log, ops, stage, install + remove, failed.None?);
    if failed.Some? {
      return;
    }
    assert disk.log == start + (append + stage);
    Where(disk);
    AfterConcat(disk.base, start, append + stage);
    var installed := InstallStaged(os, disk, staging, start, ops, u, install, remove);
    failed := if installed then None else Some(Io);
  }

  method InstallStaged(os: System, disk: Disk, staging: string, ghost start: seq<Op>, ghost ops: seq<Op>, ghost u: Tree,
                       ghost install: seq<Op>, ghost remove: seq<Op>) returns (ok: bool)
    requires disk.Valid() && disk.tree == u && Pending(start, disk.log, ops, install + remove)
    requires install == InstallOps(os, u, staging, COMPONENTS)
    requires remove == RemoveOps(os, After(u, install), [staging])
    modifies disk
    ensures disk.Valid() && Ran(start, disk.log, ops, ok)
  {
    ghost var staged := disk.log;
    ok := Install(os, disk, staging, COMPONENTS);
    Onward(start, staged, disk.log, ops, install, remove, ok);
    if !ok {
      return;
    }
    ghost var installed := disk.log;
    ok := RemoveIfPresent(os, disk, [staging]);
    assert remove + [] == remove;
    Onward(start, installed, disk.log, ops, remove, [], ok);
    if ok {
      Finish(start, disk.log, ops);
    }
  }

  /** From the marker's creation to its removal. */
  method MarkFillUnmark(env: Env, os: System, disk: Disk, source: Tree, m: Manifest, staging: string, note: Bytes)
    returns (failed: Option<Failure>)
    requires disk.Valid()
    modifies disk
    ensures disk.Valid()
    ensures Ran(old(disk.log), disk.log, TailOps(env, os, old(disk.tree), source, m, staging, note), failed.None?)
  {
    ghost var start, ops := disk.log, TailOps(env, os, disk.tree, source, m, staging, note);
    ghost var create, unmark := [Truncate([RESTORE_MARKER])], [Unlink([RESTORE_MARKER])];
    ghost var marked := MarkedOps(env, os, Apply(disk.tree, Truncate([RESTORE_MARKER])), source, m, staging, note);
    Begin(start, ops);
    var done := disk.Do(Truncate([RESTORE_MARKER]));
    Onward(start, start, disk.log, ops, create, marked + unmark, done);
    if !done {
      return Some(Io);
    }
    ghost var created := disk.log;
    failed := FillAndInstall(env, os, disk, source, m, staging, note);
    Onward(start, created, disk.log, ops, marked, unmark, failed.None?);
    if failed.Some? {
      return;
    }
    ghost var filled := disk.log;
    done := disk.Do(Unlink([RESTORE_MARKER]));
    assert unmark + [] == unmark;
    Onward(start, filled, disk.log, ops, unmark, [], done);
    if !done {
      return Some(Io);
    }
    Finish(start, disk.log, ops);
  }

  method RunRestore(env: Env, os: System, disk: Disk, source: Tree, m: Manifest, staging: string, note: Bytes)
    returns (failed: Option<Failure>)
    requires disk.Valid()
    modifies disk
    ensures disk.Valid()
    ensures Ran(old(disk.log), disk.log, RestoreScript(env, os, old(disk.tree), source, m, staging, note), failed.None?)
  {
    ghost var start, t, opening := disk.log, disk.tree, OpeningOps(os, disk.tree);
    ghost var tail := TailOps(env, os, After(t, opening), source, m, staging, note);
    failed := Open(os, disk);
    if failed.Some? {
      RanShort(start, disk.log, opening, tail);
      return;
    }
    ghost var between := disk.log;
    failed := MarkFillUnmark(env, os, disk, source, m, staging, note);
    RanThen(start, between, disk.log, opening, tail, failed.None?);
  }

  /** What is left for the operator to do. */
  datatype Outstanding = KeyConfirmed | KeyNotConfirmed | RootSecrets

  datatype RestoreReport = RestoreReport(
    level: Level, components: seq<BackupComponent>, totalBytes: nat, cleared: bool, outstanding: seq<Outstanding>)

  /** Decides whether the backup may be restored at all. */
  method Admit(env: Env, os: System, settings: Settings, source: Tree, level: Level)
    returns (r: Result<Report, Failure>)
    requires Lawful(os) && WellFormed(source)
    ensures r.Ok? <==> RestoreAdmitted(env, source, level, settings)
    ensures r.Ok? ==> && r.value.manifest == Some(ReadManifest(env, source).value)
                      && (r.value.manifest.value.encrypted ==> r.value.keyMatches == Some(true))
  {
    r := Verify(env, os, source, level, settings.masterKey);
    if r.Err? {
      return;
    }
    if !r.value.usable {
      return Err(Unusable);
    }
    var m := r.value.manifest.value;
    if m.sealingKey.Some?
       && m.sealingKey.value != (if settings.sealingKey.Some? then settings.sealingKey.value else "") {
      return Err(Unusable);
    }
  }

  lemma StillPopulated(t: Tree, u: Tree, p: Path)
    requires forall q :: q in t ==> q in u && u[q] == t[q]
    ensures EmptyOrAbsent(u, p) ==> EmptyOrAbsent(t, p)
  {
  }

  /** A populated data directory without the marker is a real deployment: it is left as it is. */
  lemma PopulatedIsRefused(env: Env, os: System, t: Tree, source: Tree, m: Manifest, staging: string, note: Bytes,
                           done: seq<Op>)
    requires [RESTORE_MARKER] !in t && !ComponentsEmpty(t)
    requires done <= RestoreScript(env, os, t, source, m, staging, note) && Executes(t, done)
    ensures done != RestoreScript(env, os, t, source, m, staging, note) && Untouched(t, After(t, done))
  {
    var script, u := RestoreScript(env, os, t, source, m, staging, note), Apply(t, MakeDirs([]));
    StillPopulated(t, u, [METADATA]);
    StillPopulated(t, u, [SYSTEM]);
    StillPopulated(t, u, [OBJECTS]);
    assert [RESTORE_MARKER] !in u && !ComponentsEmpty(u);
    assert OpeningOps(os, t) == [MakeDirs([])] + [Stop];
    StopsThere(t, MakeDirs([]), TailOps(env, os, After(t, OpeningOps(os, t)), source, m, staging, note), done);
    AfterOne(t, MakeDirs([]));
  }

  lemma StopsThere(t: Tree, op: Op, rest: seq<Op>, done: seq<Op>)
    requires done <= [op] + [Stop] + rest && Executes(t, done)
    ensures done == [] || done == [op]
  {
    if |done| >= 2 {
      ExecutesPrefix(t, [op, Stop], done);
      AfterSnoc(t, [op], Stop);
    }
  }

  /** Stopped at any point of an admitted restore: never a mixture without the marker. */
  lemma RestoreOutcome(env: Env, os: System, t: Tree, u: Tree, source: Tree, m: Manifest, staging: string, note: Bytes,
                       ok: bool)
    requires Lawful(os) && WellFormed(t) && IsStagingName(staging)
    requires Stopped(t, u, RestoreScript(env, os, t, source, m, staging, note), ok)
    ensures || [RESTORE_MARKER] in u || Untouched(t, u)
            || (Restorable(env, source, m) && ComponentFiles(u) == Restored(env, source, m))
    ensures ok ==> && Restorable(env, source, m) && ComponentFiles(u) == Restored(env, source, m)
                   && [RESTORE_MARKER] !in u && Vacant(u, [staging])
                   && (NoStaging(u) <==> StagingIsMarked(t))
    ensures [RESTORE_MARKER] !in t && !ComponentsEmpty(t) ==> !ok && Untouched(t, u)
    ensures forall name :: !RestoreOwns(name) ==> SameUnder(t, u, name)
  {
    var script := RestoreScript(env, os, t, source, m, staging, note);
    var done :| done <= script && Executes(t, done) && u == After(t, done) && (ok ==> done == script);
    RestoreInterrupted(env, os, t, source, m, staging, note, done);
    if done == script {
      RestoreCompleted(env, os, t, source, m, staging, note);
      NoStagingExactly(env, t, Attempt(os, source, m, staging, note, 0));
    }
    if [RESTORE_MARKER] !in t && !ComponentsEmpty(t) {
      PopulatedIsRefused(env, os, t, source, m, staging, note, done);
    }
    forall name | !RestoreOwns(name) ensures SameUnder(t, u, name) {
      RestoreTouchesOnlyItsOwn(env, os, t, source, m, staging, note, name);
      assert NoneTouch(done, name);
      Frame(t, done, name);
    }
  }

  /**
   * `restore`.  Nothing is written unless the backup is admitted.  However it
   * ends, the marker is in place, or nothing was changed, or the components are
   * the manifest's; success means the last, and nothing else was touched.  Its
   * own staging directory is gone then; no other is left exactly when there was
   * a marker beside those there were.
   */
  method Restore(env: Env, os: System, settings: Settings, source: Tree, level: Level, disk: Disk, staging: string,
                 note: Bytes) returns (r: Result<RestoreReport, Failure>)
    requires Lawful(os) && WellFormed(source) && disk.Valid() && WellFormed(disk.tree) && IsStagingName(staging)
    modifies disk
    ensures disk.Valid()
    ensures !RestoreAdmitted(env, source, level, settings) ==> r.Err? && disk.tree == old(disk.tree)
    ensures RestoreAdmitted(env, source, level, settings) ==>
              var m := ReadManifest(env, source).value;
              && Stopped(old(disk.tree), disk.tree, RestoreScript(env, os, old(disk.tree), source, m, staging, note),
                         r.Ok?)
              && (|| [RESTORE_MARKER] in disk.tree || Untouched(old(disk.tree), disk.tree)
                  || (Restorable(env, source, m) && ComponentFiles(disk.tree) == Restored(env, source, m)))
              && ([RESTORE_MARKER] !in old(disk.tree) && !ComponentsEmpty(old(disk.tree)) ==>
                    r.Err? && Untouched(old(disk.tree), disk.tree))
              && (forall name :: !RestoreOwns(name) ==> SameUnder(old(disk.tree), disk.tree, name))
    ensures r.Ok? ==>
              var m := ReadManifest(env, source).value;
              && Restorable(env, source, m) && ComponentFiles(disk.tree) == Restored(env, source, m)
              && [RESTORE_MARKER] !in disk.tree && Vacant(disk.tree, [staging])
              && (NoStaging(disk.tree) <==> StagingIsMarked(old(disk.tree)))
              && r.value.level == level && r.value.components == m.components && r.value.totalBytes == m.totalBytes
              && r.value.cleared == ([RESTORE_MARKER] in old(disk.tree))
              && r.value.outstanding == (if m.encrypted then [KeyConfirmed] else []) + [RootSecrets]
  {
    var admitted := Admit(env, os, settings, source, level);
    if admitted.Err? {
      return Err(admitted.error);
    }
    var m := admitted.value.manifest.value;
    var interrupted := [RESTORE_MARKER] in disk.tree;
    ghost var before, t := disk.log, disk.tree;
    Where(disk);
    var failed := RunRestore(env, os, disk, source, m, staging, note);
    Where(disk);
    Replay(disk.base, before, disk.log, RestoreScript(env, os, t, source, m, staging, note), failed.None?);
    RestoreOutcome(env, os, t, disk.tree, source, m, staging, note, failed.None?);
    if failed.Some? {
      return Err(failed.value);
    }
    var outstanding := if !m.encrypted then []
                       else if admitted.value.keyMatches == Some(true) then [KeyConfirmed]
                       else [KeyNotConfirmed];
    r := Ok(RestoreReport(level, m.components, m.totalBytes, interrupted, outstanding + [RootSecrets]));
  }
}
