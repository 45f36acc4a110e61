/** Restoring a verified backup into an empty or interrupted data directory. */
module Restores {
  import opened Wrappers
  import opened Filesystem
  import opened Layout
  import opened Copying
  import opened Manifests
  import opened Verification
  import opened Backups

  // -------------------------------------------------------------- the script

  /** What each manifest entry brings: its bytes in the backup, and whether they match. */
  function RestoreCopy(env: Env, source: Tree, m: Manifest, f: BackupFile): Copy {
    var p := SourcePath(m, f);
    if IsFile(source, p) then
      Copy(f.path, Some(source[p].data),
           Size(source[p].data) == f.size && env.digest(source[p].data) == f.sha256)
    else Copy(f.path, None, false)
  }

  function RestoreCopies(env: Env, source: Tree, m: Manifest, files: seq<BackupFile>): (copies: seq<Copy>)
    ensures |copies| == |files|
    ensures forall i :: 0 <= i < |files| ==> copies[i] == RestoreCopy(env, source, m, files[i])
  {
    seq(|files|, i requires 0 <= i < |files| => RestoreCopy(env, source, m, files[i]))
  }

  function RemoveAllOps(os: System, t: Tree, roots: seq<Path>): seq<Op>
    decreases |roots|
  {
    if roots == [] then []
    else
      var first := RemoveOps(os, t, roots[0]);
      first + RemoveAllOps(os, After(t, first), roots[1..])
  }

  const COMPONENT_ROOTS: seq<Path> := [[METADATA], [SYSTEM], [OBJECTS]]

  /** Staging directories earlier attempts left behind. */
  function StaleRoots(names: seq<string>): (roots: seq<Path>)
    ensures forall root :: root in roots <==> |root| == 1 && root[0] in names && IsStagingName(root[0])
  {
    if names == [] then []
    else
      assert forall root: Path :: |root| == 1 ==> root == [root[0]];
      (if IsStagingName(names[0]) then [[names[0]]] else []) + StaleRoots(names[1..])
  }

  predicate EmptyOrAbsent(t: Tree, p: Path) {
    p in t ==> t[p].Dir? && Childless(t, p)
  }

  predicate ComponentsEmpty(t: Tree) {
    EmptyOrAbsent(t, [METADATA]) && EmptyOrAbsent(t, [SYSTEM]) && EmptyOrAbsent(t, [OBJECTS])
  }

  /** An interrupted restore is cleared away; a populated directory is refused. */
  function ClearOps(os: System, t: Tree): seq<Op> {
    if [RESTORE_MARKER] in t then
      var components := RemoveAllOps(os, t, COMPONENT_ROOTS);
      var u := After(t, components);
      components + RemoveAllOps(os, u, StaleRoots(os.names(u, [])))
    else Guard(ComponentsEmpty(t))
  }

  function StageOps(env: Env, os: System, source: Tree, m: Manifest, staging: string): seq<Op> {
    [MakeDir([staging])] + CopyAllOps(os, [staging], RestoreCopies(env, source, m, m.files))
  }

  function InstallOne(os: System, t: Tree, staging: string, component: string): seq<Op> {
    var make := if [staging, component] in t then [] else [MakeDirs([staging, component])];
    make + RemoveOps(os, After(t, make), [component]) + [Rename([staging, component], [component])]
  }

  function InstallOps(os: System, t: Tree, staging: string, components: seq<string>): seq<Op>
    decreases |components|
  {
    if components == [] then []
    else
      var first := InstallOne(os, t, staging, components[0]);
      first + InstallOps(os, After(t, first), staging, components[1..])
  }

  /** Up to the first durable change, nothing but clearing. */
  function OpeningOps(os: System, t: Tree): seq<Op> {
    [MakeDirs([])] + ClearOps(os, Apply(t, MakeDirs([])))
  }

  /** Everything done under the marker: fill the staging directory, then install it. */
  function MarkedOps(env: Env, os: System, t: Tree, source: Tree, m: Manifest, staging: string, note: Bytes): seq<Op> {
    var stage := Appends(os, [RESTORE_MARKER], note, 0) + StageOps(env, os, source, m, staging);
    var u := After(t, stage);
    var install := InstallOps(os, u, staging, COMPONENTS);
    stage + install + RemoveOps(os, After(u, install), [staging])
  }

  /** From the marker's creation to its removal. */
  function TailOps(env: Env, os: System, t: Tree, source: Tree, m: Manifest, staging: string, note: Bytes): seq<Op> {
    [Truncate([RESTORE_MARKER])]
    + (MarkedOps(env, os, Apply(t, Truncate([RESTORE_MARKER])), source, m, staging, note)
       + [Unlink([RESTORE_MARKER])])
  }

  /** Everything a restore does to the data directory, in order. */
  function RestoreScript(env: Env, os: System, t: Tree, source: Tree, m: Manifest, staging: string,
                         note: Bytes): seq<Op> {
    OpeningOps(os, t) + TailOps(env, os, After(t, OpeningOps(os, t)), source, m, staging, note)
  }

  /** What must hold before a restore writes anything. */
  ghost predicate RestoreAdmitted(env: Env, source: Tree, level: Level, settings: Settings) {
    && Usable(env, source, level, settings.masterKey)
    && var m := ReadManifest(env, source).value;
      m.sealingKey.Some? ==>
        m.sealingKey.value == if settings.sealingKey.Some? then settings.sealingKey.value else ""
  }
}
